/** Any number of Modbus and raw-ingest connections on one store, interleaved step by step.

    A Modbus request passes three separate critical sections: the seal check reads the flag, the policy
    is consulted, and the request is dispatched. Other connections may run in between. */
module Gates {
  import opened Words
  import opened Bits
  import opened Outcomes
  import opened Layouts
  import opened Stores
  import opened Pdus
  import opened Mbap
  import opened RawIngest
  import opened Conns
  import opened Dispatching
  import opened Answers
  import opened Authorities
  import opened Servers
  import opened Histories

  /** An answer of connection `conn`. The moments are numbers of accesses the store had seen: when the
      request had been read, when the sealing flag was checked, when the request was dispatched. A
      refusal is decided at the check. */
  datatype Reply =
    | Refused(conn: int, req: Request, src: Addr, code: byte, read: nat, at: nat)
    | Served(conn: int, req: Request, src: Addr, pdu: seq<byte>, read: nat, checked: nat, at: nat)
  {
    function Pdu(): seq<byte> {
      match this
      case Refused(_, req, _, code, _, _) => BuildExceptionPDU(req.functionCode, code)
      case Served(_, _, _, pdu, _, _, _) => pdu
    }
  }

  /** Where a connection stands. `Judging` and `Pending` are past the seal check. */
  datatype Peer =
    | Reading(port: u16, src: Addr, input: seq<byte>)
    | Checking(port: u16, src: Addr, input: seq<byte>, req: Request, read: nat)
    | Judging(port: u16, src: Addr, input: seq<byte>, req: Request, read: nat, checked: nat)
    | Pending(port: u16, src: Addr, input: seq<byte>, req: Request, read: nat, checked: nat)
    | Answering(port: u16, src: Addr, input: seq<byte>, reply: Reply)
    | Receiving(port: u16, input: seq<byte>)
    | Writing(port: u16, input: seq<byte>, pkt: Packet, read: nat)
    | Reporting(port: u16, input: seq<byte>, status: byte, last: bool)
    | Closed

  /** Who made an access, when its bytes had been read and, for a request, when its seal was checked. */
  datatype Stamp = Stamp(conn: int, read: nat, checked: nat)

  /** `stamps` runs along `log`; `replies` and `statuses` are what has been written to the peers. */
  datatype Machine = Machine(
    store: Contents,
    peers: map<int, Peer>,
    log: seq<Access>,
    stamps: seq<Stamp>,
    replies: seq<Reply>,
    statuses: seq<(int, byte)>)

  function Become(m: Machine, c: int, peer: Peer): Machine { m.(peers := m.peers[c := peer]) }

  /** An access takes effect and is logged. */
  function Commit(m: Machine, e: Access, stamp: Stamp): Machine {
    m.(store := Effect(m.store, e), log := m.log + [e], stamps := m.stamps + [stamp])
  }

  /** Where the seal check leads. */
  function Checked(m: Machine, c: int, peer: Peer, sealed: bool): Peer
    requires peer.Checking?
  {
    var Checking(port, src, input, req, read) := peer;
    if sealed then Answering(port, src, input, Refused(c, req, src, DEVICE_BUSY, read, |m.log|))
    else Judging(port, src, input, req, read, |m.log|)
  }

  /** Where a connection goes by itself: reading from its peer, and judging. */
  function Next(peer: Peer, auth: Auth, c: int, now: nat): Peer {
    match peer
    case Reading(port, src, input) =>
      var (r, rest) := ParseRequest(input, port);
      if r.Err? then Closed else Checking(port, src, rest, r.value, now)
    case Judging(port, src, input, req, read, checked) =>
      (match Judge(auth, Target(req), src, req.functionCode)
       case Allow => Pending(port, src, input, req, read, checked)
       case Deny(code) => Answering(port, src, input, Refused(c, req, src, code, read, checked)))
    case Receiving(port, input) =>
      var (r, rest) := ParsePacket(input, port);
      if r.Ok? then Writing(port, rest, r.value, now)
      else if r.error == EOF then Closed
      else Reporting(port, rest, RESP_REJECTED, true)
    case _ => peer
  }

  /** The next step of connection `c`; `ok` says whether a write to its peer succeeds. */
  function Step(m: Machine, auth: Auth, c: int, ok: bool): Machine {
    if c !in m.peers then m
    else
      match m.peers[c]
      case Checking(_, _, _, req, _) =>
        Become(m, c, Checked(m, c, m.peers[c], Sealed(m.store, Target(req))))
      case Pending(port, src, input, req, read, checked) =>
        var reply := Served(c, req, src, Dispatch(m.store, req).1, read, checked, |m.log|);
        Become(Commit(m, Dispatched(req), Stamp(c, read, checked)), c, Answering(port, src, input, reply))
      case Answering(port, src, input, reply) =>
        Become(m, c, if ok || reply.Refused? then Reading(port, src, input) else Closed)
          .(replies := if ok then m.replies + [reply] else m.replies)
      case Writing(port, input, pkt, read) =>
        Become(Commit(m, Ingested(pkt), Stamp(c, read, read)), c, Reporting(port, input, Ingest(m.store, pkt).1, false))
      case Reporting(port, input, status, last) =>
        Become(m, c, if last then Closed else Receiving(port, input))
          .(statuses := if ok then m.statuses + [(c, status)] else m.statuses)
      case _ => Become(m, c, Next(m.peers[c], auth, c, |m.log|))
  }

  /** A step changes one connection only. */
  lemma StepFrame(m: Machine, auth: Auth, c: int, ok: bool)
    ensures var n := Step(m, auth, c, ok);
            n.peers.Keys == m.peers.Keys && forall d | d in m.peers && d != c :: n.peers[d] == m.peers[d]
  {
    hide Next, Dispatch, Ingest, Sealed, Effect, Checked;
  }

  /** Steps that neither check, dispatch nor write do not look at the memories. */
  lemma StepWithoutStore(m: Machine, auth: Auth, c: int, ok: bool, s: Contents)
    requires c in m.peers && !m.peers[c].Checking? && !m.peers[c].Pending? && !m.peers[c].Writing?
    ensures Step(m.(store := s), auth, c, ok) == Step(m, auth, c, ok).(store := s)
  {
    hide Next, Dispatch, Ingest, Sealed, Effect, Checked, Commit;
    match m.peers[c]
    case Answering(_, _, _, _) =>
    case Reporting(_, _, _, _) =>
    case _ =>
  }

  /** A schedule says which connection moves next, and whether its write, if any, succeeds. */
  function Exec(m: Machine, auth: Auth, schedule: seq<(int, bool)>): Machine {
    if schedule == [] then m
    else
      var (c, ok) := schedule[|schedule| - 1];
      Step(Exec(m, auth, schedule[..|schedule| - 1]), auth, c, ok)
  }

  predicate Initial(m: Machine) {
    && m.log == [] && m.stamps == [] && m.replies == [] && m.statuses == []
    && forall c | c in m.peers :: m.peers[c].Reading? || m.peers[c].Receiving?
  }

  /** After its first `n` accesses the store let requests for `mid` through. */
  predicate OpenAt(s: Contents, log: seq<Access>, mid: MemoryID, n: nat) {
    n <= |log| && !Sealed(Replay(s, log[..n]), mid)
  }

  /** The access at place `k` was made after its own bytes were read and, for a request, after its own
      seal check, which found the memory open. */
  predicate Gate(s: Contents, log: seq<Access>, stamp: Stamp, k: nat)
    requires k < |log|
  {
    && stamp.read <= stamp.checked <= k
    && (log[k].Dispatched? ==> OpenAt(s, log, Place(log[k]), stamp.checked))
  }

  /** Every access passed the gate in this sense. */
  predicate Gated(s: Contents, log: seq<Access>, stamps: seq<Stamp>) {
    |stamps| == |log| && forall k: nat | k < |log| :: Gate(s, log, stamps[k], k)
  }

  /** All accesses of `conn` so far are among the first `n`. */
  predicate Before(stamps: seq<Stamp>, conn: int, n: nat) {
    forall k: nat | k < |stamps| && stamps[k].conn == conn :: k < n
  }

  /** A connection reads a request or packet only after its previous one has taken effect. */
  predicate OneAtATime(stamps: seq<Stamp>) {
    forall k: nat, l: nat | k < l < |stamps| && stamps[k].conn == stamps[l].conn :: k < stamps[l].read
  }

  /** A reply is justified by the state of the store at the moments it names. */
  predicate Justified(s: Contents, auth: Auth, log: seq<Access>, stamps: seq<Stamp>, reply: Reply) {
    match reply
    case Refused(_, req, src, code, read, at) =>
      && read <= at <= |log|
      && (if Sealed(Replay(s, log[..at]), Target(req)) then code == DEVICE_BUSY
          else Judge(auth, Target(req), src, req.functionCode) == Deny(code))
    case Served(conn, req, src, pdu, read, checked, at) =>
      && Judge(auth, Target(req), src, req.functionCode) == Allow
      && read <= checked <= at < |log| && OpenAt(s, log, Target(req), checked)
      && log[at] == Dispatched(req) && at < |stamps| && stamps[at] == Stamp(conn, read, checked)
      && pdu == Dispatch(Replay(s, log[..at]), req).1
  }

  predicate PeerInv(s: Contents, auth: Auth, log: seq<Access>, stamps: seq<Stamp>, c: int, peer: Peer) {
    match peer
    case Checking(_, _, _, req, read) => read <= |log| && Before(stamps, c, read)
    case Judging(_, _, _, req, read, checked) =>
      read <= checked && Before(stamps, c, read) && OpenAt(s, log, Target(req), checked)
    case Pending(_, src, _, req, read, checked) =>
      && read <= checked && Before(stamps, c, read) && OpenAt(s, log, Target(req), checked)
      && Judge(auth, Target(req), src, req.functionCode) == Allow
    case Answering(_, _, _, reply) => reply.conn == c && Justified(s, auth, log, stamps, reply)
    case Writing(_, _, _, read) => read <= |log| && Before(stamps, c, read)
    case _ => true
  }

  predicate Inv(s: Contents, auth: Auth, m: Machine) {
    && m.store == Replay(s, m.log)
    && Gated(s, m.log, m.stamps) && OneAtATime(m.stamps)
    && (forall c | c in m.peers :: PeerInv(s, auth, m.log, m.stamps, c, m.peers[c]))
    && (forall reply | reply in m.replies :: Justified(s, auth, m.log, m.stamps, reply))
  }

  lemma ReplaySnoc(s: Contents, log: seq<Access>, e: Access)
    ensures Replay(s, log + [e]) == Effect(Replay(s, log), e)
  {
    assert (log + [e])[..|log|] == log;
  }

  lemma StaysOpen(s: Contents, log: seq<Access>, e: Access, mid: MemoryID, n: nat)
    requires n <= |log|
    ensures OpenAt(s, log + [e], mid, n) == OpenAt(s, log, mid, n)
  {
    assert (log + [e])[..n] == log[..n];
  }

  lemma StaysJustified(s: Contents, auth: Auth, log: seq<Access>, stamps: seq<Stamp>, e: Access, t: Stamp, reply: Reply)
    requires Justified(s, auth, log, stamps, reply) && |stamps| == |log|
    ensures Justified(s, auth, log + [e], stamps + [t], reply)
  {
    hide Replay, Dispatch, Sealed, Judge, OpenAt;
    assert (log + [e])[..reply.at] == log[..reply.at];
    if reply.Served? {
      StaysOpen(s, log, e, Target(reply.req), reply.checked);
      assert (log + [e])[reply.at] == log[reply.at] && (stamps + [t])[reply.at] == stamps[reply.at];
    }
  }

  /** Another connection keeps its part of the invariant. */
  lemma PeerStays(s: Contents, auth: Auth, log: seq<Access>, stamps: seq<Stamp>, e: Access, t: Stamp, c: int, peer: Peer)
    requires PeerInv(s, auth, log, stamps, c, peer) && |stamps| == |log| && t.conn != c
    ensures PeerInv(s, auth, log + [e], stamps + [t], c, peer)
  {
    hide Justified, OpenAt, Judge;
    match peer
    case Judging(_, _, _, req, _, checked) => StillOpen(s, log, e, Target(req), checked);
    case Pending(_, _, _, req, _, checked) => StillOpen(s, log, e, Target(req), checked);
    case Answering(_, _, _, reply) => StaysJustified(s, auth, log, stamps, e, t, reply);
    case _ =>
  }

  lemma StillOpen(s: Contents, log: seq<Access>, e: Access, mid: MemoryID, n: nat)
    requires OpenAt(s, log, mid, n)
    ensures OpenAt(s, log + [e], mid, n)
  {
    StaysOpen(s, log, e, mid, n);
  }

  lemma GatedSnoc(s: Contents, log: seq<Access>, stamps: seq<Stamp>, e: Access, t: Stamp)
    requires Gated(s, log, stamps) && t.read <= t.checked <= |log|
    requires e.Dispatched? ==> OpenAt(s, log, Place(e), t.checked)
    ensures Gated(s, log + [e], stamps + [t])
  {
    hide OpenAt;
    forall k: nat | k < |log + [e]|
      ensures Gate(s, log + [e], (stamps + [t])[k], k)
    {
      if k < |log| {
        assert Gate(s, log, stamps[k], k);
        StaysOpen(s, log, e, Place(log[k]), stamps[k].checked);
      } else {
        StaysOpen(s, log, e, Place(e), t.checked);
      }
    }
  }

  /** An access by connection `c` keeps the invariant, if its own new state is right. */
  lemma AccessKeepsInv(s: Contents, auth: Auth, m: Machine, e: Access, t: Stamp, peer: Peer)
    requires Inv(s, auth, m) && t.read <= t.checked <= |m.log| && Before(m.stamps, t.conn, t.read)
    requires e.Dispatched? ==> OpenAt(s, m.log, Place(e), t.checked)
    requires PeerInv(s, auth, m.log + [e], m.stamps + [t], t.conn, peer)
    ensures Inv(s, auth, Become(Commit(m, e, t), t.conn, peer))
  {
    hide Effect, Replay, OpenAt, Justified, PeerInv, Gate;
    ReplaySnoc(s, m.log, e);
    GatedSnoc(s, m.log, m.stamps, e, t);
    forall i | i in m.peers && i != t.conn
      ensures PeerInv(s, auth, m.log + [e], m.stamps + [t], i, m.peers[i])
    {
      PeerStays(s, auth, m.log, m.stamps, e, t, i, m.peers[i]);
    }
    forall reply | reply in m.replies
      ensures Justified(s, auth, m.log + [e], m.stamps + [t], reply)
    {
      StaysJustified(s, auth, m.log, m.stamps, e, t, reply);
    }
  }

  lemma StepKeepsInv(s: Contents, auth: Auth, m: Machine, c: int, ok: bool)
    requires Inv(s, auth, m)
    ensures Inv(s, auth, Step(m, auth, c, ok))
  {
    hide Replay, Gated, OneAtATime, ParseRequest, ParsePacket, Dispatch, Ingest, Sealed, Judge, Effect;
    if c in m.peers {
      assert PeerInv(s, auth, m.log, m.stamps, c, m.peers[c]);
      assert m.log[..|m.log|] == m.log;
      InStep(s, m);
      match m.peers[c]
      case Pending(port, src, input, req, read, checked) =>
        var e, t := Dispatched(req), Stamp(c, read, checked);
        var reply := Served(c, req, src, Dispatch(m.store, req).1, read, checked, |m.log|);
        assert (m.log + [e])[..|m.log|] == m.log;
        StaysOpen(s, m.log, e, Target(req), checked);
        AccessKeepsInv(s, auth, m, e, t, Answering(port, src, input, reply));
      case Writing(port, input, pkt, read) =>
        AccessKeepsInv(s, auth, m, Ingested(pkt), Stamp(c, read, read),
                       Reporting(port, input, Ingest(m.store, pkt).1, false));
      case _ =>
    }
  }

  lemma InStep(s: Contents, m: Machine)
    requires Gated(s, m.log, m.stamps)
    ensures |m.stamps| == |m.log|
  {
  }

  /** The invariant holds in every interleaving of any connections. */
  lemma {:induction false} Reachable(m: Machine, auth: Auth, schedule: seq<(int, bool)>)
    requires Initial(m)
    ensures Inv(m.store, auth, Exec(m, auth, schedule))
    decreases |schedule|
  {
    if schedule != [] {
      hide Inv, Step;
      Reachable(m, auth, schedule[..|schedule| - 1]);
      var (c, ok) := schedule[|schedule| - 1];
      StepKeepsInv(m.store, auth, Exec(m, auth, schedule[..|schedule| - 1]), c, ok);
    }
  }

  // Modbus can never unseal.

  /** A raw-ingest packet has successfully written 1 to the flag of `mid`. */
  predicate IngestOpened(s: Contents, log: seq<Access>, mid: MemoryID)
    requires mid in s && s[mid].stateSealing.Some?
  {
    exists k: nat | k < |log| ::
      && log[k].Ingested?
      && Succeeds(Replay(s, log[..k]), log[k])
      && BitCarried(log[k], mid, COILS, s[mid].stateSealing.value.address) == Some(true)
  }

  /** If a memory is open after `n` accesses, raw ingest wrote 1 to its flag among them. */
  lemma {:induction false} OnlyIngestOpens(s: Contents, log: seq<Access>, stamps: seq<Stamp>, mid: MemoryID, n: nat)
    requires mid in s && FreshMemory(s[mid]) && s[mid].stateSealing.Some?
    requires Gated(s, log, stamps) && OpenAt(s, log, mid, n)
    ensures IngestOpened(s, log, mid)
  {
    hide Replay, Sealed, BitCarried, Succeeds, FreshMemory;
    SealHistory(s, log[..n], mid);
    LastWriter(s, log[..n], mid, COILS, s[mid].stateSealing.value.address);
    var k: nat :| k < n && Succeeds(Replay(s, log[..n][..k]), log[..n][k])
                  && BitCarried(log[..n][k], mid, COILS, s[mid].stateSealing.value.address) == Some(true);
    assert log[..n][..k] == log[..k] && log[..n][k] == log[k];
    if log[k].Dispatched? {
      CarriedPlace(log[k], mid, COILS, s[mid].stateSealing.value.address);
      assert Gate(s, log, stamps[k], k);
      OnlyIngestOpens(s, log, stamps, mid, stamps[k].checked);
    }
  }

  lemma CarriedPlace(e: Access, mid: MemoryID, area: byte, a: int)
    requires BitCarried(e, mid, area, a).Some?
    ensures Place(e) == mid
  {
  }

  /** The write that gave a bit its last value is somewhere in the log. */
  lemma {:induction false} LastWriter(s: Contents, log: seq<Access>, mid: MemoryID, area: byte, a: int)
    ensures LastBit(s, log, mid, area, a).Some? ==>
              exists k: nat | k < |log| ::
                Succeeds(Replay(s, log[..k]), log[k]) && BitCarried(log[k], mid, area, a) == LastBit(s, log, mid, area, a)
  {
    hide Replay, Succeeds, BitCarried;
    if log != [] {
      var before := log[..|log| - 1];
      LastWriter(s, before, mid, area, a);
      if LastBit(s, before, mid, area, a).Some? {
        var k: nat :| k < |before| && Succeeds(Replay(s, before[..k]), before[k])
                      && BitCarried(before[k], mid, area, a) == LastBit(s, before, mid, area, a);
        assert before[..k] == log[..k] && before[k] == log[k];
      }
    }
  }

  /** The raw-ingest part of a log. */
  function IngestOnly(log: seq<Access>): seq<Access> {
    if log == [] then []
    else IngestOnly(log[..|log| - 1]) + if log[|log| - 1].Ingested? then [log[|log| - 1]] else []
  }

  lemma SameThere(s: Contents, t: Contents, e: Access, mid: MemoryID)
    requires mid in s && mid in t && s[mid] == t[mid] && e.Ingested?
    ensures mid in Effect(s, e) && mid in Effect(t, e) && Effect(s, e)[mid] == Effect(t, e)[mid]
  {
  }

  /** Without a dispatch to it, a memory holds what raw ingest alone makes of it. */
  lemma {:induction false} IngestAlone(s: Contents, log: seq<Access>, mid: MemoryID)
    requires mid in s && forall k: nat | k < |log| && log[k].Dispatched? :: Place(log[k]) != mid
    ensures mid in Replay(s, log) && mid in Replay(s, IngestOnly(log))
    ensures Replay(s, log)[mid] == Replay(s, IngestOnly(log))[mid]
    decreases |log|
  {
    hide Effect, SameFrame;
    if log != [] {
      var before, e := log[..|log| - 1], log[|log| - 1];
      forall k: nat | k < |before| && before[k].Dispatched?
        ensures Place(before[k]) != mid
      {
        assert before[k] == log[k];
      }
      IngestAlone(s, before, mid);
      if e.Ingested? {
        SameThere(Replay(s, before), Replay(s, IngestOnly(before)), e, mid);
        ReplaySnoc(s, IngestOnly(before), e);
      } else {
        assert IngestOnly(log) == IngestOnly(before);
        EffectConfined(Replay(s, before), e);
      }
    }
  }

  /** The memory whose seal check a connection has passed with its current request. */
  function PastCheck(peer: Peer): Option<MemoryID> {
    match peer
    case Judging(_, _, _, req, _, _) => Some(Target(req))
    case Pending(_, _, _, req, _, _) => Some(Target(req))
    case Answering(_, _, _, reply) => if reply.Served? then Some(Target(reply.req)) else None
    case _ => None
  }

  /** As long as raw ingest has not written 1 to the flag of a sealed memory, in every interleaving
      no connection is past the seal check for it, every answer about it is Device Busy, and it holds
      exactly what raw ingest alone wrote. */
  lemma ModbusNeverUnseals(m: Machine, auth: Auth, schedule: seq<(int, bool)>, mid: MemoryID)
    requires Initial(m) && mid in m.store && FreshMemory(m.store[mid]) && m.store[mid].stateSealing.Some?
    requires !IngestOpened(m.store, Exec(m, auth, schedule).log, mid)
    ensures var now := Exec(m, auth, schedule);
            && (forall c | c in now.peers :: PastCheck(now.peers[c]) != Some(mid))
            && (forall reply | reply in now.replies && Target(reply.req) == mid ::
                  reply.Pdu() == BuildExceptionPDU(reply.req.functionCode, DEVICE_BUSY))
            && mid in now.store && mid in Replay(m.store, IngestOnly(now.log))
            && now.store[mid] == Replay(m.store, IngestOnly(now.log))[mid]
  {
    hide Exec, Sealed, FreshMemory, Replay, Dispatch;
    Reachable(m, auth, schedule);
    var s, now := m.store, Exec(m, auth, schedule);
    forall n: nat
      ensures !OpenAt(s, now.log, mid, n)
    {
      if OpenAt(s, now.log, mid, n) {
        OnlyIngestOpens(s, now.log, now.stamps, mid, n);
      }
    }
    forall k: nat | k < |now.log| && now.log[k].Dispatched?
      ensures Place(now.log[k]) != mid
    {
      assert Gate(s, now.log, now.stamps[k], k);
    }
    forall c | c in now.peers
      ensures PastCheck(now.peers[c]) != Some(mid)
    {
      assert PeerInv(s, auth, now.log, now.stamps, c, now.peers[c]);
    }
    forall reply | reply in now.replies && Target(reply.req) == mid
      ensures reply.Pdu() == BuildExceptionPDU(reply.req.functionCode, DEVICE_BUSY)
    {
      assert Justified(s, auth, now.log, now.stamps, reply);
      assert !OpenAt(s, now.log, mid, CheckedAt(reply));
    }
    IngestAlone(s, now.log, mid);
  }

  /** In every interleaving each served answer is the dispatch of its own request on the memories as the
      accesses logged before it left them. Its source was allowed to make it, its memory was open at its
      own seal check, and it was read, checked and dispatched in this order. */
  lemma ServedFromLog(m: Machine, auth: Auth, schedule: seq<(int, bool)>, reply: Reply)
    requires Initial(m) && reply in Exec(m, auth, schedule).replies && reply.Served?
    ensures var now := Exec(m, auth, schedule);
            && reply.read <= reply.checked <= reply.at < |now.log| == |now.stamps|
            && now.log[reply.at] == Dispatched(reply.req)
            && now.stamps[reply.at] == Stamp(reply.conn, reply.read, reply.checked)
            && Judge(auth, Target(reply.req), reply.src, reply.req.functionCode) == Allow
            && OpenAt(m.store, now.log, Target(reply.req), reply.checked)
            && reply.pdu == Dispatch(Replay(m.store, now.log[..reply.at]), reply.req).1
  {
    hide Exec, OpenAt, Replay, Dispatch, Judge;
    Reachable(m, auth, schedule);
    var now := Exec(m, auth, schedule);
    assert Justified(m.store, auth, now.log, now.stamps, reply);
  }

  /** Every access in the log, answered or not, passed its own gate after it was read, and the accesses
      of one connection follow one another: each is read after the previous one took effect. */
  lemma EveryAccessGated(m: Machine, auth: Auth, schedule: seq<(int, bool)>)
    requires Initial(m)
    ensures var now := Exec(m, auth, schedule);
            Gated(m.store, now.log, now.stamps) && OneAtATime(now.stamps)
  {
    hide Exec;
    Reachable(m, auth, schedule);
  }

  /** The seal decision on a request is exactly the flag's history at the moment of its own check: it is
      Device Busy if and only if the last successful write covering the flag had not written 1 by then,
      and served only if it had. */
  lemma BusyExactly(m: Machine, auth: Auth, schedule: seq<(int, bool)>, reply: Reply)
    requires Initial(m) && reply in Exec(m, auth, schedule).replies
    requires var mid := Target(reply.req);
             && mid in m.store && FreshMemory(m.store[mid]) && m.store[mid].stateSealing.Some?
             && !(mid in auth.flags && auth.flags[mid])
    ensures var mid, log := Target(reply.req), Exec(m, auth, schedule).log;
            && reply.read <= CheckedAt(reply) <= |log|
            && (reply.Pdu() == BuildExceptionPDU(reply.req.functionCode, DEVICE_BUSY) <==>
                !FlagRaised(m.store, log[..CheckedAt(reply)], mid))
            && (reply.Served? ==> FlagRaised(m.store, log[..reply.checked], mid))
  {
    hide Exec, Replay, Sealed, FreshMemory, LastBit, Dispatch, FlagRaised;
    Reachable(m, auth, schedule);
    var mid, now := Target(reply.req), Exec(m, auth, schedule);
    var log := now.log;
    assert Justified(m.store, auth, log, now.stamps, reply);
    OpenExactly(m.store, log, mid, CheckedAt(reply));
    if reply.Refused? {
      FirstMatchWins(RulesFor(auth, mid), reply.src, reply.req.functionCode);
    } else {
      NeverBusy(Replay(m.store, log[..reply.at]), reply.req);
    }
  }

  /** The moment of the seal check of a request that has been answered. */
  function CheckedAt(reply: Reply): nat { if reply.Served? then reply.checked else reply.at }

  lemma OpenExactly(s: Contents, log: seq<Access>, mid: MemoryID, n: nat)
    requires mid in s && FreshMemory(s[mid]) && s[mid].stateSealing.Some? && n <= |log|
    ensures OpenAt(s, log, mid, n) <==> FlagRaised(s, log[..n], mid)
  {
    hide Replay, Sealed, FreshMemory, LastBit;
    SealHistory(s, log[..n], mid);
  }

  /** Dispatch itself never answers Device Busy. */
  lemma NeverBusy(s: Contents, req: Request)
    ensures Dispatch(s, req).1 != BuildExceptionPDU(req.functionCode, DEVICE_BUSY)
  {
    hide Dispatch, BuildExceptionPDU, WellShaped, InReach;
    ExactOutcome(s, req);
    ExceptionForm(req.functionCode, DEVICE_BUSY);
    ExceptionForm(req.functionCode, Verdict(s, req));
  }

  /** The last successful write covering the flag of `mid` wrote 1. */
  predicate FlagRaised(s: Contents, log: seq<Access>, mid: MemoryID)
    requires mid in s && FreshMemory(s[mid]) && s[mid].stateSealing.Some?
  {
    && s[mid].layouts.coils.value.Packable()
    && LastBit(s, log, mid, COILS, s[mid].stateSealing.value.address) == Some(true)
  }

  /** In every interleaving each bit of a served FC1/FC2 answer is the one carried by the most recent
      successful write that covers its address, from either transport. */
  lemma ServedBits(m: Machine, auth: Auth, schedule: seq<(int, bool)>, reply: Reply)
    requires Initial(m) && reply in Exec(m, auth, schedule).replies && reply.Served?
    requires reply.req.functionCode in {1, 2} && Target(reply.req) in m.store && FreshMemory(m.store[Target(reply.req)])
    requires |reply.pdu| > 0 && reply.pdu[0] < 0x80
    requires LayoutOf(m.store[Target(reply.req)].layouts, AreaOf(reply.req.functionCode)).Some?
    requires LayoutOf(m.store[Target(reply.req)].layouts, AreaOf(reply.req.functionCode)).value.Packable()
    ensures reply.at <= |Exec(m, auth, schedule).log|
    ensures var before := Exec(m, auth, schedule).log[..reply.at];
            && |reply.req.payload| == 4 && |reply.pdu| >= 2 && Operand(reply.req) <= 8 * |reply.pdu[2..]|
            && forall i | 0 <= i < Operand(reply.req) ::
                 BitAt(reply.pdu[2..], i) <==>
                 LastBit(m.store, before, Target(reply.req), AreaOf(reply.req.functionCode), Address(reply.req) + i)
                 == Some(true)
  {
    hide Exec, Replay, LastBit, Dispatch, FreshMemory;
    ServedFromLog(m, auth, schedule, reply);
    var before := Exec(m, auth, schedule).log[..reply.at];
    RefusedUnchanged(Replay(m.store, before), reply.req);
    BitsEndToEnd(m.store, before, reply.req);
  }

  /** The same for each register of a served FC3/FC4 answer. */
  lemma ServedRegs(m: Machine, auth: Auth, schedule: seq<(int, bool)>, reply: Reply)
    requires Initial(m) && reply in Exec(m, auth, schedule).replies && reply.Served?
    requires reply.req.functionCode in {3, 4} && Target(reply.req) in m.store && FreshMemory(m.store[Target(reply.req)])
    requires |reply.pdu| > 0 && reply.pdu[0] < 0x80
    ensures reply.at <= |Exec(m, auth, schedule).log|
    ensures var before := Exec(m, auth, schedule).log[..reply.at];
            && |reply.req.payload| == 4 && |reply.pdu| == 2 + 2 * Operand(reply.req)
            && forall i | 0 <= i < Operand(reply.req) ::
                 Uint16(reply.pdu[2..][2 * i..2 * i + 2]) ==
                 match LastReg(m.store, before, Target(reply.req), AreaOf(reply.req.functionCode), Address(reply.req) + i)
                 case Some(v) => v case None => 0
  {
    hide Exec, Replay, LastReg, Dispatch, FreshMemory;
    ServedFromLog(m, auth, schedule, reply);
    var before := Exec(m, auth, schedule).log[..reply.at];
    RefusedUnchanged(Replay(m.store, before), reply.req);
    RegsEndToEnd(m.store, before, reply.req);
  }

  // Replies do not share accesses.

  /** The served reply a connection is about to send, if there is one. */
  function Sending(peer: Peer): Option<Reply> {
    if peer.Answering? && peer.reply.Served? then Some(peer.reply) else None
  }

  /** The replies report different dispatches. */
  predicate Apart(r: Reply, q: Reply) { r.Served? && q.Served? ==> r.at != q.at }

  /** `r` is apart from every reply that has been sent. */
  predicate NewTo(replies: seq<Reply>, r: Reply) { forall i | 0 <= i < |replies| :: Apart(replies[i], r) }

  predicate AllApart(replies: seq<Reply>) {
    forall i, j | 0 <= i < j < |replies| :: Apart(replies[i], replies[j])
  }

  predicate SendingApart(peers: map<int, Peer>) {
    forall c, d | c in peers && d in peers && c != d && Sending(peers[c]).Some? && Sending(peers[d]).Some? ::
      Apart(Sending(peers[c]).value, Sending(peers[d]).value)
  }

  /** No two replies, sent or about to be sent, report the same dispatch. */
  predicate Unshared(m: Machine) {
    && AllApart(m.replies) && SendingApart(m.peers)
    && (forall c | c in m.peers && Sending(m.peers[c]).Some? :: NewTo(m.replies, Sending(m.peers[c]).value))
  }

  /** A peer that is not sending a served reply, or sends one that nobody else has, shares nothing. */
  lemma BecomeUnshared(m: Machine, c: int, peer: Peer)
    requires Unshared(m)
    requires Sending(peer).Some? ==>
               && NewTo(m.replies, Sending(peer).value)
               && forall d | d in m.peers && d != c && Sending(m.peers[d]).Some? ::
                    Apart(Sending(m.peers[d]).value, Sending(peer).value)
    ensures Unshared(Become(m, c, peer))
  {
    hide NewTo, AllApart;
  }

  /** Sending the reply of `c`. */
  lemma SendUnshared(m: Machine, c: int, peer: Peer)
    requires Unshared(m) && c in m.peers && m.peers[c].Answering? && Sending(peer).None?
    ensures Unshared(Become(m, c, peer).(replies := m.replies + [m.peers[c].reply]))
  {
    var reply := m.peers[c].reply;
    forall d | d in m.peers && d != c && Sending(m.peers[d]).Some?
      ensures NewTo(m.replies + [reply], Sending(m.peers[d]).value)
    {
      assert NewTo(m.replies, Sending(m.peers[d]).value);
    }
    assert AllApart(m.replies + [reply]) by {
      assert reply.Served? ==> NewTo(m.replies, reply);
    }
  }

  lemma StepKeepsUnshared(s: Contents, auth: Auth, m: Machine, c: int, ok: bool)
    requires Inv(s, auth, m) && Unshared(m)
    ensures Unshared(Step(m, auth, c, ok))
  {
    hide Unshared, AllApart, SendingApart, Replay, Gated, OneAtATime, ParseRequest, ParsePacket, Dispatch, Ingest,
      Sealed, Judge, Effect, Before, OpenAt;
    if c in m.peers {
      var next := Step(m, auth, c, ok);
      match m.peers[c]
      case Answering(_, _, _, reply) =>
        if ok {
          SendUnshared(m, c, next.peers[c]);
        } else {
          BecomeUnshared(m, c, next.peers[c]);
        }
      case Pending(_, _, _, _, _, _) =>
        forall d | d in m.peers && d != c && Sending(m.peers[d]).Some?
          ensures Apart(Sending(m.peers[d]).value, next.peers[c].reply)
        {
          assert PeerInv(s, auth, m.log, m.stamps, d, m.peers[d]);
        }
        assert NewTo(m.replies, next.peers[c].reply) by {
          forall i | 0 <= i < |m.replies|
            ensures Apart(m.replies[i], next.peers[c].reply)
          {
            assert Justified(s, auth, m.log, m.stamps, m.replies[i]);
          }
        }
        BecomeUnshared(m, c, next.peers[c]);
        SamePeers(Become(m, c, next.peers[c]), next);
      case _ =>
        BecomeUnshared(m, c, next.peers[c]);
        SamePeers(Become(m, c, next.peers[c]), next);
    }
  }

  lemma SamePeers(m: Machine, n: Machine)
    requires Unshared(m) && m.peers == n.peers && m.replies == n.replies
    ensures Unshared(n)
  {
  }

  /** In every interleaving different replies report different dispatches, so that no answer is given
      twice, not even to equal requests. */
  lemma {:induction false} NoAnswerTwice(m: Machine, auth: Auth, schedule: seq<(int, bool)>)
    requires Initial(m)
    ensures Unshared(Exec(m, auth, schedule))
    decreases |schedule|
  {
    if schedule != [] {
      hide Inv, Step, Unshared;
      var before := schedule[..|schedule| - 1];
      NoAnswerTwice(m, auth, before);
      Reachable(m, auth, before);
      var (c, ok) := schedule[|schedule| - 1];
      StepKeepsUnshared(m.store, auth, Exec(m, auth, before), c, ok);
    }
  }
}
