/** One connection scheduled on its own does what its handler does. */
module Solos {
  import opened Words
  import opened Pdus
  import opened Mbap
  import opened RawIngest
  import opened Conns
  import opened Dispatching
  import opened Authorities
  import opened Servers
  import opened Gates

  /** The frames in which replies are sent. */
  function Frames(replies: seq<Reply>): (fs: seq<seq<byte>>)
    ensures |fs| == |replies|
  {
    seq(|replies|, i requires 0 <= i < |replies| => Frame(replies[i].req, replies[i].Pdu()))
  }

  lemma ExecSnoc(m: Machine, auth: Auth, schedule: seq<(int, bool)>, c: int, ok: bool)
    ensures Exec(m, auth, schedule + [(c, ok)]) == Step(Exec(m, auth, schedule), auth, c, ok)
  {
    assert (schedule + [(c, ok)])[..|schedule|] == schedule;
  }

  lemma {:induction false} ExecAppend(m: Machine, auth: Auth, a: seq<(int, bool)>, b: seq<(int, bool)>)
    ensures Exec(m, auth, a + b) == Exec(Exec(m, auth, a), auth, b)
    decreases |b|
  {
    hide Step;
    if b == [] {
      assert a + b == a;
    } else {
      var init, x := b[..|b| - 1], b[|b| - 1];
      assert a + b == (a + init) + [x];
      ExecSnoc(m, auth, a + init, x.0, x.1);
      ExecAppend(m, auth, a, init);
    }
  }

  /** `c` moves `n` times. */
  function Ticks(c: int, ok: bool, n: nat): seq<(int, bool)> { if n == 0 then [] else Ticks(c, ok, n - 1) + [(c, ok)] }

  lemma Tick(m: Machine, auth: Auth, c: int, ok: bool, n: nat)
    ensures Exec(m, auth, Ticks(c, ok, n + 1)) == Step(Exec(m, auth, Ticks(c, ok, n)), auth, c, ok)
  {
    ExecSnoc(m, auth, Ticks(c, ok, n), c, ok);
  }

  lemma NoSteps(m: Machine, auth: Auth)
    ensures Exec(m, auth, []) == m
  {
  }

  /** Only connection `c` moves. */
  predicate Only(schedule: seq<(int, bool)>, c: int) {
    forall i | 0 <= i < |schedule| :: schedule[i].0 == c
  }

  /** The steps from reading one request to having answered it. */
  lemma OneRequest(m: Machine, auth: Auth, c: int, ok: bool) returns (schedule: seq<(int, bool)>, reply: Reply)
    requires c in m.peers && m.peers[c].Reading? && ParseRequest(m.peers[c].input, m.peers[c].port).0.Ok?
    ensures Only(schedule, c)
    ensures var peer, now := m.peers[c], Exec(m, auth, schedule);
            var (r, rest) := ParseRequest(peer.input, peer.port);
            var (after, pdu) := Answer(m.store, auth, peer.src, r.value);
            && reply.req == r.value && reply.Pdu() == pdu
            && (reply.Refused? <==> Refusal(m.store, auth, peer.src, r.value).Some?)
            && now.store == after && now.replies == (if ok then m.replies + [reply] else m.replies)
            && now.statuses == m.statuses
            && now.peers == m.peers[c := if ok || reply.Refused? then Reading(peer.port, peer.src, rest) else Closed]
  {
    hide ParseRequest, Sealed, Judge, Dispatch, BuildExceptionPDU, Exec;
    NoSteps(m, auth);
    Tick(m, auth, c, ok, 0);
    Tick(m, auth, c, ok, 1);
    Tick(m, auth, c, ok, 2);
    Tick(m, auth, c, ok, 3);
    Tick(m, auth, c, ok, 4);
    var checked := Exec(m, auth, Ticks(c, ok, 2)).peers[c];
    if checked.Answering? {
      return Ticks(c, ok, 3), checked.reply;
    }
    var judged := Exec(m, auth, Ticks(c, ok, 3)).peers[c];
    if judged.Answering? {
      return Ticks(c, ok, 4), judged.reply;
    }
    return Ticks(c, ok, 5), Exec(m, auth, Ticks(c, ok, 4)).peers[c].reply;
  }

  /** Scheduled alone, a Modbus connection leaves the memories and sends the frames that its handler
      does, and then it is closed. */
  lemma {:induction false} ModbusAlone(m: Machine, auth: Auth, c: int, credit: nat) returns (schedule: seq<(int, bool)>)
    requires c in m.peers && m.peers[c].Reading?
    ensures Only(schedule, c)
    ensures var peer, now := m.peers[c], Exec(m, auth, schedule);
            var (after, frames) := Serve(m.store, auth, peer.src, peer.port, peer.input, credit);
            && now.store == after && now.peers == m.peers[c := Closed]
            && Frames(now.replies) == Frames(m.replies) + frames
    decreases |m.peers[c].input|
  {
    hide Answer, Refusal, ParseRequest, Frame, Exec, Reply.Pdu;
    var peer := m.peers[c];
    ParseRequestConsumes(peer.input, peer.port);
    if ParseRequest(peer.input, peer.port).0.Err? {
      NoSteps(m, auth);
      Tick(m, auth, c, true, 0);
      return Ticks(c, true, 1);
    }
    var first, reply := OneRequest(m, auth, c, credit > 0);
    var next := Exec(m, auth, first);
    assert credit > 0 ==> Frames(next.replies) == Frames(m.replies) + [Frame(reply.req, reply.Pdu())];
    if credit > 0 || reply.Refused? {
      var rest := ModbusAlone(next, auth, c, if credit > 0 then credit - 1 else 0);
      ExecAppend(m, auth, first, rest);
      schedule := first + rest;
    } else {
      schedule := first;
    }
  }

  /** The status bytes sent by connection `c`, as it writes them. */
  function Sent(statuses: seq<(int, byte)>): (out: seq<seq<byte>>)
    ensures |out| == |statuses|
  {
    seq(|statuses|, i requires 0 <= i < |statuses| => [statuses[i].1])
  }

  /** Scheduled alone, a raw-ingest connection leaves the memories and sends the status bytes that its
      handler does, and then it is closed. */
  lemma {:induction false} RawAlone(m: Machine, auth: Auth, c: int, credit: nat) returns (schedule: seq<(int, bool)>)
    requires c in m.peers && m.peers[c].Receiving?
    ensures Only(schedule, c)
    ensures var peer, now := m.peers[c], Exec(m, auth, schedule);
            var (after, out) := ServeRaw(m.store, peer.port, peer.input, credit);
            && now.store == after && now.peers == m.peers[c := Closed] && now.replies == m.replies
            && Sent(now.statuses) == Sent(m.statuses) + out
    decreases |m.peers[c].input|
  {
    hide Ingest, ParsePacket, Exec, ServeRaw;
    var peer, ok := m.peers[c], credit > 0;
    ParsePacketConsumes(peer.input, peer.port);
    ServeRawOne(m.store, peer.port, peer.input, credit);
    NoSteps(m, auth);
    Tick(m, auth, c, ok, 0);
    Tick(m, auth, c, ok, 1);
    Tick(m, auth, c, ok, 2);
    var parsed := ParsePacket(peer.input, peer.port).0;
    if parsed.Err? {
      return Ticks(c, ok, if parsed.error == EOF then 1 else 2);
    }
    var next := Exec(m, auth, Ticks(c, ok, 3));
    assert ok ==> Sent(next.statuses) == Sent(m.statuses) + [[Ingest(m.store, parsed.value).1]];
    var rest := RawAlone(next, auth, c, Debit(credit));
    ExecAppend(m, auth, Ticks(c, ok, 3), rest);
    schedule := Ticks(c, ok, 3) + rest;
  }
}
