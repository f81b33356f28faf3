/** The one way in which a Modbus request opens a sealed memory: it was checked while the memory was
    open, and raw ingest, or another request, sealed the memory before it was dispatched. */
module Reopenings {
  import opened Words
  import opened Outcomes
  import opened Layouts
  import opened Images
  import opened Stores
  import opened Pdus
  import opened Mbap
  import opened RawIngest
  import opened Dispatching
  import opened Authorities
  import opened Servers
  import opened Histories
  import opened Gates
  import opened Solos

  predicate Flagged(s: Contents, mid: MemoryID) {
    mid in s && FreshMemory(s[mid]) && s[mid].stateSealing.Some?
  }

  /** The access carries `v` to the flag of `mid` and will be accepted. */
  predicate Sets(s: Contents, e: Access, mid: MemoryID, v: bool)
    requires Flagged(s, mid)
  {
    Acceptable(s, e) && FlagCarried(s, e, mid) == Some(v)
  }

  /** Between a moment at which a memory is open and a later one at which it is sealed, something wrote 0
      to its flag. */
  lemma {:induction false} SealedBetween(s: Contents, log: seq<Access>, mid: MemoryID, i: nat, k: nat)
    requires Flagged(s, mid) && i <= k <= |log|
    requires OpenAt(s, log, mid, i) && !OpenAt(s, log, mid, k)
    ensures exists j: nat | i <= j < k :: Sets(s, log[j], mid, false)
    decreases k
  {
    hide Replay, Sealed, Acceptable, FlagCarried, FreshMemory;
    if OpenAt(s, log, mid, k - 1) {
      assert log[..k - 1] + [log[k - 1]] == log[..k];
      SealsAgainExactly(s, log[..k - 1], log[k - 1], mid);
      assert Sets(s, log[k - 1], mid, false);
    } else {
      SealedBetween(s, log, mid, i, k - 1);
    }
  }

  /** In every interleaving, a request dispatched to a sealed memory opens it if and only if it is
      acceptable and carries 1 to a flag that can be packed. Its seal check had then found the memory
      open, and the flag had been cleared between the check and the dispatch. */
  lemma ModbusOpensExactly(m: Machine, auth: Auth, schedule: seq<(int, bool)>, mid: MemoryID, k: nat)
    requires Initial(m) && Flagged(m.store, mid)
    requires k < |Exec(m, auth, schedule).log| && Exec(m, auth, schedule).log[k].Dispatched?
    requires !OpenAt(m.store, Exec(m, auth, schedule).log, mid, k)
    ensures var now := Exec(m, auth, schedule);
            && |now.stamps| == |now.log|
            && (OpenAt(m.store, now.log, mid, k + 1) <==>
                m.store[mid].layouts.coils.value.Packable() && Sets(m.store, now.log[k], mid, true))
            && (OpenAt(m.store, now.log, mid, k + 1) ==>
                  && now.stamps[k].checked < k && OpenAt(m.store, now.log, mid, now.stamps[k].checked)
                  && exists j: nat | now.stamps[k].checked <= j < k :: Sets(m.store, now.log[j], mid, false))
  {
    hide Exec, Replay, Sealed, Acceptable, FreshMemory;
    Reachable(m, auth, schedule);
    var now := Exec(m, auth, schedule);
    var s, log := m.store, now.log;
    assert log[..k] + [log[k]] == log[..k + 1];
    SealsAgainExactly(s, log[..k], log[k], mid);
    if OpenAt(s, log, mid, k + 1) {
      CarriedPlace(log[k], mid, COILS, s[mid].stateSealing.value.address);
      assert Gate(s, log, now.stamps[k], k);
      SealedBetween(s, log, mid, now.stamps[k].checked, k);
    }
  }

  // That it does happen.

  /** The request that writes 1 to the flag of `mid`. */
  function FlagRequest(mid: MemoryID, flag: StateSealingDef): Request
    requires mid.unitID <= 0xFF
  {
    Request(mid.port, 0, 0, 6, mid.unitID, 5, PutUint16(flag.address) + [0xFF, 0])
  }

  lemma FlagRequested(s: Contents, mid: MemoryID)
    requires Flagged(s, mid) && mid.unitID <= 0xFF
    ensures var req := FlagRequest(mid, s[mid].stateSealing.value);
            Target(req) == mid && WellFramed(req, mid.port) && Sets(s, Dispatched(req), mid, true)
  {
    var a := s[mid].stateSealing.value.address;
    var req := FlagRequest(mid, s[mid].stateSealing.value);
    Uint16Put(a);
    assert req.payload[0..2] == PutUint16(a);
    assert req.payload[2..4] == [0xFF, 0];
    assert s[mid].layouts.coils.value.Contains(a, 1);
  }

  /** One connection writes 1 and then 0 to the flag by raw ingest, another asks for FC5 with 1. */
  function TwoPeers(s: Contents, mid: MemoryID, src: Addr): Machine
    requires Flagged(s, mid) && mid.unitID <= 0xFF
  {
    var flag := s[mid].stateSealing.value;
    var packets := EncodePacket(FlagPacket(mid, flag, true)) + EncodePacket(FlagPacket(mid, flag, false));
    Machine(s, map[0 := Receiving(mid.port, packets), 1 := Reading(mid.port, src, EncodeRequest(FlagRequest(mid, flag)))],
            [], [], [], [])
  }

  /** The request is checked between the two packets and dispatched after the second. */
  function Late(): seq<(int, bool)> {
    Ticks(0, true, 3) + Ticks(1, true, 3) + Ticks(0, true, 3) + Ticks(1, true, 1)
  }

  /** Reading, writing and reporting one packet. */
  lemma PacketTurn(m: Machine, auth: Auth, c: int)
    requires c in m.peers && m.peers[c].Receiving? && ParsePacket(m.peers[c].input, m.peers[c].port).0.Ok?
    ensures var (r, rest) := ParsePacket(m.peers[c].input, m.peers[c].port);
            var now := Exec(m, auth, Ticks(c, true, 3));
            && now.store == Effect(m.store, Ingested(r.value)) && now.log == m.log + [Ingested(r.value)]
            && now.peers == m.peers[c := Receiving(m.peers[c].port, rest)]
  {
    hide Exec, Effect, ParsePacket, Ingest;
    NoSteps(m, auth);
    Tick(m, auth, c, true, 0);
    Tick(m, auth, c, true, 1);
    Tick(m, auth, c, true, 2);
  }

  /** Reading, checking and judging a request that gets through. */
  lemma CheckTurn(m: Machine, auth: Auth, c: int)
    requires c in m.peers && m.peers[c].Reading? && ParseRequest(m.peers[c].input, m.peers[c].port).0.Ok?
    requires var req := ParseRequest(m.peers[c].input, m.peers[c].port).0.value;
             !Sealed(m.store, Target(req)) && Judge(auth, Target(req), m.peers[c].src, req.functionCode) == Allow
    ensures var peer, now := m.peers[c], Exec(m, auth, Ticks(c, true, 3));
            var (r, rest) := ParseRequest(peer.input, peer.port);
            && now.store == m.store && now.log == m.log
            && now.peers == m.peers[c := Pending(peer.port, peer.src, rest, r.value, |m.log|, |m.log|)]
  {
    hide Exec, ParseRequest, Sealed, Judge;
    NoSteps(m, auth);
    Tick(m, auth, c, true, 0);
    Tick(m, auth, c, true, 1);
    Tick(m, auth, c, true, 2);
  }

  /** Dispatching a request that got through. */
  lemma DispatchTurn(m: Machine, auth: Auth, c: int)
    requires c in m.peers && m.peers[c].Pending?
    ensures Exec(m, auth, Ticks(c, true, 1)).log == m.log + [Dispatched(m.peers[c].req)]
  {
    NoSteps(m, auth);
    Tick(m, auth, c, true, 0);
  }

  lemma FlagPacketRead(mid: MemoryID, flag: StateSealingDef, v: bool, tail: seq<byte>)
    requires flag.area == COILS
    ensures ParsePacket(EncodePacket(FlagPacket(mid, flag, v)) + tail, mid.port) == (Ok(FlagPacket(mid, flag, v)), tail)
  {
    PacketRoundTrip(FlagPacket(mid, flag, v), tail);
  }

  /** The three accesses, in the order in which they take effect. */
  function Story(s: Contents, mid: MemoryID): seq<Access>
    requires Flagged(s, mid) && mid.unitID <= 0xFF
  {
    var flag := s[mid].stateSealing.value;
    [Ingested(FlagPacket(mid, flag, true)), Ingested(FlagPacket(mid, flag, false)), Dispatched(FlagRequest(mid, flag))]
  }

  /** Open, sealed, open again. */
  lemma StoryTold(s: Contents, mid: MemoryID)
    requires Flagged(s, mid) && s[mid].layouts.coils.value.Packable() && mid.unitID <= 0xFF
    ensures var log := Story(s, mid);
            && !Sealed(Effect(s, log[0]), mid) && !OpenAt(s, log, mid, 2) && OpenAt(s, log, mid, 3)
  {
    var log := Story(s, mid);
    assert log[..1] == [log[0]] && log[..2] == [log[0], log[1]] && log[..2] + [log[2]] == log[..3];
    FlagRequested(s, mid);
    OpeningIsNotOneWay(s, mid);
    hide Replay, Sealed, Effect, FlagPacket, FlagRequest, FreshMemory, Acceptable, FlagCarried;
    NothingReplayed(s);
    assert [] + [log[0]] == [log[0]];
    ReplaySnoc(s, [], log[0]);
    SealsAgainExactly(s, log[..2], log[2], mid);
  }

  lemma PeersRead(s: Contents, mid: MemoryID, src: Addr)
    requires Flagged(s, mid) && mid.unitID <= 0xFF
    ensures var m, log := TwoPeers(s, mid, src), Story(s, mid);
            var packets, second := m.peers[0].input, EncodePacket(log[1].pkt);
            && ParsePacket(packets, mid.port) == (Ok(log[0].pkt), second)
            && ParsePacket(second, mid.port) == (Ok(log[1].pkt), [])
            && ParseRequest(m.peers[1].input, mid.port) == (Ok(log[2].req), [])
            && Target(log[2].req) == mid && log[2].req.functionCode == 5
            && Initial(m) && m.store == s && m.peers.Keys == {0, 1}
            && m.peers[0] == Receiving(mid.port, packets) && m.peers[1] == Reading(mid.port, src, m.peers[1].input)
  {
    hide EncodePacket, EncodeRequest, ParsePacket, ParseRequest, FlagPacket, FlagRequest, FreshMemory, Sets;
    var log := Story(s, mid);
    var flag, second := s[mid].stateSealing.value, EncodePacket(log[1].pkt);
    FlagRequested(s, mid);
    FlagPlace(s, mid);
    FlagPacketRead(mid, flag, true, second);
    FlagPacketRead(mid, flag, false, []);
    RequestRoundTrip(log[2].req, mid.port, []);
    assert second + [] == second && EncodeRequest(log[2].req) + [] == EncodeRequest(log[2].req);
  }

  lemma FlagPlace(s: Contents, mid: MemoryID)
    requires Flagged(s, mid) && mid.unitID <= 0xFF
    ensures s[mid].stateSealing.value.area == COILS
    ensures FlagRequest(mid, s[mid].stateSealing.value).functionCode == 5
  {
  }

  /** A dispatched request opens a sealed memory, for any source that may write the flag. */
  lemma ModbusCanReopen(s: Contents, mid: MemoryID, auth: Auth, src: Addr)
    requires Flagged(s, mid) && s[mid].layouts.coils.value.Packable() && mid.unitID <= 0xFF
    requires Judge(auth, mid, src, 5) == Allow
    ensures var m := TwoPeers(s, mid, src);
            var log := Exec(m, auth, Late()).log;
            && Initial(m) && log == Story(s, mid)
            && log[2].Dispatched? && !OpenAt(s, log, mid, 2) && OpenAt(s, log, mid, 3)
  {
    var m, log := TwoPeers(s, mid, src), Story(s, mid);
    PeersRead(s, mid, src);
    StoryTold(s, mid);
    Three(s, mid);
    hide Exec, Step, TwoPeers, Initial, Sealed, Judge, ParsePacket, ParseRequest, Story, Flagged, Effect, Ticks, OpenAt, Target;
    PacketTurn(m, auth, 0);
    var m1 := Exec(m, auth, Ticks(0, true, 3));
    CheckTurn(m1, auth, 1);
    var m2 := Exec(m1, auth, Ticks(1, true, 3));
    PacketTurn(m2, auth, 0);
    var m3 := Exec(m2, auth, Ticks(0, true, 3));
    DispatchTurn(m3, auth, 1);
    FourStages(m, auth, Ticks(0, true, 3), Ticks(1, true, 3), Ticks(0, true, 3), Ticks(1, true, 1));
  }

  lemma Three(s: Contents, mid: MemoryID)
    requires Flagged(s, mid) && mid.unitID <= 0xFF
    ensures var log := Story(s, mid);
            && |log| == 3 && log[0].Ingested? && log[1].Ingested? && log[2].Dispatched?
            && [] + [log[0]] + [log[1]] + [log[2]] == log
  {
  }

  lemma FourStages(m: Machine, auth: Auth, a: seq<(int, bool)>, b: seq<(int, bool)>, c: seq<(int, bool)>,
                   d: seq<(int, bool)>)
    ensures Exec(m, auth, a + b + c + d) == Exec(Exec(Exec(Exec(m, auth, a), auth, b), auth, c), auth, d)
  {
    ExecAppend(m, auth, a, b);
    ExecAppend(m, auth, a + b, c);
    ExecAppend(m, auth, a + b + c, d);
  }
}
