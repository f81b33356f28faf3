/** Whole histories of memory accesses, from both transports, in the order in which they took effect. */
module Histories {
  import opened Words
  import opened Bits
  import opened Outcomes
  import opened Layouts
  import opened Images
  import opened MemoryCore
  import opened Stores
  import opened Pdus
  import opened RawIngest
  import opened Dispatching
  import opened Answers
  import opened Servers

  /** One access to the store: a Modbus request that reached dispatch, or a raw-ingest packet. */
  datatype Access = Dispatched(req: Request) | Ingested(pkt: Packet)

  function Place(e: Access): MemoryID {
    match e
    case Dispatched(req) => Target(req)
    case Ingested(pkt) => Destination(pkt)
  }

  function Effect(s: Contents, e: Access): Contents {
    match e
    case Dispatched(req) => Dispatch(s, req).0
    case Ingested(pkt) => Ingest(s, pkt).0
  }

  /** The answer on the wire reports success. */
  predicate Succeeds(s: Contents, e: Access) {
    match e
    case Dispatched(req) => RefusedUnchanged(s, req); Dispatch(s, req).1[0] < 0x80
    case Ingested(pkt) => Ingest(s, pkt).1 == RESP_OK
  }

  function Replay(s: Contents, log: seq<Access>): Contents {
    if log == [] then s else Effect(Replay(s, log[..|log| - 1]), log[|log| - 1])
  }

  /** The bit that the bytes of an access carry for one address, if they carry one. */
  function BitCarried(e: Access, mid: MemoryID, area: byte, a: int): Option<bool> {
    match e
    case Dispatched(req) =>
      if Target(req) != mid || area != COILS || |req.payload| < 4 || a < Address(req) then None
      else if req.functionCode == 5 && a == Address(req) then Some(req.payload[2] == 0xFF)
      else if req.functionCode == 15 && a < Address(req) + Operand(req) && a - Address(req) < 8 * (|req.payload| - 5) then
        Some(BitAt(req.payload[5..], a - Address(req)))
      else None
    case Ingested(p) =>
      if Destination(p) == mid && p.area == area && p.address <= a < p.address + p.count
         && a - p.address < 8 * |p.payload| then Some(BitAt(p.payload, a - p.address))
      else None
  }

  /** The register that the bytes of an access carry for one address, if they carry one. */
  function RegCarried(e: Access, mid: MemoryID, area: byte, a: int): Option<u16> {
    match e
    case Dispatched(req) =>
      if Target(req) != mid || area != HOLDING_REGS || |req.payload| < 4 || a < Address(req) then None
      else if req.functionCode == 6 && a == Address(req) then Some(Operand(req))
      else if req.functionCode == 16 && a < Address(req) + Operand(req)
              && 5 + 2 * (a - Address(req)) + 2 <= |req.payload| then
        Some(Uint16(req.payload[5 + 2 * (a - Address(req))..5 + 2 * (a - Address(req)) + 2]))
      else None
    case Ingested(p) =>
      if Destination(p) == mid && p.area == area && p.address <= a < p.address + p.count
         && 2 * (a - p.address) + 2 <= |p.payload| then
        Some(Uint16(p.payload[2 * (a - p.address)..2 * (a - p.address) + 2]))
      else None
  }

  /** The value in the most recent successful write that covers the address; None if there is none. */
  function LastBit(s: Contents, log: seq<Access>, mid: MemoryID, area: byte, a: int): Option<bool> {
    if log == [] then None
    else
      var before, e := log[..|log| - 1], log[|log| - 1];
      if Succeeds(Replay(s, before), e) && BitCarried(e, mid, area, a).Some? then BitCarried(e, mid, area, a)
      else LastBit(s, before, mid, area, a)
  }

  function LastReg(s: Contents, log: seq<Access>, mid: MemoryID, area: byte, a: int): Option<u16> {
    if log == [] then None
    else
      var before, e := log[..|log| - 1], log[|log| - 1];
      if Succeeds(Replay(s, before), e) && RegCarried(e, mid, area, a).Some? then RegCarried(e, mid, area, a)
      else LastReg(s, before, mid, area, a)
  }

  /** Same memories, with the same layouts, sealing definitions and addresses. */
  predicate SameShape(s: Contents, t: Contents) {
    && s.Keys == t.Keys
    && forall id | id in s :: SameFrame(s[id], t[id])
  }

  predicate SameFrame(m: Image, n: Image) {
    && m.layouts == n.layouts && m.stateSealing == n.stateSealing
    && m.coils.Keys == n.coils.Keys && m.discreteInputs.Keys == n.discreteInputs.Keys
    && m.holdingRegs.Keys == n.holdingRegs.Keys && m.inputRegs.Keys == n.inputRegs.Keys
  }

  /** What one access can change at all: one memory, and through Modbus only its coils or its holding
      registers, depending on the function code. */
  predicate Confined(s: Contents, t: Contents, e: Access) {
    && SameShape(s, t)
    && (forall id | id in s && id != Place(e) :: t[id] == s[id])
    && (e.Dispatched? && Place(e) in s ==>
          var m, n, fc := s[Place(e)], t[Place(e)], e.req.functionCode;
          && n.discreteInputs == m.discreteInputs && n.inputRegs == m.inputRegs
          && (fc != 5 && fc != 15 ==> n.coils == m.coils)
          && (fc != 6 && fc != 16 ==> n.holdingRegs == m.holdingRegs))
  }

  lemma DispatchConfined(s: Contents, req: Request)
    ensures Confined(s, Dispatch(s, req).0, Dispatched(req))
  {
    hide Dispatch;
    ExactOutcome(s, req);
    if Verdict(s, req) == 0 {
      if req.functionCode in {5, 15} {
        CoilWrite(s, req);
      } else if req.functionCode in {6, 16} {
        HoldingWrite(s, req);
      } else {
        ReadUnchanged(s, req);
      }
    }
  }

  lemma IngestConfined(s: Contents, p: Packet)
    ensures Confined(s, Ingest(s, p).0, Ingested(p))
  {
  }

  /** Isolation of one step. */
  lemma EffectConfined(s: Contents, e: Access)
    ensures Confined(s, Effect(s, e), e)
  {
    match e
    case Dispatched(req) => DispatchConfined(s, req);
    case Ingested(pkt) => IngestConfined(s, pkt);
  }

  lemma {:induction false} ReplayShape(s: Contents, log: seq<Access>)
    ensures SameShape(s, Replay(s, log))
  {
    hide Effect;
    if log != [] {
      ReplayShape(s, log[..|log| - 1]);
      EffectConfined(Replay(s, log[..|log| - 1]), log[|log| - 1]);
    }
  }

  /** Isolation over whole runs: a memory that no access addresses keeps its contents, and no run of
      Modbus accesses changes any discrete input or input register. */
  lemma {:induction false} Isolation(s: Contents, log: seq<Access>, mid: MemoryID)
    requires mid in s
    ensures mid in Replay(s, log)
    ensures (forall e | e in log :: Place(e) != mid) ==> Replay(s, log)[mid] == s[mid]
    ensures (forall e | e in log :: e.Dispatched? || Place(e) != mid) ==>
              Replay(s, log)[mid].discreteInputs == s[mid].discreteInputs &&
              Replay(s, log)[mid].inputRegs == s[mid].inputRegs
  {
    hide Effect, Place;
    if log != [] {
      var before, e := log[..|log| - 1], log[|log| - 1];
      assert log == before + [e];
      Isolation(s, before, mid);
      EffectConfined(Replay(s, before), e);
    }
  }

  // One access and one address.

  lemma CoilCarried(req: Request, a: int)
    requires req.functionCode in {5, 15} && WellShaped(req)
    ensures var vs, i := CoilsIn(req), a - Address(req);
            BitCarried(Dispatched(req), Target(req), COILS, a) == if 0 <= i < |vs| then Some(vs[i]) else None
  {
    BytesForBitsExact(Operand(req));
  }

  lemma NotCarried(req: Request, mid: MemoryID, area: byte, a: int)
    ensures Target(req) != mid || area != COILS || req.functionCode !in {5, 15} ==>
              BitCarried(Dispatched(req), mid, area, a) == None
    ensures Target(req) != mid || area != HOLDING_REGS || req.functionCode !in {6, 16} ==>
              RegCarried(Dispatched(req), mid, area, a) == None
  {
  }

  lemma DispatchedBit(s: Contents, req: Request, area: byte, mid: MemoryID, a: int)
    requires mid in s && IsBitArea(area) && a in BitsOf(s[mid], area)
    requires LayoutOf(s[mid].layouts, area).Some? && LayoutOf(s[mid].layouts, area).value.Packable()
    ensures var e := Dispatched(req);
            && mid in Effect(s, e)
            && BitOn(BitsOf(Effect(s, e)[mid], area), a) ==
               if Succeeds(s, e) && BitCarried(e, mid, area, a).Some? then BitCarried(e, mid, area, a).value
               else BitOn(BitsOf(s[mid], area), a)
  {
    hide Dispatch, CoilsIn, BitCarried, InReach, WellShaped;
    RefusedUnchanged(s, req);
    DispatchConfined(s, req);
    NotCarried(req, mid, area, a);
    if Verdict(s, req) == 0 && req.functionCode in {5, 15} && Target(req) == mid && area == COILS {
      CoilWrite(s, req);
      CoilCarried(req, a);
    }
  }

  lemma IngestedBit(s: Contents, p: Packet, area: byte, mid: MemoryID, a: int)
    requires mid in s && IsBitArea(area) && a in BitsOf(s[mid], area)
    requires LayoutOf(s[mid].layouts, area).Some? && LayoutOf(s[mid].layouts, area).value.Packable()
    ensures var e := Ingested(p);
            && mid in Effect(s, e)
            && BitOn(BitsOf(Effect(s, e)[mid], area), a) ==
               if Succeeds(s, e) && BitCarried(e, mid, area, a).Some? then BitCarried(e, mid, area, a).value
               else BitOn(BitsOf(s[mid], area), a)
  {
    if Destination(p) == mid && p.area == area {
      var r := s[mid].WriteBits(area, p.address, p.count, p.payload);
      BytesForBitsExact(p.count);
      if r.Ok? {
        assert BitsOf(r.value, area) == Overwrite(BitsOf(s[mid], area), p.address, Unpack(p.payload, 0, p.count));
      }
    }
  }

  lemma HoldingCarried(req: Request, a: int)
    requires req.functionCode in {6, 16} && WellShaped(req)
    ensures var vs, i := HoldingsIn(req), a - Address(req);
            RegCarried(Dispatched(req), Target(req), HOLDING_REGS, a) == if 0 <= i < |vs| then Some(vs[i]) else None
  {
    var i := a - Address(req);
    if req.functionCode == 16 && 0 <= i < Operand(req) {
      assert req.payload[5..][2 * i..2 * i + 2] == req.payload[5 + 2 * i..5 + 2 * i + 2];
    }
  }

  lemma DispatchedReg(s: Contents, req: Request, area: byte, mid: MemoryID, a: int)
    requires mid in s && IsRegArea(area) && a in RegsOf(s[mid], area)
    ensures var e := Dispatched(req);
            && mid in Effect(s, e)
            && RegAt(RegsOf(Effect(s, e)[mid], area), a) ==
               if Succeeds(s, e) && RegCarried(e, mid, area, a).Some? then RegCarried(e, mid, area, a).value
               else RegAt(RegsOf(s[mid], area), a)
  {
    hide Dispatch, HoldingsIn, RegCarried, InReach, WellShaped;
    RefusedUnchanged(s, req);
    DispatchConfined(s, req);
    NotCarried(req, mid, area, a);
    if Verdict(s, req) == 0 && req.functionCode in {6, 16} && Target(req) == mid && area == HOLDING_REGS {
      HoldingWrite(s, req);
      HoldingCarried(req, a);
    }
  }

  lemma IngestedReg(s: Contents, p: Packet, area: byte, mid: MemoryID, a: int)
    requires mid in s && IsRegArea(area) && a in RegsOf(s[mid], area)
    ensures var e := Ingested(p);
            && mid in Effect(s, e)
            && RegAt(RegsOf(Effect(s, e)[mid], area), a) ==
               if Succeeds(s, e) && RegCarried(e, mid, area, a).Some? then RegCarried(e, mid, area, a).value
               else RegAt(RegsOf(s[mid], area), a)
  {
    if Destination(p) == mid && p.area == area {
      var r := s[mid].WriteRegs(area, p.address, p.count, p.payload);
      if r.Ok? {
        assert RegsOf(r.value, area) == Overwrite(RegsOf(s[mid], area), p.address, RegsIn(p.payload, p.count));
      }
    }
  }

  // Whole histories.

  /** After any history a bit is what the most recent successful write covering it carried, or what
      it was to begin with. */
  lemma {:induction false} BitHistory(s: Contents, log: seq<Access>, mid: MemoryID, area: byte, a: int)
    requires mid in s && IsBitArea(area) && a in BitsOf(s[mid], area)
    requires LayoutOf(s[mid].layouts, area).Some? && LayoutOf(s[mid].layouts, area).value.Packable()
    ensures mid in Replay(s, log)
    ensures BitOn(BitsOf(Replay(s, log)[mid], area), a) ==
            match LastBit(s, log, mid, area, a) case Some(v) => v case None => BitOn(BitsOf(s[mid], area), a)
  {
    hide Effect, Succeeds, BitCarried;
    if log != [] {
      var before, e := log[..|log| - 1], log[|log| - 1];
      BitHistory(s, before, mid, area, a);
      ReplayShape(s, before);
      match e
      case Dispatched(req) => DispatchedBit(Replay(s, before), req, area, mid, a);
      case Ingested(pkt) => IngestedBit(Replay(s, before), pkt, area, mid, a);
    }
  }

  /** The same for registers, whatever the size of the area. */
  lemma {:induction false} RegHistory(s: Contents, log: seq<Access>, mid: MemoryID, area: byte, a: int)
    requires mid in s && IsRegArea(area) && a in RegsOf(s[mid], area)
    ensures mid in Replay(s, log)
    ensures RegAt(RegsOf(Replay(s, log)[mid], area), a) ==
            match LastReg(s, log, mid, area, a) case Some(v) => v case None => RegAt(RegsOf(s[mid], area), a)
  {
    hide Effect, Succeeds, RegCarried;
    if log != [] {
      var before, e := log[..|log| - 1], log[|log| - 1];
      RegHistory(s, before, mid, area, a);
      ReplayShape(s, before);
      match e
      case Dispatched(req) => DispatchedReg(Replay(s, before), req, area, mid, a);
      case Ingested(pkt) => IngestedReg(Replay(s, before), pkt, area, mid, a);
    }
  }

  /** A memory as the builder leaves it: all zero, its sealing flag, if any, among its coils. */
  predicate FreshMemory(m: Image) {
    && m == Blank(m.layouts, m.stateSealing)
    && (m.stateSealing.Some? ==>
          && m.stateSealing.value.area == COILS
          && m.layouts.coils.Some?
          && m.layouts.coils.value.Covers(m.stateSealing.value.address))
  }

  lemma BlankAt(m: Image, area: byte, a: int)
    requires m == Blank(m.layouts, m.stateSealing)
    requires LayoutOf(m.layouts, area).Some? && LayoutOf(m.layouts, area).value.Covers(a)
    ensures IsBitArea(area) ==> a in BitsOf(m, area) && !BitOn(BitsOf(m, area), a)
    ensures IsRegArea(area) ==> a in RegsOf(m, area) && RegAt(RegsOf(m, area), a) == 0
  {
    assert a in Addresses(LayoutOf(m.layouts, area));
  }

  /** Each bit of a successful FC1/FC2 answer is the one carried by the bytes of the most recent
      successful write covering its address, from whichever transport, or zero if there was none. */
  lemma BitsEndToEnd(s: Contents, log: seq<Access>, req: Request)
    requires req.functionCode in {1, 2} && Target(req) in s && FreshMemory(s[Target(req)])
    requires Verdict(Replay(s, log), req) == 0
    requires LayoutOf(s[Target(req)].layouts, AreaOf(req.functionCode)).Some?
    requires LayoutOf(s[Target(req)].layouts, AreaOf(req.functionCode)).value.Packable()
    ensures var data := Dispatch(Replay(s, log), req).1[2..];
            && Operand(req) <= 8 * |data|
            && forall i | 0 <= i < Operand(req) ::
                 BitAt(data, i) <==>
                 LastBit(s, log, Target(req), AreaOf(req.functionCode), Address(req) + i) == Some(true)
  {
    hide Dispatch, Replay, LastBit;
    var mid, area, t := Target(req), AreaOf(req.functionCode), Replay(s, log);
    ReplayShape(s, log);
    ReadBitsExact(t, req);
    var l := LayoutOf(s[mid].layouts, area).value;
    l.ContainsExact(Address(req), Operand(req));
    RefusedUnchanged(t, req);
    var data := Dispatch(t, req).1[2..];
    forall i | 0 <= i < Operand(req)
      ensures BitAt(data, i) <==> LastBit(s, log, mid, area, Address(req) + i) == Some(true)
    {
      assert l.Covers(Address(req) + i);
      BlankAt(s[mid], area, Address(req) + i);
      BitHistory(s, log, mid, area, Address(req) + i);
    }
  }

  /** The same for each register of a successful FC3/FC4 answer. */
  lemma RegsEndToEnd(s: Contents, log: seq<Access>, req: Request)
    requires req.functionCode in {3, 4} && Target(req) in s && FreshMemory(s[Target(req)])
    requires Verdict(Replay(s, log), req) == 0
    ensures var data := Dispatch(Replay(s, log), req).1[2..];
            && |data| == 2 * Operand(req)
            && forall i | 0 <= i < Operand(req) ::
                 Uint16(data[2 * i..2 * i + 2]) ==
                 match LastReg(s, log, Target(req), AreaOf(req.functionCode), Address(req) + i)
                 case Some(v) => v case None => 0
  {
    hide Dispatch, Replay, LastReg;
    var mid, area, t := Target(req), AreaOf(req.functionCode), Replay(s, log);
    ReplayShape(s, log);
    ReadRegsExact(t, req);
    RefusedUnchanged(t, req);
    var data := Dispatch(t, req).1[2..];
    var l := LayoutOf(s[mid].layouts, area).value;
    l.ContainsExact(Address(req), Operand(req));
    forall i | 0 <= i < Operand(req)
      ensures Uint16(data[2 * i..2 * i + 2]) ==
              match LastReg(s, log, mid, area, Address(req) + i) case Some(v) => v case None => 0
    {
      assert l.Covers(Address(req) + i);
      BlankAt(s[mid], area, Address(req) + i);
      RegHistory(s, log, mid, area, Address(req) + i);
      assert RegsIn(data, Operand(req))[i] == RegAt(RegsOf(t[mid], area), Address(req) + i);
    }
  }

  /** A sealed memory is busy exactly until the last successful write covering its flag address wrote
      1; with more coils than can be packed it stays busy for ever. */
  lemma SealHistory(s: Contents, log: seq<Access>, mid: MemoryID)
    requires mid in s && FreshMemory(s[mid]) && s[mid].stateSealing.Some?
    ensures Sealed(Replay(s, log), mid) <==>
              !(s[mid].layouts.coils.value.Packable() &&
                LastBit(s, log, mid, COILS, s[mid].stateSealing.value.address) == Some(true))
  {
    hide Replay, LastBit;
    ReplayShape(s, log);
    SealedExact(Replay(s, log), mid);
    BlankAt(s[mid], COILS, s[mid].stateSealing.value.address);
    if s[mid].layouts.coils.value.Packable() {
      BitHistory(s, log, mid, COILS, s[mid].stateSealing.value.address);
    }
  }

  // What can be told before the access is made.

  /** The request deserves no exception, or the packet is acceptable. */
  predicate Acceptable(s: Contents, e: Access) {
    match e
    case Dispatched(req) => Verdict(s, req) == 0
    case Ingested(pkt) => Accepts(s, pkt)
  }

  /** An access succeeds exactly when it is acceptable. */
  lemma SucceedsExactly(s: Contents, e: Access)
    ensures Succeeds(s, e) <==> Acceptable(s, e)
  {
    match e
    case Dispatched(req) => RefusedUnchanged(s, req);
    case Ingested(pkt) => IngestExact(s, pkt);
  }

  /** No history changes what is acceptable: it depends on the layouts only. */
  lemma {:induction false} AcceptableEver(s: Contents, log: seq<Access>, e: Access)
    ensures Acceptable(Replay(s, log), e) <==> Acceptable(s, e)
  {
    hide Replay;
    ReplayShape(s, log);
    if e.Dispatched? {
      SameVerdict(s, Replay(s, log), e.req);
    }
  }

  /** What an access does to the flag of a memory: its bytes carry a value for it, or not. */
  function FlagCarried(s: Contents, e: Access, mid: MemoryID): Option<bool>
    requires mid in s && s[mid].stateSealing.Some?
  {
    BitCarried(e, mid, COILS, s[mid].stateSealing.value.address)
  }

  lemma LastFlag(s: Contents, log: seq<Access>, e: Access, mid: MemoryID)
    requires mid in s && s[mid].stateSealing.Some?
    ensures var a := s[mid].stateSealing.value.address;
            LastBit(s, log + [e], mid, COILS, a) ==
            if Acceptable(s, e) && FlagCarried(s, e, mid).Some? then FlagCarried(s, e, mid)
            else LastBit(s, log, mid, COILS, a)
  {
    hide Replay, Succeeds, Acceptable, BitCarried;
    var all := log + [e];
    assert all[..|all| - 1] == log && all[|all| - 1] == e;
    SucceedsExactly(Replay(s, log), e);
    AcceptableEver(s, log, e);
  }

  /** The effect of one more access on the seal. An open memory is sealed again by exactly one kind of
      access: an acceptable one, from either transport, that carries 0 to the flag. A sealed memory is
      opened by exactly one kind: an acceptable one, from either transport, that carries 1 to it. Both
      can be told from the access and the layouts before it is made. */
  lemma SealsAgainExactly(s: Contents, log: seq<Access>, e: Access, mid: MemoryID)
    requires mid in s && FreshMemory(s[mid]) && s[mid].stateSealing.Some?
    ensures !Sealed(Replay(s, log), mid) ==>
              (Sealed(Replay(s, log + [e]), mid) <==> Acceptable(s, e) && FlagCarried(s, e, mid) == Some(false))
    ensures Sealed(Replay(s, log), mid) ==>
              (!Sealed(Replay(s, log + [e]), mid) <==>
               s[mid].layouts.coils.value.Packable() && Acceptable(s, e) && FlagCarried(s, e, mid) == Some(true))
  {
    hide Replay, Sealed, Acceptable, FlagCarried, Blank, LastBit;
    SealHistory(s, log, mid);
    SealHistory(s, log + [e], mid);
    LastFlag(s, log, e, mid);
    var carried := FlagCarried(s, e, mid);
    if carried.Some? {
      var v := carried.value;
      assert carried == if v then Some(true) else Some(false);
    }
  }

  /** The packet that writes the flag of `mid`. */
  function FlagPacket(mid: MemoryID, flag: StateSealingDef, v: bool): Packet {
    Packet(mid.port, mid.unitID, flag.area, flag.address, 1, [if v then 1 else 0])
  }

  lemma FlagWritten(s: Contents, mid: MemoryID, flag: StateSealingDef, v: bool)
    requires mid in s && flag.area == COILS
    requires s[mid].layouts.coils.Some? && s[mid].layouts.coils.value.Covers(flag.address)
    ensures var e := Ingested(FlagPacket(mid, flag, v));
            Acceptable(s, e) && BitCarried(e, mid, COILS, flag.address) == Some(v)
  {
    assert s[mid].layouts.coils.value.Contains(flag.address, 1);
    ZeroBits(0);
  }

  /** So opening is not one-way: two packets open a sealed memory and seal it again. */
  lemma OpeningIsNotOneWay(s: Contents, mid: MemoryID)
    requires mid in s && FreshMemory(s[mid]) && s[mid].stateSealing.Some? && s[mid].layouts.coils.value.Packable()
    ensures var flag := s[mid].stateSealing.value;
            var up, down := Ingested(FlagPacket(mid, flag, true)), Ingested(FlagPacket(mid, flag, false));
            && Sealed(s, mid) && !Sealed(Replay(s, [up]), mid) && Sealed(Replay(s, [up, down]), mid)
  {
    var flag := s[mid].stateSealing.value;
    var up, down := Ingested(FlagPacket(mid, flag, true)), Ingested(FlagPacket(mid, flag, false));
    hide Replay, Acceptable, BitCarried, FlagPacket, Sealed;
    FlagWritten(s, mid, flag, true);
    FlagWritten(s, mid, flag, false);
    SealHistory(s, [], mid);
    assert Replay(s, []) == s by { NothingReplayed(s); }
    assert [] + [up] == [up] && [up] + [down] == [up, down];
    SealsAgainExactly(s, [], up, mid);
    SealsAgainExactly(s, [up], down, mid);
  }

  lemma NothingReplayed(s: Contents)
    ensures Replay(s, []) == s
  {
  }
}
