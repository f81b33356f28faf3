/** The two connection handlers. */
module Servers {
  import opened Words
  import opened Bits
  import opened Outcomes
  import opened Layouts
  import opened Images
  import opened MemoryCore
  import opened Stores
  import opened Conns
  import opened Pdus
  import opened Mbap
  import opened RawIngest
  import opened Dispatching
  import opened Answers
  import opened Authorities

  // Modbus.

  /** The flag bit that guards a memory, read the way the handler reads it; false if the read fails. */
  predicate FlagSet(m: Image, def: StateSealingDef) {
    match m.ReadBits(def.area, def.address, 1, [0])
    case Err(_) => false
    case Ok(buf) => TestBit(buf[0], 0)
  }

  /** The memory is there, has a sealing flag, and the flag is not set. */
  predicate Sealed(s: Contents, mid: MemoryID) {
    mid in s && s[mid].stateSealing.Some? && !FlagSet(s[mid], s[mid].stateSealing.value)
  }

  /** The exception with which a request is turned away before dispatch, if it is. */
  function Refusal(s: Contents, auth: Auth, src: Addr, req: Request): Option<byte> {
    if Sealed(s, Target(req)) then Some(DEVICE_BUSY)
    else
      match Judge(auth, Target(req), src, req.functionCode)
      case Allow => None
      case Deny(code) => Some(code)
  }

  /** What a request does to the memories and what PDU it is answered with. */
  function Answer(s: Contents, auth: Auth, src: Addr, req: Request): (Contents, seq<byte>) {
    var refusal := Refusal(s, auth, src, req);
    if refusal.Some? then (s, BuildExceptionPDU(req.functionCode, refusal.value)) else Dispatch(s, req)
  }

  /** A whole connection: the memories afterwards and the frames written. A failed write ends the
      connection only when the request had been dispatched. */
  function Serve(s: Contents, auth: Auth, src: Addr, port: u16, input: seq<byte>, credit: nat)
    : (Contents, seq<seq<byte>>)
    decreases |input|
  {
    ParseRequestConsumes(input, port);
    var (r, rest) := ParseRequest(input, port);
    if r.Err? then (s, [])
    else
      var (after, pdu) := Answer(s, auth, src, r.value);
      if credit > 0 then
        var (end, frames) := Serve(after, auth, src, port, rest, credit - 1);
        (end, [Frame(r.value, pdu)] + frames)
      else if Refusal(s, auth, src, r.value).Some? then Serve(after, auth, src, port, rest, 0)
      else (after, [])
  }

  lemma SealSeen(store: Store, mid: MemoryID)
    requires store.Valid()
    ensures mid in store.data <==> mid in store.contents
    ensures mid in store.data ==>
              && store.data[mid].Valid() && store.contents[mid] == store.data[mid].Abs()
              && store.contents[mid].stateSealing == store.data[mid].stateSealing
  {
  }

  method CheckSeal(store: Store, mid: MemoryID) returns (busy: bool)
    requires store.Valid()
    ensures busy == Sealed(store.contents, mid)
    ensures busy == FlagDown(store.contents, mid)
  {
    SealedPlainly(store.contents, mid);
    SealSeen(store, mid);
    hide FlagDown, Image.ReadBits, Store.Valid, Memory.Valid, Memory.Abs, TestBit;
    var mem := store.Get(mid);
    if mem == null || mem.stateSealing.None? { return false; }
    var seal := mem.stateSealing.value;
    var buf := new byte[1];
    buf[0] := 0;
    assert buf[..] == [0];
    var err := mem.ReadBits(seal.area, seal.address, 1, buf);
    if err.Some? { return true; }
    return !TestBit(buf[0], 0);
  }

  /** Seal check, access control and dispatch of one request; `dispatched` tells whether it got past
      the first two. */
  method HandleRequest(store: Store, auth: Authority, src: Addr, req: Request)
    returns (pdu: seq<byte>, dispatched: bool)
    requires store.Valid() && auth.Valid()
    requires {auth as object, auth.sealing} !! store.Repr
    modifies store`contents, store.Repr
    ensures store.Valid() && store.Repr == old(store.Repr)
    ensures (store.contents, pdu) == Answer(old(store.contents), auth.Abs(), src, req)
    ensures dispatched == Refusal(old(store.contents), auth.Abs(), src, req).None?
  {
    hide Store.Valid, Sealed, Judge, Dispatch, FlagDown;
    Keys(store);
    var mid := MemoryID(req.port, req.unitID);
    var busy := CheckSeal(store, mid);
    if busy { return BuildExceptionPDU(req.functionCode, DEVICE_BUSY), false; }
    var decision := auth.Evaluate(mid, src, req.functionCode);
    if decision.Deny? { return BuildExceptionPDU(req.functionCode, decision.code), false; }
    pdu := DispatchMemory(store, req);
    dispatched := true;
  }

  method HandleModbus(conn: Conn, store: Store, auth: Authority, port: u16, src: Addr)
    requires store.Valid() && auth.Valid()
    requires {conn as object, auth, auth.sealing} !! store.Repr
    modifies conn, store`contents, store.Repr
    ensures store.Valid()
    ensures var (after, frames) := Serve(old(store.contents), auth.Abs(), src, port, old(conn.input), old(conn.credit));
            store.contents == after && conn.output == old(conn.output) + frames
  {
    hide Serve, Answer, Refusal, ParseRequest, Frame, Store.Valid;
    ghost var a, out := auth.Abs(), conn.output;
    ghost var whole := Serve(store.contents, a, src, port, conn.input, conn.credit);
    while true
      invariant store.Valid() && store.Repr == old(store.Repr)
      invariant auth.Abs() == a && auth.Valid()
      invariant var (after, frames) := Serve(store.contents, a, src, port, conn.input, conn.credit);
                whole.0 == after && out + whole.1 == conn.output + frames
      decreases |conn.input|
    {
      ParseRequestConsumes(conn.input, port);
      ServeOne(store.contents, a, src, port, conn.input, conn.credit);
      var r := ReadRequest(conn, port);
      if r.Err? { return; }
      var pdu, dispatched := HandleRequest(store, auth, src, r.value);
      var frame := BuildResponse(r.value, pdu);
      ghost var sent := conn.output;
      var ok := conn.Write(frame);
      ghost var rest := Serve(store.contents, a, src, port, conn.input, conn.credit).1;
      assert sent + ([frame] + rest) == sent + [frame] + rest;
      if dispatched && !ok { return; }
    }
  }

  /** How a conversation goes on after one request. */
  lemma ServeOne(s: Contents, auth: Auth, src: Addr, port: u16, input: seq<byte>, credit: nat)
    ensures var (r, rest) := ParseRequest(input, port);
            |rest| <= |input| &&
            if r.Err? then Serve(s, auth, src, port, input, credit) == (s, [])
            else
              var (after, pdu) := Answer(s, auth, src, r.value);
              Serve(s, auth, src, port, input, credit) ==
              if credit > 0 then
                var (end, frames) := Serve(after, auth, src, port, rest, credit - 1);
                (end, [Frame(r.value, pdu)] + frames)
              else if Refusal(s, auth, src, r.value).Some? then Serve(after, auth, src, port, rest, 0)
              else (after, [])
  {
    hide Answer, Refusal, ParseRequest, Frame;
    ParseRequestConsumes(input, port);
  }

  /** The bit that a sealing definition points at is there and is 1. */
  predicate FlagUp(m: Image, def: StateSealingDef) {
    || (def.area == 1 && PointsAt(m.layouts.coils, def.address) && BitOn(m.coils, def.address))
    || (def.area == 2 && PointsAt(m.layouts.discreteInputs, def.address) && BitOn(m.discreteInputs, def.address))
  }

  /** The memory is there and has a sealing flag, and the flag is not up. */
  predicate FlagDown(s: Contents, mid: MemoryID) {
    mid in s && s[mid].stateSealing.Some? && !FlagUp(s[mid], s[mid].stateSealing.value)
  }

  predicate PointsAt(l: Option<AreaLayout>, a: u16) {
    l.Some? && l.value.start <= a < l.value.start + l.value.size && l.value.size <= 65528
  }

  lemma {:induction false} SealedPlainly(s: Contents, mid: MemoryID)
    ensures Sealed(s, mid) <==> FlagDown(s, mid)
  {
    if mid in s && s[mid].stateSealing.Some? {
      var m, def := s[mid], s[mid].stateSealing.value;
      if IsBitArea(def.area) {
        ZeroBits(0);
        var bits := SliceBits(BitsOf(m, def.area), def.address, 1);
        PutBitsAt([0], 0, bits, 0);
        var l := LayoutOf(m.layouts, def.area);
        if l.Some? && l.value.Contains(def.address, 1) && l.value.Packable() {
          assert FlagSet(m, def) == BitAt(PutBits([0], 0, bits), 0);
        }
      }
    }
  }

  /** The answer by precedence, in the numbers of the specification: 0x06 for a memory whose sealing flag
      is not up, or which is marked sealed; 0x01 if no rule permits the request, or for an unknown function;
      0x03 for a bad payload; 0x02 for what is not there; 0 if it is carried out. */
  function FinalCode(s: Contents, auth: Auth, src: Addr, req: Request): byte {
    var mid := MemoryID(req.port, req.unitID);
    if FlagDown(s, mid) then 0x06
    else if mid in auth.flags && auth.flags[mid] then 0x06
    else if !Permitted(auth.policies, mid, src, req.functionCode) then 0x01
    else Verdict(s, req)
  }

  lemma FullOutcome(s: Contents, auth: Auth, src: Addr, req: Request)
    ensures var (after, pdu) := Answer(s, auth, src, req);
            var code := FinalCode(s, auth, src, req);
            && code in {0x00, 0x01, 0x02, 0x03, 0x06}
            && (code != 0 ==> after == s && pdu == Exception(req.functionCode, code))
            && (code == 0 ==> |pdu| >= 2 && pdu[0] == req.functionCode < 0x80 && (after, pdu) == Dispatch(s, req))
  {
    hide Dispatch, Judge, Sealed, BuildExceptionPDU, InReach, WellShaped, Permitted, FlagDown;
    SealedPlainly(s, Target(req));
    JudgeExactly(auth, Target(req), src, req.functionCode);
    ExactOutcome(s, req);
    ExceptionForm(req.functionCode, DEVICE_BUSY);
    ExceptionForm(req.functionCode, 1);
  }

  /** So a memory without a flag, or no memory at all, is never busy on account of its flag: such a request
      is answered as the policy and the verdict say. */
  lemma Unflagged(s: Contents, auth: Auth, src: Addr, req: Request)
    requires var mid := MemoryID(req.port, req.unitID); mid !in s || s[mid].stateSealing.None?
    requires var mid := MemoryID(req.port, req.unitID); !(mid in auth.flags && auth.flags[mid])
    ensures Answer(s, auth, src, req) ==
            if Permitted(auth.policies, MemoryID(req.port, req.unitID), src, req.functionCode) then Dispatch(s, req)
            else (s, Exception(req.functionCode, 0x01))
  {
    hide Dispatch, Judge, Sealed, BuildExceptionPDU, Permitted, Verdict;
    SealedPlainly(s, Target(req));
    JudgeExactly(auth, Target(req), src, req.functionCode);
    ExceptionForm(req.functionCode, 1);
  }

  /** With the flag among the coils, a memory is busy exactly when the flag coil is 0. */
  lemma SealedExact(s: Contents, mid: MemoryID)
    requires mid in s && s[mid].stateSealing.Some? && s[mid].stateSealing.value.area == COILS
    requires s[mid].layouts.coils.Some? && s[mid].layouts.coils.value.Covers(s[mid].stateSealing.value.address)
    ensures Sealed(s, mid) <==>
              !(s[mid].layouts.coils.value.Packable() && BitOn(s[mid].coils, s[mid].stateSealing.value.address))
  {
    var m, a := s[mid], s[mid].stateSealing.value.address;
    assert m.layouts.coils.value.Contains(a, 1);
    ZeroBits(0);
    var bits := SliceBits(m.coils, a, 1);
    PutBitsAt([0], 0, bits, 0);
    assert m.layouts.coils.value.Packable() ==> FlagSet(m, m.stateSealing.value) == BitAt(PutBits([0], 0, bits), 0);
  }

  // Pipelined conversations.

  function EncodeRequests(reqs: seq<Request>): seq<byte> {
    if reqs == [] then [] else EncodeRequest(reqs[0]) + EncodeRequests(reqs[1..])
  }

  /** Requests answered one after the other, each on the memories the previous ones left. */
  function AnswerAll(s: Contents, auth: Auth, src: Addr, reqs: seq<Request>): (Contents, seq<seq<byte>>)
    decreases |reqs|
  {
    if reqs == [] then (s, [])
    else
      var (next, pdu) := Answer(s, auth, src, reqs[0]);
      var (end, pdus) := AnswerAll(next, auth, src, reqs[1..]);
      (end, [pdu] + pdus)
  }

  /** `k` well-framed requests sent back to back are answered by exactly `k` frames in request order;
      each echoes the identifiers of its request and carries the answer to it. */
  lemma {:induction false} Pipelined(s: Contents, auth: Auth, src: Addr, port: u16, reqs: seq<Request>, credit: nat)
    requires forall i | 0 <= i < |reqs| :: WellFramed(reqs[i], port)
    requires credit >= |reqs|
    ensures var (after, frames) := Serve(s, auth, src, port, EncodeRequests(reqs), credit);
            var (end, pdus) := AnswerAll(s, auth, src, reqs);
            && after == end && |frames| == |pdus| == |reqs|
            && forall i | 0 <= i < |reqs| :: frames[i] == Frame(reqs[i], pdus[i])
    decreases |reqs|
  {
    hide Answer, ParseRequest, Frame, EncodeRequest;
    ParseRequestConsumes([], port);
    if reqs != [] {
      RequestRoundTrip(reqs[0], port, EncodeRequests(reqs[1..]));
      Pipelined(Answer(s, auth, src, reqs[0]).0, auth, src, port, reqs[1..], credit - 1);
    }
  }

  /** Requests with whatever follows them: after as many writes as there were requests, the conversation goes
      on with what is left of the input and of the writes. */
  lemma {:induction false} PipelinedThen(s: Contents, auth: Auth, src: Addr, port: u16, reqs: seq<Request>,
                                         tail: seq<byte>, credit: nat)
    requires forall i | 0 <= i < |reqs| :: WellFramed(reqs[i], port)
    requires credit >= |reqs|
    ensures var (end, pdus) := AnswerAll(s, auth, src, reqs);
            var (after, frames) := Serve(s, auth, src, port, EncodeRequests(reqs) + tail, credit);
            var (after', more) := Serve(end, auth, src, port, tail, credit - |reqs|);
            && after == after' && |pdus| == |reqs| && |frames| == |reqs| + |more| && frames[|reqs|..] == more
            && forall i | 0 <= i < |reqs| :: frames[i] == Frame(reqs[i], pdus[i])
    decreases |reqs|
  {
    hide Answer, ParseRequest, Frame, EncodeRequest, Serve;
    if reqs == [] {
      assert EncodeRequests(reqs) + tail == tail;
    } else {
      var rest := EncodeRequests(reqs[1..]) + tail;
      assert EncodeRequests(reqs) + tail == EncodeRequest(reqs[0]) + rest;
      RequestRoundTrip(reqs[0], port, rest);
      ServeOne(s, auth, src, port, EncodeRequests(reqs) + tail, credit);
      PipelinedThen(Answer(s, auth, src, reqs[0]).0, auth, src, port, reqs[1..], tail, credit - 1);
    }
  }

  /** When writes fail nothing is answered any more. Requests that are turned away at the gate are passed
      over; the first one that is not is still dispatched, and ends the connection. */
  lemma Unwritten(s: Contents, auth: Auth, src: Addr, port: u16, req: Request, tail: seq<byte>)
    requires WellFramed(req, port)
    ensures var mid := MemoryID(req.port, req.unitID);
            Serve(s, auth, src, port, EncodeRequest(req) + tail, 0) ==
            if FlagDown(s, mid) || (mid in auth.flags && auth.flags[mid])
               || !Permitted(auth.policies, mid, src, req.functionCode) then Serve(s, auth, src, port, tail, 0)
            else (Dispatch(s, req).0, [])
  {
    hide Dispatch, Judge, Sealed, ParseRequest, Frame, EncodeRequest, Serve, Permitted, FlagDown;
    RequestRoundTrip(req, port, tail);
    ServeOne(s, auth, src, port, EncodeRequest(req) + tail, 0);
    SealedPlainly(s, Target(req));
    JudgeExactly(auth, Target(req), src, req.functionCode);
  }

  // Raw ingest.

  function Destination(p: Packet): MemoryID { MemoryID(p.port, p.unitID) }

  function IngestResult(s: Contents, p: Packet): Result<Image, MemError> {
    if Destination(p) !in s then Err(UnknownMemoryID)
    else if IsBitArea(p.area) then s[Destination(p)].WriteBits(p.area, p.address, p.count, p.payload)
    else if IsRegArea(p.area) then s[Destination(p)].WriteRegs(p.area, p.address, p.count, p.payload)
    else Err(InvalidArea)
  }

  /** What a packet does, and its status byte. */
  function Ingest(s: Contents, p: Packet): (Contents, byte) {
    var r := IngestResult(s, p);
    if r.Err? then (s, RESP_REJECTED) else (s[Destination(p) := r.value], RESP_OK)
  }

  /** The memory exists, has the area, all addressed elements lie in it and the payload carries them. */
  predicate Accepts(s: Contents, p: Packet) {
    && Destination(p) in s
    && |p.payload| >= (if IsBitArea(p.area) then BytesForBits(p.count) else 2 * p.count)
    && var l := LayoutOf(s[Destination(p)].layouts, p.area);
       l.Some? && l.value.Contains(p.address, p.count)
  }

  /** The memory after an accepted packet: exactly the addressed elements of one area are overwritten,
      and none in a bit area that is too large to be packed. */
  function Filled(m: Image, p: Packet): Image
    requires LayoutOf(m.layouts, p.area).Some? && LayoutOf(m.layouts, p.area).value.Contains(p.address, p.count)
    requires |p.payload| >= if IsBitArea(p.area) then BytesForBits(p.count) else 2 * p.count
  {
    if IsRegArea(p.area) then
      WithRegs(m, p.area, Overwrite(RegsOf(m, p.area), p.address, RegsIn(p.payload, p.count)))
    else if LayoutOf(m.layouts, p.area).value.Packable() then
      BytesForBitsExact(p.count);
      WithBits(m, p.area, Overwrite(BitsOf(m, p.area), p.address, Unpack(p.payload, 0, p.count)))
    else m
  }

  /** A packet is reported as written exactly when it is acceptable; then exactly its elements are
      overwritten, and otherwise nothing changes. */
  lemma IngestExact(s: Contents, p: Packet)
    ensures Ingest(s, p).1 == if Accepts(s, p) then 0 else 1
    ensures Ingest(s, p).0 == if Accepts(s, p) then s[Destination(p) := Filled(s[Destination(p)], p)] else s
  {
    BytesForBitsExact(p.count);
  }

  /** For a packet off the wire only memory, area and range decide. */
  lemma DecodedAccepted(s: Contents, input: seq<byte>, port: u16)
    ensures var r := ParsePacket(input, port).0;
            r.Ok? ==>
              var p := r.value;
              Accepts(s, p) <==>
                && Destination(p) in s
                && LayoutOf(s[Destination(p)].layouts, p.area).Some?
                && LayoutOf(s[Destination(p)].layouts, p.area).value.Contains(p.address, p.count)
  {
    hide ParsePacket;
    DecodedIsEncoding(input, port);
  }

  /** `out` followed by one more write, if there is credit for it. */
  function Written(out: seq<seq<byte>>, credit: nat, bytes: seq<byte>): seq<seq<byte>> {
    if credit > 0 then [bytes] + out else out
  }

  function Debit(credit: nat): nat { if credit > 0 then credit - 1 else 0 }

  /** A whole raw-ingest connection. */
  function ServeRaw(s: Contents, port: u16, input: seq<byte>, credit: nat): (Contents, seq<seq<byte>>)
    decreases |input|
  {
    ParsePacketConsumes(input, port);
    var (r, rest) := ParsePacket(input, port);
    if r.Err? then (s, if r.error == EOF then [] else Written([], credit, [RESP_REJECTED]))
    else
      var (after, status) := Ingest(s, r.value);
      var (end, out) := ServeRaw(after, port, rest, Debit(credit));
      (end, Written(out, credit, [status]))
  }

  method IngestPacket(store: Store, pkt: Packet) returns (status: byte)
    requires store.Valid()
    modifies store`contents, store.Repr
    ensures store.Valid() && store.Repr == old(store.Repr)
    ensures (store.contents, status) == Ingest(old(store.contents), pkt)
  {
    hide Store.Valid, Image.WriteBits, Image.WriteRegs;
    Keys(store);
    var memID := MemoryID(pkt.port, pkt.unitID);
    var mem := store.MustGet(memID);
    if mem.Err? { return RESP_REJECTED; }
    if IsBitArea(pkt.area) {
      var err := store.WriteBits(memID, pkt.area, pkt.address, pkt.count, pkt.payload);
      if err.Some? { return RESP_REJECTED; }
    } else if IsRegArea(pkt.area) {
      var err := store.WriteRegs(memID, pkt.area, pkt.address, pkt.count, pkt.payload);
      if err.Some? { return RESP_REJECTED; }
    } else {
      return RESP_REJECTED;
    }
    return RESP_OK;
  }

  lemma Keys(store: Store)
    requires store.Valid()
    ensures store.contents.Keys == store.data.Keys && store !in store.Repr
  {
  }

  method HandleRaw(conn: Conn, store: Store, port: u16)
    requires store.Valid() && conn !in store.Repr
    modifies conn, store`contents, store.Repr
    ensures store.Valid()
    ensures var (after, out) := ServeRaw(old(store.contents), port, old(conn.input), old(conn.credit));
            store.contents == after && conn.output == old(conn.output) + out
  {
    hide Ingest, ParsePacket, Store.Valid, ServeRaw;
    ghost var sent := conn.output;
    ghost var whole := ServeRaw(store.contents, port, conn.input, conn.credit);
    while true
      invariant store.Valid() && store.Repr == old(store.Repr)
      invariant var (after, out) := ServeRaw(store.contents, port, conn.input, conn.credit);
                whole.0 == after && sent + whole.1 == conn.output + out
      decreases |conn.input|
    {
      ParsePacketConsumes(conn.input, port);
      ServeRawOne(store.contents, port, conn.input, conn.credit);
      var pkt := DecodeOne(conn, port);
      if pkt.Err? {
        if pkt.error != EOF {
          var _ := conn.Write([RESP_REJECTED]);
        }
        return;
      }
      var status := IngestPacket(store, pkt.value);
      ghost var rest := ServeRaw(store.contents, port, conn.input, Debit(conn.credit)).1;
      assert conn.output + ([[status]] + rest) == conn.output + [[status]] + rest;
      var _ := conn.Write([status]);
    }
  }

  /** How a raw-ingest conversation goes on after one packet. */
  lemma ServeRawOne(s: Contents, port: u16, input: seq<byte>, credit: nat)
    ensures var (r, rest) := ParsePacket(input, port);
            |rest| <= |input| &&
            if r.Err? then
              ServeRaw(s, port, input, credit) == (s, if r.error == EOF then [] else Written([], credit, [RESP_REJECTED]))
            else
              var (after, status) := Ingest(s, r.value);
              var (end, out) := ServeRaw(after, port, rest, Debit(credit));
              ServeRaw(s, port, input, credit) == (end, Written(out, credit, [status]))
    ensures input == [] ==> ServeRaw(s, port, input, credit) == (s, [])
  {
    hide Ingest;
    ParsePacketConsumes(input, port);
  }

  /** A stream of packets gets one status byte each, in order, and the connection then just ends. */
  lemma {:induction false} OneStatusEach(s: Contents, port: u16, ps: seq<Packet>, credit: nat)
    requires forall p | p in ps :: Encodable(p, port)
    requires credit >= |ps|
    ensures var (end, statuses) := IngestAll(s, ps);
            ServeRaw(s, port, EncodeAll(ps), credit) == (end, statuses)
    ensures |IngestAll(s, ps).1| == |ps|
    ensures forall i | 0 <= i < |ps| :: IngestAll(s, ps).1[i] == [0] || IngestAll(s, ps).1[i] == [1]
    decreases |ps|
  {
    hide Ingest, EncodePacket, ParsePacket, ServeRaw;
    ServeRawOne(s, port, EncodeAll(ps), credit);
    if ps != [] {
      IngestExact(s, ps[0]);
      hide Accepts, Filled;
    }
    if ps != [] {
      assert Encodable(ps[0], port);
      PacketRoundTrip(ps[0], EncodeAll(ps[1..]));
      OneStatusEach(Ingest(s, ps[0]).0, port, ps[1..], credit - 1);
    }
  }

  function IngestAll(s: Contents, ps: seq<Packet>): (Contents, seq<seq<byte>>)
    decreases |ps|
  {
    if ps == [] then (s, [])
    else
      var (next, status) := Ingest(s, ps[0]);
      var (end, statuses) := IngestAll(next, ps[1..]);
      (end, [[status]] + statuses)
  }
}
