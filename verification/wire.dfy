/** Both protocols byte by byte: what is answered to which bytes and what they do to the four tables, in
    the numbers that appear on the wire. */
module Wire {
  import opened Words
  import opened Bits
  import opened Outcomes
  import opened Layouts
  import opened Images
  import opened Stores
  import opened Conns
  import opened Pdus
  import opened Mbap
  import opened RawIngest
  import opened Dispatching
  import opened Answers
  import opened Authorities
  import opened Servers

  /** The big-endian word at place `i`. */
  function Word(b: seq<byte>, i: nat): (w: u16)
    requires i + 2 <= |b|
  {
    256 * (b[i] as int) + b[i + 1] as int
  }

  lemma WordThere(b: seq<byte>, i: nat)
    requires i + 2 <= |b|
    ensures Word(b, i) == Uint16(b[i..i + 2])
  {
    Uint16Bits(b[i..i + 2], 0);
  }

  /** Bytes for `n` bits; none beyond 65528. */
  function PackedBytes(n: u16): nat { if n <= 65528 then (n + 7) / 8 else 0 }

  // The tables of a memory: 1 coils, 2 discrete inputs, 3 holding registers, 4 input registers.

  function Table(l: MemoryLayouts, area: byte): Option<AreaLayout> {
    match area
    case 1 => l.coils
    case 2 => l.discreteInputs
    case 3 => l.holdingRegs
    case 4 => l.inputRegs
    case _ => None
  }

  predicate InTable(l: MemoryLayouts, area: byte, a: int, n: int) {
    && Table(l, area).Some? && n != 0
    && Table(l, area).value.start <= a && a + n <= Table(l, area).value.start + Table(l, area).value.size
  }

  /** `bits'` is `bits` with the packed `data` laid over `a` to `a + n - 1`. */
  predicate BitsLaid(bits: map<int, bool>, bits': map<int, bool>, a: int, n: int, data: seq<byte>) {
    && bits'.Keys == bits.Keys
    && forall k | k in bits :: bits'[k] == if a <= k < a + n then k - a < 8 * |data| && On(data, k - a) else bits[k]
  }

  /** The same for registers. */
  predicate RegsLaid(regs: map<int, u16>, regs': map<int, u16>, a: int, n: int, data: seq<byte>) {
    && regs'.Keys == regs.Keys
    && forall k | k in regs ::
         if a <= k < a + n then 2 * (k - a) + 2 <= |data| && regs'[k] == Word(data, 2 * (k - a)) else regs'[k] == regs[k]
  }

  /** `m'` is `m` with `data` laid over one table; a bit table of more than 65528 elements stays as it is. */
  predicate Laid(m: Image, m': Image, area: byte, a: int, n: int, data: seq<byte>) {
    match area
    case 1 =>
      && m' == m.(coils := m'.coils)
      && if m.layouts.coils.Some? && m.layouts.coils.value.size <= 65528 then BitsLaid(m.coils, m'.coils, a, n, data)
         else m' == m
    case 2 =>
      && m' == m.(discreteInputs := m'.discreteInputs)
      && if m.layouts.discreteInputs.Some? && m.layouts.discreteInputs.value.size <= 65528 then
           BitsLaid(m.discreteInputs, m'.discreteInputs, a, n, data)
         else m' == m
    case 3 => m' == m.(holdingRegs := m'.holdingRegs) && RegsLaid(m.holdingRegs, m'.holdingRegs, a, n, data)
    case 4 => m' == m.(inputRegs := m'.inputRegs) && RegsLaid(m.inputRegs, m'.inputRegs, a, n, data)
    case _ => m' == m
  }

  /** Laying is pointwise overwriting. */
  lemma OverwrittenBits(bits: map<int, bool>, a: int, n: nat, data: seq<byte>)
    requires n <= 8 * |data|
    ensures BitsLaid(bits, Overwrite(bits, a, Unpack(data, 0, n)), a, n, data)
  {
    hide On, BitAt;
    forall i: nat | i < n
      ensures On(data, i) == Unpack(data, 0, n)[i]
    {
      OnExactly(data, i);
    }
  }

  lemma OverwrittenRegs(regs: map<int, u16>, a: int, n: nat, data: seq<byte>)
    requires 2 * n <= |data|
    ensures RegsLaid(regs, Overwrite(regs, a, RegsIn(data, n)), a, n, data)
  {
    hide Uint16, Word;
    forall i: nat | i < n
      ensures RegsIn(data, n)[i] == Word(data, 2 * i)
    {
      WordThere(data, 2 * i);
    }
  }

  // Modbus frames.

  /** A response frame: the first four bytes and the unit id of the request, the length, the PDU. */
  lemma FrameBytes(req: Request, pdu: seq<byte>)
    requires |pdu| <= 65534
    ensures Frame(req, pdu) ==
            [req.transactionID / 256, req.transactionID % 256, req.protocolID / 256, req.protocolID % 256,
             (|pdu| + 1) / 256, (|pdu| + 1) % 256, req.unitID] + pdu
  {
  }

  /** The bytes hold a whole request. */
  predicate WholeRequest(b: seq<byte>) { |b| >= 7 && Word(b, 4) > 1 && |b| >= 6 + Word(b, 4) }

  /** How request bytes are read. */
  lemma RequestBytes(b: seq<byte>, port: u16)
    ensures ParseRequest(b, port).0.Ok? <==> WholeRequest(b)
    ensures WholeRequest(b) ==>
              ParseRequest(b, port) ==
                (Ok(Request(port, Word(b, 0), Word(b, 2), Word(b, 4), b[6], b[7], b[8..6 + Word(b, 4)])),
                 b[6 + Word(b, 4)..])
  {
    hide Uint16, Word;
    if |b| >= 7 {
      var h := b[..7];
      WordThere(b, 0);
      WordThere(b, 2);
      WordThere(b, 4);
      assert h[0..2] == b[0..2] && h[2..4] == b[2..4] && h[4..6] == b[4..6];
      if WholeRequest(b) {
        var n := Word(b, 4) - 1;
        assert b[7..][..n][1..] == b[8..6 + Word(b, 4)] && b[7..][n..] == b[6 + Word(b, 4)..];
      }
    }
  }

  /** The answer to the bytes of a request: an echo of bytes 0 to 3 and 6, with the length of the PDU. */
  lemma AnswerBytes(s: Contents, auth: Auth, src: Addr, port: u16, b: seq<byte>, credit: nat)
    requires WholeRequest(b) && credit > 0
    ensures var req := Request(port, Word(b, 0), Word(b, 2), Word(b, 4), b[6], b[7], b[8..6 + Word(b, 4)]);
            var (after, pdu) := Answer(s, auth, src, req);
            var (end, frames) := Serve(after, auth, src, port, b[6 + Word(b, 4)..], credit - 1);
            && |pdu| <= 65534 ==>
                 Serve(s, auth, src, port, b, credit) ==
                   (end, [b[..4] + [(|pdu| + 1) / 256, (|pdu| + 1) % 256, b[6]] + pdu] + frames)
  {
    var req := Request(port, Word(b, 0), Word(b, 2), Word(b, 4), b[6], b[7], b[8..6 + Word(b, 4)]);
    var pdu := Answer(s, auth, src, req).1;
    RequestBytes(b, port);
    ServeOne(s, auth, src, port, b, credit);
    if |pdu| <= 65534 {
      FrameBytes(req, pdu);
      WordSplit(b, 0);
      WordSplit(b, 2);
      hide Serve, Answer, ParseRequest, Frame, Word;
      var l := |pdu| + 1;
      assert b[..4] + [l / 256, l % 256, b[6]] == [b[0], b[1], b[2], b[3], l / 256, l % 256, b[6]];
    }
  }

  lemma WordSplit(b: seq<byte>, i: nat)
    requires i + 2 <= |b|
    ensures Word(b, i) / 256 == b[i] && Word(b, i) % 256 == b[i + 1]
  {
  }

  /** Anything else ends the connection without an answer and without effect. */
  lemma BrokenBytes(s: Contents, auth: Auth, src: Addr, port: u16, b: seq<byte>, credit: nat)
    requires !WholeRequest(b)
    ensures Serve(s, auth, src, port, b, credit) == (s, [])
  {
    RequestBytes(b, port);
    ServeOne(s, auth, src, port, b, credit);
  }

  // Modbus requests.

  /** The table of a function code. */
  function AreaFor(fc: byte): byte {
    match fc
    case 1 => 1
    case 5 => 1
    case 15 => 1
    case 2 => 2
    case 3 => 3
    case 6 => 3
    case 16 => 3
    case 4 => 4
    case _ => 0
  }

  /** How many elements a request is about. */
  function CountFor(fc: byte, p: seq<byte>): u16
    requires |p| >= 4
  {
    if fc == 5 || fc == 6 then 1 else Word(p, 2)
  }

  /** The payload, that is the PDU without its function code, has the form the function code asks for. */
  predicate Shape(fc: byte, p: seq<byte>) {
    if fc == 15 || fc == 16 then
      |p| >= 5 && p[4] as int == |p| - 5 && Word(p, 2) != 0
      && |p| - 5 == if fc == 15 then PackedBytes(Word(p, 2)) else 2 * Word(p, 2)
    else
      && |p| == 4
      && (fc == 1 || fc == 2 ==> Word(p, 2) != 0)
      && (fc == 5 ==> p[3] == 0 && (p[2] == 0xFF || p[2] == 0))
  }

  /** The exception code; 0 if the request is carried out. */
  function Code(s: Contents, mid: MemoryID, fc: byte, p: seq<byte>): byte {
    if AreaFor(fc) == 0 then 0x01
    else if !Shape(fc, p) then 0x03
    else if mid !in s || !InTable(s[mid].layouts, AreaFor(fc), Word(p, 0), CountFor(fc, p)) then 0x02
    else 0x00
  }

  lemma VerdictBytes(s: Contents, req: Request)
    ensures Verdict(s, req) == Code(s, MemoryID(req.port, req.unitID), req.functionCode, req.payload)
  {
    var p := req.payload;
    if |p| >= 4 {
      WordThere(p, 0);
      WordThere(p, 2);
      BytesForBitsExact(Word(p, 2));
    }
  }

  lemma Operands(s: Contents, req: Request)
    requires Code(s, MemoryID(req.port, req.unitID), req.functionCode, req.payload) == 0
    ensures Verdict(s, req) == 0 && Target(req) == MemoryID(req.port, req.unitID) && Target(req) in s
    ensures Table(s[Target(req)].layouts, AreaFor(req.functionCode)) ==
            LayoutOf(s[Target(req)].layouts, AreaOf(req.functionCode))
    ensures LayoutOf(s[Target(req)].layouts, AreaOf(req.functionCode)).Some?
    ensures |req.payload| >= 4 && Address(req) == Word(req.payload, 0) && Operand(req) == Word(req.payload, 2)
  {
    VerdictBytes(s, req);
    WordThere(req.payload, 0);
    WordThere(req.payload, 2);
  }

  /** What is answered to a request that cannot be carried out, and that nothing happens then. */
  lemma ErrorBytes(s: Contents, req: Request)
    ensures var fc, code := req.functionCode, Code(s, MemoryID(req.port, req.unitID), req.functionCode, req.payload);
            code != 0 ==> Dispatch(s, req) == (s, [if fc < 0x80 then fc + 0x80 else fc, code])
  {
    hide Dispatch, Verdict, Code;
    VerdictBytes(s, req);
    ExactOutcome(s, req);
  }

  /** FC1 reads coils and FC2 discrete inputs: bit `i % 8` of data byte `i / 8` is the element at address
      + `i`, and the other bits are 0. */
  lemma BitReadBytes(s: Contents, req: Request)
    requires req.functionCode == 1 || req.functionCode == 2
    requires Code(s, MemoryID(req.port, req.unitID), req.functionCode, req.payload) == 0
    ensures var m, a, q := s[MemoryID(req.port, req.unitID)], Word(req.payload, 0), Word(req.payload, 2);
            var (after, pdu) := Dispatch(s, req);
            && after == s
            && |pdu| == 2 + PackedBytes(q) && pdu[0] == req.functionCode && pdu[1] == PackedBytes(q) % 256
            && forall i | 0 <= i < 8 * PackedBytes(q) ::
                 On(pdu[2..], i) ==
                 (&& i < q && Table(m.layouts, req.functionCode).value.size <= 65528
                  && BitOn(if req.functionCode == 1 then m.coils else m.discreteInputs, a + i))
  {
    Operands(s, req);
    hide Dispatch, Verdict, Code, BitAt, On, Word, Uint16, BitOn, Zeros, BytesForBits, Address, Operand;
    ReadUnchanged(s, req);
    ReadBitsExact(s, req);
    BytesForBitsExact(Word(req.payload, 2));
    OnEverywhere(Dispatch(s, req).1[2..]);
  }

  lemma OnEverywhere(data: seq<byte>)
    ensures forall i: int | 0 <= i < 8 * |data| :: On(data, i) == BitAt(data, i)
    ensures data == Zeros(|data|) ==> forall i: int | 0 <= i < 8 * |data| :: !BitAt(data, i)
  {
    hide On, BitAt, Zeros;
    forall i: int | 0 <= i < 8 * |data|
      ensures On(data, i) == BitAt(data, i)
      ensures data == Zeros(|data|) ==> !BitAt(data, i)
    {
      OnExactly(data, i);
      ZerosAt(|data|, i);
    }
  }

  /** The words of `pdu` from byte 2 on are the registers from address `a` on. */
  predicate WordsAre(pdu: seq<byte>, regs: map<int, u16>, a: int, q: nat) {
    |pdu| == 2 + 2 * q && forall i | 0 <= i < q :: Word(pdu, 2 + 2 * i) == RegAt(regs, a + i)
  }

  lemma WordsSliced(pdu: seq<byte>, regs: map<int, u16>, a: int, q: nat)
    requires |pdu| == 2 + 2 * q && RegsIn(pdu[2..], q) == SliceRegs(regs, a, q)
    ensures WordsAre(pdu, regs, a, q)
  {
    hide Word, Uint16, RegsIn, SliceRegs;
    forall i | 0 <= i < q
      ensures Word(pdu, 2 + 2 * i) == RegAt(regs, a + i)
    {
      WordIn(pdu, q, i);
      RegIn(regs, a, q, i);
    }
  }

  lemma WordIn(pdu: seq<byte>, q: nat, i: nat)
    requires |pdu| == 2 + 2 * q && i < q
    ensures RegsIn(pdu[2..], q)[i] == Word(pdu, 2 + 2 * i)
  {
    WordThere(pdu, 2 + 2 * i);
    assert pdu[2..][2 * i..2 * i + 2] == pdu[2 + 2 * i..2 + 2 * i + 2];
  }

  lemma RegIn(regs: map<int, u16>, a: int, q: nat, i: nat)
    requires i < q
    ensures SliceRegs(regs, a, q)[i] == RegAt(regs, a + i)
  {
  }

  /** FC3 reads holding registers and FC4 input registers, one big-endian word each. */
  lemma RegReadBytes(s: Contents, req: Request)
    requires req.functionCode == 3 || req.functionCode == 4
    requires Code(s, MemoryID(req.port, req.unitID), req.functionCode, req.payload) == 0
    ensures var m, a, q := s[MemoryID(req.port, req.unitID)], Word(req.payload, 0), Word(req.payload, 2);
            var (after, pdu) := Dispatch(s, req);
            && after == s
            && |pdu| >= 2 && pdu[0] == req.functionCode && pdu[1] == 2 * q % 256
            && WordsAre(pdu, if req.functionCode == 3 then m.holdingRegs else m.inputRegs, a, q)
  {
    Operands(s, req);
    hide Dispatch, Verdict, Code, Word, Uint16, RegsIn, WordsAre, SliceRegs, Address, Operand;
    ReadUnchanged(s, req);
    ReadRegsExact(s, req);
    var m := s[MemoryID(req.port, req.unitID)];
    WordsSliced(Dispatch(s, req).1, if req.functionCode == 3 then m.holdingRegs else m.inputRegs,
                Word(req.payload, 0), Word(req.payload, 2));
  }

  /** One memory is `m'` now, and all others are as before. */
  predicate OnlyAt(s: Contents, t: Contents, mid: MemoryID, m': Image) {
    mid in s && t == s[mid := m']
  }

  /** What the write requests put where. FC5 writes one coil, on for 0xFF and off for 0x00; FC6 one register;
      FC15 and FC16 the data after the byte count. */
  function DataFor(fc: byte, p: seq<byte>): seq<byte>
    requires |p| >= 4
  {
    if fc == 5 then [if p[2] == 0xFF then 1 else 0] else if fc == 6 then p[2..4] else if |p| >= 5 then p[5..] else []
  }

  /** The data of a coil write, packed, are the coils it writes. */
  lemma CoilsData(req: Request)
    requires (req.functionCode == 5 || req.functionCode == 15) && WellShaped(req)
    ensures var p, fc := req.payload, req.functionCode;
            CountFor(fc, p) <= MAX_BITS ==>
              CountFor(fc, p) <= 8 * |DataFor(fc, p)| && CoilsIn(req) == Unpack(DataFor(fc, p), 0, CountFor(fc, p))
  {
    WordThere(req.payload, 2);
    BytesForBitsExact(Operand(req));
    OneBit(req.payload[2] == 0xFF);
  }

  lemma HoldingsData(req: Request)
    requires (req.functionCode == 6 || req.functionCode == 16) && WellShaped(req)
    ensures var p, fc := req.payload, req.functionCode;
            2 * CountFor(fc, p) <= |DataFor(fc, p)| && HoldingsIn(req) == RegsIn(DataFor(fc, p), CountFor(fc, p))
  {
    WordThere(req.payload, 2);
    var data := DataFor(req.functionCode, req.payload);
    assert req.functionCode == 6 ==> data[0..2] == data;
  }

  lemma CoilWriteBytes(s: Contents, req: Request)
    requires req.functionCode == 5 || req.functionCode == 15
    requires Code(s, MemoryID(req.port, req.unitID), req.functionCode, req.payload) == 0
    ensures var mid, fc, p := MemoryID(req.port, req.unitID), req.functionCode, req.payload;
            exists m' :: OnlyAt(s, Dispatch(s, req).0, mid, m')
                         && Laid(s[mid], m', 1, Word(p, 0), CountFor(fc, p), DataFor(fc, p))
  {
    var mid, fc, p := MemoryID(req.port, req.unitID), req.functionCode, req.payload;
    Operands(s, req);
    CoilsData(req);
    CoilWrite(s, req);
    CoilsReach(s, req);
    hide Dispatch, Verdict, Code, On, Word, Uint16, Overwrite, BitsLaid, CoilsIn, CountFor, DataFor, WellShaped, Address,
      Operand, Unpack;
    var m, data, n := s[mid], DataFor(fc, p), CountFor(fc, p);
    if m.layouts.coils.value.Packable() {
      OverwrittenBits(m.coils, Word(p, 0), n, data);
      var m' := m.(coils := Overwrite(m.coils, Word(p, 0), CoilsIn(req)));
      assert OnlyAt(s, Dispatch(s, req).0, mid, m') && Laid(m, m', 1, Word(p, 0), n, data);
    } else {
      assert s[mid := m] == s;
      assert OnlyAt(s, Dispatch(s, req).0, mid, m) && Laid(m, m, 1, Word(p, 0), n, data);
    }
  }

  lemma CoilsReach(s: Contents, req: Request)
    requires (req.functionCode == 5 || req.functionCode == 15) && Verdict(s, req) == 0
    ensures var l := s[Target(req)].layouts.coils;
            l.Some? && (l.value.size <= MAX_BITS ==> CountFor(req.functionCode, req.payload) <= MAX_BITS)
  {
    WordThere(req.payload, 2);
  }

  lemma RegWriteBytes(s: Contents, req: Request)
    requires req.functionCode == 6 || req.functionCode == 16
    requires Code(s, MemoryID(req.port, req.unitID), req.functionCode, req.payload) == 0
    ensures var mid, fc, p := MemoryID(req.port, req.unitID), req.functionCode, req.payload;
            exists m' :: OnlyAt(s, Dispatch(s, req).0, mid, m')
                         && Laid(s[mid], m', 3, Word(p, 0), CountFor(fc, p), DataFor(fc, p))
  {
    var mid, fc, p := MemoryID(req.port, req.unitID), req.functionCode, req.payload;
    Operands(s, req);
    HoldingsData(req);
    HoldingWrite(s, req);
    hide Dispatch, Verdict, Code, Word, Uint16, Overwrite, RegsLaid, HoldingsIn, CountFor, DataFor, WellShaped, Address,
      Operand, RegsIn;
    var m, data, n := s[mid], DataFor(fc, p), CountFor(fc, p);
    OverwrittenRegs(m.holdingRegs, Word(p, 0), n, data);
    var m' := m.(holdingRegs := Overwrite(m.holdingRegs, Word(p, 0), HoldingsIn(req)));
    assert OnlyAt(s, Dispatch(s, req).0, mid, m') && Laid(m, m', 3, Word(p, 0), n, data);
  }

  /** The answer to a write: the request up to its fifth byte. */
  lemma WriteAnswerBytes(s: Contents, req: Request)
    requires req.functionCode in {5, 6, 15, 16}
    requires Code(s, MemoryID(req.port, req.unitID), req.functionCode, req.payload) == 0
    ensures Dispatch(s, req).1 == [req.functionCode] + req.payload[..4]
  {
    hide Dispatch, Verdict;
    VerdictBytes(s, req);
    WriteEchoed(s, req);
  }

  // Raw ingest.

  /** `R`, `I`, version 1, one of the four tables, and a count that is not 0. */
  predicate GoodHeader(b: seq<byte>) {
    |b| >= 10 && b[0] == 0x52 && b[1] == 0x49 && b[2] == 1 && 1 <= b[3] <= 4 && Word(b, 8) != 0
  }

  function PayloadBytes(b: seq<byte>): nat
    requires |b| >= 10
  {
    if b[3] <= 2 then PackedBytes(Word(b, 8)) else 2 * Word(b, 8)
  }

  /** The packet at the front of the bytes. */
  function PacketIn(b: seq<byte>, port: u16): Packet
    requires GoodHeader(b) && |b| >= 10 + PayloadBytes(b)
  {
    Packet(port, Word(b, 4), b[3], Word(b, 6), Word(b, 8), b[10..10 + PayloadBytes(b)])
  }

  /** The input ends where an orderly end is seen: before a packet, or just after a header. */
  predicate CleanEnd(b: seq<byte>) { b == [] || (GoodHeader(b) && |b| == 10 && PayloadBytes(b) > 0) }

  lemma PacketBytes(b: seq<byte>, port: u16)
    ensures var (r, rest) := ParsePacket(b, port);
            if GoodHeader(b) && |b| >= 10 + PayloadBytes(b) then
              r == Ok(PacketIn(b, port)) && rest == b[10 + PayloadBytes(b)..]
            else r.Err? && (r.error == EOF <==> CleanEnd(b))
  {
    hide Uint16, Word;
    if |b| >= 10 {
      var h := b[..10];
      WordThere(b, 4);
      WordThere(b, 6);
      WordThere(b, 8);
      assert h[4..6] == b[4..6] && h[6..8] == b[6..8] && h[8..10] == b[8..10];
      BytesForBitsExact(Word(b, 8));
      if GoodHeader(b) && |b| >= 10 + PayloadBytes(b) {
        var n := PayloadBytes(b);
        assert b[10..][..n] == b[10..10 + n] && b[10..][n..] == b[10 + n..];
      }
    }
  }

  /** A raw-ingest conversation: each whole packet gets one status byte and the conversation goes on; a
      header that is refused, or bytes that break off, get one byte 1 and end it; a clean end gets none. */
  lemma RawBytes(s: Contents, port: u16, b: seq<byte>, credit: nat)
    ensures if GoodHeader(b) && |b| >= 10 + PayloadBytes(b) then
              var (after, status) := Ingest(s, PacketIn(b, port));
              var (end, out) := ServeRaw(after, port, b[10 + PayloadBytes(b)..], if credit > 0 then credit - 1 else 0);
              ServeRaw(s, port, b, credit) == (end, if credit > 0 then [[status]] + out else out)
            else
              ServeRaw(s, port, b, credit) == (s, if CleanEnd(b) || credit == 0 then [] else [[1]])
  {
    PacketBytes(b, port);
    ServeRawOne(s, port, b, credit);
    assert [[1 as byte]] + [] == [[1 as byte]];
    hide ServeRaw, ParsePacket, Ingest, PacketIn, CleanEnd, PayloadBytes;
  }

  /** A packet as the conversation hands it on. */
  predicate Wired(p: Packet) {
    1 <= p.area <= 4 && p.count != 0 && |p.payload| == if p.area <= 2 then PackedBytes(p.count) else 2 * p.count
  }

  /** Status 0 and the elements laid over the addressed table, if the memory has that range of it; otherwise
      status 1 and nothing. */
  lemma IngestBytes(s: Contents, p: Packet)
    requires Wired(p)
    ensures var mid := MemoryID(p.port, p.unitID);
            if mid in s && InTable(s[mid].layouts, p.area, p.address, p.count) then
              && Ingest(s, p).1 == 0
              && exists m' :: OnlyAt(s, Ingest(s, p).0, mid, m')
                              && Laid(s[mid], m', p.area, p.address, p.count, p.payload)
            else Ingest(s, p) == (s, 1)
  {
    IngestExact(s, p);
    AcceptsPlainly(s, p);
    hide Laid, Filled, InTable, Ingest, Accepts, Wired;
    var mid := MemoryID(p.port, p.unitID);
    if mid in s && InTable(s[mid].layouts, p.area, p.address, p.count) {
      LaidBy(s[mid], p);
      assert OnlyAt(s, Ingest(s, p).0, mid, Filled(s[mid], p));
    }
  }

  lemma AcceptsPlainly(s: Contents, p: Packet)
    requires Wired(p)
    ensures var mid := MemoryID(p.port, p.unitID);
            Destination(p) == mid && (Accepts(s, p) <==> mid in s && InTable(s[mid].layouts, p.area, p.address, p.count))
  {
    BytesForBitsExact(p.count);
  }

  lemma LaidBy(m: Image, p: Packet)
    requires Wired(p) && InTable(m.layouts, p.area, p.address, p.count)
    ensures LayoutOf(m.layouts, p.area).Some? && LayoutOf(m.layouts, p.area).value.Contains(p.address, p.count)
    ensures |p.payload| >= if IsBitArea(p.area) then BytesForBits(p.count) else 2 * p.count
    ensures Laid(m, Filled(m, p), p.area, p.address, p.count, p.payload)
  {
    BytesForBitsExact(p.count);
    if p.area <= 2 {
      if LayoutOf(m.layouts, p.area).value.Packable() {
        OverwrittenBits(BitsOf(m, p.area), p.address, p.count, p.payload);
      }
    } else {
      OverwrittenRegs(RegsOf(m, p.area), p.address, p.count, p.payload);
    }
  }

  lemma PacketWired(b: seq<byte>, port: u16)
    requires GoodHeader(b) && |b| >= 10 + PayloadBytes(b)
    ensures Wired(PacketIn(b, port))
  {
  }
}
