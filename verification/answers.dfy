/** What a dispatched request is answered with, and what it leaves behind, stated without the handlers. */
module Answers {
  import opened Words
  import opened Bits
  import opened Outcomes
  import opened Layouts
  import opened Images
  import opened Stores
  import opened Pdus
  import opened Dispatching

  predicate Supported(fc: byte) { 1 <= fc <= 6 || fc == 15 || fc == 16 }

  predicate IsWrite(fc: byte) { fc == 5 || fc == 6 || fc == 15 || fc == 16 }

  /** The table a function code works on. */
  function AreaOf(fc: byte): byte
    requires Supported(fc)
  {
    if fc == 1 || fc == 5 || fc == 15 then COILS
    else if fc == 2 then DISCRETE_INPUTS
    else if fc == 4 then INPUT_REGS
    else HOLDING_REGS
  }

  function Address(req: Request): u16
    requires |req.payload| >= 4
  {
    Uint16(req.payload[0..2])
  }

  /** Second word of the payload: a quantity, or the value of a single write. */
  function Operand(req: Request): u16
    requires |req.payload| >= 4
  {
    Uint16(req.payload[2..4])
  }

  function Count(req: Request): u16
    requires |req.payload| >= 4
  {
    if req.functionCode == 5 || req.functionCode == 6 then 1 else Operand(req)
  }

  /** The payload has the shape its function code demands. */
  predicate WellShaped(req: Request) {
    match req.functionCode
    case 1 => |req.payload| == 4 && Operand(req) != 0
    case 2 => |req.payload| == 4 && Operand(req) != 0
    case 3 => |req.payload| == 4
    case 4 => |req.payload| == 4
    case 5 => |req.payload| == 4 && (Operand(req) == 0xFF00 || Operand(req) == 0)
    case 6 => |req.payload| == 4
    case 15 => |req.payload| >= 5 && |req.payload| - 5 == req.payload[4] as int == BytesForBits(Operand(req)) && Operand(req) != 0
    case 16 => |req.payload| >= 5 && |req.payload| - 5 == req.payload[4] as int == 2 * Operand(req) && Operand(req) != 0
    case _ => false
  }

  /** The memory exists and all addressed elements lie in the area. */
  predicate InReach(s: Contents, req: Request)
    requires Supported(req.functionCode) && |req.payload| >= 4
  {
    && Target(req) in s
    && var l := LayoutOf(s[Target(req)].layouts, AreaOf(req.functionCode));
       l.Some? && l.value.Contains(Address(req), Count(req))
  }

  /** The exception code a request deserves, in the numbers of section 7 of the MODBUS Application
      Protocol Specification V1.1b3; 0 for none. */
  function Verdict(s: Contents, req: Request): byte {
    if !Supported(req.functionCode) then 0x01
    else if !WellShaped(req) then 0x03
    else if !InReach(s, req) then 0x02
    else 0
  }

  /** The two bytes of an exception: the function code with its top bit set, and the code. */
  function Exception(fc: byte, code: byte): seq<byte> { [if fc < 0x80 then fc + 0x80 else fc, code] }

  /** Writing changes no verdict: it depends on the layouts only. */
  lemma SameVerdict(s: Contents, t: Contents, req: Request)
    requires s.Keys == t.Keys && forall id | id in s :: s[id].layouts == t[id].layouts
    ensures Verdict(s, req) == Verdict(t, req)
  {
  }

  lemma CoilsPayload(req: Request)
    requires req.functionCode == 15
    ensures WellShaped(req) <==>
              DecodeWriteMultipleBits(req.payload).Some? && DecodeWriteMultipleBits(req.payload).value.quantity != 0
    ensures WellShaped(req) ==>
              DecodeWriteMultipleBits(req.payload) ==
                Some(WriteMultipleBitsPDU(Address(req), Operand(req), req.payload[5..])) &&
              |req.payload[5..]| == BytesForBits(Operand(req))
  {
  }

  lemma RegsPayload(req: Request)
    requires req.functionCode == 16
    ensures var d := WriteMultipleIn(req.payload);
            && (WellShaped(req) <==> d.Some? && d.value.quantity != 0 && d.value.quantity == |d.value.values|)
            && (WellShaped(req) ==>
                  && 2 * Operand(req) == |req.payload[5..]|
                  && d == Some(WriteMultiplePDU(Address(req), Operand(req), RegsIn(req.payload[5..], Operand(req)))))
  {
  }

  /** The registers decoded from an FC16 request encode back to its data bytes. */
  lemma RegsPassThrough(req: Request)
    requires req.functionCode == 16 && WellShaped(req)
    ensures var d := WriteMultipleIn(req.payload);
            d.Some? && RegBytes(d.value.values) == req.payload[5..] && d.value.values == HoldingsIn(req)
  {
    RegsInBytes(req.payload[5..], Operand(req));
  }

  lemma ReadOutcome(s: Contents, req: Request)
    requires req.functionCode in {1, 2, 3, 4}
    ensures var pdu := Dispatch(s, req).1;
            if Verdict(s, req) != 0 then pdu == BuildExceptionPDU(req.functionCode, Verdict(s, req))
            else |pdu| >= 2 && pdu[0] == req.functionCode
  {
    hide PutBits, SliceBits, SliceRegs, RegBytes, Zeros, Uint16;
  }

  lemma ReadUnchanged(s: Contents, req: Request)
    requires req.functionCode in {1, 2, 3, 4}
    ensures Dispatch(s, req).0 == s
  {
  }

  lemma SingleOutcome(s: Contents, req: Request)
    requires req.functionCode in {5, 6}
    ensures var (after, pdu) := Dispatch(s, req);
            if Verdict(s, req) != 0 then (after, pdu) == (s, BuildExceptionPDU(req.functionCode, Verdict(s, req)))
            else |pdu| == 5 && pdu[0] == req.functionCode && after.Keys == s.Keys
  {
    hide Overwrite, Unpack, RegsIn, Uint16;
  }

  lemma MultipleOutcome(s: Contents, req: Request)
    requires req.functionCode in {15, 16}
    ensures var (after, pdu) := Dispatch(s, req);
            if Verdict(s, req) != 0 then (after, pdu) == (s, BuildExceptionPDU(req.functionCode, Verdict(s, req)))
            else |pdu| == 5 && pdu[0] == req.functionCode && after.Keys == s.Keys
  {
    hide WellShaped, DecodeWriteMultipleBits, WriteMultipleIn, BytesForBits, Uint16, Overwrite, Unpack, RegsIn, RegBytes;
    if req.functionCode == 15 {
      CoilsPayload(req);
    } else {
      RegsPayload(req);
    }
  }

  /** An answer is the exception with exactly the deserved code, and then nothing has changed, or a
      normal answer that begins with the function code. There always is an answer. */
  lemma ExactOutcome(s: Contents, req: Request)
    ensures Verdict(s, req) != 0 ==> Dispatch(s, req) == (s, BuildExceptionPDU(req.functionCode, Verdict(s, req)))
    ensures Verdict(s, req) != 0 ==> Dispatch(s, req) == (s, Exception(req.functionCode, Verdict(s, req)))
    ensures Verdict(s, req) == 0 ==>
              var (after, pdu) := Dispatch(s, req);
              |pdu| >= 2 && pdu[0] == req.functionCode < 0x80 && after.Keys == s.Keys
  {
    ExceptionForm(req.functionCode, Verdict(s, req));
    hide BuildExceptionPDU;
    if req.functionCode in {5, 6} {
      SingleOutcome(s, req);
    } else if req.functionCode in {15, 16} {
      MultipleOutcome(s, req);
    } else if Supported(req.functionCode) {
      ReadOutcome(s, req);
    }
  }

  /** A request is refused without effect exactly when its answer is an exception. */
  lemma RefusedUnchanged(s: Contents, req: Request)
    ensures var (after, pdu) := Dispatch(s, req);
            |pdu| >= 2 && (pdu[0] >= 0x80 ==> after == s) && (pdu[0] >= 0x80 <==> Verdict(s, req) != 0)
  {
    ExactOutcome(s, req);
    ExceptionForm(req.functionCode, Verdict(s, req));
  }

  /** The data bytes of a successful bit read. */
  lemma BitsAnswered(s: Contents, req: Request)
    requires req.functionCode in {1, 2} && Verdict(s, req) == 0
    ensures var m, area, q := s[Target(req)], AreaOf(req.functionCode), Operand(req);
            var zeros := Zeros(BytesForBits(q));
            var packable := LayoutOf(m.layouts, area).value.Packable();
            && (packable ==> q <= 8 * |zeros|)
            && Dispatch(s, req).1 ==
               ReadResponse(req.functionCode,
                            if packable then PutBits(zeros, 0, SliceBits(BitsOf(m, area), Address(req), q)) else zeros)
  {
    BytesForBitsExact(Operand(req));
  }

  lemma PackedAt(bits: seq<bool>, n: nat, i: nat)
    requires |bits| <= 8 * n && i < 8 * n
    ensures BitAt(PutBits(Zeros(n), 0, bits), i) == (i < |bits| && bits[i])
  {
    PutBitsAt(Zeros(n), 0, bits, i);
    ZerosAt(n, i);
  }

  lemma AllPackedAt(bits: seq<bool>, n: nat)
    requires |bits| <= 8 * n
    ensures forall i | 0 <= i < 8 * n :: BitAt(PutBits(Zeros(n), 0, bits), i) == (i < |bits| && bits[i])
  {
    forall i | 0 <= i < 8 * n
      ensures BitAt(PutBits(Zeros(n), 0, bits), i) == (i < |bits| && bits[i])
    {
      PackedAt(bits, n, i);
    }
  }

  lemma ReadFrame(fc: byte, data: seq<byte>)
    ensures ReadResponse(fc, data)[2..] == data && ReadResponse(fc, data)[..2] == [fc, |data| % 0x100]
  {
  }

  lemma CountByte(q: u16)
    requires 0 < q <= MAX_BITS
    ensures var n := BytesForBits(q);
            q <= 8 * n < q + 8 && (n % 0x100 == n <==> q <= 2040)
  {
    BytesForBitsExact(q);
  }

  /** Bit `i` of a successful FC1/FC2 answer is the element at address + `i`, every padding bit is
      zero, and the count byte is exact up to 2040 elements (sections 6.1 and 6.2 of the MODBUS
      Application Protocol Specification V1.1b3). */
  lemma ReadBitsExact(s: Contents, req: Request)
    requires req.functionCode in {1, 2} && Verdict(s, req) == 0
    ensures var m, area, q, data := s[Target(req)], AreaOf(req.functionCode), Operand(req), Dispatch(s, req).1[2..];
            && |data| == BytesForBits(q)
            && Dispatch(s, req).1[..2] == [req.functionCode, |data| % 0x100]
            && if !LayoutOf(m.layouts, area).value.Packable() then data == Zeros(|data|)
               else
                 && q <= 8 * |data| < q + 8
                 && (|data| % 0x100 == |data| <==> q <= 2040)
                 && forall i | 0 <= i < 8 * |data| ::
                      BitAt(data, i) == (i < q && BitOn(BitsOf(m, area), Address(req) + i))
  {
    hide Dispatch, BitAt, PutBits, BytesForBits, BitOn, Zeros, ReadResponse;
    BitsAnswered(s, req);
    var m, area, q := s[Target(req)], AreaOf(req.functionCode), Operand(req);
    var zeros := Zeros(BytesForBits(q));
    ReadFrame(req.functionCode, zeros);
    if LayoutOf(m.layouts, area).value.Packable() {
      var bits := SliceBits(BitsOf(m, area), Address(req), q);
      ReadFrame(req.functionCode, PutBits(zeros, 0, bits));
      AllPackedAt(bits, |zeros|);
      CountByte(q);
    }
  }

  lemma RegsAnswered(s: Contents, req: Request)
    requires req.functionCode in {3, 4} && Verdict(s, req) == 0
    ensures Dispatch(s, req).1 ==
            ReadResponse(req.functionCode,
                         RegBytes(SliceRegs(RegsOf(s[Target(req)], AreaOf(req.functionCode)), Address(req), Operand(req))))
  {
  }

  /** A successful FC3/FC4 answer carries the registers in big-endian order; the count byte is exact
      up to 127 of them. */
  lemma ReadRegsExact(s: Contents, req: Request)
    requires req.functionCode in {3, 4} && Verdict(s, req) == 0
    ensures var q, data := Operand(req), Dispatch(s, req).1[2..];
            && |data| == 2 * q
            && Dispatch(s, req).1[..2] == [req.functionCode, |data| % 0x100]
            && (|data| % 0x100 == |data| <==> q <= 127)
            && RegsIn(data, q) == SliceRegs(RegsOf(s[Target(req)], AreaOf(req.functionCode)), Address(req), q)
  {
    var vs := SliceRegs(RegsOf(s[Target(req)], AreaOf(req.functionCode)), Address(req), Operand(req));
    RegsAnswered(s, req);
    RegBytesIn(vs);
    assert ReadResponse(req.functionCode, RegBytes(vs))[2..] == RegBytes(vs);
  }

  lemma WriteAnswered(s: Contents, req: Request)
    requires IsWrite(req.functionCode) && Verdict(s, req) == 0
    ensures Dispatch(s, req).1 == WriteResponse(req.functionCode, Address(req), Operand(req))
  {
    hide DecodeWriteMultipleBits, WriteMultipleIn, Uint16;
    if req.functionCode == 15 {
      CoilsPayload(req);
    } else if req.functionCode == 16 {
      RegsPayload(req);
    }
  }

  /** A successful single write is echoed whole, a successful multiple write by its first five bytes
      (sections 6.5, 6.6, 6.11 and 6.12 of the same specification). */
  lemma WriteEchoed(s: Contents, req: Request)
    requires IsWrite(req.functionCode) && Verdict(s, req) == 0
    ensures Dispatch(s, req).1 ==
            ([req.functionCode] + req.payload)[..5]
    ensures req.functionCode <= 6 ==> |[req.functionCode] + req.payload| == 5
  {
    WriteAnswered(s, req);
    hide Dispatch, InReach, PutUint16, Uint16;
    PutUint16Get(req.payload[0..2]);
    PutUint16Get(req.payload[2..4]);
    assert req.payload[0..2] + req.payload[2..4] == req.payload[..4];
  }

  /** The bits a successful coil write puts down, straight from its payload. */
  function CoilsIn(req: Request): seq<bool>
    requires req.functionCode in {5, 15} && WellShaped(req)
  {
    if req.functionCode == 5 then [req.payload[2] == 0xFF]
    else
      BytesForBitsExact(Operand(req));
      if Operand(req) <= MAX_BITS then Unpack(req.payload[5..], 0, Operand(req)) else []
  }

  /** The registers a successful register write puts down. */
  function HoldingsIn(req: Request): seq<u16>
    requires req.functionCode in {6, 16} && WellShaped(req)
  {
    if req.functionCode == 6 then [Uint16(req.payload[2..4])] else RegsIn(req.payload[5..], Operand(req))
  }

  lemma OneBit(b: bool)
    ensures Unpack([if b then 1 else 0], 0, 1) == [b]
  {
    ZeroBits(0);
  }

  /** A successful coil write overwrites the addressed coils of one memory and nothing else. */
  lemma CoilWrite(s: Contents, req: Request)
    requires req.functionCode in {5, 15} && Verdict(s, req) == 0
    ensures var m := s[Target(req)];
            Dispatch(s, req).0 ==
            if m.layouts.coils.value.Packable() then
              s[Target(req) := m.(coils := Overwrite(m.coils, Address(req), CoilsIn(req)))]
            else s
  {
    ExactOutcome(s, req);
    BytesForBitsExact(Operand(req));
    if req.functionCode == 5 {
      var v := Operand(req);
      OneBit(v == 0xFF00);
      assert v == 0xFF00 <==> req.payload[2] == 0xFF;
    }
  }

  /** A successful register write overwrites the addressed holding registers and nothing else. */
  lemma HoldingWrite(s: Contents, req: Request)
    requires req.functionCode in {6, 16} && Verdict(s, req) == 0
    ensures var m := s[Target(req)];
            Dispatch(s, req).0 ==
            s[Target(req) := m.(holdingRegs := Overwrite(m.holdingRegs, Address(req), HoldingsIn(req)))]
  {
    ExactOutcome(s, req);
    if req.functionCode == 6 {
      Uint16Put(Operand(req));
      assert RegsIn(PutUint16(Operand(req)), 1) == [Operand(req)] by {
        assert PutUint16(Operand(req))[0..2] == PutUint16(Operand(req));
      }
    } else {
      RegBytesIn(HoldingsIn(req));
    }
  }
}
