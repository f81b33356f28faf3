/** The second, independent payload unpackers, and their agreement with the packed write loops. */
module Alignment {
  import opened Words
  import opened Bits
  import opened Outcomes
  import opened Layouts
  import opened Images

  /** Payload size demanded for an area and an element count; None for an unknown area. */
  function PayloadSize(area: byte, count: u16): Option<nat> {
    if IsBitArea(area) then Some(Wrap16(count + 7) / 8)
    else if IsRegArea(area) then Some(2 * count)
    else None
  }

  method AlignBits(payload: seq<byte>, count: u16) returns (r: Option<seq<bool>>)
    ensures r == if count <= 8 * |payload| then Some(Unpack(payload, 0, count)) else None
  {
    var out := new bool[count](_ => false);
    for i := 0 to count
      invariant i <= 8 * |payload|
      invariant forall k | 0 <= k < i :: out[k] == BitAt(payload, k)
    {
      var byteIndex, bitIndex := i / 8, i % 8;
      if byteIndex >= |payload| { return None; }
      out[i] := TestBit(payload[byteIndex], bitIndex);
    }
    assert out[..] == Unpack(payload, 0, count);
    return Some(out[..]);
  }

  method AlignRegs(payload: seq<byte>, count: u16) returns (r: Option<seq<u16>>)
    ensures r == if |payload| == 2 * count then Some(RegsIn(payload, count)) else None
  {
    if |payload| != 2 * count { return None; }
    var out := new u16[count](_ => 0);
    for i := 0 to count
      invariant forall k | 0 <= k < i :: out[k] == Uint16(payload[2 * k..2 * k + 2])
    {
      out[i] := Uint16(payload[2 * i..2 * i + 2]);
    }
    assert out[..] == RegsIn(payload, count);
    return Some(out[..]);
  }

  /** On a payload of the demanded size the bit unpacker accepts exactly up to 65528 elements; the
      register unpacker always accepts. */
  lemma SizedPayloadAccepted(area: byte, count: u16, payload: seq<byte>)
    requires PayloadSize(area, count) == Some(|payload|)
    ensures IsBitArea(area) ==> (count <= 8 * |payload| <==> count <= MAX_BITS)
    ensures IsRegArea(area) ==> |payload| == 2 * count
  {
    BytesForBitsExact(count);
  }

  /** Bit values written one at a time, each as a one-element payload. */
  function WriteBitByBit(m: Image, area: byte, address: int, values: seq<bool>): Result<Image, MemError>
    requires 0 <= address && address + |values| <= 0x10000
    decreases |values|
  {
    if values == [] then Ok(m)
    else
      var n := |values| - 1;
      var r := WriteBitByBit(m, area, address, values[..n]);
      if r.Err? then r else r.value.WriteBits(area, address + n, 1, [if values[n] then 1 else 0])
  }

  /** Register values written one at a time. */
  function WriteRegByReg(m: Image, area: byte, address: int, values: seq<u16>): Result<Image, MemError>
    requires 0 <= address && address + |values| <= 0x10000
    decreases |values|
  {
    if values == [] then Ok(m)
    else
      var n := |values| - 1;
      var r := WriteRegByReg(m, area, address, values[..n]);
      if r.Err? then r else r.value.WriteRegs(area, address + n, 1, PutUint16(values[n]))
  }

  lemma OneMore<T>(m: map<int, T>, a: int, vs: seq<T>, v: T)
    ensures Overwrite(Overwrite(m, a, vs), a + |vs|, [v]) == Overwrite(m, a, vs + [v])
  {
  }

  lemma OneBitWritten(m: Image, area: byte, address: u16, v: bool)
    requires IsBitArea(area) && LayoutOf(m.layouts, area).Some? && LayoutOf(m.layouts, area).value.Covers(address)
    ensures m.WriteBits(area, address, 1, [if v then 1 else 0]) ==
            Ok(if LayoutOf(m.layouts, area).value.Packable() then
                 WithBits(m, area, Overwrite(BitsOf(m, area), address, [v])) else m)
  {
    ZeroBits(0);
    assert Unpack([if v then 1 else 0], 0, 1) == [v];
  }

  lemma OneRegWritten(m: Image, area: byte, address: u16, v: u16)
    requires IsRegArea(area) && LayoutOf(m.layouts, area).Some?
    requires LayoutOf(m.layouts, area).value.Covers(address)
    ensures m.WriteRegs(area, address, 1, PutUint16(v)) ==
            Ok(WithRegs(m, area, Overwrite(RegsOf(m, area), address, [v])))
  {
    Uint16Put(v);
    assert PutUint16(v)[0..2] == PutUint16(v);
    assert RegsIn(PutUint16(v), 1) == [v];
  }

  lemma NoneOver<T>(m: map<int, T>, a: int)
    ensures Overwrite(m, a, []) == m
  {
  }

  lemma WithBitsSelf(m: Image, area: byte)
    requires IsBitArea(area)
    ensures WithBits(m, area, BitsOf(m, area)) == m
  {
  }

  lemma WithBitsTwice(m: Image, area: byte, b: map<int, bool>, c: map<int, bool>)
    requires IsBitArea(area)
    ensures var t := WithBits(m, area, b);
            t.layouts == m.layouts && BitsOf(t, area) == b && WithBits(t, area, c) == WithBits(m, area, c)
  {
  }

  lemma WithRegsSelf(m: Image, area: byte)
    requires IsRegArea(area)
    ensures WithRegs(m, area, RegsOf(m, area)) == m
  {
  }

  lemma WithRegsTwice(m: Image, area: byte, b: map<int, u16>, c: map<int, u16>)
    requires IsRegArea(area)
    ensures var t := WithRegs(m, area, b);
            t.layouts == m.layouts && RegsOf(t, area) == b && WithRegs(t, area, c) == WithRegs(m, area, c)
  {
  }

  lemma {:induction false} BitByBit(m: Image, area: byte, address: int, values: seq<bool>)
    requires IsBitArea(area) && LayoutOf(m.layouts, area).Some?
    requires 0 <= address && address + |values| <= 0x10000
    requires var l := LayoutOf(m.layouts, area).value; l.start <= address && address + |values| <= l.start + l.size
    ensures WriteBitByBit(m, area, address, values) ==
            Ok(if LayoutOf(m.layouts, area).value.Packable() then
                 WithBits(m, area, Overwrite(BitsOf(m, area), address, values)) else m)
    decreases |values|
  {
    hide Image.WriteBits, Overwrite, WithBits, BitsOf, LayoutOf;
    NoneOver(BitsOf(m, area), address);
    WithBitsSelf(m, area);
    if values != [] {
      var n := |values| - 1;
      BitByBit(m, area, address, values[..n]);
      var t := WriteBitByBit(m, area, address, values[..n]).value;
      WithBitsTwice(m, area, Overwrite(BitsOf(m, area), address, values[..n]), Overwrite(BitsOf(m, area), address, values));
      OneBitWritten(t, area, address + n, values[n]);
      OneMore(BitsOf(m, area), address, values[..n], values[n]);
      assert values[..n] + [values[n]] == values;
    }
  }

  lemma {:induction false} RegByReg(m: Image, area: byte, address: int, values: seq<u16>)
    requires IsRegArea(area) && LayoutOf(m.layouts, area).Some?
    requires 0 <= address && address + |values| <= 0x10000
    requires var l := LayoutOf(m.layouts, area).value; l.start <= address && address + |values| <= l.start + l.size
    ensures WriteRegByReg(m, area, address, values) ==
            Ok(WithRegs(m, area, Overwrite(RegsOf(m, area), address, values)))
    decreases |values|
  {
    hide Image.WriteRegs, Overwrite, WithRegs, RegsOf, LayoutOf;
    NoneOver(RegsOf(m, area), address);
    WithRegsSelf(m, area);
    if values != [] {
      var n := |values| - 1;
      RegByReg(m, area, address, values[..n]);
      var t := WriteRegByReg(m, area, address, values[..n]).value;
      WithRegsTwice(m, area, Overwrite(RegsOf(m, area), address, values[..n]), Overwrite(RegsOf(m, area), address, values));
      OneRegWritten(t, area, address + n, values[n]);
      OneMore(RegsOf(m, area), address, values[..n], values[n]);
      assert values[..n] + [values[n]] == values;
    }
  }

  /** Unpacking a bit payload and writing the values one by one is the packed write. */
  lemma BitUnpackersAgree(m: Image, area: byte, address: u16, count: u16, payload: seq<byte>)
    requires PayloadSize(area, count) == Some(|payload|) && IsBitArea(area) && count <= MAX_BITS
    requires CheckBits(m.layouts, area, address, count).Ok?
    requires LayoutOf(m.layouts, area).value.Validate().None?
    ensures count <= 8 * |payload| && address + count <= 0x10000
    ensures WriteBitByBit(m, area, address, Unpack(payload, 0, count)) == m.WriteBits(area, address, count, payload)
  {
    SizedPayloadAccepted(area, count, payload);
    LayoutOf(m.layouts, area).value.ContainsExact(address, count);
    BytesForBitsExact(count);
    BitByBit(m, area, address, Unpack(payload, 0, count));
  }

  /** The same for registers, without any limit. */
  lemma RegUnpackersAgree(m: Image, area: byte, address: u16, count: u16, payload: seq<byte>)
    requires PayloadSize(area, count) == Some(|payload|) && IsRegArea(area) && count != 0
    requires CheckRegs(m.layouts, area, address, count).Ok?
    requires LayoutOf(m.layouts, area).value.Validate().None?
    ensures |payload| == 2 * count && address + count <= 0x10000
    ensures WriteRegByReg(m, area, address, RegsIn(payload, count)) == m.WriteRegs(area, address, count, payload)
  {
    LayoutOf(m.layouts, area).value.ContainsExact(address, count);
    RegByReg(m, area, address, RegsIn(payload, count));
  }
}
