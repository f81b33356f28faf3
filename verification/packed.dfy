/** The representation: packed bytes and register slices, and the proof that it stands for an `Image`. */
module PackedMemories {
  import opened Words
  import opened Bits
  import opened Outcomes
  import opened Layouts
  import opened Images

  datatype Packed = Packed(
    layouts: MemoryLayouts,
    coils: seq<byte>,
    discreteInputs: seq<byte>,
    holdingRegs: seq<u16>,
    inputRegs: seq<u16>,
    stateSealing: Option<StateSealingDef>)

  function BitRoom(l: Option<AreaLayout>): nat { if l.None? then 0 else BytesForBits(l.value.size) }

  function RegRoom(l: Option<AreaLayout>): nat { if l.None? then 0 else l.value.size }

  /** The backing slices have the lengths the layouts ask for. */
  predicate Allocated(p: Packed) {
    && p.layouts.Validate().None?
    && |p.coils| == BitRoom(p.layouts.coils)
    && |p.discreteInputs| == BitRoom(p.layouts.discreteInputs)
    && |p.holdingRegs| == RegRoom(p.layouts.holdingRegs)
    && |p.inputRegs| == RegRoom(p.layouts.inputRegs)
  }

  function BitMap(l: Option<AreaLayout>, s: seq<byte>): map<int, bool> {
    map a | a in Addresses(l) :: a - l.value.start < 8 * |s| && BitAt(s, a - l.value.start)
  }

  function RegMap(l: Option<AreaLayout>, s: seq<u16>): map<int, u16> {
    map a | a in Addresses(l) :: if a - l.value.start < |s| then s[a - l.value.start] else 0
  }

  function View(p: Packed): Image {
    Image(p.layouts, BitMap(p.layouts.coils, p.coils), BitMap(p.layouts.discreteInputs, p.discreteInputs),
          RegMap(p.layouts.holdingRegs, p.holdingRegs), RegMap(p.layouts.inputRegs, p.inputRegs), p.stateSealing)
  }

  /** The loops run to the end exactly when the area is packable: for such areas a nil error means
      that every bit was moved, and for larger ones nothing ever is. */
  lemma AllMoved(l: AreaLayout, address: u16, count: u16)
    requires l.Contains(address, count)
    ensures Moved(BytesForBits(l.size), l.Offset(address), BytesForBits(count), count) ==
            if l.Packable() then count else 0
  {
    BytesForBitsExact(l.size);
    BytesForBitsExact(count);
  }

  lemma BitMapAt(l: AreaLayout, s: seq<byte>, a: int)
    requires l.Covers(a)
    ensures a in BitMap(Some(l), s)
    ensures BitOn(BitMap(Some(l), s), a) == (a - l.start < 8 * |s| && BitAt(s, a - l.start))
  {
    assert a in Addresses(Some(l));
  }

  lemma RegMapAt(l: AreaLayout, s: seq<u16>, a: int)
    requires l.Covers(a)
    ensures a in RegMap(Some(l), s)
    ensures RegAt(RegMap(Some(l), s), a) == if a - l.start < |s| then s[a - l.start] else 0
  {
    assert a in Addresses(Some(l));
  }

  lemma OverwriteBits(l: AreaLayout, s: seq<byte>, address: u16, bits: seq<bool>)
    requires l.start <= address && address + |bits| <= l.start + 8 * |s|
    ensures BitMap(Some(l), PutBits(s, address - l.start, bits)) == Overwrite(BitMap(Some(l), s), address, bits)
  {
    var t := PutBits(s, address - l.start, bits);
    forall a | a in Addresses(Some(l))
      ensures BitMap(Some(l), t)[a] == Overwrite(BitMap(Some(l), s), address, bits)[a]
    {
      if a - l.start < 8 * |s| {
        PutBitsAt(s, address - l.start, bits, a - l.start);
      }
    }
  }

  lemma SliceUnpacks(l: AreaLayout, s: seq<byte>, address: u16, count: nat)
    requires l.start <= address && address + count <= l.start + l.size <= l.start + 8 * |s|
    ensures SliceBits(BitMap(Some(l), s), address, count) == Unpack(s, address - l.start, count)
  {
    forall i | 0 <= i < count
      ensures SliceBits(BitMap(Some(l), s), address, count)[i] == Unpack(s, address - l.start, count)[i]
    {
      BitMapAt(l, s, address + i);
    }
  }

  /** The write loop on the backing bytes is a pointwise update of the address map. */
  lemma WriteRefines(l: AreaLayout, s: seq<byte>, address: u16, count: u16, src: seq<byte>)
    requires |s| == BytesForBits(l.size) && l.Contains(address, count) && |src| == BytesForBits(count)
    ensures l.Packable() ==> count <= 8 * |src|
    ensures BitMap(Some(l), Landed(s, l.Offset(address), count, src)) ==
            if l.Packable() then Overwrite(BitMap(Some(l), s), address, Unpack(src, 0, count))
            else BitMap(Some(l), s)
  {
    AllMoved(l, address, count);
    BytesForBitsExact(l.size);
    BytesForBitsExact(count);
    hide BytesForBits, BitMap, Overwrite, Moved, AreaLayout.Offset, Unpack, PutBits;
    if l.Packable() {
      var bits := Unpack(src, 0, count);
      assert Landed(s, l.Offset(address), count, src) == PutBits(s, address - l.start, bits);
      OverwriteBits(l, s, address, bits);
    } else {
      assert Landed(s, l.Offset(address), count, src) == s;
    }
  }

  /** The copy loop delivers the elements at the requested addresses. */
  lemma ReadRefines(l: AreaLayout, s: seq<byte>, address: u16, count: u16, dst: seq<byte>)
    requires |s| == BytesForBits(l.size) && l.Contains(address, count) && BytesForBits(count) <= |dst|
    ensures l.Packable() ==> count <= 8 * |dst|
    ensures Copied(dst, BytesForBits(count), s, l.Offset(address), count) ==
            if l.Packable() then PutBits(dst, 0, SliceBits(BitMap(Some(l), s), address, count)) else dst
  {
    AllMoved(l, address, count);
    BytesForBitsExact(l.size);
    BytesForBitsExact(count);
    if l.Packable() {
      SliceUnpacks(l, s, address, count);
    }
  }

  /** A register slice with `vs` laid over it. */
  function PutRegs(s: seq<u16>, offset: nat, vs: seq<u16>): (r: seq<u16>)
    requires offset + |vs| <= |s|
    ensures |r| == |s|
  {
    s[..offset] + vs + s[offset + |vs|..]
  }

  lemma WriteRegsRefines(l: AreaLayout, s: seq<u16>, address: u16, count: u16, vs: seq<u16>)
    requires |s| == l.size && l.Contains(address, count) && |vs| == count
    ensures RegMap(Some(l), PutRegs(s, l.Offset(address), vs)) == Overwrite(RegMap(Some(l), s), address, vs)
  {
  }

  lemma ReadRegsRefines(l: AreaLayout, s: seq<u16>, address: u16, count: u16)
    requires |s| == l.size && l.Contains(address, count)
    ensures s[l.Offset(address)..l.Offset(address) + count] == SliceRegs(RegMap(Some(l), s), address, count)
  {
    var got := s[l.Offset(address)..l.Offset(address) + count];
    forall i | 0 <= i < count
      ensures got[i] == SliceRegs(RegMap(Some(l), s), address, count)[i]
    {
      RegMapAt(l, s, address + i);
    }
  }
}
