/** The store of memories, on the heap. */
module MemoryCore {
  import opened Words
  import opened Bits
  import opened Outcomes
  import opened Layouts
  import opened Images
  import opened PackedMemories

  /** A new memory: every declared address is there and holds zero. */
  function Blank(layouts: MemoryLayouts, seal: Option<StateSealingDef>): Image {
    Image(layouts,
          map a | a in Addresses(layouts.coils) :: false,
          map a | a in Addresses(layouts.discreteInputs) :: false,
          map a | a in Addresses(layouts.holdingRegs) :: 0,
          map a | a in Addresses(layouts.inputRegs) :: 0,
          seal)
  }

  function Fresh(layouts: MemoryLayouts): Packed {
    Packed(layouts, Zeros(BitRoom(layouts.coils)), Zeros(BitRoom(layouts.discreteInputs)),
           seq(RegRoom(layouts.holdingRegs), _ => 0), seq(RegRoom(layouts.inputRegs), _ => 0), None)
  }

  lemma BlankBits(l: Option<AreaLayout>, n: nat)
    ensures BitMap(l, Zeros(n)) == map a | a in Addresses(l) :: false
  {
    forall a | a in Addresses(l)
      ensures !BitMap(l, Zeros(n))[a]
    {
      if a - l.value.start < 8 * n {
        ZerosAt(n, a - l.value.start);
      }
    }
  }

  /** Zeroed slices stand for a memory full of zeros. */
  lemma FreshIsBlank(layouts: MemoryLayouts)
    ensures View(Fresh(layouts)) == Blank(layouts, None)
  {
    BlankBits(layouts.coils, BitRoom(layouts.coils));
    BlankBits(layouts.discreteInputs, BitRoom(layouts.discreteInputs));
  }

  /** What a read leaves in the caller's buffer and what it returns. */
  ghost predicate Delivers(r: Result<seq<byte>, MemError>, err: Option<MemError>, before: seq<byte>, after: seq<byte>) {
    match r
    case Ok(bytes) => err == None && after == bytes
    case Err(e) => err == Some(e) && after == before
  }

  /** What a write leaves in the memory and what it returns. */
  ghost predicate Commits(r: Result<Image, MemError>, err: Option<MemError>, before: Image, after: Image) {
    match r
    case Ok(image) => err == None && after == image
    case Err(e) => err == Some(e) && after == before
  }

  class Memory {
    const layouts: MemoryLayouts
    const coilsBits: array<byte>
    const discreteInputsBits: array<byte>
    const holdingRegs: array<u16>
    const inputRegs: array<u16>
    var stateSealing: Option<StateSealingDef>

    /** The heap cells of this memory. */
    ghost const Repr: set<object>

    ghost function Raw(): Packed
      reads this, coilsBits, discreteInputsBits, holdingRegs, inputRegs
    {
      Packed(layouts, coilsBits[..], discreteInputsBits[..], holdingRegs[..], inputRegs[..], stateSealing)
    }

    /** The slices are distinct and as long as the layouts ask for. */
    ghost predicate Valid() {
      && this in Repr && coilsBits in Repr && discreteInputsBits in Repr && holdingRegs in Repr && inputRegs in Repr
      && layouts.Validate().None?
      && coilsBits.Length == BitRoom(layouts.coils)
      && discreteInputsBits.Length == BitRoom(layouts.discreteInputs)
      && holdingRegs.Length == RegRoom(layouts.holdingRegs)
      && inputRegs.Length == RegRoom(layouts.inputRegs)
      && coilsBits != discreteInputsBits && holdingRegs != inputRegs
      && {coilsBits as object, discreteInputsBits} !! {holdingRegs as object, inputRegs}
    }

    /** The memory as four maps. */
    ghost function Abs(): Image
      reads this, coilsBits, discreteInputsBits, holdingRegs, inputRegs
    {
      View(Raw())
    }

    constructor (layouts: MemoryLayouts)
      requires layouts.Validate().None?
      ensures fresh(Repr) && Valid() && Abs() == Blank(layouts, None)
    {
      this.layouts := layouts;
      coilsBits := new byte[BitRoom(layouts.coils)](_ => 0);
      discreteInputsBits := new byte[BitRoom(layouts.discreteInputs)](_ => 0);
      holdingRegs := new u16[RegRoom(layouts.holdingRegs)](_ => 0);
      inputRegs := new u16[RegRoom(layouts.inputRegs)](_ => 0);
      stateSealing := None;
      Repr := {this, coilsBits, discreteInputsBits, holdingRegs, inputRegs};
      new;
      assert Raw() == Fresh(layouts);
      FreshIsBlank(layouts);
    }

    /** Builds a memory, or reports the first area whose layout is not acceptable. */
    static method NewMemory(layouts: MemoryLayouts) returns (r: Result<Memory, MemError>)
      ensures r.Err? <==> layouts.Validate().Some?
      ensures r.Err? ==> layouts.Validate() == Some(r.error)
      ensures r.Ok? ==> fresh(r.value.Repr) && r.value.Valid() && r.value.Abs() == Blank(layouts, None)
    {
      if layouts.coils.Some? {
        var e := layouts.coils.value.Validate();
        if e.Some? { return Err(e.value); }
      }
      if layouts.discreteInputs.Some? {
        var e := layouts.discreteInputs.value.Validate();
        if e.Some? { return Err(e.value); }
      }
      if layouts.holdingRegs.Some? {
        var e := layouts.holdingRegs.value.Validate();
        if e.Some? { return Err(e.value); }
      }
      if layouts.inputRegs.Some? {
        var e := layouts.inputRegs.value.Validate();
        if e.Some? { return Err(e.value); }
      }
      var m := new Memory(layouts);
      r := Ok(m);
    }

    method SetStateSealing(def: StateSealingDef)
      requires Valid()
      modifies this`stateSealing
      ensures Abs() == old(Abs()).(stateSealing := Some(def))
    {
      stateSealing := Some(def);
    }

    method ReadBits(area: byte, address: u16, count: u16, dst: array<byte>) returns (err: Option<MemError>)
      requires Valid() && dst !in Repr
      modifies dst
      ensures Delivers(Abs().ReadBits(area, address, count, old(dst[..])), err, old(dst[..]), dst[..])
    {
      if count == 0 { return Some(CountZero); }
      var layout: Option<AreaLayout>, backing := None, coilsBits;
      if area == COILS {
        layout, backing := layouts.coils, coilsBits;
      } else if area == DISCRETE_INPUTS {
        layout, backing := layouts.discreteInputs, discreteInputsBits;
      } else {
        return Some(InvalidArea);
      }
      if layout.None? { return Some(AreaNotDefined); }
      if !layout.value.Contains(address, count) { return Some(OutOfBounds); }
      var want := BytesForBits(count);
      if dst.Length < want { return Some(DstTooSmall); }
      BytesForBitsExact(layout.value.size);
      ReadRefines(layout.value, backing[..], address, count, dst[..]);
      CopyBits(dst, want, backing, layout.value.Offset(address), count);
      return None;
    }

    method WriteBits(area: byte, address: u16, count: u16, src: seq<byte>) returns (err: Option<MemError>)
      requires Valid()
      modifies coilsBits, discreteInputsBits
      ensures Commits(old(Abs()).WriteBits(area, address, count, src), err, old(Abs()), Abs())
    {
      if count == 0 { return Some(CountZero); }
      var layout: Option<AreaLayout>, backing := None, coilsBits;
      if area == COILS {
        layout, backing := layouts.coils, coilsBits;
      } else if area == DISCRETE_INPUTS {
        layout, backing := layouts.discreteInputs, discreteInputsBits;
      } else {
        return Some(InvalidArea);
      }
      if layout.None? { return Some(AreaNotDefined); }
      if !layout.value.Contains(address, count) { return Some(OutOfBounds); }
      var want := BytesForBits(count);
      if |src| < want { return Some(SrcTooSmall); }
      BytesForBitsExact(layout.value.size);
      BytesForBitsExact(count);
      WriteRefines(layout.value, backing[..], address, count, src[..want]);
      if layout.value.Packable() {
        assert Unpack(src[..want], 0, count) == Unpack(src, 0, count);
      }
      Bits.WriteBits(backing, layout.value.Offset(address), count, src[..want]);
      return None;
    }

    method ReadRegs(area: byte, address: u16, count: u16, dst: array<byte>) returns (err: Option<MemError>)
      requires Valid() && dst !in Repr
      modifies dst
      ensures Delivers(Abs().ReadRegs(area, address, count, old(dst[..])), err, old(dst[..]), dst[..])
    {
      if count == 0 { return Some(CountZero); }
      var want := 2 * count;
      if dst.Length < want { return Some(DstTooSmall); }
      var layout: Option<AreaLayout>, backing := None, holdingRegs;
      if area == HOLDING_REGS {
        layout, backing := layouts.holdingRegs, holdingRegs;
      } else if area == INPUT_REGS {
        layout, backing := layouts.inputRegs, inputRegs;
      } else {
        return Some(InvalidArea);
      }
      if layout.None? { return Some(AreaNotDefined); }
      if !layout.value.Contains(address, count) { return Some(OutOfBounds); }
      var off := layout.value.Offset(address);
      ReadRegsRefines(layout.value, backing[..], address, count);
      CopyRegs(dst, backing, off, count);
      return None;
    }

    method WriteRegs(area: byte, address: u16, count: u16, src: seq<byte>) returns (err: Option<MemError>)
      requires Valid()
      modifies holdingRegs, inputRegs
      ensures Commits(old(Abs()).WriteRegs(area, address, count, src), err, old(Abs()), Abs())
    {
      if count == 0 { return Some(CountZero); }
      var want := 2 * count;
      if |src| < want { return Some(SrcTooSmall); }
      var layout: Option<AreaLayout>, backing := None, holdingRegs;
      if area == HOLDING_REGS {
        layout, backing := layouts.holdingRegs, holdingRegs;
      } else if area == INPUT_REGS {
        layout, backing := layouts.inputRegs, inputRegs;
      } else {
        return Some(InvalidArea);
      }
      if layout.None? { return Some(AreaNotDefined); }
      if !layout.value.Contains(address, count) { return Some(OutOfBounds); }
      var off := layout.value.Offset(address);
      WriteRegsRefines(layout.value, backing[..], address, count, RegsIn(src, count));
      FillRegs(backing, off, count, src);
      return None;
    }
  }

  /** The register read loop. */
  method CopyRegs(dst: array<byte>, backing: array<u16>, off: u16, count: u16)
    requires dst as object != backing && 2 * count <= dst.Length
    requires off + count <= backing.Length && off + count <= 0x10000
    modifies dst
    ensures dst[..] == RegBytes(backing[off..off + count]) + old(dst[2 * count..])
  {
    ghost var vs, was := backing[off..off + count], dst[..];
    var i: u16 := 0;
    while i < count
      invariant 0 <= i <= count
      invariant backing[off..off + count] == vs
      invariant forall k | 0 <= k < 2 * i :: dst[k] == RegBytes(vs)[k]
      invariant forall k | 2 * i <= k < dst.Length :: dst[k] == was[k]
    {
      var v := backing[Wrap16(off + i)];
      assert v == vs[i];
      dst[2 * i] := PutUint16(v)[0];
      dst[2 * i + 1] := PutUint16(v)[1];
      i := i + 1;
    }
  }

  lemma NoWrap(k: nat)
    requires k < 0x10000
    ensures Wrap16(k) == k
  {
  }

  /** The register write loop. */
  method FillRegs(backing: array<u16>, off: u16, count: u16, src: seq<byte>)
    requires off + count <= backing.Length && off + count <= 0x10000 && 2 * count <= |src|
    modifies backing
    ensures backing[..] == PutRegs(old(backing[..]), off, RegsIn(src, count))
  {
    hide Uint16, Wrap16;
    ghost var was, vs := backing[..], RegsIn(src, count);
    var i: u16 := 0;
    while i < count
      invariant 0 <= i <= count
      invariant backing[..] == PutRegs(was, off, vs[..i])
    {
      NoWrap(off + i);
      assert vs[..i + 1] == vs[..i] + [Uint16(src[2 * i..2 * i + 2])];
      backing[Wrap16(off + i)] := Uint16(src[2 * i..2 * i + 2]);
      i := i + 1;
    }
    assert vs[..count] == vs;
  }
}
