/** A memory as its users see it: four maps from address to value, read and overwritten pointwise. */
module Images {
  import opened Words
  import opened Bits
  import opened Outcomes
  import opened Layouts

  /** Where the sealing flag lives. */
  datatype StateSealingDef = StateSealingDef(area: byte, address: u16)

  datatype Image = Image(
    layouts: MemoryLayouts,
    coils: map<int, bool>,
    discreteInputs: map<int, bool>,
    holdingRegs: map<int, u16>,
    inputRegs: map<int, u16>,
    stateSealing: Option<StateSealingDef>)
  {
    // The four operations. A bit area that is not `Packable` has an empty backing buffer: there the
    // source's loops return at once, so that reads deliver nothing and writes change nothing.

    function ReadBits(area: byte, address: u16, count: u16, dst: seq<byte>)
      : Result<seq<byte>, MemError>
    {
      var c := CheckBits(layouts, area, address, count);
      if c.Err? then Err(c.error)
      else if |dst| < BytesForBits(count) then Err(DstTooSmall)
      else if c.value.Packable() then
        BytesForBitsExact(count);
        Ok(PutBits(dst, 0, SliceBits(BitsOf(this, area), address, count)))
      else Ok(dst)
    }

    function WriteBits(area: byte, address: u16, count: u16, src: seq<byte>): Result<Image, MemError> {
      var c := CheckBits(layouts, area, address, count);
      if c.Err? then Err(c.error)
      else if |src| < BytesForBits(count) then Err(SrcTooSmall)
      else if c.value.Packable() then
        BytesForBitsExact(count);
        Ok(WithBits(this, area, Overwrite(BitsOf(this, area), address, Unpack(src, 0, count))))
      else Ok(this)
    }

    function ReadRegs(area: byte, address: u16, count: u16, dst: seq<byte>)
      : Result<seq<byte>, MemError>
    {
      if count == 0 then Err(CountZero)
      else if |dst| < 2 * count then Err(DstTooSmall)
      else
        var c := CheckRegs(layouts, area, address, count);
        if c.Err? then Err(c.error)
        else Ok(RegBytes(SliceRegs(RegsOf(this, area), address, count)) + dst[2 * count..])
    }

    function WriteRegs(area: byte, address: u16, count: u16, src: seq<byte>): Result<Image, MemError> {
      if count == 0 then Err(CountZero)
      else if |src| < 2 * count then Err(SrcTooSmall)
      else
        var c := CheckRegs(layouts, area, address, count);
        if c.Err? then Err(c.error)
        else Ok(WithRegs(this, area, Overwrite(RegsOf(this, area), address, RegsIn(src, count))))
    }
  }

  function BitsOf(m: Image, area: byte): map<int, bool>
    requires IsBitArea(area)
  {
    if area == COILS then m.coils else m.discreteInputs
  }

  function RegsOf(m: Image, area: byte): map<int, u16>
    requires IsRegArea(area)
  {
    if area == HOLDING_REGS then m.holdingRegs else m.inputRegs
  }

  function WithBits(m: Image, area: byte, bits: map<int, bool>): Image
    requires IsBitArea(area)
  {
    if area == COILS then m.(coils := bits) else m.(discreteInputs := bits)
  }

  function WithRegs(m: Image, area: byte, regs: map<int, u16>): Image
    requires IsRegArea(area)
  {
    if area == HOLDING_REGS then m.(holdingRegs := regs) else m.(inputRegs := regs)
  }

  predicate BitOn(m: map<int, bool>, a: int) { a in m && m[a] }

  function RegAt(m: map<int, u16>, a: int): u16 { if a in m then m[a] else 0 }

  /** The map with `vs` laid over the addresses from `a` on. */
  function Overwrite<T>(m: map<int, T>, a: int, vs: seq<T>): map<int, T> {
    map k | k in m :: if a <= k < a + |vs| then vs[k - a] else m[k]
  }

  function SliceBits(m: map<int, bool>, a: int, n: nat): (r: seq<bool>)
    ensures |r| == n
  {
    seq(n, i => BitOn(m, a + i))
  }

  function SliceRegs(m: map<int, u16>, a: int, n: nat): (r: seq<u16>)
    ensures |r| == n
  {
    seq<u16>(n, i requires 0 <= i < n => RegAt(m, a + i))
  }

  /** Big-endian bytes of a list of registers. */
  function RegBytes(vs: seq<u16>): (s: seq<byte>)
    ensures |s| == 2 * |vs|
  {
    seq(2 * |vs|, k requires 0 <= k < 2 * |vs| => PutUint16(vs[k / 2])[k % 2])
  }

  /** The first `n` registers in a byte string. */
  function RegsIn(s: seq<byte>, n: nat): (vs: seq<u16>)
    requires 2 * n <= |s|
    ensures |vs| == n
  {
    seq(n, i requires 0 <= i < n => Uint16(s[2 * i..2 * i + 2]))
  }

  lemma RegBytesIn(vs: seq<u16>)
    ensures RegsIn(RegBytes(vs), |vs|) == vs
  {
    forall i | 0 <= i < |vs|
      ensures RegsIn(RegBytes(vs), |vs|)[i] == vs[i]
    {
      Uint16Put(vs[i]);
      assert RegBytes(vs)[2 * i..2 * i + 2] == PutUint16(vs[i]);
    }
  }

  lemma RegsInBytes(s: seq<byte>, n: nat)
    requires 2 * n == |s|
    ensures RegBytes(RegsIn(s, n)) == s
  {
    forall k | 0 <= k < |s|
      ensures RegBytes(RegsIn(s, n))[k] == s[k]
    {
      var i := k / 2;
      PutUint16Get(s[2 * i..2 * i + 2]);
      assert s[2 * i..2 * i + 2][k % 2] == s[k];
    }
  }

  /** The addresses of an area. */
  function Addresses(l: Option<AreaLayout>): set<int> {
    match l
    case None => {}
    case Some(l) => set a | l.start <= a < l.start + l.size && l.Covers(a)
  }
}
