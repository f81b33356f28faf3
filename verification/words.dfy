/** Bytes, 16-bit words and single bits, as Go's `byte` and `uint16` have them. */
module Words {

  type byte = x: int | 0 <= x < 0x100
  type u16 = x: int | 0 <= x < 0x10000

  /** What storing an integer in a `uint16` keeps. */
  function Wrap16(x: int): u16 { x % 0x10000 }

  function Pow2(w: nat): (p: nat)
    ensures p >= 1
  {
    if w == 0 then 1 else 2 * Pow2(w - 1)
  }

  /** Bit `i` of `b`, counted from the least significant. */
  predicate TestBit(b: nat, i: nat) {
    if i == 0 then b % 2 == 1 else TestBit(b / 2, i - 1)
  }

  /** `b` with bit `i` set to `v`. */
  function PutBit(b: nat, i: nat, v: bool): nat {
    if i == 0 then b - b % 2 + (if v then 1 else 0) else 2 * PutBit(b / 2, i - 1, v) + b % 2
  }

  lemma {:induction false} PutBitRange(b: nat, i: nat, v: bool, w: nat)
    requires i < w && b < Pow2(w)
    ensures PutBit(b, i, v) < Pow2(w)
  {
    var half, low := b / 2, b % 2;
    assert Pow2(w) == 2 * Pow2(w - 1) && b == 2 * half + low;
    if i > 0 {
      PutBitRange(half, i - 1, v, w - 1);
      assert PutBit(b, i, v) == 2 * PutBit(half, i - 1, v) + low;
    }
  }

  lemma {:induction false} PutBitTest(b: nat, i: nat, v: bool, j: nat)
    ensures TestBit(PutBit(b, i, v), j) == if i == j then v else TestBit(b, j)
  {
    if i > 0 && j > 0 {
      PutBitTest(b / 2, i - 1, v, j - 1);
    }
  }

  lemma {:induction false} SameBits(b: nat, c: nat, w: nat)
    requires b < Pow2(w) && c < Pow2(w)
    requires forall i: nat | i < w :: TestBit(b, i) == TestBit(c, i)
    ensures b == c
  {
    if w > 0 {
      assert TestBit(b, 0) == TestBit(c, 0);
      forall i: nat | i < w - 1
        ensures TestBit(b / 2, i) == TestBit(c / 2, i)
      {
        assert TestBit(b, i + 1) == TestBit(c, i + 1);
      }
      SameBits(b / 2, c / 2, w - 1);
    }
  }

  /** Setting the top bit of a number of `w + 1` bits. */
  lemma {:induction false} PutTopBit(b: nat, w: nat)
    requires b < Pow2(w + 1)
    ensures PutBit(b, w, true) == if b < Pow2(w) then b + Pow2(w) else b
  {
    if w > 0 {
      PutTopBit(b / 2, w - 1);
    }
  }

  lemma Pow2Eight()
    ensures Pow2(8) == 0x100
  {
    assert Pow2(4) == 16;
  }

  lemma {:induction false} ZeroBits(i: nat)
    ensures !TestBit(0, i)
  {
    if i > 0 {
      ZeroBits(i - 1);
    }
  }

  /** A byte with one bit replaced is still a byte. */
  function PutByteBit(b: byte, i: nat, v: bool): byte
    requires i < 8
  {
    Pow2Eight();
    PutBitRange(b, i, v, 8);
    PutBit(b, i, v)
  }

  // The source works with masks on 8-bit values; the three lemmas below tie
  // `TestBit` and `PutBit` to those masks.

  lemma HalfByte(b: bv8)
    ensures (b >> 1) as int == (b as int) / 2
    ensures (b & 1) as int == (b as int) % 2
  {
  }

  /** The 8-bit vector that counts up to `b`. */
  function CountedBits(b: byte): (r: bv8)
    ensures r as int == b
  {
    if b == 0 then 0
    else
      var r := CountedBits(b - 1);
      assert r < 255;
      r + 1
  }

  lemma ByteBits(b: byte)
    ensures (b as bv8) as int == b
  {
    var v := CountedBits(b);
    assert (v as int) as bv8 == v;
  }

  predicate Masked(b: bv8, i: nat)
    requires i < 8
  {
    b & ((1 as bv8) << i) != 0
  }

  lemma ShiftMask(b: bv8, i: nat)
    requires 0 < i < 8
    ensures Masked(b >> 1, i - 1) == Masked(b, i)
  {
  }

  lemma {:induction false} MaskTest(b: bv8, i: nat)
    requires i < 8
    ensures TestBit(b as int, i) == Masked(b, i)
  {
    HalfByte(b);
    if i > 0 {
      MaskTest(b >> 1, i - 1);
      ShiftMask(b, i);
    }
  }

  lemma MaskedByte(b: bv8, c: bv8, i: nat, v: bool)
    requires i < 8
    requires forall j: nat | j < 8 :: Masked(c, j) == if i == j then v else Masked(b, j)
    ensures c as int == PutBit(b as int, i, v)
  {
    Pow2Eight();
    var x, y: nat := b as int, c as int;
    PutBitRange(x, i, v, 8);
    forall j: nat | j < 8
      ensures TestBit(y, j) == TestBit(PutBit(x, i, v), j)
    {
      PutBitTest(x, i, v, j);
      MaskTest(b, j);
      MaskTest(c, j);
    }
    SameBits(y, PutBit(x, i, v), 8);
  }

  lemma MaskRaises(b: bv8, i: nat, j: nat)
    requires i < 8 && j < 8
    ensures Masked(b | ((1 as bv8) << i), j) == (i == j || Masked(b, j))
  {
  }

  lemma MaskClears(b: bv8, i: nat, j: nat)
    requires i < 8 && j < 8
    ensures Masked(b & !((1 as bv8) << i), j) == (i != j && Masked(b, j))
  {
  }

  /** `b |= 1 << i` is `PutBit(b, i, true)` and `b &^= 1 << i` is `PutBit(b, i, false)`. */
  lemma MaskPut(b: bv8, i: nat)
    requires i < 8
    ensures (b | ((1 as bv8) << i)) as int == PutBit(b as int, i, true)
    ensures (b & !((1 as bv8) << i)) as int == PutBit(b as int, i, false)
  {
    var raised, cleared := b | ((1 as bv8) << i), b & !((1 as bv8) << i);
    forall j: nat | j < 8
      ensures Masked(raised, j) == if i == j then true else Masked(b, j)
    {
      MaskRaises(b, i, j);
    }
    forall j: nat | j < 8
      ensures Masked(cleared, j) == if i == j then false else Masked(b, j)
    {
      MaskClears(b, i, j);
    }
    MaskedByte(b, raised, i, true);
    MaskedByte(b, cleared, i, false);
  }

  // Big-endian 16-bit words (encoding/binary's BigEndian).

  function PutUint16(v: u16): (s: seq<byte>)
    ensures |s| == 2
  {
    [v / 0x100, v % 0x100]
  }

  function Uint16(s: seq<byte>): u16
    requires |s| == 2
  {
    (s[0] as int) * 0x100 + s[1] as int
  }

  lemma Uint16Put(v: u16)
    ensures Uint16(PutUint16(v)) == v
  {
  }

  lemma PutUint16Get(s: seq<byte>)
    requires |s| == 2
    ensures PutUint16(Uint16(s)) == s
  {
  }

  lemma {:induction false} JoinBits(high: nat, low: nat, w: nat, i: nat)
    requires low < Pow2(w)
    ensures TestBit(high * Pow2(w) + low, i) == if i < w then TestBit(low, i) else TestBit(high, i - w)
  {
    if w > 0 {
      var whole := high * Pow2(w) + low;
      HalfJoin(high, low, w);
      if i > 0 {
        JoinBits(high, low / 2, w - 1, i - 1);
      }
    }
  }

  lemma HalfJoin(high: nat, low: nat, w: nat)
    requires w > 0 && low < Pow2(w)
    ensures low / 2 < Pow2(w - 1)
    ensures (high * Pow2(w) + low) / 2 == high * Pow2(w - 1) + low / 2
    ensures (high * Pow2(w) + low) % 2 == low % 2
  {
    var p := high * Pow2(w - 1);
    assert high * Pow2(w) == 2 * p by {
      assert Pow2(w) == 2 * Pow2(w - 1);
    }
  }

  /** The first byte of a word holds its bits 8 to 15, the second its bits 0 to 7. */
  lemma Uint16Bits(s: seq<byte>, i: nat)
    requires |s| == 2 && i < 16
    ensures TestBit(Uint16(s), i) == if i < 8 then TestBit(s[1], i) else TestBit(s[0], i - 8)
    ensures Uint16(s) == 256 * (s[0] as int) + s[1] as int
  {
    Pow2Eight();
    JoinBits(s[0], s[1], 8, i);
  }

  lemma PutUint16Bits(v: u16, i: nat)
    requires i < 16
    ensures TestBit(v, i) == if i < 8 then TestBit(PutUint16(v)[1], i) else TestBit(PutUint16(v)[0], i - 8)
    ensures PutUint16(v) == [v / 256, v % 256]
  {
    Uint16Put(v);
    Uint16Bits(PutUint16(v), i);
  }
}
