/** Packed bits, least significant bit of the first byte first, and the two loops that move them. */
module Bits {
  import opened Words

  /** The largest number of bits whose byte count survives 16-bit arithmetic. */
  const MAX_BITS: u16 := 65528

  /** Most bytes that `BytesForBits` can ever ask for. */
  const MAX_BYTES := 8191

  function BytesForBits(n: u16): nat {
    if n == 0 then 0 else Wrap16(n + 7) / 8
  }

  /** The byte count is enough exactly up to `MAX_BITS`; beyond, it collapses to nothing. */
  lemma BytesForBitsExact(n: u16)
    ensures 8 * BytesForBits(n) >= n <==> n <= MAX_BITS
    ensures n <= MAX_BITS ==> 8 * BytesForBits(n) < n + 8
    ensures n > MAX_BITS ==> BytesForBits(n) == 0
    ensures BytesForBits(n) <= MAX_BYTES
    ensures BytesForBits(n) == if n <= 65528 then (n + 7) / 8 else 0
  {
  }

  predicate BitAt(s: seq<byte>, k: nat)
    requires k < 8 * |s|
  {
    TestBit(s[k / 8], k % 8)
  }

  /** Bit `k` as the source tests it: mask `1 << (k % 8)` on byte `k / 8`. */
  predicate On(s: seq<byte>, k: nat)
    requires k < 8 * |s|
  {
    Masked(s[k / 8] as bv8, k % 8)
  }

  lemma OnExactly(s: seq<byte>, k: nat)
    requires k < 8 * |s|
    ensures On(s, k) == BitAt(s, k)
  {
    hide TestBit, Masked;
    ByteBits(s[k / 8]);
    MaskTest(s[k / 8] as bv8, k % 8);
  }

  function SetBitAt(s: seq<byte>, k: nat, v: bool): (r: seq<byte>)
    requires k < 8 * |s|
    ensures |r| == |s|
  {
    s[k / 8 := PutByteBit(s[k / 8], k % 8, v)]
  }

  lemma SetBitAtBit(s: seq<byte>, k: nat, v: bool, j: nat)
    requires k < 8 * |s| && j < 8 * |s|
    ensures BitAt(SetBitAt(s, k, v), j) == if j == k then v else BitAt(s, j)
  {
    PutBitTest(s[k / 8], k % 8, v, j % 8);
  }

  /** `s` after the first `n` of `bits` have been put in one after the other from bit `start`. */
  function PutFirst(s: seq<byte>, start: nat, bits: seq<bool>, n: nat): (r: seq<byte>)
    requires n <= |bits| && (n == 0 || start + n <= 8 * |s|)
    ensures |r| == |s|
  {
    if n == 0 then s else SetBitAt(PutFirst(s, start, bits, n - 1), start + n - 1, bits[n - 1])
  }

  function PutBits(s: seq<byte>, start: nat, bits: seq<bool>): (r: seq<byte>)
    requires bits == [] || start + |bits| <= 8 * |s|
    ensures |r| == |s|
  {
    PutFirst(s, start, bits, |bits|)
  }

  lemma {:induction false} PutFirstAt(s: seq<byte>, start: nat, bits: seq<bool>, n: nat, k: nat)
    requires n <= |bits| && (n == 0 || start + n <= 8 * |s|) && k < 8 * |s|
    ensures BitAt(PutFirst(s, start, bits, n), k) ==
            if start <= k < start + n then bits[k - start] else BitAt(s, k)
  {
    if n > 0 {
      PutFirstAt(s, start, bits, n - 1, k);
      SetBitAtBit(PutFirst(s, start, bits, n - 1), start + n - 1, bits[n - 1], k);
    }
  }

  lemma PutBitsAt(s: seq<byte>, start: nat, bits: seq<bool>, k: nat)
    requires (bits == [] || start + |bits| <= 8 * |s|) && k < 8 * |s|
    ensures BitAt(PutBits(s, start, bits), k) ==
            if start <= k < start + |bits| then bits[k - start] else BitAt(s, k)
  {
    PutFirstAt(s, start, bits, |bits|, k);
  }

  /** `n` bits of `s` from bit `start` on. */
  function Unpack(s: seq<byte>, start: nat, n: nat): (bits: seq<bool>)
    requires n == 0 || start + n <= 8 * |s|
    ensures |bits| == n
  {
    seq(n, i requires 0 <= i < n => BitAt(s, start + i))
  }

  function Zeros(n: nat): (s: seq<byte>)
    ensures |s| == n
  {
    seq(n, _ => 0)
  }

  lemma ZerosAt(n: nat, k: nat)
    requires k < 8 * n
    ensures !BitAt(Zeros(n), k)
  {
    ZeroBits(k % 8);
  }

  function Min(a: int, b: int): int { if a < b then a else b }

  /** How many bits a loop moves before its bounds check makes it return early: `offset` is where it
      starts in a buffer of `room` bytes, `avail` the byte length of the other buffer. */
  function Moved(room: nat, offset: nat, avail: nat, count: nat): nat {
    Min(count, Min(8 * avail, if offset <= 8 * room then 8 * room - offset else 0))
  }

  lemma MovedBounds(room: nat, offset: nat, avail: nat, count: nat)
    ensures var n := Moved(room, offset, avail, count);
            n <= count && n <= 8 * avail && (n == 0 || offset + n <= 8 * room)
  {
  }

  /** A buffer after the write loop has run over it. */
  function Landed(s: seq<byte>, offset: nat, count: nat, src: seq<byte>): (r: seq<byte>)
    ensures |r| == |s|
  {
    var n := Moved(|s|, offset, |src|, count);
    PutBits(s, offset, Unpack(src, 0, n))
  }

  /** A buffer after the copy loop has filled its first `dstLen` bytes. */
  function Copied(dst: seq<byte>, dstLen: nat, s: seq<byte>, offset: nat, count: nat): (r: seq<byte>)
    requires dstLen <= |dst|
    ensures |r| == |dst|
  {
    var n := Moved(|s|, offset, dstLen, count);
    PutBits(dst, 0, Unpack(s, offset, n))
  }

  /** In terms of masks: the write loop lays the bits of `src` over bits `offset` and following. */
  lemma LandedOn(s: seq<byte>, offset: nat, count: nat, src: seq<byte>)
    ensures var n := Moved(|s|, offset, |src|, count);
            forall k: nat | k < 8 * |s| ::
              On(Landed(s, offset, count, src), k) ==
              if offset <= k < offset + n then k - offset < 8 * |src| && On(src, k - offset) else On(s, k)
  {
    hide On, BitAt, PutBits;
    var n, r := Moved(|s|, offset, |src|, count), Landed(s, offset, count, src);
    forall k: nat | k < 8 * |s|
      ensures On(r, k) == if offset <= k < offset + n then k - offset < 8 * |src| && On(src, k - offset) else On(s, k)
    {
      PutBitsAt(s, offset, Unpack(src, 0, n), k);
      OnExactly(r, k);
      OnExactly(s, k);
      if offset <= k < offset + n {
        OnExactly(src, k - offset);
      }
    }
  }

  /** The copy loop puts bits `offset` and following of `s` over the first bits of `dst`. */
  lemma CopiedOn(dst: seq<byte>, dstLen: nat, s: seq<byte>, offset: nat, count: nat)
    requires dstLen <= |dst|
    ensures var n := Moved(|s|, offset, dstLen, count);
            forall k: nat | k < 8 * |dst| ::
              On(Copied(dst, dstLen, s, offset, count), k) ==
              if k < n then offset + k < 8 * |s| && On(s, offset + k) else On(dst, k)
  {
    hide On, BitAt, PutBits;
    var n, r := Moved(|s|, offset, dstLen, count), Copied(dst, dstLen, s, offset, count);
    forall k: nat | k < 8 * |dst|
      ensures On(r, k) == if k < n then offset + k < 8 * |s| && On(s, offset + k) else On(dst, k)
    {
      PutBitsAt(dst, 0, Unpack(s, offset, n), k);
      OnExactly(r, k);
      OnExactly(dst, k);
      if k < n {
        OnExactly(s, offset + k);
      }
    }
  }

  /** The loops' bounds check at iteration `i` fails exactly at the last element to move, and the
      16-bit bit index has not wrapped before it. */
  lemma StopsAtMoved(room: nat, offset: u16, avail: nat, count: u16, i: u16)
    requires room <= MAX_BYTES && i < count && i <= Moved(room, offset, avail, count)
    ensures (Wrap16(offset + i) / 8 >= room || i / 8 >= avail) <==> i == Moved(room, offset, avail, count)
    ensures i < Moved(room, offset, avail, count) ==> Wrap16(offset + i) == offset + i
  {
  }

  /** The update both loops end with: set or clear one bit of the buffer. */
  method StoreBit(dst: array<byte>, k: nat, v: bool)
    requires k < 8 * dst.Length
    modifies dst
    ensures dst[..] == SetBitAt(old(dst[..]), k, v)
  {
    dst[k / 8] := PutByteBit(dst[k / 8], k % 8, v);
  }

  /** Copies into the first `dstLen` bytes of `dst`, from bit `srcStart` of `src`. */
  method CopyBits(dst: array<byte>, dstLen: nat, src: array<byte>, srcStart: u16, count: u16)
    requires dst != src && dstLen <= dst.Length && src.Length <= MAX_BYTES
    modifies dst
    ensures dst[..] == Copied(old(dst[..]), dstLen, src[..], srcStart, count)
    ensures var n := Moved(src.Length, srcStart, dstLen, count);
            forall k: nat | k < 8 * dst.Length ::
              On(dst[..], k) ==
              if k < n then srcStart + k < 8 * src.Length && On(src[..], srcStart + k) else On(old(dst[..]), k)
  {
    hide Moved, Min, Wrap16, TestBit, SetBitAt, On;
    CopiedOn(dst[..], dstLen, src[..], srcStart, count);
    ghost var n := Moved(src.Length, srcStart, dstLen, count);
    MovedBounds(src.Length, srcStart, dstLen, count);
    ghost var was, source := dst[..], src[..];
    ghost var bits := Unpack(source, srcStart, n);
    var i: u16 := 0;
    while i < count
      invariant i <= n
      invariant src[..] == source
      invariant dst[..] == PutFirst(was, 0, bits, i)
    {
      var srcBit := Wrap16(srcStart + i);
      var srcByte, dstByte := srcBit / 8, i / 8;
      StopsAtMoved(src.Length, srcStart, dstLen, count, i);
      if srcByte >= src.Length || dstByte >= dstLen {
        break;
      }
      var v := TestBit(src[srcByte], srcBit % 8);
      assert bits[i] == BitAt(source, srcBit) == v;
      StoreBit(dst, i, v);
      i := i + 1;
    }
  }

  /** Writes `count` bits of `src` into `dst` from bit `dstStart` on. */
  method WriteBits(dst: array<byte>, dstStart: u16, count: u16, src: seq<byte>)
    requires dst.Length <= MAX_BYTES
    modifies dst
    ensures dst[..] == Landed(old(dst[..]), dstStart, count, src)
    ensures var n := Moved(dst.Length, dstStart, |src|, count);
            forall k: nat | k < 8 * dst.Length ::
              On(dst[..], k) ==
              if dstStart <= k < dstStart + n then k - dstStart < 8 * |src| && On(src, k - dstStart)
              else On(old(dst[..]), k)
  {
    hide Moved, Min, Wrap16, TestBit, SetBitAt, On;
    LandedOn(dst[..], dstStart, count, src);
    ghost var n := Moved(dst.Length, dstStart, |src|, count);
    MovedBounds(dst.Length, dstStart, |src|, count);
    ghost var was := dst[..];
    ghost var bits := Unpack(src, 0, n);
    var i: u16 := 0;
    while i < count
      invariant i <= n
      invariant dst[..] == PutFirst(was, dstStart, bits, i)
    {
      var dstBit := Wrap16(dstStart + i);
      var dstByte, srcByte := dstBit / 8, i / 8;
      StopsAtMoved(dst.Length, dstStart, |src|, count, i);
      if dstByte >= dst.Length || srcByte >= |src| {
        break;
      }
      var v := TestBit(src[srcByte], i % 8);
      assert dstBit == dstStart + i && bits[i] == v;
      StoreBit(dst, dstBit, v);
      i := i + 1;
    }
  }
}
