/** Validity bitmaps: bit `i` of a byte buffer, least significant first, is row
    `i`; 1 is valid and 0 is NULL. Counting, filling and copying work by a masked
    head byte, whole bytes, and a masked tail byte, at any bit phase. */
module Bitmap {
  import opened Bits

  // ----- the abstract value: a list of booleans

  /** Bits `[off, off + len)` of a buffer, as a list. */
  function BitsOf(s: seq<byte>, off: nat, len: nat): (r: seq<bool>)
    requires off + len <= 8 * |s|
    ensures |r| == len
    ensures forall i :: 0 <= i < len ==> r[i] == BitAt(s, off + i)
  {
    seq(len, i requires 0 <= i < len => BitAt(s, off + i))
  }

  function CountTrue(r: seq<bool>): (n: nat)
    ensures n <= |r|
  {
    if r == [] then 0 else CountTrue(r[..|r| - 1]) + (if r[|r| - 1] then 1 else 0)
  }

  lemma {:induction false} CountTrueAppend(a: seq<bool>, b: seq<bool>)
    ensures CountTrue(a + b) == CountTrue(a) + CountTrue(b)
  {
    if b == [] {
      assert a + b == a;
    } else {
      assert (a + b)[..|a + b| - 1] == a + b[..|b| - 1];
      CountTrueAppend(a, b[..|b| - 1]);
    }
  }

  /** All `n` positions true, exactly when the count is the length. */
  lemma {:induction false} CountTrueFull(r: seq<bool>)
    ensures CountTrue(r) == |r| <==> forall i :: 0 <= i < |r| ==> r[i]
  {
    if r != [] { CountTrueFull(r[..|r| - 1]); }
  }

  lemma {:induction false} CountTrueNone(r: seq<bool>)
    ensures CountTrue(r) == 0 <==> forall i :: 0 <= i < |r| ==> !r[i]
  {
    if r != [] { CountTrueNone(r[..|r| - 1]); }
  }

  /** The hardware population count of a word. */
  function PopCount(v: nat): nat {
    if v == 0 then 0 else v % 2 + PopCount(v / 2)
  }

  function WordBits(v: nat, w: nat): (r: seq<bool>)
    ensures |r| == w && forall i :: 0 <= i < w ==> r[i] == Bit(v, i)
  {
    seq(w, i requires 0 <= i < w => Bit(v, i))
  }

  lemma {:induction false} PopCountIsCountTrue(v: nat, w: nat)
    requires v < Pow2(w)
    ensures PopCount(v) == CountTrue(WordBits(v, w))
  {
    if w > 0 {
      PopCountIsCountTrue(v / 2, w - 1);
      var b := v % 2 == 1;
      assert WordBits(v, w) == [b] + WordBits(v / 2, w - 1);
      CountTrueAppend([b], WordBits(v / 2, w - 1));
      assert [b][..0] == [];
    }
  }

  lemma PaddedCount(lo: seq<bool>, mid: seq<bool>, hi: seq<bool>)
    requires forall i :: 0 <= i < |lo| ==> !lo[i]
    requires forall i :: 0 <= i < |hi| ==> !hi[i]
    ensures CountTrue(lo + mid + hi) == CountTrue(mid)
  {
    CountTrueAppend(lo + mid, hi);
    CountTrueAppend(lo, mid);
    CountTrueNone(lo);
    CountTrueNone(hi);
  }

  /** A masked byte counts the bits of the buffer under the mask. */
  lemma MaskedPopCount(s: seq<byte>, pos: nat, n: nat, mask: byte)
    requires 0 < n <= 8 - pos % 8 && pos + n <= 8 * |s|
    requires forall k: nat :: k < 8 ==> Bit(mask, k) == (pos % 8 <= k < pos % 8 + n)
    ensures PopCount(And8(s[pos / 8], mask)) == CountTrue(BitsOf(s, pos, n))
  {
    hide CountTrue, PopCount, Bit, And;
    var x, p := And8(s[pos / 8], mask), pos % 8;
    Pow2Eight();
    PopCountIsCountTrue(x, 8);
    var lo, mid, hi := seq(p, i => false), BitsOf(s, pos, n), seq(8 - p - n, i => false);
    forall k: nat | k < 8
      ensures Bit(x, k) == if p <= k < p + n then mid[k - p] else false
    {
      BitAnd(s[pos / 8], mask, k);
      if p <= k < p + n { assert (pos + (k - p)) / 8 == pos / 8 && (pos + (k - p)) % 8 == k; }
    }
    assert WordBits(x, 8) == lo + mid + hi;
    PaddedCount(lo, mid, hi);
  }

  /** `((1u16 << n) - 1) << p` as a byte. */
  lemma ShiftedMask(n: nat, p: nat)
    requires n + p <= 8
    ensures forall k: nat :: k < 8 ==> Bit(Shl8(Mask8(n), p), k) == (p <= k < p + n)
  {
    forall k: nat | k < 8
      ensures Bit(Shl8(Mask8(n), p), k) == (p <= k < p + n)
    {
      BitShl8(Mask8(n), p, k);
      if k >= p { BitMask(n, k - p); }
    }
  }

  lemma PlainMask(n: nat)
    requires n <= 8
    ensures forall k: nat :: k < 8 ==> Bit(Mask8(n), k) == (k < n)
  {
    forall k: nat | k < 8
      ensures Bit(Mask8(n), k) == (k < n)
    {
      BitMask(n, k);
    }
  }

  lemma BytesPopCount(s: seq<byte>, at: nat, n: nat)
    requires at + n <= |s|
    ensures PopCount(FromLe(s[at..at + n])) == CountTrue(BitsOf(s, 8 * at, 8 * n))
  {
    var b := s[at..at + n];
    ToFromLe(b);
    PopCountIsCountTrue(FromLe(b), 8 * n);
    forall k | 0 <= k < 8 * n
      ensures Bit(FromLe(b), k) == BitAt(s, 8 * at + k)
    {
      BitFromLe(b, k);
      assert (8 * at + k) / 8 == at + k / 8;
    }
    assert WordBits(FromLe(b), 8 * n) == BitsOf(s, 8 * at, 8 * n);
  }

  lemma BitsOfSplit(s: seq<byte>, off: nat, a: nat, b: nat)
    requires off + a + b <= 8 * |s|
    ensures CountTrue(BitsOf(s, off, a + b)) == CountTrue(BitsOf(s, off, a)) + CountTrue(BitsOf(s, off + a, b))
  {
    assert BitsOf(s, off, a + b) == BitsOf(s, off, a) + BitsOf(s, off + a, b);
    CountTrueAppend(BitsOf(s, off, a), BitsOf(s, off + a, b));
  }

  function Min(a: nat, b: nat): nat { if a <= b then a else b }

  /** How many of the bits `[off, off + len)` are set. */
  function OnesIn(s: seq<byte>, off: nat, len: nat): nat
    requires off + len <= 8 * |s|
  {
    CountTrue(BitsOf(s, off, len))
  }

  /** One counting step: the byte holding bit `pos` under its mask, or `n` whole bytes. */
  lemma CountPart(s: seq<byte>, off: nat, done: nat, n: nat)
    requires 0 < n <= 8 - (off + done) % 8 && off + done + n <= 8 * |s|
    ensures OnesIn(s, off, done + n)
         == OnesIn(s, off, done) + PopCount(And8(s[(off + done) / 8], Shl8(Mask8(n), (off + done) % 8)))
  {
    hide CountTrue, PopCount, BitsOf, Shl8, Mask8, And8, Bit;
    ShiftedMask(n, (off + done) % 8);
    MaskedPopCount(s, off + done, n, Shl8(Mask8(n), (off + done) % 8));
    BitsOfSplit(s, off, done, n);
  }

  lemma CountWhole(s: seq<byte>, off: nat, done: nat, at: nat, n: nat)
    requires off + done == 8 * at && at + n <= |s|
    ensures OnesIn(s, off, done + 8 * n) == OnesIn(s, off, done) + PopCount(FromLe(s[at..at + n]))
  {
    hide CountTrue;
    BytesPopCount(s, at, n);
    BitsOfSplit(s, off, done, 8 * n);
  }

  lemma OnesInEmpty(s: seq<byte>, off: nat)
    requires off <= 8 * |s|
    ensures OnesIn(s, off, 0) == 0
  {
  }

  lemma ShlZero(b: byte)
    ensures Shl8(b, 0) == b
  {
  }

  /** `n` bits brought to a byte boundary (or to the end of the range). */
  function HeadBits(off: nat, len: nat): (h: nat)
    ensures h <= len && h < 8 && (h < len ==> (off + h) % 8 == 0)
    ensures h > 0 ==> h <= 8 - off % 8
  {
    if off % 8 == 0 then 0 else Min(8 - off % 8, len)
  }

  /** Head byte, 64-bit words, leftover bytes, tail byte. */
  method CountOnes(bits: seq<byte>, off: nat, len: nat) returns (count: nat)
    requires off + len <= 8 * |bits|
    ensures count == OnesIn(bits, off, len)
  {
    hide CountTrue, PopCount, Shl8, Mask8, And8, BitsOf;
    count := 0;
    OnesInEmpty(bits, off);
    if len == 0 { return; }
    var head := Min((8 - off % 8) % 8, len);
    assert head == HeadBits(off, len);
    if head > 0 {
      CountPart(bits, off, 0, head);
      count := PopCount(And8(bits[off / 8], Shl8(Mask8(head), off % 8)));
    }
    assert count == OnesIn(bits, off, head);
    if head == len { return; }
    var base, whole, tail := (off + head) / 8, (len - head) / 8, (len - head) % 8;
    var done := CountBytes(bits, off, head, base, whole, count);
    count := done;
    if tail > 0 {
      var at := base + whole;
      assert (off + (head + 8 * whole)) / 8 == at && (off + (head + 8 * whole)) % 8 == 0;
      CountPart(bits, off, head + 8 * whole, tail);
      ShlZero(Mask8(tail));
      count := count + PopCount(And8(bits[at], Mask8(tail)));
    }
  }

  /** The whole bytes of the range, eight at a time and then one at a time. */
  method CountBytes(bits: seq<byte>, off: nat, head: nat, base: nat, whole: nat, start: nat) returns (count: nat)
    requires off + head == 8 * base && base + whole <= |bits|
    requires start == OnesIn(bits, off, head)
    ensures count == OnesIn(bits, off, head + 8 * whole)
  {
    hide CountTrue, PopCount, BitsOf;
    count := start;
    var done := 0;
    while done + 8 <= whole
      invariant done <= whole
      invariant count == OnesIn(bits, off, head + 8 * done)
    {
      CountWhole(bits, off, head + 8 * done, base + done, 8);
      count := count + PopCount(FromLe(bits[base + done..base + done + 8]));
      done := done + 8;
    }
    while done < whole
      invariant done <= whole
      invariant count == OnesIn(bits, off, head + 8 * done)
    {
      CountWhole(bits, off, head + 8 * done, base + done, 1);
      assert bits[base + done..base + done + 1] == [bits[base + done]];
      assert FromLe([bits[base + done]]) == bits[base + done];
      count := count + PopCount(bits[base + done]);
      done := done + 1;
    }
  }

  // ----- overwriting a range of bits

  /** `cur` is `old` with its bits from `off` on replaced by the first `n` of `bits`. */
  ghost predicate Overwritten(old_: seq<byte>, cur: seq<byte>, off: nat, bits: seq<bool>, n: nat) {
    && |cur| == |old_|
    && n <= |bits|
    && off + n <= 8 * |cur|
    && forall i: nat :: i < 8 * |cur| ==>
         BitAt(cur, i) == if off <= i < off + n then bits[i - off] else BitAt(old_, i)
  }

  /** Writing one byte carries the frontier from `n` to `n + m`. */
  lemma OverwriteByte(old_: seq<byte>, cur: seq<byte>, off: nat, bits: seq<bool>, n: nat, m: nat, x: byte)
    requires Overwritten(old_, cur, off, bits, n)
    requires n + m <= |bits| && off + n + m <= 8 * |cur|
    requires 0 < m <= 8 - (off + n) % 8
    requires forall k: nat :: k < 8 ==>
               Bit(x, k) == if (off + n) % 8 <= k < (off + n) % 8 + m then bits[n + k - (off + n) % 8]
                            else Bit(cur[(off + n) / 8], k)
    ensures Overwritten(old_, cur[(off + n) / 8 := x], off, bits, n + m)
  {
    var d, p := (off + n) / 8, (off + n) % 8;
    var next := cur[d := x];
    forall i: nat | i < 8 * |cur|
      ensures BitAt(next, i) == if off <= i < off + n + m then bits[i - off] else BitAt(old_, i)
    {
      assert BitAt(cur, i) == if off <= i < off + n then bits[i - off] else BitAt(old_, i);
      if i / 8 == d {
        var k := i % 8;
        assert i == 8 * d + k && off + n == 8 * d + p;
        assert Bit(x, k) == if p <= k < p + m then bits[n + k - p] else Bit(cur[d], k);
      }
    }
  }

  lemma OverwrittenNone(s: seq<byte>, off: nat, bits: seq<bool>)
    requires off <= 8 * |s|
    ensures Overwritten(s, s, off, bits, 0)
  {
  }

  /** The overwritten range reads back as the new bits. */
  lemma OverwrittenBits(old_: seq<byte>, cur: seq<byte>, off: nat, bits: seq<bool>)
    requires Overwritten(old_, cur, off, bits, |bits|)
    ensures BitsOf(cur, off, |bits|) == bits
  {
  }

  function Same(valid: bool, len: nat): (r: seq<bool>)
    ensures |r| == len && forall i :: 0 <= i < len ==> r[i] == valid
  {
    seq(len, i => valid)
  }

  /** Sets bits `[off, off + len)` to `valid`; returns how many were set before. */
  method FillBits(dst: array<byte>, off: nat, len: nat, valid: bool) returns (was: nat)
    requires off + len <= 8 * dst.Length
    modifies dst
    ensures Overwritten(old(dst[..]), dst[..], off, Same(valid, len), len)
    ensures was == OnesIn(old(dst[..]), off, len)
  {
    hide CountTrue, BitsOf, Shl8, Mask8, And8, Or8, Not8, BitAt, Bit, Overwritten;
    ghost var before := dst[..];
    ghost var bits := Same(valid, len);
    OverwrittenNone(before, off, bits);
    if len == 0 { return 0; }
    was := CountOnes(dst[..], off, len);
    var p := off % 8;
    var head := HeadBits(off, len);
    var body, tail := (len - head) / 8, (len - head) % 8;
    if head > 0 {
      var mask := Shl8(Mask8(head), p);
      ShiftedMask(head, p);
      var x := if valid then Or8(dst[off / 8], mask) else And8(dst[off / 8], Not8(mask));
      FilledByte(dst[off / 8], mask, valid, x);
      OverwriteByte(before, before, off, bits, 0, head, x);
      dst[off / 8] := x;
      assert dst[..] == before[off / 8 := x];
    }
    FillBytes(dst, before, off, len, valid, head, body);
    if tail > 0 {
      ghost var cur := dst[..];
      var mask := Mask8(tail);
      PlainMask(tail);
      var idx := (off + head + 8 * body) / 8;
      assert (off + head + 8 * body) % 8 == 0;
      var x := if valid then Or8(dst[idx], mask) else And8(dst[idx], Not8(mask));
      FilledByte(dst[idx], mask, valid, x);
      OverwriteByte(before, cur, off, bits, head + 8 * body, tail, x);
      dst[idx] := x;
      assert dst[..] == cur[idx := x];
    }
  }

  method FillBytes(dst: array<byte>, ghost before: seq<byte>, off: nat, ghost len: nat, valid: bool, head: nat, body: nat)
    requires off + len <= 8 * dst.Length
    requires head + 8 * body <= len && (body > 0 ==> (off + head) % 8 == 0)
    requires Overwritten(before, dst[..], off, Same(valid, len), head)
    modifies dst
    ensures Overwritten(before, dst[..], off, Same(valid, len), head + 8 * body)
  {
    hide Overwritten, BitAt, Bit;
    var d := (off + head) / 8;
    var k := 0;
    while k < body
      invariant k <= body
      invariant Overwritten(before, dst[..], off, Same(valid, len), head + 8 * k)
    {
      ghost var cur := dst[..];
      var x: byte := if valid then 0xFF else 0;
      FullByte(x, valid);
      assert (off + head + 8 * k) / 8 == d + k && (off + head + 8 * k) % 8 == 0;
      OverwriteByte(before, cur, off, Same(valid, len), head + 8 * k, 8, x);
      dst[d + k] := x;
      assert dst[..] == cur[d + k := x];
      k := k + 1;
    }
  }

  lemma FilledByte(d: byte, mask: byte, valid: bool, x: byte)
    requires x == if valid then Or8(d, mask) else And8(d, Not8(mask))
    ensures forall k: nat :: k < 8 ==> Bit(x, k) == if Bit(mask, k) then valid else Bit(d, k)
  {
    forall k: nat | k < 8
      ensures Bit(x, k) == if Bit(mask, k) then valid else Bit(d, k)
    {
      Pow2Values();
      BitOr(d, mask, k);
      BitAnd(d, Not8(mask), k);
      BitNot(mask, 8, k);
    }
  }

  lemma FullByte(x: byte, valid: bool)
    requires x == if valid then 0xFF else 0
    ensures forall k: nat :: k < 8 ==> Bit(x, k) == valid
  {
    forall k: nat | k < 8
      ensures Bit(x, k) == valid
    {
      assert Pow2(8) == 256;
      BitMask(8, k);
      BitZero(k);
    }
  }

  /** `n` bits of `src` from bit `bit` on, moved down to bit 0; higher bits are garbage. */
  function ReadShifted(src: seq<byte>, bit: nat, n: nat): (r: byte)
    requires 0 < n <= 8 && bit + n <= 8 * |src|
    ensures forall k: nat :: k < n ==> Bit(r, k) == BitAt(src, bit + k)
  {
    var p := bit % 8;
    var lo := Shr8(src[bit / 8], p);
    var r := if p + n <= 8 then lo else Or8(lo, Shl8(src[bit / 8 + 1], 8 - p));
    assert forall k: nat :: k < n ==> Bit(r, k) == BitAt(src, bit + k) by {
      forall k: nat | k < n
        ensures Bit(r, k) == BitAt(src, bit + k)
      {
        BitShr(src[bit / 8], p, k);
        if p + k >= 8 {
          assert (bit + k) / 8 == bit / 8 + 1 && (bit + k) % 8 == p + k - 8;
        } else {
          assert (bit + k) / 8 == bit / 8 && (bit + k) % 8 == p + k;
        }
        if p + n > 8 {
          BitOr(lo, Shl8(src[bit / 8 + 1], 8 - p), k);
          BitShl8(src[bit / 8 + 1], 8 - p, k);
          Pow2Values();
          if p + k >= 8 { SmallHasNoHighBits(src[bit / 8], 8, p + k); }
        }
      }
    }
    r
  }

  lemma ShiftedRead(src: seq<byte>, bit: nat, n: nat, p: nat)
    requires 0 < n && p + n <= 8 && bit + n <= 8 * |src|
    ensures forall k: nat :: p <= k < p + n ==> Bit(Shl8(ReadShifted(src, bit, n), p), k) == BitAt(src, bit + k - p)
  {
    forall k: nat | p <= k < p + n
      ensures Bit(Shl8(ReadShifted(src, bit, n), p), k) == BitAt(src, bit + k - p)
    {
      BitShl8(ReadShifted(src, bit, n), p, k);
    }
  }

  lemma MergedByte(d: byte, s: byte, mask: byte, x: byte)
    requires x == Or8(And8(d, Not8(mask)), And8(s, mask))
    ensures forall k: nat :: k < 8 ==> Bit(x, k) == if Bit(mask, k) then Bit(s, k) else Bit(d, k)
  {
    forall k: nat | k < 8
      ensures Bit(x, k) == if Bit(mask, k) then Bit(s, k) else Bit(d, k)
    {
      MaskedWrite(d, s, mask, k);
    }
  }

  /** A partial byte, at the head or (at phase 0) the tail: read-modify-write under a mask. */
  method CopyPart(dst: array<byte>, ghost before: seq<byte>, dstOff: nat, src: seq<byte>, srcOff: nat,
                  ghost len: nat, n: nat, m: nat)
    requires dstOff + len <= 8 * dst.Length && srcOff + len <= 8 * |src|
    requires n + m <= len && 0 < m <= 8 - (dstOff + n) % 8
    requires Overwritten(before, dst[..], dstOff, BitsOf(src, srcOff, len), n)
    modifies dst
    ensures Overwritten(before, dst[..], dstOff, BitsOf(src, srcOff, len), n + m)
  {
    hide CountTrue, Shl8, Mask8, And8, Or8, Not8, ReadShifted, BitAt, Bit, Overwritten;
    ghost var bits := BitsOf(src, srcOff, len);
    ghost var cur := dst[..];
    var d, p := (dstOff + n) / 8, (dstOff + n) % 8;
    var mask := Shl8(Mask8(m), p);
    var sb := Shl8(ReadShifted(src, srcOff + n, m), p);
    var x := Or8(And8(dst[d], Not8(mask)), And8(sb, mask));
    ShiftedMask(m, p);
    MergedByte(cur[d], sb, mask, x);
    ShiftedRead(src, srcOff + n, m, p);
    OverwriteByte(before, cur, dstOff, bits, n, m, x);
    dst[d] := x;
    assert dst[..] == cur[d := x];
  }

  /** Copies `len` bits of `src` from `srcOff` over the bits of `dst` from `dstOff`;
      returns how many bits of the range were set before and after. */
  method CopyBits(dst: array<byte>, dstOff: nat, src: seq<byte>, srcOff: nat, len: nat)
    returns (was: nat, now: nat)
    requires dstOff + len <= 8 * dst.Length && srcOff + len <= 8 * |src|
    modifies dst
    ensures Overwritten(old(dst[..]), dst[..], dstOff, BitsOf(src, srcOff, len), len)
    ensures was == OnesIn(old(dst[..]), dstOff, len)
    ensures now == OnesIn(src, srcOff, len)
  {
    hide CountTrue, Overwritten;
    ghost var before := dst[..];
    ghost var bits := BitsOf(src, srcOff, len);
    OverwrittenNone(before, dstOff, bits);
    if len == 0 { return 0, 0; }
    was := CountOnes(dst[..], dstOff, len);
    var head := HeadBits(dstOff, len);
    var body, tail := (len - head) / 8, (len - head) % 8;
    if head > 0 {
      CopyPart(dst, before, dstOff, src, srcOff, len, 0, head);
    }
    CopyBytes(dst, before, dstOff, src, srcOff, len, head, body);
    if tail > 0 {
      assert (dstOff + (head + 8 * body)) % 8 == 0;
      CopyPart(dst, before, dstOff, src, srcOff, len, head + 8 * body, tail);
    }
    now := CountOnes(dst[..], dstOff, len);
    OverwrittenBits(before, dst[..], dstOff, bits);
  }

  /** The whole bytes of the range: plain bytes in phase, shifted pairs out of phase. */
  method CopyBytes(dst: array<byte>, ghost before: seq<byte>, dstOff: nat, src: seq<byte>, srcOff: nat,
                   ghost len: nat, head: nat, body: nat)
    requires dstOff + len <= 8 * dst.Length && srcOff + len <= 8 * |src|
    requires head + 8 * body <= len && (body > 0 ==> (dstOff + head) % 8 == 0)
    requires Overwritten(before, dst[..], dstOff, BitsOf(src, srcOff, len), head)
    modifies dst
    ensures Overwritten(before, dst[..], dstOff, BitsOf(src, srcOff, len), head + 8 * body)
  {
    hide CountTrue, Shl8, Or8, Shr8, BitAt, Bit, Overwritten;
    ghost var bits := BitsOf(src, srcOff, len);
    var d := (dstOff + head) / 8;
    var k := 0;
    while k < body
      invariant k <= body
      invariant Overwritten(before, dst[..], dstOff, bits, head + 8 * k)
    {
      ghost var cur := dst[..];
      var bit := srcOff + head + 8 * k;
      var x := if bit % 8 == 0 then src[bit / 8]
               else Or8(Shr8(src[bit / 8], bit % 8), Shl8(src[bit / 8 + 1], 8 - bit % 8));
      WholeByte(src, bit, x);
      assert (dstOff + head + 8 * k) / 8 == d + k && (dstOff + head + 8 * k) % 8 == 0;
      OverwriteByte(before, cur, dstOff, bits, head + 8 * k, 8, x);
      dst[d + k] := x;
      assert dst[..] == cur[d + k := x];
      k := k + 1;
    }
  }

  /** The two branches of the byte loop both read eight bits from `bit` on. */
  lemma WholeByte(src: seq<byte>, bit: nat, x: byte)
    requires bit + 8 <= 8 * |src|
    requires x == if bit % 8 == 0 then src[bit / 8]
                  else Or8(Shr8(src[bit / 8], bit % 8), Shl8(src[bit / 8 + 1], 8 - bit % 8))
    ensures forall k: nat :: k < 8 ==> Bit(x, k) == BitAt(src, bit + k)
  {
    if bit % 8 == 0 {
      forall k: nat | k < 8
        ensures Bit(x, k) == BitAt(src, bit + k)
      {
        assert (bit + k) / 8 == bit / 8 && (bit + k) % 8 == k;
      }
    } else {
      assert x == ReadShifted(src, bit, 8);
    }
  }

  // ----- canonical packing

  /** The bytes of a bit list, the unused high bits of the last byte zero. */
  function Pack(bits: seq<bool>): (r: seq<byte>)
    ensures |r| == (|bits| + 7) / 8
    ensures forall i: nat :: i < 8 * |r| ==> BitAt(r, i) == (i < |bits| && bits[i])
  {
    if bits == [] then []
    else
      var n := Min(8, |bits|);
      var b := PackByte(bits[..n]);
      var r := [b] + Pack(bits[n..]);
      assert forall i: nat :: i < 8 * |r| ==> BitAt(r, i) == (i < |bits| && bits[i]) by {
        forall i: nat | i < 8 * |r|
          ensures BitAt(r, i) == (i < |bits| && bits[i])
        {
          if i >= 8 {
            assert i / 8 - 1 == (i - 8) / 8 && i % 8 == (i - 8) % 8;
            assert BitAt(r, i) == BitAt(Pack(bits[n..]), i - 8);
          }
        }
      }
      r
  }

  function PackByte(bits: seq<bool>): (b: byte)
    requires |bits| <= 8
    ensures forall k: nat :: k < 8 ==> Bit(b, k) == (k < |bits| && bits[k])
  {
    PackWordBits(bits);
    Pow2Eight();
    MaskMonotone(|bits|, 8);
    PackWord(bits)
  }

  function PackWord(bits: seq<bool>): (v: nat)
    ensures v < Pow2(|bits|)
  {
    if bits == [] then 0 else (if bits[0] then 1 else 0) + 2 * PackWord(bits[1..])
  }

  lemma {:induction false} PackWordBits(bits: seq<bool>)
    ensures forall k: nat :: Bit(PackWord(bits), k) == (k < |bits| && bits[k])
  {
    forall k: nat
      ensures Bit(PackWord(bits), k) == (k < |bits| && bits[k])
    {
      if bits == [] { BitZero(k); }
      else {
        PackWordBits(bits[1..]);
        if k > 0 { assert PackWord(bits) / 2 == PackWord(bits[1..]); }
      }
    }
  }

  /** Byte strings with the same bits are the same. */
  lemma SameBitsSameBytes(a: seq<byte>, b: seq<byte>)
    requires |a| == |b|
    requires forall i: nat :: i < 8 * |a| ==> BitAt(a, i) == BitAt(b, i)
    ensures a == b
  {
    forall j | 0 <= j < |a|
      ensures a[j] == b[j]
    {
      Pow2Eight();
      forall k: nat | k < 8
        ensures Bit(a[j], k) == Bit(b[j], k)
      {
        assert (8 * j + k) / 8 == j && (8 * j + k) % 8 == k;
        assert BitAt(a, 8 * j + k) == BitAt(b, 8 * j + k);
      }
      BitsDetermine(a[j], b[j], 8);
    }
  }

  /** A view's bits as bytes of their own, from bit 0. */
  method PackedBytes(src: seq<byte>, off: nat, len: nat) returns (out: seq<byte>)
    requires off + len <= 8 * |src|
    ensures out == Pack(BitsOf(src, off, len))
  {
    var buf := new byte[(len + 7) / 8](_ => 0);
    ghost var zero := buf[..];
    var was, now := CopyBits(buf, 0, src, off, len);
    out := buf[..];
    forall i: nat | i < 8 * |zero|
      ensures !BitAt(zero, i)
    {
      BitZero(i % 8);
    }
    SameBitsSameBytes(out, Pack(BitsOf(src, off, len)));
  }
}
