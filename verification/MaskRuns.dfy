/** Runs of set bits in a packed mask of 64-bit words, found a word at a time. */
module MaskRuns {
  import opened Bits
  import opened Bitmap
  import opened Formats
  import opened Stitch

  /** Mask bit `i`. */
  function MaskBit(mask: seq<nat>, i: nat): bool
    requires i < 64 * |mask|
  {
    Bit(mask[i / 64], i % 64)
  }

  /** `len` bits in just enough words, the padding bits zero. */
  ghost predicate Padded(mask: seq<nat>, len: nat) {
    && |mask| == (len + 63) / 64
    && (forall w :: 0 <= w < |mask| ==> mask[w] < Pow2(64))
    && (forall i: nat :: len <= i < 64 * |mask| ==> !MaskBit(mask, i))
  }

  function TrailingZeros(w: nat): (n: nat)
    requires w > 0
  {
    if w % 2 == 1 then 0 else 1 + TrailingZeros(w / 2)
  }

  /** The lowest set bit. */
  lemma {:induction false} TrailingZerosLeast(w: nat)
    requires w > 0
    ensures Bit(w, TrailingZeros(w)) && forall k: nat :: k < TrailingZeros(w) ==> !Bit(w, k)
  {
    if w % 2 == 0 {
      TrailingZerosLeast(w / 2);
      forall k: nat | k < TrailingZeros(w)
        ensures !Bit(w, k)
      {
        if k > 0 { assert !Bit(w / 2, k - 1); }
      }
    }
  }

  lemma ZeroHasNone()
    ensures forall k: nat :: !Bit(0, k)
  {
    forall k: nat ensures !Bit(0, k) { BitZero(k); }
  }

  /** `word & (u64::MAX << p)`: the bits from `p` on. */
  function FromBit(word: nat, p: nat): nat {
    And(word, Shl(Mask(64), p) % Pow2(64))
  }

  lemma FromBitBits(word: nat, p: nat, k: nat)
    requires word < Pow2(64) && p < 64
    ensures Bit(FromBit(word, p), k) == (k >= p && Bit(word, k))
  {
    BitAnd(word, Shl(Mask(64), p) % Pow2(64), k);
    BitTruncate(Shl(Mask(64), p), 64, k);
    BitShl(Mask(64), p, k);
    if k >= p { BitMask(64, k - p); }
    if k >= 64 { SmallHasNoHighBits(word, 64, k); }
  }

  /** `(!word) >> p`. */
  function ClearFrom(word: nat, p: nat): nat
    requires word < Pow2(64)
  {
    Shr(Not(word, 64), p)
  }

  lemma ClearFromBits(word: nat, p: nat, k: nat)
    requires word < Pow2(64) && p < 64
    ensures Bit(ClearFrom(word, p), k) == (k + p < 64 && !Bit(word, k + p))
  {
    BitShr(Not(word, 64), p, k);
    BitNot(word, 64, k + p);
  }

  /** The first set bit at or after `from`, and the end of the run it starts. */
  ghost predicate IsRun(mask: seq<nat>, len: nat, from: nat, s: nat, e: nat) {
    && from <= s < e <= len <= 64 * |mask|
    && (forall i: nat :: from <= i < s ==> !MaskBit(mask, i))
    && (forall i: nat :: s <= i < e ==> MaskBit(mask, i))
    && (e < len ==> !MaskBit(mask, e))
  }

  /** Skips zero words to the next set bit, then full words to the end of its run. */
  method NextTrueRun(mask: seq<nat>, len: nat, from: nat) returns (r: Option<(nat, nat)>)
    requires Padded(mask, len)
    ensures r.None? <==> forall i: nat :: from <= i < len ==> !MaskBit(mask, i)
    ensures r.Some? ==> IsRun(mask, len, from, r.value.0, r.value.1)
  {
    if from >= len { return None; }
    var start := FirstSet(mask, len, from);
    if start.None? { return None; }
    var end := RunEnd(mask, len, start.value);
    return Some((start.value, end));
  }

  method FirstSet(mask: seq<nat>, len: nat, from: nat) returns (r: Option<nat>)
    requires Padded(mask, len) && from < len
    ensures r.None? ==> forall i: nat :: from <= i < len ==> !MaskBit(mask, i)
    ensures r.Some? ==> from <= r.value < len && MaskBit(mask, r.value) && forall i: nat :: from <= i < r.value ==> !MaskBit(mask, i)
  {
    hide Bit, FromBit, TrailingZeros, Pow2;
    var pos := from;
    while true
      invariant from <= pos < len
      invariant forall i: nat :: from <= i < pos ==> !MaskBit(mask, i)
      decreases len - pos
    {
      var w := FromBit(mask[pos / 64], pos % 64);
      FromBitWord(mask, pos);
      if w != 0 {
        TrailingZerosLeast(w);
        var at := pos / 64 * 64 + TrailingZeros(w);
        WordHit(mask, len, pos, at);
        return Some(at);
      }
      ZeroHasNone();
      NoneInWord(mask, pos);
      pos := (pos / 64 + 1) * 64;
      if pos >= len { return None; }
    }
  }

  /** The masked word holds the mask's bits from `pos` to the end of the word. */
  lemma FromBitWord(mask: seq<nat>, pos: nat)
    requires pos < 64 * |mask| && forall w :: 0 <= w < |mask| ==> mask[w] < Pow2(64)
    ensures forall k: nat :: Bit(FromBit(mask[pos / 64], pos % 64), k) <==>
              k < 64 && pos <= pos / 64 * 64 + k && MaskBit(mask, pos / 64 * 64 + k)
  {
    hide Bit, FromBit, Pow2;
    forall k: nat
      ensures Bit(FromBit(mask[pos / 64], pos % 64), k) <==>
              k < 64 && pos <= pos / 64 * 64 + k && MaskBit(mask, pos / 64 * 64 + k)
    {
      FromBitBits(mask[pos / 64], pos % 64, k);
      if k < 64 { assert (pos / 64 * 64 + k) / 64 == pos / 64 && (pos / 64 * 64 + k) % 64 == k; }
      else { SmallHasNoHighBits(mask[pos / 64], 64, k); }
    }
  }

  lemma WordHit(mask: seq<nat>, len: nat, pos: nat, at: nat)
    requires Padded(mask, len) && pos < len
    requires at >= pos / 64 * 64 && Bit(FromBit(mask[pos / 64], pos % 64), at - pos / 64 * 64)
    requires forall k: nat :: k < at - pos / 64 * 64 ==> !Bit(FromBit(mask[pos / 64], pos % 64), k)
    ensures pos <= at < len && MaskBit(mask, at) && forall i: nat :: pos <= i < at ==> !MaskBit(mask, i)
  {
    hide Bit, FromBit, Pow2;
    FromBitWord(mask, pos);
    var base := pos / 64 * 64;
    forall i: nat | pos <= i < at
      ensures !MaskBit(mask, i)
    {
      assert !Bit(FromBit(mask[pos / 64], pos % 64), i - base);
    }
  }

  lemma NoneInWord(mask: seq<nat>, pos: nat)
    requires pos < 64 * |mask| && forall w :: 0 <= w < |mask| ==> mask[w] < Pow2(64)
    requires forall k: nat :: !Bit(FromBit(mask[pos / 64], pos % 64), k)
    ensures forall i: nat :: pos <= i < (pos / 64 + 1) * 64 ==> !MaskBit(mask, i)
  {
    hide Bit, FromBit, Pow2;
    FromBitWord(mask, pos);
    forall i: nat | pos <= i < (pos / 64 + 1) * 64
      ensures !MaskBit(mask, i)
    {
      assert !Bit(FromBit(mask[pos / 64], pos % 64), i - pos / 64 * 64);
    }
  }

  method RunEnd(mask: seq<nat>, len: nat, start: nat) returns (e: nat)
    requires Padded(mask, len) && start < len && MaskBit(mask, start)
    ensures start < e <= len && (forall i: nat :: start <= i < e ==> MaskBit(mask, i)) && (e < len ==> !MaskBit(mask, e))
  {
    hide Bit, ClearFrom, TrailingZeros, Pow2;
    var end := start;
    while true
      invariant start <= end < 64 * |mask|
      invariant forall i: nat :: start <= i < end ==> MaskBit(mask, i)
      decreases 64 * |mask| - end
    {
      var zeros := ClearFrom(mask[end / 64], end % 64);
      ClearWord(mask, end);
      if zeros == 0 {
        ZeroHasNone();
        AllInWord(mask, end);
        end := (end / 64 + 1) * 64;
        if end / 64 >= |mask| { break; }
      } else {
        TrailingZerosLeast(zeros);
        ClearHit(mask, end, TrailingZeros(zeros));
        end := end + TrailingZeros(zeros);
        break;
      }
    }
    e := Min(end, len);
  }

  lemma ClearWord(mask: seq<nat>, end: nat)
    requires end < 64 * |mask| && forall w :: 0 <= w < |mask| ==> mask[w] < Pow2(64)
    ensures forall k: nat :: Bit(ClearFrom(mask[end / 64], end % 64), k) <==> end % 64 + k < 64 && !MaskBit(mask, end + k)
  {
    hide Bit, ClearFrom, Pow2;
    forall k: nat
      ensures Bit(ClearFrom(mask[end / 64], end % 64), k) <==> end % 64 + k < 64 && !MaskBit(mask, end + k)
    {
      ClearFromBits(mask[end / 64], end % 64, k);
      if end % 64 + k < 64 { assert (end + k) / 64 == end / 64 && (end + k) % 64 == end % 64 + k; }
    }
  }

  lemma AllInWord(mask: seq<nat>, end: nat)
    requires end < 64 * |mask| && forall w :: 0 <= w < |mask| ==> mask[w] < Pow2(64)
    requires forall k: nat :: !Bit(ClearFrom(mask[end / 64], end % 64), k)
    ensures forall i: nat :: end <= i < (end / 64 + 1) * 64 ==> MaskBit(mask, i)
  {
    hide Bit, ClearFrom, Pow2;
    ClearWord(mask, end);
    forall i: nat | end <= i < (end / 64 + 1) * 64
      ensures MaskBit(mask, i)
    {
      assert !Bit(ClearFrom(mask[end / 64], end % 64), i - end);
    }
  }

  lemma ClearHit(mask: seq<nat>, end: nat, z: nat)
    requires end < 64 * |mask| && forall w :: 0 <= w < |mask| ==> mask[w] < Pow2(64)
    requires Bit(ClearFrom(mask[end / 64], end % 64), z) && forall k: nat :: k < z ==> !Bit(ClearFrom(mask[end / 64], end % 64), k)
    ensures end + z < 64 * |mask| && !MaskBit(mask, end + z) && forall i: nat :: end <= i < end + z ==> MaskBit(mask, i)
  {
    hide Bit, ClearFrom, Pow2;
    ClearWord(mask, end);
    forall i: nat | end <= i < end + z
      ensures MaskBit(mask, i)
    {
      assert !Bit(ClearFrom(mask[end / 64], end % 64), i - end);
    }
  }

  /** Packs byte flags, word by word. */
  method PackMask(hit: seq<bool>) returns (mask: seq<nat>)
    ensures Padded(mask, |hit|)
    ensures forall i: nat :: i < |hit| ==> MaskBit(mask, i) == hit[i]
  {
    hide Bit, Pow2, PackWord, Or, Shl;
    mask := [];
    for wi := 0 to (|hit| + 63) / 64
      invariant |mask| == wi
      invariant forall w :: 0 <= w < wi ==> mask[w] == PackWord(hit[64 * w..Min(|hit|, 64 * w + 64)])
    {
      var lo := 64 * wi;
      var hi := Min(|hit|, lo + 64);
      var w: nat := 0;
      WordNone();
      assert hit[lo..lo] == [];
      for j := 0 to hi - lo
        invariant w == PackWord(hit[lo..lo + j])
      {
        AccStep(hit[lo..lo + j], hit[lo + j]);
        assert hit[lo..lo + j] + [hit[lo + j]] == hit[lo..lo + j + 1];
        w := Or(w, Shl(if hit[lo + j] then 1 else 0, j));
      }
      mask := mask + [w];
    }
    PackedMask(hit, mask);
  }

  lemma PackedMask(hit: seq<bool>, mask: seq<nat>)
    requires |mask| == (|hit| + 63) / 64
    requires forall w :: 0 <= w < |mask| ==> mask[w] == PackWord(hit[64 * w..Min(|hit|, 64 * w + 64)])
    ensures Padded(mask, |hit|) && forall i: nat :: i < |hit| ==> MaskBit(mask, i) == hit[i]
  {
    hide Bit, Pow2, PackWord;
    forall i: nat | i < 64 * |mask|
      ensures MaskBit(mask, i) == (i < |hit| && hit[i])
    {
      var w := i / 64;
      PackWordBits(hit[64 * w..Min(|hit|, 64 * w + 64)]);
    }
    forall w | 0 <= w < |mask|
      ensures mask[w] < Pow2(64)
    {
      MaskMonotone(Min(|hit|, 64 * w + 64) - 64 * w, 64);
    }
  }
}
