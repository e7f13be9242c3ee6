/** Joining bit lists across byte boundaries: a partial byte is carried from one piece to
    the next. Used when chunks are decompressed and when cast re-emits validity. */
module Stitch {
  import opened Bits
  import opened Bitmap
  import opened Formats

  /** Whole bytes out, plus `accBits` low bits waiting in `acc`. */
  ghost predicate Stitched(stream: seq<byte>, acc: nat, accBits: nat, bits: seq<bool>) {
    && accBits < 8 && |bits| == 8 * |stream| + accBits
    && stream == Pack(bits[..8 * |stream|])
    && acc == PackWord(bits[8 * |stream|..])
  }

  lemma StitchedNone()
    ensures Stitched([], 0, 0, [])
  {
  }

  /** Or-ing a bit in above the ones that wait. */
  lemma AccStep(x: seq<bool>, b: bool)
    ensures Or(PackWord(x), Shl(if b then 1 else 0, |x|)) == PackWord(x + [b])
  {
    var n := |x|;
    var bit: nat := if b then 1 else 0;
    var merged, packed := Or(PackWord(x), Shl(bit, n)), PackWord(x + [b]);
    MaskMonotone(n, n + 1);
    ShlIsMul(bit, n);
    OrBound(PackWord(x), Shl(bit, n), n + 1);
    forall k: nat | k < n + 1
      ensures Bit(merged, k) == Bit(packed, k)
    {
      BitOr(PackWord(x), Shl(bit, n), k);
      BitShl(bit, n, k);
      PackWordBits(x);
      PackWordBits(x + [b]);
      if k >= n { assert Bit(bit, 0) == b; }
    }
    BitsDetermine(merged, packed, n + 1);
  }

  /** A full byte closes the packed prefix. */
  lemma PackAppend(a: seq<bool>, b: seq<bool>)
    requires |a| % 8 == 0 && 0 < |b| <= 8
    ensures Pack(a + b) == Pack(a) + [PackByte(b)]
  {
    var l, r := Pack(a + b), Pack(a) + [PackByte(b)];
    forall i: nat | i < 8 * |l|
      ensures BitAt(l, i) == BitAt(r, i)
    {
      if i < |a| {
        assert BitAt(r, i) == BitAt(Pack(a), i);
      } else {
        assert i / 8 == |a| / 8 && i % 8 == i - |a|;
      }
    }
    SameBitsSameBytes(l, r);
  }

  lemma StitchedMore(stream: seq<byte>, acc: nat, accBits: nat, bits: seq<bool>, b: bool)
    requires Stitched(stream, acc, accBits, bits)
    ensures var next := Or(acc, Shl(if b then 1 else 0, accBits));
            if accBits + 1 == 8 then
              next < 256 && Stitched(stream + [next as byte], 0, 0, bits + [b])
            else Stitched(stream, next, accBits + 1, bits + [b])
  {
    hide Pack, PackWord, Or, Shl;
    var at := 8 * |stream|;
    var waiting := bits[at..];
    AccStep(waiting, b);
    assert (bits + [b])[..at] == bits[..at] && (bits + [b])[at..] == waiting + [b];
    if accBits + 1 == 8 {
      PackAppend(bits[..at], waiting + [b]);
      Pow2Eight();
      ByteOfWord(waiting + [b]);
      assert bits[..at] + (waiting + [b]) == bits + [b];
      assert (bits + [b])[..at + 8] == bits + [b] && (bits + [b])[at + 8..] == [];
      StitchedNone();
      WordNone();
    }
  }

  lemma WordNone()
    ensures PackWord([]) == 0
  {
  }

  lemma ByteOfWord(b: seq<bool>)
    requires |b| <= 8
    ensures PackWord(b) < 256 && PackByte(b) == PackWord(b)
  {
    Pow2Eight();
    MaskMonotone(|b|, 8);
  }

  /** The carried bits, emitted as a last zero-padded byte, complete the packing. */
  lemma StitchedEnd(stream: seq<byte>, acc: nat, accBits: nat, bits: seq<bool>)
    requires Stitched(stream, acc, accBits, bits)
    ensures acc < 256 && |stream| == |bits| / 8
    ensures Pack(bits) == stream + (if accBits > 0 then [acc as byte] else [])
  {
    hide Pack, PackWord;
    var at := 8 * |stream|;
    assert bits == bits[..at] + bits[at..];
    ByteOfWord(bits[at..]);
    if accBits > 0 { PackAppend(bits[..at], bits[at..]); }
    else { assert bits[..at] == bits; }
  }

  /** Adds `rows` bits of a chunk (absent: all ones) to what is carried. */
  method StitchChunk(packed: Option<seq<byte>>, rows: nat, stream: seq<byte>, acc: nat, accBits: nat, ghost bits: seq<bool>)
    returns (stream': seq<byte>, acc': nat, accBits': nat)
    requires packed.Some? ==> rows <= 8 * |packed.value|
    requires Stitched(stream, acc, accBits, bits)
    ensures Stitched(stream', acc', accBits', bits + if packed.Some? then BitsOf(packed.value, 0, rows) else Same(true, rows))
  {
    hide Stitched, Or, Shl;
    ghost var all := if packed.Some? then BitsOf(packed.value, 0, rows) else Same(true, rows);
    stream', acc', accBits' := stream, acc, accBits;
    assert bits + all[..0] == bits;
    for i := 0 to rows
      invariant Stitched(stream', acc', accBits', bits + all[..i])
    {
      var b := if packed.Some? then BitAt(packed.value, i) else true;
      StitchedMore(stream', acc', accBits', bits + all[..i], b);
      StitchedBound(stream', acc', accBits', bits + all[..i]);
      assert bits + all[..i] + [b] == bits + all[..i + 1];
      acc' := Or(acc', Shl(if b then 1 else 0, accBits'));
      accBits' := accBits' + 1;
      if accBits' == 8 {
        stream' := stream' + [acc' as byte];
        acc', accBits' := 0, 0;
      }
    }
    assert all[..rows] == all;
  }

  lemma StitchedBound(stream: seq<byte>, acc: nat, accBits: nat, bits: seq<bool>)
    requires Stitched(stream, acc, accBits, bits)
    ensures accBits < 8
  {
  }
}
