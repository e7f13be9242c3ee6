/** BITPACK: every value is mapped to a `u64` (zigzag at signed widths), and all
    are stored at the widest value's bit length, packed without gaps. */
module Bitpack {
  import opened Bits
  import opened Bitmap
  import opened Cells
  import opened Formats

  // ----- two's complement words

  type i64 = x: int | -0x8000_0000_0000_0000 <= x < 0x8000_0000_0000_0000

  function AsU64(v: int): (u: nat)
    ensures u < TWO_64
  {
    v % TWO_64
  }

  function AsI64(u: nat): i64
    requires u < TWO_64
  {
    if u < 0x8000_0000_0000_0000 then u else u - TWO_64
  }

  /** `((v << 1) ^ (v >> 63)) as u64` */
  function ZigzagEncode(v: i64): nat {
    Xor(AsU64(2 * v), AsU64(v / 0x8000_0000_0000_0000))
  }

  /** `((u >> 1) as i64) ^ -((u & 1) as i64)` */
  function ZigzagDecode(u: nat): i64
    requires u < TWO_64
  {
    Pow2Values();
    XorBound(u / 2, AsU64(-(u % 2)), 64);
    AsI64(Xor(u / 2, AsU64(-(u % 2))))
  }

  lemma {:induction false} XorZero(a: nat)
    ensures Xor(a, 0) == a
  {
  }

  lemma {:induction false} XorOnes(a: nat, w: nat)
    requires a < Pow2(w)
    ensures Xor(a, Pow2(w) - 1) == Pow2(w) - 1 - a
  {
    if a != 0 && w > 0 {
      assert (Pow2(w) - 1) / 2 == Pow2(w - 1) - 1;
      XorOnes(a / 2, w - 1);
    }
  }

  /** Small magnitudes, of either sign, become small words. */
  lemma ZigzagValue(v: i64)
    ensures ZigzagEncode(v) == if v >= 0 then 2 * v else -2 * v - 1
  {
    hide Xor, Pow2;
    Pow2Values();
    if v >= 0 {
      assert v / 0x8000_0000_0000_0000 == 0;
      XorZero(2 * v);
    } else {
      assert v / 0x8000_0000_0000_0000 == -1 && AsU64(-1) == TWO_64 - 1;
      assert AsU64(2 * v) == TWO_64 + 2 * v;
      XorOnes(TWO_64 + 2 * v, 64);
    }
  }

  lemma ZigzagRoundTrip(v: i64)
    ensures ZigzagEncode(v) < TWO_64
    ensures ZigzagDecode(ZigzagEncode(v)) == v
  {
    hide Xor, ZigzagEncode, Pow2;
    ZigzagValue(v);
    Pow2Values();
    var u := ZigzagEncode(v);
    if v >= 0 {
      assert u / 2 == v && AsU64(-(u % 2)) == 0;
      XorZero(v);
    } else {
      assert u / 2 == -1 - v && u % 2 == 1 && AsU64(-1) == TWO_64 - 1;
      XorOnes(-1 - v, 64);
    }
  }

  // ----- one value

  /** `((raw << shift) as i64) >> shift` with `shift = 64 - 8 * s`. */
  function SignExtend(raw: nat, s: nat): i64
    requires s == 1 || s == 2 || s == 4 || s == 8
  {
    AsI64(Shl(raw, 64 - 8 * s) % TWO_64) / Pow2(64 - 8 * s)
  }

  function MapToU64(dt: DataType, bytes: seq<byte>): nat
    requires |bytes| == dt.SizeOf()
  {
    if dt.IsSigned() then ZigzagEncode(SignExtend(FromLe(bytes), dt.SizeOf())) else FromLe(bytes)
  }

  function MapFromU64(dt: DataType, value: nat): (r: seq<byte>)
    requires value < TWO_64
    ensures |r| == dt.SizeOf()
  {
    if dt.IsSigned() then ToLe(AsU64(ZigzagDecode(value)), dt.SizeOf()) else ToLe(value, dt.SizeOf())
  }

  lemma Pow2Zero()
    ensures Pow2(0) == 1
  {
  }

  lemma MulLess(a: nat, b: nat, m: nat)
    requires a < b && m > 0
    ensures a * m < b * m
  {
  }

  lemma MulLessEq(a: nat, b: nat, m: nat)
    requires a <= b
    ensures a * m <= b * m
  {
  }

  /** An arithmetic right shift undoes a left shift that filled the word. */
  lemma ArithmeticShift(raw: nat, m: nat, h: nat)
    requires m > 0 && h * m == 0x8000_0000_0000_0000 && raw < 2 * h
    ensures raw * m < TWO_64
    ensures AsI64(raw * m) / m == if raw < h then raw else raw - 2 * h
  {
    assert (2 * h) * m == TWO_64;
    MulLess(raw, 2 * h, m);
    if raw < h {
      MulLess(raw, h, m);
      ModUnique(raw * m, m, raw, 0);
    } else {
      MulLessEq(h, raw, m);
      assert (raw - 2 * h) * m == raw * m - TWO_64;
      ModUnique(raw * m - TWO_64, m, raw - 2 * h, 0);
    }
  }

  /** The sign of an `s`-byte pattern comes from its top bit. */
  lemma SignExtendValue(raw: nat, s: nat)
    requires s == 1 || s == 2 || s == 4 || s == 8
    requires raw < Pow2(8 * s)
    ensures SignExtend(raw, s) == if raw < Pow2(8 * s - 1) then raw else raw - Pow2(8 * s)
  {
    hide Shl, Pow2, AsI64;
    ShlIsMul(raw, 64 - 8 * s);
    Pow2Values();
    Pow2Zero();
    ArithmeticShift(raw, Pow2(64 - 8 * s), Pow2(8 * s - 1));
  }

  /** `u mod 2^64` cut to `s` bytes keeps the pattern of `u`. */
  lemma TruncatedPattern(x: int, raw: nat, s: nat)
    requires s == 1 || s == 2 || s == 4 || s == 8
    requires raw < Pow2(8 * s) && (x == raw || x == raw - Pow2(8 * s))
    requires x >= -0x8000_0000_0000_0000
    ensures ToLe(AsU64(x), s) == ToLe(raw, s)
  {
    hide ToLe, Pow2;
    Pow2Values();
    Pow2Zero();
    var k := Pow2(64 - 8 * s) - 1;
    assert s == 1 || s == 2 || s == 4 || s == 8;
    if x != raw {
      assert k * Pow2(8 * s) == TWO_64 - Pow2(8 * s);
      assert AsU64(x) == raw + k * Pow2(8 * s);
      ModShift(raw, k, Pow2(8 * s));
      ToLeMod(raw + k * Pow2(8 * s), s);
      ToLeMod(raw, s);
    }
  }

  lemma MapRoundTrip(dt: DataType, bytes: seq<byte>)
    requires |bytes| == dt.SizeOf()
    ensures MapToU64(dt, bytes) < TWO_64
    ensures MapFromU64(dt, MapToU64(dt, bytes)) == bytes
  {
    hide ToLe, FromLe, ZigzagEncode, ZigzagDecode, SignExtend;
    var s, raw := dt.SizeOf(), FromLe(bytes);
    ToFromLe(bytes);
    Pow2Values();
    MaskMonotone(8 * s, 64);
    if dt.IsSigned() {
      SignExtendValue(raw, s);
      ZigzagRoundTrip(SignExtend(raw, s));
      MaskMonotone(8 * s - 1, 63);
      TruncatedPattern(SignExtend(raw, s), raw, s);
    }
  }

  /** What the packed word is: the zigzag code of a signed type's value, the pattern itself of
      any other type. */
  lemma MapValue(dt: DataType, bytes: seq<byte>)
    requires |bytes| == dt.SizeOf()
    ensures match dt
            case Int8 => ZigzagOf(bytes, 0x80, MapToU64(dt, bytes))
            case Int16 => ZigzagOf(bytes, 0x8000, MapToU64(dt, bytes))
            case Int32 => ZigzagOf(bytes, 0x8000_0000, MapToU64(dt, bytes))
            case Date32 => ZigzagOf(bytes, 0x8000_0000, MapToU64(dt, bytes))
            case Int64 => ZigzagOf(bytes, 0x8000_0000_0000_0000, MapToU64(dt, bytes))
            case Date64 => ZigzagOf(bytes, 0x8000_0000_0000_0000, MapToU64(dt, bytes))
            case TimestampUs => ZigzagOf(bytes, 0x8000_0000_0000_0000, MapToU64(dt, bytes))
            case _ => MapToU64(dt, bytes) == FromLe(bytes)
  {
    hide ToLe, FromLe, ZigzagEncode, SignExtend, Pow2;
    var s, raw := dt.SizeOf(), FromLe(bytes);
    ToFromLe(bytes);
    Pow2Values();
    if dt.IsSigned() {
      SignExtendValue(raw, s);
      ZigzagValue(SignExtend(raw, s));
    }
  }

  /** Patterns below `half` are non-negative and get even codes, the others count down from -1. */
  predicate ZigzagOf(bytes: seq<byte>, half: nat, word: nat) {
    word == if FromLe(bytes) < half then 2 * FromLe(bytes) else 2 * (2 * half - FromLe(bytes)) - 1
  }

  // ----- bit strings

  /** `64 - leading_zeros`. */
  function BitLen(v: nat): (n: nat)
    ensures v < Pow2(n)
  {
    if v == 0 then 0 else 1 + BitLen(v / 2)
  }

  /** No shorter width holds the value. */
  lemma {:induction false} BitLenLeast(v: nat, w: nat)
    requires v < Pow2(w)
    ensures BitLen(v) <= w
  {
    if v > 0 && w > 0 { BitLenLeast(v / 2, w - 1); }
  }

  function Widest(vals: seq<nat>): (w: nat)
    ensures forall i :: 0 <= i < |vals| ==> vals[i] < Pow2(w)
  {
    if vals == [] then 0 else
      var a, b := Widest(vals[..|vals| - 1]), BitLen(vals[|vals| - 1]);
      MaskMonotone(a, if a < b then b else a);
      MaskMonotone(b, if a < b then b else a);
      if a < b then b else a
  }

  /** The packed width is the least that holds every value. */
  lemma {:induction false} WidestLeast(vals: seq<nat>, w: nat)
    requires forall i :: 0 <= i < |vals| ==> vals[i] < Pow2(w)
    ensures Widest(vals) <= w
  {
    if vals != [] {
      WidestLeast(vals[..|vals| - 1], w);
      BitLenLeast(vals[|vals| - 1], w);
    }
  }

  lemma MulStep(i: nat, w: nat)
    ensures i * w + w == (i + 1) * w
  {
  }

  function EncodedBits(vals: seq<nat>, w: nat): (r: seq<bool>)
    ensures |r| == |vals| * w
  {
    if vals == [] then [] else
      assert (|vals| - 1) * w + w == |vals| * w;
      EncodedBits(vals[..|vals| - 1], w) + WordBits(vals[|vals| - 1], w)
  }

  lemma {:induction false} EncodedBitsSlice(vals: seq<nat>, w: nat, i: nat)
    requires i < |vals|
    ensures i * w + w <= |vals| * w
    ensures EncodedBits(vals, w)[i * w..i * w + w] == WordBits(vals[i], w)
  {
    hide WordBits;
    var n := |vals|;
    MulStep(n - 1, w);
    if i < n - 1 {
      CellFits(w, i, n - 1);
      MulStep(i, w);
      EncodedBitsSlice(vals[..n - 1], w, i);
      var a, b := EncodedBits(vals[..n - 1], w), WordBits(vals[n - 1], w);
      assert (a + b)[i * w..i * w + w] == a[i * w..i * w + w];
    }
  }

  lemma PackWordOfWord(v: nat, w: nat)
    requires v < Pow2(w)
    ensures PackWord(WordBits(v, w)) == v
  {
    PackWordBits(WordBits(v, w));
    BitsDetermine(PackWord(WordBits(v, w)), v, w);
  }

  function Mapped(dt: DataType, values: seq<byte>, n: nat): (r: seq<nat>)
    requires n * dt.SizeOf() <= |values|
    ensures |r| == n
  {
    seq(n, i requires 0 <= i < n =>
      CellFits(dt.SizeOf(), i, n);
      MapToU64(dt, Cell(values, dt.SizeOf(), i)))
  }

  /** The payload of `n` values: `[bit_width][packed bits]`. */
  function Encoded(dt: DataType, values: seq<byte>, n: nat): seq<byte>
    requires n * dt.SizeOf() <= |values|
  {
    var vals := Mapped(dt, values, n);
    var w := Widest(vals);
    WidestFits(dt, values, n);
    [w] + Pack(EncodedBits(vals, w))
  }

  lemma WidestFits(dt: DataType, values: seq<byte>, n: nat)
    requires n * dt.SizeOf() <= |values|
    ensures Widest(Mapped(dt, values, n)) <= 64
    ensures forall i :: 0 <= i < n ==> Mapped(dt, values, n)[i] < TWO_64
  {
    hide MapToU64, MapFromU64;
    var vals := Mapped(dt, values, n);
    Pow2Values();
    forall i | 0 <= i < n
      ensures vals[i] < TWO_64
    {
      CellFits(dt.SizeOf(), i, n);
      MapRoundTrip(dt, Cell(values, dt.SizeOf(), i));
    }
    WidestLeast(vals, 64);
  }

  /** `n` values read back from a bit string at width `w`. */
  function DecodedCells(dt: DataType, body: seq<byte>, w: nat, n: nat): (r: seq<seq<byte>>)
    requires w <= 64 && n * w <= 8 * |body|
    ensures |r| == n && forall i :: 0 <= i < n ==> |r[i]| == dt.SizeOf()
  {
    if n == 0 then [] else
      assert (n - 1) * w + w == n * w;
      var v := PackWord(BitsOf(body, (n - 1) * w, w));
      Pow2Values();
      MaskMonotone(w, 64);
      DecodedCells(dt, body, w, n - 1) + [MapFromU64(dt, v)]
  }

  function Decoded(dt: DataType, payload: seq<byte>, rows: nat): Result<seq<byte>> {
    if payload == [] then Err(Truncated)
    else if payload[0] > 64 then Err(Corrupt)
    else
      var w := payload[0];
      if |payload| < 1 + (rows * w + 7) / 8 then Err(Truncated)
      else Ok(Join(DecodedCells(dt, payload[1..], w, rows)))
  }

  lemma {:induction false} DecodedCellsRoundTrip(dt: DataType, vals: seq<nat>, w: nat, n: nat)
    requires w <= 64 && n <= |vals|
    requires forall i :: 0 <= i < |vals| ==> vals[i] < Pow2(w) && vals[i] < TWO_64
    requires n * w <= 8 * |Pack(EncodedBits(vals, w))|
    ensures DecodedCells(dt, Pack(EncodedBits(vals, w)), w, n) == seq(n, i requires 0 <= i < n => MapFromU64(dt, vals[i]))
  {
    hide MapFromU64, PackWord, Pack, EncodedBits, DecodedCells, Pow2;
    var body := Pack(EncodedBits(vals, w));
    if n == 0 {
      DecodedCellsNone(dt, body, w);
    } else {
      var at := (n - 1) * w;
      MulStep(n - 1, w);
      DecodedCellsRoundTrip(dt, vals, w, n - 1);
      DecodedCellsLast(dt, body, w, n - 1);
      EncodedBitsSlice(vals, w, n - 1);
      assert BitsOf(body, at, w) == EncodedBits(vals, w)[at..at + w];
      PackWordOfWord(vals[n - 1], w);
    }
  }

  lemma DecodedCellsNone(dt: DataType, body: seq<byte>, w: nat)
    requires w <= 64
    ensures DecodedCells(dt, body, w, 0) == []
  {
  }

  lemma DecodedCellsLast(dt: DataType, body: seq<byte>, w: nat, n: nat)
    requires w <= 64 && (n + 1) * w <= 8 * |body|
    ensures n * w + w == (n + 1) * w && PackWord(BitsOf(body, n * w, w)) < TWO_64
    ensures DecodedCells(dt, body, w, n + 1) == DecodedCells(dt, body, w, n) + [MapFromU64(dt, PackWord(BitsOf(body, n * w, w)))]
  {
    hide MapFromU64, PackWord, BitsOf, Pow2;
    MulStep(n, w);
    Pow2Values();
    MaskMonotone(w, 64);
  }

  /** BITPACK loses nothing, whatever the bytes are. */
  lemma RoundTrip(dt: DataType, values: seq<byte>, n: nat)
    requires Whole(values, dt.SizeOf(), n)
    ensures Decoded(dt, Encoded(dt, values, n), n) == Ok(values)
  {
    hide MapFromU64, MapToU64, PackWord, Pack, Widest, DecodedCells;
    var s, vals := dt.SizeOf(), Mapped(dt, values, n);
    var w := Widest(vals);
    WidestFits(dt, values, n);
    var body := Pack(EncodedBits(vals, w));
    assert Encoded(dt, values, n)[1..] == body;
    DecodedCellsRoundTrip(dt, vals, w, n);
    var cells := DecodedCells(dt, body, w, n);
    forall i | 0 <= i < n
      ensures cells[i] == CellsOf(values, s, n)[i]
    {
      CellFits(s, i, n);
      MapRoundTrip(dt, Cell(values, s, i));
      CellsOfIndex(values, s, n, i);
    }
    assert cells == CellsOf(values, s, n);
    JoinCellsOf(values, s, n);
    assert values[..n * s] == values;
  }

  // ----- the loops

  /** `cur` is `old_` with the low `n` bits of `value` or-ed in from bit `start` on. */
  ghost predicate Ored(old_: seq<byte>, cur: seq<byte>, start: nat, value: nat, n: nat) {
    && |cur| == |old_|
    && start + n <= 8 * |cur|
    && forall i: nat :: i < 8 * |cur| ==>
         BitAt(cur, i) == (BitAt(old_, i) || (start <= i < start + n && Bit(value, i - start)))
  }

  lemma OrByte(old_: seq<byte>, cur: seq<byte>, start: nat, value: nat, n: nat, take: nat, x: byte)
    requires Ored(old_, cur, start, value, n)
    requires 0 < take <= 8 - (start + n) % 8 && start + n + take <= 8 * |cur|
    requires x == Or8(cur[(start + n) / 8], Shl8(And(Shr(value, n), Mask8(take)), (start + n) % 8))
    ensures Ored(old_, cur[(start + n) / 8 := x], start, value, n + take)
  {
    hide Or8, Shl8, Mask8, And, Shr, Bit;
    var d, p := (start + n) / 8, (start + n) % 8;
    var chunk: byte := And(Shr(value, n), Mask8(take));
    forall k: nat | k < 8
      ensures Bit(x, k) == (Bit(cur[d], k) || (p <= k < p + take && Bit(value, n + k - p)))
    {
      OrByteBit(cur[d], chunk, p, k);
      if k >= p {
        BitAnd(Shr(value, n), Mask8(take), k - p);
        PlainMask(take);
        BitShr(value, n, k - p);
      }
    }
    var next := cur[d := x];
    forall i: nat | i < 8 * |cur|
      ensures BitAt(next, i) == (BitAt(old_, i) || (start <= i < start + (n + take) && Bit(value, i - start)))
    {
      assert BitAt(cur, i) == (BitAt(old_, i) || (start <= i < start + n && Bit(value, i - start)));
      if i / 8 == d { assert i == 8 * d + i % 8 && start + n == 8 * d + p; }
    }
  }

  lemma OrByteBit(d: byte, chunk: byte, p: nat, k: nat)
    requires k < 8
    ensures Bit(Or8(d, Shl8(chunk, p)), k) == (Bit(d, k) || (k >= p && Bit(chunk, k - p)))
  {
    BitOr(d, Shl8(chunk, p), k);
    BitShl8(chunk, p, k);
  }

  lemma {:induction false} ShrAdd(v: nat, a: nat, b: nat)
    ensures Shr(Shr(v, a), b) == Shr(v, a + b)
  {
    if a > 0 { ShrAdd(v / 2, a - 1, b); }
  }

  method WriteBits(buf: array<byte>, baseByte: nat, bitPos: nat, width: nat, value: nat)
    requires 8 * baseByte + bitPos + width <= 8 * buf.Length
    modifies buf
    ensures Ored(old(buf[..]), buf[..], 8 * baseByte + bitPos, value, width)
  {
    hide Or8, Shl8, Mask8, And, Shr, Ored;
    ghost var before, start := buf[..], 8 * baseByte + bitPos;
    OredNone(before, start, value);
    if width == 0 { return; }
    var p, remaining, rest := 8 * baseByte + bitPos, width, value;
    while remaining > 0
      invariant 0 <= remaining <= width && p == start + (width - remaining)
      invariant rest == Shr(value, width - remaining)
      invariant Ored(before, buf[..], start, value, width - remaining)
    {
      ghost var cur, n := buf[..], width - remaining;
      var d, bit := p / 8, p % 8;
      var take := Min(8 - bit, remaining);
      var x := Or8(buf[d], Shl8(And(rest, Mask8(take)), bit));
      OrByte(before, cur, start, value, n, take, x);
      ShrAdd(value, n, take);
      buf[d] := x;
      assert buf[..] == cur[d := x];
      rest := Shr(rest, take);
      p, remaining := p + take, remaining - take;
      assert n + take == width - remaining;
    }
    assert width - remaining == width;
  }

  lemma OredNone(s: seq<byte>, start: nat, value: nat)
    requires start <= 8 * |s|
    ensures Ored(s, s, start, value, 0)
    ensures Shr(value, 0) == value
  {
  }

  /** One more chunk above `n` bits already read. */
  lemma ReadStep(buf: seq<byte>, pos: nat, n: nat, take: nat, value: nat)
    requires pos + n + take <= 8 * |buf| && 0 < take <= 8 - (pos + n) % 8
    requires value == PackWord(BitsOf(buf, pos, n))
    ensures Or(value, Shl(And(Shr(buf[(pos + n) / 8], (pos + n) % 8), Mask(take)), n))
         == PackWord(BitsOf(buf, pos, n + take))
  {
    hide PackWord, Or, Shl, And, Shr, Mask, Bit;
    var d, p := (pos + n) / 8, (pos + n) % 8;
    var chunk := And(Shr(buf[d], p), Mask(take));
    var out, want := Or(value, Shl(chunk, n)), PackWord(BitsOf(buf, pos, n + take));
    PackWordBits(BitsOf(buf, pos, n));
    PackWordBits(BitsOf(buf, pos, n + take));
    forall k: nat
      ensures Bit(out, k) == Bit(want, k)
    {
      BitOr(value, Shl(chunk, n), k);
      BitShl(chunk, n, k);
      if k >= n {
        BitAnd(Shr(buf[d], p), Mask(take), k - n);
        BitMask(take, k - n);
        BitShr(buf[d], p, k - n);
        if k < n + take { assert (pos + k) / 8 == d && (pos + k) % 8 == p + (k - n); }
      }
    }
    SameBitsSameWord(out, want);
  }

  lemma {:induction false} SameBitsSameWord(a: nat, b: nat)
    requires forall k: nat :: Bit(a, k) == Bit(b, k)
    ensures a == b
    decreases a + b
  {
    if a != 0 || b != 0 {
      assert Bit(a, 0) == Bit(b, 0);
      forall k: nat
        ensures Bit(a / 2, k) == Bit(b / 2, k)
      {
        assert Bit(a, k + 1) == Bit(b, k + 1);
      }
      SameBitsSameWord(a / 2, b / 2);
    }
  }

  method ReadBits(buf: seq<byte>, bitPos: nat, width: nat) returns (value: nat)
    requires bitPos + width <= 8 * |buf|
    ensures value == PackWord(BitsOf(buf, bitPos, width))
  {
    hide Or, Shl, And, Shr, Mask;
    if width == 0 { return 0; }
    var p, shifted := bitPos, 0;
    value := 0;
    while shifted < width
      invariant shifted <= width && p == bitPos + shifted
      invariant value == PackWord(BitsOf(buf, bitPos, shifted))
    {
      var d, bit := p / 8, p % 8;
      var take := Min(8 - bit, width - shifted);
      var chunk := And(Shr(buf[d], bit), Mask(take));
      ReadStep(buf, bitPos, shifted, take, value);
      value := Or(value, Shl(chunk, shifted));
      shifted, p := shifted + take, p + take;
    }
  }

  method Encode(dt: DataType, values: seq<byte>, n: nat) returns (out: seq<byte>)
    requires Whole(values, dt.SizeOf(), n)
    ensures out == Encoded(dt, values, n)
  {
    hide MapToU64, Widest, EncodedBits, Pack, Mapped;
    var mapped, maxBits := MapValues(dt, values, n);
    WidestFits(dt, values, n);
    var buf := PackValues(mapped, maxBits);
    assert |mapped| == n;
    out := buf;
  }

  /** The native values as unsigned words, and the bits the widest of them needs. */
  method MapValues(dt: DataType, values: seq<byte>, n: nat) returns (mapped: seq<nat>, maxBits: nat)
    requires Whole(values, dt.SizeOf(), n)
    ensures mapped == Mapped(dt, values, n) && maxBits == Widest(mapped)
  {
    hide MapToU64, BitLen, Widest;
    var s := dt.SizeOf();
    maxBits, mapped := 0, [];
    EncodeStart(dt, values);
    for i := 0 to n
      invariant |mapped| == i
      invariant i * s <= |values| && mapped == Mapped(dt, values, i)
      invariant maxBits == Widest(mapped)
    {
      CellFits(s, i, n);
      var v := MapToU64(dt, Cell(values, s, i));
      WidestMore(mapped, v);
      maxBits := if maxBits < BitLen(v) then BitLen(v) else maxBits;
      mapped := mapped + [v];
      MappedMore(dt, values, i);
    }
  }

  /** The width byte, then every value at that width. */
  method PackValues(mapped: seq<nat>, w: nat) returns (out: seq<byte>)
    requires w <= 64
    ensures out == [w] + Pack(EncodedBits(mapped, w))
  {
    hide EncodedBits, Pack, Ored, Packing;
    var n := |mapped|;
    var byteLen := (n * w + 7) / 8;
    var buf := new byte[1 + byteLen](_ => 0);
    buf[0] := w;
    HeaderBits(buf[..], w);
    for i := 0 to n
      invariant buf.Length == 1 + byteLen
      invariant Packing(buf[..], w, EncodedBits(mapped[..i], w), 1 + byteLen)
    {
      var at := i * w;
      RoomFor(w, i, n);
      ghost var cur := buf[..];
      WriteBits(buf, 1, at, w, mapped[i]);
      PackingStep(cur, buf[..], w, mapped, i, 1 + byteLen);
    }
    assert mapped[..n] == mapped;
    PackingDone(buf[..], w, EncodedBits(mapped, w));
    out := buf[..];
  }

  lemma RoomFor(w: nat, i: nat, n: nat)
    requires i < n
    ensures i * w + w <= n * w <= 8 * ((n * w + 7) / 8)
  {
    MulStep(i, w);
    MulLessEq(i + 1, n, w);
  }

  lemma EncodeStart(dt: DataType, values: seq<byte>)
    ensures Mapped(dt, values, 0) == [] && Widest([]) == 0
  {
  }

  lemma WidestMore(vals: seq<nat>, v: nat)
    ensures Widest(vals + [v]) == if Widest(vals) < BitLen(v) then BitLen(v) else Widest(vals)
  {
    assert (vals + [v])[..|vals|] == vals;
  }

  lemma MappedMore(dt: DataType, values: seq<byte>, i: nat)
    requires (i + 1) * dt.SizeOf() <= |values|
    ensures i * dt.SizeOf() <= |values|
    ensures Mapped(dt, values, i + 1) == Mapped(dt, values, i) + [MapToU64(dt, Cell(values, dt.SizeOf(), i))]
  {
    hide MapToU64;
    CellFits(dt.SizeOf(), i, i + 1);
  }

  /** The output buffer: the width byte, then `bits`, then zeros. */
  ghost predicate Packing(buf: seq<byte>, w: nat, bits: seq<bool>, len: nat) {
    && |buf| == len && len > 0 && 8 + |bits| <= 8 * len
    && buf[0] == w
    && forall i: nat :: 8 <= i < 8 * len ==> BitAt(buf, i) == (i - 8 < |bits| && bits[i - 8])
  }

  lemma HeaderBits(buf: seq<byte>, w: byte)
    requires |buf| > 0 && buf[0] == w
    requires forall i :: 1 <= i < |buf| ==> buf[i] == 0
    ensures Packing(buf, w, EncodedBits([][..0], w), |buf|)
  {
    forall i: nat | 8 <= i < 8 * |buf|
      ensures !BitAt(buf, i)
    {
      BitZero(i % 8);
    }
  }

  lemma PackingStep(cur: seq<byte>, next: seq<byte>, w: nat, vals: seq<nat>, i: nat, len: nat)
    requires i < |vals| && 8 + i * w + w <= 8 * len
    requires Packing(cur, w, EncodedBits(vals[..i], w), len)
    requires Ored(cur, next, 8 + i * w, vals[i], w)
    ensures Packing(next, w, EncodedBits(vals[..i + 1], w), len)
  {
    hide Bit;
    var bits := EncodedBits(vals[..i + 1], w);
    assert vals[..i + 1][..i] == vals[..i];
    assert bits == EncodedBits(vals[..i], w) + WordBits(vals[i], w);
    assert (i + 1) * w == i * w + w;
    forall j: nat | 8 <= j < 8 * len
      ensures BitAt(next, j) == (j - 8 < |bits| && bits[j - 8])
    {
      assert BitAt(next, j) == (BitAt(cur, j) || (8 + i * w <= j < 8 + i * w + w && Bit(vals[i], j - (8 + i * w))));
    }
    forall k: nat | k < 8
      ensures Bit(next[0], k) == Bit(cur[0], k)
    {
      assert BitAt(next, k) == BitAt(cur, k);
    }
    Pow2Eight();
    BitsDetermine(next[0], cur[0], 8);
  }

  lemma PackingDone(buf: seq<byte>, w: byte, bits: seq<bool>)
    requires Packing(buf, w, bits, 1 + (|bits| + 7) / 8)
    ensures buf == [w] + Pack(bits)
  {
    var body := buf[1..];
    forall i: nat | i < 8 * |body|
      ensures BitAt(body, i) == BitAt(Pack(bits), i)
    {
      assert (i + 8) / 8 == i / 8 + 1 && (i + 8) % 8 == i % 8;
      assert BitAt(buf, i + 8) == BitAt(body, i);
    }
    SameBitsSameBytes(body, Pack(bits));
  }

  lemma DecodedCellsMore(dt: DataType, body: seq<byte>, w: nat, i: nat)
    requires w <= 64 && (i + 1) * w <= 8 * |body|
    ensures i * w + w == (i + 1) * w
    ensures PackWord(BitsOf(body, i * w, w)) < TWO_64
    ensures Join(DecodedCells(dt, body, w, i + 1))
         == Join(DecodedCells(dt, body, w, i)) + MapFromU64(dt, PackWord(BitsOf(body, i * w, w)))
  {
    hide MapFromU64, PackWord, BitsOf, Pow2;
    MulStep(i, w);
    Pow2Values();
    MaskMonotone(w, 64);
    var cells, c := DecodedCells(dt, body, w, i), MapFromU64(dt, PackWord(BitsOf(body, i * w, w)));
    assert (cells + [c])[..i] == cells;
  }

  method Decode(dt: DataType, payload: seq<byte>, rows: nat) returns (r: Result<seq<byte>>)
    ensures r == Decoded(dt, payload, rows)
  {
    hide MapFromU64, PackWord, DecodedCells, BitsOf;
    if payload == [] { return Err(Truncated); }
    var w := payload[0];
    if w > 64 { return Err(Corrupt); }
    var byteLen := (rows * w + 7) / 8;
    if |payload| < 1 + byteLen { return Err(Truncated); }
    var body, out := payload[1..], [];
    DecodedCellsNone(dt, body, w);
    for i := 0 to rows
      invariant i * w <= rows * w <= 8 * |body|
      invariant out == Join(DecodedCells(dt, body, w, i))
    {
      CellFits(w, i, rows);
      assert (i + 1) * w == i * w + w;
      var v := ReadBits(body, i * w, w);
      DecodedCellsMore(dt, body, w, i);
      out := out + MapFromU64(dt, v);
    }
    return Ok(out);
  }
}
