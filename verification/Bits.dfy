/** Machine words as natural numbers and their bits, least significant first.
    The bitwise operators of the storage format are given bit by bit, so one
    set of laws serves bytes and 64-bit words alike. */
module Bits {

  type byte = x: int | 0 <= x < 256

  const TWO_32: int := 0x1_0000_0000
  const TWO_64: int := 0x1_0000_0000_0000_0000

  /** Bit `k` of `v`. */
  function Bit(v: nat, k: nat): bool {
    if k == 0 then v % 2 == 1 else Bit(v / 2, k - 1)
  }

  function Pow2(n: nat): (p: nat)
    ensures p >= 1
  {
    if n == 0 then 1 else 2 * Pow2(n - 1)
  }

  /** `v >> n`, `v << n` (no width), and `(1 << n) - 1`. */
  function Shr(v: nat, n: nat): (r: nat)
    ensures r <= v
  {
    if n == 0 then v else Shr(v / 2, n - 1)
  }

  function Shl(v: nat, n: nat): nat {
    if n == 0 then v else 2 * Shl(v, n - 1)
  }

  function Mask(n: nat): nat {
    Pow2(n) - 1
  }

  function And(a: nat, b: nat): (r: nat)
    ensures r <= a && r <= b
  {
    if a == 0 || b == 0 then 0 else 2 * And(a / 2, b / 2) + (if a % 2 == 1 && b % 2 == 1 then 1 else 0)
  }

  function Or(a: nat, b: nat): nat
    decreases a + b
  {
    if a == 0 then b else if b == 0 then a
    else 2 * Or(a / 2, b / 2) + (if a % 2 == 1 || b % 2 == 1 then 1 else 0)
  }

  function Xor(a: nat, b: nat): nat
    decreases a + b
  {
    if a == 0 then b else if b == 0 then a
    else 2 * Xor(a / 2, b / 2) + (if a % 2 != b % 2 then 1 else 0)
  }

  /** `!v` at width `w`. */
  function Not(v: nat, w: nat): nat
    requires v < Pow2(w)
  {
    Pow2(w) - 1 - v
  }

  // ----- one law per operator

  lemma {:induction false} BitZero(k: nat)
    ensures !Bit(0, k)
  {
    if k > 0 { BitZero(k - 1); }
  }

  lemma {:induction false} BitShr(v: nat, n: nat, k: nat)
    ensures Bit(Shr(v, n), k) == Bit(v, k + n)
  {
    if n > 0 { BitShr(v / 2, n - 1, k); }
  }

  lemma {:induction false} BitShl(v: nat, n: nat, k: nat)
    ensures Bit(Shl(v, n), k) == (k >= n && Bit(v, k - n))
  {
    if n > 0 && k > 0 { BitShl(v, n - 1, k - 1); }
  }

  lemma {:induction false} BitMask(n: nat, k: nat)
    ensures Bit(Mask(n), k) == (k < n)
  {
    if n == 0 { BitZero(k); }
    else if k > 0 {
      assert Mask(n) / 2 == Mask(n - 1);
      BitMask(n - 1, k - 1);
    }
  }

  lemma {:induction false} BitAnd(a: nat, b: nat, k: nat)
    ensures Bit(And(a, b), k) == (Bit(a, k) && Bit(b, k))
    decreases k
  {
    if a == 0 || b == 0 { BitZero(k); }
    else if k > 0 { BitAnd(a / 2, b / 2, k - 1); }
  }

  lemma {:induction false} BitOr(a: nat, b: nat, k: nat)
    ensures Bit(Or(a, b), k) == (Bit(a, k) || Bit(b, k))
    decreases k
  {
    if a == 0 || b == 0 { BitZero(k); }
    else if k > 0 { BitOr(a / 2, b / 2, k - 1); }
  }

  lemma {:induction false} BitXor(a: nat, b: nat, k: nat)
    ensures Bit(Xor(a, b), k) == (Bit(a, k) != Bit(b, k))
    decreases k
  {
    if a == 0 || b == 0 { BitZero(k); }
    else if k > 0 { BitXor(a / 2, b / 2, k - 1); }
  }

  lemma {:induction false} BitNot(v: nat, w: nat, k: nat)
    requires v < Pow2(w)
    ensures Bit(Not(v, w), k) == (k < w && !Bit(v, k))
    decreases w
  {
    if w == 0 { BitZero(k); }
    else if k > 0 {
      assert Not(v, w) / 2 == Not(v / 2, w - 1);
      BitNot(v / 2, w - 1, k - 1);
    }
  }

  lemma {:induction false} BitTruncate(v: nat, n: nat, k: nat)
    ensures Bit(v % Pow2(n), k) == (k < n && Bit(v, k))
  {
    if n == 0 { BitZero(k); }
    else {
      ModHalf(v, Pow2(n - 1));
      if k > 0 { BitTruncate(v / 2, n - 1, k - 1); }
    }
  }

  lemma ModHalf(v: nat, m: nat)
    requires m >= 1
    ensures (v % (2 * m)) % 2 == v % 2
    ensures (v % (2 * m)) / 2 == (v / 2) % m
  {
    var h := v / 2;
    var q, r := h / m, h % m;
    assert h == m * q + r;
    assert v == (2 * m) * q + (2 * r + v % 2);
    ModUnique(v, 2 * m, q, 2 * r + v % 2);
  }

  lemma ModUnique(v: int, m: int, q: int, r: int)
    requires m > 0 && v == m * q + r && 0 <= r < m
    ensures v % m == r && v / m == q
  {
    var q', r' := v / m, v % m;
    assert v == m * q' + r' && 0 <= r' < m;
    assert m * (q' - q) == m * q' - m * q == r - r';
    assert m * (q - q') == r' - r;
    if q' > q { MulAtLeast(m, q' - q); }
    if q' < q { MulAtLeast(m, q - q'); }
  }

  lemma MulAtLeast(m: int, d: int)
    requires m > 0 && d >= 1
    ensures m * d >= m
  {
  }

  // ----- sizes

  lemma {:induction false} SmallHasNoHighBits(v: nat, n: nat, k: nat)
    requires v < Pow2(n) && n <= k
    ensures !Bit(v, k)
  {
    if n == 0 { BitZero(k); } else { SmallHasNoHighBits(v / 2, n - 1, k - 1); }
  }

  lemma {:induction false} OrBound(a: nat, b: nat, n: nat)
    requires a < Pow2(n) && b < Pow2(n)
    ensures Or(a, b) < Pow2(n)
    decreases n
  {
    if a != 0 && b != 0 { OrBound(a / 2, b / 2, n - 1); }
  }

  lemma {:induction false} XorBound(a: nat, b: nat, n: nat)
    requires a < Pow2(n) && b < Pow2(n)
    ensures Xor(a, b) < Pow2(n)
    decreases n
  {
    if a != 0 && b != 0 { XorBound(a / 2, b / 2, n - 1); }
  }

  /** A word is determined by its low `n` bits. */
  lemma {:induction false} BitsDetermine(a: nat, b: nat, n: nat)
    requires a < Pow2(n) && b < Pow2(n)
    requires forall k: nat :: k < n ==> Bit(a, k) == Bit(b, k)
    ensures a == b
  {
    if n > 0 {
      assert Bit(a, 0) == Bit(b, 0);
      forall k: nat | k < n - 1
        ensures Bit(a / 2, k) == Bit(b / 2, k)
      {
        assert Bit(a, k + 1) == Bit(b, k + 1);
      }
      BitsDetermine(a / 2, b / 2, n - 1);
    }
  }

  lemma {:induction false} ShlIsMul(v: nat, n: nat)
    ensures Shl(v, n) == v * Pow2(n)
  {
    if n > 0 { ShlIsMul(v, n - 1); }
  }

  lemma {:induction false} Pow2Add(a: nat, b: nat)
    ensures Pow2(a + b) == Pow2(a) * Pow2(b)
  {
    if a > 0 { Pow2Add(a - 1, b); }
  }

  lemma Pow2Eight()
    ensures Pow2(8) == 256 && Pow2(7) == 128
  {
  }

  lemma Pow2Values()
    ensures Pow2(7) == 0x80 && Pow2(8) == 256
    ensures Pow2(15) == 0x8000 && Pow2(16) == 65536
    ensures Pow2(31) == 0x8000_0000 && Pow2(32) == TWO_32
    ensures Pow2(63) == 0x8000_0000_0000_0000 && Pow2(64) == TWO_64
    ensures Pow2(48) == 0x1_0000_0000_0000 && Pow2(56) == 0x100_0000_0000_0000
  {
    hide Pow2;
    Pow2Eight();
    Pow2Add(8, 7);
    Pow2Add(8, 8);
    Pow2Add(16, 15);
    Pow2Add(16, 16);
    Pow2Add(32, 31);
    Pow2Add(32, 32);
    Pow2Add(32, 16);
    Pow2Add(48, 8);
  }

  // ----- bytes

  function And8(a: byte, b: byte): byte { And(a, b) }

  function Or8(a: byte, b: byte): byte {
    assert Pow2(8) == 256;
    OrBound(a, b, 8);
    Or(a, b)
  }

  function Not8(a: byte): byte { 255 - a }

  function Shr8(a: byte, n: nat): byte { Shr(a, n) }

  /** `a << n` on a byte: the bits pushed past bit 7 are lost. */
  function Shl8(a: byte, n: nat): byte { Shl(a, n) % 256 }

  /** `((1u16 << n) - 1) as u8`. */
  function Mask8(n: nat): byte
    requires n <= 8
  {
    assert Pow2(8) == 256;
    MaskMonotone(n, 8);
    Mask(n)
  }

  lemma {:induction false} MaskMonotone(a: nat, b: nat)
    requires a <= b
    ensures Pow2(a) <= Pow2(b)
  {
    if a < b { MaskMonotone(a, b - 1); }
  }

  /** The bits of a byte after the read-modify-write `(d & !mask) | (s & mask)`. */
  lemma MaskedWrite(d: byte, s: byte, mask: byte, k: nat)
    requires k < 8
    ensures Bit(Or8(And8(d, Not8(mask)), And8(s, mask)), k) == if Bit(mask, k) then Bit(s, k) else Bit(d, k)
  {
    assert Pow2(8) == 256;
    BitOr(And(d, Not8(mask)), And(s, mask), k);
    BitAnd(d, Not8(mask), k);
    BitAnd(s, mask, k);
    BitNot(mask, 8, k);
  }

  lemma BitShl8(a: byte, n: nat, k: nat)
    requires k < 8
    ensures Bit(Shl8(a, n), k) == (k >= n && Bit(a, k - n))
  {
    assert Pow2(8) == 256;
    BitTruncate(Shl(a, n), 8, k);
    BitShl(a, n, k);
  }

  /** Bit `i` of a byte string. */
  function BitAt(s: seq<byte>, i: nat): bool
    requires i < 8 * |s|
  {
    Bit(s[i / 8], i % 8)
  }

  // ----- little-endian integers

  /** The value of a little-endian byte string. */
  function FromLe(b: seq<byte>): nat {
    if b == [] then 0 else b[0] + 256 * FromLe(b[1..])
  }

  /** The `n` low bytes of `v`, least significant first; higher bytes are dropped. */
  function ToLe(v: nat, n: nat): (b: seq<byte>)
    ensures |b| == n
  {
    if n == 0 then [] else [v % 256] + ToLe(v / 256, n - 1)
  }

  lemma {:induction false} FromToLe(v: nat, n: nat)
    ensures FromLe(ToLe(v, n)) == v % Pow2(8 * n)
  {
    if n > 0 {
      hide Pow2;
      FromToLe(v / 256, n - 1);
      assert ToLe(v, n)[1..] == ToLe(v / 256, n - 1);
      Pow2Add(8, 8 * (n - 1));
      Pow2Values();
      ModByte(v, Pow2(8 * (n - 1)));
    }
  }

  lemma ModByte(v: nat, m: nat)
    requires m >= 1
    ensures v % (256 * m) == v % 256 + 256 * (v / 256 % m)
  {
    var q, r := v / 256 / m, v / 256 % m;
    assert v / 256 == m * q + r;
    assert v == 256 * (m * q + r) + v % 256;
    assert 256 * (m * q) == (256 * m) * q;
    ModUnique(v, 256 * m, q, 256 * r + v % 256);
  }

  lemma {:induction false} ToFromLe(b: seq<byte>)
    ensures ToLe(FromLe(b), |b|) == b
    ensures FromLe(b) < Pow2(8 * |b|)
  {
    if b != [] {
      hide Pow2;
      ToFromLe(b[1..]);
      assert FromLe(b) % 256 == b[0] && FromLe(b) / 256 == FromLe(b[1..]);
      Pow2Add(8, 8 * (|b| - 1));
      Pow2Values();
    }
  }

  /** Writing `n` bytes looks at the value modulo `2^(8n)` only. */
  lemma ToLeMod(v: nat, n: nat)
    ensures ToLe(v, n) == ToLe(v % Pow2(8 * n), n)
  {
    FromToLe(v, n);
    ToFromLe(ToLe(v, n));
  }

  lemma ModShift(a: int, k: int, m: int)
    requires m > 0
    ensures (a + k * m) % m == a % m
  {
    assert a + k * m == m * (a / m + k) + a % m;
    ModUnique(a + k * m, m, a / m + k, a % m);
  }

  /** Joining a low part of `n` bits and a high part keeps both sets of bits. */
  lemma {:induction false} BitJoin(a: nat, b: nat, n: nat, k: nat)
    requires a < Pow2(n)
    ensures Bit(a + Pow2(n) * b, k) == if k < n then Bit(a, k) else Bit(b, k - n)
  {
    if n > 0 {
      var v := a + Pow2(n) * b;
      assert Pow2(n) * b == 2 * (Pow2(n - 1) * b);
      assert v / 2 == a / 2 + Pow2(n - 1) * b && v % 2 == a % 2;
      if k > 0 { BitJoin(a / 2, b, n - 1, k - 1); }
    }
  }

  lemma {:induction false} BitFromLe(b: seq<byte>, k: nat)
    requires k < 8 * |b|
    ensures Bit(FromLe(b), k) == BitAt(b, k)
  {
    hide Pow2;
    Pow2Eight();
    BitJoin(b[0], FromLe(b[1..]), 8, k);
    if k >= 8 {
      BitFromLe(b[1..], k - 8);
      assert (k - 8) / 8 == k / 8 - 1 && (k - 8) % 8 == k % 8;
    }
  }
}
