/** Binary floating point as values: the patterns of IEEE 754, their order, and integers
    rounded to 64-bit floats. */
module Floats {
  import opened Bits

  /** The sign of zero plays no part in comparisons. */
  datatype Float = NaN | NegInf | PosInf | Fin(r: real)

  const TWO_52: int := 0x10_0000_0000_0000
  const TWO_53: int := 0x20_0000_0000_0000

  /** Below 0, 0 or above 0, as the first is less than, equal to or greater than the second. */
  function FloatOrder(a: Float, b: Float): int
    requires !a.NaN? && !b.NaN?
  {
    if a == b then 0
    else if a.NegInf? || b.PosInf? then -1
    else if a.PosInf? || b.NegInf? then 1
    else if a.r < b.r then -1 else 1
  }

  // ----- powers of two

  function Scale(k: int): (s: real)
    ensures s > 0.0
  {
    if k >= 0 then Pow2(k) as real else 1.0 / Pow2(-k) as real
  }

  lemma ScaleStep(k: int)
    ensures Scale(k + 1) == 2.0 * Scale(k)
  {
    if k < 0 { assert Pow2(-k) == 2 * Pow2(-k - 1); }
  }

  lemma Regroup(a: real, b: real, c: real)
    ensures a * (b * c) == (a * b) * c
  {
  }

  lemma {:induction false} ScaleUp(k: int, j: nat)
    ensures Scale(k + j) == Pow2(j) as real * Scale(k)
  {
    hide Scale;
    if j > 0 {
      ScaleUp(k, j - 1);
      ScaleStep(k + j - 1);
      Regroup(2.0, Pow2(j - 1) as real, Scale(k));
      assert Pow2(j) as real == 2.0 * Pow2(j - 1) as real;
    }
  }

  lemma MulLess(a: real, b: real, s: real)
    requires a < b && s > 0.0
    ensures a * s < b * s
  {
  }

  lemma MulMost(a: real, b: real, s: real)
    requires a <= b && s > 0.0
    ensures a * s <= b * s
  {
  }

  lemma {:induction false} ScaleMonotone(a: int, b: int)
    requires a <= b
    ensures Scale(a) <= Scale(b)
    decreases b - a
  {
    hide Scale;
    if a < b {
      ScaleMonotone(a, b - 1);
      ScaleStep(b - 1);
    }
  }

  // ----- patterns

  datatype Format = Binary32 | Binary64 {
    /** Bits of the fraction and of the exponent, and the exponent's bias. */
    function M(): nat { if Binary32? then 23 else 52 }
    function X(): nat { if Binary32? then 8 else 11 }
    function Bias(): nat { if Binary32? then 127 else 1023 }
  }

  /** The size of a finite value from its exponent and fraction fields. */
  function Magnitude(fmt: Format, e: nat, frac: nat): real {
    if e == 0 then frac as real * Scale(1 - fmt.Bias() - fmt.M())
    else (Pow2(fmt.M()) + frac) as real * Scale(e - fmt.Bias() - fmt.M())
  }

  function FromFields(fmt: Format, neg: bool, e: nat, frac: nat): Float {
    if e == Pow2(fmt.X()) - 1 then
      if frac != 0 then NaN else if neg then NegInf else PosInf
    else Fin(if neg then -Magnitude(fmt, e, frac) else Magnitude(fmt, e, frac))
  }

  function FromPattern(fmt: Format, bits: nat): Float {
    FromFields(fmt, bits / Pow2(fmt.M() + fmt.X()) % 2 == 1, bits / Pow2(fmt.M()) % Pow2(fmt.X()), bits % Pow2(fmt.M()))
  }

  /** A size lies in the binade of its exponent. */
  lemma MagnitudeRange(fmt: Format, e: nat, frac: nat)
    requires frac < Pow2(fmt.M())
    ensures Magnitude(fmt, e, frac) < Pow2(fmt.M()) as real * Scale((if e == 0 then 1 else e + 1) - fmt.Bias() - fmt.M())
    ensures e > 0 ==> Magnitude(fmt, e, frac) >= Pow2(fmt.M()) as real * Scale(e - fmt.Bias() - fmt.M())
  {
    hide Scale, Pow2;
    var p, k := Pow2(fmt.M()), e - fmt.Bias() - fmt.M();
    if e == 0 {
      MulLess(frac as real, p as real, Scale(1 - fmt.Bias() - fmt.M()));
    } else {
      MulLess((p + frac) as real, (2 * p) as real, Scale(k));
      MulMost(p as real, (p + frac) as real, Scale(k));
      ScaleStep(k);
      Regroup(p as real, 2.0, Scale(k));
      assert (2 * p) as real == p as real * 2.0;
    }
  }

  /** A larger exponent, or the same and a larger fraction, is a larger size. */
  lemma MagnitudeOrder(fmt: Format, e: nat, frac: nat, e': nat, frac': nat)
    requires frac < Pow2(fmt.M()) && frac' < Pow2(fmt.M()) && (e < e' || (e == e' && frac < frac'))
    ensures Magnitude(fmt, e, frac) < Magnitude(fmt, e', frac')
  {
    hide Scale, Pow2;
    var p, b := Pow2(fmt.M()), fmt.Bias() + fmt.M();
    if e == e' {
      MulLess(frac as real, frac' as real, Scale(1 - b));
      MulLess((p + frac) as real, (p + frac') as real, Scale(e - b));
    } else {
      MagnitudeBelow(fmt, e, frac, e', frac');
    }
  }

  lemma MagnitudeBelow(fmt: Format, e: nat, frac: nat, e': nat, frac': nat)
    requires frac < Pow2(fmt.M()) && frac' < Pow2(fmt.M()) && e < e'
    ensures Magnitude(fmt, e, frac) < Magnitude(fmt, e', frac')
  {
    hide Scale, Pow2, Magnitude;
    var b := fmt.Bias() + fmt.M();
    MagnitudeRange(fmt, e, frac);
    MagnitudeRange(fmt, e', frac');
    ScaleMonotone((if e == 0 then 1 else e + 1) - b, e' - b);
    MulMostRight(Pow2(fmt.M()) as real, Scale((if e == 0 then 1 else e + 1) - b), Scale(e' - b));
  }

  lemma MulMostRight(a: real, s: real, t: real)
    requires a > 0.0 && s <= t
    ensures a * s <= a * t
  {
  }

  /** Non-negative patterns are ordered as their values are. */
  lemma PatternOrder(fmt: Format, a: nat, b: nat)
    requires a < b < Pow2(fmt.M() + fmt.X())
    requires !FromPattern(fmt, a).NaN? && !FromPattern(fmt, b).NaN?
    ensures FloatOrder(FromPattern(fmt, a), FromPattern(fmt, b)) == -1
  {
    hide Scale, Pow2, Magnitude;
    var p, x := Pow2(fmt.M()), Pow2(fmt.X());
    Pow2Add(fmt.M(), fmt.X());
    PatternFields(p, x, a);
    PatternFields(p, x, b);
    FieldsOrder(p, a, b);
    if b / p < x - 1 { MagnitudeOrder(fmt, a / p, a % p, b / p, b % p); }
  }

  lemma PatternFields(p: nat, x: nat, a: nat)
    requires p > 0 && x > 0 && a < p * x
    ensures a / (p * x) == 0 && a / p < x && (a / p) % x == a / p && a % p < p
  {
    DivBelow(a, p * x);
    if a / p >= x { MulNat(p, x, a / p); }
    DivBelow(a / p, x);
  }

  lemma MulNat(p: nat, x: nat, y: nat)
    requires x <= y
    ensures p * x <= p * y
  {
  }

  lemma DivBelow(a: nat, d: nat)
    requires a < d
    ensures a / d == 0 && a % d == a
  {
  }

  lemma FieldsOrder(p: nat, a: nat, b: nat)
    requires p > 0 && a < b
    ensures a / p < b / p || (a / p == b / p && a % p < b % p)
  {
    if a / p > b / p { MulNat(p, b / p + 1, a / p); }
  }

  // ----- what the patterns are, section 3.4 of IEEE 754-2008

  /** The patterns of the sign, of infinity and of 1, and the number of patterns in a binade. */
  function SignBit(fmt: Format): nat { if fmt.Binary32? then 0x8000_0000 else 0x8000_0000_0000_0000 }
  function Infinity(fmt: Format): nat { if fmt.Binary32? then 0x7F80_0000 else 0x7FF0_0000_0000_0000 }
  function One(fmt: Format): nat { if fmt.Binary32? then 0x3F80_0000 else 0x3FF0_0000_0000_0000 }
  function Binade(fmt: Format): nat { if fmt.Binary32? then 0x80_0000 else 0x10_0000_0000_0000 }

  lemma FormatValues(fmt: Format)
    ensures Pow2(fmt.M()) == Binade(fmt) && Pow2(fmt.M() + fmt.X()) == SignBit(fmt)
    ensures Pow2(fmt.X()) == if fmt.Binary32? then 256 else 2048
    ensures Infinity(fmt) == (Pow2(fmt.X()) - 1) * Binade(fmt) && One(fmt) == fmt.Bias() * Binade(fmt)
  {
    FractionRoom();
    Pow2Values();
    assert Pow2(11) == 2048;
  }

  /** A pattern put together from its fields. */
  lemma PatternParts(fmt: Format, neg: bool, e: nat, frac: nat)
    requires e * Binade(fmt) <= Infinity(fmt) && frac < Binade(fmt)
    ensures var bits := (if neg then SignBit(fmt) else 0) + (e * Binade(fmt) + frac);
            FromPattern(fmt, bits) == FromFields(fmt, neg, e, frac)
  {
    hide Pow2, FromFields;
    FormatValues(fmt);
    var p, x, low := Binade(fmt), Pow2(fmt.X()), e * Binade(fmt) + frac;
    ExponentRoom(p, x, e);
    ModUnique(low, p, e, frac);
    ModUnique(e, x, 0, e);
    var bits := (if neg then SignBit(fmt) else 0) + low;
    if neg {
      assert bits == p * (x + e) + frac;
      ModUnique(bits, p, x + e, frac);
      ModUnique(x + e, x, 1, e);
      assert bits == (p * x) * 1 + low;
    }
    SignField(p, x, e, frac);
    ModUnique(bits, p * x, if neg then 1 else 0, low);
    Pow2Add(fmt.M(), fmt.X());
  }

  lemma ExponentRoom(p: nat, x: nat, e: nat)
    requires p > 0 && x > 0 && e * p <= (x - 1) * p
    ensures e < x
  {
    if e >= x { MulNat(p, x, e); }
  }

  lemma SignField(p: nat, x: nat, e: nat, frac: nat)
    requires e < x && frac < p
    ensures e * p + frac < p * x
  {
    MulNat(p, e + 1, x);
  }

  function Opposite(f: Float): Float {
    match f case NaN => NaN case NegInf => PosInf case PosInf => NegInf case Fin(r) => Fin(-r)
  }

  /** The sign bit negates, all ones in the exponent are infinity and then NaN, zero and one
      are where they should be. */
  lemma PatternSpecials(fmt: Format, bits: nat)
    requires bits < SignBit(fmt)
    ensures FromPattern(fmt, SignBit(fmt) + bits) == Opposite(FromPattern(fmt, bits))
    ensures FromPattern(fmt, bits).NaN? <==> bits > Infinity(fmt)
    ensures bits == Infinity(fmt) ==> FromPattern(fmt, bits) == PosInf
    ensures bits < Infinity(fmt) ==> FromPattern(fmt, bits).Fin? && FromPattern(fmt, bits).r >= 0.0
    ensures bits == 0 ==> FromPattern(fmt, bits) == Fin(0.0)
    ensures bits == One(fmt) ==> FromPattern(fmt, bits) == Fin(1.0)
  {
    hide Pow2, Scale, Magnitude;
    FormatValues(fmt);
    var p := Binade(fmt);
    var e, frac := bits / p, bits % p;
    assert bits == e * p + frac;
    ExponentOf(fmt, bits);
    PatternParts(fmt, false, e, frac);
    PatternParts(fmt, true, e, frac);
    if e == 0 { MagnitudeZero(fmt, frac); }
    if bits < Infinity(fmt) { MagnitudeSign(fmt, e, frac); }
    if bits == One(fmt) {
      ModUnique(bits, p, fmt.Bias(), 0);
      MagnitudeOne(fmt);
    }
  }

  lemma ExponentOf(fmt: Format, bits: nat)
    requires bits < SignBit(fmt)
    ensures bits / Binade(fmt) * Binade(fmt) <= Infinity(fmt)
    ensures bits >= Infinity(fmt) <==> bits / Binade(fmt) == Pow2(fmt.X()) - 1
    ensures bits == Infinity(fmt) <==> bits / Binade(fmt) == Pow2(fmt.X()) - 1 && bits % Binade(fmt) == 0
  {
    hide Pow2;
    FormatValues(fmt);
  }

  lemma MagnitudeZero(fmt: Format, frac: nat)
    ensures frac == 0 ==> Magnitude(fmt, 0, frac) == 0.0
  {
    hide Scale;
  }

  lemma MagnitudeSign(fmt: Format, e: nat, frac: nat)
    ensures Magnitude(fmt, e, frac) >= 0.0
  {
    hide Scale;
  }

  lemma MagnitudeOne(fmt: Format)
    ensures Magnitude(fmt, fmt.Bias(), 0) == 1.0
  {
    hide Pow2, Scale;
    Inverse(fmt.M());
  }

  lemma Inverse(m: int)
    requires m > 0
    ensures Pow2(m) as real * Scale(-m) == 1.0
  {
    var p := Pow2(m);
    assert Scale(-m) == 1.0 / p as real;
    hide Pow2, Scale;
    assert p as real * (1.0 / p as real) == 1.0;
  }

  /** Inside a binade the values are evenly spaced from its first on, which is as many steps
      from zero; the first binade is spaced as what lies below it. */
  lemma PatternSpacing(fmt: Format, e: nat, frac: nat)
    requires e * Binade(fmt) < Infinity(fmt) && frac < Binade(fmt)
    ensures Value(fmt, e, frac) == Value(fmt, e, 0) + frac as real * (Value(fmt, e, 1) - Value(fmt, e, 0))
    ensures e > 0 ==> Value(fmt, e, 0) == Binade(fmt) as real * (Value(fmt, e, 1) - Value(fmt, e, 0))
    ensures Value(fmt, 0, 1) - Value(fmt, 0, 0) == Value(fmt, 1, 1) - Value(fmt, 1, 0)
  {
    hide Pow2, Scale, FromPattern, Value;
    SpacingIs(fmt, e);
    SpacingIs(fmt, 0);
    SpacingIs(fmt, 1);
    ValueIs(fmt, e, frac);
    ValueIs(fmt, e, 0);
    FormatValues(fmt);
    Spread(Binade(fmt) as real, frac as real, Scale((if e == 0 then 1 else e) - fmt.Bias() - fmt.M()));
  }

  lemma SpacingIs(fmt: Format, e: nat)
    requires e * Binade(fmt) < Infinity(fmt)
    ensures Value(fmt, e, 1) - Value(fmt, e, 0) == Scale((if e == 0 then 1 else e) - fmt.Bias() - fmt.M())
  {
    hide Pow2, Scale, FromPattern, Value;
    FormatValues(fmt);
    ValueIs(fmt, e, 0);
    ValueIs(fmt, e, 1);
    Spread(Binade(fmt) as real, 1.0, Scale(e - fmt.Bias() - fmt.M()));
  }

  /** The next binade is the same at twice the size. */
  lemma PatternDoubling(fmt: Format, e: nat, frac: nat)
    requires e > 0 && (e + 1) * Binade(fmt) < Infinity(fmt) && frac < Binade(fmt)
    ensures Value(fmt, e + 1, frac) == 2.0 * Value(fmt, e, frac)
  {
    hide Pow2, Scale, FromPattern, Value;
    FormatValues(fmt);
    ValueIs(fmt, e, frac);
    ValueIs(fmt, e + 1, frac);
    ScaleStep(e - fmt.Bias() - fmt.M());
    Regroup((Binade(fmt) + frac) as real, 2.0, Scale(e - fmt.Bias() - fmt.M()));
  }

  /** The value of a finite non-negative pattern. */
  function Value(fmt: Format, e: nat, frac: nat): real {
    var f := FromPattern(fmt, e * Binade(fmt) + frac);
    if f.Fin? then f.r else 0.0
  }

  lemma ValueIs(fmt: Format, e: nat, frac: nat)
    requires e * Binade(fmt) < Infinity(fmt) && frac < Binade(fmt)
    ensures Value(fmt, e, frac) == Magnitude(fmt, e, frac)
  {
    hide Pow2, Scale, Magnitude, FromPattern;
    FormatValues(fmt);
    PatternParts(fmt, false, e, frac);
  }

  lemma Spread(p: real, frac: real, s: real)
    ensures (p + frac) * s == p * s + frac * s
  {
  }

  // ----- integers as 64-bit floats

  /** The exponent of the last place an integer of this size keeps in 53 bits. */
  function LastPlace(n: nat): (j: nat)
    ensures n < TWO_53 * Pow2(j)
    ensures j > 0 ==> n >= TWO_52 * Pow2(j)
  {
    if n < TWO_53 then 0 else 1 + LastPlace(n / 2)
  }

  /** To the nearest multiple of `u`, a tie to the even one. */
  function ToMultiple(n: nat, u: nat): nat
    requires u > 0
  {
    var q, rem := n / u, n % u;
    (if 2 * rem > u || (2 * rem == u && q % 2 == 1) then q + 1 else q) * u
  }

  /** Half-way between two multiples, the even one is taken. */
  lemma TieToEven(n: nat, u: nat)
    requires u > 0 && 2 * (n % u) == u
    ensures ToMultiple(n, u) / u % 2 == 0
  {
    ModUnique(n / u * u, u, n / u, 0);
    ModUnique((n / u + 1) * u, u, n / u + 1, 0);
  }

  function RoundedNat(n: nat): nat { ToMultiple(n, Pow2(LastPlace(n))) }

  /** `n as f64` */
  function Rounded(n: int): real {
    if n < 0 then -(RoundedNat(-n) as real) else RoundedNat(n) as real
  }

  function Scaled(c: int, k: int): real { c as real * Scale(k) }

  /** A value with 53 significant bits. */
  ghost predicate Storable(r: real) {
    exists c: int, k: int :: -TWO_53 <= c <= TWO_53 && Scaled(c, k) == r
  }

  function Distance(a: real, b: real): real { if a < b then b - a else a - b }

  lemma MultipleNear(n: nat, u: nat)
    requires u > 0
    ensures n / u * u <= n < (n / u + 1) * u
    ensures ToMultiple(n, u) == n / u * u || ToMultiple(n, u) == (n / u + 1) * u
    ensures ToMultiple(n, u) - n <= (n / u + 1) * u - n && n - ToMultiple(n, u) <= n - n / u * u
    ensures Distance(ToMultiple(n, u) as real, n as real) <= Distance((n / u * u) as real, n as real)
    ensures Distance(ToMultiple(n, u) as real, n as real) <= Distance(((n / u + 1) * u) as real, n as real)
  {
    assert (n / u + 1) * u == n / u * u + u;
    assert n == n / u * u + n % u;
  }

  lemma ScaleNat(j: nat)
    ensures Scale(j) == Pow2(j) as real
  {
  }

  /** No value with 53 significant bits lies strictly between two neighbouring multiples. */
  lemma NothingBetween(q: nat, j: nat, c: int, k: int)
    requires c <= TWO_53 && j > 0 && q >= TWO_52
    ensures Scaled(c, k) <= (q * Pow2(j)) as real || Scaled(c, k) >= ((q + 1) * Pow2(j)) as real
  {
    hide Scale, Pow2, Scaled;
    AsScaled(q, j);
    AsScaled(q + 1, j);
    if k >= j {
      HighScale(c, k, j);
      ScaledOrder(if c * Pow2(k - j) <= q then c * Pow2(k - j) else q + 1, if c * Pow2(k - j) <= q then q else c * Pow2(k - j), j);
    } else {
      LowScale(c, k, j);
      ScaledOrder(TWO_52, q, j);
    }
  }

  lemma AsScaled(q: nat, j: nat)
    ensures Scaled(q, j) == (q * Pow2(j)) as real
  {
    hide Scale, Pow2;
    ScaleNat(j);
    assert q as real * Pow2(j) as real == (q * Pow2(j)) as real;
  }

  lemma ScaledOrder(a: int, b: int, j: int)
    requires a <= b
    ensures Scaled(a, j) <= Scaled(b, j)
  {
    hide Scale;
    MulMost(a as real, b as real, Scale(j));
  }

  lemma HighScale(c: int, k: int, j: int)
    requires k >= j
    ensures Scaled(c, k) == Scaled(c * Pow2(k - j), j)
  {
    hide Scale, Pow2;
    ScaleUp(j, k - j);
    Regroup(c as real, Pow2(k - j) as real, Scale(j));
    assert (c * Pow2(k - j)) as real == c as real * Pow2(k - j) as real;
  }

  lemma LowScale(c: int, k: int, j: int)
    requires c <= TWO_53 && k < j
    ensures Scaled(c, k) <= Scaled(TWO_52, j)
  {
    hide Scale;
    MulMost(c as real, TWO_53 as real, Scale(k));
    ScaleMonotone(k, j - 1);
    MulMostRight(TWO_53 as real, Scale(k), Scale(j - 1));
    ScaleStep(j - 1);
    assert TWO_53 as real * Scale(j - 1) == TWO_52 as real * (2.0 * Scale(j - 1));
  }

  /** A value with 53 significant bits is no nearer to an integer than what it is rounded to. */
  lemma NearestNat(n: nat, r: real)
    requires Storable(r)
    ensures Distance(RoundedNat(n) as real, n as real) <= Distance(r, n as real)
  {
    hide Scale, Pow2, ToMultiple, Scaled;
    var c: int, k: int :| -TWO_53 <= c <= TWO_53 && Scaled(c, k) == r;
    var j := LastPlace(n);
    var u := Pow2(j);
    MultipleNear(n, u);
    if j == 0 {
      OneExact(n);
    } else {
      QuotientLeast(n, TWO_52, u);
      NothingBetween(n / u, j, c, k);
    }
  }

  lemma OneExact(n: nat)
    ensures Pow2(0) == 1 && ToMultiple(n, 1) == n
  {
  }

  lemma QuotientLeast(n: nat, q: nat, u: nat)
    requires u > 0 && n >= q * u
    ensures n / u >= q
  {
    if n / u < q { MulNat(u, n / u + 1, q); }
  }

  lemma StorableNegated(r: real)
    requires Storable(r)
    ensures Storable(-r)
  {
    hide Scale;
    var c: int, k: int :| -TWO_53 <= c <= TWO_53 && Scaled(c, k) == r;
    assert Scaled(-c, k) == -r;
  }

  /** Rounding is to a nearest value with 53 significant bits, and keeps integers of that many. */
  lemma RoundedNearest(n: int, r: real)
    requires Storable(r)
    ensures Distance(Rounded(n), n as real) <= Distance(r, n as real)
  {
    hide RoundedNat, Storable;
    if n < 0 {
      StorableNegated(r);
      NearestNat(-n, -r);
    } else {
      NearestNat(n, r);
    }
  }

  lemma RoundedSmall(n: int)
    requires -TWO_53 <= n <= TWO_53
    ensures Rounded(n) == n as real
  {
    hide Scale;
    assert Scaled(n, 0) == n as real by { ScaleNat(0); }
    RoundedNearest(n, n as real);
  }

  lemma RoundedStorable(n: int)
    ensures Storable(Rounded(n))
  {
    hide Storable;
    if n < 0 {
      NatStorable(-n);
      StorableNegated(RoundedNat(-n) as real);
    } else {
      NatStorable(n);
    }
  }

  lemma NatStorable(n: nat)
    ensures Storable(RoundedNat(n) as real)
  {
    hide Pow2, ToMultiple, Scale, Scaled, Storable;
    var j := LastPlace(n);
    var u := Pow2(j);
    MultipleNear(n, u);
    QuotientMost(n, TWO_53, u);
    MultipleStorable(if ToMultiple(n, u) == n / u * u then n / u else n / u + 1, j);
  }

  lemma MultipleStorable(c: nat, j: nat)
    requires c <= TWO_53
    ensures Storable((c * Pow2(j)) as real)
  {
    hide Pow2, Scale;
    AsScaled(c, j);
  }

  lemma QuotientMost(n: nat, q: nat, u: nat)
    requires u > 0 && n < q * u
    ensures n / u < q
  {
    if n / u >= q { MulNat(u, q, n / u); }
  }

  /** Rounding never moves an integer past a float. */
  lemma RoundedSide(n: int, r: real)
    requires Storable(r)
    ensures n as real < r ==> Rounded(n) <= r
    ensures n as real > r ==> Rounded(n) >= r
    ensures n as real == r ==> Rounded(n) == r
  {
    hide Rounded, Storable;
    RoundedNearest(n, r);
  }

  /** Every finite pattern is such a value. */
  lemma PatternStorable(fmt: Format, bits: nat)
    requires FromPattern(fmt, bits).Fin?
    ensures Storable(FromPattern(fmt, bits).r)
  {
    hide Scale, Pow2, Storable;
    var p, x := Pow2(fmt.M()), Pow2(fmt.X());
    MagnitudeStorable(fmt, bits / p % x, bits % p);
    StorableNegated(Magnitude(fmt, bits / p % x, bits % p));
  }

  lemma MagnitudeStorable(fmt: Format, e: nat, frac: nat)
    requires frac < Pow2(fmt.M())
    ensures Storable(Magnitude(fmt, e, frac))
  {
    hide Scale, Pow2;
    FractionRoom();
    if e == 0 { assert Scaled(frac, 1 - fmt.Bias() - fmt.M()) == Magnitude(fmt, e, frac); }
    else { assert Scaled(Pow2(fmt.M()) + frac, e - fmt.Bias() - fmt.M()) == Magnitude(fmt, e, frac); }
  }

  lemma FractionRoom()
    ensures Pow2(23) == 0x80_0000 && Pow2(52) == TWO_52
  {
    Pow2Values();
    Pow2Add(31, 21);
    Pow2Add(8, 15);
    assert Pow2(21) == 0x20_0000;
  }
}
