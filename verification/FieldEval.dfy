/** A predicate over a stretch of one field's values: one flag per row, without regard to
    validity. */
module FieldEval {
  import opened Bits
  import opened Cells
  import opened Floats
  import opened Formats
  import opened Predicates

  /** Two's complement of `s` bytes. */
  function Signed(raw: nat, s: nat): int
    requires s > 0
  {
    if raw < Pow2(8 * s - 1) then raw else raw - Pow2(8 * s)
  }

  predicate IsFloat(dt: DataType) { dt.Float32? || dt.Float64? }

  /** The value of a cell's bytes. */
  function ValueOf(dt: DataType, cell: seq<byte>): Value
    requires |cell| == dt.SizeOf()
  {
    if dt.Bool? then BoolVal(cell[0] != 0)
    else if dt.Float32? then FloatVal(FromPattern(Binary32, FromLe(cell)))
    else if dt.Float64? then FloatVal(FromPattern(Binary64, FromLe(cell)))
    else if dt.IsSigned() then NumVal(Signed(FromLe(cell), dt.SizeOf()))
    else NumVal(FromLe(cell))
  }

  /** The integer `n` of a type whose least value is `lo` and whose patterns are `size` many. */
  predicate ReadsAs(cell: seq<byte>, v: Value, lo: int, size: int)
    requires size > 0
  {
    v.NumVal? && lo <= v.n < lo + size && v.n % size == FromLe(cell)
  }

  /** What each integer type's cells mean: two's complement or unsigned, at the type's width. */
  lemma IntegerValue(dt: DataType, cell: seq<byte>)
    requires |cell| == dt.SizeOf()
    ensures var v := ValueOf(dt, cell);
            match dt
            case Bool => v == BoolVal(cell != [0])
            case Int8 => ReadsAs(cell, v, -0x80, 0x100)
            case Int16 => ReadsAs(cell, v, -0x8000, 0x1_0000)
            case Int32 => ReadsAs(cell, v, -0x8000_0000, 0x1_0000_0000)
            case Date32 => ReadsAs(cell, v, -0x8000_0000, 0x1_0000_0000)
            case Int64 => ReadsAs(cell, v, -0x8000_0000_0000_0000, 0x1_0000_0000_0000_0000)
            case Date64 => ReadsAs(cell, v, -0x8000_0000_0000_0000, 0x1_0000_0000_0000_0000)
            case TimestampUs => ReadsAs(cell, v, -0x8000_0000_0000_0000, 0x1_0000_0000_0000_0000)
            case UInt8 => ReadsAs(cell, v, 0, 0x100)
            case UInt16 => ReadsAs(cell, v, 0, 0x1_0000)
            case UInt32 => ReadsAs(cell, v, 0, 0x1_0000_0000)
            case UInt64 => ReadsAs(cell, v, 0, 0x1_0000_0000_0000_0000)
            case Float32 => true
            case Float64 => true
  {
    hide FromLe, Pow2, FromPattern, Signed;
    Pow2Values();
    ToFromLe(cell);
    if dt.IsSigned() { TwosComplement(FromLe(cell), dt.SizeOf()); }
    if dt.UInt8? || dt.UInt16? || dt.UInt32? || dt.UInt64? { DivBelow(FromLe(cell), Pow2(8 * dt.SizeOf())); }
    if dt.Bool? { assert cell == [cell[0]]; }
  }

  lemma TwosComplement(raw: nat, s: nat)
    requires s > 0 && raw < Pow2(8 * s)
    ensures 0 <= Signed(raw, s) + Pow2(8 * s - 1) < Pow2(8 * s) && Signed(raw, s) % Pow2(8 * s) == raw
  {
    assert Pow2(8 * s) == 2 * Pow2(8 * s - 1);
    hide Pow2;
    ModUnique(Signed(raw, s), Pow2(8 * s), if raw < Pow2(8 * s - 1) then 0 else -1, raw);
  }

  /** A float column's cells are little-endian patterns of its own width. */
  lemma FloatValue(bits: nat)
    ensures bits < TWO_32 ==> |ToLe(bits, 4)| == Float32.SizeOf()
    ensures bits < TWO_32 ==> ValueOf(Float32, ToLe(bits, 4)) == FloatVal(FromPattern(Binary32, bits))
    ensures bits < TWO_64 ==> |ToLe(bits, 8)| == Float64.SizeOf()
    ensures bits < TWO_64 ==> ValueOf(Float64, ToLe(bits, 8)) == FloatVal(FromPattern(Binary64, bits))
  {
    hide FromLe, ToLe, Pow2, FromPattern;
    Pow2Values();
    FromToLe(bits, 4);
    FromToLe(bits, 8);
    if bits < TWO_32 { DivBelow(bits, TWO_32); }
    if bits < TWO_64 { DivBelow(bits, TWO_64); }
  }

  const I64_MAX := 0x7FFF_FFFF_FFFF_FFFF

  lemma SignedRange(cell: seq<byte>, dt: DataType)
    requires |cell| == dt.SizeOf()
    ensures Signed(FromLe(cell), dt.SizeOf()) <= I64_MAX
  {
    ToFromLe(cell);
    Pow2Values();
    MaskMonotone(8 * dt.SizeOf() - 1, 63);
  }

  /** Booleans are compared with booleans and numbers with numbers. */
  predicate CompatibleLit(dt: DataType, lit: Scalar) {
    if dt.Bool? then lit.BoolLit? else Number(lit).Some? || lit.FloatLit?
  }

  predicate Compatible(dt: DataType, p: Predicate) {
    match p
    case And(cs) => forall c | c in cs :: Compatible(dt, c)
    case Or(cs) => forall c | c in cs :: Compatible(dt, c)
    case Not(q) => Compatible(dt, q)
    case Cmp(_, _, lit) => CompatibleLit(dt, lit)
  }

  /** Row `i` of a stretch of values. */
  function RowValue(dt: DataType, values: seq<byte>, rows: nat, i: nat): Value
    requires |values| == rows * dt.SizeOf() && i < rows
  {
    CellFits(dt.SizeOf(), i, rows);
    ValueOf(dt, Cell(values, dt.SizeOf(), i))
  }

  /** The flags say, row by row, whether the predicate holds of the value. */
  ghost predicate Exactly(out: seq<bool>, p: Predicate, dt: DataType, values: seq<byte>, rows: nat)
    requires |values| == rows * dt.SizeOf()
  {
    |out| == rows && forall i :: 0 <= i < rows ==> out[i] == EvalValue(p, RowValue(dt, values, rows, i))
  }

  /** One comparison on every row, dispatched on the column's type and the literal's kind. */
  method EvalCmp(dt: DataType, values: seq<byte>, rows: nat, field: Option<string>, op: CmpOp, lit: Scalar)
    returns (r: Result<seq<bool>>)
    requires |values| == rows * dt.SizeOf()
    ensures r.Ok? <==> CompatibleLit(dt, lit)
    ensures r.Ok? ==> Exactly(r.value, Cmp(field, op, lit), dt, values, rows)
  {
    hide RowValue, CmpOp.Matches, CmpOp.MatchesFloats, Rounded;
    var out: seq<bool> := [];
    if dt.Bool? {
      if !lit.BoolLit? { return Err(Invalid); }
      out := FillBool(values, rows, op, lit.b);
    } else {
      if lit.BoolLit? || lit.StrLit? { return Err(Invalid); }
      if IsFloat(dt) || lit.FloatLit? {
        out := FillFloats(dt, values, rows, op, if lit.FloatLit? then lit.f else Fin(Rounded(Number(lit).value)));
      } else {
        out := EvalIntegers(dt, values, rows, op, lit);
      }
    }
    return Ok(out);
  }

  /** An integer column against an integer: a literal no row can reach is decided once for
      all rows. */
  method EvalIntegers(dt: DataType, values: seq<byte>, rows: nat, op: CmpOp, lit: Scalar) returns (out: seq<bool>)
    requires |values| == rows * dt.SizeOf() && !dt.Bool? && !IsFloat(dt) && Number(lit).Some?
    ensures |out| == rows
    ensures forall i :: 0 <= i < rows ==> out[i] == ValueMatches(RowValue(dt, values, rows, i), op, lit)
  {
    hide ValueOf, CmpOp.Matches;
    if dt.IsSigned() && lit.UIntLit? && lit.u > I64_MAX {
      out := FillAll(rows, op.Matches(-1));
    } else if !dt.IsSigned() && lit.IntLit? && lit.i < 0 {
      out := FillAll(rows, op.Matches(1));
    } else {
      out := FillNumbers(dt, values, rows, op, if lit.IntLit? then lit.i else lit.u);
    }
    forall i | 0 <= i < rows
      ensures out[i] == ValueMatches(RowValue(dt, values, rows, i), op, lit)
    {
      CellFits(dt.SizeOf(), i, rows);
      ValueKind(dt, Cell(values, dt.SizeOf(), i));
      FarLiteral(op, RowValue(dt, values, rows, i), lit);
    }
  }

  method FillBool(values: seq<byte>, rows: nat, op: CmpOp, b: bool) returns (out: seq<bool>)
    requires |values| == rows
    ensures |out| == rows
    ensures forall i :: 0 <= i < rows ==>
              RowValue(Bool, values, rows, i).BoolVal? && out[i] == ValueMatches(RowValue(Bool, values, rows, i), op, BoolLit(b))
  {
    hide CmpOp.Matches;
    out := [];
    for i := 0 to rows
      invariant |out| == i
      invariant forall k :: 0 <= k < i ==>
                  RowValue(Bool, values, rows, k).BoolVal? && out[k] == ValueMatches(RowValue(Bool, values, rows, k), op, BoolLit(b))
    {
      var v := RowValue(Bool, values, rows, i);
      out := out + [op.Matches(Compare(if v.b then 1 else 0, if b then 1 else 0))];
    }
  }

  /** A float cell as it is, an integer one as the nearest 64-bit float. */
  function Widened(v: Value): Float
    requires !v.BoolVal?
  {
    if v.FloatVal? then v.x else Fin(Rounded(v.n))
  }

  method FillFloats(dt: DataType, values: seq<byte>, rows: nat, op: CmpOp, target: Float) returns (out: seq<bool>)
    requires |values| == rows * dt.SizeOf() && !dt.Bool?
    ensures |out| == rows
    ensures forall i :: 0 <= i < rows ==>
              !RowValue(dt, values, rows, i).BoolVal? && (RowValue(dt, values, rows, i).FloatVal? <==> IsFloat(dt))
              && out[i] == op.MatchesFloats(Widened(RowValue(dt, values, rows, i)), target)
  {
    hide CmpOp.MatchesFloats, RowValue, Widened;
    out := [];
    for i := 0 to rows
      invariant |out| == i
      invariant forall k :: 0 <= k < i ==>
                  !RowValue(dt, values, rows, k).BoolVal? && (RowValue(dt, values, rows, k).FloatVal? <==> IsFloat(dt))
                  && out[k] == op.MatchesFloats(Widened(RowValue(dt, values, rows, k)), target)
    {
      RowKind(dt, values, rows, i);
      out := out + [op.MatchesFloats(Widened(RowValue(dt, values, rows, i)), target)];
    }
  }

  method FillNumbers(dt: DataType, values: seq<byte>, rows: nat, op: CmpOp, target: int) returns (out: seq<bool>)
    requires |values| == rows * dt.SizeOf() && !dt.Bool? && !IsFloat(dt)
    ensures |out| == rows
    ensures forall i :: 0 <= i < rows ==>
              RowValue(dt, values, rows, i).NumVal? && out[i] == op.Matches(Compare(RowValue(dt, values, rows, i).n, target))
  {
    hide CmpOp.Matches, RowValue;
    out := [];
    for i := 0 to rows
      invariant |out| == i
      invariant forall k :: 0 <= k < i ==>
                  RowValue(dt, values, rows, k).NumVal? && out[k] == op.Matches(Compare(RowValue(dt, values, rows, k).n, target))
    {
      RowKind(dt, values, rows, i);
      out := out + [op.Matches(Compare(RowValue(dt, values, rows, i).n, target))];
    }
  }

  lemma RowKind(dt: DataType, values: seq<byte>, rows: nat, i: nat)
    requires |values| == rows * dt.SizeOf() && i < rows && !dt.Bool?
    ensures !RowValue(dt, values, rows, i).BoolVal?
    ensures RowValue(dt, values, rows, i).FloatVal? <==> IsFloat(dt)
  {
    hide FromPattern;
  }

  method FillAll(rows: nat, flag: bool) returns (out: seq<bool>)
    ensures |out| == rows && forall i :: 0 <= i < rows ==> out[i] == flag
  {
    out := seq(rows, _ => flag);
  }

  /** What kind of value a type's cells are, and how far they reach. */
  lemma ValueKind(dt: DataType, cell: seq<byte>)
    requires |cell| == dt.SizeOf()
    ensures dt.Bool? <==> ValueOf(dt, cell).BoolVal?
    ensures IsFloat(dt) <==> ValueOf(dt, cell).FloatVal?
    ensures !dt.Bool? && dt.IsSigned() ==> ValueOf(dt, cell).n <= I64_MAX
    ensures !dt.Bool? && !dt.IsSigned() && !IsFloat(dt) ==> ValueOf(dt, cell).n >= 0
  {
    hide FromPattern;
    SignedRange(cell, dt);
  }

  /** A literal beyond every value decides the comparison alone. */
  lemma FarLiteral(op: CmpOp, v: Value, lit: Scalar)
    ensures v.NumVal? && lit.UIntLit? && lit.u > v.n ==> ValueMatches(v, op, lit) == op.Matches(-1)
    ensures v.NumVal? && lit.IntLit? && lit.i < v.n ==> ValueMatches(v, op, lit) == op.Matches(1)
  {
  }

  /** Evaluates a whole predicate; `And` stops at the first all-false intermediate result,
      so an incompatible literal after it goes unnoticed. */
  method EvalPredicate(p: Predicate, dt: DataType, values: seq<byte>, rows: nat) returns (r: Result<seq<bool>>)
    requires |values| == rows * dt.SizeOf()
    ensures Compatible(dt, p) ==> r.Ok?
    ensures r.Ok? ==> Exactly(r.value, p, dt, values, rows)
    decreases p
  {
    hide RowValue;
    match p {
      case Cmp(field, op, lit) =>
        r := EvalCmp(dt, values, rows, field, op, lit);
      case Not(q) =>
        var c := EvalPredicate(q, dt, values, rows);
        if c.Err? { return c; }
        var out := seq(rows, i requires 0 <= i < rows => !c.value[i]);
        return Ok(out);
      case And(cs) =>
        var out := seq(rows, _ => true);
        for k := 0 to |cs|
          invariant |out| == rows
          invariant forall i :: 0 <= i < rows ==> out[i] == AllHold(cs[..k], RowValue(dt, values, rows, i))
        {
          var c := EvalPredicate(cs[k], dt, values, rows);
          if c.Err? { return c; }
          var was := out;
          out := seq(rows, i requires 0 <= i < rows => was[i] && c.value[i]);
          AllHoldMore(cs, k, dt, values, rows);
          if forall i :: 0 <= i < rows ==> !out[i] {
            AllHoldCut(cs, k + 1, dt, values, rows);
            return Ok(out);
          }
        }
        assert cs[..|cs|] == cs;
        return Ok(out);
      case Or(cs) =>
        var out := seq(rows, _ => false);
        for k := 0 to |cs|
          invariant |out| == rows
          invariant forall i :: 0 <= i < rows ==> out[i] == AnyHolds(cs[..k], RowValue(dt, values, rows, i))
        {
          var c := EvalPredicate(cs[k], dt, values, rows);
          if c.Err? { return c; }
          var was := out;
          out := seq(rows, i requires 0 <= i < rows => was[i] || c.value[i]);
          AnyHoldsMore(cs, k, dt, values, rows);
        }
        assert cs[..|cs|] == cs;
        return Ok(out);
    }
  }

  ghost predicate AllHold(cs: seq<Predicate>, v: Value) { forall c | c in cs :: EvalValue(c, v) }

  ghost predicate AnyHolds(cs: seq<Predicate>, v: Value) { exists c | c in cs :: EvalValue(c, v) }

  lemma AllHoldMore(cs: seq<Predicate>, k: nat, dt: DataType, values: seq<byte>, rows: nat)
    requires |values| == rows * dt.SizeOf() && k < |cs|
    ensures forall i :: 0 <= i < rows ==>
              (AllHold(cs[..k + 1], RowValue(dt, values, rows, i))
               <==> AllHold(cs[..k], RowValue(dt, values, rows, i)) && EvalValue(cs[k], RowValue(dt, values, rows, i)))
  {
    hide RowValue, EvalValue;
    assert cs[..k + 1] == cs[..k] + [cs[k]];
  }

  lemma AllHoldCut(cs: seq<Predicate>, k: nat, dt: DataType, values: seq<byte>, rows: nat)
    requires |values| == rows * dt.SizeOf() && k <= |cs|
    ensures forall i :: 0 <= i < rows ==>
              (!AllHold(cs[..k], RowValue(dt, values, rows, i)) ==> !AllHold(cs, RowValue(dt, values, rows, i)))
  {
    hide RowValue, EvalValue;
  }

  lemma AnyHoldsMore(cs: seq<Predicate>, k: nat, dt: DataType, values: seq<byte>, rows: nat)
    requires |values| == rows * dt.SizeOf() && k < |cs|
    ensures forall i :: 0 <= i < rows ==>
              (AnyHolds(cs[..k + 1], RowValue(dt, values, rows, i))
               <==> AnyHolds(cs[..k], RowValue(dt, values, rows, i)) || EvalValue(cs[k], RowValue(dt, values, rows, i)))
  {
    hide RowValue, EvalValue;
    assert cs[..k + 1] == cs[..k] + [cs[k]];
  }

  // ----- integers against floats

  /** Where rounding an integer onto the float it is compared with changes the answer. */
  predicate Lossy(op: CmpOp, below: bool) {
    op == Eq || op == Ne || if below then op == Lt || op == Ge else op == Gt || op == Le
  }

  /** An integer and a float are compared as numbers exactly unless the integer is rounded to
      that very float without being it, and the operator tells the two sides apart. */
  lemma RoundedComparison(op: CmpOp, n: int, f: Float)
    requires f.Fin? ==> Storable(f.r)
    ensures (op.MatchesFloats(Fin(Rounded(n)), f) <==> op.MatchesFloats(Fin(n as real), f))
        <==> !(f == Fin(Rounded(n)) && f.r != n as real && Lossy(op, n as real < f.r))
    ensures -TWO_53 <= n <= TWO_53 ==> Rounded(n) == n as real
  {
    hide Rounded, Storable;
    if f.Fin? { RoundedSide(n, f.r); }
    if -TWO_53 <= n <= TWO_53 { RoundedSmall(n); }
  }

  /** 2^53 + 1 equals the float 2^53. */
  lemma NeighboursEqual()
    ensures ValueMatches(NumVal(TWO_53 + 1), Eq, FloatLit(Fin(TWO_53 as real)))
    ensures !Eq.MatchesFloats(Fin((TWO_53 + 1) as real), Fin(TWO_53 as real))
  {
    assert LastPlace(TWO_53 + 1) == 1 && Pow2(1) == 2;
    assert RoundedNat(TWO_53 + 1) == TWO_53;
  }
}
