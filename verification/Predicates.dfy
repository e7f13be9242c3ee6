/** Row predicates and what they mean on one row. */
module Predicates {
  import opened Floats
  import opened Formats
  import opened Order

  datatype CmpOp = Eq | Ne | Lt | Le | Gt | Ge {
    /** The operator on an ordering, given as a signed comparison. */
    predicate Matches(ord: int) {
      match this
      case Eq => ord == 0
      case Ne => ord != 0
      case Lt => ord < 0
      case Le => ord <= 0
      case Gt => ord > 0
      case Ge => ord >= 0
    }

    /** The operator on floats: with NaN on either side only `Ne` holds. */
    predicate MatchesFloats(a: Float, b: Float) {
      if a.NaN? || b.NaN? then Ne? else Matches(FloatOrder(a, b))
    }
  }

  datatype Scalar = BoolLit(b: bool) | IntLit(i: int) | UIntLit(u: nat) | FloatLit(f: Float) | StrLit(s: Str)

  /** A cell's value: every integer column, of any width and sign, is a number, and so is
      every float of either width. */
  datatype Value = BoolVal(b: bool) | NumVal(n: int) | FloatVal(x: Float)

  datatype Predicate =
    | And(children: seq<Predicate>)
    | Or(children: seq<Predicate>)
    | Not(inner: Predicate)
    | Cmp(field: Option<string>, op: CmpOp, value: Scalar)

  const SYM := "sym"
  const TIME := "time"

  predicate IsReserved(name: string) { name == SYM || name == TIME }

  /** One logical row: its key and the cells of the ordinary fields, `None` for NULL. */
  datatype RowView = RowView(sym: Str, time: int, cells: map<string, Option<Value>>)

  function Compare(a: int, b: int): int { a - b }

  function CompareStr(a: Str, b: Str): int {
    if a == b then 0 else if LexLess(a, b) then -1 else 1
  }

  /** The literal as an integer. */
  function Number(lit: Scalar): Option<int> {
    match lit
    case IntLit(i) => Some(i)
    case UIntLit(u) => Some(u)
    case _ => None
  }

  /** Booleans compare with booleans, integers with integers, and a float with an integer
      rounded to a float; anything else never holds. */
  predicate ValueMatches(v: Value, op: CmpOp, lit: Scalar) {
    match v
    case BoolVal(b) => lit.BoolLit? && op.Matches(Compare(if b then 1 else 0, if lit.b then 1 else 0))
    case NumVal(n) =>
      if lit.FloatLit? then op.MatchesFloats(Fin(Rounded(n)), lit.f)
      else Number(lit).Some? && op.Matches(Compare(n, Number(lit).value))
    case FloatVal(x) =>
      if lit.FloatLit? then op.MatchesFloats(x, lit.f)
      else Number(lit).Some? && op.MatchesFloats(x, Fin(Rounded(Number(lit).value)))
  }

  /** A bare comparison (no field) concerns the single field being scanned. */
  predicate CmpHolds(field: Option<string>, op: CmpOp, lit: Scalar, row: RowView) {
    match field
    case None => true
    case Some(f) =>
      if f == SYM then lit.StrLit? && op.Matches(CompareStr(row.sym, lit.s))
      else if f == TIME then ValueMatches(NumVal(row.time), op, lit)
      else f in row.cells && row.cells[f].Some? && ValueMatches(row.cells[f].value, op, lit)
  }

  /** A symbol is compared with a string literal by bytes. */
  lemma SymComparison(row: RowView, s: Str)
    ensures CmpHolds(Some(SYM), Eq, StrLit(s), row) <==> row.sym == s
    ensures CmpHolds(Some(SYM), Ne, StrLit(s), row) <==> row.sym != s
    ensures CmpHolds(Some(SYM), Lt, StrLit(s), row) <==> ByteOrder(row.sym, s)
    ensures CmpHolds(Some(SYM), Gt, StrLit(s), row) <==> ByteOrder(s, row.sym)
    ensures CmpHolds(Some(SYM), Le, StrLit(s), row) <==> row.sym == s || ByteOrder(row.sym, s)
    ensures CmpHolds(Some(SYM), Ge, StrLit(s), row) <==> row.sym == s || ByteOrder(s, row.sym)
  {
    hide LexLess, ByteOrder;
    LexMeaning(row.sym, s);
    LexMeaning(s, row.sym);
    LexTotal(row.sym, s);
    LexIrreflexive(s);
    if LexLess(row.sym, s) { LexAsymmetric(row.sym, s); }
  }

  predicate Eval(p: Predicate, row: RowView) {
    match p
    case And(cs) => forall c | c in cs :: Eval(c, row)
    case Or(cs) => exists c | c in cs :: Eval(c, row)
    case Not(q) => !Eval(q, row)
    case Cmp(f, op, lit) => CmpHolds(f, op, lit, row)
  }

  /** A field-level predicate on one cell's value; field names play no part. */
  predicate EvalValue(p: Predicate, v: Value) {
    match p
    case And(cs) => forall c | c in cs :: EvalValue(c, v)
    case Or(cs) => exists c | c in cs :: EvalValue(c, v)
    case Not(q) => !EvalValue(q, v)
    case Cmp(_, op, lit) => ValueMatches(v, op, lit)
  }

  /** The fields a predicate mentions. */
  function Fields(p: Predicate): set<string> {
    match p
    case And(cs) => set c, f | c in cs && f in Fields(c) :: f
    case Or(cs) => set c, f | c in cs && f in Fields(c) :: f
    case Not(q) => Fields(q)
    case Cmp(None, _, _) => {}
    case Cmp(Some(f), _, _) => {f}
  }
}
