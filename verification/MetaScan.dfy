/** Scanning the index: a predicate is compiled to a set of symbols and an axis
    window, and every symbol's share of the window becomes a row range. */
module MetaScan {
  import opened Bits
  import opened Floats
  import opened Formats
  import opened Order
  import opened Meta
  import opened MetaLocate
  import opened Predicates

  /** The compiled condition: `None` stands for every symbol; the window is `[lo, hi)`. */
  datatype Acc = Acc(syms: Option<seq<nat>>, lo: nat, hi: nat) {
    predicate Selects(j: nat, t: nat) {
      (syms.None? || j in syms.value) && lo <= t < hi
    }
  }

  function Max(a: nat, b: nat): nat { if a > b then a else b }

  function Min(a: nat, b: nat): nat { if a < b then a else b }

  // ----- specification of the compiler

  /** How many axis entries lie below `v`: the first position at or past it. */
  function LowerBound(axis: seq<nat>, v: nat): (n: nat)
    ensures n <= |axis|
  {
    if axis == [] then 0
    else if axis[0] < v then 1 + LowerBound(axis[1..], v)
    else 0
  }

  lemma {:induction false} LowerBoundSplits(axis: seq<nat>, v: nat, i: nat)
    requires Increasing(axis) && i < |axis|
    ensures i < LowerBound(axis, v) <==> axis[i] < v
  {
    if axis[0] < v && i > 0 { LowerBoundSplits(axis[1..], v, i - 1); }
  }

  function IdOf(names: seq<Str>, s: Str): Option<nat> {
    if s in names then Some(NameIndex(names, s)) else None
  }

  function NameIndex(names: seq<Str>, s: Str): (i: nat)
    requires s in names
    ensures i < |names| && names[i] == s
  {
    if names[0] == s then 0 else 1 + NameIndex(names[1..], s)
  }

  /** `sort_unstable`, keeping duplicates. */
  function SortIds(s: seq<nat>): seq<nat> {
    if s == [] then [] else InsertId(s[|s| - 1], SortIds(s[..|s| - 1]))
  }

  function InsertId(x: nat, s: seq<nat>): seq<nat> {
    if s == [] then [x] else if x <= s[0] then [x] + s else [s[0]] + InsertId(x, s[1..])
  }

  lemma {:induction false} InsertIdMembers(x: nat, s: seq<nat>)
    ensures forall y: nat :: y in InsertId(x, s) <==> y == x || y in s
  {
    if s != [] {
      assert s == [s[0]] + s[1..];
      if x > s[0] { InsertIdMembers(x, s[1..]); }
    }
  }

  lemma {:induction false} SortIdsMembers(s: seq<nat>)
    ensures forall y: nat :: y in SortIds(s) <==> y in s
  {
    if s != [] {
      var n := |s| - 1;
      assert s == s[..n] + [s[n]];
      SortIdsMembers(s[..n]);
      InsertIdMembers(s[n], SortIds(s[..n]));
    }
  }

  predicate IsSymEq(p: Predicate) {
    p.Cmp? && p.field == Some(SYM) && p.op == Eq && p.value.StrLit?
  }

  predicate AllSymEq(cs: seq<Predicate>) {
    forall c | c in cs :: IsSymEq(c)
  }

  /** The known symbols among the literals. */
  function IdsOf(names: seq<Str>, cs: seq<Predicate>): seq<nat>
    requires AllSymEq(cs)
  {
    if cs == [] then [] else
      var n := |cs| - 1;
      assert cs[n] in cs;
      IdsOf(names, cs[..n]) + (match IdOf(names, cs[n].value.s) case Some(id) => [id] case None => [])
  }

  /** `*f as u64`: towards zero, held inside the word; NaN is 0. */
  function FloatWord(f: Float): (v: nat)
    ensures v < TWO_64
  {
    match f
    case PosInf => TWO_64 - 1
    case Fin(r) => if r < 0.0 then 0 else if r >= TWO_64 as real then TWO_64 - 1 else r.Floor
    case _ => 0
  }

  /** The time literal as an unsigned word, wrapped or truncated. */
  function Pattern(lit: Scalar): Option<nat> {
    match lit
    case IntLit(i) => Some(AsU64(i))
    case UIntLit(u) => Some(u)
    case FloatLit(f) => Some(FloatWord(f))
    case _ => None
  }

  function SaturatingNext(v: nat): nat { if v + 1 < TWO_64 then v + 1 else TWO_64 - 1 }

  function Narrow(axis: seq<nat>, op: CmpOp, v: nat, acc: Acc): Acc {
    var lower, upper := LowerBound(axis, v), LowerBound(axis, SaturatingNext(v));
    match op
    case Eq => acc.(lo := Max(acc.lo, lower), hi := Min(acc.hi, upper))
    case Ge => acc.(lo := Max(acc.lo, lower))
    case Gt => acc.(lo := Max(acc.lo, upper))
    case Le => acc.(hi := Min(acc.hi, upper))
    case Lt => acc.(hi := Min(acc.hi, lower))
    case Ne => acc
  }

  function Retain(s: seq<nat>, id: nat): seq<nat> {
    if s == [] then [] else Retain(s[..|s| - 1], id) + (if s[|s| - 1] == id then [id] else [])
  }

  function CompiledCmp(idx: Index, field: string, op: CmpOp, lit: Scalar, acc: Acc): Acc {
    if field == SYM then
      if op == Eq && lit.StrLit? then
        match IdOf(idx.names, lit.s)
        case Some(id) => acc.(syms := Some(if acc.syms.None? then [id] else Retain(acc.syms.value, id)))
        case None => acc.(syms := Some([]))
      else acc
    else if field == TIME then
      match Pattern(lit)
      case Some(v) => Narrow(idx.axis, op, v, acc)
      case None => acc
    else acc
  }

  function CompiledOr(idx: Index, cs: seq<Predicate>, acc: Acc): Acc {
    if !AllSymEq(cs) then acc
    else
      var ids := SortIds(IdsOf(idx.names, cs));
      acc.(syms := Some(if acc.syms.None? then ids else SortDistinct(acc.syms.value + ids)))
  }

  function Compiled(idx: Index, p: Predicate, acc: Acc): Acc
    decreases p, 1
  {
    match p
    case And(cs) => CompiledAll(idx, cs, acc)
    case Or(cs) => CompiledOr(idx, cs, acc)
    case Not(_) => acc
    case Cmp(Some(f), op, lit) => CompiledCmp(idx, f, op, lit, acc)
    case Cmp(None, _, _) => acc
  }

  function CompiledAll(idx: Index, cs: seq<Predicate>, acc: Acc): Acc
    decreases cs, 0
  {
    if cs == [] then acc else CompiledAll(idx, cs[1..], Compiled(idx, cs[0], acc))
  }

  // ----- what the compiled condition means

  /** A time literal whose unsigned pattern is its value, with room for a successor; a float
      also has to be whole and small enough for every integer around it to be one. */
  predicate PlainTime(lit: Scalar) {
    if lit.FloatLit? then lit.f.Fin? && 0.0 <= lit.f.r < TWO_53 as real && lit.f.r == lit.f.r.Floor as real
    else Number(lit).Some? ==> 0 <= Number(lit).value < TWO_64 - 1
  }

  /** Every time literal is plain. */
  predicate PlainTimes(p: Predicate) {
    match p
    case And(cs) => forall c | c in cs :: PlainTimes(c)
    case Or(cs) => forall c | c in cs :: PlainTimes(c)
    case Not(q) => PlainTimes(q)
    case Cmp(f, _, lit) => f == Some(TIME) ==> PlainTime(lit)
  }

  /** A row of the grid with its key columns filled in. */
  ghost predicate OnGrid(idx: Index, j: nat, t: nat, row: RowView) {
    j < |idx.names| && t < |idx.axis| && row.sym == idx.names[j] && row.time == idx.axis[t]
  }

  lemma NarrowMeaning(idx: Index, op: CmpOp, lit: Scalar, acc: Acc, j: nat, t: nat)
    requires idx.Valid() && t < |idx.axis| && Pattern(lit).Some? && PlainTime(lit)
    ensures Narrow(idx.axis, op, Pattern(lit).value, acc).Selects(j, t)
        <==> acc.Selects(j, t) && (op == Ne || ValueMatches(NumVal(idx.axis[t]), op, lit))
  {
    hide Rounded, LowerBound;
    var v := Pattern(lit).value;
    LowerBoundSplits(idx.axis, v, t);
    LowerBoundSplits(idx.axis, v + 1, t);
    if lit.FloatLit? { WholeFloat(op, idx.axis[t], lit.f); }
  }

  /** Against a whole float of at most 53 bits rounding the integer is harmless. */
  lemma WholeFloat(op: CmpOp, n: nat, f: Float)
    requires f.Fin? && 0.0 <= f.r < TWO_53 as real && f.r == f.r.Floor as real
    ensures FloatWord(f) == f.r.Floor && op.MatchesFloats(Fin(Rounded(n)), f) == op.Matches(Compare(n, FloatWord(f)))
  {
    hide Rounded, Storable;
    if n <= TWO_53 {
      RoundedSmall(n);
    } else {
      RoundedSmall(TWO_53);
      RoundedStorable(TWO_53);
      RoundedSide(n, TWO_53 as real);
    }
  }

  lemma {:induction false} RetainMembers(s: seq<nat>, id: nat)
    ensures forall y: nat :: y in Retain(s, id) <==> y in s && y == id
  {
    if s != [] {
      var n := |s| - 1;
      assert s == s[..n] + [s[n]];
      RetainMembers(s[..n], id);
    }
  }

  lemma IdMeaning(names: seq<Str>, s: Str, j: nat)
    requires LexIncreasing(names) && j < |names|
    ensures IdOf(names, s) == Some(j) <==> names[j] == s
  {
    if s in names && NameIndex(names, s) != j { DistinctNames(names, NameIndex(names, s), j); }
    assert names[j] in names;
  }

  lemma {:induction false} IdsMeaning(names: seq<Str>, cs: seq<Predicate>, row: RowView, j: nat)
    requires LexIncreasing(names) && AllSymEq(cs) && j < |names| && row.sym == names[j]
    ensures j in IdsOf(names, cs) <==> exists c | c in cs :: Eval(c, row)
  {
    if cs != [] {
      var n := |cs| - 1;
      assert cs == cs[..n] + [cs[n]];
      assert cs[n] in cs;
      IdsMeaning(names, cs[..n], row, j);
      IdMeaning(names, cs[n].value.s, j);
    }
  }

  lemma CmpMeaning(idx: Index, f: string, op: CmpOp, lit: Scalar, acc: Acc, j: nat, t: nat, row: RowView)
    requires idx.Valid() && LexIncreasing(idx.names) && OnGrid(idx, j, t, row)
    requires f == TIME ==> PlainTime(lit)
    ensures acc.Selects(j, t) && CmpHolds(Some(f), op, lit, row) ==> CompiledCmp(idx, f, op, lit, acc).Selects(j, t)
    ensures CompiledCmp(idx, f, op, lit, acc).Selects(j, t) ==> acc.Selects(j, t)
    ensures ExactCmp(f, op, lit) && CompiledCmp(idx, f, op, lit, acc).Selects(j, t) ==> CmpHolds(Some(f), op, lit, row)
  {
    hide LexLess, LowerBound, NameIndex;
    if f == SYM && op == Eq && lit.StrLit? {
      IdMeaning(idx.names, lit.s, j);
      if IdOf(idx.names, lit.s).Some? && acc.syms.Some? { RetainMembers(acc.syms.value, IdOf(idx.names, lit.s).value); }
    } else if f == TIME && Pattern(lit).Some? {
      NarrowMeaning(idx, op, lit, acc, j, t);
    }
  }

  /** Comparisons the index decides by itself. */
  predicate ExactCmp(f: string, op: CmpOp, lit: Scalar) {
    || (f == SYM && op == Eq && lit.StrLit?)
    || (f == TIME && op != Ne && Pattern(lit).Some? && PlainTime(lit))
  }

  lemma OrMeaning(idx: Index, cs: seq<Predicate>, acc: Acc, j: nat, t: nat, row: RowView)
    requires idx.Valid() && LexIncreasing(idx.names) && OnGrid(idx, j, t, row)
    ensures acc.Selects(j, t) && Eval(Or(cs), row) ==> CompiledOr(idx, cs, acc).Selects(j, t)
    ensures AllSymEq(cs) && acc.syms.None? ==>
              (CompiledOr(idx, cs, acc).Selects(j, t) <==> acc.Selects(j, t) && Eval(Or(cs), row))
  {
    if AllSymEq(cs) {
      var ids := IdsOf(idx.names, cs);
      IdsMeaning(idx.names, cs, row, j);
      SortIdsMembers(ids);
      if acc.syms.Some? { SortDistinctSorts(acc.syms.value + SortIds(ids)); }
    }
  }

  /** Compiling never loses a row: whatever the predicate, a selected row that satisfies
      it stays selected. */
  lemma {:induction false} CompiledKeeps(idx: Index, p: Predicate, acc: Acc, j: nat, t: nat, row: RowView)
    requires idx.Valid() && LexIncreasing(idx.names) && OnGrid(idx, j, t, row) && PlainTimes(p)
    requires acc.Selects(j, t) && Eval(p, row)
    ensures Compiled(idx, p, acc).Selects(j, t)
    decreases p, 1
  {
    match p
    case And(cs) => CompiledAllKeeps(idx, cs, acc, j, t, row);
    case Or(cs) => OrMeaning(idx, cs, acc, j, t, row);
    case Not(_) =>
    case Cmp(Some(f), op, lit) => CmpMeaning(idx, f, op, lit, acc, j, t, row);
    case Cmp(None, _, _) =>
  }

  lemma {:induction false} CompiledAllKeeps(idx: Index, cs: seq<Predicate>, acc: Acc, j: nat, t: nat, row: RowView)
    requires idx.Valid() && LexIncreasing(idx.names) && OnGrid(idx, j, t, row)
    requires forall c | c in cs :: PlainTimes(c) && Eval(c, row)
    requires acc.Selects(j, t)
    ensures CompiledAll(idx, cs, acc).Selects(j, t)
    decreases cs, 0
  {
    if cs != [] {
      assert cs[0] in cs;
      CompiledKeeps(idx, cs[0], acc, j, t, row);
      CompiledAllKeeps(idx, cs[1..], Compiled(idx, cs[0], acc), j, t, row);
    }
  }

  // ----- the predicates the index decides exactly

  /** Whether compiling leaves a symbol set behind. */
  predicate SetsSyms(p: Predicate) {
    match p
    case And(cs) => exists c | c in cs :: SetsSyms(c)
    case Or(cs) => AllSymEq(cs)
    case Not(_) => false
    case Cmp(f, op, lit) => f == Some(SYM) && op == Eq && lit.StrLit?
  }

  /** Conjunctions of symbol equalities and plain time comparisons, and `Or`s of symbol
      equalities as long as no symbol condition comes before them. */
  predicate Exact(p: Predicate, symsSet: bool)
    decreases p, 1
  {
    match p
    case And(cs) => ExactAll(cs, symsSet)
    case Or(cs) => AllSymEq(cs) && !symsSet
    case Not(_) => false
    case Cmp(Some(f), op, lit) => ExactCmp(f, op, lit)
    case Cmp(None, _, _) => false
  }

  predicate ExactAll(cs: seq<Predicate>, symsSet: bool)
    decreases cs, 0
  {
    cs == [] || (Exact(cs[0], symsSet) && ExactAll(cs[1..], symsSet || SetsSyms(cs[0])))
  }

  lemma {:induction false} CompiledSyms(idx: Index, p: Predicate, acc: Acc)
    ensures Compiled(idx, p, acc).syms.Some? <==> acc.syms.Some? || SetsSyms(p)
    decreases p, 1
  {
    match p
    case And(cs) => CompiledAllSyms(idx, cs, acc);
    case Or(cs) =>
    case Not(_) =>
    case Cmp(_, _, _) =>
  }

  lemma {:induction false} CompiledAllSyms(idx: Index, cs: seq<Predicate>, acc: Acc)
    ensures CompiledAll(idx, cs, acc).syms.Some? <==> acc.syms.Some? || exists c | c in cs :: SetsSyms(c)
    decreases cs, 0
  {
    if cs != [] {
      CompiledSyms(idx, cs[0], acc);
      CompiledAllSyms(idx, cs[1..], Compiled(idx, cs[0], acc));
      assert cs == [cs[0]] + cs[1..];
    }
  }

  /** On the exact fragment the compiled condition is the predicate. */
  lemma {:induction false} CompiledExact(idx: Index, p: Predicate, acc: Acc, j: nat, t: nat, row: RowView)
    requires idx.Valid() && LexIncreasing(idx.names) && OnGrid(idx, j, t, row)
    requires Exact(p, acc.syms.Some?)
    ensures Compiled(idx, p, acc).Selects(j, t) <==> acc.Selects(j, t) && Eval(p, row)
    decreases p, 1
  {
    match p
    case And(cs) => CompiledAllExact(idx, cs, acc, j, t, row);
    case Or(cs) => OrMeaning(idx, cs, acc, j, t, row);
    case Cmp(Some(f), op, lit) => CmpMeaning(idx, f, op, lit, acc, j, t, row);
  }

  lemma {:induction false} CompiledAllExact(idx: Index, cs: seq<Predicate>, acc: Acc, j: nat, t: nat, row: RowView)
    requires idx.Valid() && LexIncreasing(idx.names) && OnGrid(idx, j, t, row)
    requires ExactAll(cs, acc.syms.Some?)
    ensures CompiledAll(idx, cs, acc).Selects(j, t) <==> acc.Selects(j, t) && forall c | c in cs :: Eval(c, row)
    decreases cs, 0
  {
    if cs != [] {
      CompiledExact(idx, cs[0], acc, j, t, row);
      CompiledSyms(idx, cs[0], acc);
      CompiledAllExact(idx, cs[1..], Compiled(idx, cs[0], acc), j, t, row);
      assert cs == [cs[0]] + cs[1..];
    }
  }

  /** An `Or` of symbols after a symbol equality is united with it, not intersected:
      `sym = A and (sym = B)` selects both. */
  lemma OrAfterSymUnites()
    ensures var idx := Index(TimeType.Date32, [5], [[65], [66]], [SymRecord(0, 1, 0), SymRecord(0, 1, 1)]);
            var a := Cmp(Some(SYM), Eq, StrLit([65]));
            var b := Cmp(Some(SYM), Eq, StrLit([66]));
            && idx.Valid() && LexIncreasing(idx.names)
            && Compiled(idx, And([a, Or([b])]), Acc(None, 0, 1)).Selects(0, 0)
            && !Eval(And([a, Or([b])]), RowView([65], 5, map[]))
  {
    var idx := Index(TimeType.Date32, [5], [[65], [66]], [SymRecord(0, 1, 0), SymRecord(0, 1, 1)]);
    var a := Cmp(Some(SYM), Eq, StrLit([65]));
    var b := Cmp(Some(SYM), Eq, StrLit([66]));
    assert LexIncreasing(idx.names) by { assert LexLess([65], [66]); }
    IdMeaning(idx.names, [65], 0);
    SampleUnion(idx, a, b);
    var row, ors := RowView([65], 5, map[]), Or([b]);
    var x: Str, y: Str := [65], [66];
    assert x[0] != y[0];
    assert !Eval(b, row);
    assert forall c | c in [b] :: c == b;
    assert !Eval(ors, row) && ors in [a, ors];
  }

  lemma SampleUnion(idx: Index, a: Predicate, b: Predicate)
    requires IdOf(idx.names, [65]) == Some(0)
    requires a == Cmp(Some(SYM), Eq, StrLit([65])) && b == Cmp(Some(SYM), Eq, StrLit([66]))
    ensures Compiled(idx, And([a, Or([b])]), Acc(None, 0, 1)).Selects(0, 0)
  {
    hide IdOf, IdsOf, SortIds, SortDistinct;
    var one, rest := Acc(Some([0]), 0, 1), [Or([b])];
    var more := [0] + SortIds(IdsOf(idx.names, [b]));
    SortDistinctSorts(more);
    assert more[0] == 0;
    assert [a, Or([b])][1..] == rest && rest[1..] == [];
    assert Compiled(idx, a, Acc(None, 0, 1)) == one;
    assert CompiledAll(idx, rest, one) == CompiledAll(idx, [], CompiledOr(idx, [b], one));
  }
}
