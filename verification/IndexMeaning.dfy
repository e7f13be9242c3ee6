/** What the index makes of any predicate: its time comparisons cut the window, its symbol
    equalities intersect the symbol set, and its `Or`s of symbols unite with it. */
module IndexMeaning {
  import opened Formats
  import opened Meta
  import opened MetaScan
  import opened Order
  import opened Predicates

  ghost predicate InWindow(acc: Acc, t: nat) { acc.lo <= t < acc.hi }

  /** Whether a symbol is in the set; nothing before any symbol condition. */
  ghost function InSet(acc: Acc, j: nat): Option<bool> {
    if acc.syms.None? then None else Some(j in acc.syms.value)
  }

  /** A row's standing in the symbol set after a predicate. */
  ghost function Standing(p: Predicate, s: Option<bool>, row: RowView): Option<bool>
    decreases p, 1
  {
    match p
    case And(cs) => StandingAll(cs, s, row)
    case Or(cs) => if AllSymEq(cs) then Some((s.Some? && s.value) || Eval(p, row)) else s
    case Not(_) => s
    case Cmp(_, _, _) => if IsSymEq(p) then Some((s.None? || s.value) && Eval(p, row)) else s
  }

  ghost function StandingAll(cs: seq<Predicate>, s: Option<bool>, row: RowView): Option<bool>
    decreases cs, 0
  {
    if cs == [] then s else StandingAll(cs[1..], Standing(cs[0], s, row), row)
  }

  /** The time comparisons the index looks at. */
  ghost predicate TimesHold(p: Predicate, row: RowView) {
    match p
    case And(cs) => forall c | c in cs :: TimesHold(c, row)
    case Cmp(f, op, lit) => f == Some(TIME) && op != Ne && Pattern(lit).Some? ==> Eval(p, row)
    case _ => true
  }

  /** The compiled condition, whatever the predicate: window and symbol set each move as
      the predicate says. */
  lemma {:induction false} CompiledMeans(idx: Index, p: Predicate, acc: Acc, j: nat, t: nat, row: RowView)
    requires idx.Valid() && LexIncreasing(idx.names) && OnGrid(idx, j, t, row) && PlainTimes(p)
    ensures InWindow(Compiled(idx, p, acc), t) <==> InWindow(acc, t) && TimesHold(p, row)
    ensures InSet(Compiled(idx, p, acc), j) == Standing(p, InSet(acc, j), row)
    decreases p, 1
  {
    match p
    case And(cs) => CompiledAllMeans(idx, cs, acc, j, t, row);
    case Or(cs) => OrMeans(idx, cs, acc, j, t, row);
    case Not(_) =>
    case Cmp(Some(f), op, lit) => CmpMeans(idx, f, op, lit, acc, j, t, row);
    case Cmp(None, _, _) =>
  }

  lemma {:induction false} CompiledAllMeans(idx: Index, cs: seq<Predicate>, acc: Acc, j: nat, t: nat, row: RowView)
    requires idx.Valid() && LexIncreasing(idx.names) && OnGrid(idx, j, t, row) && forall c | c in cs :: PlainTimes(c)
    ensures InWindow(CompiledAll(idx, cs, acc), t) <==> InWindow(acc, t) && forall c | c in cs :: TimesHold(c, row)
    ensures InSet(CompiledAll(idx, cs, acc), j) == StandingAll(cs, InSet(acc, j), row)
    decreases cs, 0
  {
    if cs != [] {
      CompiledMeans(idx, cs[0], acc, j, t, row);
      CompiledAllMeans(idx, cs[1..], Compiled(idx, cs[0], acc), j, t, row);
      assert cs == [cs[0]] + cs[1..];
    }
  }

  lemma CmpMeans(idx: Index, f: string, op: CmpOp, lit: Scalar, acc: Acc, j: nat, t: nat, row: RowView)
    requires idx.Valid() && LexIncreasing(idx.names) && OnGrid(idx, j, t, row) && (f == TIME ==> PlainTime(lit))
    ensures var p := Cmp(Some(f), op, lit);
            && (InWindow(CompiledCmp(idx, f, op, lit, acc), t) <==> InWindow(acc, t) && TimesHold(p, row))
            && InSet(CompiledCmp(idx, f, op, lit, acc), j) == Standing(p, InSet(acc, j), row)
  {
    hide LexLess, LowerBound, NameIndex;
    if f == SYM && op == Eq && lit.StrLit? {
      IdMeaning(idx.names, lit.s, j);
      if IdOf(idx.names, lit.s).Some? && acc.syms.Some? { RetainMembers(acc.syms.value, IdOf(idx.names, lit.s).value); }
    } else if f == TIME && Pattern(lit).Some? {
      NarrowMeaning(idx, op, lit, Acc(None, acc.lo, acc.hi), j, t);
    }
  }

  /** An `Or` of symbols adds them to a set that is there, and is the set where none is. */
  lemma OrMeans(idx: Index, cs: seq<Predicate>, acc: Acc, j: nat, t: nat, row: RowView)
    requires idx.Valid() && LexIncreasing(idx.names) && OnGrid(idx, j, t, row)
    ensures InWindow(CompiledOr(idx, cs, acc), t) <==> InWindow(acc, t)
    ensures InSet(CompiledOr(idx, cs, acc), j) == Standing(Or(cs), InSet(acc, j), row)
  {
    hide LexLess, IdsOf;
    if AllSymEq(cs) {
      var ids := IdsOf(idx.names, cs);
      IdsMeaning(idx.names, cs, row, j);
      SortIdsMembers(ids);
      if acc.syms.Some? { SortDistinctSorts(acc.syms.value + SortIds(ids)); }
    }
  }

  // ----- when an `Or` after a symbol condition is harmless

  /** The bare row at a grid position. */
  ghost function Bare(idx: Index, j: nat, t: nat): RowView
    requires j < |idx.names| && t < |idx.axis|
  {
    RowView(idx.names[j], idx.axis[t], map[])
  }

  /** The compiled `Or` is right at every position of the grid. */
  ghost predicate OrRight(idx: Index, cs: seq<Predicate>, acc: Acc)
    requires idx.Valid()
  {
    forall j: nat, t: nat | j < |idx.names| && t < |idx.axis| ::
      CompiledOr(idx, cs, acc).Selects(j, t) <==> acc.Selects(j, t) && Eval(Or(cs), Bare(idx, j, t))
  }

  /** The set before the `Or` and the symbols the `Or` knows are the same. */
  ghost predicate SameSymbols(idx: Index, cs: seq<Predicate>, syms: seq<nat>)
    requires AllSymEq(cs)
  {
    forall j: nat | j < |idx.names| :: j in syms <==> j in IdsOf(idx.names, cs)
  }

  /** After a symbol condition, an `Or` of symbols is compiled exactly if and only if the
      window is empty or the `Or` names just the symbols already selected. */
  lemma OrExactIff(idx: Index, cs: seq<Predicate>, acc: Acc)
    requires idx.Valid() && LexIncreasing(idx.names) && AllSymEq(cs) && acc.syms.Some? && acc.hi <= |idx.axis|
    ensures OrRight(idx, cs, acc) <==> acc.lo >= acc.hi || SameSymbols(idx, cs, acc.syms.value)
  {
    hide LexLess, IdsOf, CompiledOr, Eval;
    forall j: nat, t: nat | j < |idx.names| && t < |idx.axis|
      ensures CompiledOr(idx, cs, acc).Selects(j, t) <==> InWindow(acc, t) && (j in acc.syms.value || j in IdsOf(idx.names, cs))
      ensures Eval(Or(cs), Bare(idx, j, t)) <==> j in IdsOf(idx.names, cs)
    {
      UnitesAt(idx, cs, acc, j, t);
    }
    if OrRight(idx, cs, acc) && acc.lo < acc.hi {
      forall j: nat | j < |idx.names|
        ensures j in acc.syms.value <==> j in IdsOf(idx.names, cs)
      {
        assert CompiledOr(idx, cs, acc).Selects(j, acc.lo) <==> acc.Selects(j, acc.lo) && Eval(Or(cs), Bare(idx, j, acc.lo));
      }
    }
  }

  lemma UnitesAt(idx: Index, cs: seq<Predicate>, acc: Acc, j: nat, t: nat)
    requires idx.Valid() && LexIncreasing(idx.names) && AllSymEq(cs) && acc.syms.Some? && j < |idx.names| && t < |idx.axis|
    ensures CompiledOr(idx, cs, acc).Selects(j, t) <==> InWindow(acc, t) && (j in acc.syms.value || j in IdsOf(idx.names, cs))
    ensures Eval(Or(cs), Bare(idx, j, t)) <==> j in IdsOf(idx.names, cs)
  {
    hide LexLess, IdsOf;
    OrMeans(idx, cs, acc, j, t, Bare(idx, j, t));
    IdsMeaning(idx.names, cs, Bare(idx, j, t), j);
  }
}
