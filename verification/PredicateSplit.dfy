/** Splitting a dataset predicate: the part the index can use, and one sub-predicate for
    each ordinary field. */
module PredicateSplit {
  import opened Formats
  import opened MetaScan
  import opened Predicates

  /** The fields a predicate mentions, each once, in order of first appearance. */
  function AddFields(p: Predicate, out: seq<string>): seq<string>
    decreases p, 1
  {
    match p
    case And(cs) => AddAllFields(cs, out)
    case Or(cs) => AddAllFields(cs, out)
    case Not(q) => AddFields(q, out)
    case Cmp(None, _, _) => out
    case Cmp(Some(f), _, _) => if f in out then out else out + [f]
  }

  function AddAllFields(cs: seq<Predicate>, out: seq<string>): seq<string>
    decreases cs, 0
  {
    if cs == [] then out else AddAllFields(cs[1..], AddFields(cs[0], out))
  }

  lemma {:induction false} FieldsAdded(p: Predicate, out: seq<string>, f: string)
    ensures f in AddFields(p, out) <==> f in out || f in Fields(p)
    decreases p, 1
  {
    match p
    case And(cs) => AllFieldsAdded(cs, out, f);
    case Or(cs) => AllFieldsAdded(cs, out, f);
    case Not(q) => FieldsAdded(q, out, f);
    case Cmp(_, _, _) =>
  }

  lemma {:induction false} AllFieldsAdded(cs: seq<Predicate>, out: seq<string>, f: string)
    ensures f in AddAllFields(cs, out) <==> f in out || exists c | c in cs :: f in Fields(c)
    decreases cs, 0
  {
    if cs != [] {
      FieldsAdded(cs[0], out, f);
      AllFieldsAdded(cs[1..], AddFields(cs[0], out), f);
      assert cs == [cs[0]] + cs[1..];
    }
  }

  function FieldList(p: Predicate): seq<string> { AddFields(p, []) }

  /** Only `sym` and `time`. */
  predicate AllReserved(p: Predicate) { forall f | f in FieldList(p) :: IsReserved(f) }

  /** Exactly one field, an ordinary one. */
  predicate OneField(p: Predicate) { |FieldList(p)| == 1 && !IsReserved(FieldList(p)[0]) }

  lemma ListIsFields(p: Predicate)
    ensures forall f :: f in FieldList(p) <==> f in Fields(p)
  {
    forall f ensures f in FieldList(p) <==> f in Fields(p) { FieldsAdded(p, [], f); }
  }

  // ----- the index part

  /** Comparisons on `sym` and `time`, and `Or`s of nothing else, as a list of conjuncts.
      An `Or` that mentions another field is searched inside. */
  function Collect(p: Predicate, out: seq<Predicate>): seq<Predicate>
    decreases p, 1
  {
    match p
    case And(cs) => CollectAll(cs, out)
    case Or(cs) => if AllReserved(p) then out + [p] else CollectAll(cs, out)
    case Cmp(Some(f), _, _) => if IsReserved(f) then out + [p] else out
    case _ => out
  }

  function CollectAll(cs: seq<Predicate>, out: seq<Predicate>): seq<Predicate>
    decreases cs, 0
  {
    if cs == [] then out else CollectAll(cs[1..], Collect(cs[0], out))
  }

  function Collected(p: Predicate): seq<Predicate> { Collect(p, []) }

  /** What is collected only grows. */
  lemma {:induction false} CollectGrows(p: Predicate, out: seq<Predicate>, c: Predicate)
    ensures c in Collect(p, out) <==> c in out || c in Collect(p, [])
    decreases p, 1
  {
    match p
    case And(cs) => CollectAllGrows(cs, out, c);
    case Or(cs) => CollectAllGrows(cs, out, c);
    case _ =>
  }

  lemma {:induction false} CollectAllGrows(cs: seq<Predicate>, out: seq<Predicate>, c: Predicate)
    ensures c in CollectAll(cs, out) <==> c in out || c in CollectAll(cs, [])
    ensures c in CollectAll(cs, []) <==> exists q | q in cs :: c in Collect(q, [])
    decreases cs, 0
  {
    if cs != [] {
      CollectGrows(cs[0], out, c);
      CollectAllGrows(cs[1..], Collect(cs[0], out), c);
      CollectAllGrows(cs[1..], Collect(cs[0], []), c);
      assert cs == [cs[0]] + cs[1..];
      if c in Collect(cs[0], []) { assert cs[0] in cs; }
      if q :| q in cs[1..] && c in Collect(q, []) { assert q in cs; }
      if q :| q in cs && c in Collect(q, []) { assert q == cs[0] || q in cs[1..]; }
    }
  }

  // ----- the field part

  /** Without field names: what a single-field scan evaluates. */
  function Strip(p: Predicate): Predicate
    decreases p, 1
  {
    match p
    case And(cs) => And(StripAll(cs))
    case Or(cs) => Or(StripAll(cs))
    case Not(q) => Not(Strip(q))
    case Cmp(_, op, lit) => Cmp(None, op, lit)
  }

  function StripAll(cs: seq<Predicate>): seq<Predicate>
    decreases cs, 0
  {
    if cs == [] then [] else [Strip(cs[0])] + StripAll(cs[1..])
  }

  type Groups = seq<(string, Predicate)>

  /** Adds a condition on a field, joining it to what the field already has. */
  function Push(groups: Groups, name: string, sub: Predicate): Groups {
    if groups == [] then [(name, sub)]
    else if groups[0].0 == name then [(name, And([groups[0].1, sub]))] + groups[1..]
    else [groups[0]] + Push(groups[1..], name, sub)
  }

  /** One sub-predicate for each ordinary field; an `Or` or `Not` across fields is refused. */
  function Walk(p: Predicate, groups: Groups): Result<Groups>
    decreases p, 1
  {
    match p
    case And(cs) => WalkAll(cs, groups)
    case Cmp(Some(f), _, _) => Ok(if IsReserved(f) then groups else Push(groups, f, Strip(p)))
    case Cmp(None, _, _) => Ok(groups)
    case _ =>
      if AllReserved(p) then Ok(groups)
      else if OneField(p) then Ok(Push(groups, FieldList(p)[0], Strip(p)))
      else Err(Invalid)
  }

  function WalkAll(cs: seq<Predicate>, groups: Groups): Result<Groups>
    decreases cs, 0
  {
    if cs == [] then Ok(groups) else
      var g :- Walk(cs[0], groups);
      WalkAll(cs[1..], g)
  }

  // ----- meaning

  /** Every comparison names its field. */
  predicate AllNamed(p: Predicate) {
    match p
    case And(cs) => forall c | c in cs :: AllNamed(c)
    case Or(cs) => forall c | c in cs :: AllNamed(c)
    case Not(q) => AllNamed(q)
    case Cmp(f, _, _) => f.Some?
  }

  /** The shapes `Walk` accepts: no `Or` or `Not` over several fields. */
  predicate Splittable(p: Predicate) {
    match p
    case And(cs) => forall c | c in cs :: Splittable(c)
    case Cmp(_, _, _) => true
    case _ => AllReserved(p) || OneField(p)
  }

  lemma {:induction false} WalkAccepts(p: Predicate, groups: Groups)
    ensures Walk(p, groups).Ok? <==> Splittable(p)
    decreases p, 1
  {
    match p
    case And(cs) => WalkAllAccepts(cs, groups);
    case _ =>
  }

  lemma {:induction false} WalkAllAccepts(cs: seq<Predicate>, groups: Groups)
    ensures WalkAll(cs, groups).Ok? <==> forall c | c in cs :: Splittable(c)
    decreases cs, 0
  {
    if cs != [] {
      WalkAccepts(cs[0], groups);
      if Walk(cs[0], groups).Ok? { WalkAllAccepts(cs[1..], Walk(cs[0], groups).value); }
      assert cs == [cs[0]] + cs[1..];
    }
  }

  /** A row's cell of an ordinary field, unless NULL or absent. */
  predicate HasCell(row: RowView, f: string) { f in row.cells && row.cells[f].Some? }

  /** No tested cell is NULL. */
  predicate NonNull(p: Predicate, row: RowView) {
    forall f | f in Fields(p) && !IsReserved(f) :: HasCell(row, f)
  }

  predicate GroupsHold(groups: Groups, row: RowView) {
    forall i :: 0 <= i < |groups| ==> GroupHolds(groups[i], row)
  }

  predicate GroupHolds(g: (string, Predicate), row: RowView) {
    HasCell(row, g.0) && EvalValue(g.1, row.cells[g.0].value)
  }

  /** Stripping field names does not change a single-field predicate. */
  lemma {:induction false} StripMeaning(p: Predicate, f: string, row: RowView)
    requires AllNamed(p) && Fields(p) <= {f} && !IsReserved(f) && HasCell(row, f)
    ensures EvalValue(Strip(p), row.cells[f].value) <==> Eval(p, row)
    decreases p, 1
  {
    match p
    case And(cs) => StripAllMeaning(cs, f, row);
    case Or(cs) => StripAllMeaning(cs, f, row);
    case Not(q) => StripMeaning(q, f, row);
    case Cmp(Some(g), op, lit) => assert g in Fields(p);
  }

  lemma {:induction false} StripAllMeaning(cs: seq<Predicate>, f: string, row: RowView)
    requires forall c | c in cs :: AllNamed(c) && Fields(c) <= {f}
    requires !IsReserved(f) && HasCell(row, f)
    ensures (forall s | s in StripAll(cs) :: EvalValue(s, row.cells[f].value)) <==> (forall c | c in cs :: Eval(c, row))
    ensures (exists s | s in StripAll(cs) :: EvalValue(s, row.cells[f].value)) <==> (exists c | c in cs :: Eval(c, row))
    decreases cs, 0
  {
    if cs != [] {
      var ss := StripAll(cs);
      StripMeaning(cs[0], f, row);
      StripAllMeaning(cs[1..], f, row);
      assert cs == [cs[0]] + cs[1..] && ss == [Strip(cs[0])] + StripAll(cs[1..]);
    }
  }

  /** What the field part of an accepted predicate asks of a row. */
  predicate PartsHold(p: Predicate, row: RowView) {
    match p
    case And(cs) => forall c | c in cs :: PartsHold(c, row)
    case _ => AllReserved(p) || (NonNull(p, row) && Eval(p, row))
  }

  lemma {:induction false} PushMeaning(groups: Groups, name: string, sub: Predicate, row: RowView)
    ensures GroupsHold(Push(groups, name, sub), row) <==> GroupsHold(groups, row) && GroupHolds((name, sub), row)
  {
    hide EvalValue, GroupHolds;
    var out := Push(groups, name, sub);
    GroupsSplit(out, row);
    if groups != [] {
      GroupsSplit(groups, row);
      if groups[0].0 == name { PairHolds(groups[0].1, sub, row, name); }
      else { PushMeaning(groups[1..], name, sub, row); }
    }
  }

  lemma GroupsSplit(groups: Groups, row: RowView)
    ensures groups != [] ==> (GroupsHold(groups, row) <==> GroupHolds(groups[0], row) && GroupsHold(groups[1..], row))
  {
    hide GroupHolds;
    if groups != [] { assert groups == [groups[0]] + groups[1..]; }
  }

  lemma PairHolds(a: Predicate, b: Predicate, row: RowView, f: string)
    ensures GroupHolds((f, And([a, b])), row) <==> GroupHolds((f, a), row) && GroupHolds((f, b), row)
  {
    assert forall c :: c in [a, b] <==> c == a || c == b;
  }

  /** A single-field part, stripped, holds of the cell when the part holds of the row. */
  lemma PartMeaning(p: Predicate, row: RowView)
    requires AllNamed(p) && OneField(p)
    ensures GroupHolds((FieldList(p)[0], Strip(p)), row) <==> NonNull(p, row) && Eval(p, row)
  {
    hide Eval, EvalValue, Fields, AddFields, Strip;
    var f := FieldList(p)[0];
    ListIsFields(p);
    assert f in FieldList(p);
    assert forall g :: g in FieldList(p) ==> g == f;
    if HasCell(row, f) { StripMeaning(p, f, row); }
  }

  lemma CmpIsOneField(f: string, op: CmpOp, lit: Scalar)
    ensures FieldList(Cmp(Some(f), op, lit)) == [f]
  {
  }

  /** The groups hold of a row exactly when every part does. */
  lemma {:induction false} WalkMeaning(p: Predicate, groups: Groups, row: RowView)
    requires AllNamed(p) && Walk(p, groups).Ok?
    ensures GroupsHold(Walk(p, groups).value, row) <==> GroupsHold(groups, row) && PartsHold(p, row)
    decreases p, 1
  {
    hide Eval, EvalValue, NonNull, GroupsHold, Push, AddFields;
    match p
    case And(cs) => WalkAllMeaning(cs, groups, row);
    case Cmp(Some(f), op, lit) =>
      CmpIsOneField(f, op, lit);
      if !IsReserved(f) {
        PushMeaning(groups, f, Strip(p), row);
        PartMeaning(p, row);
      }
    case Or(_) => PartPushed(p, groups, row);
    case Not(_) => PartPushed(p, groups, row);
    case Cmp(None, _, _) =>
  }

  lemma PartPushed(p: Predicate, groups: Groups, row: RowView)
    requires AllNamed(p) && (p.Or? || p.Not?) && (AllReserved(p) || OneField(p))
    ensures GroupsHold(Walk(p, groups).value, row) <==> GroupsHold(groups, row) && PartsHold(p, row)
  {
    hide Eval, EvalValue, NonNull, GroupsHold, Push, AddFields;
    if !AllReserved(p) {
      PushMeaning(groups, FieldList(p)[0], Strip(p), row);
      PartMeaning(p, row);
    }
  }

  lemma {:induction false} WalkAllMeaning(cs: seq<Predicate>, groups: Groups, row: RowView)
    requires (forall c | c in cs :: AllNamed(c)) && WalkAll(cs, groups).Ok?
    ensures GroupsHold(WalkAll(cs, groups).value, row) <==> GroupsHold(groups, row) && forall c | c in cs :: PartsHold(c, row)
    decreases cs, 0
  {
    hide GroupsHold;
    if cs != [] {
      WalkMeaning(cs[0], groups, row);
      WalkAllMeaning(cs[1..], Walk(cs[0], groups).value, row);
      assert cs == [cs[0]] + cs[1..];
    }
  }

  // ----- the two parts together

  /** A conjunct for the index that comes from below an `Or` on another field. */
  predicate Stray(p: Predicate, c: Predicate) {
    match p
    case And(cs) => exists q | q in cs :: Stray(q, c)
    case Or(_) => !AllReserved(p) && c in Collect(p, [])
    case _ => false
  }

  const BLANK: RowView := RowView([], 0, map[])

  /** All strays are true. They mention no field, so no row is needed to tell. */
  predicate StraysHold(p: Predicate) { forall c | c in Collected(p) && Stray(p, c) :: Eval(c, BLANK) }

  /** Without fields a predicate is the same on every row. */
  lemma {:induction false} FieldFree(p: Predicate, a: RowView, b: RowView)
    requires AllNamed(p) && Fields(p) == {}
    ensures Eval(p, a) <==> Eval(p, b)
  {
    CmpHasField(p);
    match p
    case And(cs) => forall c | c in cs ensures Eval(c, a) <==> Eval(c, b) { NoFields(p, cs, c); FieldFree(c, a, b); }
    case Or(cs) => forall c | c in cs ensures Eval(c, a) <==> Eval(c, b) { NoFields(p, cs, c); FieldFree(c, a, b); }
    case Not(q) => FieldFree(q, a, b);
    case Cmp(_, _, _) =>
  }

  lemma CmpHasField(p: Predicate)
    ensures p.Cmp? && p.field.Some? ==> p.field.value in Fields(p)
  {
  }

  lemma NoFields(p: Predicate, cs: seq<Predicate>, c: Predicate)
    requires (p == And(cs) || p == Or(cs)) && Fields(p) == {} && c in cs
    ensures Fields(c) == {}
  {
    assert forall f :: f in Fields(c) ==> f in Fields(p);
  }

  /** What is collected inside a predicate on one ordinary field mentions no field. */
  lemma {:induction false} CollectedFieldFree(p: Predicate, f: string, c: Predicate)
    requires AllNamed(p) && Fields(p) <= {f} && !IsReserved(f) && c in Collect(p, [])
    ensures AllNamed(c) && Fields(c) == {}
    decreases p
  {
    hide AddFields;
    ListIsFields(p);
    CmpHasField(p);
    match p
    case And(cs) =>
      CollectAllGrows(cs, [], c);
      var q :| q in cs && c in Collect(q, []);
      assert forall g :: g in Fields(q) ==> g in Fields(p);
      CollectedFieldFree(q, f, c);
    case Or(cs) =>
      if AllReserved(p) {
        assert forall g :: g in Fields(p) ==> g in FieldList(p) && IsReserved(g);
      } else {
        CollectAllGrows(cs, [], c);
        var q :| q in cs && c in Collect(q, []);
        assert forall g :: g in Fields(q) ==> g in Fields(p);
        CollectedFieldFree(q, f, c);
      }
    case Not(_) =>
    case Cmp(_, _, _) =>
  }

  lemma {:induction false} StrayFieldFree(p: Predicate, c: Predicate)
    requires AllNamed(p) && Splittable(p) && Stray(p, c)
    ensures AllNamed(c) && Fields(c) == {} && c in Collect(p, [])
    decreases p
  {
    hide AddFields, Collect;
    match p
    case And(cs) =>
      var q :| q in cs && Stray(q, c);
      StrayFieldFree(q, c);
      CollectAllGrows(cs, [], c);
      CollectAnd(cs);
    case Or(cs) =>
      OneFieldIs(p);
      CollectedFieldFree(p, FieldList(p)[0], c);
  }

  lemma CollectAnd(cs: seq<Predicate>)
    ensures Collect(And(cs), []) == CollectAll(cs, [])
  {
  }

  lemma OneFieldIs(p: Predicate)
    requires OneField(p)
    ensures Fields(p) == {FieldList(p)[0]} && !AllReserved(p)
  {
    hide AddFields;
    ListIsFields(p);
    assert FieldList(p)[0] in FieldList(p);
    assert forall g :: g in FieldList(p) ==> g == FieldList(p)[0];
  }

  /** A row that satisfies an accepted predicate satisfies every conjunct handed to the
      index but the strays. */
  lemma {:induction false} CollectedHolds(p: Predicate, row: RowView, c: Predicate)
    requires AllNamed(p) && Splittable(p) && Eval(p, row) && c in Collect(p, [])
    ensures Stray(p, c) || Eval(c, row)
    decreases p
  {
    hide AddFields;
    match p
    case And(cs) =>
      CollectAllGrows(cs, [], c);
      var q :| q in cs && c in Collect(q, []);
      CollectedHolds(q, row, c);
    case Or(_) =>
    case Not(_) =>
    case Cmp(_, _, _) =>
  }

  /** For a row that satisfies an accepted predicate, everything handed to the index holds
      of the row if and only if all strays are true. */
  lemma StraysExact(p: Predicate, row: RowView)
    requires AllNamed(p) && Splittable(p) && Eval(p, row)
    ensures (forall c | c in Collected(p) :: Eval(c, row)) <==> StraysHold(p)
  {
    hide Eval, Collect, Stray, Splittable, AllNamed, Fields;
    forall c | c in Collected(p)
      ensures Stray(p, c) || Eval(c, row)
      ensures Stray(p, c) ==> (Eval(c, row) <==> Eval(c, BLANK))
    {
      CollectedHolds(p, row, c);
      if Stray(p, c) {
        StrayFieldFree(p, c);
        FieldFree(c, row, BLANK);
      }
    }
  }

  /** ... and every field part, when no tested cell is NULL. */
  lemma {:induction false} PartsFollow(p: Predicate, row: RowView)
    requires Eval(p, row) && NonNull(p, row)
    ensures PartsHold(p, row)
  {
    match p
    case And(cs) =>
      forall c | c in cs
        ensures PartsHold(c, row)
      {
        assert forall f :: f in Fields(c) ==> f in Fields(p);
        PartsFollow(c, row);
      }
    case _ =>
  }

  /** Conjunctions of comparisons, of `Or`s over `sym` and `time`, and of `Or`s and `Not`s
      over one ordinary field. */
  predicate Supported(p: Predicate) {
    match p
    case And(cs) => forall c | c in cs :: Supported(c)
    case Or(_) => AllReserved(p) || OneField(p)
    case Not(_) => OneField(p)
    case Cmp(f, _, _) => f.Some?
  }

  lemma {:induction false} SupportedSplits(p: Predicate)
    requires Supported(p)
    ensures Splittable(p)
  {
    match p
    case And(cs) => forall c | c in cs ensures Splittable(c) { SupportedSplits(c); }
    case _ =>
  }

  /** For supported predicates the two parts together say no less than the predicate. */
  lemma {:induction false} SupportedMeaning(p: Predicate, row: RowView)
    requires AllNamed(p) && Supported(p) && PartsHold(p, row)
    requires forall c | c in Collect(p, []) :: Eval(c, row)
    ensures Eval(p, row) && NonNull(p, row)
    decreases p
  {
    hide AddFields;
    ListIsFields(p);
    match p
    case And(cs) =>
      forall c | c in cs
        ensures Eval(c, row) && NonNull(c, row)
      {
        forall d | d in Collect(c, [])
          ensures Eval(d, row)
        {
          CollectAllGrows(cs, [], d);
        }
        SupportedMeaning(c, row);
      }
    case Or(_) =>
      if AllReserved(p) { assert p in Collect(p, []); }
    case Not(_) => OneFieldIs(p);
    case Cmp(Some(f), op, lit) =>
      CmpIsOneField(f, op, lit);
      if IsReserved(f) { assert p in Collect(p, []); }
      else { assert f in FieldList(p); }
  }

  lemma {:induction false} CollectedPlain(p: Predicate, c: Predicate)
    requires PlainTimes(p) && c in Collect(p, [])
    ensures PlainTimes(c)
    decreases p
  {
    hide AddFields;
    match p
    case And(cs) =>
      CollectAllGrows(cs, [], c);
      var q :| q in cs && c in Collect(q, []);
      CollectedPlain(q, c);
    case Or(cs) =>
      if !AllReserved(p) {
        CollectAllGrows(cs, [], c);
        var q :| q in cs && c in Collect(q, []);
        CollectedPlain(q, c);
      }
    case Not(_) =>
    case Cmp(_, _, _) =>
  }

  /** An empty `Or` below an `Or` on an ordinary field is taken for a conjunct of its own:
      `f > 1 or (nothing)` holds where `f` is 2, and what is handed to the index holds nowhere. */
  lemma StrayEmptyOr(f: string)
    requires !IsReserved(f)
    ensures var p := Or([Cmp(Some(f), Gt, IntLit(1)), Or([])]);
            var row := RowView([], 0, map[f := Some(NumVal(2))]);
            && AllNamed(p) && Splittable(p) && Eval(p, row) && NonNull(p, row)
            && Or([]) in Collected(p) && !Eval(Or([]), row) && Stray(p, Or([])) && !StraysHold(p)
  {
    var g, e := Cmp(Some(f), Gt, IntLit(1)), Or([]);
    var p := Or([g, e]);
    var row := RowView([], 0, map[f := Some(NumVal(2))]);
    assert [g, e][1..] == [e] && [e][1..] == [];
    CmpIsOneField(f, Gt, IntLit(1));
    assert AddAllFields([e], [f]) == [f];
    assert AddFields(g, []) == [f];
    assert AddAllFields([g, e], []) == [f];
    assert FieldList(p) == [f];
    assert Eval(g, row) && g in [g, e];
    ListIsFields(p);
    assert AddFields(e, []) == [];
    assert FieldList(e) == [] && AllReserved(e);
    assert Collect(e, []) == [e] && Collect(g, []) == [];
    assert CollectAll([e], []) == [e];
    assert CollectAll([g, e], []) == [e];
    assert !AllReserved(p) by { assert f in FieldList(p); }
  }
}
