/** Time literals as the index takes them: as unsigned words, so that a negative one stands for
    a very large number and a fractional one for the whole number below it. */
module TimePatterns {
  import opened Bits
  import opened Dataset
  import opened Floats
  import opened Formats
  import opened Meta
  import opened MetaLocate
  import opened MetaScan
  import opened MetaScanner
  import opened Predicates
  import opened PredicateSplit
  import opened Ranges

  /** The predicate with every time literal replaced by its unsigned word. */
  function Unsigned(p: Predicate): Predicate
    decreases p, 1
  {
    match p
    case And(cs) => And(UnsignedAll(cs))
    case Or(cs) => Or(UnsignedAll(cs))
    case Not(q) => Not(Unsigned(q))
    case Cmp(f, op, lit) => if f == Some(TIME) && Pattern(lit).Some? then Cmp(f, op, UIntLit(Pattern(lit).value)) else p
  }

  function UnsignedAll(cs: seq<Predicate>): (r: seq<Predicate>)
    ensures |r| == |cs| && forall i :: 0 <= i < |cs| ==> r[i] == Unsigned(cs[i])
    decreases cs, 0
  {
    if cs == [] then [] else [Unsigned(cs[0])] + UnsignedAll(cs[1..])
  }

  // ----- nothing else changes

  lemma {:induction false} UnsignedFields(p: Predicate, out: seq<string>)
    ensures AddFields(Unsigned(p), out) == AddFields(p, out)
    decreases p, 1
  {
    match p
    case And(cs) => UnsignedAllFields(cs, out);
    case Or(cs) => UnsignedAllFields(cs, out);
    case Not(q) => UnsignedFields(q, out);
    case Cmp(_, _, _) =>
  }

  lemma {:induction false} UnsignedAllFields(cs: seq<Predicate>, out: seq<string>)
    ensures AddAllFields(UnsignedAll(cs), out) == AddAllFields(cs, out)
    decreases cs, 0
  {
    if cs != [] {
      UnsignedFields(cs[0], out);
      UnsignedAllFields(cs[1..], AddFields(cs[0], out));
      assert UnsignedAll(cs)[1..] == UnsignedAll(cs[1..]);
    }
  }

  lemma {:induction false} UnsignedElsewhere(p: Predicate)
    requires TIME !in Fields(p)
    ensures Unsigned(p) == p
  {
    match p
    case And(cs) => forall i | 0 <= i < |cs| ensures Unsigned(cs[i]) == cs[i] { FieldsInside(p, cs, i); UnsignedElsewhere(cs[i]); }
    case Or(cs) => forall i | 0 <= i < |cs| ensures Unsigned(cs[i]) == cs[i] { FieldsInside(p, cs, i); UnsignedElsewhere(cs[i]); }
    case Not(q) => UnsignedElsewhere(q);
    case Cmp(_, _, _) => CmpHasField(p);
  }

  lemma FieldsInside(p: Predicate, cs: seq<Predicate>, i: nat)
    requires (p == And(cs) || p == Or(cs)) && i < |cs|
    ensures forall f :: f in Fields(cs[i]) ==> f in Fields(p)
  {
    assert cs[i] in cs;
  }

  lemma UnsignedKinds(p: Predicate)
    ensures AllReserved(Unsigned(p)) <==> AllReserved(p)
    ensures OneField(p) ==> Unsigned(p) == p
    ensures OneField(Unsigned(p)) <==> OneField(p)
  {
    hide AddFields, Unsigned;
    UnsignedFields(p, []);
    if OneField(p) {
      OneFieldIs(p);
      UnsignedElsewhere(p);
    }
  }

  lemma {:induction false} UnsignedCollect(p: Predicate, out: seq<Predicate>)
    ensures Collect(Unsigned(p), UnsignedAll(out)) == UnsignedAll(Collect(p, out))
    decreases p, 1
  {
    UnsignedKinds(p);
    UnsignedAppend(out, p);
    match p
    case And(cs) => UnsignedCollectAll(cs, out);
    case Or(cs) => if !AllReserved(p) { UnsignedCollectAll(cs, out); }
    case Not(_) =>
    case Cmp(_, _, _) =>
  }

  lemma UnsignedAppend(out: seq<Predicate>, p: Predicate)
    ensures UnsignedAll(out + [p]) == UnsignedAll(out) + [Unsigned(p)]
  {
  }

  lemma {:induction false} UnsignedCollectAll(cs: seq<Predicate>, out: seq<Predicate>)
    ensures CollectAll(UnsignedAll(cs), UnsignedAll(out)) == UnsignedAll(CollectAll(cs, out))
    decreases cs, 0
  {
    if cs != [] {
      UnsignedCollect(cs[0], out);
      UnsignedCollectAll(cs[1..], Collect(cs[0], out));
      assert UnsignedAll(cs)[1..] == UnsignedAll(cs[1..]);
    }
  }

  lemma {:induction false} UnsignedWalk(p: Predicate, groups: Groups)
    ensures Walk(Unsigned(p), groups) == Walk(p, groups)
    decreases p, 1
  {
    hide Push, Strip, AddFields;
    UnsignedKinds(p);
    match p
    case And(cs) => UnsignedWalkAll(cs, groups);
    case Or(_) =>
    case Not(_) =>
    case Cmp(_, _, _) =>
  }

  lemma {:induction false} UnsignedWalkAll(cs: seq<Predicate>, groups: Groups)
    ensures WalkAll(UnsignedAll(cs), groups) == WalkAll(cs, groups)
    decreases cs, 0
  {
    if cs != [] {
      UnsignedWalk(cs[0], groups);
      if Walk(cs[0], groups).Ok? { UnsignedWalkAll(cs[1..], Walk(cs[0], groups).value); }
      assert UnsignedAll(cs)[1..] == UnsignedAll(cs[1..]);
    }
  }

  lemma {:induction false} UnsignedCompiled(idx: Index, p: Predicate, acc: Acc)
    ensures Compiled(idx, Unsigned(p), acc) == Compiled(idx, p, acc)
    decreases p, 1
  {
    hide IdOf, IdsOf, SortIds, Narrow;
    match p
    case And(cs) => UnsignedCompiledAll(idx, cs, acc);
    case Or(cs) => UnsignedSyms(cs);
    case Not(_) =>
    case Cmp(_, _, _) =>
  }

  lemma UnsignedSyms(cs: seq<Predicate>)
    ensures AllSymEq(UnsignedAll(cs)) <==> AllSymEq(cs)
    ensures AllSymEq(cs) ==> UnsignedAll(cs) == cs
  {
    var us := UnsignedAll(cs);
    forall i | 0 <= i < |cs|
      ensures IsSymEq(us[i]) <==> IsSymEq(cs[i])
      ensures IsSymEq(cs[i]) ==> us[i] == cs[i]
    {
    }
    if AllSymEq(cs) {
      forall i | 0 <= i < |cs| ensures us[i] == cs[i] { assert cs[i] in cs; }
    }
    if AllSymEq(us) {
      forall i | 0 <= i < |cs| ensures IsSymEq(cs[i]) { assert us[i] in us; }
    }
  }

  lemma {:induction false} UnsignedCompiledAll(idx: Index, cs: seq<Predicate>, acc: Acc)
    ensures CompiledAll(idx, UnsignedAll(cs), acc) == CompiledAll(idx, cs, acc)
    decreases cs, 0
  {
    if cs != [] {
      UnsignedCompiled(idx, cs[0], acc);
      UnsignedCompiledAll(idx, cs[1..], Compiled(idx, cs[0], acc));
      assert UnsignedAll(cs)[1..] == UnsignedAll(cs[1..]);
    }
  }

  /** A scan finds the rows of the predicate read with unsigned time literals. */
  lemma ScanRowsUnsigned(d: Data, ranges: seq<RowRange>, p: Predicate)
    requires d.Valid()
    ensures ScanRows(d, ranges, Some(p)) == ScanRows(d, ranges, Some(Unsigned(p)))
  {
    hide Walk, Collect, Compiled, ReachedUpTo, Data.Valid;
    UnsignedWalk(p, []);
    if Walk(p, []).Ok? {
      var groups := Walk(p, []).value;
      forall row: nat
        ensures Reached(d, ranges, Some(p), groups, row) <==> Reached(d, ranges, Some(Unsigned(p)), groups, row)
      {
        SameIndexPart(d, p, row);
      }
      SameReached(d, ranges, p, groups, d.idx.RowCount());
    }
  }

  lemma SameIndexPart(d: Data, p: Predicate, row: nat)
    requires d.Valid()
    ensures IndexKeeps(d, p, row) <==> IndexKeeps(d, Unsigned(p), row)
  {
    hide Collect, Compiled, Wanted, Data.Valid, Unsigned;
    UnsignedCollect(p, []);
    assert UnsignedAll([]) == [];
    UnsignedCompiled(d.idx, And(Collected(p)), Start(d.idx));
    UnsignedAnd(Collected(p));
  }

  lemma UnsignedAnd(cs: seq<Predicate>)
    ensures Unsigned(And(cs)) == And(UnsignedAll(cs))
  {
  }

  lemma {:induction false} SameReached(d: Data, ranges: seq<RowRange>, p: Predicate, groups: Groups, n: nat)
    requires d.Valid()
    requires forall row: nat :: Reached(d, ranges, Some(p), groups, row) <==> Reached(d, ranges, Some(Unsigned(p)), groups, row)
    ensures ReachedUpTo(d, ranges, Some(p), groups, n) == ReachedUpTo(d, ranges, Some(Unsigned(p)), groups, n)
  {
    hide Reached, Unsigned;
    if n > 0 { SameReached(d, ranges, p, groups, n - 1); }
  }

  // ----- one comparison

  /** An integer literal that fits the word it is held in. */
  predicate Wordly(lit: Scalar) {
    match lit
    case IntLit(i) => -0x8000_0000_0000_0000 <= i < 0x8000_0000_0000_0000
    case UIntLit(u) => u < TWO_64
    case _ => false
  }

  /** Any integer literal, on a time from the epoch on. A non-negative one is decided rightly
      unless it asks for difference from that very time; a negative one if and only if it tests
      (in)equality, the orders coming out reversed. */
  lemma TimeLiteral(idx: Index, op: CmpOp, lit: Scalar, acc: Acc, j: nat, t: nat)
    requires idx.Valid() && t < |idx.axis| && idx.axis[t] < 0x8000_0000_0000_0000
    requires Wordly(lit) && acc.Selects(j, t)
    ensures (Narrow(idx.axis, op, Pattern(lit).value, acc).Selects(j, t) <==> ValueMatches(NumVal(idx.axis[t]), op, lit))
        <==> if Number(lit).value < 0 then op == Eq || op == Ne else !(op == Ne && idx.axis[t] == Number(lit).value)
  {
    hide LowerBound;
    var n := Number(lit).value;
    ModUnique(n, TWO_64, if n < 0 then -1 else 0, if n < 0 then n + TWO_64 else n);
    NarrowSelects(idx, op, Pattern(lit).value, acc, j, t);
  }

  /** What a narrowed window selects, whatever the pattern. */
  lemma NarrowSelects(idx: Index, op: CmpOp, v: nat, acc: Acc, j: nat, t: nat)
    requires idx.Valid() && t < |idx.axis| && idx.axis[t] < TWO_64 - 1 && v < TWO_64
    ensures Narrow(idx.axis, op, v, acc).Selects(j, t)
        <==> acc.Selects(j, t) && (op == Ne || op.Matches(Compare(idx.axis[t], v)))
  {
    LowerBoundSplits(idx.axis, v, t);
    LowerBoundSplits(idx.axis, SaturatingNext(v), t);
  }

  // ----- a lower bound before the epoch

  lemma {:induction false} WindowShrinks(idx: Index, p: Predicate, acc: Acc)
    ensures Compiled(idx, p, acc).lo >= acc.lo && Compiled(idx, p, acc).hi <= acc.hi
    decreases p, 1
  {
    hide LowerBound, IdsOf, SortIds;
    match p
    case And(cs) => WindowShrinksAll(idx, cs, acc);
    case Or(_) =>
    case Not(_) =>
    case Cmp(_, _, _) =>
  }

  lemma {:induction false} WindowShrinksAll(idx: Index, cs: seq<Predicate>, acc: Acc)
    ensures CompiledAll(idx, cs, acc).lo >= acc.lo && CompiledAll(idx, cs, acc).hi <= acc.hi
    decreases cs, 0
  {
    if cs != [] {
      WindowShrinks(idx, cs[0], acc);
      WindowShrinksAll(idx, cs[1..], Compiled(idx, cs[0], acc));
    }
  }

  lemma {:induction false} BoundStays(idx: Index, cs: seq<Predicate>, acc: Acc, i: nat, lit: Scalar)
    requires i < |cs| && cs[i] == Cmp(Some(TIME), Ge, lit) && Pattern(lit).Some?
    ensures CompiledAll(idx, cs, acc).lo >= LowerBound(idx.axis, Pattern(lit).value)
    decreases i
  {
    hide LowerBound, Compiled;
    var next := Compiled(idx, cs[0], acc);
    if i == 0 {
      GeCompiled(idx, lit, acc);
      WindowShrinksAll(idx, cs[1..], next);
    } else {
      BoundStays(idx, cs[1..], next, i - 1, lit);
    }
  }

  lemma GeCompiled(idx: Index, lit: Scalar, acc: Acc)
    requires Pattern(lit).Some?
    ensures Compiled(idx, Cmp(Some(TIME), Ge, lit), acc).lo >= LowerBound(idx.axis, Pattern(lit).value)
  {
    hide LowerBound;
  }

  /** With `time >= i`, `i` before the epoch, among its conjuncts the index keeps no row whose
      time is not. */
  lemma EarlyBound(d: Data, p: Predicate, i: int, row: nat)
    requires d.Valid() && -0x8000_0000_0000_0000 <= i < 0 && Cmp(Some(TIME), Ge, IntLit(i)) in Collected(p)
    requires forall t :: 0 <= t < |d.idx.axis| ==> d.idx.axis[t] < 0x8000_0000_0000_0000
    ensures !IndexKeeps(d, p, row)
  {
    hide Collect, Compiled, LowerBound, Index.Rows;
    var cs := Collected(p);
    var k :| 0 <= k < |cs| && cs[k] == Cmp(Some(TIME), Ge, IntLit(i));
    PatternIs(i);
    BoundStays(d.idx, cs, Start(d.idx), k, IntLit(i));
    AndCompiled(d.idx, cs);
    AxisBelow(d.idx, AsU64(i));
    WindowShrinksAll(d.idx, cs, Start(d.idx));
  }

  lemma AndCompiled(idx: Index, cs: seq<Predicate>)
    ensures Condition(idx, Some(And(cs))) == CompiledAll(idx, cs, Start(idx))
  {
  }

  lemma {:induction false} AxisBelow(idx: Index, v: nat)
    requires idx.Valid() && forall t :: 0 <= t < |idx.axis| ==> idx.axis[t] < v
    ensures LowerBound(idx.axis, v) == |idx.axis|
  {
    hide LowerBound;
    if |idx.axis| > 0 { LowerBoundSplits(idx.axis, v, |idx.axis| - 1); }
  }

  // ----- a float literal

  /** Where a float literal is decided wrongly. Truncation moves the bound up below zero and
      down above it, which tells at the one time it is moved to. */
  predicate Astray(op: CmpOp, f: Float, time: nat) {
    match f
    case NaN => op != Ne && op.Matches(Compare(time, 0))
    case PosInf => false
    case NegInf => time == 0 && (op == Eq || op == Le || op == Gt)
    case Fin(r) =>
      && time == FloatWord(f)
      && (if r < 0.0 then op == Eq || op == Le || op == Gt
          else if r == r.Floor as real then op == Ne
          else op == Eq || op == Lt || op == Ge)
  }

  /** Any float literal, on a time from the epoch on, the two compared as numbers. */
  lemma FloatLiteral(idx: Index, op: CmpOp, f: Float, acc: Acc, j: nat, t: nat)
    requires idx.Valid() && t < |idx.axis| && idx.axis[t] < 0x8000_0000_0000_0000 && acc.Selects(j, t)
    ensures (Narrow(idx.axis, op, Pattern(FloatLit(f)).value, acc).Selects(j, t)
             <==> op.MatchesFloats(Fin(idx.axis[t] as real), f))
        <==> !Astray(op, f, idx.axis[t])
  {
    hide LowerBound;
    NarrowSelects(idx, op, FloatWord(f), acc, j, t);
    if f.Fin? { TruncatedSide(idx.axis[t], f.r); }
  }

  lemma TruncatedSide(n: nat, r: real)
    requires n < 0x8000_0000_0000_0000
    ensures n < FloatWord(Fin(r)) ==> n as real < r
    ensures n > FloatWord(Fin(r)) ==> n as real > r
    ensures n == FloatWord(Fin(r)) ==>
              if r < 0.0 then n as real > r else n as real <= r && (n as real == r <==> r == r.Floor as real)
  {
    if 0.0 <= r < TWO_64 as real {
      assert r.Floor as real <= r < (r.Floor + 1) as real;
    }
  }

  /** A float literal stands for the greatest word not above it, 0 if there is none. */
  lemma FloatWordMeaning(f: Float, u: nat)
    requires u < 0x1_0000_0000_0000_0000
    ensures !f.NaN? && FloatOrder(Fin(u as real), f) <= 0 ==> u <= FloatWord(f)
    ensures u > 0 && (f.NaN? || FloatOrder(Fin(u as real), f) > 0) ==> u > FloatWord(f)
  {
  }

  /** The greatest pattern, one microsecond before the epoch, as a literal: the successor
      saturates, so `Eq` and `Le` miss that very time and `Gt` finds it. */
  lemma LastPattern(idx: Index, op: CmpOp, acc: Acc, j: nat, t: nat)
    requires idx.Valid() && t < |idx.axis| && idx.axis[t] == 0xFFFF_FFFF_FFFF_FFFF && acc.Selects(j, t)
    ensures Narrow(idx.axis, op, 0xFFFF_FFFF_FFFF_FFFF, acc).Selects(j, t) <==> op == Ne || op == Gt || op == Ge
    ensures ValueMatches(NumVal(idx.axis[t]), op, UIntLit(0xFFFF_FFFF_FFFF_FFFF)) <==> op == Eq || op == Le || op == Ge
  {
    hide LowerBound;
    LowerBoundSplits(idx.axis, 0xFFFF_FFFF_FFFF_FFFF, t);
  }

  /** `time < 5.5` holds at time 5, and the index does not select it. */
  lemma FractionLoses()
    ensures TWO_SYMS.Valid() && TWO_SYMS.axis == [5] && Start(TWO_SYMS).Selects(0, 0)
    ensures Eval(Cmp(Some(TIME), Lt, FloatLit(Fin(5.5))), RowView([65], 5, map[]))
    ensures !Compiled(TWO_SYMS, Cmp(Some(TIME), Lt, FloatLit(Fin(5.5))), Start(TWO_SYMS)).Selects(0, 0)
  {
    hide LowerBound, Rounded;
    TwoSymsValid();
    RoundedSmall(5);
    FloatLiteral(TWO_SYMS, Lt, Fin(5.5), Start(TWO_SYMS), 0, 0);
  }

  /** `time >= -5` holds at time 5, and the index selects nothing. */
  lemma NegativeBoundLoses()
    ensures TWO_SYMS.Valid() && Eval(Cmp(Some(TIME), Ge, IntLit(-5)), RowView([65], 5, map[]))
    ensures Start(TWO_SYMS).Selects(0, 0)
    ensures !Compiled(TWO_SYMS, Cmp(Some(TIME), Ge, IntLit(-5)), Start(TWO_SYMS)).Selects(0, 0)
  {
    hide LowerBound;
    TwoSymsValid();
    TimeLiteral(TWO_SYMS, Ge, IntLit(-5), Start(TWO_SYMS), 0, 0);
  }
}
