/** Orders: increasing number lists, and byte strings compared lexicographically. */
module Order {
  import opened Bits

  type Str = seq<byte>

  predicate Increasing(s: seq<nat>) {
    forall i, j :: 0 <= i < j < |s| ==> s[i] < s[j]
  }

  /** An increasing list is determined by its members. */
  lemma {:induction false} IncreasingUnique(a: seq<nat>, b: seq<nat>)
    requires Increasing(a) && Increasing(b)
    requires forall x: nat :: x in a <==> x in b
    ensures a == b
    decreases |a|
  {
    assert b != [] ==> b[0] in b;
    if a == [] {
    } else {
      assert a[0] in b;
      assert b[0] in a;
      assert a[0] == b[0];
      forall x: nat
        ensures x in a[1..] <==> x in b[1..]
      {
        if x in a[1..] { assert x in a; assert x != a[0]; assert x in b; }
        if x in b[1..] { assert x in b; assert x != b[0]; assert x in a; }
      }
      IncreasingUnique(a[1..], b[1..]);
    }
  }

  /** `sort_unstable` then `dedup`. */
  function SortDistinct(s: seq<nat>): seq<nat> {
    if s == [] then [] else InsertDistinct(s[|s| - 1], SortDistinct(s[..|s| - 1]))
  }

  function InsertDistinct(x: nat, s: seq<nat>): seq<nat> {
    if s == [] then [x]
    else if x < s[0] then [x] + s
    else if x == s[0] then s
    else [s[0]] + InsertDistinct(x, s[1..])
  }

  lemma {:induction false} InsertDistinctMembers(x: nat, s: seq<nat>)
    ensures forall y: nat :: y in InsertDistinct(x, s) <==> y == x || y in s
  {
    if s != [] {
      assert s == [s[0]] + s[1..];
      if x > s[0] { InsertDistinctMembers(x, s[1..]); }
    }
  }

  lemma {:induction false} InsertDistinctIncreasing(x: nat, s: seq<nat>)
    requires Increasing(s)
    ensures Increasing(InsertDistinct(x, s))
  {
    if s != [] && x > s[0] {
      InsertDistinctIncreasing(x, s[1..]);
      InsertDistinctMembers(x, s[1..]);
      var t := InsertDistinct(x, s[1..]);
      forall j | 0 <= j < |t|
        ensures s[0] < t[j]
      {
        assert t[j] in t;
      }
    }
  }

  lemma {:induction false} SortDistinctSorts(s: seq<nat>)
    ensures Increasing(SortDistinct(s))
    ensures forall y: nat :: y in SortDistinct(s) <==> y in s
  {
    if s != [] {
      var n := |s| - 1;
      assert s == s[..n] + [s[n]];
      SortDistinctSorts(s[..n]);
      InsertDistinctMembers(s[n], SortDistinct(s[..n]));
      InsertDistinctIncreasing(s[n], SortDistinct(s[..n]));
    }
  }

  /** The index of a member. */
  function Position(s: seq<nat>, x: nat): (i: nat)
    requires x in s
    ensures i < |s| && s[i] == x
  {
    if s[0] == x then 0 else 1 + Position(s[1..], x)
  }

  // ----- lists of distinct numbers

  /** Distinct numbers below a bound are no more than the bound. */
  lemma {:induction false} DistinctFit(s: seq<nat>, n: nat)
    requires forall i :: 0 <= i < |s| ==> s[i] < n
    requires forall i, j :: 0 <= i < j < |s| ==> s[i] != s[j]
    ensures |s| <= n
  {
    if s != [] {
      assert s[0] < n;
      if n - 1 in s {
        var p :| 0 <= p < |s| && s[p] == n - 1;
        DistinctFit(s[..p] + s[p + 1..], n - 1);
      } else {
        DistinctFit(s, n - 1);
      }
    }
  }

  /** A list that holds every number below `n` has at least `n` elements. */
  lemma {:induction false} AllPresent(s: seq<nat>, n: nat)
    requires forall i: nat :: i < n ==> i in s
    ensures |s| >= n
  {
    if n > 0 {
      assert n - 1 in s;
      var p :| 0 <= p < |s| && s[p] == n - 1;
      var rest := s[..p] + s[p + 1..];
      forall i: nat | i < n - 1
        ensures i in rest
      {
        assert i in s;
        var q :| 0 <= q < |s| && s[q] == i;
        if q < p { assert rest[q] == i; } else { assert rest[q - 1] == i; }
      }
      AllPresent(rest, n - 1);
    }
  }

  // ----- byte strings

  predicate LexLess(a: Str, b: Str) {
    if b == [] then false
    else if a == [] then true
    else if a[0] != b[0] then a[0] < b[0]
    else LexLess(a[1..], b[1..])
  }

  lemma {:induction false} LexTotal(a: Str, b: Str)
    ensures LexLess(a, b) || LexLess(b, a) || a == b
  {
    if a != [] && b != [] && a[0] == b[0] {
      LexTotal(a[1..], b[1..]);
      assert a == [a[0]] + a[1..] && b == [b[0]] + b[1..];
    }
  }

  lemma {:induction false} LexTransitive(a: Str, b: Str, c: Str)
    requires LexLess(a, b) && LexLess(b, c)
    ensures LexLess(a, c)
  {
    if a != [] && a[0] == b[0] == c[0] { LexTransitive(a[1..], b[1..], c[1..]); }
  }

  lemma {:induction false} LexIrreflexive(a: Str)
    ensures !LexLess(a, a)
  {
    if a != [] { LexIrreflexive(a[1..]); }
  }

  lemma LexAsymmetric(a: Str, b: Str)
    requires LexLess(a, b)
    ensures !LexLess(b, a) && a != b
  {
    LexIrreflexive(a);
    if LexLess(b, a) { LexTransitive(a, b, a); }
  }

  /** The first place where two strings differ, and the smaller byte is the first one's. */
  predicate SmallerAt(a: Str, b: Str, k: nat) {
    k < |a| && k < |b| && a[..k] == b[..k] && a[k] < b[k]
  }

  lemma SmallerStart(a: Str, b: Str, k: nat)
    requires SmallerAt(a, b, k)
    ensures k == 0 || a[0] == b[0]
  {
    if k > 0 { assert a[0] == a[..k][0] && b[0] == b[..k][0]; }
  }

  /** Byte order: a proper prefix comes first, otherwise the first difference decides. */
  ghost predicate ByteOrder(a: Str, b: Str) { a < b || exists k: nat :: SmallerAt(a, b, k) }

  lemma {:induction false} LexMeaning(a: Str, b: Str)
    ensures LexLess(a, b) <==> ByteOrder(a, b)
  {
    if a != [] && b != [] && a[0] == b[0] {
      LexMeaning(a[1..], b[1..]);
      assert a == [a[0]] + a[1..] && b == [b[0]] + b[1..];
      if exists k: nat :: SmallerAt(a[1..], b[1..], k) {
        var k: nat :| SmallerAt(a[1..], b[1..], k);
        assert SmallerAt(a, b, k + 1);
      }
      if exists k: nat :: SmallerAt(a, b, k) {
        var k: nat :| SmallerAt(a, b, k);
        assert k > 0 && a[..k][1..] == b[..k][1..];
        assert a[1..][..k - 1] == a[..k][1..] && b[1..][..k - 1] == b[..k][1..];
        assert SmallerAt(a[1..], b[1..], k - 1);
      }
    } else if a != [] && b != [] {
      if a[0] < b[0] { assert SmallerAt(a, b, 0); }
      if exists k: nat :: SmallerAt(a, b, k) {
        var k: nat :| SmallerAt(a, b, k);
        SmallerStart(a, b, k);
      }
    }
  }

  /** `A`, `AB`, `B`: length comes after content. */
  lemma LengthsDiffer()
    ensures LexIncreasing([[65], [65, 66], [66]])
  {
    LexMeaning([65], [65, 66]);
    LexMeaning([65, 66], [66]);
    LexMeaning([65], [66]);
    var a: Str, b: Str, c: Str := [65], [65, 66], [66];
    assert a < b && SmallerAt(b, c, 0) && SmallerAt(a, c, 0);
  }

  predicate LexIncreasing(names: seq<Str>) {
    forall i, j :: 0 <= i < j < |names| ==> LexLess(names[i], names[j])
  }
}
