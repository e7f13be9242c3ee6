/** Workers that claim tasks from a shared counter: any interleaving of their steps. */
module WorkSteal {
  import opened Formats
  import opened Order
  import opened Ranges

  datatype Worker = Idle | Busy(task: nat) | Finished | Failed(error: Error)

  datatype Task = Open | Taken(who: nat) | Done

  /** What the workers share. `order` lists the partitions as the tasks come; `work` is what
      processing a partition gives. `tasks` and `log` are the history of the run. */
  datatype State<T> = State(next: nat, workers: seq<Worker>, slots: seq<Option<T>>, tasks: seq<Task>, log: seq<nat>)

  datatype Job<T> = Job(n: nat, order: seq<nat>, work: nat -> Result<T>)

  /** Every partition comes up exactly once. */
  ghost predicate Ordered<T>(j: Job<T>) {
    && |j.order| == j.n
    && (forall t :: 0 <= t < j.n ==> j.order[t] < j.n)
    && (forall t, u :: 0 <= t < u < j.n ==> j.order[t] != j.order[u])
  }

  function Start<T>(j: Job<T>, workers: nat): State<T> {
    State(0, seq(workers, _ => Idle), seq(j.n, _ => None), seq(j.n, _ => Open), [])
  }

  /** One step of worker `w`: claim the next task by fetch-and-add, or finish the one it has,
      putting the result in the partition's own slot. */
  function Step<T>(j: Job<T>, s: State<T>, w: nat): State<T>
    requires Ordered(j) && w < |s.workers| && |s.slots| == j.n && |s.tasks| == j.n
    requires s.workers[w].Busy? ==> s.workers[w].task < j.n
  {
    match s.workers[w]
    case Idle =>
      if s.next >= j.n then s.(next := s.next + 1, workers := s.workers[w := Finished])
      else s.(next := s.next + 1, workers := s.workers[w := Busy(s.next)], tasks := s.tasks[s.next := Taken(w)])
    case Busy(t) =>
      var i := j.order[t];
      var after := s.(tasks := s.tasks[t := Done], log := s.log + [i]);
      (match j.work(i)
       case Ok(v) => after.(workers := s.workers[w := Idle], slots := s.slots[i := Some(v)])
       case Err(e) => after.(workers := s.workers[w := Failed(e)]))
    case _ => s
  }

  // ----- what every step keeps

  ghost predicate Sized<T>(j: Job<T>, s: State<T>) {
    && |s.slots| == j.n && |s.tasks| == j.n
    && (forall w :: 0 <= w < |s.workers| && s.workers[w].Busy? ==> s.workers[w].task < j.n)
  }

  /** A task is open until the counter passes it, and a taken one has exactly one worker. */
  ghost predicate Claims<T>(j: Job<T>, s: State<T>)
    requires Sized(j, s)
  {
    && (forall t :: 0 <= t < j.n ==> (s.tasks[t].Open? <==> t >= s.next))
    && (forall t :: 0 <= t < j.n && s.tasks[t].Taken? ==> s.tasks[t].who < |s.workers| && s.workers[s.tasks[t].who] == Busy(t))
    && (forall w :: 0 <= w < |s.workers| && s.workers[w].Busy? ==> s.tasks[s.workers[w].task] == Taken(w))
    && (forall w :: 0 <= w < |s.workers| && s.workers[w].Finished? ==> s.next >= j.n)
  }

  ghost predicate AnyFailed<T>(s: State<T>) {
    exists w :: 0 <= w < |s.workers| && s.workers[w].Failed?
  }

  /** A slot is filled exactly when its partition's task is done and succeeded, with that
      partition's own result; a failure is remembered by a worker. */
  ghost predicate Results<T>(j: Job<T>, s: State<T>)
    requires Ordered(j) && Sized(j, s)
  {
    && (forall t :: 0 <= t < j.n ==> s.slots[j.order[t]] == Expected(j, s, t))
    && (forall t :: 0 <= t < j.n && s.tasks[t].Done? && j.work(j.order[t]).Err? ==> AnyFailed(s))
    && (forall w :: 0 <= w < |s.workers| && s.workers[w].Failed? ==> exists t :: 0 <= t < j.n && s.tasks[t].Done? && j.work(j.order[t]).Err?)
  }

  ghost function Expected<T>(j: Job<T>, s: State<T>, t: nat): Option<T>
    requires Ordered(j) && Sized(j, s) && t < j.n
  {
    if s.tasks[t].Done? && j.work(j.order[t]).Ok? then Some(j.work(j.order[t]).value) else None
  }

  /** The log holds each done partition once. */
  ghost predicate Logged<T>(j: Job<T>, s: State<T>)
    requires Ordered(j) && Sized(j, s)
  {
    && (forall t :: 0 <= t < j.n ==> (j.order[t] in s.log <==> s.tasks[t].Done?))
    && (forall a, b :: 0 <= a < b < |s.log| ==> s.log[a] != s.log[b])
    && (forall a :: 0 <= a < |s.log| ==> s.log[a] < j.n)
  }

  ghost predicate Inv<T>(j: Job<T>, s: State<T>) {
    Ordered(j) && Sized(j, s) && Claims(j, s) && Results(j, s) && Logged(j, s)
  }

  lemma StartInv<T>(j: Job<T>, workers: nat)
    requires Ordered(j)
    ensures Inv(j, Start(j, workers))
  {
  }

  lemma StepSized<T>(j: Job<T>, s: State<T>, w: nat)
    requires Inv(j, s) && w < |s.workers|
    ensures Sized(j, Step(j, s, w)) && |Step(j, s, w).workers| == |s.workers|
  {
    hide Claims, Results, Logged;
  }

  /** Claiming: the counter passes one task and the claimant alone has it. */
  lemma ClaimKeeps<T>(j: Job<T>, s: State<T>, w: nat)
    requires Ordered(j) && Sized(j, s) && Claims(j, s) && w < |s.workers| && s.workers[w].Idle?
    requires Sized(j, Step(j, s, w))
    ensures Claims(j, Step(j, s, w))
  {
    var n := Step(j, s, w);
    forall t | 0 <= t < j.n && n.tasks[t].Taken?
      ensures n.tasks[t].who < |n.workers| && n.workers[n.tasks[t].who] == Busy(t)
    {
      if t != s.next { assert s.tasks[t] == n.tasks[t]; }
    }
    forall x | 0 <= x < |n.workers| && n.workers[x].Busy?
      ensures n.tasks[n.workers[x].task] == Taken(x)
    {
      if x != w { assert s.tasks[s.workers[x].task] == Taken(x); }
    }
  }

  /** Finishing: its task is done and the worker free, or failed. */
  lemma FinishKeeps<T>(j: Job<T>, s: State<T>, w: nat)
    requires Ordered(j) && Sized(j, s) && Claims(j, s) && w < |s.workers| && s.workers[w].Busy?
    requires Sized(j, Step(j, s, w))
    ensures Claims(j, Step(j, s, w))
  {
    var n, task := Step(j, s, w), s.workers[w].task;
    assert s.tasks[task] == Taken(w);
    forall t | 0 <= t < j.n && n.tasks[t].Taken?
      ensures n.tasks[t].who < |n.workers| && n.workers[n.tasks[t].who] == Busy(t)
    {
      assert s.tasks[t] == n.tasks[t];
    }
    forall x | 0 <= x < |n.workers| && n.workers[x].Busy?
      ensures n.tasks[n.workers[x].task] == Taken(x)
    {
      assert s.tasks[s.workers[x].task] == Taken(x);
    }
  }

  lemma StepResults<T>(j: Job<T>, s: State<T>, w: nat)
    requires Inv(j, s) && w < |s.workers| && Sized(j, Step(j, s, w))
    ensures Results(j, Step(j, s, w))
  {
    hide Logged;
    var n := Step(j, s, w);
    forall t | 0 <= t < j.n
      ensures n.slots[j.order[t]] == Expected(j, n, t)
    {
      assert s.slots[j.order[t]] == Expected(j, s, t);
    }
    if s.workers[w].Busy? && j.work(j.order[s.workers[w].task]).Err? { assert n.workers[w].Failed?; }
    if AnyFailed(s) {
      var x :| 0 <= x < |s.workers| && s.workers[x].Failed?;
      assert n.workers[x].Failed?;
    }
    forall x | 0 <= x < |n.workers| && n.workers[x].Failed?
      ensures exists t :: 0 <= t < j.n && n.tasks[t].Done? && j.work(j.order[t]).Err?
    {
      if s.workers[x].Failed? {
        var t :| 0 <= t < j.n && s.tasks[t].Done? && j.work(j.order[t]).Err?;
        assert n.tasks[t].Done?;
      } else {
        assert n.tasks[s.workers[w].task].Done?;
      }
    }
  }

  lemma StepLogged<T>(j: Job<T>, s: State<T>, w: nat)
    requires Inv(j, s) && w < |s.workers| && Sized(j, Step(j, s, w))
    ensures Logged(j, Step(j, s, w))
  {
    var n := Step(j, s, w);
    if s.workers[w].Busy? {
      var t := s.workers[w].task;
      assert s.tasks[t] == Taken(w);
      forall u | 0 <= u < j.n
        ensures j.order[u] in n.log <==> n.tasks[u].Done?
      {
        assert j.order[u] in s.log <==> s.tasks[u].Done?;
      }
      assert j.order[t] !in s.log;
    }
  }

  /** Every step of every worker keeps the invariant. */
  lemma StepInv<T>(j: Job<T>, s: State<T>, w: nat)
    requires Inv(j, s) && w < |s.workers|
    ensures Inv(j, Step(j, s, w))
  {
    hide Claims, Results, Logged;
    StepSized(j, s, w);
    if s.workers[w].Idle? { ClaimKeeps(j, s, w); }
    if s.workers[w].Busy? { FinishKeeps(j, s, w); }
    StepResults(j, s, w);
    StepLogged(j, s, w);
  }

  // ----- whole runs

  /** The state after the workers step in the order of a schedule. */
  ghost function Run<T>(j: Job<T>, s: State<T>, schedule: seq<nat>): (r: State<T>)
    requires Inv(j, s) && forall i :: 0 <= i < |schedule| ==> schedule[i] < |s.workers|
    ensures Inv(j, r) && |r.workers| == |s.workers|
  {
    if schedule == [] then s else
      var before := Run(j, s, schedule[..|schedule| - 1]);
      StepInv(j, before, schedule[|schedule| - 1]);
      StepSized(j, before, schedule[|schedule| - 1]);
      Step(j, before, schedule[|schedule| - 1])
  }

  predicate Halted(w: Worker) { w.Finished? || w.Failed? }

  ghost predicate AllHalted<T>(s: State<T>) {
    forall w :: 0 <= w < |s.workers| ==> Halted(s.workers[w])
  }

  /** Steps a worker may still take: two for each task to come, one to find there is none. */
  function Effort(w: Worker): nat { match w case Idle => 1 case Busy(_) => 2 case _ => 0 }

  function Efforts(ws: seq<Worker>): nat {
    if ws == [] then 0 else Efforts(ws[..|ws| - 1]) + Effort(ws[|ws| - 1])
  }

  function Measure<T>(j: Job<T>, s: State<T>): nat {
    2 * (if s.next < j.n then j.n - s.next else 0) + Efforts(s.workers)
  }

  lemma {:induction false} EffortsUpdate(ws: seq<Worker>, w: nat, x: Worker)
    requires w < |ws|
    ensures Efforts(ws[w := x]) == Efforts(ws) - Effort(ws[w]) + Effort(x)
  {
    var m := |ws| - 1;
    if w < m {
      EffortsUpdate(ws[..m], w, x);
      assert ws[w := x][..m] == ws[..m][w := x];
    } else {
      assert ws[w := x][..m] == ws[..m];
    }
  }

  /** A worker that has not halted makes progress with every step, so every run in which no
      worker is passed over for ever comes to a halt. */
  lemma StepProgress<T>(j: Job<T>, s: State<T>, w: nat)
    requires Inv(j, s) && w < |s.workers| && !Halted(s.workers[w])
    ensures Measure(j, Step(j, s, w)) < Measure(j, s)
  {
    hide Claims, Results, Logged;
    EffortsUpdate(s.workers, w, Step(j, s, w).workers[w]);
    StepSized(j, s, w);
    assert Step(j, s, w).workers == s.workers[w := Step(j, s, w).workers[w]];
  }

  /** Once all workers have halted, every partition was processed exactly once, each slot
      holds its own partition's result, and a failure anywhere is seen by some worker. */
  lemma Complete<T>(j: Job<T>, s: State<T>)
    requires Inv(j, s) && AllHalted(s) && |s.workers| > 0
    ensures AnyFailed(s) <==> exists i: nat :: i < j.n && j.work(i).Err?
    ensures !AnyFailed(s) ==> forall i: nat :: i < j.n ==> s.slots[i] == Some(j.work(i).value)
    ensures !AnyFailed(s) ==> |s.log| == j.n && forall i: nat :: i < j.n ==> i in s.log
  {
    if !AnyFailed(s) {
      assert s.workers[0].Finished?;
      forall i: nat | i < j.n
        ensures i in s.log && j.work(i).Ok? && s.slots[i] == Some(j.work(i).value)
      {
        var t := Place(j, i);
        NotTaken(j, s, t);
        assert s.slots[j.order[t]] == Expected(j, s, t);
      }
      LogSize(j, s);
    } else {
      var w :| 0 <= w < |s.workers| && s.workers[w].Failed?;
      var t :| 0 <= t < j.n && s.tasks[t].Done? && j.work(j.order[t]).Err?;
      assert j.order[t] < j.n;
    }
  }

  /** With every worker halted no task is in anyone's hands. */
  lemma NotTaken<T>(j: Job<T>, s: State<T>, t: nat)
    requires Inv(j, s) && AllHalted(s) && t < j.n && s.next >= j.n
    ensures s.tasks[t].Done?
  {
    if s.tasks[t].Taken? { assert false; }
  }

  /** Where a partition comes in the order. */
  lemma Place<T>(j: Job<T>, i: nat) returns (t: nat)
    requires Ordered(j) && i < j.n
    ensures t < j.n && j.order[t] == i
  {
    if !exists t :: 0 <= t < j.n && j.order[t] == i {
      Missing(j.order, i, j.n);
      assert false;
    }
    t :| 0 <= t < j.n && j.order[t] == i;
  }

  /** Distinct numbers below a bound that miss one are fewer than the bound. */
  lemma Missing(s: seq<nat>, x: nat, n: nat)
    requires x < n && (forall i :: 0 <= i < |s| ==> s[i] < n && s[i] != x)
    requires forall i, j :: 0 <= i < j < |s| ==> s[i] != s[j]
    ensures |s| < n
  {
    DistinctFit(s + [x], n);
  }

  lemma LogSize<T>(j: Job<T>, s: State<T>)
    requires Inv(j, s) && forall i: nat :: i < j.n ==> i in s.log
    ensures |s.log| == j.n
  {
    DistinctFit(s.log, j.n);
    AllPresent(s.log, j.n);
  }

  // ----- the read that uses it

  /** Largest partitions first; a stable sort. */
  function InsertBySize(x: nat, s: seq<nat>, size: nat -> nat): seq<nat> {
    if s == [] then [x] else if size(x) > size(s[0]) then [x] + s else [s[0]] + InsertBySize(x, s[1..], size)
  }

  function LargestFirst(n: nat, size: nat -> nat): seq<nat> {
    if n == 0 then [] else InsertBySize(n - 1, LargestFirst(n - 1, size), size)
  }

  lemma {:induction false} InsertBySizeKeeps(x: nat, s: seq<nat>, size: nat -> nat)
    requires x !in s && forall i, j :: 0 <= i < j < |s| ==> s[i] != s[j]
    ensures var r := InsertBySize(x, s, size);
            && |r| == |s| + 1 && (forall y: nat :: y in r <==> y == x || y in s)
            && forall i, j :: 0 <= i < j < |r| ==> r[i] != r[j]
  {
    if s != [] && size(x) <= size(s[0]) {
      assert s == [s[0]] + s[1..];
      InsertBySizeKeeps(x, s[1..], size);
      var t := InsertBySize(x, s[1..], size);
      assert forall i :: 0 <= i < |t| ==> t[i] in t;
      assert s[0] !in s[1..];
    }
  }

  predicate Before(a: nat, b: nat, size: nat -> nat) {
    size(a) > size(b) || (size(a) == size(b) && a < b)
  }

  /** Larger sizes first, equal sizes in the order of the partitions. */
  ghost predicate BySize(s: seq<nat>, size: nat -> nat) {
    forall i, j :: 0 <= i < j < |s| ==> Before(s[i], s[j], size)
  }

  lemma BySizeTail(s: seq<nat>, size: nat -> nat)
    requires s != []
    ensures BySize(s, size) <==> BySize(s[1..], size) && forall y: nat :: y in s[1..] ==> Before(s[0], y, size)
  {
    hide Before;
    if BySize(s[1..], size) && forall y: nat :: y in s[1..] ==> Before(s[0], y, size) {
      forall i, j | 0 <= i < j < |s|
        ensures Before(s[i], s[j], size)
      {
        assert s[1..][j - 1] == s[j];
        if i > 0 { assert s[1..][i - 1] == s[i]; }
      }
    }
  }

  lemma {:induction false} InsertBySizeOrders(x: nat, s: seq<nat>, size: nat -> nat)
    requires BySize(s, size) && x !in s && (forall i, j :: 0 <= i < j < |s| ==> s[i] != s[j]) && forall y: nat :: y in s ==> y < x
    ensures BySize(InsertBySize(x, s, size), size)
  {
    hide BySize;
    if s == [] {
      SingleBySize(x, size);
    } else if size(x) > size(s[0]) {
      BySizeTail(s, size);
      assert ([x] + s)[1..] == s && s == [s[0]] + s[1..];
      BySizeTail([x] + s, size);
    } else {
      var rest := s[1..];
      assert s == [s[0]] + rest && s[0] in s;
      assert forall y: nat :: y in rest ==> y in s;
      BySizeTail(s, size);
      DistinctTail(s);
      InsertBySizeOrders(x, rest, size);
      InsertBySizeKeeps(x, rest, size);
      var t := InsertBySize(x, rest, size);
      assert ([s[0]] + t)[1..] == t;
      BySizeTail([s[0]] + t, size);
    }
  }

  lemma DistinctTail(s: seq<nat>)
    requires s != [] && forall i, j :: 0 <= i < j < |s| ==> s[i] != s[j]
    ensures forall i, j :: 0 <= i < j < |s[1..]| ==> s[1..][i] != s[1..][j]
  {
  }

  lemma SingleBySize(x: nat, size: nat -> nat)
    ensures BySize([x], size)
  {
  }

  /** Whatever the sizes read from the index headers, every partition comes up once, the
      larger ones first. */
  lemma {:induction false} LargestFirstOrders(n: nat, size: nat -> nat)
    ensures var s := LargestFirst(n, size);
            && |s| == n && (forall y: nat :: y in s <==> y < n)
            && (forall i, j :: 0 <= i < j < |s| ==> s[i] != s[j])
            && BySize(s, size)
  {
    if n > 0 {
      LargestFirstOrders(n - 1, size);
      InsertBySizeKeeps(n - 1, LargestFirst(n - 1, size), size);
      InsertBySizeOrders(n - 1, LargestFirst(n - 1, size), size);
    }
  }

  function Flatten<A>(ss: seq<seq<A>>): seq<A> {
    if ss == [] then [] else Flatten(ss[..|ss| - 1]) + ss[|ss| - 1]
  }

  lemma FlattenMore<A>(ss: seq<seq<A>>, x: seq<A>)
    ensures Flatten(ss + [x]) == Flatten(ss) + x
  {
    assert (ss + [x])[..|ss|] == ss;
  }

  lemma {:induction false} FlattenAppend<A>(a: seq<seq<A>>, b: seq<seq<A>>)
    ensures Flatten(a + b) == Flatten(a) + Flatten(b)
  {
    hide Flatten;
    if b == [] {
      assert a + b == a;
      FlattenNone<A>();
    } else {
      var m := |b| - 1;
      FlattenAppend(a, b[..m]);
      FlattenMore(b[..m], b[m]);
      FlattenMore(a + b[..m], b[m]);
      assert b[..m] + [b[m]] == b && a + b[..m] + [b[m]] == a + b;
    }
  }

  /** Keeps whole batches while they fit the limit, then the part of one more. */
  method TrimToLimit<A>(batches: seq<seq<A>>, limit: Option<nat>) returns (out: seq<seq<A>>)
    ensures Flatten(out) == Take(Flatten(batches), limit)
  {
    hide Flatten;
    if limit.None? { return batches; }
    var taken := 0;
    out := [];
    FlattenNone<A>();
    assert batches[..0] == [];
    for i := 0 to |batches|
      invariant 0 <= taken <= limit.value && taken == |Flatten(out)|
      invariant out == batches[..i]
    {
      PrefixRows(batches, i);
      if taken >= limit.value { return; }
      var rem := limit.value - taken;
      assert batches[..i + 1] == batches[..i] + [batches[i]];
      FlattenMore(batches[..i], batches[i]);
      PrefixRows(batches, i + 1);
      if |batches[i]| <= rem {
        taken := taken + |batches[i]|;
        out := out + [batches[i]];
      } else {
        FlattenMore(out, batches[i][..rem]);
        out := out + [batches[i][..rem]];
        return;
      }
    }
    assert batches[..|batches|] == batches;
  }

  lemma FlattenNone<A>()
    ensures Flatten<A>([]) == []
  {
  }

  lemma PrefixRows<A>(batches: seq<seq<A>>, i: nat)
    requires i <= |batches|
    ensures Flatten(batches[..i]) <= Flatten(batches)
  {
    FlattenAppend(batches[..i], batches[i..]);
    assert batches[..i] + batches[i..] == batches;
  }

  /** What reading the partitions one after the other gives. */
  ghost function Sequential<A>(j: Job<seq<seq<A>>>, n: nat): seq<A>
    requires forall i: nat :: i < n ==> j.work(i).Ok?
  {
    if n == 0 then [] else Sequential(j, n - 1) + Flatten(j.work(n - 1).value)
  }

  lemma {:induction false} SlotsInOrder<A>(j: Job<seq<seq<A>>>, slots: seq<seq<seq<A>>>, n: nat)
    requires n <= |slots| && forall i: nat :: i < n ==> j.work(i).Ok? && slots[i] == j.work(i).value
    ensures Flatten(Flatten(slots[..n])) == Sequential(j, n)
  {
    if n > 0 {
      SlotsInOrder(j, slots, n - 1);
      assert slots[..n] == slots[..n - 1] + [slots[n - 1]];
      FlattenMore(slots[..n - 1], slots[n - 1]);
      FlattenAppend(Flatten(slots[..n - 1]), slots[n - 1]);
    } else {
      assert slots[..0] == [];
    }
  }

  /** The end of a parallel read over two or more partitions: after any interleaving, the
      slots flattened in partition order and trimmed are the first `limit` rows of the
      sequential read. */
  method Collect<A>(j: Job<seq<seq<A>>>, ghost s: State<seq<seq<A>>>, slots: seq<Option<seq<seq<A>>>>, limit: Option<nat>)
    returns (out: seq<seq<A>>)
    requires Inv(j, s) && AllHalted(s) && |s.workers| > 0 && !AnyFailed(s) && slots == s.slots
    ensures forall i: nat :: i < j.n ==> j.work(i).Ok?
    ensures Flatten(out) == Take(Sequential(j, j.n), limit)
  {
    hide Flatten, Claims, Results, Logged;
    Complete(j, s);
    var flat: seq<seq<A>> := [];
    var values: seq<seq<seq<A>>> := [];
    FlattenNone<seq<A>>();
    for i := 0 to |slots|
      invariant |values| == i && flat == Flatten(values)
      invariant forall k: nat :: k < i ==> values[k] == j.work(k).value
    {
      FlattenMore(values, slots[i].value);
      flat := flat + slots[i].value;
      values := values + [slots[i].value];
    }
    SlotsInOrder(j, values, j.n);
    assert values[..j.n] == values;
    out := TrimToLimit(flat, limit);
  }

  /** A run from its start. */
  ghost function WholeRun<T>(j: Job<T>, workers: nat, schedule: seq<nat>): (s: State<T>)
    requires Ordered(j) && forall k :: 0 <= k < |schedule| ==> schedule[k] < workers
    ensures Inv(j, s) && |s.workers| == workers
  {
    StartInv(j, workers);
    Run(j, Start(j, workers), schedule)
  }

  /** The whole parallel read: from the start, any schedule that brings every worker to a
      stop without a failure yields the sequential read cut to the limit. */
  method ParallelRead<A>(j: Job<seq<seq<A>>>, ghost workers: nat, ghost schedule: seq<nat>, slots: seq<Option<seq<seq<A>>>>, limit: Option<nat>)
    returns (out: seq<seq<A>>)
    requires Ordered(j) && workers > 0 && forall k :: 0 <= k < |schedule| ==> schedule[k] < workers
    requires var s := WholeRun(j, workers, schedule); AllHalted(s) && !AnyFailed(s) && slots == s.slots
    ensures forall i: nat :: i < j.n ==> j.work(i).Ok?
    ensures Flatten(out) == Take(Sequential(j, j.n), limit)
  {
    hide Flatten, WholeRun, Inv;
    out := Collect(j, WholeRun(j, workers, schedule), slots, limit);
  }
}
