/** The parallel for-each: threads that take items from one guarded supplier until the supply ends, a consumer
    refuses an item, or another thread has stopped. Each step below is one access to shared state. */
module Foreach {
  /** Where a thread is. Items are numbered in the order in which the supplier hands them out. */
  datatype Pc =
    | Fetching
    | Consuming(item: nat)
    | Checking
    | Failing
    | Exiting
    | Done

  /** late counts the items fetched after mustStop was first set; consumed is the history of consumer calls, and
      callers says which thread made each. */
  datatype State = State(pcs: seq<Pc>, next: nat, consumed: seq<nat>, callers: seq<nat>, failed: bool,
                         mustStop: bool, late: nat)

  function Init(threads: nat): State {
    State(seq(threads, _ => Fetching), 0, [], [], false, false, 0)
  }

  predicate Enabled(s: State, t: nat) {
    t < |s.pcs| && !s.pcs[t].Done?
  }

  ghost predicate InRange(accepts: seq<bool>, s: State) {
    forall t :: 0 <= t < |s.pcs| && s.pcs[t].Consuming? ==> s.pcs[t].item < |accepts|
  }

  /** The next step of a thread. accepts holds the verdict of the consumer on each item of the supply. */
  ghost function Step(accepts: seq<bool>, s: State, t: nat): State
    requires Enabled(s, t) && InRange(accepts, s)
  {
    match s.pcs[t]
    case Fetching =>
      if s.next < |accepts|
      then s.(pcs := s.pcs[t := Consuming(s.next)],
              next := s.next + 1,
              late := if s.mustStop then s.late + 1 else s.late)
      else s.(pcs := s.pcs[t := Exiting])
    case Consuming(k) =>
      s.(pcs := s.pcs[t := if accepts[k] then Checking else Failing],
         consumed := s.consumed + [k],
         callers := s.callers + [t])
    case Failing => s.(pcs := s.pcs[t := Exiting], failed := true)
    case Checking => s.(pcs := s.pcs[t := if s.mustStop then Exiting else Fetching])
    case Exiting => s.(pcs := s.pcs[t := Done], mustStop := true)
  }

  // ---------------------------------------------------------------- counting over threads

  function Sum(pcs: seq<Pc>, weight: Pc -> nat): nat {
    if pcs == [] then 0 else Sum(pcs[..|pcs| - 1], weight) + weight(pcs[|pcs| - 1])
  }

  lemma {:induction false} SumUpdate(pcs: seq<Pc>, weight: Pc -> nat, t: nat, pc: Pc)
    requires t < |pcs|
    ensures Sum(pcs[t := pc], weight) + weight(pcs[t]) == Sum(pcs, weight) + weight(pc)
  {
    var n := |pcs| - 1;
    if t < n {
      SumUpdate(pcs[..n], weight, t, pc);
      assert pcs[t := pc][..n] == pcs[..n][t := pc];
    } else {
      assert pcs[t := pc][..n] == pcs[..n];
    }
  }

  lemma {:induction false} SumConstant(pcs: seq<Pc>, weight: Pc -> nat, pc: Pc)
    requires forall t :: 0 <= t < |pcs| ==> pcs[t] == pc
    ensures Sum(pcs, weight) == |pcs| * weight(pc)
  {
    if pcs != [] {
      SumConstant(pcs[..|pcs| - 1], weight, pc);
    }
  }

  /** Whether a thread has fetched an item and not yet given it to the consumer. */
  function Holds(k: nat): Pc -> nat {
    pc => if pc == Consuming(k) then 1 else 0
  }

  /** How often an item has been consumed or is about to be. */
  function CountOf(s: State, k: nat): nat {
    multiset(s.consumed)[k] + Sum(s.pcs, Holds(k))
  }

  function IsFetching(pc: Pc): nat {
    if pc.Fetching? then 1 else 0
  }

  // ---------------------------------------------------------------- the invariant

  ghost predicate SomeFailing(s: State) {
    exists t :: 0 <= t < |s.pcs| && s.pcs[t].Failing?
  }

  ghost predicate SomeRefused(accepts: seq<bool>, items: seq<nat>) {
    exists i :: 0 <= i < |items| && items[i] < |accepts| && !accepts[items[i]]
  }

  ghost predicate ItemsOk(accepts: seq<bool>, s: State) {
    && s.next <= |accepts|
    && InRange(accepts, s)
    && forall k: nat :: CountOf(s, k) == if k < s.next then 1 else 0
  }

  ghost predicate VerdictOk(accepts: seq<bool>, s: State) {
    SomeRefused(accepts, s.consumed) <==> s.failed || SomeFailing(s)
  }

  ghost predicate StopOk(accepts: seq<bool>, s: State) {
    && (forall t :: 0 <= t < |s.pcs| && (s.pcs[t].Exiting? || s.pcs[t].Done?) ==> s.failed || s.next == |accepts|)
    && (forall t :: 0 <= t < |s.pcs| && s.pcs[t].Done? ==> s.mustStop)
    && (s.mustStop ==> s.failed || s.next == |accepts|)
    && (!s.mustStop ==> s.late == 0)
    && (s.mustStop ==> s.late + Sum(s.pcs, IsFetching) < |s.pcs|)
  }

  ghost predicate Inv(accepts: seq<bool>, s: State) {
    ItemsOk(accepts, s) && VerdictOk(accepts, s) && StopOk(accepts, s)
  }

  lemma InitIsFine(accepts: seq<bool>, threads: nat)
    ensures Inv(accepts, Init(threads))
  {
    forall k: nat
      ensures Sum(Init(threads).pcs, Holds(k)) == 0
    {
      SumConstant(Init(threads).pcs, Holds(k), Fetching);
    }
  }

  lemma CountMoves(accepts: seq<bool>, s: State, t: nat, k: nat)
    requires InRange(accepts, s) && Enabled(s, t)
    ensures CountOf(Step(accepts, s, t), k)
         == CountOf(s, k) + if s.pcs[t].Fetching? && s.next == k < |accepts| then 1 else 0
  {
    hide Sum;
    SumUpdate(s.pcs, Holds(k), t, Step(accepts, s, t).pcs[t]);
  }

  lemma ItemsKept(accepts: seq<bool>, s: State, t: nat)
    requires ItemsOk(accepts, s) && Enabled(s, t)
    ensures ItemsOk(accepts, Step(accepts, s, t))
  {
    hide CountOf;
    var r := Step(accepts, s, t);
    forall k: nat
      ensures CountOf(r, k) == if k < r.next then 1 else 0
    {
      CountMoves(accepts, s, t, k);
      assert CountOf(s, k) == if k < s.next then 1 else 0;
    }
  }

  lemma VerdictKept(accepts: seq<bool>, s: State, t: nat)
    requires ItemsOk(accepts, s) && VerdictOk(accepts, s) && Enabled(s, t)
    ensures VerdictOk(accepts, Step(accepts, s, t))
  {
    var r := Step(accepts, s, t);
    if SomeRefused(accepts, s.consumed) {
      var i :| 0 <= i < |s.consumed| && s.consumed[i] < |accepts| && !accepts[s.consumed[i]];
      assert r.consumed[i] == s.consumed[i];
    }
    if SomeFailing(s) {
      var u :| 0 <= u < |s.pcs| && s.pcs[u].Failing?;
      assert u == t || r.pcs[u].Failing?;
    }
    if s.pcs[t].Consuming? {
      assert r.consumed[|s.consumed|] == s.pcs[t].item;
      assert r.pcs[t].Failing? <==> !accepts[s.pcs[t].item];
    }
    if SomeFailing(r) {
      var u :| 0 <= u < |r.pcs| && r.pcs[u].Failing?;
      assert u == t || s.pcs[u].Failing?;
    }
  }

  /** A sum of flags is at most the number of threads, and less if one flag is down. */
  lemma {:induction false} FetchingBound(pcs: seq<Pc>)
    ensures Sum(pcs, IsFetching) <= |pcs|
  {
    if pcs != [] {
      FetchingBound(pcs[..|pcs| - 1]);
    }
  }

  lemma StopKept(accepts: seq<bool>, s: State, t: nat)
    requires ItemsOk(accepts, s) && StopOk(accepts, s) && Enabled(s, t)
    ensures StopOk(accepts, Step(accepts, s, t))
  {
    var r := Step(accepts, s, t);
    SumUpdate(s.pcs, IsFetching, t, r.pcs[t]);
    FetchingBound(s.pcs);
    if s.pcs[t].Exiting? {
      SumUpdate(s.pcs, IsFetching, t, Fetching);
      FetchingBound(s.pcs[t := Fetching]);
    }
  }

  // ---------------------------------------------------------------- runs

  ghost predicate Run(accepts: seq<bool>, s: State, steps: seq<nat>, s': State)
    decreases |steps|
  {
    if steps == [] then s' == s
    else
      var t := steps[|steps| - 1];
      exists m ::
        && Run(accepts, s, steps[..|steps| - 1], m) && InRange(accepts, m) && Enabled(m, t)
        && s' == Step(accepts, m, t)
  }

  lemma {:induction false} RunKeeps(accepts: seq<bool>, s: State, steps: seq<nat>, s': State)
    requires Inv(accepts, s) && Run(accepts, s, steps, s')
    ensures Inv(accepts, s') && |s'.pcs| == |s.pcs|
  {
    hide ItemsOk, VerdictOk, StopOk, InRange, Sum;
    if steps != [] {
      var front, t := steps[..|steps| - 1], steps[|steps| - 1];
      var m :| Run(accepts, s, front, m) && InRange(accepts, m) && Enabled(m, t) && s' == Step(accepts, m, t);
      RunKeeps(accepts, s, front, m);
      ItemsKept(accepts, m, t);
      VerdictKept(accepts, m, t);
      StopKept(accepts, m, t);
    }
  }

  ghost predicate AllDone(s: State) {
    forall t :: 0 <= t < |s.pcs| ==> s.pcs[t].Done?
  }

  /** When all threads have ended, however they interleaved: every item that was supplied has been consumed
      exactly once and nothing else has; the status is FAILED exactly when a consumer refused an item; OK means
      that the supply was exhausted; and after the first thread stopped, each of the others fetched at most one
      more item. */
  lemma Outcome(accepts: seq<bool>, threads: nat, steps: seq<nat>, s: State)
    requires Run(accepts, Init(threads), steps, s) && AllDone(s)
    ensures s.next <= |accepts|
    ensures forall k: nat :: multiset(s.consumed)[k] == if k < s.next then 1 else 0
    ensures s.failed <==> exists k :: 0 <= k < s.next && !accepts[k]
    ensures threads > 0 && !s.failed ==> s.next == |accepts|
    ensures threads > 0 ==> s.late <= threads - 1
  {
    hide Run;
    InitIsFine(accepts, threads);
    RunKeeps(accepts, Init(threads), steps, s);
    forall k: nat
      ensures multiset(s.consumed)[k] == if k < s.next then 1 else 0
      ensures k in s.consumed <==> k < s.next
    {
      SumConstant(s.pcs, Holds(k), Done);
      assert CountOf(s, k) == if k < s.next then 1 else 0;
      assert k in s.consumed <==> k in multiset(s.consumed);
    }
    if threads > 0 {
      assert s.pcs[0].Done?;
    }
    if s.failed {
      var i :| 0 <= i < |s.consumed| && s.consumed[i] < |accepts| && !accepts[s.consumed[i]];
      assert s.consumed[i] in s.consumed;
    }
    if k :| 0 <= k < s.next && !accepts[k] {
      assert k in s.consumed;
      var i :| 0 <= i < |s.consumed| && s.consumed[i] == k;
    }
  }

  // ---------------------------------------------------------------- a refusal ends its thread

  /** The thread has left its loop, or is about to. */
  predicate Stopping(pc: Pc) {
    pc.Failing? || pc.Exiting? || pc.Done?
  }

  /** The calls of one thread come in the order of the items, and none follows a refusal. */
  ghost predicate CallsInOrder(accepts: seq<bool>, s: State) {
    && |s.callers| == |s.consumed|
    && (forall i :: 0 <= i < |s.consumed| ==> s.callers[i] < |s.pcs| && s.consumed[i] < |accepts|)
    && (forall i, j :: 0 <= i < j < |s.consumed| && s.callers[i] == s.callers[j] ==>
          accepts[s.consumed[i]] && s.consumed[i] < s.consumed[j])
  }

  ghost predicate CallerOk(accepts: seq<bool>, s: State, i: nat)
    requires CallsInOrder(accepts, s) && i < |s.consumed|
  {
    var pc := s.pcs[s.callers[i]];
    && s.consumed[i] < s.next
    && (!accepts[s.consumed[i]] ==> Stopping(pc))
    && (pc.Consuming? ==> s.consumed[i] < pc.item)
  }

  /** Where the threads are that have called the consumer. */
  ghost predicate CallersOk(accepts: seq<bool>, s: State) {
    && CallsInOrder(accepts, s)
    && (forall i :: 0 <= i < |s.consumed| ==> CallerOk(accepts, s, i))
    && (forall t :: 0 <= t < |s.pcs| && s.pcs[t].Consuming? ==> s.pcs[t].item < s.next)
  }

  lemma CallersKept(accepts: seq<bool>, s: State, t: nat)
    requires CallersOk(accepts, s) && InRange(accepts, s) && Enabled(s, t)
    ensures CallersOk(accepts, Step(accepts, s, t))
  {
    var r := Step(accepts, s, t);
    OrderKept(accepts, s, t);
    forall i | 0 <= i < |r.consumed|
      ensures CallerOk(accepts, r, i)
    {
      assert i < |s.consumed| ==> CallerOk(accepts, s, i);
    }
  }

  lemma OrderKept(accepts: seq<bool>, s: State, t: nat)
    requires CallersOk(accepts, s) && InRange(accepts, s) && Enabled(s, t)
    ensures CallsInOrder(accepts, Step(accepts, s, t))
  {
    if s.pcs[t].Consuming? {
      OneMoreCall(accepts, s, t);
    }
  }

  lemma OneMoreCall(accepts: seq<bool>, s: State, t: nat)
    requires CallersOk(accepts, s) && InRange(accepts, s) && Enabled(s, t) && s.pcs[t].Consuming?
    ensures CallsInOrder(accepts, Step(accepts, s, t))
  {
    var r, n := Step(accepts, s, t), |s.consumed|;
    forall i | 0 <= i < n && r.callers[i] == t
      ensures accepts[r.consumed[i]] && r.consumed[i] < r.consumed[n]
    {
      assert CallerOk(accepts, s, i);
    }
  }

  lemma {:induction false} RunKeepsCallers(accepts: seq<bool>, threads: nat, steps: seq<nat>, s: State)
    requires Run(accepts, Init(threads), steps, s)
    ensures CallersOk(accepts, s) && |s.pcs| == threads
  {
    hide CallersOk, InRange;
    if steps == [] {
      NoCallers(accepts, threads);
    } else {
      var front, t := steps[..|steps| - 1], steps[|steps| - 1];
      var m :| Run(accepts, Init(threads), front, m) && InRange(accepts, m) && Enabled(m, t)
               && s == Step(accepts, m, t);
      RunKeepsCallers(accepts, threads, front, m);
      CallersKept(accepts, m, t);
    }
  }

  lemma NoCallers(accepts: seq<bool>, threads: nat)
    ensures CallersOk(accepts, Init(threads))
  {
  }

  /** How many calls were refused. */
  function Refusals(accepts: seq<bool>, items: seq<nat>): nat {
    if items == [] then 0
    else
      var k := items[|items| - 1];
      Refusals(accepts, items[..|items| - 1]) + if k < |accepts| && !accepts[k] then 1 else 0
  }

  /** The threads whose consumer has refused an item, among the first n calls. */
  ghost function Refusers(accepts: seq<bool>, s: State, n: nat): set<nat>
    requires CallsInOrder(accepts, s) && n <= |s.consumed|
  {
    set i | 0 <= i < n && !accepts[s.consumed[i]] :: s.callers[i]
  }

  lemma {:induction false} RefusersCount(accepts: seq<bool>, s: State, n: nat)
    requires CallsInOrder(accepts, s) && n <= |s.consumed|
    ensures |Refusers(accepts, s, n)| == Refusals(accepts, s.consumed[..n])
  {
    if n == 0 {
      assert Refusers(accepts, s, n) == {};
    } else {
      RefusersCount(accepts, s, n - 1);
      assert s.consumed[..n][..n - 1] == s.consumed[..n - 1];
      hide Refusers;
      OneMoreRefuser(accepts, s, n);
    }
  }

  lemma OneMoreRefuser(accepts: seq<bool>, s: State, n: nat)
    requires CallsInOrder(accepts, s) && 0 < n <= |s.consumed|
    ensures var before, t := Refusers(accepts, s, n - 1), s.callers[n - 1];
            if accepts[s.consumed[n - 1]] then Refusers(accepts, s, n) == before
            else t !in before && Refusers(accepts, s, n) == before + {t}
  {
  }

  lemma {:induction false} FewerThan(ts: set<nat>, n: nat)
    requires forall t :: t in ts ==> t < n
    ensures |ts| <= n
  {
    if n == 0 {
      assert ts == {};
    } else if n - 1 in ts {
      FewerThan(ts - {n - 1}, n - 1);
    } else {
      FewerThan(ts, n - 1);
    }
  }

  /** In every state of every run: a consumer call that refused an item is the last of its thread, so that there are
      never more refusals than threads; and a thread consumes its items in the order of the supply. */
  lemma RefusalIsLast(accepts: seq<bool>, threads: nat, steps: seq<nat>, s: State)
    requires Run(accepts, Init(threads), steps, s)
    ensures CallsInOrder(accepts, s)
    ensures Refusals(accepts, s.consumed) <= threads
  {
    RunKeepsCallers(accepts, threads, steps, s);
    assert s.consumed[..|s.consumed|] == s.consumed;
    RefusersCount(accepts, s, |s.consumed|);
    FewerThan(Refusers(accepts, s, |s.consumed|), threads);
  }

  /** A thread leaves its loop exactly when the supply has ended, when its consumer has refused its item, or when it
      finds behind an accepted item that another thread has stopped; until then it sets no status and no flag. */
  lemma LeavesExactly(accepts: seq<bool>, s: State, t: nat)
    requires InRange(accepts, s) && Enabled(s, t) && !Stopping(s.pcs[t])
    ensures Stopping(Step(accepts, s, t).pcs[t]) <==>
            || (s.pcs[t].Fetching? && s.next >= |accepts|)
            || (s.pcs[t].Consuming? && !accepts[s.pcs[t].item])
            || (s.pcs[t].Checking? && s.mustStop)
    ensures Step(accepts, s, t).mustStop == s.mustStop && Step(accepts, s, t).failed == s.failed
  {
  }

  // ---------------------------------------------------------------- one thread

  /** foreach_do: how many items a sequential loop takes. */
  function Taken(accepts: seq<bool>): nat
    decreases |accepts|
  {
    if accepts == [] then 0 else if !accepts[0] then 1 else 1 + Taken(accepts[1..])
  }

  lemma {:induction false} TakenIs(accepts: seq<bool>, n: nat)
    requires n <= |accepts| && (forall k :: 0 <= k < n - 1 ==> accepts[k])
    requires n == |accepts| || (n > 0 && !accepts[n - 1])
    ensures Taken(accepts) == n
    decreases |accepts|
  {
    if accepts != [] && accepts[0] {
      TakenIs(accepts[1..], n - 1);
    }
  }

  /** With one thread it is the sequential loop: the items are consumed in the order of the supply, up to the first
      refused one and not beyond it, and FAILED means that there was one. */
  lemma OneThreadIsSequential(accepts: seq<bool>, steps: seq<nat>, s: State)
    requires Run(accepts, Init(1), steps, s) && AllDone(s)
    ensures s.next == Taken(accepts) && |s.consumed| == s.next
    ensures forall i :: 0 <= i < s.next ==> s.consumed[i] == i
    ensures s.failed <==> 0 < s.next <= |accepts| && !accepts[s.next - 1]
    ensures s.next <= |accepts| && forall k :: 0 <= k < s.next - 1 ==> accepts[k]
  {
    hide Run, CallsInOrder, CallersOk;
    Outcome(accepts, 1, steps, s);
    CallsOfOne(accepts, steps, s);
    AllInOrder(s.consumed, s.next);
    forall k | 0 <= k < s.next - 1
      ensures accepts[k]
    {
      assert s.consumed[k] == k;
    }
    if k :| 0 <= k < s.next && !accepts[k] {
      assert s.consumed[k] == k;
    }
    TakenIs(accepts, s.next);
  }

  lemma CallsOfOne(accepts: seq<bool>, steps: seq<nat>, s: State)
    requires Run(accepts, Init(1), steps, s)
    ensures forall i, j :: 0 <= i < j < |s.consumed| ==> s.consumed[i] < s.consumed[j]
    ensures forall i :: 0 <= i < |s.consumed| - 1 ==> s.consumed[i] < |accepts| && accepts[s.consumed[i]]
  {
    hide Run;
    RunKeepsCallers(accepts, 1, steps, s);
    forall i | 0 <= i < |s.consumed| - 1
      ensures s.consumed[i] < |accepts| && accepts[s.consumed[i]]
    {
      assert s.callers[i] == s.callers[i + 1];
    }
  }

  /** The numbers below n, each once and in order. */
  lemma {:induction false} AllInOrder(items: seq<nat>, n: nat)
    requires forall k: nat :: multiset(items)[k] == if k < n then 1 else 0
    requires forall i, j :: 0 <= i < j < |items| ==> items[i] < items[j]
    ensures |items| == n && forall i :: 0 <= i < n ==> items[i] == i
    decreases n
  {
    if items != [] {
      var m := |items| - 1;
      var front: seq<nat>, last := items[..m], items[m];
      assert items == front + [last];
      assert multiset(items) == multiset(front) + multiset{last};
      assert last in multiset(items);
      assert n - 1 in multiset(items);
      assert n - 1 in items;
      assert last == n - 1;
      forall k: nat
        ensures multiset(front)[k] == if k < n - 1 then 1 else 0
      {
        assert multiset(items)[k] == multiset(front)[k] + if k == last then 1 else 0;
      }
      AllInOrder(front, n - 1);
    } else {
      assert n > 0 ==> multiset(items)[0] == 0;
    }
  }

  // ---------------------------------------------------------------- termination

  function Weight(pc: Pc): nat {
    match pc
    case Consuming(_) => 4
    case Checking | Failing => 3
    case Fetching => 2
    case Exiting => 1
    case Done => 0
  }

  /** An upper bound on the steps still to come. */
  function Measure(accepts: seq<bool>, s: State): int {
    3 * (|accepts| - s.next) + Sum(s.pcs, Weight)
  }

  lemma StepDecreases(accepts: seq<bool>, s: State, t: nat)
    requires InRange(accepts, s) && Enabled(s, t)
    ensures Measure(accepts, Step(accepts, s, t)) < Measure(accepts, s)
  {
    SumUpdate(s.pcs, Weight, t, Step(accepts, s, t).pcs[t]);
  }

  lemma {:induction false} RunDecreases(accepts: seq<bool>, s: State, steps: seq<nat>, s': State)
    requires Run(accepts, s, steps, s')
    ensures |steps| + Measure(accepts, s') <= Measure(accepts, s)
  {
    hide Measure, InRange, Step, Enabled;
    if steps != [] {
      var front, t := steps[..|steps| - 1], steps[|steps| - 1];
      var m :| Run(accepts, s, front, m) && InRange(accepts, m) && Enabled(m, t) && s' == Step(accepts, m, t);
      RunDecreases(accepts, s, front, m);
      StepDecreases(accepts, m, t);
    }
  }

  /** With a finite supply all threads end: no run is longer than three steps an item and two a thread, and a
      run that cannot go on has ended every thread. */
  lemma AllThreadsEnd(accepts: seq<bool>, threads: nat, steps: seq<nat>, s: State)
    requires Run(accepts, Init(threads), steps, s)
    ensures |steps| <= 3 * |accepts| + 2 * threads
    ensures (forall t :: !Enabled(s, t)) ==> AllDone(s)
  {
    hide Run;
    InitIsFine(accepts, threads);
    RunKeeps(accepts, Init(threads), steps, s);
    RunDecreases(accepts, Init(threads), steps, s);
    SumConstant(Init(threads).pcs, Weight, Fetching);
    if forall t :: !Enabled(s, t) {
      forall t | 0 <= t < |s.pcs|
        ensures s.pcs[t].Done?
      {
        assert !Enabled(s, t);
      }
    }
  }
}
