/** Coroutines and fibers as a protocol: threads with their nest stacks, fibers with their atomic states, one
    atomic step at a time. A compare-and-exchange and the context switch behind it are one step. */
module Coroutines {
  const MAX_COROUTINE_NEST := 64

  /** A coroutine has no fiber until its constructor returns. */
  datatype FiberState = Unborn | Suspended | Running | Dead

  datatype Coroutine = Coroutine(state: FiberState, isNativeThread: bool, isYieldable: bool)

  /** What the running code of a thread is in the middle of. In every phase but Idle, and in Creating when the
      push succeeded, the top of the nest stack is an entry that the phase is going to pop. */
  datatype Phase =
    | Idle
    | Creating(co: nat, pushed: bool)
    | Entered(co: nat)
    | Attempting(co: nat, seen: FiberState)
    | Refused(co: nat, seen: FiberState)
    | Leaving(co: nat)

  datatype Thread = Thread(nest: seq<nat>, phase: Phase)

  datatype State = State(threads: seq<Thread>, cos: seq<Coroutine>, aborted: bool)

  datatype Event =
    | Spawn
    | BeginNew | EndNew(ok: bool)
    | Resume(co: nat) | ReadState | Exchange | Drop
    | Yield | Finish | Leave
    | SetYieldable(allowed: bool)

  // ---------------------------------------------------------------- steps

  function Top(th: Thread): nat
    requires th.nest != []
  {
    th.nest[|th.nest| - 1]
  }

  function Popped(th: Thread): Thread
    requires th.nest != []
  {
    Thread(th.nest[..|th.nest| - 1], Idle)
  }

  function SetThread(s: State, t: nat, th: Thread): State
    requires t < |s.threads|
  {
    s.(threads := s.threads[t := th])
  }

  function SetFiber(s: State, c: nat, f: FiberState): State
    requires c < |s.cos|
  {
    s.(cos := s.cos[c := s.cos[c].(state := f)])
  }

  /** A thread whose main coroutine runs at the bottom of its nest stack. */
  function SpawnStep(s: State): State {
    s.(threads := s.threads + [Thread([|s.cos|], Idle)], cos := s.cos + [Coroutine(Running, true, true)])
  }

  /** coroutine_new pushes the coroutine under construction, whether or not there is room. */
  function BeginNewStep(s: State, t: nat): State
    requires t < |s.threads|
  {
    var th, c := s.threads[t], |s.cos|;
    var pushed := |th.nest| < MAX_COROUTINE_NEST;
    SetThread(s, t, Thread(if pushed then th.nest + [c] else th.nest, Creating(c, pushed)))
      .(cos := s.cos + [Coroutine(Unborn, false, true)])
  }

  /** It always pops; the fiber comes into being unless preparing the first frame failed. */
  function EndNewStep(s: State, t: nat, ok: bool): State
    requires t < |s.threads| && s.threads[t].phase.Creating? && s.threads[t].nest != []
    requires s.threads[t].phase.co < |s.cos|
  {
    var s' := SetThread(s, t, Popped(s.threads[t]));
    if ok then SetFiber(s', s.threads[t].phase.co, Suspended) else s'
  }

  /** coroutine_resume is refused at once when the nest stack is full. */
  function ResumeStep(s: State, t: nat, c: nat): State
    requires t < |s.threads|
  {
    var th := s.threads[t];
    if |th.nest| >= MAX_COROUTINE_NEST then s else SetThread(s, t, Thread(th.nest + [c], Entered(c)))
  }

  /** fiber_resume reads the state before it tries to change it. */
  function ReadStep(s: State, t: nat): State
    requires t < |s.threads| && s.threads[t].phase.Entered? && s.threads[t].phase.co < |s.cos|
  {
    var th := s.threads[t];
    SetThread(s, t, th.(phase := Attempting(th.phase.co, s.cos[th.phase.co].state)))
  }

  function ExchangeStep(s: State, t: nat): State
    requires t < |s.threads| && s.threads[t].phase.Attempting? && s.threads[t].phase.co < |s.cos|
  {
    var th := s.threads[t];
    var c := th.phase.co;
    if s.cos[c].state == Suspended then SetFiber(SetThread(s, t, th.(phase := Idle)), c, Running)
    else SetThread(s, t, th.(phase := Refused(c, th.phase.seen)))
  }

  /** A refused resume pops its entry; one that saw a suspended fiber aborts the process. */
  function DropStep(s: State, t: nat): State
    requires t < |s.threads| && s.threads[t].phase.Refused? && s.threads[t].nest != []
  {
    if s.threads[t].phase.seen == Suspended then s.(aborted := true)
    else SetThread(s, t, Popped(s.threads[t]))
  }

  /** coroutine_yield of the running coroutine: refused for native threads and where yielding is disabled. */
  function YieldStep(s: State, t: nat): State
    requires t < |s.threads| && s.threads[t].nest != [] && Top(s.threads[t]) < |s.cos|
  {
    var th := s.threads[t];
    var c := Top(th);
    if s.cos[c].isNativeThread || !s.cos[c].isYieldable then s
    else match s.cos[c].state
         case Running => SetFiber(SetThread(s, t, th.(phase := Leaving(c))), c, Suspended)
         case Dead => s.(aborted := true)
         case _ => s
  }

  /** The body of the running fiber has returned. */
  function FinishStep(s: State, t: nat): State
    requires t < |s.threads| && s.threads[t].nest != [] && Top(s.threads[t]) < |s.cos|
  {
    var th := s.threads[t];
    SetFiber(SetThread(s, t, th.(phase := Leaving(Top(th)))), Top(th), Dead)
  }

  predicate Enabled(s: State, t: nat, e: Event) {
    && !s.aborted && t < |s.threads| && s.threads[t].nest != []
    && (forall i :: 0 <= i < |s.threads[t].nest| ==> s.threads[t].nest[i] < |s.cos|)
    && match e
       case Spawn | BeginNew | Yield | SetYieldable(_) => s.threads[t].phase.Idle?
       case Resume(c) => s.threads[t].phase.Idle? && c < |s.cos| && !s.cos[c].state.Unborn?
       case Finish => s.threads[t].phase.Idle? && !s.cos[Top(s.threads[t])].isNativeThread
       case EndNew(_) => s.threads[t].phase.Creating? && s.threads[t].phase.co < |s.cos|
       case ReadState => s.threads[t].phase.Entered? && s.threads[t].phase.co < |s.cos|
       case Exchange => s.threads[t].phase.Attempting? && s.threads[t].phase.co < |s.cos|
       case Drop => s.threads[t].phase.Refused?
       case Leave => s.threads[t].phase.Leaving?
  }

  function Step(s: State, t: nat, e: Event): State
    requires Enabled(s, t, e)
  {
    match e
    case Spawn => SpawnStep(s)
    case BeginNew => BeginNewStep(s, t)
    case EndNew(ok) => EndNewStep(s, t, ok)
    case Resume(c) => ResumeStep(s, t, c)
    case ReadState => ReadStep(s, t)
    case Exchange => ExchangeStep(s, t)
    case Drop => DropStep(s, t)
    case Yield => YieldStep(s, t)
    case Finish => FinishStep(s, t)
    case Leave => SetThread(s, t, Popped(s.threads[t]))
    case SetYieldable(allowed) =>
      var c := Top(s.threads[t]);
      s.(cos := s.cos[c := s.cos[c].(isYieldable := allowed)])
  }

  // ---------------------------------------------------------------- the invariant

  /** The entries of a nest stack without the one that the phase is going to pop. */
  function Settled(th: Thread): seq<nat> {
    if th.phase.Idle? || (th.phase.Creating? && !th.phase.pushed) || th.nest == [] then th.nest
    else th.nest[..|th.nest| - 1]
  }

  function AllSettled(threads: seq<Thread>): (r: seq<seq<nat>>)
    ensures |r| == |threads| && forall t :: 0 <= t < |threads| ==> r[t] == Settled(threads[t])
  {
    if threads == [] then []
    else AllSettled(threads[..|threads| - 1]) + [Settled(threads[|threads| - 1])]
  }

  /** What is settled runs; the main coroutine of each thread, and no other, is native and at the bottom. */
  ghost predicate SettledOk(settled: seq<seq<nat>>, cos: seq<Coroutine>) {
    && (forall t :: 0 <= t < |settled| ==> settled[t] != [])
    && (forall t, i :: 0 <= t < |settled| && 0 <= i < |settled[t]| ==>
                         && settled[t][i] < |cos| && cos[settled[t][i]].state.Running?
                         && (cos[settled[t][i]].isNativeThread <==> i == 0))
  }

  /** Nothing is settled in two places. */
  ghost predicate Unshared(settled: seq<seq<nat>>) {
    forall t, u, i, j ::
      (0 <= t < |settled| && 0 <= i < |settled[t]| && 0 <= u < |settled| && 0 <= j < |settled[u]| &&
       settled[t][i] == settled[u][j]) ==> t == u && i == j
  }

  ghost predicate OnStack(settled: seq<seq<nat>>, c: nat) {
    exists t, i :: 0 <= t < |settled| && 0 <= i < |settled[t]| && settled[t][i] == c
  }

  ghost predicate RunningIsSettled(settled: seq<seq<nat>>, cos: seq<Coroutine>) {
    && (forall c :: 0 <= c < |cos| && cos[c].state.Running? ==> OnStack(settled, c))
    && (forall c :: 0 <= c < |cos| && cos[c].isNativeThread ==> cos[c].state.Running?)
  }

  ghost predicate Core(settled: seq<seq<nat>>, cos: seq<Coroutine>) {
    SettledOk(settled, cos) && Unshared(settled) && RunningIsSettled(settled, cos)
  }

  ghost predicate PhaseOk(th: Thread, cos: seq<Coroutine>) {
    && th.nest != [] && |th.nest| <= MAX_COROUTINE_NEST
    && (!th.phase.Idle? ==>
          && th.phase.co < |cos| && Top(th) == th.phase.co && (th.phase.Creating? ==> th.phase.pushed)
          && (th.phase.Creating? <==> cos[th.phase.co].state.Unborn?))
  }

  /** Two threads do not create the same coroutine. */
  ghost predicate PhasesOk(threads: seq<Thread>, cos: seq<Coroutine>) {
    && (forall t :: 0 <= t < |threads| ==> PhaseOk(threads[t], cos))
    && (forall t, u :: 0 <= t < u < |threads| && threads[t].phase.Creating? && threads[u].phase.Creating? ==>
                         threads[t].phase.co != threads[u].phase.co)
  }

  ghost predicate Inv(s: State) {
    Core(AllSettled(s.threads), s.cos) && PhasesOk(s.threads, s.cos)
  }

  // ---------------------------------------------------------------- the core is kept

  lemma CoreSpawn(settled: seq<seq<nat>>, cos: seq<Coroutine>)
    requires Core(settled, cos)
    ensures Core(settled + [[|cos|]], cos + [Coroutine(Running, true, true)])
  {
    var r, cos' := settled + [[|cos|]], cos + [Coroutine(Running, true, true)];
    forall c | 0 <= c < |cos'| && cos'[c].state.Running?
      ensures OnStack(r, c)
    {
      if c < |cos| {
        var t, i :| 0 <= t < |settled| && 0 <= i < |settled[t]| && settled[t][i] == c;
        assert r[t][i] == c;
      } else {
        assert r[|settled|][0] == c;
      }
    }
  }

  /** A suspended coroutine is on no stack; running it on top of one is safe. */
  lemma CorePush(settled: seq<seq<nat>>, cos: seq<Coroutine>, t: nat, c: nat)
    requires Core(settled, cos) && t < |settled| && c < |cos| && cos[c].state.Suspended?
    ensures Core(settled[t := settled[t] + [c]], cos[c := cos[c].(state := Running)])
  {
    hide SettledOk, Unshared, RunningIsSettled;
    PushedIsOk(settled, cos, t, c);
    PushedIsUnshared(settled, cos, t, c);
    PushedRunningIsSettled(settled, cos, t, c);
  }

  lemma PushedIsOk(settled: seq<seq<nat>>, cos: seq<Coroutine>, t: nat, c: nat)
    requires SettledOk(settled, cos) && RunningIsSettled(settled, cos)
    requires t < |settled| && c < |cos| && cos[c].state.Suspended?
    ensures SettledOk(settled[t := settled[t] + [c]], cos[c := cos[c].(state := Running)])
  {
    hide OnStack;
  }

  lemma PushedIsUnshared(settled: seq<seq<nat>>, cos: seq<Coroutine>, t: nat, c: nat)
    requires SettledOk(settled, cos) && Unshared(settled)
    requires t < |settled| && c < |cos| && cos[c].state.Suspended?
    ensures Unshared(settled[t := settled[t] + [c]])
  {
    assert forall u, i :: 0 <= u < |settled| && 0 <= i < |settled[u]| ==> settled[u][i] != c;
    hide SettledOk;
  }

  lemma PushedRunningIsSettled(settled: seq<seq<nat>>, cos: seq<Coroutine>, t: nat, c: nat)
    requires RunningIsSettled(settled, cos) && t < |settled| && c < |cos| && cos[c].state.Suspended?
    ensures RunningIsSettled(settled[t := settled[t] + [c]], cos[c := cos[c].(state := Running)])
  {
    var r, cos' := settled[t := settled[t] + [c]], cos[c := cos[c].(state := Running)];
    forall d | 0 <= d < |cos'| && cos'[d].state.Running?
      ensures OnStack(r, d)
    {
      if d == c {
        assert r[t][|settled[t]|] == c;
      } else {
        var u, i :| 0 <= u < |settled| && 0 <= i < |settled[u]| && settled[u][i] == d;
        assert r[u][i] == d;
      }
    }
  }

  /** The running coroutine stops and leaves its stack. */
  lemma CorePop(settled: seq<seq<nat>>, cos: seq<Coroutine>, t: nat, f: FiberState)
    requires Core(settled, cos) && t < |settled| && !f.Running?
    requires !cos[settled[t][|settled[t]| - 1]].isNativeThread
    ensures var c := settled[t][|settled[t]| - 1];
            Core(settled[t := settled[t][..|settled[t]| - 1]], cos[c := cos[c].(state := f)])
  {
    var n := |settled[t]| - 1;
    var c := settled[t][n];
    var r, cos' := settled[t := settled[t][..n]], cos[c := cos[c].(state := f)];
    assert n > 0;
    assert forall u, i :: 0 <= u < |r| && 0 <= i < |r[u]| ==> i < |settled[u]| && r[u][i] == settled[u][i] != c;
    assert Unshared(r) by {
      hide SettledOk, RunningIsSettled;
    }
    PoppedRunningIsSettled(settled, cos, t, f);
  }

  lemma PoppedRunningIsSettled(settled: seq<seq<nat>>, cos: seq<Coroutine>, t: nat, f: FiberState)
    requires SettledOk(settled, cos) && RunningIsSettled(settled, cos) && t < |settled| && !f.Running?
    requires !cos[settled[t][|settled[t]| - 1]].isNativeThread
    ensures var c := settled[t][|settled[t]| - 1];
            RunningIsSettled(settled[t := settled[t][..|settled[t]| - 1]], cos[c := cos[c].(state := f)])
  {
    var n := |settled[t]| - 1;
    var c := settled[t][n];
    var r, cos' := settled[t := settled[t][..n]], cos[c := cos[c].(state := f)];
    forall d | 0 <= d < |cos'| && cos'[d].state.Running?
      ensures OnStack(r, d)
    {
      assert d != c && cos[d].state.Running?;
      var u, i :| 0 <= u < |settled| && 0 <= i < |settled[u]| && settled[u][i] == d;
      assert r[u][i] == d;
    }
  }

  /** Changes to coroutines that do not run, and to nothing that matters of those that do. */
  lemma CoreSame(settled: seq<seq<nat>>, cos: seq<Coroutine>, cos': seq<Coroutine>)
    requires Core(settled, cos) && |cos| <= |cos'|
    requires forall c :: 0 <= c < |cos| ==> (cos[c].state.Running? <==> cos'[c].state.Running?)
    requires forall c :: 0 <= c < |cos| ==> cos[c].isNativeThread == cos'[c].isNativeThread
    requires forall c :: |cos| <= c < |cos'| ==> !cos'[c].state.Running? && !cos'[c].isNativeThread
    ensures Core(settled, cos')
  {
  }

  lemma AllSettledUpdate(threads: seq<Thread>, t: nat, th: Thread)
    requires t < |threads|
    ensures AllSettled(threads[t := th]) == AllSettled(threads)[t := Settled(th)]
  {
  }

  lemma AllSettledPush(threads: seq<Thread>, th: Thread)
    ensures AllSettled(threads + [th]) == AllSettled(threads) + [Settled(th)]
  {
  }

  // ---------------------------------------------------------------- every step keeps the invariant

  /** The one step after which the protocol is broken: coroutine_new with a full nest stack. */
  predicate NewOnFull(s: State, t: nat, e: Event) {
    t < |s.threads| && e.BeginNew? && |s.threads[t].nest| >= MAX_COROUTINE_NEST
  }

  /** Steps of one thread that leave its settled entries and all coroutines alone. */
  lemma PhaseStepKeeps(s: State, t: nat, th: Thread)
    requires Inv(s) && t < |s.threads| && Settled(th) == Settled(s.threads[t])
    requires PhaseOk(th, s.cos) && !th.phase.Creating?
    ensures Inv(SetThread(s, t, th))
  {
    hide Core, AllSettled;
    AllSettledUpdate(s.threads, t, th);
    assert AllSettled(s.threads)[t := Settled(th)] == AllSettled(s.threads);
  }

  lemma SpawnKeeps(s: State)
    requires Inv(s)
    ensures Inv(SpawnStep(s))
  {
    hide Core, AllSettled;
    CoreSpawn(AllSettled(s.threads), s.cos);
    AllSettledPush(s.threads, Thread([|s.cos|], Idle));
  }

  lemma BeginNewKeeps(s: State, t: nat)
    requires Inv(s) && t < |s.threads| && s.threads[t].phase.Idle? && |s.threads[t].nest| < MAX_COROUTINE_NEST
    ensures Inv(BeginNewStep(s, t))
  {
    hide Core, AllSettled;
    var r := BeginNewStep(s, t);
    AllSettledUpdate(s.threads, t, r.threads[t]);
    assert Settled(r.threads[t]) == s.threads[t].nest;
    assert AllSettled(s.threads)[t := s.threads[t].nest] == AllSettled(s.threads);
    CoreSame(AllSettled(s.threads), s.cos, r.cos);
  }

  lemma EndNewKeeps(s: State, t: nat, ok: bool)
    requires Inv(s) && t < |s.threads| && s.threads[t].phase.Creating?
    ensures Inv(EndNewStep(s, t, ok))
  {
    hide Core, AllSettled;
    var r := EndNewStep(s, t, ok);
    SettledIsRunning(s, t);
    AllSettledUpdate(s.threads, t, r.threads[t]);
    assert AllSettled(s.threads)[t := Settled(r.threads[t])] == AllSettled(s.threads);
    CoreSame(AllSettled(s.threads), s.cos, r.cos);
  }

  lemma ExchangeKeeps(s: State, t: nat)
    requires Inv(s) && t < |s.threads| && s.threads[t].phase.Attempting?
    ensures Inv(ExchangeStep(s, t))
  {
    hide Core, AllSettled;
    var th := s.threads[t];
    var c := th.phase.co;
    if s.cos[c].state == Suspended {
      AllSettledUpdate(s.threads, t, th.(phase := Idle));
      CorePush(AllSettled(s.threads), s.cos, t, c);
      assert th.nest == Settled(th) + [c];
    } else {
      PhaseStepKeeps(s, t, th.(phase := Refused(c, th.phase.seen)));
    }
  }

  lemma StopKeeps(s: State, t: nat, f: FiberState)
    requires Inv(s) && t < |s.threads| && s.threads[t].phase.Idle? && (f.Suspended? || f.Dead?)
    requires Top(s.threads[t]) < |s.cos| && !s.cos[Top(s.threads[t])].isNativeThread
    ensures var th := s.threads[t];
            Inv(SetFiber(SetThread(s, t, th.(phase := Leaving(Top(th)))), Top(th), f))
  {
    hide Core, AllSettled;
    var th := s.threads[t];
    SettledIsRunning(s, t);
    CorePop(AllSettled(s.threads), s.cos, t, f);
    AllSettledUpdate(s.threads, t, th.(phase := Leaving(Top(th))));
  }

  lemma SettledIsRunning(s: State, t: nat)
    requires Inv(s) && t < |s.threads|
    ensures Settled(s.threads[t]) != []
    ensures forall i :: 0 <= i < |Settled(s.threads[t])| ==>
              Settled(s.threads[t])[i] < |s.cos| && s.cos[Settled(s.threads[t])[i]].state.Running?
  {
    assert AllSettled(s.threads)[t] == Settled(s.threads[t]);
  }

  /** Every step but coroutine_new on a full nest stack keeps the invariant. */
  lemma StepKeeps(s: State, t: nat, e: Event)
    requires Inv(s) && Enabled(s, t, e) && !NewOnFull(s, t, e)
    ensures Inv(Step(s, t, e))
  {
    hide Core, AllSettled, PhasesOk;
    match e
    case Spawn => SpawnKeeps(s);
    case BeginNew => BeginNewKeeps(s, t);
    case EndNew(ok) => EndNewKeeps(s, t, ok);
    case Resume(c) => ResumeKeeps(s, t, c);
    case ReadState => ReadKeeps(s, t);
    case Exchange => ExchangeKeeps(s, t);
    case Drop => PopKeeps(s, t);
    case Yield =>
      SettledIsRunning(s, t);
      var c := Top(s.threads[t]);
      if !s.cos[c].isNativeThread && s.cos[c].isYieldable {
        StopKeeps(s, t, Suspended);
      }
    case Finish => StopKeeps(s, t, Dead);
    case Leave => PopKeeps(s, t);
    case SetYieldable(allowed) => YieldableKeeps(s, t, allowed);
  }

  lemma ResumeKeeps(s: State, t: nat, c: nat)
    requires Inv(s) && Enabled(s, t, Resume(c))
    ensures Inv(ResumeStep(s, t, c))
  {
    hide Core, AllSettled;
    var th := s.threads[t];
    if |th.nest| < MAX_COROUTINE_NEST {
      PhaseStepKeeps(s, t, Thread(th.nest + [c], Entered(c)));
    }
  }

  lemma ReadKeeps(s: State, t: nat)
    requires Inv(s) && Enabled(s, t, ReadState)
    ensures Inv(ReadStep(s, t))
  {
    var th := s.threads[t];
    PhaseStepKeeps(s, t, th.(phase := Attempting(th.phase.co, s.cos[th.phase.co].state)));
  }

  lemma PopKeeps(s: State, t: nat)
    requires Inv(s) && t < |s.threads| && (s.threads[t].phase.Refused? || s.threads[t].phase.Leaving?)
    ensures Inv(SetThread(s, t, Popped(s.threads[t]))) && Inv(s.(aborted := true))
  {
    SettledIsRunning(s, t);
    PhaseStepKeeps(s, t, Popped(s.threads[t]));
  }

  lemma YieldableKeeps(s: State, t: nat, allowed: bool)
    requires Inv(s) && Enabled(s, t, SetYieldable(allowed))
    ensures Inv(Step(s, t, SetYieldable(allowed)))
  {
    hide Core, AllSettled;
    CoreSame(AllSettled(s.threads), s.cos, Step(s, t, SetYieldable(allowed)).cos);
  }

  // ---------------------------------------------------------------- runs

  /** A step of a thread, in a run. */
  datatype Action = Action(thread: nat, event: Event)

  /** The machine as it starts: one thread, whose main coroutine runs. */
  function Init(): State {
    SpawnStep(State([], [], false))
  }

  /** s' is reached from s by these actions, none of which is a coroutine_new on a full nest stack. */
  ghost predicate Run(s: State, actions: seq<Action>, s': State)
    decreases |actions|
  {
    if actions == [] then s' == s
    else
      var a := actions[|actions| - 1];
      exists m :: Run(s, actions[..|actions| - 1], m) && Moves(m, a, s')
  }

  ghost predicate Moves(s: State, a: Action, s': State) {
    && Enabled(s, a.thread, a.event) && !NewOnFull(s, a.thread, a.event)
    && s' == Step(s, a.thread, a.event)
  }

  lemma {:induction false} RunKeeps(s: State, actions: seq<Action>, s': State)
    requires Inv(s) && Run(s, actions, s')
    ensures Inv(s')
  {
    hide Inv, Enabled, Step, NewOnFull;
    if actions != [] {
      var a := actions[|actions| - 1];
      var m :| Run(s, actions[..|actions| - 1], m) && Moves(m, a, s');
      RunKeeps(s, actions[..|actions| - 1], m);
      StepKeeps(m, a.thread, a.event);
    }
  }

  lemma InitIsFine()
    ensures Inv(Init())
  {
    SpawnKeeps(State([], [], false));
  }

  /** The entry that a phase is going to pop: the coroutine that is being created, resumed or left. */
  function Extra(th: Thread): seq<nat> {
    if th.phase.Idle? then [] else [th.phase.co]
  }

  /** A nest stack is the stack of running coroutines, and outside the idle phase one entry more: the coroutine
      that is being created, resumed or left. */
  lemma RawStack(s: State, t: nat)
    requires Inv(s) && t < |s.threads|
    ensures var th := s.threads[t];
            && Settled(th) != [] && |th.nest| <= MAX_COROUTINE_NEST
            && th.nest == Settled(th) + Extra(th)
            && (th.nest == Settled(th) <==> th.phase.Idle?)
  {
    hide AllSettled, Core;
    SettledIsRunning(s, t);
  }

  /** In every state of every run: a nest stack holds at most 64 entries, namely the running coroutines of its
      thread and, outside the idle phase, the one that is being created, resumed or left. Of the running coroutines,
      the main one is at the bottom and nowhere else, and none is on two stacks or twice on one; and a fiber runs
      exactly when it is among them. */
  lemma Safety(actions: seq<Action>, s: State)
    requires Run(Init(), actions, s)
    ensures var stacks := AllSettled(s.threads);
            && (forall t :: 0 <= t < |s.threads| ==>
                  && stacks[t] != [] && |s.threads[t].nest| <= 64
                  && s.threads[t].nest == stacks[t] + Extra(s.threads[t]))
            && (forall t, i :: 0 <= t < |stacks| && 0 <= i < |stacks[t]| ==>
                  stacks[t][i] < |s.cos| && (s.cos[stacks[t][i]].isNativeThread <==> i == 0))
            && Unshared(stacks)
            && (forall c :: 0 <= c < |s.cos| ==> (s.cos[c].state.Running? <==> OnStack(stacks, c)))
  {
    hide Settled, AllSettled, Run, Init, Top;
    InitIsFine();
    RunKeeps(Init(), actions, s);
    forall t | 0 <= t < |s.threads|
      ensures |s.threads[t].nest| <= MAX_COROUTINE_NEST
      ensures s.threads[t].nest == AllSettled(s.threads)[t] + Extra(s.threads[t])
    {
      RawStack(s, t);
    }
  }

  /** An entry of a nest stack is proper when its fiber runs and no other stack, and no other place of this one,
      holds it among the running coroutines. */
  ghost predicate Proper(s: State, t: nat, i: nat)
    requires t < |s.threads| && i < |s.threads[t].nest|
  {
    var c, stacks := s.threads[t].nest[i], AllSettled(s.threads);
    && c < |s.cos| && s.cos[c].state.Running?
    && forall u, j :: 0 <= u < |stacks| && 0 <= j < |stacks[u]| && stacks[u][j] == c ==> u == t && j == i
  }

  /** Every entry of a nest stack but the one on top is proper in every phase; the one on top is proper exactly in
      the idle phase. While a coroutine is created, a resume has not exchanged yet or is about to be refused, or a
      fiber has been left, it is a duplicate or a coroutine that does not run. */
  lemma ProperExactly(s: State, t: nat, i: nat)
    requires Inv(s) && t < |s.threads| && i < |s.threads[t].nest|
    ensures Proper(s, t, i) <==> i < |s.threads[t].nest| - 1 || s.threads[t].phase.Idle?
    ensures s.threads[t].phase.Creating? ==> s.cos[s.threads[t].phase.co].state.Unborn?
  {
    hide AllSettled;
    RawStack(s, t);
    var th, stacks := s.threads[t], AllSettled(s.threads);
    assert stacks[t] == Settled(th);
    if i < |stacks[t]| {
      assert stacks[t][i] == th.nest[i];
    } else if s.cos[th.nest[i]].state.Running? {
      var u, j :| 0 <= u < |stacks| && 0 <= j < |stacks[u]| && stacks[u][j] == th.nest[i];
      assert u != t || j != i;
    }
  }

  /** Both kinds of improper entry occur: a thread may try to resume its own main coroutine, which is then on its
      stack twice, and any coroutine that it resumes is on its stack before it runs. */
  lemma ImproperEntries() returns (again: State, early: State)
    ensures Run(Init(), [Action(0, Resume(0))], again) && again.threads[0].nest == [0, 0]
    ensures exists actions :: Run(Init(), actions, early)
    ensures early.threads[0].nest == [0, 1] && |early.cos| == 2 && early.cos[1].state == Suspended
  {
    hide Run;
    var start := Init();
    EmptyRun(start);
    var actions: seq<Action>;
    actions, again := RunMore(start, [], start, Action(0, Resume(0)));
    actions, early := CreateOne(start, [], start, 0);
    actions, early := RunMore(start, actions, early, Action(0, Resume(1)));
  }

  // ---------------------------------------------------------------- the life of a fiber

  /** A fiber is born suspended, runs only when suspended, and is suspended or dies only when it runs. */
  lemma FiberLife(s: State, t: nat, e: Event, c: nat)
    requires Inv(s) && Enabled(s, t, e) && !NewOnFull(s, t, e) && c < |s.cos|
    ensures var before, after := s.cos[c].state, Step(s, t, e).cos[c].state;
            before != after ==>
              || (before == Unborn && after == Suspended && e == EndNew(true))
              || (before == Suspended && after == Running && e == Exchange)
              || (before == Running && after == Suspended && e == Yield)
              || (before == Running && after == Dead && e == Finish)
  {
    hide AllSettled, Core;
    SettledIsRunning(s, t);
  }

  /** DEAD is permanent. */
  lemma {:induction false} DeadForever(s: State, actions: seq<Action>, s': State, c: nat)
    requires Inv(s) && Run(s, actions, s') && c < |s.cos| && s.cos[c].state == Dead
    ensures c < |s'.cos| && s'.cos[c].state == Dead
  {
    hide Inv, Enabled, NewOnFull;
    if actions != [] {
      var front, a := actions[..|actions| - 1], actions[|actions| - 1];
      var m :| Run(s, front, m) && Moves(m, a, s');
      DeadForever(s, front, m, c);
      RunKeeps(s, front, m);
      FiberLife(m, a.thread, a.event, c);
      CoroutinesStay(m, a.thread, a.event);
    }
  }

  lemma CoroutinesStay(s: State, t: nat, e: Event)
    requires Enabled(s, t, e)
    ensures |s.cos| <= |Step(s, t, e).cos|
  {
  }

  // ---------------------------------------------------------------- refused resumes

  /** What a resume does before it is refused: enter, read the state, fail to exchange it, drop the entry. */
  predicate RefusalStep(s: State, t: nat, e: Event) {
    && Enabled(s, t, e)
    && match e
       case Resume(_) | ReadState | Drop => true
       case Exchange => !s.cos[s.threads[t].phase.co].state.Suspended?
       case _ => false
  }

  ghost predicate OnlyRefusals(s: State, actions: seq<Action>, s': State, t: nat)
    decreases |actions|
  {
    if actions == [] then s' == s
    else
      var a := actions[|actions| - 1];
      exists m ::
        && OnlyRefusals(s, actions[..|actions| - 1], m, t) && Moves(m, a, s')
        && (a.thread == t ==> RefusalStep(m, t, a.event))
  }

  /** The steps of a refused resume change no fiber and no settled stack of any thread. */
  lemma RefusalTouchesNothing(s: State, t: nat, e: Event)
    requires Inv(s) && RefusalStep(s, t, e)
    ensures Step(s, t, e).cos == s.cos && AllSettled(Step(s, t, e).threads) == AllSettled(s.threads)
  {
    hide AllSettled, Core;
    var r := Step(s, t, e);
    AllSettledUpdate(s.threads, t, r.threads[t]);
    assert Settled(r.threads[t]) == Settled(s.threads[t]);
    assert AllSettled(s.threads)[t := Settled(s.threads[t])] == AllSettled(s.threads);
    assert r.threads == s.threads[t := r.threads[t]];
  }

  lemma OthersLeaveAlone(s: State, u: nat, e: Event, t: nat)
    requires Enabled(s, u, e) && u != t && t < |s.threads|
    ensures t < |Step(s, u, e).threads| && Step(s, u, e).threads[t] == s.threads[t]
  {
  }

  /** However many resumes of a thread are refused, and whatever other threads do meanwhile, its stack of
      running coroutines stays what it was. */
  lemma {:induction false} RefusedResumesChangeNoStack(s: State, actions: seq<Action>, s': State, t: nat)
    requires Inv(s) && t < |s.threads| && OnlyRefusals(s, actions, s', t)
    ensures Inv(s') && t < |s'.threads| && Settled(s'.threads[t]) == Settled(s.threads[t])
    ensures s.threads[t].phase.Idle? && s'.threads[t].phase.Idle? ==> s'.threads[t] == s.threads[t]
  {
    hide Inv, Enabled, NewOnFull, RefusalStep, AllSettled;
    if actions != [] {
      var front, a := actions[..|actions| - 1], actions[|actions| - 1];
      var m :| && OnlyRefusals(s, front, m, t) && Moves(m, a, s')
               && (a.thread == t ==> RefusalStep(m, t, a.event));
      RefusedResumesChangeNoStack(s, front, m, t);
      StepKeeps(m, a.thread, a.event);
      if a.thread == t {
        RefusalTouchesNothing(m, t, a.event);
        assert AllSettled(s'.threads)[t] == AllSettled(m.threads)[t];
      } else {
        OthersLeaveAlone(m, a.thread, a.event, t);
      }
    }
  }

  /** A resume that no other thread interrupts: refused on a full nest stack and for a fiber that is not suspended,
      with nothing changed; otherwise the fiber runs, on top of the nest stack. */
  lemma ResumeExactly(s: State, t: nat, c: nat)
    requires Inv(s) && Enabled(s, t, Resume(c))
    ensures var th := s.threads[t];
            var s1 := Step(s, t, Resume(c));
            if |th.nest| == MAX_COROUTINE_NEST then s1 == s
            else
              && Enabled(s1, t, ReadState)
              && var s2 := Step(s1, t, ReadState);
              && Enabled(s2, t, Exchange)
              && var s3 := Step(s2, t, Exchange);
              if s.cos[c].state.Suspended? then
                s3 == SetFiber(SetThread(s, t, Thread(th.nest + [c], Idle)), c, Running)
              else
                Enabled(s3, t, Drop) && Step(s3, t, Drop) == s
  {
    hide Core, AllSettled;
    var th := s.threads[t];
    if |th.nest| < MAX_COROUTINE_NEST {
      var s1 := Step(s, t, Resume(c));
      var s2 := Step(s1, t, ReadState);
      assert s2.threads == s.threads[t := Thread(th.nest + [c], Attempting(c, s.cos[c].state))];
      var s3 := Step(s2, t, Exchange);
      if s.cos[c].state.Suspended? {
        assert s3.threads == s.threads[t := Thread(th.nest + [c], Idle)];
      } else {
        assert s3.threads == s.threads[t := Thread(th.nest + [c], Refused(c, s.cos[c].state))];
        assert (th.nest + [c])[..|th.nest|] == th.nest;
        assert Popped(s3.threads[t]) == th;
        assert s.threads[t := th] == s.threads;
      }
    }
  }

  /** A yield suspends the running coroutine exactly when it is not the thread's main coroutine and yielding is
      allowed, and gives the nest stack back as it was before the resume; otherwise it changes nothing. */
  lemma YieldExactly(s: State, t: nat)
    requires Inv(s) && Enabled(s, t, Yield)
    ensures var th := s.threads[t];
            var c := Top(th);
            var r := Step(s, t, Yield);
            if |th.nest| > 1 && s.cos[c].isYieldable then
              && Enabled(r, t, Leave)
              && Step(r, t, Leave) == SetFiber(SetThread(s, t, Thread(th.nest[..|th.nest| - 1], Idle)), c, Suspended)
            else r == s
  {
    hide AllSettled, Core;
    var th := s.threads[t];
    SettledIsRunning(s, t);
    MainIsAtTheBottom(s, t);
    var r := Step(s, t, Yield);
    if |th.nest| > 1 && s.cos[Top(th)].isYieldable {
      assert Step(r, t, Leave).threads == s.threads[t := Thread(th.nest[..|th.nest| - 1], Idle)];
    }
  }

  /** After yielding has been disallowed a yield changes nothing; after it has been allowed one suspends the running
      coroutine, unless it is the main one. No other coroutine, and nothing else of this one, is touched. */
  lemma YieldingIsSwitched(s: State, t: nat)
    requires Inv(s) && Enabled(s, t, Yield)
    ensures var c := Top(s.threads[t]);
            var off, on := Step(s, t, SetYieldable(false)), Step(s, t, SetYieldable(true));
            && Enabled(off, t, Yield) && Step(off, t, Yield) == off
            && Enabled(on, t, Yield)
            && (|s.threads[t].nest| > 1 ==>
                  && Enabled(Step(on, t, Yield), t, Leave)
                  && Step(Step(on, t, Yield), t, Leave)
                     == SetFiber(SetThread(on, t, Thread(s.threads[t].nest[..|s.threads[t].nest| - 1], Idle)), c,
                                 Suspended))
            && off.threads == on.threads == s.threads && |off.cos| == |on.cos| == |s.cos|
            && off.cos[c].(isYieldable := true) == s.cos[c].(isYieldable := true) == on.cos[c]
            && (forall d :: 0 <= d < |s.cos| && d != c ==> off.cos[d] == on.cos[d] == s.cos[d])
  {
    hide AllSettled, Core;
    var off, on := Step(s, t, SetYieldable(false)), Step(s, t, SetYieldable(true));
    StepKeeps(s, t, SetYieldable(false));
    StepKeeps(s, t, SetYieldable(true));
    YieldExactly(off, t);
    YieldExactly(on, t);
  }

  /** When the body of the running fiber returns, the fiber is dead and the nest stack is the one from before the
      resume. */
  lemma FinishExactly(s: State, t: nat)
    requires Inv(s) && Enabled(s, t, Finish)
    ensures var th, r := s.threads[t], Step(s, t, Finish);
            && Enabled(r, t, Leave)
            && Step(r, t, Leave) == SetFiber(SetThread(s, t, Thread(th.nest[..|th.nest| - 1], Idle)), Top(th), Dead)
  {
    hide AllSettled, Core;
    var r := Step(s, t, Finish);
    assert Step(r, t, Leave).threads == s.threads[t := Popped(s.threads[t])];
  }

  lemma MainIsAtTheBottom(s: State, t: nat)
    requires Inv(s) && t < |s.threads| && s.threads[t].phase.Idle?
    ensures Top(s.threads[t]) < |s.cos|
    ensures s.cos[Top(s.threads[t])].isNativeThread <==> |s.threads[t].nest| == 1
  {
    hide AllSettled, Unshared, RunningIsSettled;
    var stack := AllSettled(s.threads)[t];
    assert stack == s.threads[t].nest;
    assert stack[|stack| - 1] == Top(s.threads[t]);
  }

  // ---------------------------------------------------------------- coroutine_new

  /** coroutine_new keeps the protocol exactly when there is room for one more coroutine on the nest stack;
      without room it pops the running coroutine. */
  lemma NewKeepsExactly(s: State, t: nat, ok: bool)
    requires Inv(s) && Enabled(s, t, BeginNew)
    ensures Enabled(BeginNewStep(s, t), t, EndNew(ok))
    ensures Inv(EndNewStep(BeginNewStep(s, t), t, ok)) <==> |s.threads[t].nest| < MAX_COROUTINE_NEST
    ensures EndNewStep(BeginNewStep(s, t), t, ok).threads[t].nest ==
            if |s.threads[t].nest| < MAX_COROUTINE_NEST then s.threads[t].nest
            else s.threads[t].nest[..MAX_COROUTINE_NEST - 1]
  {
    hide AllSettled, Core;
    if |s.threads[t].nest| < MAX_COROUTINE_NEST {
      BeginNewKeeps(s, t);
      EndNewKeeps(BeginNewStep(s, t), t, ok);
    } else {
      LostCoroutine(s, t, EndNewStep(BeginNewStep(s, t), t, ok));
    }
  }

  /** A running coroutine that was taken off its stack is on none. */
  lemma LostCoroutine(s: State, t: nat, s': State)
    requires Inv(s) && t < |s.threads| && s.threads[t].phase.Idle?
    requires s'.threads == s.threads[t := Popped(s.threads[t])]
    requires Top(s.threads[t]) < |s.cos| <= |s'.cos|
    requires s'.cos[Top(s.threads[t])] == s.cos[Top(s.threads[t])]
    ensures !Inv(s')
  {
    hide AllSettled;
    var settled, lost := AllSettled(s.threads), Top(s.threads[t]);
    SettledIsRunning(s, t);
    AllSettledUpdate(s.threads, t, Popped(s.threads[t]));
    var settled' := AllSettled(s'.threads);
    var n := |settled[t]| - 1;
    assert settled' == settled[t := settled[t][..n]] && settled[t][n] == lost;
    forall u, i | 0 <= u < |settled'| && 0 <= i < |settled'[u]|
      ensures settled'[u][i] != lost
    {
      assert settled'[u][i] == settled[u][i] && (u != t || i != n);
    }
    assert !OnStack(settled', lost);
  }

  // ---------------------------------------------------------------- aborts

  /** The process aborts exactly when a resume that saw a suspended fiber was refused: another thread changed
      the fiber between the read and the exchange. */
  lemma AbortsExactly(s: State, t: nat, e: Event)
    requires Inv(s) && Enabled(s, t, e)
    ensures Step(s, t, e).aborted <==> e == Drop && s.threads[t].phase.seen == Suspended
  {
    hide AllSettled, Core;
    SettledIsRunning(s, t);
  }

  /** While one thread resumes, what it saw is what there is. */
  ghost predicate SeenIsTrue(s: State) {
    && |s.threads| == 1 && !s.aborted
    && var phase := s.threads[0].phase;
       && ((phase.Attempting? || phase.Refused?) ==> phase.co < |s.cos| && phase.seen == s.cos[phase.co].state)
       && (phase.Refused? ==> phase.seen != Suspended)
  }

  lemma {:induction false} OneThreadNeverAborts(actions: seq<Action>, s: State)
    requires Run(Init(), actions, s)
    requires forall i :: 0 <= i < |actions| ==> actions[i].event != Spawn
    ensures SeenIsTrue(s)
  {
    hide Inv, Core, AllSettled, SeenIsTrue, Enabled, Step, NewOnFull, Init;
    InitIsSmall();
    if actions == [] {
      assert SeenIsTrue(s) by { InitSeesTrue(); }
    } else {
      var front, a := actions[..|actions| - 1], actions[|actions| - 1];
      var m :| Run(Init(), front, m) && Moves(m, a, s);
      assert forall i :: 0 <= i < |front| ==> front[i] == actions[i];
      OneThreadNeverAborts(front, m);
      InitIsFine();
      RunKeeps(Init(), front, m);
      SeenStaysTrue(m, a.thread, a.event);
    }
  }

  lemma InitSeesTrue()
    ensures SeenIsTrue(Init())
  {
  }

  lemma SeenStaysTrue(s: State, t: nat, e: Event)
    requires Inv(s) && SeenIsTrue(s) && Enabled(s, t, e) && e != Spawn
    ensures SeenIsTrue(Step(s, t, e))
  {
    hide AllSettled, Core;
    AbortsExactly(s, t, e);
  }

  lemma RunMore(s: State, actions: seq<Action>, m: State, a: Action) returns (more: seq<Action>, s': State)
    requires Run(s, actions, m) && Enabled(m, a.thread, a.event) && !NewOnFull(m, a.thread, a.event)
    ensures s' == Step(m, a.thread, a.event) && more == actions + [a] && Run(s, more, s')
  {
    more, s' := actions + [a], Step(m, a.thread, a.event);
    assert more[..|more| - 1] == actions && more[|more| - 1] == a;
    assert Run(s, more[..|more| - 1], m) && Moves(m, more[|more| - 1], s');
  }

  predicate ReadyThread(s: State, t: nat) {
    && t < |s.threads| && !s.aborted && s.threads[t].phase.Idle? && 0 < |s.threads[t].nest| < MAX_COROUTINE_NEST
    && forall i :: 0 <= i < |s.threads[t].nest| ==> s.threads[t].nest[i] < |s.cos|
  }

  /** A whole coroutine_new. */
  lemma CreateOne(start: State, actions: seq<Action>, s: State, t: nat) returns (more: seq<Action>, s': State)
    requires Run(start, actions, s) && ReadyThread(s, t)
    ensures Run(start, more, s') && s' == s.(cos := s.cos + [Coroutine(Suspended, false, true)])
  {
    hide Run;
    var m: State;
    more, m := RunMore(start, actions, s, Action(t, BeginNew));
    more, s' := RunMore(start, more, m, Action(t, EndNew(true)));
    assert s'.threads[t].nest == s.threads[t].nest;
    assert s'.threads == s.threads;
    assert s'.cos == s.cos + [Coroutine(Suspended, false, true)];
  }

  /** A resume up to the point where it has read the state of the fiber. */
  lemma ResumeAndRead(start: State, actions: seq<Action>, s: State, t: nat, c: nat)
    returns (more: seq<Action>, s': State)
    requires Run(start, actions, s) && ReadyThread(s, t) && c < |s.cos| && !s.cos[c].state.Unborn?
    ensures Run(start, more, s')
    ensures s' == SetThread(s, t, Thread(s.threads[t].nest + [c], Attempting(c, s.cos[c].state)))
  {
    hide Run;
    var m: State;
    more, m := RunMore(start, actions, s, Action(t, Resume(c)));
    more, s' := RunMore(start, more, m, Action(t, ReadState));
  }

  /** Two threads that resume one suspended coroutine at the same time can abort the process. */
  lemma ResumeRace() returns (actions: seq<Action>, s: State)
    ensures Run(Init(), actions, s) && s.aborted
  {
    hide Run;
    var start := Init();
    EmptyRun(start);
    actions, s := CreateOne(start, [], start, 0);
    actions, s := RunMore(start, actions, s, Action(0, Spawn));
    actions, s := ResumeAndRead(start, actions, s, 0, 1);
    actions, s := ResumeAndRead(start, actions, s, 1, 1);
    actions, s := RunMore(start, actions, s, Action(1, Exchange));
    assert s.cos[1].state == Running && s.threads[0].phase == Attempting(1, Suspended);
    actions, s := RunMore(start, actions, s, Action(0, Exchange));
    assert s.threads[0].phase == Refused(1, Suspended);
    actions, s := RunMore(start, actions, s, Action(0, Drop));
  }

  /** The nest stack can be filled, so the case in which coroutine_new breaks the protocol does occur. */
  lemma {:induction false} NestCanBeFilled(depth: nat) returns (actions: seq<Action>, s: State)
    requires 1 <= depth <= 64
    ensures Run(Init(), actions, s) && Inv(s) && !s.aborted
    ensures |s.threads| == 1 && s.threads[0].phase.Idle? && |s.threads[0].nest| == depth
  {
    hide Run, Inv, Init;
    InitIsFine();
    if depth == 1 {
      actions, s := [], Init();
      EmptyRun(Init());
      InitIsSmall();
    } else {
      actions, s := NestCanBeFilled(depth - 1);
      var c := |s.cos|;
      InNest(s);
      actions, s := CreateOne(Init(), actions, s, 0);
      actions, s := ResumeAndRead(Init(), actions, s, 0, c);
      actions, s := RunMore(Init(), actions, s, Action(0, Exchange));
      RunKeeps(Init(), actions, s);
    }
  }

  lemma InitIsSmall()
    ensures Init() == State([Thread([0], Idle)], [Coroutine(Running, true, true)], false)
  {
  }

  lemma EmptyRun(s: State)
    ensures Run(s, [], s)
  {
  }

  lemma InNest(s: State)
    requires Inv(s) && |s.threads| == 1 && s.threads[0].phase.Idle?
    ensures |s.threads[0].nest| > 0
    ensures forall i :: 0 <= i < |s.threads[0].nest| ==> s.threads[0].nest[i] < |s.cos|
  {
    SettledIsRunning(s, 0);
  }
}
