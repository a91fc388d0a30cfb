/**
 * The event loop's queue of functors under every interleaving of the loop thread with threads that queue.
 * Queueing is two steps, the push under the lock and the write to the eventfd; the loop blocks only in poll.
 */
module EventLoop {

  type Thread = nat
  type Functor = nat

  /**
   * Where the loop thread is. `wakeDue` is set between its own push and its own wakeup. The functors of a batch are
   * destroyed after all of them were called, when the flag that they are being called is off again.
   */
  datatype Phase =
    | Polling
    | Handling(woken: bool)
    | BeforeSwap
    | Running(batch: seq<Functor>, wakeDue: bool)
    | Destroying

  datatype State = State(
    pending: seq<Functor>,
    counter: nat,
    waking: set<Thread>,
    phase: Phase,
    // History: everything executed, everything queued, how much of it was queued before the loop started, and the
    // functors that the destructors of the last batch queued.
    executed: seq<Functor>,
    queued: seq<Functor>,
    early: nat,
    silent: seq<Functor>)

  datatype Step =
    | Push(t: Thread, f: Functor)
    | Wakeup(t: Thread)
    | PollReturns(woken: bool)
    | HandleRead
    | LoopPush(f: Functor)
    | LoopWakeup
    | HandlingDone
    | Swap
    | RunNext
    | RunDone
    | Destroyed

  /** The loop has just started: anything may be left from before. */
  predicate Init(s: State) {
    s.phase == Polling && s.executed == [] && s.queued == s.pending && s.early == |s.pending| && s.silent == []
  }

  predicate Enabled(s: State, step: Step) {
    match step
    case Push(t, _) => t !in s.waking
    case Wakeup(t) => t in s.waking
    case PollReturns(woken) => s.phase.Polling? && (woken ==> s.counter > 0)
    case HandleRead => s.phase.Handling? && s.phase.woken
    case LoopPush(_) => s.phase.Handling? || (s.phase.Running? && !s.phase.wakeDue) || s.phase.Destroying?
    case LoopWakeup => s.phase.Running? && s.phase.wakeDue
    case HandlingDone => s.phase.Handling? && !s.phase.woken
    case Swap => s.phase.BeforeSwap?
    case RunNext => s.phase.Running? && !s.phase.wakeDue && s.phase.batch != []
    case RunDone => s.phase.Running? && !s.phase.wakeDue && s.phase.batch == []
    case Destroyed => s.phase.Destroying?
  }

  function Apply(s: State, step: Step): State
    requires Enabled(s, step)
  {
    match step
    case Push(t, f) => s.(pending := s.pending + [f], waking := s.waking + {t}, queued := s.queued + [f])
    case Wakeup(t) => s.(counter := s.counter + 1, waking := s.waking - {t})
    case PollReturns(woken) => s.(phase := Handling(woken))
    case HandleRead => s.(counter := 0, phase := Handling(false))
    // The loop thread itself wakes only while functors are being called.
    case LoopPush(f) =>
      s.(pending := s.pending + [f], queued := s.queued + [f],
         phase := if s.phase.Running? then s.phase.(wakeDue := true) else s.phase,
         silent := if s.phase.Destroying? then s.silent + [f] else s.silent)
    case LoopWakeup => s.(counter := s.counter + 1, phase := s.phase.(wakeDue := false))
    case HandlingDone => s.(phase := BeforeSwap)
    case Swap => s.(phase := Running(s.pending, false), pending := [], silent := [])
    case RunNext => s.(executed := s.executed + [s.phase.batch[0]], phase := s.phase.(batch := s.phase.batch[1..]))
    case RunDone => s.(phase := Destroying)
    case Destroyed => s.(phase := Polling)
  }

  // ---- the invariant ----

  function Batch(s: State): seq<Functor> {
    if s.phase.Running? then s.phase.batch else []
  }

  /** Nothing is lost, doubled or overtaken. */
  predicate InOrder(s: State) {
    s.executed + Batch(s) + s.pending == s.queued
  }

  /** A functor queued since the loop started waits in the queue. */
  predicate NewWaits(s: State) {
    s.pending != [] && |s.queued| > s.early
  }

  /** The eventfd is readable, or a thread is between its push and its wakeup. */
  predicate WakeupComes(s: State) {
    s.counter > 0 || s.waking != {}
  }

  predicate Inv(s: State) {
    && InOrder(s)
    && s.early <= |s.queued|
    && (s.phase.Polling? && NewWaits(s) ==> WakeupComes(s) || s.pending == s.silent)
    && (s.phase.Destroying? && s.pending != [] ==> WakeupComes(s) || s.pending == s.silent)
    && (s.phase.Running? && s.pending != [] ==> WakeupComes(s) || s.phase.wakeDue)
    // Once a batch was taken, what is queued came after it.
    && (s.phase.Running? || s.phase.Destroying? ==> |s.queued| - |s.pending| >= s.early)
    && (s.phase.Running? ==> s.silent == [])
    // What destructors queued is still there, and new.
    && |s.silent| <= |s.pending| && |s.silent| <= |s.queued| - s.early
  }

  lemma StepKeepsOrder(s: State, step: Step)
    requires InOrder(s) && Enabled(s, step)
    ensures InOrder(Apply(s, step))
  {
    match step
    case Push(_, f) => Behind(s.executed + Batch(s), s.pending, f);
    case LoopPush(f) => Behind(s.executed + Batch(s), s.pending, f);
    case Swap => assert s.executed + s.pending + [] == s.executed + [] + s.pending;
    case RunNext =>
      var b := s.phase.batch;
      assert s.executed + [b[0]] + b[1..] == s.executed + b;
    case _ =>
  }

  lemma Behind(done: seq<Functor>, pending: seq<Functor>, f: Functor)
    ensures done + (pending + [f]) == done + pending + [f]
  {
  }

  lemma StepKeepsInv(s: State, step: Step)
    requires Inv(s) && Enabled(s, step)
    ensures Inv(Apply(s, step))
  {
    StepKeepsOrder(s, step);
    assert |s.executed| + |Batch(s)| + |s.pending| == |s.queued|;
    hide InOrder;
    if step.Push? {
      assert step.t in Apply(s, step).waking;
    }
  }

  // ---- whole runs ----

  ghost predicate IsRun(states: seq<State>, steps: seq<Step>) {
    && |states| == |steps| + 1
    && Init(states[0])
    && forall i | 0 <= i < |steps| :: Enabled(states[i], steps[i]) && states[i + 1] == Apply(states[i], steps[i])
  }

  lemma {:induction false} RunKeepsInv(states: seq<State>, steps: seq<Step>, n: nat)
    requires IsRun(states, steps) && n < |states|
    ensures Inv(states[n])
    decreases n
  {
    hide Inv, Apply, Enabled;
    if n == 0 {
      InitIsGood(states[0]);
    } else {
      RunKeepsInv(states, steps, n - 1);
      StepKeepsInv(states[n - 1], steps[n - 1]);
    }
  }

  lemma InitIsGood(s: State)
    requires Init(s)
    ensures Inv(s)
  {
    assert s.executed + [] + s.pending == s.queued;
  }

  // ---- what a run was asked for, from its steps ----

  /** The functors of all calls of queueInLoop, in their order. */
  function Asked(steps: seq<Step>): seq<Functor> {
    if steps == [] then []
    else
      var last := steps[|steps| - 1];
      Asked(steps[..|steps| - 1]) + if last.Push? || last.LoopPush? then [last.f] else []
  }

  lemma AskedNext(steps: seq<Step>, n: nat)
    requires n < |steps|
    ensures Asked(steps[..n + 1]) == Asked(steps[..n]) + if steps[n].Push? || steps[n].LoopPush? then [steps[n].f] else []
  {
    assert steps[..n + 1][..n] == steps[..n];
  }

  lemma {:induction false} QueuedIsAsked(states: seq<State>, steps: seq<Step>, n: nat)
    requires IsRun(states, steps) && n < |states|
    ensures states[n].queued == states[0].pending + Asked(steps[..n]) && states[n].early == |states[0].pending|
    decreases n
  {
    if n > 0 {
      QueuedIsAsked(states, steps, n - 1);
      AskedNext(steps, n - 1);
      hide Asked;
      assert Enabled(states[n - 1], steps[n - 1]) && states[n] == Apply(states[n - 1], steps[n - 1]);
    }
  }

  /** The functors that were called, one by each round of the loop over a batch. */
  ghost function Called(states: seq<State>, steps: seq<Step>, n: nat): seq<Functor>
    requires IsRun(states, steps) && n < |states|
    decreases n
  {
    if n == 0 then []
    else
      assert Enabled(states[n - 1], steps[n - 1]);
      Called(states, steps, n - 1) + if steps[n - 1].RunNext? then [states[n - 1].phase.batch[0]] else []
  }

  lemma {:induction false} ExecutedIsCalled(states: seq<State>, steps: seq<Step>, n: nat)
    requires IsRun(states, steps) && n < |states|
    ensures states[n].executed == Called(states, steps, n)
    decreases n
  {
    if n > 0 {
      ExecutedIsCalled(states, steps, n - 1);
      assert Enabled(states[n - 1], steps[n - 1]) && states[n] == Apply(states[n - 1], steps[n - 1]);
    }
  }

  /** A thread between its push and its wakeup; some may have been when the run starts. */
  ghost predicate OwesWakeup(states: seq<State>, steps: seq<Step>, n: nat, t: Thread)
    requires IsRun(states, steps) && n < |states|
    decreases n
  {
    if n == 0 then t in states[0].waking
    else if steps[n - 1].Push? && steps[n - 1].t == t then true
    else if steps[n - 1] == Wakeup(t) then false
    else OwesWakeup(states, steps, n - 1, t)
  }

  lemma {:induction false} WakingOwe(states: seq<State>, steps: seq<Step>, n: nat, t: Thread)
    requires IsRun(states, steps) && n < |states|
    ensures t in states[n].waking <==> OwesWakeup(states, steps, n, t)
    decreases n
  {
    if n > 0 {
      WakingOwe(states, steps, n - 1, t);
      assert Enabled(states[n - 1], steps[n - 1]) && states[n] == Apply(states[n - 1], steps[n - 1]);
    }
  }

  predicate QueuesSilently(s: State, step: Step) {
    s.phase.Destroying? && step.LoopPush?
  }

  /** What the destructors of the last batch taken have queued. */
  ghost function ByDestructors(states: seq<State>, steps: seq<Step>, n: nat): seq<Functor>
    requires IsRun(states, steps) && n < |states|
    decreases n
  {
    if n == 0 || steps[n - 1].Swap? then []
    else ByDestructors(states, steps, n - 1) + if QueuesSilently(states[n - 1], steps[n - 1]) then [steps[n - 1].f] else []
  }

  lemma {:induction false} SilentIsByDestructors(states: seq<State>, steps: seq<Step>, n: nat)
    requires IsRun(states, steps) && n < |states|
    ensures states[n].silent == ByDestructors(states, steps, n)
    decreases n
  {
    if n > 0 {
      SilentIsByDestructors(states, steps, n - 1);
      assert Enabled(states[n - 1], steps[n - 1]) && states[n] == Apply(states[n - 1], steps[n - 1]);
    }
  }

  // ---- the laws ----

  /**
   * In every interleaving: if the loop polls with a functor queued since the start in its queue, it can wake at once, or
   * a queueing thread is about to wake it, or the queue holds just what destructors of the last batch have queued.
   */
  lemma NoLostWakeup(states: seq<State>, steps: seq<Step>, n: nat)
    requires IsRun(states, steps) && n < |states|
    requires states[n].phase.Polling? && states[n].pending != [] && Asked(steps[..n]) != []
    ensures || Enabled(states[n], PollReturns(true))
            || (exists t :: OwesWakeup(states, steps, n, t))
            || states[n].pending == ByDestructors(states, steps, n)
  {
    hide IsRun, Asked;
    RunKeepsInv(states, steps, n);
    QueuedIsAsked(states, steps, n);
    SilentIsByDestructors(states, steps, n);
    if states[n].waking != {} {
      var t :| t in states[n].waking;
      WakingOwe(states, steps, n, t);
    }
  }

  /** The condition is exact: with no wakeup to come, the loop polls on a new functor if and only if a destructor queued it. */
  lemma SleepsExactly(states: seq<State>, steps: seq<Step>, n: nat)
    requires IsRun(states, steps) && n < |states| && states[n].phase.Polling?
    requires !Enabled(states[n], PollReturns(true)) && forall t :: !OwesWakeup(states, steps, n, t)
    ensures states[n].pending != [] && Asked(steps[..n]) != [] <==> ByDestructors(states, steps, n) != []
  {
    hide IsRun, Asked;
    RunKeepsInv(states, steps, n);
    QueuedIsAsked(states, steps, n);
    SilentIsByDestructors(states, steps, n);
    forall t ensures t !in states[n].waking {
      WakingOwe(states, steps, n, t);
    }
  }

  /** Hence, in a run in which no destructor queues, the loop never sleeps on a new functor. */
  lemma NoLostWakeupWithoutDestructors(states: seq<State>, steps: seq<Step>, n: nat)
    requires IsRun(states, steps) && n < |states| && states[n].phase.Polling?
    requires states[n].pending != [] && Asked(steps[..n]) != []
    requires forall i | 0 <= i < n :: !QueuesSilently(states[i], steps[i])
    ensures Enabled(states[n], PollReturns(true)) || exists t :: OwesWakeup(states, steps, n, t)
  {
    NoLostWakeup(states, steps, n);
    NoneByDestructors(states, steps, n);
  }

  lemma {:induction false} NoneByDestructors(states: seq<State>, steps: seq<Step>, n: nat)
    requires IsRun(states, steps) && n < |states|
    requires forall i | 0 <= i < n :: !QueuesSilently(states[i], steps[i])
    ensures ByDestructors(states, steps, n) == []
    decreases n
  {
    if n > 0 {
      NoneByDestructors(states, steps, n - 1);
    }
  }

  lemma Extend(states: seq<State>, steps: seq<Step>, step: Step, r: State)
    requires IsRun(states, steps) && Enabled(states[|steps|], step) && r == Apply(states[|steps|], step)
    ensures IsRun(states + [r], steps + [step])
  {
    hide Enabled, Apply;
  }

  /** A handler queues a functor, and the batch of that functor is taken. */
  lemma BatchOfOne() returns (states: seq<State>, steps: seq<Step>)
    ensures IsRun(states, steps) && steps == [PollReturns(false), LoopPush(1), HandlingDone, Swap] && |states| == 5
    ensures states[4] == State([], 0, {}, Running([1], false), [], [1], 0, [])
  {
    var s0 := State([], 0, {}, Polling, [], [], 0, []);
    var s1 := s0.(phase := Handling(false));
    var s2 := s1.(pending := [1], queued := [1]);
    var s3 := s2.(phase := BeforeSwap);
    var s4 := s3.(phase := Running([1], false), pending := []);
    states, steps := [s0], [];
    assert IsRun(states, steps);
    hide IsRun;
    Extend(states, steps, PollReturns(false), s1);
    states, steps := states + [s1], steps + [PollReturns(false)];
    Extend(states, steps, LoopPush(1), s2);
    states, steps := states + [s2], steps + [LoopPush(1)];
    Extend(states, steps, HandlingDone, s3);
    states, steps := states + [s3], steps + [HandlingDone];
    Extend(states, steps, Swap, s4);
    states, steps := states + [s4], steps + [Swap];
  }

  /** One functor queued by a handler, whose destructor queues another: the loop goes to sleep on it. */
  lemma DestructorQueuesUnseen() returns (states: seq<State>, steps: seq<Step>)
    ensures IsRun(states, steps) && |states| == 9
    ensures steps == [PollReturns(false), LoopPush(1), HandlingDone, Swap, RunNext, RunDone, LoopPush(2), Destroyed]
    ensures states[8].phase.Polling? && states[8].pending == [2] && !WakeupComes(states[8])
  {
    hide IsRun;
    states, steps := BatchOfOne();
    var s5 := states[4].(executed := [1], phase := Running([], false));
    var s6 := s5.(phase := Destroying);
    var s7 := s6.(pending := [2], queued := [1, 2], silent := [2]);
    var s8 := s7.(phase := Polling);
    assert [] + [1] == [1] && [1][1..] == [];
    Extend(states, steps, RunNext, s5);
    states, steps := states + [s5], steps + [RunNext];
    Extend(states, steps, RunDone, s6);
    states, steps := states + [s6], steps + [RunDone];
    Extend(states, steps, LoopPush(2), s7);
    states, steps := states + [s7], steps + [LoopPush(2)];
    Extend(states, steps, Destroyed, s8);
    states, steps := states + [s8], steps + [Destroyed];
  }

  /**
   * In every interleaving: what was called, then the rest of the batch, then the queue, is what was in the queue at the
   * start and then everything that threads asked for, in the order of asking.
   */
  lemma QueueingOrder(states: seq<State>, steps: seq<Step>, n: nat)
    requires IsRun(states, steps) && n < |states|
    ensures Called(states, steps, n) + Batch(states[n]) + states[n].pending == states[0].pending + Asked(steps[..n])
  {
    hide IsRun, Asked;
    ExecutedIsCalled(states, steps, n);
    RunKeepsInv(states, steps, n);
    QueuedIsAsked(states, steps, n);
  }

  // ---- progress ----

  /** The first n functors queued are executed or in the running batch, or the swap is still to come. */
  predicate OnTheWay(s: State, n: nat) {
    match s.phase
    case Polling => |s.executed| >= n
    case Destroying => |s.executed| >= n
    case Running(batch, _) => |s.executed| + |batch| >= n
    case _ => |s.queued| >= n
  }

  lemma StaysOnTheWay(s: State, step: Step, n: nat)
    requires Inv(s) && Enabled(s, step) && !s.phase.Polling? && OnTheWay(s, n)
    ensures OnTheWay(Apply(s, step), n)
  {
    assert |s.executed| + |Batch(s)| + |s.pending| == |s.queued|;
  }

  lemma {:induction false} QueueGrows(states: seq<State>, steps: seq<Step>, i: nat, j: nat)
    requires IsRun(states, steps) && i <= j < |states|
    ensures states[i].queued <= states[j].queued
    decreases j
  {
    if j > i {
      QueueGrows(states, steps, i, j - 1);
      assert states[j] == Apply(states[j - 1], steps[j - 1]);
      assert states[j - 1].queued <= states[j].queued;
    }
  }

  lemma {:induction false} PassGoesOn(states: seq<State>, steps: seq<Step>, i: nat, j: nat)
    requires IsRun(states, steps) && i < j < |states| && states[i].phase.Polling? && steps[i].PollReturns?
    requires forall k | i < k < j :: !states[k].phase.Polling?
    ensures OnTheWay(states[j], |states[i].queued|)
    decreases j
  {
    hide Inv;
    assert Enabled(states[j - 1], steps[j - 1]) && states[j] == Apply(states[j - 1], steps[j - 1]);
    if j == i + 1 {
      assert steps[j - 1].PollReturns?;
    } else {
      PassGoesOn(states, steps, i, j - 1);
      RunKeepsInv(states, steps, j - 1);
      StaysOnTheWay(states[j - 1], steps[j - 1], |states[i].queued|);
    }
  }

  /**
   * In every interleaving: from one return of poll to the next time the loop polls, everything that anyone had asked for
   * when poll returned is executed, in the order of asking.
   */
  lemma OnePassExecutesAll(states: seq<State>, steps: seq<Step>, i: nat, j: nat)
    requires IsRun(states, steps) && i < j < |states| && states[i].phase.Polling? && steps[i].PollReturns?
    requires states[j].phase.Polling? && forall k | i < k < j :: !states[k].phase.Polling?
    ensures states[0].pending + Asked(steps[..i]) <= Called(states, steps, j)
  {
    hide Inv, Asked;
    ExecutedIsCalled(states, steps, j);
    PassGoesOn(states, steps, i, j);
    QueueGrows(states, steps, i, j);
    QueueingOrder(states, steps, j);
    QueuedIsAsked(states, steps, i);
    QueuedIsAsked(states, steps, j);
    assert states[j].executed <= states[j].queued;
  }

  /** The loop object: the fields that change, and one method for each step the code takes. */
  class EventLoop {
    var pendingFunctors: seq<Functor>
    var callingPendingFunctors: bool
    var eventfd: nat

    constructor ()
      ensures pendingFunctors == [] && !callingPendingFunctors && eventfd == 0
    {
      pendingFunctors, callingPendingFunctors, eventfd := [], false, 0;
    }

    /** The object shows a state of the transition system. */
    ghost predicate Shows(s: State)
      reads this
    {
      && pendingFunctors == s.pending
      && eventfd == s.counter
      && callingPendingFunctors == s.phase.Running?
    }

    method WriteWakeup()
      modifies this`eventfd
      ensures eventfd == old(eventfd) + 1
    {
      eventfd := eventfd + 1;
    }

    method ReadWakeup()
      modifies this`eventfd
      ensures eventfd == 0
    {
      eventfd := 0;
    }

    /** The first half of queueInLoop, under the lock; the result says whether a wakeup has to follow. */
    method Push(ghost s: State, inLoopThread: bool, ghost t: Thread, f: Functor) returns (wake: bool, ghost r: State)
      requires Shows(s) && Inv(s)
      requires if inLoopThread then Enabled(s, Step.LoopPush(f)) else Enabled(s, Step.Push(t, f))
      modifies this`pendingFunctors
      ensures r == Apply(s, if inLoopThread then Step.LoopPush(f) else Step.Push(t, f))
      ensures Shows(r) && Inv(r)
      ensures wake <==> if inLoopThread then Enabled(r, Step.LoopWakeup) else Enabled(r, Step.Wakeup(t))
    {
      hide Inv;
      ghost var step := if inLoopThread then Step.LoopPush(f) else Step.Push(t, f);
      StepKeepsInv(s, step);
      r := Apply(s, step);
      pendingFunctors := pendingFunctors + [f];
      wake := !inLoopThread || callingPendingFunctors;
    }

    /** The second half, whatever other threads did in between. */
    method Wakeup(ghost s: State, inLoopThread: bool, ghost t: Thread) returns (ghost r: State)
      requires Shows(s) && Inv(s)
      requires if inLoopThread then Enabled(s, Step.LoopWakeup) else Enabled(s, Step.Wakeup(t))
      modifies this`eventfd
      ensures r == Apply(s, if inLoopThread then Step.LoopWakeup else Step.Wakeup(t))
      ensures Shows(r) && Inv(r)
    {
      hide Inv;
      ghost var step := if inLoopThread then Step.LoopWakeup else Step.Wakeup(t);
      StepKeepsInv(s, step);
      r := Apply(s, step);
      WriteWakeup();
    }

    /** The swap under the lock at the start of doPendingFunctors. */
    method SwapFunctors(ghost s: State) returns (functors: seq<Functor>)
      requires Shows(s) && s.phase.BeforeSwap?
      modifies this
      ensures Shows(Apply(s, Swap)) && functors == Apply(s, Swap).phase.batch
    {
      callingPendingFunctors := true;
      functors, pendingFunctors := pendingFunctors, [];
    }

    /** Code on the loop thread queues functors: each with a wakeup while functors are being called, later with none. */
    method QueueAll(ghost s: State, fs: seq<Functor>) returns (ghost r: State)
      requires Shows(s) && Inv(s) && ((s.phase.Running? && !s.phase.wakeDue) || s.phase.Destroying?)
      modifies this`pendingFunctors, this`eventfd
      ensures Shows(r) && Inv(r) && r == More(s, fs)
    {
      hide Inv, More;
      r := s;
      var k := 0;
      MoreNone(s);
      while k < |fs|
        invariant 0 <= k <= |fs| && Shows(r) && Inv(r)
        invariant r == More(s, fs[..k])
      {
        MoreOne(s, fs, k);
        var wake;
        wake, r := Push(r, true, 0, fs[k]);
        if wake {
          r := Wakeup(r, true, 0);
        }
        k := k + 1;
      }
      assert fs[..k] == fs;
    }

    /** The loop of doPendingFunctors: the batch runs in order; what its functors queue waits for the next one. */
    method RunFunctors(ghost s: State, functors: seq<Functor>, queues: Functor -> seq<Functor>) returns (ghost r: State)
      requires Shows(s) && Inv(s) && s.phase == Running(functors, false)
      modifies this
      ensures Shows(r) && Inv(r) && r.phase.Destroying?
      ensures r.executed == s.executed + functors && r.silent == []
      ensures r.pending == s.pending + Queued(queues, functors) && r.queued == s.queued + Queued(queues, functors)
      ensures r.counter == s.counter + |Queued(queues, functors)|
    {
      hide Inv, After, More;
      r := s;
      var k := 0;
      AfterNone(s, queues);
      while k < |functors|
        invariant 0 <= k <= |functors| && Shows(r) && Inv(r)
        invariant r == After(s, queues, k) && r.phase == Running(functors[k..], false)
      {
        AfterMore(s, queues, k);
        StepKeepsInv(r, RunNext);
        r := Apply(r, RunNext);
        r := QueueAll(r, queues(functors[k]));
        k := k + 1;
      }
      AfterAll(s, queues);
      RunIsNotSilent(r);
      StepKeepsInv(r, RunDone);
      r := Apply(r, RunDone);
      callingPendingFunctors := false;
    }

    /** The end of doPendingFunctors, where the batch goes out of scope: what its destructors queue wakes nobody. */
    method DestroyFunctors(ghost s: State, functors: seq<Functor>, queues: Functor -> seq<Functor>) returns (ghost r: State)
      requires Shows(s) && Inv(s) && s.phase.Destroying? && s.silent == []
      modifies this
      ensures Shows(r) && Inv(r) && r.phase.Polling?
      ensures r.pending == s.pending + Queued(queues, functors) && r.queued == s.queued + Queued(queues, functors)
      ensures r.silent == Queued(queues, functors) && r.counter == s.counter && r.executed == s.executed
    {
      hide Inv, More;
      r := s;
      var k := 0;
      MoreNone(s);
      while k < |functors|
        invariant 0 <= k <= |functors| && Shows(r) && Inv(r) && r.phase.Destroying?
        invariant r == More(s, Queued(queues, functors[..k]))
      {
        r := QueueAll(r, queues(functors[k]));
        MoreTwice(s, Queued(queues, functors[..k]), queues(functors[k]));
        QueuedNext(queues, functors, k);
        k := k + 1;
      }
      assert functors[..k] == functors;
      MoreDestroying(s, Queued(queues, functors));
      StepKeepsInv(r, Destroyed);
      r := Apply(r, Destroyed);
    }

    /** The whole of doPendingFunctors, with what the functors queue when called and when destroyed. */
    method DoPendingFunctors(ghost s: State, called: Functor -> seq<Functor>, destroyed: Functor -> seq<Functor>)
      returns (ghost r: State)
      requires Shows(s) && Inv(s) && s.phase.BeforeSwap?
      modifies this
      ensures Shows(r) && Inv(r) && r.phase.Polling? && r.executed == s.executed + s.pending
      ensures r.pending == Queued(called, s.pending) + Queued(destroyed, s.pending)
      ensures r.counter == s.counter + |Queued(called, s.pending)| && r.silent == Queued(destroyed, s.pending)
    {
      hide Inv;
      StepKeepsInv(s, Swap);
      var functors := SwapFunctors(s);
      r := RunFunctors(Apply(s, Swap), functors, called);
      assert [] + Queued(called, functors) == Queued(called, functors);
      r := DestroyFunctors(r, functors, destroyed);
    }
  }

  lemma RunIsNotSilent(s: State)
    requires Inv(s) && s.phase.Running?
    ensures s.silent == []
  {
  }

  /** The state behind pushes of the loop thread, and behind their wakeups if there are any. */
  function More(s: State, fs: seq<Functor>): (r: State)
    ensures r.phase == s.phase
  {
    s.(pending := s.pending + fs, queued := s.queued + fs,
       counter := if s.phase.Running? then s.counter + |fs| else s.counter,
       silent := if s.phase.Destroying? then s.silent + fs else s.silent)
  }

  lemma MoreNone(s: State)
    ensures More(s, []) == s
  {
    assert s.pending + [] == s.pending && s.queued + [] == s.queued;
  }

  lemma MoreOne(s: State, fs: seq<Functor>, k: nat)
    requires k < |fs| && ((s.phase.Running? && !s.phase.wakeDue) || s.phase.Destroying?)
    ensures fs[..k + 1] == fs[..k] + [fs[k]]
    ensures var r := More(s, fs[..k]);
            && Enabled(r, LoopPush(fs[k]))
            && var q := Apply(r, LoopPush(fs[k]));
               && (s.phase.Destroying? ==> More(s, fs[..k + 1]) == q && !Enabled(q, LoopWakeup))
               && (s.phase.Running? ==> Enabled(q, LoopWakeup) && More(s, fs[..k + 1]) == Apply(q, LoopWakeup))
  {
    assert fs[..k + 1] == fs[..k] + [fs[k]];
    assert s.pending + fs[..k] + [fs[k]] == s.pending + fs[..k + 1];
    assert s.queued + fs[..k] + [fs[k]] == s.queued + fs[..k + 1];
  }

  lemma MoreTwice(s: State, a: seq<Functor>, b: seq<Functor>)
    ensures More(More(s, a), b) == More(s, a + b)
  {
    assert s.pending + a + b == s.pending + (a + b) && s.queued + a + b == s.queued + (a + b);
  }

  lemma MoreDestroying(s: State, fs: seq<Functor>)
    requires s.phase.Destroying?
    ensures var r := More(s, fs);
            && r.phase.Destroying? && r.pending == s.pending + fs && r.queued == s.queued + fs
            && r.silent == s.silent + fs && r.counter == s.counter && r.executed == s.executed
  {
  }

  /** What a list of functors queues, in order. */
  function Queued(queues: Functor -> seq<Functor>, fs: seq<Functor>): seq<Functor> {
    if fs == [] then [] else Queued(queues, fs[..|fs| - 1]) + queues(fs[|fs| - 1])
  }

  lemma QueuedNext(queues: Functor -> seq<Functor>, fs: seq<Functor>, k: nat)
    requires k < |fs|
    ensures Queued(queues, fs[..k + 1]) == Queued(queues, fs[..k]) + queues(fs[k])
  {
    assert fs[..k + 1][..k] == fs[..k];
  }

  /** The state in which k functors of the batch have run and queued others. */
  function After(s: State, queues: Functor -> seq<Functor>, k: nat): State
    requires s.phase.Running? && k <= |s.phase.batch|
  {
    var more := Queued(queues, s.phase.batch[..k]);
    s.(executed := s.executed + s.phase.batch[..k], pending := s.pending + more, queued := s.queued + more,
       counter := s.counter + |more|, phase := s.phase.(batch := s.phase.batch[k..]))
  }

  lemma AfterNone(s: State, queues: Functor -> seq<Functor>)
    requires s.phase.Running?
    ensures After(s, queues, 0) == s
  {
    assert s.phase.batch[..0] == [] && s.phase.batch[0..] == s.phase.batch;
    assert s.executed + [] == s.executed && s.pending + [] == s.pending && s.queued + [] == s.queued;
  }

  lemma AfterMore(s: State, queues: Functor -> seq<Functor>, k: nat)
    requires s.phase.Running? && !s.phase.wakeDue && k < |s.phase.batch|
    ensures var r := After(s, queues, k);
            var fs := queues(s.phase.batch[k]);
            && Enabled(r, RunNext)
            && var q := Apply(r, RunNext);
               q.phase == Running(s.phase.batch[k + 1..], false) && After(s, queues, k + 1) == More(q, fs)
  {
    var b := s.phase.batch;
    var fs := queues(b[k]);
    var more := Queued(queues, b[..k]);
    assert b[..k + 1] == b[..k] + [b[k]] && b[..k + 1][..k] == b[..k];
    assert Queued(queues, b[..k + 1]) == more + fs;
    assert b[k..][0] == b[k] && b[k..][1..] == b[k + 1..];
    assert s.executed + b[..k] + [b[k]] == s.executed + (b[..k] + [b[k]]);
    assert s.pending + more + fs == s.pending + (more + fs) && s.queued + more + fs == s.queued + (more + fs);
  }

  lemma AfterAll(s: State, queues: Functor -> seq<Functor>)
    requires s.phase.Running?
    ensures var b := s.phase.batch;
            var r := After(s, queues, |b|);
            && b[..|b|] == b && r.executed == s.executed + b && r.pending == s.pending + Queued(queues, b)
            && r.queued == s.queued + Queued(queues, b) && r.counter == s.counter + |Queued(queues, b)|
  {
    assert s.phase.batch[..|s.phase.batch|] == s.phase.batch;
  }
}
