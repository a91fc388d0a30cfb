/**
 * The timer queue as a transition system. Timers live in memory at addresses that are reused after deletion;
 * two sets index the scheduled ones, and callbacks may add and cancel timers while a batch of expired ones runs.
 */
module Timers {
  import opened Base

  type Address = nat

  /** Times are microseconds. The interval is what addTime adds on a restart. */
  datatype Timer = Timer(expiration: int, repeat: bool, interval: nat, sequence: nat)

  datatype Entry = Entry(when: int, addr: Address)

  /** What a caller holds to cancel a timer. */
  datatype Id = Id(addr: Address, sequence: nat)

  /** Between events; while the callbacks of a batch run; while the batch is put back or deleted. */
  datatype Phase =
    | Idle
    | Calling(now: int, batch: seq<Entry>, ran: nat)
    | Resetting(now: int, rest: seq<Entry>)

  /** The timer descriptor: when it becomes (or became) readable, and the time of the last arming. */
  datatype Alarm = Alarm(wake: Option<int>, armedAt: int)

  datatype State = State(
    heap: map<Address, Timer>,
    pending: set<Address>,
    timers: set<Entry>,
    active: set<Id>,
    canceling: set<Id>,
    phase: Phase,
    alarm: Alarm,
    created: nat,
    // History: every id handed out, and every id cancelled while its timer was scheduled or in the running batch.
    issued: set<Id>,
    cancelled: set<Id>)

  const INIT: State := State(map[], {}, {}, {}, {}, Idle, Alarm(None, 0), 0, {}, {})

  datatype Step =
    | New(addr: Address, when: int, repeat: bool, interval: nat)
    | AddInLoop(addr: Address, clock: int)
    | Cancel(id: Id)
    | Expire(now: int, batch: seq<Entry>)
    | RunNext
    | ResetOne
    | ResetDone(clock: int)

  /** The timers a running batch still owns. */
  function Held(s: State): seq<Entry> {
    match s.phase
    case Idle => []
    case Calling(_, batch, _) => batch
    case Resetting(_, rest) => rest
  }

  predicate Before(a: Entry, b: Entry) {
    a.when < b.when || (a.when == b.when && a.addr < b.addr)
  }

  predicate Sorted(es: seq<Entry>) {
    forall i, j | 0 <= i < j < |es| :: Before(es[i], es[j])
  }

  function Due(timers: set<Entry>, now: int): set<Entry> {
    set e | e in timers && e.when <= now
  }

  function IdAt(heap: map<Address, Timer>, a: Address): Id
    requires a in heap
  {
    Id(a, heap[a].sequence)
  }

  /** When a step can happen. Callbacks add and cancel while they run, and while they are destroyed during a reset. */
  predicate Enabled(s: State, step: Step) {
    match step
    case New(addr, when, _, _) => addr !in s.heap && when > 0
    case AddInLoop(addr, _) => addr in s.pending
    case Cancel(_) => true
    case Expire(now, batch) =>
      s.phase.Idle? && now > 0 && Sorted(batch) && (set e | e in batch) == Due(s.timers, now)
    case RunNext => s.phase.Calling? && s.phase.ran < |s.phase.batch|
    case ResetOne => (s.phase.Calling? && s.phase.ran == |s.phase.batch|) || (s.phase.Resetting? && s.phase.rest != [])
    case ResetDone(_) => s.phase.Resetting? && s.phase.rest == []
  }

  // ---- what the methods do ----

  predicate EarliestChanged(timers: set<Entry>, when: int) {
    forall e | e in timers :: when < e.when
  }

  /** Arming for an expiration: at least 100 microseconds from now. */
  function Arm(expiration: int, clock: int): Alarm {
    Alarm(Some(clock + if expiration - clock < 100 then 100 else expiration - clock), clock)
  }

  function Insert(s: State, a: Address): State
    requires a in s.heap
  {
    s.(timers := s.timers + {Entry(s.heap[a].expiration, a)}, active := s.active + {IdAt(s.heap, a)})
  }

  function Add(s: State, a: Address, clock: int): State
    requires a in s.heap
  {
    var when := s.heap[a].expiration;
    var r := Insert(s, a).(pending := s.pending - {a});
    if EarliestChanged(s.timers, when) then r.(alarm := Arm(when, clock)) else r
  }

  function CancelIn(s: State, id: Id): State
    requires id in s.active ==> id.addr in s.heap
  {
    if id in s.active then
      s.(timers := s.timers - {Entry(s.heap[id.addr].expiration, id.addr)},
         heap := s.heap - {id.addr},
         active := s.active - {id},
         cancelled := s.cancelled + {id})
    else if s.phase.Calling? then
      s.(canceling := s.canceling + {id},
         cancelled := if InBatch(s, id) then s.cancelled + {id} else s.cancelled)
    else s
  }

  predicate InBatch(s: State, id: Id) {
    exists e | e in Held(s) :: e.addr == id.addr && e.addr in s.heap && s.heap[e.addr].sequence == id.sequence
  }

  function BeginExpire(s: State, now: int, batch: seq<Entry>): State
    requires forall e | e in batch :: e.addr in s.heap
  {
    s.(timers := s.timers - (set e | e in batch),
       active := s.active - (set e | e in batch :: IdAt(s.heap, e.addr)),
       canceling := {},
       phase := Calling(now, batch, 0),
       alarm := s.alarm.(wake := None))
  }

  /** Put one timer of the batch back, or delete it. */
  function PutBack(s: State, now: int, a: Address): State
    requires a in s.heap
  {
    var t := s.heap[a];
    if t.repeat && IdAt(s.heap, a) !in s.canceling then
      Insert(s.(heap := s.heap[a := t.(expiration := now + t.interval)]), a)
    else s.(heap := s.heap - {a})
  }

  predicate IsEarliest(timers: set<Entry>, when: int) {
    && (exists e | e in timers :: e.when == when)
    && forall e | e in timers :: when <= e.when
  }

  /** The alarm after a batch: armed for the earliest timer, if there is one and its time is valid. */
  ghost predicate Rearmed(s: State, clock: int, alarm: Alarm) {
    if s.timers == {} then alarm == s.alarm
    else exists when | IsEarliest(s.timers, when) :: alarm == if when > 0 then Arm(when, clock) else s.alarm
  }

  /** The step touches and deletes only timers that are alive. */
  predicate Safe(s: State, step: Step) {
    && (step.AddInLoop? ==> step.addr in s.heap)
    && (step.Cancel? && step.id in s.active ==> step.id.addr in s.heap)
    && (step.Expire? ==> forall e | e in step.batch :: e.addr in s.heap)
    && (step.RunNext? && s.phase.Calling? && s.phase.ran < |s.phase.batch| ==> s.phase.batch[s.phase.ran].addr in s.heap)
    && (step.ResetOne? && Held(s) != [] ==> Held(s)[0].addr in s.heap)
  }

  /** One step. */
  ghost predicate Next(s: State, step: Step, r: State)
    requires Enabled(s, step) && Safe(s, step)
  {
    match step
    case New(addr, when, repeat, interval) =>
      r == s.(heap := s.heap[addr := Timer(when, repeat, interval, s.created + 1)],
              pending := s.pending + {addr},
              created := s.created + 1,
              issued := s.issued + {Id(addr, s.created + 1)})
    case AddInLoop(addr, clock) => r == Add(s, addr, clock)
    case Cancel(id) => r == CancelIn(s, id)
    case Expire(now, batch) => r == BeginExpire(s, now, batch)
    case RunNext => r == s.(phase := s.phase.(ran := s.phase.ran + 1))
    case ResetOne =>
      var now, rest := s.phase.now, Held(s);
      if rest == [] then r == s.(phase := Resetting(now, []))
      else r == PutBack(s, now, rest[0].addr).(phase := Resetting(now, rest[1..]))
    case ResetDone(clock) => r == s.(phase := Idle, alarm := r.alarm) && Rearmed(s, clock, r.alarm)
  }

  // ---- the invariant ----

  /** Both indices hold the same live timers, under their current expirations. */
  ghost predicate Indexed(s: State) {
    && (forall e | e in s.timers ::
          e.addr in s.heap && s.heap[e.addr].expiration == e.when && IdAt(s.heap, e.addr) in s.active)
    && (forall id | id in s.active ::
          id.addr in s.heap && s.heap[id.addr].sequence == id.sequence
          && Entry(s.heap[id.addr].expiration, id.addr) in s.timers)
  }

  predicate Scheduled(s: State, a: Address) {
    a in s.heap && IdAt(s.heap, a) in s.active
  }

  predicate IsHeld(s: State, a: Address) {
    exists e | e in Held(s) :: e.addr == a
  }

  /** Every live timer has exactly one owner: the caller's pending request, the indices or the running batch. */
  ghost predicate Owned(s: State) {
    && (forall a | a in s.pending :: a in s.heap && !Scheduled(s, a) && !IsHeld(s, a))
    && (forall e | e in Held(s) :: e.addr in s.heap && !Scheduled(s, e.addr))
    && (forall i, j | 0 <= i < j < |Held(s)| :: Held(s)[i].addr != Held(s)[j].addr)
    && (forall a | a in s.heap :: a in s.pending || Scheduled(s, a) || IsHeld(s, a))
  }

  /** A sequence number is used once, so an id never means two timers. */
  ghost predicate Numbered(s: State) {
    && (forall a | a in s.heap :: s.heap[a].sequence <= s.created && IdAt(s.heap, a) in s.issued)
    && (forall id | id in s.issued :: id.sequence <= s.created)
    && (forall a | a in s.heap :: s.heap[a].expiration > 0)
    && (s.phase.Calling? ==> s.phase.now > 0 && s.phase.ran <= |s.phase.batch|)
    && (s.phase.Resetting? ==> s.phase.now > 0)
  }

  /** A cancelled timer is not scheduled again; if it is still in the running batch, the batch knows. */
  ghost predicate Gone(s: State) {
    forall id | id in s.cancelled ::
      && id in s.issued
      && id !in s.active
      && (forall a | a in s.pending && a in s.heap :: IdAt(s.heap, a) != id)
      && (forall e | e in Held(s) && e.addr in s.heap :: IdAt(s.heap, e.addr) == id ==> id in s.canceling)
  }

  /** No batch running: the descriptor wakes the loop in time for every scheduled timer. */
  ghost predicate WakesInTime(s: State) {
    s.phase.Idle? && s.timers != {} ==>
      s.alarm.wake.Some? && forall e | e in s.timers :: s.alarm.wake.value <= e.when || s.alarm.wake.value <= s.alarm.armedAt + 100
  }

  ghost predicate Inv(s: State) {
    Indexed(s) && Owned(s) && Numbered(s) && Gone(s) && WakesInTime(s)
  }

  /** In a good state nothing can touch a deleted timer. */
  lemma InvIsSafe(s: State, step: Step)
    requires Inv(s) && Enabled(s, step)
    ensures Safe(s, step)
  {
    if step.Expire? {
      forall e | e in step.batch ensures e.addr in s.heap {
        assert e in (set x | x in step.batch) && e in Due(s.timers, step.now);
      }
    } else if step.RunNext? {
      assert s.phase.batch[s.phase.ran] in Held(s);
    } else if step.ResetOne? && Held(s) != [] {
      assert Held(s)[0] in Held(s);
    }
  }

  // ---- every step keeps it ----

  lemma NewKeeps(s: State, step: Step, r: State)
    requires Inv(s) && step.New? && Enabled(s, step) && Next(s, step, r)
    ensures Inv(r)
  {
    NewKeepsOwned(s, step, r);
    NewKeepsGone(s, step, r);
  }

  lemma NewKeepsOwned(s: State, step: Step, r: State)
    requires Inv(s) && step.New? && Enabled(s, step) && Next(s, step, r)
    ensures Indexed(r) && Owned(r)
  {
    hide Gone, WakesInTime;
    assert Held(r) == Held(s);
    assert forall a | a in s.heap :: Scheduled(r, a) == Scheduled(s, a);
    assert !Scheduled(r, step.addr);
  }

  lemma NewKeepsGone(s: State, step: Step, r: State)
    requires Inv(s) && step.New? && Enabled(s, step) && Next(s, step, r)
    ensures Numbered(r) && Gone(r) && WakesInTime(r)
  {
    hide Indexed;
    assert Held(r) == Held(s);
  }

  lemma AddKeeps(s: State, step: Step, r: State)
    requires Inv(s) && step.AddInLoop? && Enabled(s, step) && Safe(s, step) && Next(s, step, r)
    ensures Inv(r)
  {
    AddKeepsOwned(s, step, r);
    AddKeepsGone(s, step, r);
  }

  lemma AddKeepsOwned(s: State, step: Step, r: State)
    requires Inv(s) && step.AddInLoop? && Enabled(s, step) && Safe(s, step) && Next(s, step, r)
    ensures Owned(r)
  {
    hide WakesInTime, Gone, EarliestChanged;
    assert Held(r) == Held(s);
    assert forall a | a in s.heap :: Scheduled(r, a) <==> Scheduled(s, a) || a == step.addr;
  }

  lemma AddKeepsGone(s: State, step: Step, r: State)
    requires Inv(s) && step.AddInLoop? && Enabled(s, step) && Safe(s, step) && Next(s, step, r)
    ensures Indexed(r) && Numbered(r) && Gone(r) && WakesInTime(r)
  {
    hide Owned;
    assert step.addr in s.pending && step.addr in s.heap by { PendingLives(s, step.addr); }
    assert Held(r) == Held(s);
  }

  lemma PendingLives(s: State, a: Address)
    requires Owned(s) && a in s.pending
    ensures a in s.heap
  {
  }

  lemma CancelKeeps(s: State, step: Step, r: State)
    requires Inv(s) && step.Cancel? && Enabled(s, step) && Safe(s, step) && Next(s, step, r)
    ensures Inv(r)
  {
    CancelKeepsOwned(s, step, r);
    CancelKeepsGone(s, step, r);
  }

  lemma CancelKeepsOwned(s: State, step: Step, r: State)
    requires Inv(s) && step.Cancel? && Enabled(s, step) && Safe(s, step) && Next(s, step, r)
    ensures Indexed(r) && Owned(r)
  {
    hide Gone, WakesInTime, Numbered;
    assert Held(r) == Held(s);
    if step.id in s.active {
      assert Scheduled(s, step.id.addr);
    }
    assert forall a | a in r.heap :: Scheduled(r, a) == Scheduled(s, a);
  }

  lemma CancelKeepsGone(s: State, step: Step, r: State)
    requires Inv(s) && step.Cancel? && Enabled(s, step) && Safe(s, step) && Next(s, step, r)
    ensures Numbered(r) && Gone(r) && WakesInTime(r)
  {
    assert Held(r) == Held(s);
    if step.id in s.active {
      assert Scheduled(s, step.id.addr);
    }
  }

  lemma SortedIsDistinct(es: seq<Entry>, heap: map<Address, Timer>)
    requires Sorted(es) && forall e | e in es :: e.addr in heap && heap[e.addr].expiration == e.when
    ensures forall i, j | 0 <= i < j < |es| :: es[i].addr != es[j].addr
  {
    forall i, j | 0 <= i < j < |es| ensures es[i].addr != es[j].addr {
      assert es[i] in es && es[j] in es && Before(es[i], es[j]);
    }
  }

  lemma BatchWasScheduled(s: State, step: Step)
    requires Inv(s) && step.Expire? && Enabled(s, step)
    ensures forall e | e in step.batch ::
              e in s.timers && e.addr in s.heap && s.heap[e.addr].expiration == e.when && Scheduled(s, e.addr)
  {
    forall e | e in step.batch
      ensures e in s.timers && e.addr in s.heap && s.heap[e.addr].expiration == e.when && Scheduled(s, e.addr)
    {
      assert e in (set x | x in step.batch) && e in Due(s.timers, step.now);
    }
  }

  lemma ExpireKeeps(s: State, step: Step, r: State)
    requires Inv(s) && step.Expire? && Enabled(s, step) && Safe(s, step) && Next(s, step, r)
    ensures Inv(r)
  {
    BatchWasScheduled(s, step);
    SortedIsDistinct(step.batch, s.heap);
    ExpireKeepsIndexed(s, step, r);
    ExpireKeepsOwned(s, step, r);
  }

  lemma ExpireKeepsIndexed(s: State, step: Step, r: State)
    requires Inv(s) && step.Expire? && Enabled(s, step) && Safe(s, step) && Next(s, step, r)
    requires forall e | e in step.batch :: e in s.timers && e.addr in s.heap && s.heap[e.addr].expiration == e.when
    ensures Indexed(r)
  {
    hide Owned, Gone, Numbered, WakesInTime, Sorted;
    var gone := set e | e in step.batch :: IdAt(s.heap, e.addr);
    forall e | e in r.timers ensures IdAt(s.heap, e.addr) in r.active {
      assert IdAt(s.heap, e.addr) !in gone;
    }
    forall id | id in r.active ensures Entry(s.heap[id.addr].expiration, id.addr) in r.timers {
      assert IdAt(s.heap, id.addr) == id;
    }
  }

  lemma ExpireKeepsOwned(s: State, step: Step, r: State)
    requires Inv(s) && step.Expire? && Enabled(s, step) && Safe(s, step) && Next(s, step, r)
    requires forall e | e in step.batch :: e in s.timers && e.addr in s.heap && s.heap[e.addr].expiration == e.when && Scheduled(s, e.addr)
    requires forall i, j | 0 <= i < j < |step.batch| :: step.batch[i].addr != step.batch[j].addr
    ensures Owned(r) && Gone(r)
  {
    hide Numbered, WakesInTime, Sorted, Indexed;
    assert Held(r) == step.batch;
    forall a | a in s.heap ensures Scheduled(r, a) <==> Scheduled(s, a) && !IsHeld(r, a) {
      if Scheduled(s, a) && !Scheduled(r, a) {
        var x :| x in step.batch && IdAt(s.heap, x.addr) == IdAt(s.heap, a);
        assert x.addr == a;
      }
    }
    forall e | e in Held(r) ensures !Scheduled(r, e.addr) {
      assert IsHeld(r, e.addr);
    }
  }

  lemma RunKeeps(s: State, step: Step, r: State)
    requires Inv(s) && step.RunNext? && Enabled(s, step) && Safe(s, step) && Next(s, step, r)
    ensures Inv(r)
  {
    assert Held(r) == Held(s);
    assert forall a | a in s.heap :: Scheduled(r, a) == Scheduled(s, a);
  }

  lemma ResetKeeps(s: State, step: Step, r: State)
    requires Inv(s) && step.ResetOne? && Enabled(s, step) && Safe(s, step) && Next(s, step, r)
    ensures Inv(r)
  {
    var held := Held(s);
    if held == [] {
      assert Held(r) == held;
      assert forall a | a in s.heap :: Scheduled(r, a) == Scheduled(s, a);
    } else {
      assert held[0] in held;
      assert Held(r) == held[1..];
      ResetKeepsIndexed(s, step, r);
      ResetKeepsOwned(s, step, r);
      ResetKeepsGone(s, step, r);
    }
  }

  lemma ResetKeepsIndexed(s: State, step: Step, r: State)
    requires Inv(s) && step.ResetOne? && Enabled(s, step) && Safe(s, step) && Next(s, step, r) && Held(s) != []
    ensures Indexed(r) && Numbered(r)
  {
    hide Gone, WakesInTime;
    var a := Held(s)[0].addr;
    assert Held(s)[0] in Held(s) && !Scheduled(s, a);
  }

  lemma HeldTail(s: State, r: State)
    requires Held(s) != [] && Held(r) == Held(s)[1..]
    requires forall i, j | 0 <= i < j < |Held(s)| :: Held(s)[i].addr != Held(s)[j].addr
    ensures forall b: Address :: IsHeld(r, b) <==> IsHeld(s, b) && b != Held(s)[0].addr
    ensures forall e | e in Held(r) :: e in Held(s) && e.addr != Held(s)[0].addr
  {
    hide Held;
    var held := Held(s);
    forall e | e in Held(r) ensures e in held && e.addr != held[0].addr {
      var k :| 0 <= k < |held| - 1 && held[1..][k] == e;
      assert held[k + 1] == e && held[0].addr != held[k + 1].addr;
    }
    forall b: Address | IsHeld(s, b) && b != held[0].addr ensures IsHeld(r, b) {
      var e :| e in held && e.addr == b;
      var k :| 0 <= k < |held| && held[k] == e;
      assert held[1..][k - 1] == e;
    }
  }

  lemma ResetMoves(s: State, step: Step, r: State)
    requires Inv(s) && step.ResetOne? && Enabled(s, step) && Safe(s, step) && Next(s, step, r) && Held(s) != []
    ensures Held(r) == Held(s)[1..] && r.pending == s.pending
    ensures var a := Held(s)[0].addr;
            && (forall b | b != a :: (b in r.heap <==> b in s.heap) && Scheduled(r, b) == Scheduled(s, b))
            && (a in r.heap ==> Scheduled(r, a))
  {
    hide Gone, WakesInTime, Numbered, Indexed, Owned;
  }

  lemma ResetKeepsOwned(s: State, step: Step, r: State)
    requires Inv(s) && step.ResetOne? && Enabled(s, step) && Safe(s, step) && Next(s, step, r) && Held(s) != []
    ensures Owned(r)
  {
    ResetMoves(s, step, r);
    hide Gone, WakesInTime, Numbered, Indexed, Next, Held, Scheduled, IsHeld;
    HeldTail(s, r);
    HeadIsHeld(s);
  }

  lemma HeadIsHeld(s: State)
    requires Held(s) != []
    ensures IsHeld(s, Held(s)[0].addr)
  {
    assert Held(s)[0] in Held(s);
  }

  lemma ResetKeepsGone(s: State, step: Step, r: State)
    requires Inv(s) && step.ResetOne? && Enabled(s, step) && Safe(s, step) && Next(s, step, r) && Held(s) != []
    ensures Gone(r) && WakesInTime(r)
  {
    hide WakesInTime, Numbered, Indexed;
    var held := Held(s);
    assert held[0] in held;
    assert Held(r) == held[1..] && forall e | e in held[1..] :: e in held;
    assert IsHeld(s, held[0].addr);
    NotIdle(r);
  }

  lemma NotIdle(s: State)
    ensures !s.phase.Idle? ==> WakesInTime(s)
  {
  }

  lemma DoneKeeps(s: State, step: Step, r: State)
    requires Inv(s) && step.ResetDone? && Enabled(s, step) && Safe(s, step) && Next(s, step, r)
    ensures Inv(r)
  {
    assert Held(r) == Held(s) == [];
    assert forall a | a in s.heap :: Scheduled(r, a) == Scheduled(s, a);
    DoneWakes(s, step, r);
  }

  lemma DoneWakes(s: State, step: Step, r: State)
    requires Inv(s) && step.ResetDone? && Enabled(s, step) && Safe(s, step) && Next(s, step, r)
    ensures WakesInTime(r)
  {
    hide Owned, Gone;
    if s.timers != {} {
      var when :| IsEarliest(s.timers, when) && r.alarm == if when > 0 then Arm(when, step.clock) else s.alarm;
      var e :| e in s.timers && e.when == when;
      assert s.heap[e.addr].expiration == when > 0;
    }
  }

  /** Every step of the queue, its callbacks or another thread keeps the invariant. */
  lemma StepKeepsInv(s: State, step: Step, r: State)
    requires Inv(s) && Enabled(s, step) && Safe(s, step) && Next(s, step, r)
    ensures Inv(r)
  {
    hide Inv, Next, Enabled;
    match step
    case New(_, _, _, _) => NewKeeps(s, step, r);
    case AddInLoop(_, _) => AddKeeps(s, step, r);
    case Cancel(_) => CancelKeeps(s, step, r);
    case Expire(_, _) => ExpireKeeps(s, step, r);
    case RunNext => RunKeeps(s, step, r);
    case ResetOne => ResetKeeps(s, step, r);
    case ResetDone(_) => DoneKeeps(s, step, r);
  }

  // ---- whole runs ----

  /** A run: states connected by enabled steps, from the empty queue. */
  ghost predicate IsRun(states: seq<State>, steps: seq<Step>)
    decreases |steps|
  {
    && |states| == |steps| + 1
    && if steps == [] then states[0] == INIT
       else
         var n := |steps|;
         && IsRun(states[..n], steps[..n - 1])
         && Enabled(states[n - 1], steps[n - 1])
         && Safe(states[n - 1], steps[n - 1])
         && Next(states[n - 1], steps[n - 1], states[n])
  }

  /** In every run the invariant holds at the end, and no step that can come next touches a deleted timer. */
  lemma {:induction false} RunsAreSafe(states: seq<State>, steps: seq<Step>)
    requires IsRun(states, steps)
    ensures Inv(states[|steps|])
    ensures forall step | Enabled(states[|steps|], step) :: Safe(states[|steps|], step)
    decreases |steps|
  {
    hide Next, Safe, Enabled;
    var n := |steps|;
    if n == 0 {
      assert Inv(INIT);
    } else {
      hide Inv;
      RunsAreSafe(states[..n], steps[..n - 1]);
      StepKeepsInv(states[n - 1], steps[n - 1], states[n]);
    }
    forall step | Enabled(states[n], step) ensures Safe(states[n], step) {
      InvIsSafe(states[n], step);
    }
  }

  // ---- what follows for users of the queue ----

  function Max(a: int, b: int): int { if a < b then b else a }

  ghost predicate Matched(heap: map<Address, Timer>, timers: set<Entry>, active: set<Id>) {
    && (forall e | e in timers :: e.addr in heap && heap[e.addr].expiration == e.when && IdAt(heap, e.addr) in active)
    && (forall id | id in active ::
          id.addr in heap && heap[id.addr].sequence == id.sequence && Entry(heap[id.addr].expiration, id.addr) in timers)
  }

  lemma {:induction false} MatchedSizes(heap: map<Address, Timer>, timers: set<Entry>, active: set<Id>)
    requires Matched(heap, timers, active)
    ensures |timers| == |active|
    decreases |active|
  {
    if active == {} {
      assert timers == {};
    } else {
      var id :| id in active;
      var e := Entry(heap[id.addr].expiration, id.addr);
      MatchedSizes(heap, timers - {e}, active - {id});
    }
  }

  /** The assertions of the code: the sets have one size, what is erased was there, what is inserted was not. */
  lemma AssertionsHold(s: State)
    requires Inv(s)
    ensures |s.timers| == |s.active|
    ensures forall id | id in s.active :: Entry(s.heap[id.addr].expiration, id.addr) in s.timers
    ensures forall a | a in s.pending || IsHeld(s, a) ::
              a in s.heap && IdAt(s.heap, a) !in s.active && forall when :: Entry(when, a) !in s.timers
  {
    MatchedSizes(s.heap, s.timers, s.active);
  }

  /** Inside cancelInLoop, where the timer and its callback are deleted: out of one index and still in the other. */
  function HalfCancelled(s: State, id: Id): State
    requires id in s.active && id.addr in s.heap
  {
    s.(timers := s.timers - {Entry(s.heap[id.addr].expiration, id.addr)}, heap := s.heap - {id.addr})
  }

  /**
   * There the sizes differ, for every scheduled timer of every good state. So the assertions that adding and cancelling
   * start with hold inside a cancellation exactly if the destructor of the cancelled callback neither adds nor cancels.
   */
  lemma CancelIsHalfDone(s: State, id: Id)
    requires Inv(s) && id in s.active
    ensures id.addr in s.heap
    ensures var h := HalfCancelled(s, id);
            |h.timers| + 1 == |h.active| && CancelIn(s, id).timers == h.timers && CancelIn(s, id).active == h.active - {id}
  {
    AssertionsHold(s);
    assert Entry(s.heap[id.addr].expiration, id.addr) in s.timers;
  }

  /** A cancellation by a destructor during a reset: a repeating timer whose turn is still to come is put back nevertheless. */
  lemma CancelledInReset(s: State, id: Id, r: State, q: State)
    requires Inv(s) && s.phase.Resetting? && s.phase.rest != [] && s.phase.rest[0].addr == id.addr && InBatch(s, id)
    requires Enabled(s, Cancel(id)) && Safe(s, Cancel(id)) && Next(s, Cancel(id), r)
    requires Enabled(r, ResetOne) && Safe(r, ResetOne) && Next(r, ResetOne, q)
    ensures r == s
    ensures id in q.active <==> s.heap[id.addr].repeat && id !in s.canceling
  {
    hide WakesInTime, Gone, Numbered;
    assert s.phase.rest[0] in Held(s) && IsHeld(s, id.addr) && !Scheduled(s, id.addr);
  }

  lemma NewIdIsNotIssued(s: State, step: Step, r: State)
    requires Inv(s) && step.New? && Enabled(s, step) && Next(s, step, r)
    ensures IdAt(r.heap, step.addr) !in s.issued && r.issued == s.issued + {IdAt(r.heap, step.addr)}
  {
  }

  /** Cancelling an id leaves every timer with another id as it was, also a younger one at the same address. */
  lemma StaleIdsAreHarmless(s: State, id: Id, r: State)
    requires Inv(s) && Enabled(s, Cancel(id)) && Safe(s, Cancel(id)) && Next(s, Cancel(id), r)
    ensures forall a | a in s.heap && IdAt(s.heap, a) != id ::
              a in r.heap && r.heap[a] == s.heap[a] && Scheduled(r, a) == Scheduled(s, a) && (a in r.pending) == (a in s.pending)
  {
  }

  lemma CancelledGrows(s: State, step: Step, r: State)
    requires Enabled(s, step) && Safe(s, step) && Next(s, step, r)
    ensures s.cancelled <= r.cancelled
  {
  }

  lemma CancelledIsGone(s: State, id: Id)
    requires Inv(s) && id in s.cancelled
    ensures id !in s.active
  {
  }

  // ---- callbacks of cancelled timers ----

  /** The timer whose callback a step runs. */
  predicate Calls(s: State, step: Step, id: Id) {
    && step.RunNext? && Enabled(s, step)
    && var a := s.phase.batch[s.phase.ran].addr;
    a in s.heap && IdAt(s.heap, a) == id
  }

  /** No callback of the timer can come from here without another expiry. */
  predicate Quiet(s: State, id: Id) { s.phase.Resetting? || !InBatch(s, id) }

  lemma QuietCallsNothing(s: State, step: Step, id: Id)
    requires Quiet(s, id)
    ensures !Calls(s, step, id)
  {
    assert step.RunNext? && Enabled(s, step) ==> s.phase.batch[s.phase.ran] in Held(s);
  }

  lemma QuietStays(s: State, step: Step, r: State, id: Id)
    requires Inv(s) && Enabled(s, step) && Safe(s, step) && Next(s, step, r)
    requires id in s.cancelled && Quiet(s, id)
    ensures Quiet(r, id)
  {
    hide WakesInTime, Numbered;
    match step
    case Expire(_, _) =>
      BatchWasScheduled(s, step);
      assert Held(r) == step.batch;
    case ResetOne =>
    case ResetDone(_) => assert Held(r) == [];
    case _ => QuietElsewhere(s, step, r, id);
  }

  lemma QuietElsewhere(s: State, step: Step, r: State, id: Id)
    requires Inv(s) && Enabled(s, step) && Safe(s, step) && Next(s, step, r)
    requires !step.Expire? && !step.ResetOne? && !step.ResetDone? && Quiet(s, id)
    ensures Quiet(r, id)
  {
    hide WakesInTime, Gone, Indexed;
    assert Held(r) == Held(s) && r.phase.Resetting? == s.phase.Resetting?;
    assert forall e | e in Held(s) :: e.addr in s.heap && (e.addr in r.heap ==> r.heap[e.addr] == s.heap[e.addr]);
  }

  /** How often the callback of a timer ran between two states of a run. */
  ghost function CallCount(states: seq<State>, steps: seq<Step>, i: nat, n: nat, id: Id): nat
    requires i <= n <= |steps| < |states|
    decreases n
  {
    if n == i then 0
    else CallCount(states, steps, i, n - 1, id) + if Calls(states[n - 1], steps[n - 1], id) then 1 else 0
  }

  lemma {:induction false} RunPrefix(states: seq<State>, steps: seq<Step>, n: nat)
    requires IsRun(states, steps) && n <= |steps|
    ensures IsRun(states[..n + 1], steps[..n]) && Inv(states[n])
    decreases |steps| - n
  {
    hide Inv, Next, Enabled, Safe;
    var m := |steps|;
    if n == m {
      assert states[..n + 1] == states && steps[..n] == steps;
      RunsAreSafe(states, steps);
    } else {
      RunPrefix(states[..m], steps[..m - 1], n);
      assert states[..m][..n + 1] == states[..n + 1] && steps[..m - 1][..n] == steps[..n];
    }
  }

  lemma RunStep(states: seq<State>, steps: seq<Step>, n: nat)
    requires IsRun(states, steps) && n < |steps|
    ensures Inv(states[n]) && Enabled(states[n], steps[n]) && Safe(states[n], steps[n]) && Next(states[n], steps[n], states[n + 1])
  {
    hide Inv, Next, Enabled, Safe;
    RunPrefix(states, steps, n);
    RunPrefix(states, steps, n + 1);
    var prefix := states[..n + 2];
    assert prefix[n] == states[n] && prefix[n + 1] == states[n + 1] && steps[..n + 1][n] == steps[n];
  }

  lemma {:induction false} QuietForever(states: seq<State>, steps: seq<Step>, i: nat, n: nat, id: Id)
    requires IsRun(states, steps) && i <= n <= |steps|
    requires id in states[i].cancelled && Quiet(states[i], id)
    ensures CallCount(states, steps, i, n, id) == 0
    ensures id in states[n].cancelled && Quiet(states[n], id)
    decreases n
  {
    hide Inv, Next, Enabled, Safe, Quiet, Calls;
    if n > i {
      QuietForever(states, steps, i, n - 1, id);
      RunStep(states, steps, n - 1);
      QuietCallsNothing(states[n - 1], steps[n - 1], id);
      QuietStays(states[n - 1], steps[n - 1], states[n], id);
      CancelledGrows(states[n - 1], steps[n - 1], states[n]);
    }
  }

  /** The timer at a place of the running batch. */
  ghost predicate IsAt(s: State, k: nat, id: Id) {
    && s.phase.Calling? && k < |s.phase.batch|
    && s.phase.batch[k].addr in s.heap && IdAt(s.heap, s.phase.batch[k].addr) == id
  }

  lemma CallsByPlace(s: State, step: Step, k: nat, id: Id)
    requires Inv(s) && Enabled(s, step) && IsAt(s, k, id)
    ensures Calls(s, step, id) <==> step.RunNext? && s.phase.ran == k
  {
    hide WakesInTime, Gone, Indexed, Numbered;
    assert Held(s) == s.phase.batch;
  }

  /** While the callbacks run, the batch stays as it is and its timers stay alive. */
  lemma BatchStays(s: State, step: Step, r: State, k: nat, id: Id)
    requires Inv(s) && Enabled(s, step) && Safe(s, step) && Next(s, step, r)
    requires IsAt(s, k, id)
    ensures r.phase.Calling? ==> IsAt(r, k, id) && r.phase.ran == s.phase.ran + if step.RunNext? then 1 else 0
    ensures !r.phase.Calling? ==> step.ResetOne? && r.phase.Resetting? && s.phase.ran == |s.phase.batch|
  {
    hide WakesInTime, Gone, Numbered;
    var e := s.phase.batch[k];
    assert e in Held(s) && !Scheduled(s, e.addr) && IsHeld(s, e.addr);
  }

  lemma {:induction false} CallsInBatch(states: seq<State>, steps: seq<Step>, i: nat, n: nat, k: nat, id: Id)
    requires IsRun(states, steps) && i <= n <= |steps| && IsAt(states[i], k, id)
    requires forall j | i <= j <= n :: states[j].phase.Calling?
    ensures IsAt(states[n], k, id) && states[i].phase.ran <= states[n].phase.ran
    ensures CallCount(states, steps, i, n, id) == if states[i].phase.ran <= k < states[n].phase.ran then 1 else 0
    decreases n
  {
    hide Inv, Next, Enabled, Safe, Calls, IsAt;
    if n > i {
      CallsInBatch(states, steps, i, n - 1, k, id);
      RunStep(states, steps, n - 1);
      CallsByPlace(states[n - 1], steps[n - 1], k, id);
      BatchStays(states[n - 1], steps[n - 1], states[n], k, id);
    }
  }

  lemma CallsLeft(states: seq<State>, steps: seq<Step>, i: nat, e: nat, n: nat, k: nat, id: Id)
    requires IsRun(states, steps) && i < e <= n <= |steps| && IsAt(states[i], k, id) && id in states[i].cancelled
    requires (forall j | i <= j < e :: states[j].phase.Calling?) && !states[e].phase.Calling?
    ensures CallCount(states, steps, i, n, id) == if states[i].phase.ran <= k then 1 else 0
  {
    hide Inv, Next, Enabled, Safe, Calls, IsAt;
    CallsInBatch(states, steps, i, e - 1, k, id);
    RunStep(states, steps, e - 1);
    CallsByPlace(states[e - 1], steps[e - 1], k, id);
    BatchStays(states[e - 1], steps[e - 1], states[e], k, id);
    PlaceInBatch(states[e - 1], k, id);
    CancelledStays(states, steps, i, e, id);
    QuietForever(states, steps, e, n, id);
    CountSplits(states, steps, i, e, n, id);
  }

  lemma PlaceInBatch(s: State, k: nat, id: Id)
    requires IsAt(s, k, id)
    ensures s.phase.Calling? && k < |s.phase.batch|
  {
  }

  lemma {:induction false} CancelledStays(states: seq<State>, steps: seq<Step>, i: nat, n: nat, id: Id)
    requires IsRun(states, steps) && i <= n <= |steps| && id in states[i].cancelled
    ensures id in states[n].cancelled
    decreases n
  {
    hide Inv, Next, Enabled, Safe;
    if n > i {
      CancelledStays(states, steps, i, n - 1, id);
      RunStep(states, steps, n - 1);
      CancelledGrows(states[n - 1], steps[n - 1], states[n]);
    }
  }

  lemma {:induction false} CountSplits(states: seq<State>, steps: seq<Step>, i: nat, e: nat, n: nat, id: Id)
    requires i <= e <= n <= |steps| < |states|
    ensures CallCount(states, steps, i, n, id) == CallCount(states, steps, i, e, id) + CallCount(states, steps, e, n, id)
    decreases n
  {
    hide Calls;
    if n > e {
      CountSplits(states, steps, i, e, n - 1, id);
    }
  }

  /** Cancelling a scheduled timer silences it at once; cancelling one that the running batch holds does not. */
  lemma CancelSilences(s: State, id: Id, r: State)
    requires Inv(s) && Enabled(s, Cancel(id)) && Safe(s, Cancel(id)) && Next(s, Cancel(id), r)
    requires id in s.active || (s.phase.Calling? && InBatch(s, id))
    ensures id in r.cancelled && id !in r.active
    ensures Quiet(r, id) <==> id in s.active
  {
    hide WakesInTime, Gone, Numbered;
    assert Held(r) == Held(s);
    if id in s.active {
      assert Scheduled(s, id.addr);
    } else {
      assert r.heap == s.heap;
    }
  }

  /** In every run: each timer of a batch is called exactly once; `e` is where the callbacks of the batch are over. */
  lemma CalledOncePerExpiry(states: seq<State>, steps: seq<Step>, i: nat, e: nat, k: nat, id: Id)
    requires IsRun(states, steps) && i + 1 < e <= |steps| && steps[i].Expire? && IsAt(states[i + 1], k, id)
    requires (forall j | i < j < e :: states[j].phase.Calling?) && !states[e].phase.Calling?
    ensures CallCount(states, steps, i + 1, e, id) == 1
  {
    hide Inv, Enabled, Safe, Calls, IsAt;
    RunStep(states, steps, i);
    CallsInBatch(states, steps, i + 1, e - 1, k, id);
    RunStep(states, steps, e - 1);
    CallsByPlace(states[e - 1], steps[e - 1], k, id);
    BatchStays(states[e - 1], steps[e - 1], states[e], k, id);
    PlaceInBatch(states[e - 1], k, id);
  }

  // ---- the same from the steps of a run ----

  /** A cancellation of a timer that is scheduled, or that the running batch holds. */
  predicate CancelHits(s: State, step: Step, id: Id) {
    step == Cancel(id) && (id in s.active || (s.phase.Calling? && InBatch(s, id)))
  }

  lemma HitIsCancelled(states: seq<State>, steps: seq<Step>, c: nat, n: nat, id: Id)
    requires IsRun(states, steps) && c < n <= |steps| && CancelHits(states[c], steps[c], id)
    ensures id in states[n].cancelled && id !in states[n].active
  {
    hide Inv, Next, Enabled, Safe;
    RunStep(states, steps, c);
    CancelSilences(states[c], id, states[c + 1]);
    CancelledStays(states, steps, c + 1, n, id);
    RunPrefix(states, steps, n);
    CancelledIsGone(states[n], id);
  }

  /** In every run: after a cancellation that hits, the timer is never scheduled again. */
  lemma CancelledForever(states: seq<State>, steps: seq<Step>, c: nat, n: nat, id: Id)
    requires IsRun(states, steps) && c < n <= |steps| && CancelHits(states[c], steps[c], id)
    ensures id !in states[n].active
  {
    HitIsCancelled(states, steps, c, n, id);
  }

  /**
   * In every run: once a timer was cancelled, and no batch is running, or the running batch does not hold it, or the
   * callbacks of its batch are over, it is never called again.
   */
  lemma NeverCalledAgain(states: seq<State>, steps: seq<Step>, c: nat, i: nat, n: nat, id: Id)
    requires IsRun(states, steps) && c < i <= n <= |steps|
    requires CancelHits(states[c], steps[c], id) && Quiet(states[i], id)
    ensures CallCount(states, steps, i, n, id) == 0
  {
    hide IsRun, Quiet, CancelHits;
    HitIsCancelled(states, steps, c, i, id);
    QuietForever(states, steps, i, n, id);
  }

  /**
   * In every run: a timer cancelled inside its own batch is called once more if its turn had not come, and not at all
   * if it had; `e` is where the callbacks of the batch are over, `n` any later state.
   */
  lemma CalledOnceMore(states: seq<State>, steps: seq<Step>, c: nat, e: nat, n: nat, k: nat, id: Id)
    requires IsRun(states, steps) && c + 1 < e <= n <= |steps| && CancelHits(states[c], steps[c], id) && IsAt(states[c + 1], k, id)
    requires (forall j | c < j < e :: states[j].phase.Calling?) && !states[e].phase.Calling?
    ensures CallCount(states, steps, c + 1, n, id) == if states[c + 1].phase.ran <= k then 1 else 0
  {
    hide IsRun, IsAt, CancelHits;
    HitIsCancelled(states, steps, c, c + 1, id);
    CallsLeft(states, steps, c + 1, e, n, k, id);
  }

  lemma {:induction false} IssuedStays(states: seq<State>, steps: seq<Step>, i: nat, n: nat, id: Id)
    requires IsRun(states, steps) && i <= n <= |steps| && id in states[i].issued
    ensures id in states[n].issued
    decreases n
  {
    hide Inv, Safe, Enabled;
    if n > i {
      IssuedStays(states, steps, i, n - 1, id);
      RunStep(states, steps, n - 1);
    }
  }

  /** In every run: two calls of addTimer hand out different ids, although they may get the same address. */
  lemma IdsAreNew(states: seq<State>, steps: seq<Step>, i: nat, j: nat)
    requires IsRun(states, steps) && i < j < |steps| && steps[i].New? && steps[j].New?
    ensures steps[i].addr in states[i + 1].heap && steps[j].addr in states[j + 1].heap
    ensures IdAt(states[i + 1].heap, steps[i].addr) != IdAt(states[j + 1].heap, steps[j].addr)
  {
    hide Inv, Safe;
    RunStep(states, steps, i);
    RunStep(states, steps, j);
    NewIdIsNotIssued(states[i], steps[i], states[i + 1]);
    NewIdIsNotIssued(states[j], steps[j], states[j + 1]);
    IssuedStays(states, steps, i + 1, j, IdAt(states[i + 1].heap, steps[i].addr));
  }

  // ---- when the descriptor is armed ----

  /** The step reads the clock to arm the descriptor. */
  predicate MayArm(step: Step) { step.AddInLoop? || step.ResetDone? }

  /** Adding a new earliest timer arms for it, or 100 microseconds ahead if that is later; other additions leave the alarm. */
  lemma AddArmsExactly(s: State, step: Step, r: State)
    requires step.AddInLoop? && Enabled(s, step) && Safe(s, step) && Next(s, step, r)
    ensures var when := s.heap[step.addr].expiration;
            r.alarm == if forall e | e in s.timers :: when < e.when then Alarm(Some(Max(when, step.clock + 100)), step.clock) else s.alarm
  {
  }

  /** The end of a reset arms in the same way for the earliest timer, if there is one. */
  lemma ResetArmsExactly(s: State, step: Step, r: State)
    requires Inv(s) && step.ResetDone? && Enabled(s, step) && Safe(s, step) && Next(s, step, r)
    ensures s.timers == {} ==> r.alarm == s.alarm
    ensures forall e | e in s.timers && (forall f | f in s.timers :: e.when <= f.when) ::
              r.alarm == Alarm(Some(Max(e.when, step.clock + 100)), step.clock)
  {
    hide Owned, Gone, WakesInTime;
    forall e | e in s.timers && (forall f | f in s.timers :: e.when <= f.when)
      ensures r.alarm == Alarm(Some(Max(e.when, step.clock + 100)), step.clock)
    {
      assert e.addr in s.heap && e.when > 0;
      assert IsEarliest(s.timers, e.when);
    }
  }

  lemma AlarmChanges(s: State, step: Step, r: State)
    requires Enabled(s, step) && Safe(s, step) && Next(s, step, r)
    ensures r.alarm.armedAt == s.alarm.armedAt || (MayArm(step) && r.alarm.armedAt == step.clock)
  {
  }

  /** The time at which the clock was read by one of the first n steps, or 0 for the start. */
  ghost predicate ClockRead(steps: seq<Step>, n: nat, clock: int)
    requires n <= |steps|
  {
    clock == 0 || exists i | 0 <= i < n :: MayArm(steps[i]) && steps[i].clock == clock
  }

  lemma {:induction false} ArmedByAStep(states: seq<State>, steps: seq<Step>, n: nat)
    requires IsRun(states, steps) && n <= |steps|
    ensures ClockRead(steps, n, states[n].alarm.armedAt)
    decreases n
  {
    hide Inv, Next, Enabled, Safe;
    if n == 0 {
      RunPrefix(states, steps, 0);
    } else {
      ArmedByAStep(states, steps, n - 1);
      RunStep(states, steps, n - 1);
      AlarmChanges(states[n - 1], steps[n - 1], states[n]);
    }
  }

  /**
   * In every run, when no batch is running, a wake-up is armed or already due for every scheduled timer: no later than
   * its expiration, or than 100 microseconds after a time at which the clock was read for arming.
   */
  lemma AlwaysArmed(states: seq<State>, steps: seq<Step>)
    requires IsRun(states, steps) && states[|steps|].phase.Idle? && states[|steps|].timers != {}
    ensures states[|steps|].alarm.wake.Some?
    ensures exists clock | ClockRead(steps, |steps|, clock) ::
              forall e | e in states[|steps|].timers :: states[|steps|].alarm.wake.value <= Max(e.when, clock + 100)
  {
    hide ClockRead, Indexed, Owned, Numbered, Gone, Next, Enabled, Safe;
    RunsAreSafe(states, steps);
    ArmedByAStep(states, steps, |steps|);
  }

  // ---- the life of a timer ----

  predicate Alive(s: State, id: Id) { id.addr in s.heap && s.heap[id.addr].sequence == id.sequence }

  /** The timer waits to be scheduled or to expire. */
  predicate Waits(s: State, id: Id, t: Timer) {
    Alive(s, id) && s.heap[id.addr] == t && !InBatch(s, id)
  }

  /** The batch that expired at `now` holds the timer. */
  predicate Fires(s: State, id: Id, t: Timer, now: int) {
    Alive(s, id) && s.heap[id.addr] == t && InBatch(s, id) && !s.phase.Idle? && s.phase.now == now
  }

  predicate Over(s: State, id: Id) { id in s.issued && !Alive(s, id) }

  /** An expiry whose batch holds the timer. */
  predicate Takes(s: State, step: Step, id: Id) {
    step.Expire? && Alive(s, id) && exists e | e in step.batch :: e.addr == id.addr
  }

  lemma OverStays(s: State, step: Step, r: State, id: Id)
    requires Inv(s) && Enabled(s, step) && Safe(s, step) && Next(s, step, r) && Over(s, id)
    ensures Over(r, id)
  {
    hide Indexed, Owned, Gone, WakesInTime;
  }

  lemma WaitsOn(s: State, step: Step, r: State, id: Id, t: Timer)
    requires Inv(s) && Enabled(s, step) && Safe(s, step) && Next(s, step, r) && Waits(s, id, t) && !Takes(s, step, id)
    ensures (Waits(r, id, t) && (id in s.active ==> id in r.active)) || Over(r, id)
  {
    hide WakesInTime, Gone;
    if step.ResetOne? && Held(s) != [] {
      assert Held(s)[0] in Held(s) && forall e | e in Held(r) :: e in Held(s);
    } else if !step.Expire? {
      assert Held(r) == Held(s) || Held(r) == [];
    }
  }

  /** An expiry takes exactly what is due, in order of expiration; everything that stays is due later. */
  lemma TakenWhenDue(s: State, step: Step, r: State)
    requires Inv(s) && step.Expire? && Enabled(s, step) && Safe(s, step) && Next(s, step, r)
    ensures forall e | e in step.batch :: e in s.timers && e.when <= step.now
    ensures forall e | e in s.timers :: e in step.batch || (e in r.timers && e.when > step.now)
    ensures forall i, j | 0 <= i < j < |step.batch| :: step.batch[i].when <= step.batch[j].when
  {
    forall e | e in step.batch ensures e in s.timers && e.when <= step.now {
      assert e in (set x | x in step.batch) && e in Due(s.timers, step.now);
    }
    forall e | e in s.timers ensures e in step.batch || (e in r.timers && e.when > step.now) {
      if e.when <= step.now {
        assert e in Due(s.timers, step.now) && e in (set x | x in step.batch);
      }
    }
  }

  lemma FiresWhenTaken(s: State, step: Step, r: State, id: Id, t: Timer)
    requires Inv(s) && Enabled(s, step) && Safe(s, step) && Next(s, step, r) && Takes(s, step, id) && s.heap[id.addr] == t
    ensures Fires(r, id, t, step.now) && Waits(s, id, t)
    ensures Entry(t.expiration, id.addr) in step.batch && t.expiration <= step.now
  {
    hide WakesInTime, Gone, Owned, Numbered;
    TakenWhenDue(s, step, r);
    var e :| e in step.batch && e.addr == id.addr;
    assert e in s.timers && e in Held(r);
  }

  lemma FiresOn(s: State, step: Step, r: State, id: Id, t: Timer, now: int)
    requires Inv(s) && Enabled(s, step) && Safe(s, step) && Next(s, step, r) && Fires(s, id, t, now)
    ensures || Fires(r, id, t, now)
            || (t.repeat && Waits(r, id, t.(expiration := now + t.interval)) && id in r.active)
            || Over(r, id)
  {
    hide WakesInTime, Gone;
    var e :| e in Held(s) && e.addr == id.addr && e.addr in s.heap && s.heap[e.addr].sequence == id.sequence;
    assert IsHeld(s, id.addr) && !Scheduled(s, id.addr);
    if step.ResetOne? {
      FiresInReset(s, step, r, id, t, now);
    } else {
      assert Held(r) == Held(s);
    }
  }

  lemma FiresInReset(s: State, step: Step, r: State, id: Id, t: Timer, now: int)
    requires Inv(s) && step.ResetOne? && Enabled(s, step) && Safe(s, step) && Next(s, step, r) && Fires(s, id, t, now)
    ensures || Fires(r, id, t, now)
            || (t.repeat && Waits(r, id, t.(expiration := now + t.interval)) && id in r.active)
            || Over(r, id)
  {
    hide WakesInTime, Gone, Indexed;
    var held := Held(s);
    var k :| 0 <= k < |held| && held[k].addr == id.addr;
    assert Held(r) == held[1..];
    if k > 0 {
      assert held[1..][k - 1] == held[k] && held[0].addr != held[k].addr;
    } else {
      assert forall e | e in held[1..] :: e.addr != id.addr;
    }
  }

  /** Waiting, from one state of a run to a later one without an expiry that takes the timer. */
  lemma {:induction false} WaitsUntilTaken(states: seq<State>, steps: seq<Step>, i: nat, n: nat, id: Id, t: Timer)
    requires IsRun(states, steps) && i <= n <= |steps| && (Waits(states[i], id, t) || Over(states[i], id))
    requires forall j | i <= j < n :: !Takes(states[j], steps[j], id)
    ensures Waits(states[n], id, t) || Over(states[n], id)
    decreases n
  {
    hide Inv, Next, Enabled, Safe, Waits, Over, Takes;
    if n > i {
      WaitsUntilTaken(states, steps, i, n - 1, id, t);
      RunStep(states, steps, n - 1);
      if Over(states[n - 1], id) {
        OverStays(states[n - 1], steps[n - 1], states[n], id);
      } else {
        WaitsOn(states[n - 1], steps[n - 1], states[n], id, t);
      }
    }
  }

  /** What may have become of a timer since an expiry at `now` took it, if no other did. */
  predicate SinceTaken(s: State, id: Id, t: Timer, now: int) {
    || Fires(s, id, t, now)
    || (t.repeat && Waits(s, id, t.(expiration := now + t.interval)) && id in s.active)
    || Over(s, id)
  }

  lemma {:induction false} LifeSinceTaken(states: seq<State>, steps: seq<Step>, i: nat, n: nat, id: Id, t: Timer)
    requires IsRun(states, steps) && i < n <= |steps| && Takes(states[i], steps[i], id) && states[i].heap[id.addr] == t
    requires forall j | i < j < n :: !Takes(states[j], steps[j], id)
    ensures SinceTaken(states[n], id, t, steps[i].now)
    decreases n
  {
    hide Inv, Next, Enabled, Safe, Waits, Over, Fires;
    RunStep(states, steps, n - 1);
    if n == i + 1 {
      FiresWhenTaken(states[i], steps[i], states[n], id, t);
    } else {
      hide Takes;
      LifeSinceTaken(states, steps, i, n - 1, id, t);
      var s, now := states[n - 1], steps[i].now;
      if Over(s, id) {
        OverStays(s, steps[n - 1], states[n], id);
      } else if Fires(s, id, t, now) {
        FiresOn(s, steps[n - 1], states[n], id, t, now);
      } else {
        WaitsOn(s, steps[n - 1], states[n], id, t.(expiration := now + t.interval));
      }
    }
  }

  /** In every run: the first expiry that takes a timer does so under the time asked for, and not before it. */
  lemma FirstExpiry(states: seq<State>, steps: seq<Step>, i: nat, j: nat, id: Id)
    requires IsRun(states, steps) && i < j < |steps| && steps[i].New? && id == Id(steps[i].addr, states[i].created + 1)
    requires Takes(states[j], steps[j], id) && forall k | i < k < j :: !Takes(states[k], steps[k], id)
    ensures states[j].heap[id.addr] == Timer(steps[i].when, steps[i].repeat, steps[i].interval, id.sequence)
    ensures Entry(steps[i].when, id.addr) in steps[j].batch && steps[i].when <= steps[j].now
  {
    hide Takes, Safe, Next, Enabled, Inv;
    RunStep(states, steps, i);
    RunStep(states, steps, j);
    var t := Timer(steps[i].when, steps[i].repeat, steps[i].interval, id.sequence);
    NewWaits(states[i], steps[i], states[i + 1]);
    WaitsUntilTaken(states, steps, i + 1, j, id, t);
    TakesIsAlive(states[j], steps[j], id);
    FiresWhenTaken(states[j], steps[j], states[j + 1], id, states[j].heap[id.addr]);
  }

  lemma TakesIsAlive(s: State, step: Step, id: Id)
    requires Takes(s, step, id)
    ensures Alive(s, id)
  {
  }

  lemma NewWaits(s: State, step: Step, r: State)
    requires Inv(s) && step.New? && Enabled(s, step) && Next(s, step, r)
    ensures Waits(r, Id(step.addr, s.created + 1), Timer(step.when, step.repeat, step.interval, s.created + 1))
  {
    hide WakesInTime, Gone, Indexed;
    assert Held(r) == Held(s);
  }

  /**
   * In every run: of two consecutive expiries that take a timer, the later one takes it under the time of the earlier
   * one plus its interval, so it comes no sooner than that; and only a repeating timer is taken twice.
   */
  lemma Periodic(states: seq<State>, steps: seq<Step>, i: nat, j: nat, id: Id)
    requires IsRun(states, steps) && i < j < |steps| && Takes(states[i], steps[i], id) && Takes(states[j], steps[j], id)
    requires forall k | i < k < j :: !Takes(states[k], steps[k], id)
    ensures var t := states[i].heap[id.addr];
            && t.repeat
            && states[j].heap[id.addr] == t.(expiration := steps[i].now + t.interval)
            && Entry(steps[i].now + t.interval, id.addr) in steps[j].batch
            && steps[i].now + t.interval <= steps[j].now
  {
    hide Takes, Enabled, Safe, Next, Inv;
    TakesIsAlive(states[i], steps[i], id);
    TakesIsAlive(states[j], steps[j], id);
    LifeSinceTaken(states, steps, i, j, id, states[i].heap[id.addr]);
    RunStep(states, steps, j);
    FiresWhenTaken(states[j], steps[j], states[j + 1], id, states[j].heap[id.addr]);
  }

  /**
   * In every run: once the batch that took a timer does not hold it any more, and no later one took it, the timer is
   * scheduled exactly at the time of the expiry plus its interval, or it is gone for good.
   */
  lemma Rescheduled(states: seq<State>, steps: seq<Step>, i: nat, n: nat, id: Id)
    requires IsRun(states, steps) && i < n <= |steps| && Takes(states[i], steps[i], id)
    requires (forall k | i < k < n :: !Takes(states[k], steps[k], id)) && !InBatch(states[n], id)
    ensures var t := states[i].heap[id.addr];
            || Over(states[n], id)
            || (t.repeat && id in states[n].active && Entry(steps[i].now + t.interval, id.addr) in states[n].timers)
  {
    hide Takes, Enabled, Safe, Next;
    TakesIsAlive(states[i], steps[i], id);
    LifeSinceTaken(states, steps, i, n, id, states[i].heap[id.addr]);
    RunPrefix(states, steps, n);
  }

  lemma Extend(states: seq<State>, steps: seq<Step>, step: Step, r: State)
    requires IsRun(states, steps)
    requires Enabled(states[|steps|], step) && Safe(states[|steps|], step) && Next(states[|steps|], step, r)
    ensures IsRun(states + [r], steps + [step])
  {
    hide Next, Enabled, Safe;
    var n := |steps|;
    assert (states + [r])[..n + 1] == states && (steps + [step])[..n] == steps;
  }

  /** Two timers, scheduled for the same time. */
  lemma TwoTimers() returns (states: seq<State>, steps: seq<Step>)
    ensures IsRun(states, steps) && |steps| == 4 && |states| == 5
    ensures var s := states[4];
            && s.phase == Idle && s.cancelled == {}
            && s.heap == map[0 := Timer(10, true, 5, 1), 1 := Timer(10, true, 5, 2)]
            && s.timers == {Entry(10, 0), Entry(10, 1)} && s.active == {Id(0, 1), Id(1, 2)}
  {
    var s1 := INIT.(heap := INIT.heap[0 := Timer(10, true, 5, 1)], pending := INIT.pending + {0}, created := 1,
                    issued := INIT.issued + {Id(0, 1)});
    var s2 := s1.(heap := s1.heap[1 := Timer(10, true, 5, 2)], pending := s1.pending + {1}, created := 2,
                  issued := s1.issued + {Id(1, 2)});
    var s3 := Add(s2, 0, 1);
    var s4 := Add(s3, 1, 1);
    hide IsRun;
    assert IsRun([INIT], []) by { RunStarts(); }
    Extend([INIT], [], New(0, 10, true, 5), s1);
    Extend([INIT] + [s1], [New(0, 10, true, 5)], New(1, 10, true, 5), s2);
    states, steps := [INIT, s1, s2], [New(0, 10, true, 5), New(1, 10, true, 5)];
    assert states == [INIT] + [s1] + [s2] && steps == [New(0, 10, true, 5)] + [New(1, 10, true, 5)];
    Extend(states, steps, AddInLoop(0, 1), s3);
    states, steps := states + [s3], steps + [AddInLoop(0, 1)];
    Extend(states, steps, AddInLoop(1, 1), s4);
    states, steps := states + [s4], steps + [AddInLoop(1, 1)];
  }

  lemma RunStarts()
    ensures IsRun([INIT], [])
  {
  }

  /** Both are due at once, and the first callback has begun. */
  lemma BatchOfTwo() returns (states: seq<State>, steps: seq<Step>)
    ensures IsRun(states, steps) && |steps| == 6 && |states| == 7 && steps[5] == RunNext && !Calls(states[5], RunNext, Id(1, 2))
    ensures var s := states[6];
            && s.phase == Calling(10, [Entry(10, 0), Entry(10, 1)], 1) && s.active == {}
            && s.heap == map[0 := Timer(10, true, 5, 1), 1 := Timer(10, true, 5, 2)]
  {
    states, steps := TwoTimers();
    var s4, batch := states[4], [Entry(10, 0), Entry(10, 1)];
    assert (set e | e in batch) == Due(s4.timers, 10);
    var s5 := BeginExpire(s4, 10, batch);
    var s6 := s5.(phase := Calling(10, batch, 1));
    hide IsRun;
    Extend(states, steps, Expire(10, batch), s5);
    states, steps := states + [s5], steps + [Expire(10, batch)];
    Extend(states, steps, RunNext, s6);
    states, steps := states + [s6], steps + [RunNext];
    assert s5.active == {} by {
      assert batch[0] in batch && batch[1] in batch;
      assert IdAt(s4.heap, 0) == Id(0, 1) && IdAt(s4.heap, 1) == Id(1, 2);
    }
  }

  /** Two timers in one batch: the callback of the first cancels the second, which is called nevertheless. */
  lemma CancelledStillCalled() returns (states: seq<State>, steps: seq<Step>, id: Id)
    ensures IsRun(states, steps) && |steps| == 8 && |states| == 9
    ensures steps[5] == RunNext && steps[6] == Cancel(id) && !Calls(states[5], steps[5], id)
    ensures id in states[7].cancelled && CallCount(states, steps, 7, 8, id) == 1
  {
    hide IsRun;
    states, steps := BatchOfTwo();
    id := Id(1, 2);
    var s6 := states[6];
    assert s6.phase.batch[1] in Held(s6) && InBatch(s6, id);
    var s7 := CancelIn(s6, id);
    var s8 := s7.(phase := s7.phase.(ran := 2));
    Extend(states, steps, Cancel(id), s7);
    states, steps := states + [s7], steps + [Cancel(id)];
    Extend(states, steps, RunNext, s8);
    states, steps := states + [s8], steps + [RunNext];
    assert Calls(states[7], steps[7], id);
    assert CallCount(states, steps, 7, 7, id) == 0;
  }
}
