/** The timer queue object. Its methods are the steps of the transition system in Timers.dfy. */
module TimerQueue {
  import opened Base
  import opened Timers

  /** The first entry in the order of the set. */
  method First(timers: set<Entry>) returns (first: Entry)
    requires timers != {}
    ensures first in timers && forall e | e in timers :: e == first || Before(first, e)
  {
    first :| first in timers;
    var rest := timers - {first};
    while rest != {}
      invariant rest <= timers && first in timers
      invariant forall e | e in timers && e !in rest :: e == first || Before(first, e)
      decreases |rest|
    {
      var e :| e in rest;
      if Before(e, first) {
        first := e;
      }
      rest := rest - {e};
    }
  }

  /** The entries taken so far are due, in order, and before all that are left. */
  ghost predicate Taken(all: set<Entry>, left: set<Entry>, expired: seq<Entry>, now: int) {
    && left <= all && (set e | e in expired) == all - left
    && (forall e | e in expired :: e.when <= now)
    && Sorted(expired) && (forall e, f | e in expired && f in left :: Before(e, f))
  }

  lemma TakenMore(all: set<Entry>, left: set<Entry>, expired: seq<Entry>, now: int, first: Entry)
    requires Taken(all, left, expired, now) && first in left && first.when <= now
    requires forall e | e in left :: e == first || Before(first, e)
    ensures Taken(all, left - {first}, expired + [first], now)
  {
    var more := expired + [first];
    assert (set e | e in more) == (set e | e in expired) + {first};
    forall i, j | 0 <= i < j < |more| ensures Before(more[i], more[j]) {
      if j == |expired| {
        assert more[i] in expired;
      }
    }
  }

  class TimerQueue {
    var heap: map<Address, Timer>
    var pending: set<Address>
    var timers: set<Entry>
    var active: set<Id>
    var canceling: set<Id>
    var phase: Phase
    var alarm: Alarm
    var created: nat
    ghost var issued: set<Id>
    ghost var cancelled: set<Id>

    ghost function Now(): State
      reads this
    {
      State(heap, pending, timers, active, canceling, phase, alarm, created, issued, cancelled)
    }

    constructor ()
      ensures Now() == INIT && Inv(Now())
    {
      heap, pending, timers, active, canceling := map[], {}, {}, {}, {};
      phase, alarm, created := Idle, Alarm(None, 0), 0;
      issued, cancelled := {}, {};
    }

    /** A timer made by any thread, at an address that is free. */
    method AddTimer(addr: Address, when: int, repeat: bool, interval: nat) returns (id: Id)
      requires Inv(Now()) && Enabled(Now(), New(addr, when, repeat, interval))
      modifies this
      ensures Next(old(Now()), New(addr, when, repeat, interval), Now()) && Inv(Now())
      ensures id == IdAt(heap, addr) && id !in old(issued)
    {
      ghost var step := New(addr, when, repeat, interval);
      created := created + 1;
      heap := heap[addr := Timer(when, repeat, interval, created)];
      pending := pending + {addr};
      id := Id(addr, created);
      issued := issued + {id};
      NewKeeps(old(Now()), step, Now());
    }

    method Insert(addr: Address) returns (earliestChanged: bool)
      requires addr in heap
      modifies this`timers, this`active
      ensures earliestChanged == EarliestChanged(old(timers), heap[addr].expiration)
      ensures Now() == Timers.Insert(old(Now()), addr)
    {
      var when := heap[addr].expiration;
      if timers == {} {
        earliestChanged := true;
      } else {
        var it := First(timers);
        earliestChanged := when < it.when;
      }
      timers := timers + {Entry(when, addr)};
      active := active + {Id(addr, heap[addr].sequence)};
    }

    method AddTimerInLoop(addr: Address, clock: int)
      requires Inv(Now()) && Enabled(Now(), AddInLoop(addr, clock))
      modifies this
      ensures Safe(old(Now()), AddInLoop(addr, clock)) && Next(old(Now()), AddInLoop(addr, clock), Now()) && Inv(Now())
    {
      hide Inv, EarliestChanged;
      ghost var step := AddInLoop(addr, clock);
      InvIsSafe(Now(), step);
      var earliestChanged := Insert(addr);
      pending := pending - {addr};
      if earliestChanged {
        alarm := Arm(heap[addr].expiration, clock);
      }
      StepKeepsInv(old(Now()), step, Now());
    }

    method CancelInLoop(id: Id)
      requires Inv(Now()) && Enabled(Now(), Cancel(id))
      modifies this
      ensures Safe(old(Now()), Cancel(id)) && Next(old(Now()), Cancel(id), Now()) && Inv(Now())
    {
      hide Inv;
      ghost var step := Cancel(id);
      InvIsSafe(Now(), step);
      if id in active {
        timers := timers - {Entry(heap[id.addr].expiration, id.addr)};
        heap := heap - {id.addr};
        active := active - {id};
        cancelled := cancelled + {id};
      } else if phase.Calling? {
        cancelled := if InBatch(Now(), id) then cancelled + {id} else cancelled;
        canceling := canceling + {id};
      }
      StepKeepsInv(old(Now()), step, Now());
    }

    /** Move everything that is due out of both sets, in order of expiration. */
    method GetExpired(now: int) returns (expired: seq<Entry>)
      requires Indexed(Now())
      modifies this`timers, this`active
      ensures Sorted(expired) && (set e | e in expired) == Due(old(timers), now)
      ensures forall e | e in expired :: e.addr in heap
      ensures timers == old(timers) - (set e | e in expired)
      ensures active == old(active) - (set e | e in expired :: IdAt(heap, e.addr))
    {
      expired := Take(now);
      forall e | e in expired ensures e.addr in heap {
        assert e in Due(old(timers), now);
      }
      var i := 0;
      while i < |expired|
        invariant 0 <= i <= |expired|
        invariant timers == old(timers) - (set e | e in expired)
        invariant active == old(active) - (set e | e in expired[..i] :: IdAt(heap, e.addr))
      {
        active := active - {IdAt(heap, expired[i].addr)};
        assert expired[..i + 1] == expired[..i] + [expired[i]];
        i := i + 1;
      }
      assert expired[..|expired|] == expired;
    }

    method Take(now: int) returns (expired: seq<Entry>)
      modifies this`timers
      ensures Sorted(expired) && (set e | e in expired) == Due(old(timers), now)
      ensures timers == old(timers) - (set e | e in expired)
    {
      expired := [];
      while timers != {}
        invariant Taken(old(timers), timers, expired, now)
        decreases |timers|
      {
        var first := First(timers);
        if first.when > now {
          break;
        }
        TakenMore(old(timers), timers, expired, now, first);
        expired := expired + [first];
        timers := timers - {first};
      }
    }

    /** The timer descriptor is readable: read it and start the batch. */
    method BeginRead(now: int)
      requires Inv(Now()) && phase.Idle? && now > 0
      modifies this
      ensures Inv(Now()) && phase.Calling? && phase.now == now
      ensures Enabled(old(Now()), Expire(now, phase.batch)) && Safe(old(Now()), Expire(now, phase.batch))
      ensures Next(old(Now()), Expire(now, phase.batch), Now())
    {
      alarm := alarm.(wake := None);
      var expired := GetExpired(now);
      canceling := {};
      phase := Calling(now, expired, 0);
      hide Inv, Sorted;
      ghost var step := Expire(now, expired);
      InvIsSafe(old(Now()), step);
      StepKeepsInv(old(Now()), step, Now());
    }

    /** The callback of the next timer of the batch; what it adds and cancels are steps of their own. */
    method RunCallback() returns (timer: Timer)
      requires Inv(Now()) && Enabled(Now(), RunNext)
      modifies this
      ensures Safe(old(Now()), RunNext) && Next(old(Now()), RunNext, Now()) && Inv(Now())
      ensures timer == heap[old(phase).batch[old(phase).ran].addr]
    {
      hide Inv;
      InvIsSafe(Now(), RunNext);
      timer := heap[phase.batch[phase.ran].addr];
      phase := phase.(ran := phase.ran + 1);
      StepKeepsInv(old(Now()), RunNext, Now());
    }

    /** One round of the loop in reset: put a repeating timer back unless it was cancelled, delete any other. */
    method ResetTimer()
      requires Inv(Now()) && Enabled(Now(), ResetOne)
      modifies this
      ensures Safe(old(Now()), ResetOne) && Next(old(Now()), ResetOne, Now()) && Inv(Now())
      ensures phase == Resetting(old(phase).now, if Held(old(Now())) == [] then [] else Held(old(Now()))[1..])
    {
      hide Inv;
      InvIsSafe(Now(), ResetOne);
      var now, rest := phase.now, if phase.Calling? then phase.batch else phase.rest;
      if rest == [] {
        phase := Resetting(now, []);
      } else {
        var addr := rest[0].addr;
        var timer := heap[addr];
        if timer.repeat && Id(addr, timer.sequence) !in canceling {
          heap := heap[addr := timer.(expiration := now + timer.interval)];
          var _ := Insert(addr);
        } else {
          heap := heap - {addr};
        }
        phase := Resetting(now, rest[1..]);
      }
      StepKeepsInv(old(Now()), ResetOne, Now());
    }

    /** The end of reset: arm the descriptor for the earliest timer. */
    method EndReset(clock: int)
      requires Inv(Now()) && Enabled(Now(), ResetDone(clock))
      modifies this
      ensures Safe(old(Now()), ResetDone(clock)) && Next(old(Now()), ResetDone(clock), Now()) && Inv(Now())
    {
      hide Inv;
      ghost var step := ResetDone(clock);
      InvIsSafe(Now(), step);
      if timers != {} {
        var first := First(timers);
        assert IsEarliest(timers, first.when);
        if first.when > 0 {
          alarm := Arm(first.when, clock);
        }
      }
      phase := Idle;
      StepKeepsInv(old(Now()), step, Now());
    }

    /** All of reset, when no other thread comes in between. */
    method Reset(clock: int)
      requires Inv(Now()) && phase.Calling? && phase.ran == |phase.batch|
      modifies this
      ensures Inv(Now()) && phase.Idle?
      ensures timers != {} ==> alarm.wake.Some? && alarm.armedAt == clock
    {
      hide Inv;
      ResetTimer();
      while phase.rest != []
        invariant Inv(Now()) && phase.Resetting?
        decreases |phase.rest|
      {
        ResetTimer();
      }
      assert forall e | e in timers :: e.when > 0 by { PositiveTimes(Now()); }
      EndReset(clock);
    }
  }

  lemma PositiveTimes(s: State)
    requires Inv(s)
    ensures forall e | e in s.timers :: e.when > 0
  {
  }
}
