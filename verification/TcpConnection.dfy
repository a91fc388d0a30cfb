/**
 * The output side of a connection on its loop thread. What the kernel answers to a write is chosen freely,
 * and everything a program may do in between are steps.
 */
module TcpConnection {
  import opened Base

  datatype Status = Connecting | Connected | Disconnecting | Disconnected

  /** The answer to a write: so many bytes taken, a failure that will pass, or EPIPE or ECONNRESET. */
  datatype Answer = Took(n: nat) | Retry | Fault

  datatype State = State(
    status: Status,
    writing: bool,
    output: bytes,
    shutdowns: nat,
    // History: the bytes the kernel took, the bytes send accepted, how many of them a fault dropped,
    // whether shutdown was asked for, and whether a write ever followed the shutdown of the write side.
    written: bytes,
    accepted: bytes,
    lost: nat,
    asked: bool,
    wroteLate: bool)

  const INIT: State := State(Connecting, false, [], 0, [], [], 0, false, false)

  datatype Step =
    | Establish
    | Send(data: bytes, answer: Answer)
    | Shutdown
    | ForceClose
    | ForceCloseInLoop
    | HandleWrite(answer: Answer)
    | HandleClose
    | Destroy

  predicate Enabled(s: State, step: Step) {
    match step
    case Establish => s.status == Connecting
    case Send(data, answer) => answer.Took? ==> answer.n <= |data|
    case HandleWrite(answer) => answer.Took? ==> answer.n <= |s.output|
    case HandleClose => s.status == Connected || s.status == Disconnecting
    case _ => true
  }

  function SendInLoop(s: State, data: bytes, answer: Answer): State
    requires answer.Took? ==> answer.n <= |data|
  {
    if s.status == Disconnected then s
    else
      var direct := !s.writing && s.output == [];
      var n := if direct && answer.Took? then answer.n else 0;
      var late := s.wroteLate || (direct && s.shutdowns > 0);
      var s' := s.(accepted := s.accepted + data, written := s.written + data[..n], wroteLate := late);
      if direct && answer.Fault? then s'.(lost := s.lost + |data|)
      else if n < |data| then s'.(output := s.output + data[n..], writing := true)
      else s'
  }

  function ShutdownInLoop(s: State): State {
    if !s.writing then s.(shutdowns := s.shutdowns + 1) else s
  }

  function WriteMore(s: State, answer: Answer): State
    requires answer.Took? ==> answer.n <= |s.output|
  {
    if !s.writing then s
    else
      var s' := s.(wroteLate := s.wroteLate || s.shutdowns > 0);
      if answer.Took? && answer.n > 0 then
        var rest := s.output[answer.n..];
        var r := s'.(written := s.written + s.output[..answer.n], output := rest);
        if rest == [] then
          var done := r.(writing := false);
          if s.status == Disconnecting then ShutdownInLoop(done) else done
        else r
      else s'
  }

  function Close(s: State): State {
    s.(status := Disconnected, writing := false)
  }

  function Apply(s: State, step: Step): State
    requires Enabled(s, step)
  {
    match step
    case Establish => s.(status := Connected)
    case Send(data, answer) => if s.status == Connected then SendInLoop(s, data, answer) else s
    case Shutdown => if s.status == Connected then ShutdownInLoop(s.(status := Disconnecting, asked := true)) else s
    case ForceClose => if s.status == Connected || s.status == Disconnecting then s.(status := Disconnecting) else s
    case ForceCloseInLoop => if s.status == Connected || s.status == Disconnecting then Close(s) else s
    case HandleWrite(answer) => WriteMore(s, answer)
    case HandleClose => Close(s)
    case Destroy => if s.status == Connected then Close(s) else s
  }

  // ---- the invariant ----

  predicate Inv(s: State) {
    && |s.written| + |s.output| + s.lost == |s.accepted|
    && (s.lost == 0 ==> s.written + s.output == s.accepted)
    && (s.status == Connecting ==> s == INIT)
    && (s.status != Disconnected ==> (s.writing <==> s.output != []))
    && (s.status == Disconnected ==> !s.writing)
    && (s.status == Connected ==> s.shutdowns == 0 && !s.asked)
    && s.shutdowns <= 1
    && (s.shutdowns == 1 ==> !s.writing && s.output == [])
    && (s.asked && s.status == Disconnecting ==> (s.shutdowns == 1 <==> s.output == []))
    && !s.wroteLate
  }

  /** Cutting a message in two and handing over the first part loses nothing. */
  lemma CutInTwo(written: bytes, output: bytes, data: bytes, n: nat)
    requires n <= |data| && (n == 0 || output == [])
    ensures (written + data[..n]) + (output + data[n..]) == written + output + data
    ensures n == |data| ==> written + data[..n] + output == written + output + data
  {
    assert data[..n] + data[n..] == data;
    if n == 0 {
      assert written + data[..0] == written && output + data[0..] == output + data;
      assert written + (output + data) == written + output + data;
    } else {
      assert written + data[..n] + data[n..] == written + (data[..n] + data[n..]);
    }
  }

  lemma SendKeeps(s: State, data: bytes, answer: Answer)
    requires Inv(s) && s.status == Connected && (answer.Took? ==> answer.n <= |data|)
    ensures Inv(SendInLoop(s, data, answer))
  {
    var direct := !s.writing && s.output == [];
    var n := if direct && answer.Took? then answer.n else 0;
    CutInTwo(s.written, s.output, data, n);
    var r := SendInLoop(s, data, answer);
    assert |r.written| == |s.written| + n && |r.accepted| == |s.accepted| + |data|;
    if direct && answer.Fault? {
      assert r.lost == s.lost + |data| && r.output == s.output;
      assert data == [] ==> s.written + data[..0] == s.written && s.accepted + data == s.accepted;
    } else if n < |data| {
      assert r.output == s.output + data[n..];
    }
  }

  lemma WriteKeeps(s: State, answer: Answer)
    requires Inv(s) && (answer.Took? ==> answer.n <= |s.output|)
    ensures Inv(WriteMore(s, answer))
  {
    if answer.Took? {
      assert s.output[..answer.n] + s.output[answer.n..] == s.output;
      assert s.written + s.output[..answer.n] + s.output[answer.n..] == s.written + (s.output[..answer.n] + s.output[answer.n..]);
    }
  }

  lemma StepKeepsInv(s: State, step: Step)
    requires Inv(s) && Enabled(s, step)
    ensures Inv(Apply(s, step))
  {
    match step
    case Send(data, answer) =>
      if s.status == Connected {
        SendKeeps(s, data, answer);
      }
    case HandleWrite(answer) => WriteKeeps(s, answer);
    case _ =>
  }

  // ---- whole runs ----

  ghost predicate IsRun(states: seq<State>, steps: seq<Step>) {
    && |states| == |steps| + 1
    && states[0] == INIT
    && forall i | 0 <= i < |steps| :: Enabled(states[i], steps[i]) && states[i + 1] == Apply(states[i], steps[i])
  }

  lemma {:induction false} RunKeepsInv(states: seq<State>, steps: seq<Step>, n: nat)
    requires IsRun(states, steps) && n < |states|
    ensures Inv(states[n])
    decreases n
  {
    hide Apply, Enabled;
    if n > 0 {
      hide Inv;
      RunKeepsInv(states, steps, n - 1);
      StepKeepsInv(states[n - 1], steps[n - 1]);
    }
  }

  /** A send that meets EPIPE or ECONNRESET with something to say. */
  predicate Faults(s: State, step: Step) {
    && step.Send? && s.status == Connected
    && !s.writing && s.output == []
    && step.answer.Fault? && step.data != []
  }

  lemma OnlyFaultsLose(s: State, step: Step)
    requires Enabled(s, step)
    ensures Apply(s, step).lost == s.lost + if Faults(s, step) then |step.data| else 0
  {
  }

  lemma {:induction false} LostIffFaulted(states: seq<State>, steps: seq<Step>, n: nat)
    requires IsRun(states, steps) && n < |states|
    ensures states[n].lost == 0 <==> forall i | 0 <= i < n :: !Faults(states[i], steps[i])
    decreases n
  {
    hide Apply, Faults, Enabled;
    if n > 0 {
      LostIffFaulted(states, steps, n - 1);
      OnlyFaultsLose(states[n - 1], steps[n - 1]);
      if Faults(states[n - 1], steps[n - 1]) {
        FaultsLoseSomething(states[n - 1], steps[n - 1]);
      }
    }
  }

  lemma FaultsLoseSomething(s: State, step: Step)
    requires Faults(s, step)
    ensures |step.data| > 0
  {
  }

  // ---- what happened in a run, from its steps ----

  /** The bytes of every send that found the connection up. */
  ghost function Accepted(states: seq<State>, steps: seq<Step>, n: nat): bytes
    requires IsRun(states, steps) && n < |states|
    decreases n
  {
    if n == 0 then []
    else Accepted(states, steps, n - 1)
         + if steps[n - 1].Send? && states[n - 1].status == Connected then steps[n - 1].data else []
  }

  /** The step writes to the socket: a send with nothing in front of it, or an event while write interest is on. */
  predicate Writes(s: State, step: Step) {
    || (step.Send? && s.status == Connected && !s.writing && s.output == [])
    || (step.HandleWrite? && s.writing)
  }

  /** What the kernel took of the bytes it was offered. */
  function TakenBy(s: State, step: Step): bytes
    requires Enabled(s, step)
  {
    if !Writes(s, step) || !step.answer.Took? then []
    else if step.Send? then step.data[..step.answer.n] else s.output[..step.answer.n]
  }

  ghost function TakenByKernel(states: seq<State>, steps: seq<Step>, n: nat): bytes
    requires IsRun(states, steps) && n < |states|
    decreases n
  {
    if n == 0 then []
    else
      assert Enabled(states[n - 1], steps[n - 1]);
      TakenByKernel(states, steps, n - 1) + TakenBy(states[n - 1], steps[n - 1])
  }

  /** The histories are those of the run. */
  lemma StepWritesHistory(s: State, step: Step)
    requires Enabled(s, step)
    ensures var r := Apply(s, step);
            && r.accepted == s.accepted + (if step.Send? && s.status == Connected then step.data else [])
            && r.written == s.written + TakenBy(s, step)
            && (r.wroteLate <==> s.wroteLate || (Writes(s, step) && s.shutdowns > 0))
            && (r.asked <==> s.asked || (step.Shutdown? && s.status == Connected))
  {
    assert s.accepted + [] == s.accepted && s.written + [] == s.written;
  }

  lemma {:induction false} HistoryIsOfTheRun(states: seq<State>, steps: seq<Step>, n: nat)
    requires IsRun(states, steps) && n < |states|
    ensures states[n].accepted == Accepted(states, steps, n) && states[n].written == TakenByKernel(states, steps, n)
    ensures states[n].wroteLate <==> exists i | 0 <= i < n :: Writes(states[i], steps[i]) && states[i].shutdowns > 0
    ensures states[n].asked <==> exists i | 0 <= i < n :: steps[i].Shutdown? && states[i].status == Connected
    decreases n
  {
    hide Apply, Enabled, Writes, TakenBy;
    if n > 0 {
      HistoryIsOfTheRun(states, steps, n - 1);
      assert Enabled(states[n - 1], steps[n - 1]);
      StepWritesHistory(states[n - 1], steps[n - 1]);
    }
  }

  // ---- the laws ----

  /**
   * In every run: the bytes the kernel took followed by the output buffer are the bytes of all sends that found the
   * connection up, in order, exactly when no send met a fault.
   */
  lemma Conservation(states: seq<State>, steps: seq<Step>, n: nat)
    requires IsRun(states, steps) && n < |states|
    ensures TakenByKernel(states, steps, n) + states[n].output == Accepted(states, steps, n)
            <==> forall i | 0 <= i < n :: !Faults(states[i], steps[i])
  {
    hide Faults, Apply, Enabled, TakenByKernel, Accepted;
    HistoryIsOfTheRun(states, steps, n);
    RunKeepsInv(states, steps, n);
    LostIffFaulted(states, steps, n);
    assert |states[n].written + states[n].output| == |states[n].written| + |states[n].output|;
  }

  /** Until disconnection write interest is on exactly when there is something to write. */
  lemma InterestIsOutput(states: seq<State>, steps: seq<Step>, n: nat)
    requires IsRun(states, steps) && n < |states| && states[n].status != Disconnected
    ensures states[n].writing <==> states[n].output != []
  {
    RunKeepsInv(states, steps, n);
  }

  /**
   * The write side is shut down at most once, with nothing left to write and no write after it; without faults
   * everything accepted was written then. Once shutdown was called, it happens as soon as the buffer is empty.
   */
  lemma ShutdownOnce(states: seq<State>, steps: seq<Step>, n: nat)
    requires IsRun(states, steps) && n < |states|
    ensures states[n].shutdowns <= 1 && forall i | 0 <= i < n :: Writes(states[i], steps[i]) ==> states[i].shutdowns == 0
    ensures states[n].shutdowns == 1 ==> states[n].output == []
    ensures states[n].shutdowns == 1 && (forall i | 0 <= i < n :: !Faults(states[i], steps[i]))
            ==> TakenByKernel(states, steps, n) == Accepted(states, steps, n)
    ensures states[n].status == Disconnecting && states[n].output == []
            && (exists i | 0 <= i < n :: steps[i].Shutdown? && states[i].status == Connected)
            ==> states[n].shutdowns == 1
  {
    hide Faults, Apply, Enabled, Writes, TakenByKernel, Accepted;
    HistoryIsOfTheRun(states, steps, n);
    RunKeepsInv(states, steps, n);
    LostIffFaulted(states, steps, n);
    assert states[n].written + [] == states[n].written;
  }

  // ---- the life of a connection ----

  function Rank(status: Status): nat {
    match status
    case Connecting => 0
    case Connected => 1
    case Disconnecting => 2
    case Disconnected => 3
  }

  lemma StepAdvances(s: State, step: Step)
    requires Enabled(s, step)
    ensures Rank(s.status) <= Rank(Apply(s, step).status)
  {
  }

  /** In every run the status only goes forward: connecting, connected, disconnecting, disconnected. */
  lemma {:induction false} StatusAdvances(states: seq<State>, steps: seq<Step>, i: nat, n: nat)
    requires IsRun(states, steps) && i <= n < |states|
    ensures Rank(states[i].status) <= Rank(states[n].status)
    decreases n
  {
    hide Apply, Enabled, Rank;
    if n > i {
      StatusAdvances(states, steps, i, n - 1);
      assert Enabled(states[n - 1], steps[n - 1]) && states[n] == Apply(states[n - 1], steps[n - 1]);
      StepAdvances(states[n - 1], steps[n - 1]);
    }
  }

  /** Which steps disconnect: the end of the stream, a forced close in the loop, or the destruction of a connected one. */
  lemma DisconnectsExactly(s: State, step: Step)
    requires Enabled(s, step)
    ensures Apply(s, step).status == Disconnected <==>
            || s.status == Disconnected
            || step.HandleClose?
            || (step.ForceCloseInLoop? && (s.status == Connected || s.status == Disconnecting))
            || (step.Destroy? && s.status == Connected)
    ensures Apply(s, step).status == Disconnecting && s.status != Disconnecting <==>
            s.status == Connected && (step.Shutdown? || step.ForceClose?)
  {
  }

  lemma ClosedStays(s: State, step: Step)
    requires Inv(s) && Enabled(s, step) && s.status == Disconnected
    ensures var r := Apply(s, step); r.status == Disconnected && r.output == s.output && !r.writing
    ensures !Writes(s, step) && TakenBy(s, step) == []
  {
  }

  /** In every run: from disconnection on nothing is accepted, written or taken from the output buffer any more. */
  lemma {:induction false} ClosedIsQuiet(states: seq<State>, steps: seq<Step>, i: nat, n: nat)
    requires IsRun(states, steps) && i <= n < |states| && states[i].status == Disconnected
    ensures states[n].status == Disconnected && states[n].output == states[i].output
    ensures Accepted(states, steps, n) == Accepted(states, steps, i) && TakenByKernel(states, steps, n) == TakenByKernel(states, steps, i)
    decreases n
  {
    hide Inv, Apply, Enabled, TakenBy;
    if n > i {
      ClosedIsQuiet(states, steps, i, n - 1);
      RunKeepsInv(states, steps, n - 1);
      assert Enabled(states[n - 1], steps[n - 1]) && states[n] == Apply(states[n - 1], steps[n - 1]);
      ClosedStays(states[n - 1], steps[n - 1]);
    }
  }

  // ---- the object ----

  class TcpConnection {
    var state: Status
    var writing: bool
    var outputBuffer: bytes
    var shutdowns: nat
    ghost var written: bytes
    ghost var accepted: bytes
    ghost var lost: nat
    ghost var asked: bool
    ghost var wroteLate: bool

    ghost function Now(): State
      reads this
    {
      State(state, writing, outputBuffer, shutdowns, written, accepted, lost, asked, wroteLate)
    }

    constructor ()
      ensures Now() == INIT
    {
      state, writing, outputBuffer, shutdowns := Connecting, false, [], 0;
      written, accepted, lost, asked, wroteLate := [], [], 0, false, false;
    }

    method ConnectEstablished()
      requires Inv(Now()) && Enabled(Now(), Establish)
      modifies this
      ensures Now() == Apply(old(Now()), Establish) && Inv(Now())
    {
      state := Connected;
    }

    /** On the loop thread: write at once if nothing is waiting, and keep what the kernel did not take. */
    method Send(data: bytes, answer: Answer)
      requires Inv(Now()) && Enabled(Now(), Step.Send(data, answer))
      modifies this
      ensures Now() == Apply(old(Now()), Step.Send(data, answer)) && Inv(Now())
    {
      hide Inv;
      StepKeepsInv(Now(), Step.Send(data, answer));
      if state != Connected {
        return;
      }
      accepted := accepted + data;
      var nwrote, faultError := 0, false;
      if !writing && outputBuffer == [] {
        wroteLate := wroteLate || shutdowns > 0;
        match answer
        case Took(n) =>
          nwrote := n;
        case Retry =>
        case Fault =>
          faultError := true;
          lost := lost + |data|;
      }
      written := written + data[..nwrote];
      if !faultError && nwrote < |data| {
        outputBuffer := outputBuffer + data[nwrote..];
        if !writing {
          writing := true;
        }
      }
    }

    method Shutdown()
      requires Inv(Now())
      modifies this
      ensures Now() == Apply(old(Now()), Step.Shutdown) && Inv(Now())
    {
      if state == Connected {
        state := Disconnecting;
        asked := true;
        ShutdownWrite();
      }
    }

    /** shutdownInLoop. */
    method ShutdownWrite()
      modifies this
      ensures Now() == ShutdownInLoop(old(Now()))
    {
      if !writing {
        shutdowns := shutdowns + 1;
      }
    }

    method ForceClose()
      requires Inv(Now())
      modifies this
      ensures Now() == Apply(old(Now()), Step.ForceClose) && Inv(Now())
    {
      if state == Connected || state == Disconnecting {
        state := Disconnecting;
      }
    }

    method HandleWrite(answer: Answer)
      requires Inv(Now()) && Enabled(Now(), Step.HandleWrite(answer))
      modifies this
      ensures Now() == Apply(old(Now()), Step.HandleWrite(answer)) && Inv(Now())
    {
      hide Inv;
      StepKeepsInv(Now(), Step.HandleWrite(answer));
      if writing {
        wroteLate := wroteLate || shutdowns > 0;
        if answer.Took? && answer.n > 0 {
          written := written + outputBuffer[..answer.n];
          outputBuffer := outputBuffer[answer.n..];
          if outputBuffer == [] {
            writing := false;
            if state == Disconnecting {
              ShutdownWrite();
            }
          }
        }
      }
    }

    method HandleClose()
      requires Inv(Now()) && Enabled(Now(), Step.HandleClose)
      modifies this
      ensures Now() == Apply(old(Now()), Step.HandleClose) && Inv(Now())
    {
      state := Disconnected;
      writing := false;
    }

    method ConnectDestroyed()
      requires Inv(Now())
      modifies this
      ensures Now() == Apply(old(Now()), Destroy) && Inv(Now())
    {
      if state == Connected {
        state := Disconnected;
        writing := false;
      }
    }
  }
}
