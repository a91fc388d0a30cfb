/**
 * Asynchronous logging: threads append lines under a lock, one thread takes the filled buffers away, writes them
 * without the lock and gives two of them back empty. Modelled as a transition system over all interleavings.
 */
module AsyncLogging {
  import opened Base

  /** The size of a large buffer. */
  const SIZE: nat := 4000 * 1000

  // ---- one buffer ----

  /** A fixed buffer takes a line only if there is more room than the line needs; otherwise it ignores it. */
  function FixedAppend(content: bytes, line: bytes): bytes {
    if |content| + |line| < SIZE then content + line else content
  }

  class FixedBuffer {
    const data: array<byte>
    var cur: nat

    ghost predicate Valid()
      reads this
    {
      cur <= data.Length == SIZE
    }

    ghost function Contents(): bytes
      requires Valid()
      reads this, data
    {
      data[..cur]
    }

    constructor ()
      ensures Valid() && fresh(data) && Contents() == []
    {
      data := new byte[SIZE];
      cur := 0;
    }

    method Append(line: bytes)
      requires Valid()
      modifies this, data
      ensures Valid() && Contents() == FixedAppend(old(Contents()), line)
    {
      if data.Length - cur > |line| {
        var k := 0;
        while k < |line|
          invariant 0 <= k <= |line| && cur == old(cur)
          invariant data[..cur] == old(data[..cur]) && data[cur..cur + k] == line[..k]
        {
          data[cur + k] := line[k];
          k := k + 1;
        }
        assert data[..cur + |line|] == data[..cur] + data[cur..cur + |line|];
        cur := cur + |line|;
      }
    }

    method Reset()
      requires Valid()
      modifies this
      ensures Valid() && Contents() == []
    {
      cur := 0;
    }
  }

  // ---- the transition system ----

  /** What became of a buffer: written, or dropped because too many had piled up. */
  datatype Piece = Kept(b: bytes) | Dropped(b: bytes)

  /** The logging thread: before it takes the buffers; with the batch; writing what is left of it. */
  datatype Phase =
    | Ready
    | Swapped(batch: seq<bytes>)
    | Writing(rest: seq<Piece>, vector: seq<bytes>)

  datatype State = State(
    current: bytes,
    next: Option<bytes>,
    buffers: seq<bytes>,
    spare1: Option<bytes>,
    spare2: Option<bytes>,
    phase: Phase,
    written: bytes,
    // History: the lines that fit into a buffer, how much was in lines that do not, all batches the thread took, and
    // all pieces handled.
    appended: bytes,
    oversize: nat,
    taken: seq<seq<bytes>>,
    handled: seq<Piece>)

  const INIT: State := State([], Some([]), [], Some([]), Some([]), Ready, [], [], 0, [], [])

  datatype Step = Append(line: bytes) | Swap | Trim | WriteNext | Recycle

  predicate Enabled(s: State, step: Step) {
    match step
    case Append(_) => true
    case Swap => s.phase.Ready?
    case Trim => s.phase.Swapped?
    case WriteNext => s.phase.Writing? && s.phase.rest != [] && s.phase.rest[0].Kept?
    case Recycle => s.phase.Writing? && forall p | p in s.phase.rest :: p.Dropped?
  }

  /** The pointers a step moves from are not null, and the vector it pops is not empty. */
  predicate Safe(s: State, step: Step) {
    && (step.Swap? ==> s.spare1.Some?)
    && (step.Recycle? && s.phase.Writing? ==>
          |s.phase.vector| >= (if s.spare1.None? then 1 else 0) + (if s.spare2.None? then 1 else 0))
  }

  function Appended(s: State, line: bytes): State {
    var s' := s.(appended := s.appended + (if |line| < SIZE then line else []),
                 oversize := s.oversize + if |line| >= SIZE then |line| else 0);
    if |s.current| + |line| < SIZE then s'.(current := FixedAppend(s.current, line))
    else
      s'.(buffers := s.buffers + [s.current],
          current := FixedAppend(if s.next.Some? then s.next.value else [], line),
          next := None)
  }

  function Fate(batch: seq<bytes>): (r: seq<Piece>)
    ensures |r| == |batch|
  {
    seq(|batch|, i requires 0 <= i < |batch| => if |batch| > 25 && i >= 2 then Dropped(batch[i]) else Kept(batch[i]))
  }

  function Trimmed(batch: seq<bytes>): seq<bytes> {
    if |batch| > 25 then batch[..2] else batch
  }

  function Apply(s: State, step: Step): State
    requires Enabled(s, step) && Safe(s, step)
  {
    match step
    case Append(line) => Appended(s, line)
    case Swap =>
      var batch := s.buffers + [s.current];
      var s' := s.(phase := Swapped(batch), taken := s.taken + [batch], buffers := [], current := s.spare1.value, spare1 := None);
      if s.next.None? then s'.(next := s.spare2, spare2 := None) else s'
    case Trim => s.(phase := Writing(Fate(s.phase.batch), Trimmed(s.phase.batch)))
    case WriteNext =>
      s.(written := s.written + s.phase.rest[0].b,
         handled := s.handled + [s.phase.rest[0]],
         phase := s.phase.(rest := s.phase.rest[1..]))
    // Reset buffers come back as spares; the rest of the vector is freed.
    case Recycle => s.(handled := s.handled + s.phase.rest, spare1 := Some([]), spare2 := Some([]), phase := Ready)
  }

  // ---- the invariant ----

  function Join(bs: seq<bytes>): bytes {
    if bs == [] then [] else bs[0] + Join(bs[1..])
  }

  function All(ps: seq<Piece>): bytes {
    if ps == [] then [] else ps[0].b + All(ps[1..])
  }

  function Written(ps: seq<Piece>): bytes {
    if ps == [] then [] else (if ps[0].Kept? then ps[0].b else []) + Written(ps[1..])
  }

  /** The bytes the logging thread has taken and not yet dealt with. */
  function InFlight(s: State): bytes {
    match s.phase
    case Ready => []
    case Swapped(batch) => Join(batch)
    case Writing(rest, _) => All(rest)
  }

  /** Everything handled, then the batch, then the filled buffers, then the current one. */
  function Contents(s: State): bytes {
    All(s.handled) + InFlight(s) + Join(s.buffers) + s.current
  }

  predicate Conserved(s: State) {
    s.written == Written(s.handled) && Contents(s) == s.appended
  }

  /** A missing next buffer means a filled one, so the thread always finds enough buffers to take two back. */
  predicate Recoverable(s: State) {
    && (s.next.Some? ==> s.next.value == [])
    && (s.next.None? ==> s.buffers != [])
    && match s.phase
       case Ready => s.spare1 == Some([]) && s.spare2 == Some([])
       case Swapped(batch) => s.spare1 == None && batch != [] && (s.spare2 == Some([]) || (s.spare2 == None && |batch| >= 2))
       case Writing(_, vector) => s.spare1 == None && vector != [] && (s.spare2 == Some([]) || (s.spare2 == None && |vector| >= 2))
  }

  function Fates(batches: seq<seq<bytes>>): seq<Piece> {
    if batches == [] then [] else Fate(batches[0]) + Fates(batches[1..])
  }

  /** What is still to be done with the batch in flight. */
  function PiecesInFlight(s: State): seq<Piece> {
    match s.phase
    case Ready => []
    case Swapped(batch) => Fate(batch)
    case Writing(rest, _) => rest
  }

  /** Every batch taken is dealt with by the rule, piece by piece and in order. */
  predicate Accounted(s: State) { s.handled + PiecesInFlight(s) == Fates(s.taken) }

  /** In a batch all buffers but the last are filled ones. */
  predicate FilledBatch(batch: seq<bytes>) {
    forall i | 0 <= i < |batch| - 1 :: batch[i] != []
  }

  /** While no line is too long for a buffer, none is handed over empty. */
  predicate Filled(s: State) {
    s.oversize == 0 ==> (forall b | b in s.buffers :: b != []) && (forall b | b in s.taken :: FilledBatch(b))
  }

  predicate Inv(s: State) { Conserved(s) && Recoverable(s) && Accounted(s) && Filled(s) }

  lemma InvIsSafe(s: State, step: Step)
    requires Inv(s) && Enabled(s, step)
    ensures Safe(s, step)
  {
  }

  lemma {:induction false} JoinAppend(bs: seq<bytes>, b: bytes)
    ensures Join(bs + [b]) == Join(bs) + b
    decreases |bs|
  {
    if bs == [] {
      assert (bs + [b])[1..] == [];
    } else {
      assert (bs + [b])[1..] == bs[1..] + [b];
      JoinAppend(bs[1..], b);
    }
  }

  lemma {:induction false} AllAppend(ps: seq<Piece>, qs: seq<Piece>)
    ensures All(ps + qs) == All(ps) + All(qs) && Written(ps + qs) == Written(ps) + Written(qs)
    decreases |ps|
  {
    if ps == [] {
      assert ps + qs == qs;
    } else {
      assert (ps + qs)[0] == ps[0] && (ps + qs)[1..] == ps[1..] + qs;
      AllAppend(ps[1..], qs);
    }
  }

  lemma {:induction false} PiecesOf(ps: seq<Piece>, bs: seq<bytes>)
    requires |ps| == |bs| && forall i | 0 <= i < |bs| :: ps[i].b == bs[i]
    ensures All(ps) == Join(bs)
    decreases |bs|
  {
    if bs != [] {
      PiecesOf(ps[1..], bs[1..]);
    }
  }

  lemma {:induction false} DroppedWriteNothing(ps: seq<Piece>)
    requires forall p | p in ps :: p.Dropped?
    ensures Written(ps) == []
    decreases |ps|
  {
    if ps != [] {
      assert ps[0] in ps;
      DroppedWriteNothing(ps[1..]);
    }
  }

  lemma AppendKeeps(s: State, line: bytes)
    requires Conserved(s) && Recoverable(s)
    ensures Conserved(Appended(s, line)) && Recoverable(Appended(s, line))
  {
    var r := Appended(s, line);
    var before := All(s.handled) + InFlight(s);
    if |s.current| + |line| < SIZE {
      assert before + Join(s.buffers) + (s.current + line) == before + Join(s.buffers) + s.current + line;
    } else {
      JoinAppend(s.buffers, s.current);
      assert before + (Join(s.buffers) + s.current) + r.current == before + Join(s.buffers) + s.current + r.current;
    }
  }

  lemma SwapKeeps(s: State)
    requires Conserved(s) && Recoverable(s) && Enabled(s, Swap) && Safe(s, Swap)
    ensures Conserved(Apply(s, Swap)) && Recoverable(Apply(s, Swap))
  {
    hide All, Written;
    JoinAppend(s.buffers, s.current);
    var h := All(s.handled);
    assert h + [] + Join(s.buffers) + s.current == h + (Join(s.buffers) + s.current) + [] + [];
  }

  lemma WriteKeeps(s: State)
    requires Conserved(s) && Recoverable(s) && Enabled(s, WriteNext)
    ensures Conserved(Apply(s, WriteNext)) && Recoverable(Apply(s, WriteNext))
  {
    var rest := s.phase.rest;
    var p := rest[0];
    AllAppend(s.handled, [p]);
    assert [p][1..] == [] && All([p]) == p.b + All([]) && Written([p]) == p.b + Written([]);
    assert p.b + [] == p.b;
    assert All(s.handled) + p.b + All(rest[1..]) == All(s.handled) + (p.b + All(rest[1..]));
  }

  lemma RecycleKeeps(s: State)
    requires Conserved(s) && Recoverable(s) && Enabled(s, Recycle) && Safe(s, Recycle)
    ensures Conserved(Apply(s, Recycle)) && Recoverable(Apply(s, Recycle))
  {
    AllAppend(s.handled, s.phase.rest);
    DroppedWriteNothing(s.phase.rest);
    assert Written(s.handled) + [] == Written(s.handled);
    assert All(s.handled) + All(s.phase.rest) + [] == All(s.handled) + All(s.phase.rest);
  }

  lemma {:induction false} FatesAppend(batches: seq<seq<bytes>>, batch: seq<bytes>)
    ensures Fates(batches + [batch]) == Fates(batches) + Fate(batch)
    decreases |batches|
  {
    hide Fate;
    if batches == [] {
      assert (batches + [batch])[1..] == [];
      assert Fate(batch) + [] == Fate(batch);
    } else {
      assert (batches + [batch])[1..] == batches[1..] + [batch];
      FatesAppend(batches[1..], batch);
    }
  }

  lemma StepKeepsAccounts(s: State, step: Step)
    requires Accounted(s) && Enabled(s, step) && Safe(s, step)
    ensures Accounted(Apply(s, step))
  {
    hide Fate, Fates;
    match step
    case Append(_) =>
    case Swap => FatesAppend(s.taken, s.buffers + [s.current]);
    case Trim =>
    case WriteNext =>
      var rest := s.phase.rest;
      assert s.handled + [rest[0]] + rest[1..] == s.handled + rest;
    case Recycle =>
      assert s.handled + s.phase.rest + [] == s.handled + s.phase.rest;
  }

  lemma StepKeepsFilled(s: State, step: Step)
    requires Filled(s) && Enabled(s, step) && Safe(s, step)
    ensures Filled(Apply(s, step))
  {
    if step.Swap? && s.oversize == 0 {
      var batch := s.buffers + [s.current];
      assert FilledBatch(batch) by {
        forall i | 0 <= i < |batch| - 1 ensures batch[i] != [] {
          assert batch[i] == s.buffers[i] && s.buffers[i] in s.buffers;
        }
      }
    }
  }

  lemma StepKeepsInv(s: State, step: Step)
    requires Inv(s) && Enabled(s, step) && Safe(s, step)
    ensures Inv(Apply(s, step))
  {
    StepKeepsAccounts(s, step);
    StepKeepsFilled(s, step);
    hide Conserved, Accounted, Filled;
    match step
    case Append(line) => AppendKeeps(s, line);
    case Swap => SwapKeeps(s);
    case Trim => TrimKeeps(s);
    case WriteNext => WriteKeeps(s);
    case Recycle => RecycleKeeps(s);
  }

  lemma TrimKeeps(s: State)
    requires Conserved(s) && Recoverable(s) && Enabled(s, Trim)
    ensures Conserved(Apply(s, Trim)) && Recoverable(Apply(s, Trim))
  {
    PiecesOf(Fate(s.phase.batch), s.phase.batch);
  }

  // ---- whole runs ----

  ghost predicate IsRun(states: seq<State>, steps: seq<Step>) {
    && |states| == |steps| + 1
    && states[0] == INIT
    && forall i | 0 <= i < |steps| ::
         Enabled(states[i], steps[i]) && Safe(states[i], steps[i]) && states[i + 1] == Apply(states[i], steps[i])
  }

  /** In every interleaving the invariant holds, and no step moves from a null buffer or pops an empty vector. */
  lemma {:induction false} RunsAreSafe(states: seq<State>, steps: seq<Step>, n: nat)
    requires IsRun(states, steps) && n < |states|
    ensures Inv(states[n]) && forall step | Enabled(states[n], step) :: Safe(states[n], step)
    decreases n
  {
    hide Apply, Enabled, Safe;
    if n == 0 {
      assert Inv(INIT);
    } else {
      hide Inv;
      RunsAreSafe(states, steps, n - 1);
      StepKeepsInv(states[n - 1], steps[n - 1]);
    }
    forall step | Enabled(states[n], step) ensures Safe(states[n], step) {
      InvIsSafe(states[n], step);
    }
  }

  lemma OversizeGrows(s: State, step: Step)
    requires Enabled(s, step) && Safe(s, step)
    ensures Apply(s, step).oversize == s.oversize + if step.Append? && |step.line| >= SIZE then |step.line| else 0
  {
  }

  lemma {:induction false} OversizeLines(states: seq<State>, steps: seq<Step>, n: nat)
    requires IsRun(states, steps) && n < |states|
    ensures states[n].oversize == 0 <==> forall i | 0 <= i < n :: steps[i].Append? ==> |steps[i].line| < SIZE
    decreases n
  {
    hide Apply, Enabled, Safe;
    if n > 0 {
      OversizeLines(states, steps, n - 1);
      OversizeGrows(states[n - 1], steps[n - 1]);
    }
  }

  // ---- what happened in a run, from its steps ----

  predicate Fits(line: bytes) { |line| < SIZE }

  /** The lines of all calls of append. */
  function Lines(steps: seq<Step>): bytes {
    if steps == [] then []
    else
      var last := steps[|steps| - 1];
      Lines(steps[..|steps| - 1]) + if last.Append? then last.line else []
  }

  /** Those of them that are shorter than a buffer. */
  function FittingLines(steps: seq<Step>): bytes {
    if steps == [] then []
    else
      var last := steps[|steps| - 1];
      FittingLines(steps[..|steps| - 1]) + if last.Append? && Fits(last.line) then last.line else []
  }

  lemma {:induction false} AllFit(steps: seq<Step>)
    ensures |FittingLines(steps)| <= |Lines(steps)|
    ensures FittingLines(steps) == Lines(steps) <==> forall i | 0 <= i < |steps| :: steps[i].Append? ==> Fits(steps[i].line)
    decreases |steps|
  {
    if steps != [] {
      var before, last := steps[..|steps| - 1], steps[|steps| - 1];
      AllFit(before);
      assert forall i | 0 <= i < |before| :: before[i] == steps[i];
      if last.Append? && !Fits(last.line) {
        assert |FittingLines(steps)| < |Lines(steps)|;
      } else if last.Append? {
        SameTail(FittingLines(before), Lines(before), last.line);
      } else {
        SameTail(FittingLines(before), Lines(before), []);
      }
    }
  }

  lemma SameTail(a: bytes, b: bytes, c: bytes)
    ensures a + c == b + c <==> a == b
  {
    if a + c == b + c {
      assert a == (a + c)[..|a|] && b == (b + c)[..|b|] && |a| == |b|;
    }
  }

  /** The batches that the thread took: the filled buffers and the current one, each time. */
  ghost function Batches(states: seq<State>, steps: seq<Step>, n: nat): seq<seq<bytes>>
    requires IsRun(states, steps) && n < |states|
    decreases n
  {
    if n == 0 then []
    else Batches(states, steps, n - 1)
         + if steps[n - 1].Swap? then [states[n - 1].buffers + [states[n - 1].current]] else []
  }

  lemma StepWritesHistory(s: State, step: Step)
    requires Enabled(s, step) && Safe(s, step)
    ensures var r := Apply(s, step);
            && r.appended == s.appended + (if step.Append? && Fits(step.line) then step.line else [])
            && r.taken == s.taken + if step.Swap? then [s.buffers + [s.current]] else []
  {
    assert s.appended + [] == s.appended && s.taken + [] == s.taken;
  }

  lemma {:induction false} HistoryIsOfTheRun(states: seq<State>, steps: seq<Step>, n: nat)
    requires IsRun(states, steps) && n < |states|
    ensures states[n].appended == FittingLines(steps[..n]) && states[n].taken == Batches(states, steps, n)
    decreases n
  {
    hide Apply, Enabled, Safe, Fits;
    if n > 0 {
      HistoryIsOfTheRun(states, steps, n - 1);
      StepWritesHistory(states[n - 1], steps[n - 1]);
      assert steps[..n][..n - 1] == steps[..n - 1];
    }
  }

  lemma FitOrNot(states: seq<State>, steps: seq<Step>, n: nat)
    requires IsRun(states, steps) && n < |states|
    ensures FittingLines(steps[..n]) == Lines(steps[..n]) <==> states[n].oversize == 0
    ensures |FittingLines(steps[..n])| <= |Lines(steps[..n])|
  {
    AllFit(steps[..n]);
    OversizeLines(states, steps, n);
    assert forall i | 0 <= i < n :: steps[..n][i] == steps[i];
  }

  // ---- the laws ----

  /**
   * In every interleaving: the pieces handled, the batch, the filled buffers and the current buffer are, in order, the
   * lines of all calls of append that are shorter than a buffer; and the file holds the pieces that were kept.
   */
  lemma NothingElseIsLost(states: seq<State>, steps: seq<Step>, n: nat)
    requires IsRun(states, steps) && n < |states|
    ensures Contents(states[n]) == FittingLines(steps[..n])
    ensures states[n].written == Written(states[n].handled)
  {
    hide Apply, Enabled, Safe, Contents, Accounted, Filled, FittingLines;
    RunsAreSafe(states, steps, n);
    HistoryIsOfTheRun(states, steps, n);
  }

  // ---- what is dropped ----

  /** A place among the batches taken: batch b, buffer i. */
  datatype Place = Place(b: nat, i: nat)

  /** Where the n-th piece of all batches comes from. */
  function PlaceOf(batches: seq<seq<bytes>>, n: nat): (p: Place)
    requires n < |Fates(batches)|
    ensures p.b < |batches| && p.i < |batches[p.b]|
    ensures Fates(batches)[n] == Fate(batches[p.b])[p.i]
    decreases |batches|
  {
    if n < |batches[0]| then Place(0, n)
    else
      var p := PlaceOf(batches[1..], n - |batches[0]|);
      Place(p.b + 1, p.i)
  }

  /** In every interleaving: a piece was dropped exactly if it stood behind the first two of a batch of more than 25. */
  lemma DroppedExactly(states: seq<State>, steps: seq<Step>, n: nat, k: nat)
    requires IsRun(states, steps) && n < |states| && k < |states[n].handled|
    ensures var batches := Batches(states, steps, n);
            && k < |Fates(batches)|
            && var p := PlaceOf(batches, k);
               && states[n].handled[k].b == batches[p.b][p.i]
               && (states[n].handled[k].Dropped? <==> |batches[p.b]| > 25 && p.i >= 2)
  {
    hide Apply, Enabled, Safe, Conserved, Recoverable, Filled, Fates, PlaceOf, Batches;
    RunsAreSafe(states, steps, n);
    HistoryIsOfTheRun(states, steps, n);
    var s := states[n];
    assert Fates(s.taken)[k] == s.handled[k];
    var p := PlaceOf(s.taken, k);
    DroppedFromBigBatches(s.taken[p.b], p.i);
  }

  /** The bytes of the pieces that were dropped. */
  function DroppedBytes(ps: seq<Piece>): nat {
    if ps == [] then 0 else (if ps[0].Dropped? then |ps[0].b| else 0) + DroppedBytes(ps[1..])
  }

  lemma {:induction false} WrittenOrDropped(ps: seq<Piece>)
    ensures |Written(ps)| + DroppedBytes(ps) == |All(ps)|
    ensures DroppedBytes(ps) == 0 ==> Written(ps) == All(ps)
    decreases |ps|
  {
    if ps != [] {
      WrittenOrDropped(ps[1..]);
    }
  }

  lemma {:induction false} DroppedAppend(ps: seq<Piece>, qs: seq<Piece>)
    ensures DroppedBytes(ps + qs) == DroppedBytes(ps) + DroppedBytes(qs)
    decreases |ps|
  {
    if ps == [] {
      assert ps + qs == qs;
    } else {
      assert (ps + qs)[0] == ps[0] && (ps + qs)[1..] == ps[1..] + qs;
      DroppedAppend(ps[1..], qs);
    }
  }

  lemma {:induction false} SomeDropped(ps: seq<Piece>, k: nat)
    requires k < |ps| && ps[k].Dropped? && ps[k].b != []
    ensures DroppedBytes(ps) > 0
    decreases |ps|
  {
    if k > 0 {
      SomeDropped(ps[1..], k - 1);
    }
  }

  lemma {:induction false} NoneDropped(ps: seq<Piece>)
    requires forall p | p in ps :: p.Kept?
    ensures DroppedBytes(ps) == 0
    decreases |ps|
  {
    if ps != [] {
      assert ps[0] in ps;
      NoneDropped(ps[1..]);
    }
  }

  /** A batch of filled buffers loses bytes exactly if it has more than 25. */
  lemma BatchLoses(batch: seq<bytes>)
    requires FilledBatch(batch)
    ensures DroppedBytes(Fate(batch)) == 0 <==> |batch| <= 25
  {
    if |batch| > 25 {
      SomeDropped(Fate(batch), 2);
    } else {
      NoneDropped(Fate(batch));
    }
  }

  lemma {:induction false} BatchesLose(batches: seq<seq<bytes>>)
    requires forall b | b in batches :: FilledBatch(b)
    ensures DroppedBytes(Fates(batches)) == 0 <==> forall b | b in batches :: |b| <= 25
    decreases |batches|
  {
    hide Fate, DroppedBytes, FilledBatch;
    if batches == [] {
      NoneDropped([]);
    } else {
      assert batches[0] in batches && batches == [batches[0]] + batches[1..];
      BatchLoses(batches[0]);
      BatchesLose(batches[1..]);
      DroppedAppend(Fate(batches[0]), Fates(batches[1..]));
    }
  }

  /** The file, then the batch in flight, then the filled buffers, then the current one. */
  function Reached(s: State): bytes {
    s.written + InFlight(s) + Join(s.buffers) + s.current
  }

  lemma ReachedIffNoneDropped(s: State)
    requires Conserved(s)
    ensures |Reached(s)| + DroppedBytes(s.handled) == |s.appended|
    ensures Reached(s) == s.appended <==> DroppedBytes(s.handled) == 0
  {
    WrittenOrDropped(s.handled);
    assert |Reached(s)| + DroppedBytes(s.handled) == |Contents(s)|;
  }

  /**
   * In every interleaving, between two rounds of the thread: the file followed by the buffers is all lines of all calls
   * of append, exactly when no line was as long as a buffer and no batch taken had more than 25 buffers.
   */
  lemma EverythingIsWritten(states: seq<State>, steps: seq<Step>, n: nat)
    requires IsRun(states, steps) && n < |states| && states[n].phase.Ready?
    ensures Reached(states[n]) == Lines(steps[..n])
            <==> (forall i | 0 <= i < n :: steps[i].Append? ==> Fits(steps[i].line))
                 && forall b | b in Batches(states, steps, n) :: |b| <= 25
  {
    hide Apply, Enabled, Safe, Conserved, Recoverable, Reached, DroppedBytes, Fates, Lines, FittingLines, Batches;
    RunsAreSafe(states, steps, n);
    HistoryIsOfTheRun(states, steps, n);
    OversizeLines(states, steps, n);
    FitOrNot(states, steps, n);
    var s := states[n];
    ReachedIffNoneDropped(s);
    assert s.handled + [] == s.handled;
    if s.oversize == 0 {
      BatchesLose(s.taken);
    }
  }

  /** And at any time nothing is missing as long as no line and no batch was too big. */
  lemma NothingIsMissing(states: seq<State>, steps: seq<Step>, n: nat)
    requires IsRun(states, steps) && n < |states|
    requires forall i | 0 <= i < n :: steps[i].Append? ==> Fits(steps[i].line)
    requires forall b | b in Batches(states, steps, n) :: |b| <= 25
    ensures Reached(states[n]) == Lines(steps[..n])
  {
    hide Apply, Enabled, Safe, Conserved, Recoverable, Reached, DroppedBytes, Fates, Lines, FittingLines, Batches;
    RunsAreSafe(states, steps, n);
    HistoryIsOfTheRun(states, steps, n);
    OversizeLines(states, steps, n);
    FitOrNot(states, steps, n);
    var s := states[n];
    ReachedIffNoneDropped(s);
    BatchesLose(s.taken);
    DroppedAppend(s.handled, PiecesInFlight(s));
  }

  /** The rule for one batch: all but the first two are dropped if there are more than 25. */
  lemma DroppedFromBigBatches(batch: seq<bytes>, i: nat)
    requires i < |batch|
    ensures Fate(batch)[i].b == batch[i]
    ensures Fate(batch)[i].Dropped? <==> |batch| > 25 && i >= 2
    ensures forall k | 0 <= k < |Trimmed(batch)| :: Fate(batch)[k] == Kept(Trimmed(batch)[k])
    ensures forall k | |Trimmed(batch)| <= k < |batch| :: Fate(batch)[k].Dropped?
  {
  }

  lemma NextIsKept(batch: seq<bytes>, i: nat)
    requires i < |Trimmed(batch)|
    ensures i < |Fate(batch)| && Fate(batch)[i..][0] == Kept(Trimmed(batch)[i])
    ensures Fate(batch)[i..][1..] == Fate(batch)[i + 1..]
    ensures Fate(batch)[..i + 1] == Fate(batch)[..i] + [Fate(batch)[i..][0]]
  {
  }

  lemma RestIsDropped(batch: seq<bytes>)
    ensures var i := |Trimmed(batch)|;
            && i <= |Fate(batch)| && Fate(batch)[..i] + Fate(batch)[i..] == Fate(batch)
            && forall p | p in Fate(batch)[i..] :: p.Dropped?
  {
  }

  /** Before every round both spare buffers are there and empty. */
  lemma SparesAreBack(states: seq<State>, steps: seq<Step>, n: nat)
    requires IsRun(states, steps) && n < |states| && states[n].phase.Ready?
    ensures states[n].spare1 == Some([]) && states[n].spare2 == Some([])
  {
    hide Apply, Enabled, Safe, Conserved;
    RunsAreSafe(states, steps, n);
  }

  // ---- the object ----

  class AsyncLogging {
    var currentBuffer: bytes
    var nextBuffer: Option<bytes>
    var buffers: seq<bytes>
    var newBuffer1: Option<bytes>
    var newBuffer2: Option<bytes>
    var buffersToWrite: seq<bytes>
    var output: bytes

    constructor ()
      ensures Shows(INIT) && buffersToWrite == []
    {
      currentBuffer, nextBuffer, buffers := [], Some([]), [];
      newBuffer1, newBuffer2, buffersToWrite, output := Some([]), Some([]), [], [];
    }

    ghost predicate Shows(s: State)
      reads this
    {
      && currentBuffer == s.current && nextBuffer == s.next && buffers == s.buffers
      && newBuffer1 == s.spare1 && newBuffer2 == s.spare2 && output == s.written
      && buffersToWrite == match s.phase
                           case Ready => []
                           case Swapped(batch) => batch
                           case Writing(_, vector) => vector
    }

    method Append(ghost s: State, line: bytes)
      requires Shows(s)
      modifies this
      ensures Shows(Apply(s, Step.Append(line)))
    {
      if |currentBuffer| + |line| < SIZE {
        currentBuffer := FixedAppend(currentBuffer, line);
      } else {
        buffers := buffers + [currentBuffer];
        if nextBuffer.Some? {
          currentBuffer := nextBuffer.value;
          nextBuffer := None;
        } else {
          currentBuffer := [];
        }
        currentBuffer := FixedAppend(currentBuffer, line);
      }
    }

    /** The critical section of the logging thread. */
    method TakeBuffers(ghost s: State)
      requires Shows(s) && Inv(s) && s.phase.Ready?
      modifies this
      ensures Safe(s, Swap) && Shows(Apply(s, Swap)) && buffersToWrite != []
    {
      buffers := buffers + [currentBuffer];
      currentBuffer := newBuffer1.value;
      newBuffer1 := None;
      buffersToWrite, buffers := buffers, [];
      if nextBuffer.None? {
        nextBuffer := newBuffer2;
        newBuffer2 := None;
      }
    }

    /** Drop what is too much, write the rest in order. */
    method WriteBuffers(ghost s: State) returns (ghost r: State)
      requires Shows(s) && Inv(s) && s.phase.Swapped?
      modifies this
      ensures Inv(r) && Shows(r) && r.phase.Writing? && Enabled(r, Recycle) && Safe(r, Recycle)
      ensures r.appended == s.appended && r.handled + r.phase.rest == s.handled + Fate(s.phase.batch)
    {
      hide Inv, Written, All, Join, Fate;
      ghost var batch := buffersToWrite;
      if |buffersToWrite| > 25 {
        buffersToWrite := buffersToWrite[..2];
      }
      StepKeepsInv(s, Trim);
      r := Apply(s, Trim);
      ghost var fate := Fate(batch);
      assert fate[..0] == [] && fate[0..] == fate;
      var i := 0;
      while i < |buffersToWrite|
        invariant 0 <= i <= |buffersToWrite| <= |fate| && buffersToWrite == Trimmed(batch)
        invariant Inv(r) && Shows(r) && r.phase == Writing(fate[i..], buffersToWrite)
        invariant r.appended == s.appended && r.handled == s.handled + fate[..i]
      {
        NextIsKept(batch, i);
        output := output + buffersToWrite[i];
        StepKeepsInv(r, WriteNext);
        r := Apply(r, WriteNext);
        i := i + 1;
      }
      RestIsDropped(batch);
      InvIsSafe(r, Recycle);
    }

    /** Give two buffers back to the thread, empty, and free the others. */
    method RecycleBuffers(ghost s: State)
      requires Shows(s) && Inv(s) && Enabled(s, Recycle) && Safe(s, Recycle)
      modifies this
      ensures Shows(Apply(s, Recycle))
    {
      if |buffersToWrite| > 2 {
        buffersToWrite := buffersToWrite[..2];
      }
      if newBuffer1.None? {
        buffersToWrite := buffersToWrite[..|buffersToWrite| - 1];
        newBuffer1 := Some([]);
      }
      if newBuffer2.None? {
        buffersToWrite := buffersToWrite[..|buffersToWrite| - 1];
        newBuffer2 := Some([]);
      }
      buffersToWrite := [];
    }
  }
}
