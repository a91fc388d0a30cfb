/** Streaming a value through the nested validators gives the verdict of the direct definition on the tree. */
module SchemaStreaming {
  import opened Base
  import opened Json
  import opened Schema
  import Document

  // ---- whole runs of the validators in a stack ----

  function RunEach(vs: seq<Validator>, es: seq<Event>): (r: seq<Validator>)
    ensures |r| == |vs|
  {
    seq(|vs|, i requires 0 <= i < |vs| => FeedAll(vs[i], es))
  }

  function RunContext(c: Context, es: seq<Event>): Context {
    c.(validators := RunEach(c.validators, es))
  }

  function RunStack(stack: seq<Context>, es: seq<Event>): (r: seq<Context>)
    ensures |r| == |stack|
  {
    seq(|stack|, i requires 0 <= i < |stack| => RunContext(stack[i], es))
  }

  lemma {:induction false} FeedAllSplits(v: Validator, a: seq<Event>, b: seq<Event>)
    ensures FeedAll(v, a + b) == FeedAll(FeedAll(v, a), b)
    decreases |a|
  {
    hide Feed;
    if a == [] {
      assert a + b == b;
    } else {
      assert (a + b)[1..] == a[1..] + b;
      FeedAllSplits(Feed(v, a[0]), a[1..], b);
    }
  }

  lemma FeedAllOne(v: Validator, e: Event)
    ensures FeedAll(v, [e]) == Feed(v, e)
  {
    hide Feed;
    assert FeedAll(v, [e]) == FeedAll(Feed(v, e), [e][1..]);
  }

  lemma FeedAllFirst(v: Validator, e: Event, es: seq<Event>)
    ensures FeedAll(v, [e] + es) == FeedAll(Feed(v, e), es)
  {
    hide Feed;
    assert ([e] + es)[1..] == es;
  }

  /** A verdict against the value is final. */
  lemma {:induction false} Dead(v: Validator, es: seq<Event>)
    requires !v.valid
    ensures FeedAll(v, es) == v
    decreases |es|
  {
    if es != [] {
      Dead(v, es[1..]);
    }
  }

  lemma RunEachSplits(vs: seq<Validator>, a: seq<Event>, b: seq<Event>)
    ensures RunEach(RunEach(vs, a), b) == RunEach(vs, a + b)
  {
    hide FeedAll;
    forall i | 0 <= i < |vs| ensures RunEach(RunEach(vs, a), b)[i] == RunEach(vs, a + b)[i] {
      FeedAllSplits(vs[i], a, b);
    }
  }

  lemma RunStackSplits(stack: seq<Context>, a: seq<Event>, b: seq<Event>)
    ensures RunStack(RunStack(stack, a), b) == RunStack(stack, a + b)
  {
    hide RunEach;
    forall i | 0 <= i < |stack| ensures RunStack(RunStack(stack, a), b)[i] == RunStack(stack, a + b)[i] {
      RunEachSplits(stack[i].validators, a, b);
    }
  }

  lemma RunEachOne(vs: seq<Validator>, e: Event)
    ensures RunEach(vs, [e]) == FeedEach(vs, e)
  {
    hide Feed, FeedAll;
    forall i | 0 <= i < |vs| ensures RunEach(vs, [e])[i] == FeedEach(vs, e)[i] {
      FeedAllOne(vs[i], e);
    }
  }

  lemma RunStackOne(stack: seq<Context>, e: Event)
    ensures RunStack(stack, [e]) == FeedStack(stack, e)
  {
    hide RunEach;
    forall i | 0 <= i < |stack| ensures RunStack(stack, [e])[i] == FeedStack(stack, e)[i] {
      RunEachOne(stack[i].validators, e);
    }
  }

  lemma RunNone(stack: seq<Context>)
    ensures RunStack(stack, []) == stack
  {
    forall i | 0 <= i < |stack| ensures RunStack(stack, [])[i] == stack[i] {
      assert RunEach(stack[i].validators, []) == stack[i].validators;
    }
  }

  // ---- one event ----

  /** The schema of the value a validator expects next. */
  function Next(v: Validator): Option<Schema> {
    if v.stack == [] then Some(v.root) else NextSchema(v.stack[|v.stack| - 1])
  }

  /** The contexts of a validator once it has seen a whole value, or the beginning of one. */
  function Below(v: Validator, es: seq<Event>): seq<Context> {
    if v.stack == [] then [] else MapTop(RunStack(v.stack, es), Advance)
  }

  lemma FeedBegin(v: Validator, e: Event)
    requires v.valid && Begins(e)
    ensures Next(v).None? || !BeginOk(Next(v).value, e) ==> !Feed(v, e).valid
    ensures Next(v).Some? && BeginOk(Next(v).value, e) ==>
              Feed(v, e) == Entered(v.root, Below(v, [e]), Next(v).value, e, FeedSubs(Next(v).value, e))
  {
    hide BeginOk, Entered, FeedFreshAll, NextSchema;
    if v.stack != [] {
      RunStackOne(v.stack, e);
    }
  }

  lemma BelowSplits(v: Validator, a: seq<Event>, b: seq<Event>)
    ensures RunStack(Below(v, a), b) == Below(v, a + b)
  {
    hide RunEach;
    if v.stack != [] {
      var st := v.stack;
      RunStackSplits(st, a, b);
      var l, r := RunStack(Below(v, a), b), Below(v, a + b);
      forall i | 0 <= i < |st| ensures l[i] == r[i] {
        RunEachSplits(st[i].validators, a, b);
      }
    }
  }

  // ---- combined schemas ----

  function Fresh(s: Schema): Validator { Validator(s, [], true) }

  function Freshes(ss: seq<Schema>): (r: seq<Validator>)
    ensures |r| == |ss|
  {
    seq(|ss|, i requires 0 <= i < |ss| => Fresh(ss[i]))
  }

  function FreshSubs(s: Schema): (r: seq<Validator>) {
    Freshes(s.allOf) + Freshes(s.anyOf) + Freshes(s.oneOf) + if s.notOf.Some? then [Fresh(s.notOf.value)] else []
  }

  lemma FeedFreshAllIs(ss: seq<Schema>, e: Event)
    requires Begins(e)
    ensures FeedFreshAll(ss, e) == RunEach(Freshes(ss), [e])
  {
    hide FeedFresh, FeedAll;
    forall i | 0 <= i < |ss| ensures FeedFreshAll(ss, e)[i] == RunEach(Freshes(ss), [e])[i] {
      FeedAllOne(Fresh(ss[i]), e);
    }
  }

  lemma FeedSubsIs(s: Schema, e: Event)
    requires Begins(e)
    ensures FeedSubs(s, e) == RunEach(FreshSubs(s), [e])
  {
    hide FeedFresh, FeedAll, FeedFreshAll;
    FeedFreshAllIs(s.allOf, e);
    FeedFreshAllIs(s.anyOf, e);
    FeedFreshAllIs(s.oneOf, e);
    if s.notOf.Some? {
      FeedAllOne(Fresh(s.notOf.value), e);
    }
    var l, r := FeedSubs(s, e), RunEach(FreshSubs(s), [e]);
    assert |l| == |r|;
    assert forall i | 0 <= i < |l| :: l[i] == r[i];
  }

  lemma FeedSubsRun(s: Schema, e: Event, es: seq<Event>)
    requires Begins(e)
    ensures RunEach(FeedSubs(s, e), es) == RunEach(FreshSubs(s), [e] + es)
  {
    FeedSubsIs(s, e);
    RunEachSplits(FreshSubs(s), [e], es);
  }

  /** The verdict of a new validator on a whole value is the direct one. */
  ghost predicate Agree(s: Schema, v: Value, es: seq<Event>) {
    FeedAll(Fresh(s), es).valid == Valid(s, v)
  }

  ghost predicate AllAgree(ss: seq<Schema>, v: Value, es: seq<Event>) {
    forall i | 0 <= i < |ss| :: Agree(ss[i], v, es)
  }

  ghost predicate Combined(s: Schema, v: Value) {
    && EachValid(s.allOf, v)
    && (s.anyOf != [] ==> SomeValid(s.anyOf, v))
    && (s.oneOf != [] ==> OnlyOneValid(s.oneOf, v))
    && (s.notOf.Some? ==> !Valid(s.notOf.value, v))
  }

  ghost predicate PartsValid(s: Schema, v: Value, k: nat) {
    forall i | k <= i < PartCount(v) :: PartValid(s, v, i)
  }

  /** No container has 2^32 parts, and no string 2^32 code points. */
  ghost predicate Countable(v: Value) {
    match v
    case String(t) => LengthMeant(TYPELESS, t)
    case Object(ms) => |ms| < TWO32 && forall m | m in ms :: Countable(m.value)
    case Array(es) => |es| < TWO32 && forall e | e in es :: Countable(e)
    case _ => true
  }

  /** The schema that stands for "anything" accepts everything that fits into memory. */
  lemma {:induction false} TypelessAcceptsAll(v: Value)
    requires Countable(v)
    ensures Valid(TYPELESS, v)
    decreases v
  {
    assert EachValid([], v);
    match v
    case Object(ms) =>
      forall k | 0 <= k < |ms| ensures PartValid(TYPELESS, v, k) {
        assert ms[k] in ms;
        TypelessAcceptsAll(ms[k].value);
      }
    case Array(es) =>
      forall k | 0 <= k < |es| ensures PartValid(TYPELESS, v, k) {
        assert es[k] in es;
        TypelessAcceptsAll(es[k]);
      }
    case _ =>
  }

  lemma ValidInParts(s: Schema, v: Value)
    ensures Valid(s, v) <==> LocallyValid(s, v) && PartsValid(s, v, 0) && Combined(s, v)
  {
    hide LocallyValid, PartValid, EachValid, SomeValid, OnlyOneValid;
  }

  ghost predicate SameVerdicts(vs: seq<Validator>, ss: seq<Schema>, v: Value) {
    |vs| == |ss| && forall i | 0 <= i < |ss| :: vs[i].valid == Valid(ss[i], v)
  }

  lemma SameAll(vs: seq<Validator>, ss: seq<Schema>, v: Value)
    requires SameVerdicts(vs, ss, v)
    ensures AllValid(vs) <==> EachValid(ss, v)
    ensures AnyValid(vs) <==> SomeValid(ss, v)
  {
    hide Valid;
  }

  lemma SameOne(vs: seq<Validator>, ss: seq<Schema>, v: Value)
    requires SameVerdicts(vs, ss, v)
    ensures OneValid(vs) <==> OnlyOneValid(ss, v)
  {
    hide Valid;
    if OneValid(vs) {
      var i :| 0 <= i < |vs| && vs[i].valid && forall j | 0 <= j < |vs| && j != i :: !vs[j].valid;
      assert Valid(ss[i], v) && forall j | 0 <= j < |ss| && j != i :: !Valid(ss[j], v);
    }
    if OnlyOneValid(ss, v) {
      var i :| 0 <= i < |ss| && Valid(ss[i], v) && forall j | 0 <= j < |ss| && j != i :: !Valid(ss[j], v);
      assert vs[i].valid && forall j | 0 <= j < |vs| && j != i :: !vs[j].valid;
    }
  }

  lemma ListVerdicts(ss: seq<Schema>, v: Value, es: seq<Event>)
    requires AllAgree(ss, v, es)
    ensures var vs := RunEach(Freshes(ss), es);
            && (AllValid(vs) <==> EachValid(ss, v))
            && (AnyValid(vs) <==> SomeValid(ss, v))
            && (OneValid(vs) <==> OnlyOneValid(ss, v))
  {
    hide Valid, FeedAll, AllValid, EachValid, AnyValid, SomeValid, OneValid, OnlyOneValid;
    var vs := RunEach(Freshes(ss), es);
    forall i | 0 <= i < |ss| ensures vs[i].valid == Valid(ss[i], v) {
      assert Agree(ss[i], v, es);
    }
    SameAll(vs, ss, v);
    SameOne(vs, ss, v);
  }

  lemma SubsByKind(s: Schema, es: seq<Event>)
    ensures var vs := RunEach(FreshSubs(s), es);
            var any, one := |s.allOf|, |s.allOf| + |s.anyOf|;
            var no := one + |s.oneOf|;
            && |vs| == ValidatorCount(s)
            && vs[..any] == RunEach(Freshes(s.allOf), es)
            && vs[any..one] == RunEach(Freshes(s.anyOf), es)
            && vs[one..no] == RunEach(Freshes(s.oneOf), es)
            && (s.notOf.Some? ==> vs[no] == FeedAll(Fresh(s.notOf.value), es))
  {
    hide FeedAll;
  }

  lemma CombinedVerdict(s: Schema, v: Value, es: seq<Event>)
    requires AllAgree(s.allOf, v, es) && AllAgree(s.anyOf, v, es) && AllAgree(s.oneOf, v, es)
    requires s.notOf.Some? ==> Agree(s.notOf.value, v, es)
    ensures EndValueOk(s, RunEach(FreshSubs(s), es)) <==> Combined(s, v)
  {
    hide Valid, FeedAll, RunEach, AllValid, AnyValid, OneValid, AllAgree, FreshSubs, EachValid, SomeValid, OnlyOneValid;
    SubsByKind(s, es);
    ListVerdicts(s.allOf, v, es);
    ListVerdicts(s.anyOf, v, es);
    ListVerdicts(s.oneOf, v, es);
  }

  // ---- the first event of a value ----

  ghost predicate Fitting(kind: int -> IntKind) {
    forall n | -TWO63 <= n < TWO64 :: Document.Fits(kind(n), n)
  }

  predicate IsContainer(v: Value) { v.Object? || v.Array? }

  function FirstEvent(v: Value, kind: int -> IntKind): (e: Event)
    ensures Begins(e) && (IsOpening(e) <==> IsContainer(v))
  {
    match v
    case Null => NullEvent
    case Bool(b) => BoolEvent(b)
    case Number(n) => IntegerEvent(kind(n), n)
    case Double(d) => DoubleEvent(d)
    case String(t) => StringEvent(t)
    case Object(_) => StartObject
    case Array(_) => StartArray
  }

  function PartEvents(v: Value, k: nat, kind: int -> IntKind): seq<Event>
    requires IsContainer(v) && k <= PartCount(v)
  {
    if v.Object? then MemberEvents(v, k, kind) else ElementEvents(v, k, kind)
  }

  function LastEvent(v: Value): (e: Event)
    requires IsContainer(v)
    ensures e.EndObject? || e.EndArray?
  {
    if v.Object? then EndObject(|v.members|) else EndArray(|v.elements|)
  }

  lemma EventsInParts(v: Value, kind: int -> IntKind)
    ensures !IsContainer(v) ==> Events(v, kind) == [FirstEvent(v, kind)]
    ensures IsContainer(v) ==> Events(v, kind) == [FirstEvent(v, kind)] + PartEvents(v, 0, kind) + [LastEvent(v)]
  {
  }

  // ---- lengths ----

  /** The text of n code points counts n, from any place on. */
  lemma {:induction false} CountsCodePoints(t: bytes, i: nat, cps: seq<nat>)
    requires i <= |t| && Encodings.AllScalars(cps) && t[i..] == Encodings.EncodeAll(cps)
    ensures CodePoints(t, i) == Some(|cps|)
    decreases |cps|
  {
    hide Encodings.Decode, Encodings.Encode;
    if cps != [] {
      assert cps[0] in cps;
      var first := Encodings.Encode(cps[0]);
      assert t[i..][..|first|] == first && t[i..i + |first|] == first;
      Encodings.DecodeInvertsEncode(t, i, cps[0]);
      assert t[i + |first|..] == t[i..][|first|..] == Encodings.EncodeAll(cps[1..]);
      CountsCodePoints(t, i + |first|, cps[1..]);
    }
  }

  lemma {:induction false} CodePointsOf(t: bytes, i: nat) returns (cps: seq<nat>)
    requires i <= |t| && CodePoints(t, i).Some?
    ensures Encodings.AllScalars(cps) && t[i..] == Encodings.EncodeAll(cps) && CodePoints(t, i) == Some(|cps|)
    decreases |t| - i
  {
    hide Encodings.Decode, Encodings.Encode;
    if i == |t| {
      cps := [];
    } else {
      var d := Encodings.Decode(t, i);
      Encodings.EncodeInvertsDecode(t, i);
      var rest := CodePointsOf(t, d.pos);
      cps := [d.cp] + rest;
      assert cps[1..] == rest && t[i..] == t[i..d.pos] + t[d.pos..];
    }
  }

  /** Counting decoded sequences checks the number of code points, and text that is no UTF-8 passes. */
  lemma LengthIsMeant(s: Schema, t: bytes)
    ensures LengthOk(s, t) <==> LengthMeant(s, t)
  {
    hide CodePoints, Encodings.EncodeAll;
    assert t[0..] == t;
    forall cps | Encodings.AllScalars(cps) && Encodings.EncodeAll(cps) == t ensures CodePoints(t, 0) == Some(|cps|) {
      CountsCodePoints(t, 0, cps);
    }
    if CodePoints(t, 0).Some? {
      var cps := CodePointsOf(t, 0);
    }
  }

  /** The checks made for signed and for unsigned integers are the same comparison of integers. */
  lemma ScalarCheck(s: Schema, v: Value, kind: int -> IntKind)
    requires Storable(v) && Fitting(kind) && !IsContainer(v)
    ensures BeginOk(s, FirstEvent(v, kind)) <==> LocallyValid(s, v)
  {
    hide LengthOk, LengthMeant;
    if v.Number? {
      assert Document.Fits(kind(v.n), v.n);
    } else if v.String? {
      LengthIsMeant(s, v.s);
    }
  }

  // ---- inside a container ----

  /** The properties met by the first k members. */
  function Seen(s: Schema, v: Value, k: nat): (r: seq<bool>)
    requires v.Object? && k <= |v.members|
  {
    if HasRequired(s) then seq(|s.properties|, i requires 0 <= i < |s.properties| => Present(s, v, k, i)) else []
  }

  /** The validator is inside the container, behind its first k parts. */
  ghost predicate Inside(w: Validator, s: Schema, v: Value, k: nat)
    requires IsContainer(v) && k <= PartCount(v)
  {
    && w.valid && w.stack != []
    && var top := w.stack[|w.stack| - 1];
    && top.schema == s
    && top.inArray == v.Array?
    && (v.Array? ==> top.index == k)
    && (v.Object? ==> top.exist == Seen(s, v, k))
  }

  /** The validators of all contexts have seen some events; the contexts below the top are otherwise unchanged. */
  ghost predicate Moved(w: Validator, r: Validator, es: seq<Event>) {
    && r.root == w.root
    && |r.stack| == |w.stack| > 0
    && var l := |w.stack| - 1;
    && r.stack[..l] == RunStack(w.stack[..l], es)
    && r.stack[l].validators == RunEach(w.stack[l].validators, es)
  }

  lemma MovedSplits(w: Validator, m: Validator, r: Validator, a: seq<Event>, b: seq<Event>)
    requires Moved(w, m, a) && Moved(m, r, b)
    ensures Moved(w, r, a + b)
  {
    hide RunStack, RunEach;
    var l := |w.stack| - 1;
    RunStackSplits(w.stack[..l], a, b);
    RunEachSplits(w.stack[l].validators, a, b);
  }

  lemma MovedNot(w: Validator)
    requires w.stack != []
    ensures Moved(w, w, [])
  {
    hide RunEach;
    var l := |w.stack| - 1;
    RunNone(w.stack[..l]);
    assert RunEach(w.stack[l].validators, []) == w.stack[l].validators by {
      RunNone(w.stack);
      assert RunStack(w.stack, [])[l] == w.stack[l];
    }
  }

  lemma BelowIsMoved(w: Validator, es: seq<Event>)
    requires w.stack != []
    ensures Moved(w, w.(stack := Below(w, es)), es)
  {
    hide RunEach;
    var l := |w.stack| - 1;
    assert RunStack(w.stack, es)[..l] == RunStack(w.stack[..l], es);
  }

  /** Whether a validator meets a value as it should: it goes on behind a valid value and rejects any other. */
  ghost predicate Streams(w: Validator, v: Value, es: seq<Event>) {
    if Next(w).Some? && Valid(Next(w).value, v) then FeedAll(w, es) == w.(stack := Below(w, es))
    else !FeedAll(w, es).valid
  }

  /** A part is valid exactly if its key or place selects a schema, and it meets that schema. */
  lemma PartBySchema(s: Schema, v: Value, k: nat)
    requires IsContainer(v) && k < PartCount(v)
    ensures v.Object? ==> (PartValid(s, v, k) <==>
                             var sub := MemberSchema(s, v.members[k].name); sub.Some? && Valid(sub.value, v.members[k].value))
    ensures v.Array? ==> (PartValid(s, v, k) <==> var sub := ItemSchema(s, k); sub.Some? && Valid(sub.value, v.elements[k]))
  {
    hide Valid;
    if v.Object? {
      var name := v.members[k].name;
      var i := FindProperty(s.properties, name);
      assert i < |s.properties| ==> s.properties[i] in s.properties;
      assert HasProperty(s, name) ==> i < |s.properties|;
    }
  }

  lemma StreamElement(w: Validator, s: Schema, v: Value, k: nat, kind: int -> IntKind)
    requires v.Array? && k < |v.elements| && Inside(w, s, v, k)
    requires Streams(w, v.elements[k], Events(v.elements[k], kind))
    ensures var es := Events(v.elements[k], kind);
            var r := FeedAll(w, es);
            if PartValid(s, v, k) then Inside(r, s, v, k + 1) && Moved(w, r, es) else !r.valid
  {
    PartBySchema(s, v, k);
    hide Valid, PartValid, FeedAll, RunStack;
    var es := Events(v.elements[k], kind);
    if PartValid(s, v, k) {
      BelowIsMoved(w, es);
      assert Below(w, es)[|w.stack| - 1] == Advance(RunStack(w.stack, es)[|w.stack| - 1]);
      RunTop(w.stack, es);
    }
  }

  lemma RunTop(stack: seq<Context>, es: seq<Event>)
    requires stack != []
    ensures RunStack(stack, es)[|stack| - 1] == RunContext(stack[|stack| - 1], es)
  {
    hide RunContext;
  }

  lemma SeenKey(s: Schema, v: Value, k: nat)
    requires v.Object? && k < |v.members|
    ensures var i := FindProperty(s.properties, v.members[k].name);
            Seen(s, v, k + 1) == if i < |s.properties| && i < |Seen(s, v, k)| then Seen(s, v, k)[i := true] else Seen(s, v, k)
  {
    var i := FindProperty(s.properties, v.members[k].name);
    if HasRequired(s) {
      forall j | 0 <= j < |s.properties| ensures Present(s, v, k + 1, j) <==> Present(s, v, k, j) || j == i {
        if j == i {
          assert FindProperty(s.properties, v.members[k].name) == j;
        }
      }
    }
  }

  lemma StreamKey(w: Validator, s: Schema, v: Value, k: nat)
    requires v.Object? && k < |v.members| && Inside(w, s, v, k)
    ensures var e := Key(v.members[k].name);
            var r := Feed(w, e);
            if MemberSchema(s, v.members[k].name).None? then !r.valid
            else Inside(r, s, v, k + 1) && Moved(w, r, [e]) && Next(r) == MemberSchema(s, v.members[k].name)
  {
    hide MemberSchema, Seen, FindProperty, RunStack, RunEach;
    var e := Key(v.members[k].name);
    RunStackOne(w.stack, e);
    RunTop(w.stack, [e]);
    SeenKey(s, v, k);
    var l := |w.stack| - 1;
    assert RunStack(w.stack, [e])[..l] == RunStack(w.stack[..l], [e]) by { RunBelow(w.stack, [e]); }
  }

  lemma RunBelow(stack: seq<Context>, es: seq<Event>)
    requires stack != []
    ensures RunStack(stack, es)[..|stack| - 1] == RunStack(stack[..|stack| - 1], es)
  {
    hide RunContext;
  }

  /** The value of a member, once its key was seen. */
  lemma StreamMemberValue(w: Validator, s: Schema, v: Value, k: nat, kind: int -> IntKind)
    requires v.Object? && k < |v.members| && Inside(w, s, v, k + 1)
    requires Next(w) == MemberSchema(s, v.members[k].name) && Next(w).Some?
    requires Streams(w, v.members[k].value, Events(v.members[k].value, kind))
    ensures var es := Events(v.members[k].value, kind);
            var r := FeedAll(w, es);
            if PartValid(s, v, k) then Inside(r, s, v, k + 1) && Moved(w, r, es) else !r.valid
  {
    PartBySchema(s, v, k);
    hide Valid, PartValid, MemberSchema, FeedAll, RunStack, Seen;
    var es := Events(v.members[k].value, kind);
    if PartValid(s, v, k) {
      BelowIsMoved(w, es);
      assert Below(w, es)[|w.stack| - 1] == Advance(RunStack(w.stack, es)[|w.stack| - 1]);
      RunTop(w.stack, es);
    }
  }

  /** The events of one part: a key and a value, or an element. */
  function OnePart(v: Value, k: nat, kind: int -> IntKind): seq<Event>
    requires IsContainer(v) && k < PartCount(v)
  {
    if v.Object? then [Key(v.members[k].name)] + Events(v.members[k].value, kind) else Events(v.elements[k], kind)
  }

  lemma PartEventsUnfold(v: Value, k: nat, kind: int -> IntKind)
    requires IsContainer(v) && k < PartCount(v)
    ensures PartEvents(v, k, kind) == OnePart(v, k, kind) + PartEvents(v, k + 1, kind)
  {
  }

  lemma StreamPart(w: Validator, s: Schema, v: Value, k: nat, kind: int -> IntKind)
    requires IsContainer(v) && k < PartCount(v) && Inside(w, s, v, k) && Storable(v) && Fitting(kind)
    ensures var es := OnePart(v, k, kind);
            var r := FeedAll(w, es);
            if PartValid(s, v, k) then Inside(r, s, v, k + 1) && Moved(w, r, es) else !r.valid
    decreases v, 0, TYPELESS, 0
  {
    PartBySchema(s, v, k);
    hide FeedAll, Feed, Valid, PartValid, Inside, Moved, MemberSchema, Events;
    if v.Array? {
      assert Inside(w, s, v, k);
      assert w.valid by { InsideIsValid(w, s, v, k); }
      StreamValue(w, v.elements[k], kind);
      StreamElement(w, s, v, k, kind);
    } else {
      var e := Key(v.members[k].name);
      var es := Events(v.members[k].value, kind);
      var m := Feed(w, e);
      StreamKey(w, s, v, k);
      FeedAllFirst(w, e, es);
      if MemberSchema(s, v.members[k].name).None? {
        Dead(m, es);
      } else {
        InsideIsValid(m, s, v, k + 1);
        StreamValue(m, v.members[k].value, kind);
        StreamMemberValue(m, s, v, k, kind);
        if PartValid(s, v, k) {
          MovedSplits(w, m, FeedAll(m, es), [e], es);
        }
      }
    }
  }

  lemma InsideIsValid(w: Validator, s: Schema, v: Value, k: nat)
    requires IsContainer(v) && k <= PartCount(v) && Inside(w, s, v, k)
    ensures w.valid && w.stack != []
  {
  }

  lemma StreamParts(w: Validator, s: Schema, v: Value, k: nat, kind: int -> IntKind)
    requires IsContainer(v) && k <= PartCount(v) && Inside(w, s, v, k) && Storable(v) && Fitting(kind)
    ensures var es := PartEvents(v, k, kind);
            var r := FeedAll(w, es);
            if PartsValid(s, v, k) then Inside(r, s, v, PartCount(v)) && Moved(w, r, es) else !r.valid
    decreases v, 0, TYPELESS, PartCount(v) - k + 1
  {
    hide Inside, Moved, PartValid, OnePart, Feed;
    var es := PartEvents(v, k, kind);
    if k == PartCount(v) {
      assert es == [];
      InsideIsValid(w, s, v, k);
      MovedNot(w);
    } else {
      hide FeedAll, PartEvents;
      var a, b := OnePart(v, k, kind), PartEvents(v, k + 1, kind);
      PartEventsUnfold(v, k, kind);
      FeedAllSplits(w, a, b);
      StreamPart(w, s, v, k, kind);
      var m := FeedAll(w, a);
      if PartValid(s, v, k) {
        StreamParts(m, s, v, k + 1, kind);
        assert PartsValid(s, v, k) <==> PartsValid(s, v, k + 1);
        if PartsValid(s, v, k) {
          MovedSplits(w, m, FeedAll(m, b), a, b);
        }
      } else {
        Dead(m, b);
      }
    }
  }

  /** The last event of a container. */
  lemma StreamClose(r: Validator, s: Schema, v: Value)
    requires IsContainer(v) && Inside(r, s, v, PartCount(v))
    ensures var l := |r.stack| - 1;
            var e := LastEvent(v);
            var done := Feed(r, e);
            var ok := if v.Object? then EndObjectOk(s, Seen(s, v, |v.members|), |v.members|) else EndArrayOk(s, |v.elements|);
            && done.valid == (ok && EndValueOk(s, RunEach(r.stack[l].validators, [e])))
            && done.root == r.root && done.stack == RunStack(r.stack[..l], [e])
  {
    hide EndValueOk, EndObjectOk, Seen;
    var e := LastEvent(v);
    RunStackOne(r.stack, e);
    RunTop(r.stack, [e]);
    RunBelow(r.stack, [e]);
  }

  lemma ContainerCheck(s: Schema, v: Value, kind: int -> IntKind)
    requires IsContainer(v)
    ensures LocallyValid(s, v) <==>
            && BeginOk(s, FirstEvent(v, kind))
            && if v.Object? then EndObjectOk(s, Seen(s, v, |v.members|), |v.members|) else EndArrayOk(s, |v.elements|)
  {
    hide Present;
    if v.Object? && HasRequired(s) {
      var seen := Seen(s, v, |v.members|);
      assert forall i | 0 <= i < |s.properties| :: seen[i] == Present(s, v, |v.members|, i);
    } else if v.Object? {
      forall i | 0 <= i < |s.properties| ensures !s.properties[i].required {
        assert s.properties[i] in s.properties;
      }
    }
  }

  lemma StreamContainer(w: Validator, s: Schema, v: Value, kind: int -> IntKind)
    requires w.valid && IsContainer(v) && Storable(v) && Fitting(kind) && Next(w) == Some(s)
    requires EndValueOk(s, RunEach(FreshSubs(s), Events(v, kind))) <==> Combined(s, v)
    ensures Streams(w, v, Events(v, kind))
    decreases v, 0, TYPELESS, PartCount(v) + 2
  {
    hide LocallyValid, BeginOk, EndValueOk, Combined, PartsValid, EndObjectOk, EndArrayOk, FeedAll, Feed, FeedSubs, FreshSubs, Inside, Moved, PartEvents, RunEach, Below, Seen, Next, Valid, Events, RunStack;
    var e, es, l := FirstEvent(v, kind), PartEvents(v, 0, kind), LastEvent(v);
    EventsInParts(v, kind);
    assert Events(v, kind) == [e] + (es + [l]);
    ValidInParts(s, v);
    ContainerCheck(s, v, kind);
    FeedBegin(w, e);
    FeedAllFirst(w, e, es + [l]);
    var m := Feed(w, e);
    if !BeginOk(s, e) {
      Dead(m, es + [l]);
    } else {
      EnteredInside(w, s, v, e);
      StreamParts(m, s, v, 0, kind);
      FeedAllSplits(m, es, [l]);
      var r := FeedAll(m, es);
      FeedAllOne(r, l);
      if !PartsValid(s, v, 0) {
        Dead(r, [l]);
      } else {
        StreamClose(r, s, v);
        Closed(w, s, v, m, r, e, es, l);
      }
    }
  }

  lemma EnteredInside(w: Validator, s: Schema, v: Value, e: Event)
    requires IsContainer(v) && e == if v.Object? then StartObject else StartArray
    ensures var m := Entered(w.root, Below(w, [e]), s, e, FeedSubs(s, e));
            Inside(m, s, v, 0) && m.root == w.root && m.stack == Below(w, [e]) + [Pushed(s, e, FeedSubs(s, e))]
  {
    hide Below, FeedSubs;
    if v.Object? {
      assert Seen(s, v, 0) == Pushed(s, e, FeedSubs(s, e)).exist;
    }
  }

  /** The contexts below a container, and the validators beside it, have seen the whole value. */
  lemma Closed(w: Validator, s: Schema, v: Value, m: Validator, r: Validator, e: Event, es: seq<Event>, l: Event)
    requires Begins(e) && m.stack == Below(w, [e]) + [Pushed(s, e, FeedSubs(s, e))]
    requires Moved(m, r, es)
    ensures var n := |r.stack| - 1;
            && r.root == m.root
            && RunStack(r.stack[..n], [l]) == Below(w, [e] + (es + [l]))
            && RunEach(r.stack[n].validators, [l]) == RunEach(FreshSubs(s), [e] + (es + [l]))
  {
    hide RunStack, RunEach, Below, FreshSubs, FeedSubs;
    var n := |r.stack| - 1;
    assert m.stack[..n] == Below(w, [e]);
    RunStackSplits(Below(w, [e]), es, [l]);
    BelowSplits(w, [e], es + [l]);
    RunEachSplits(FeedSubs(s, e), es, [l]);
    FeedSubsRun(s, e, es + [l]);
  }

  lemma StreamScalar(w: Validator, s: Schema, v: Value, kind: int -> IntKind)
    requires w.valid && !IsContainer(v) && Storable(v) && Fitting(kind) && Next(w) == Some(s)
    requires EndValueOk(s, RunEach(FreshSubs(s), Events(v, kind))) <==> Combined(s, v)
    ensures Streams(w, v, Events(v, kind))
  {
    hide LocallyValid, BeginOk, EndValueOk, Combined, FeedAll, Feed, FeedSubs, FreshSubs, RunEach, Below, Next, Valid, Events;
    var e := FirstEvent(v, kind);
    EventsInParts(v, kind);
    ValidInParts(s, v);
    ScalarCheck(s, v, kind);
    FeedBegin(w, e);
    FeedAllOne(w, e);
    FeedSubsIs(s, e);
  }

  lemma {:induction false} StreamValue(w: Validator, v: Value, kind: int -> IntKind)
    requires w.valid && Storable(v) && Fitting(kind)
    ensures Streams(w, v, Events(v, kind))
    decreases v, 1, if Next(w).Some? then Next(w).value else TYPELESS, 0
  {
    hide Valid, FeedAll, Feed, Events;
    var es := Events(v, kind);
    if Next(w).None? {
      NothingExpected(w, v, kind);
    } else {
      hide Streams;
      var s := Next(w).value;
      forall i | 0 <= i < |s.allOf| ensures Agree(s.allOf[i], v, es) {
        StreamValue(Fresh(s.allOf[i]), v, kind);
        StreamsAgree(s.allOf[i], v, es);
      }
      forall i | 0 <= i < |s.anyOf| ensures Agree(s.anyOf[i], v, es) {
        StreamValue(Fresh(s.anyOf[i]), v, kind);
        StreamsAgree(s.anyOf[i], v, es);
      }
      forall i | 0 <= i < |s.oneOf| ensures Agree(s.oneOf[i], v, es) {
        StreamValue(Fresh(s.oneOf[i]), v, kind);
        StreamsAgree(s.oneOf[i], v, es);
      }
      if s.notOf.Some? {
        StreamValue(Fresh(s.notOf.value), v, kind);
        StreamsAgree(s.notOf.value, v, es);
      }
      CombinedVerdict(s, v, es);
      if IsContainer(v) {
        StreamContainer(w, s, v, kind);
      } else {
        StreamScalar(w, s, v, kind);
      }
    }
  }

  lemma StreamsAgree(s: Schema, v: Value, es: seq<Event>)
    requires Streams(Fresh(s), v, es)
    ensures Agree(s, v, es)
  {
    hide Valid, FeedAll;
  }

  lemma NothingExpected(w: Validator, v: Value, kind: int -> IntKind)
    requires w.valid && Next(w).None?
    ensures !FeedAll(w, Events(v, kind)).valid
  {
    hide Feed, Events, FeedAll;
    var e := FirstEvent(v, kind);
    EventsInParts(v, kind);
    FeedBegin(w, e);
    if IsContainer(v) {
      var rest := PartEvents(v, 0, kind) + [LastEvent(v)];
      assert Events(v, kind) == [e] + rest;
      FeedAllFirst(w, e, rest);
      Dead(Feed(w, e), rest);
    } else {
      FeedAllOne(w, e);
    }
  }

  /**
   * For every schema and every value: the verdict after the last event is the direct one, the stack is empty again,
   * and which callbacks carried the integers does not matter.
   */
  lemma StreamingIsValidity(s: Schema, v: Value, kind: int -> IntKind)
    requires Storable(v) && Fitting(kind)
    ensures FeedAll(Fresh(s), Events(v, kind)).valid <==> Valid(s, v)
    ensures Valid(s, v) ==> FeedAll(Fresh(s), Events(v, kind)) == Fresh(s)
  {
    hide Valid, FeedAll;
    StreamValue(Fresh(s), v, kind);
  }

  /** With distinct property names, a required property is met exactly by a member with its name. */
  lemma RequiredByName(s: Schema, v: Value, i: nat)
    requires v.Object? && i < |s.properties|
    requires forall j, k | 0 <= j < k < |s.properties| :: s.properties[j].name != s.properties[k].name
    ensures Present(s, v, |v.members|, i) <==> exists m | m in v.members :: m.name == s.properties[i].name
  {
    if m :| m in v.members && m.name == s.properties[i].name {
      var k :| 0 <= k < |v.members| && v.members[k] == m;
      assert FindProperty(s.properties, v.members[k].name) == i;
    }
    if Present(s, v, |v.members|, i) {
      var k :| 0 <= k < |v.members| && FindProperty(s.properties, v.members[k].name) == i;
      assert v.members[k] in v.members;
    }
  }
}
