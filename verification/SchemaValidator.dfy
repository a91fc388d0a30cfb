/** The validator object: its schema stack and verdict change with every event, by loops over contexts and validators. */
module SchemaValidator {
  import opened Base
  import opened Json
  import opened Schema
  import opened SchemaStreaming
  import Encodings

  method FindPropertyIndex(ps: seq<Property>, name: bytes) returns (found: bool, index: nat)
    ensures found <==> FindProperty(ps, name) < |ps|
    ensures found ==> index == FindProperty(ps, name)
  {
    index := 0;
    while index < |ps|
      invariant 0 <= index <= |ps|
      invariant forall j | 0 <= j < index :: ps[j].name != name
    {
      if ps[index].name == name {
        return true, index;
      }
      index := index + 1;
    }
    return false, 0;
  }

  method CountStringCodePoint(t: bytes) returns (ok: bool, count: nat)
    ensures if ok then CodePoints(t, 0) == Some(count) else CodePoints(t, 0).None?
  {
    count := 0;
    var i := 0;
    while i < |t|
      invariant 0 <= i <= |t|
      invariant CodePoints(t, 0).Some? <==> CodePoints(t, i).Some?
      invariant CodePoints(t, i).Some? ==> CodePoints(t, 0).value == count + CodePoints(t, i).value
    {
      hide Encodings.Decode;
      var d := Encodings.Decode(t, i);
      if !d.ok {
        return false, 0;
      }
      Encodings.EncodeInvertsDecode(t, i);
      i := d.pos;
      count := count + 1;
    }
    ok := true;
  }

  /** The verdict on a finished value: one loop for each kind of combination. */
  method EndValue(s: Schema, vs: seq<Validator>) returns (ok: bool)
    requires |vs| == ValidatorCount(s)
    ensures ok <==> EndValueOk(s, vs)
  {
    var any, one := |s.allOf|, |s.allOf| + |s.anyOf|;
    var no := one + |s.oneOf|;
    var all := CheckAll(vs[..any]);
    if !all {
      return false;
    }
    if s.anyOf != [] {
      var some := CheckAny(vs[any..one]);
      if !some {
        return false;
      }
    }
    if s.oneOf != [] {
      var single := CheckOne(vs[one..no]);
      if !single {
        return false;
      }
    }
    return !(s.notOf.Some? && vs[no].valid);
  }

  method CheckAll(vs: seq<Validator>) returns (ok: bool)
    ensures ok <==> AllValid(vs)
  {
    for i := 0 to |vs|
      invariant forall j | 0 <= j < i :: vs[j].valid
    {
      if !vs[i].valid {
        return false;
      }
    }
    return true;
  }

  method CheckAny(vs: seq<Validator>) returns (ok: bool)
    ensures ok <==> AnyValid(vs)
  {
    for i := 0 to |vs|
      invariant forall j | 0 <= j < i :: !vs[j].valid
    {
      if vs[i].valid {
        return true;
      }
    }
    return false;
  }

  /** Exactly one: a second valid one ends the loop. */
  method CheckOne(vs: seq<Validator>) returns (ok: bool)
    ensures ok <==> OneValid(vs)
  {
    ok := false;
    ghost var at := 0;
    for i := 0 to |vs|
      invariant ok ==> 0 <= at < i && vs[at].valid
      invariant forall j | 0 <= j < i && (ok ==> j != at) :: !vs[j].valid
    {
      if vs[i].valid {
        if ok {
          return false;
        }
        ok, at := true, i;
      }
    }
  }

  /** The schema's part of a key: the schema of the coming value, and a note of the property. */
  method SchemaKey(c: Context, name: bytes) returns (ok: bool, r: Context)
    ensures ok <==> MemberSchema(c.schema, name).Some?
    ensures ok ==> r == SeeKey(c, name)
    ensures r.schema == c.schema && r.validators == c.validators
  {
    r := c;
    var found, index := FindPropertyIndex(c.schema.properties, name);
    if found {
      r := r.(valueSchema := Some(c.schema.properties[index].schema));
      if index < |c.exist| {
        r := r.(exist := c.exist[index := true]);
      }
      return true, r;
    }
    if c.schema.additional.Some? {
      return true, r.(valueSchema := c.schema.additional);
    }
    if c.schema.additionalProperties {
      return true, r.(valueSchema := Some(TYPELESS));
    }
    return false, r;
  }

  class GenericSchemaValidator {
    const root: Schema
    var stack: seq<Context>
    var valid: bool

    ghost function State(): Validator
      reads this
    {
      Validator(root, stack, valid)
    }

    ghost predicate Wf()
      reads this
    {
      forall c | c in stack :: |c.validators| == ValidatorCount(c.schema)
    }

    constructor (s: Schema)
      ensures State() == Fresh(s) && Wf()
    {
      root := s;
      stack := [];
      valid := true;
    }

    /** Give the event to every validator of every open context. */
    method Parallel(e: Event)
      requires Wf()
      modifies this`stack
      ensures stack == FeedStack(old(stack), e) && Wf()
    {
      hide FeedEach;
      var before := stack;
      var i := 0;
      while i < |stack|
        invariant 0 <= i <= |stack| == |before|
        invariant forall j | 0 <= j < i :: stack[j] == FeedStack(before, e)[j]
        invariant forall j | i <= j < |stack| :: stack[j] == before[j]
      {
        var vs := FeedValidators(stack[i].validators, e);
        stack := stack[i := stack[i].(validators := vs)];
        i := i + 1;
      }
      assert stack == FeedStack(before, e);
    }

    method FeedValidators(vs: seq<Validator>, e: Event) returns (r: seq<Validator>)
      ensures r == FeedEach(vs, e)
    {
      hide Feed;
      r := vs;
      var i := 0;
      while i < |vs|
        invariant 0 <= i <= |vs| == |r|
        invariant forall j | 0 <= j < i :: r[j] == Feed(vs[j], e)
        invariant forall j | i <= j < |vs| :: r[j] == vs[j]
      {
        r := r[i := Feed(r[i], e)];
        i := i + 1;
      }
    }

    /** The first event of a value: find its schema, push a context, check, start validators and feed them all. */
    method Begin(e: Event) returns (s: Schema)
      requires Begins(e) && valid && Wf()
      modifies this
      ensures Wf()
      ensures valid <==> Next(old(State())).Some? && BeginOk(Next(old(State())).value, e)
      ensures valid ==> s == Next(old(State())).value
                        && stack == Below(old(State()), [e]) + [Pushed(s, e, FeedSubs(s, e))]
    {
      hide Feed, BeginOk, FeedSubs, FreshSubs;
      s := root;
      if stack != [] {
        var top := stack[|stack| - 1];
        var next := NextSchema(top);
        if next.None? {
          valid := false;
          return;
        }
        s := next.value;
        stack := stack[|stack| - 1 := Advance(top)];
      }
      if !BeginOk(s, e) {
        valid := false;
        return;
      }
      BelowFed(old(State()), e);
      PushAndFeed(s, e);
    }

    /** Push the context of a value and give its first event to all validators, the new ones included. */
    method PushAndFeed(s: Schema, e: Event)
      requires Begins(e) && Wf()
      modifies this`stack
      ensures Wf() && stack == FeedStack(old(stack), e) + [Pushed(s, e, FeedSubs(s, e))]
    {
      hide Feed, FeedSubs, FreshSubs;
      FreshCount(s);
      var exist := if e.StartObject? && HasRequired(s) then seq(|s.properties|, _ => false) else [];
      var c := Context(s, None, FreshSubs(s), exist, e.StartArray?, 0);
      stack := stack + [c];
      Parallel(e);
      FeedSubsIs(s, e);
      RunEachOne(FreshSubs(s), e);
      FeedPushed(old(stack), c, e);
    }

    /** A null, a boolean, a number or a string. */
    method Scalar(e: Event)
      requires Begins(e) && !IsOpening(e) && Wf()
      modifies this
      ensures Wf() && valid == Feed(old(State()), e).valid
      ensures valid ==> State() == Feed(old(State()), e)
      ensures !old(valid) ==> State() == old(State())
    {
      hide Feed, BeginOk, FeedSubs, EndValueOk, Below;
      NoMore(State(), e);
      if !valid {
        return;
      }
      FeedBegin(State(), e);
      var s := Begin(e);
      if valid {
        var top := stack[|stack| - 1];
        valid := EndValue(s, top.validators);
        if valid {
          ghost var was := stack;
          stack := stack[..|stack| - 1];
          assert stack == Below(old(State()), [e]);
        }
      }
    }

    method Start(e: Event)
      requires IsOpening(e) && Wf()
      modifies this
      ensures Wf() && valid == Feed(old(State()), e).valid
      ensures valid ==> State() == Feed(old(State()), e)
      ensures !old(valid) ==> State() == old(State())
    {
      hide Feed, BeginOk, FeedSubs, Below;
      NoMore(State(), e);
      if !valid {
        return;
      }
      FeedBegin(State(), e);
      var s := Begin(e);
    }

    method Key(name: bytes)
      requires Wf() && stack != []
      modifies this
      ensures Wf() && valid == Feed(old(State()), Event.Key(name)).valid
      ensures valid ==> State() == Feed(old(State()), Event.Key(name))
      ensures !old(valid) ==> State() == old(State())
    {
      hide FeedStack, SeeKey, MapTop, MemberSchema;
      if !valid {
        return;
      }
      var ok, top := SchemaKey(stack[|stack| - 1], name);
      if !ok {
        valid := false;
        return;
      }
      stack := stack[|stack| - 1 := top];
      Parallel(Event.Key(name));
      KeyFed(old(stack), name);
    }

    /** The end of an object or of an array. */
    method End(e: Event)
      requires (e.EndObject? || e.EndArray?) && Wf() && stack != []
      modifies this
      ensures Wf() && valid == Feed(old(State()), e).valid
      ensures valid ==> State() == Feed(old(State()), e)
      ensures !old(valid) ==> State() == old(State())
    {
      hide FeedEach, EndValueOk, EndObjectOk;
      if !valid {
        return;
      }
      Parallel(e);
      var top := stack[|stack| - 1];
      var ok := if e.EndObject? then EndObjectOk(top.schema, top.exist, e.memberCount) else EndArrayOk(top.schema, e.elementCount);
      if !ok {
        valid := false;
        return;
      }
      valid := EndValue(top.schema, top.validators);
      if valid {
        stack := stack[..|stack| - 1];
      }
    }
  }

  lemma NoMore(v: Validator, e: Event)
    ensures !v.valid ==> Feed(v, e) == v
  {
  }

  lemma FreshCount(s: Schema)
    ensures |FreshSubs(s)| == ValidatorCount(s)
  {
  }

  lemma BelowFed(v: Validator, e: Event)
    ensures v.stack != [] ==> Below(v, [e]) == FeedStack(v.stack[|v.stack| - 1 := Advance(v.stack[|v.stack| - 1])], e)
  {
    hide FeedEach;
    if v.stack != [] {
      RunStackOne(v.stack, e);
    }
  }

  lemma FeedPushed(below: seq<Context>, c: Context, e: Event)
    ensures FeedStack(below + [c], e) == FeedStack(below, e) + [c.(validators := FeedEach(c.validators, e))]
  {
    hide FeedEach;
  }

  lemma KeyFed(stack: seq<Context>, name: bytes)
    requires stack != []
    ensures FeedStack(stack[|stack| - 1 := SeeKey(stack[|stack| - 1], name)], Key(name))
            == MapTop(FeedStack(stack, Key(name)), c => SeeKey(c, name))
  {
    hide FeedEach, FindProperty;
  }
}
