/** document.h: the flags of numbers, and the stack that builds a tree from handler calls. */
module Document {
  import opened Base
  import opened Json

  // ---- number flags ----

  /** The type tests a number answers. */
  datatype Flags = Flags(isInt: bool, isUint: bool, isInt64: bool, isUint64: bool)

  function OfInt(i: int): Flags
    requires -TWO31 <= i < TWO31
  {
    if i >= 0 then Flags(true, true, true, true) else Flags(true, false, true, false)
  }

  function OfUint(u: int): Flags
    requires 0 <= u < TWO32
  {
    // The top bit of 32 decides.
    if u / TWO31 % 2 == 1 then Flags(false, true, true, true) else Flags(true, true, true, true)
  }

  function OfInt64(i: int): Flags
    requires -TWO63 <= i < TWO63
  {
    if i >= 0 then Flags(i / TWO31 == 0, i / TWO32 == 0, true, true)
    else Flags(i >= -TWO31, false, true, false)
  }

  function OfUint64(u: int): Flags
    requires 0 <= u < TWO64
  {
    Flags(u / TWO31 == 0, u / TWO32 == 0, u / TWO63 == 0, true)
  }

  /** The flags the four constructors give depend only on the number. */
  function FlagsOf(n: int): Flags {
    Flags(-TWO31 <= n < TWO31, 0 <= n < TWO32, -TWO63 <= n < TWO63, 0 <= n < TWO64)
  }

  predicate Fits(kind: IntKind, n: int) {
    match kind
    case Int => -TWO31 <= n < TWO31
    case Uint => 0 <= n < TWO32
    case Int64 => -TWO63 <= n < TWO63
    case Uint64 => 0 <= n < TWO64
  }

  function Construct(kind: IntKind, n: int): Flags
    requires Fits(kind, n)
  {
    match kind
    case Int => OfInt(n)
    case Uint => OfUint(n)
    case Int64 => OfInt64(n)
    case Uint64 => OfUint64(n)
  }

  lemma FlagsAreOfTheNumber(kind: IntKind, n: int)
    requires Fits(kind, n)
    ensures Construct(kind, n) == FlagsOf(n)
  {
    match kind
    case Int =>
    case Uint => assert n / TWO31 == 0 || n / TWO31 == 1;
    case Int64 =>
    case Uint64 =>
  }

  /** The callback Accept chooses, by the flags. */
  function AcceptKind(n: int): IntKind {
    var f := FlagsOf(n);
    if f.isInt then Int else if f.isUint then Uint else if f.isInt64 then Int64 else Uint64
  }

  // ---- the builder ----

  /** The values popped from the stack, read as name and value pairs. */
  function Pairs(vs: seq<Value>): Option<seq<Member>> {
    if |vs| < 2 then Some([])
    else
      var rest := Pairs(vs[2..]);
      if !vs[0].String? || rest.None? then None else Some([Member(vs[0].s, vs[1])] + rest.value)
  }

  /** One handler call; None where popping the stack would go wrong. */
  function Step(stack: seq<Value>, e: Event): Option<seq<Value>> {
    match e
    case NullEvent => Some(stack + [Null])
    case BoolEvent(b) => Some(stack + [Bool(b)])
    case IntegerEvent(_, n) => Some(stack + [Number(n)])
    case DoubleEvent(d) => Some(stack + [Double(d)])
    case StringEvent(s) => Some(stack + [String(s)])
    case Key(s) => Some(stack + [String(s)])
    case StartObject => Some(stack + [Object([])])
    case StartArray => Some(stack + [Array([])])
    case EndObject(n) =>
      if |stack| < 2 * n + 1 then None
      else
        var base := |stack| - 2 * n;
        var ms := Pairs(stack[base..]);
        if ms.None? then None else Some(stack[..base - 1] + [Object(ms.value)])
    case EndArray(n) =>
      if |stack| < n + 1 then None
      else
        var base := |stack| - n;
        Some(stack[..base - 1] + [Array(stack[base..])])
  }

  function Build(stack: seq<Value>, es: seq<Event>): Option<seq<Value>>
    decreases |es|
  {
    if es == [] then Some(stack)
    else
      var r := Step(stack, es[0]);
      if r.None? then None else Build(r.value, es[1..])
  }

  lemma {:induction false} BuildSplits(stack: seq<Value>, a: seq<Event>, b: seq<Event>)
    ensures Build(stack, a + b) == var r := Build(stack, a); if r.None? then None else Build(r.value, b)
    decreases |a|
  {
    if a == [] {
      assert a + b == b;
    } else {
      assert (a + b)[1..] == a[1..] + b;
      var r := Step(stack, a[0]);
      if r.Some? {
        BuildSplits(r.value, a[1..], b);
      }
    }
  }

  lemma BuildOne(stack: seq<Value>, e: Event)
    ensures Build(stack, [e]) == Step(stack, e)
  {
    hide Step;
    assert [e][1..] == [];
    var r := Step(stack, e);
    if r.Some? {
      assert Build(r.value, [e][1..]) == r;
    }
  }

  /** The stack image of members from k on: name, value, name, value. */
  function Flat(ms: seq<Member>): seq<Value> {
    if ms == [] then [] else [String(ms[0].name), ms[0].value] + Flat(ms[1..])
  }

  lemma {:induction false} PairsOfFlat(ms: seq<Member>)
    ensures |Flat(ms)| == 2 * |ms| && Pairs(Flat(ms)) == Some(ms)
  {
    if ms != [] {
      PairsOfFlat(ms[1..]);
      assert Flat(ms)[2..] == Flat(ms[1..]);
      assert ms == [ms[0]] + ms[1..];
    }
  }

  /** The calls for a value push exactly that value. */
  lemma {:induction false} BuildsValue(stack: seq<Value>, v: Value, kind: int -> IntKind)
    ensures Build(stack, Events(v, kind)) == Some(stack + [v])
    decreases v, 1, 0
  {
    match v
    case Object(ms) =>
      BuildsObject(stack, v, kind);
    case Array(es) =>
      BuildsArray(stack, v, kind);
    case _ =>
      BuildOne(stack, Events(v, kind)[0]);
  }

  lemma BuildBracketed(stack: seq<Value>, open: Event, mid: seq<Event>, close: Event)
    ensures Build(stack, [open] + mid + [close]) ==
            var a := Step(stack, open);
            if a.None? then None
            else var b := Build(a.value, mid);
                 if b.None? then None else Step(b.value, close)
  {
    hide Step, Build;
    BuildSplits(stack, [open] + mid, [close]);
    BuildSplits(stack, [open], mid);
    BuildOne(stack, open);
    var b := Build(stack, [open] + mid);
    if b.Some? {
      BuildOne(b.value, close);
    }
  }

  lemma {:induction false} BuildsObject(stack: seq<Value>, v: Value, kind: int -> IntKind)
    requires v.Object?
    ensures Build(stack, Events(v, kind)) == Some(stack + [v])
    decreases v, 0, |v.members| + 1
  {
    hide Build, Flat, Pairs;
    var n := |v.members|;
    BuildBracketed(stack, StartObject, MemberEvents(v, 0, kind), EndObject(n));
    var s1 := stack + [Object([])];
    BuildsMembers(s1, v, 0, kind);
    assert v.members[0..] == v.members;
    PairsOfFlat(v.members);
    var s2 := s1 + Flat(v.members);
    assert s2[|s2| - 2 * n..] == Flat(v.members);
    assert s2[..|s2| - 2 * n - 1] == stack;
  }

  lemma {:induction false} BuildsMembers(stack: seq<Value>, v: Value, k: nat, kind: int -> IntKind)
    requires v.Object? && k <= |v.members|
    ensures Build(stack, MemberEvents(v, k, kind)) == Some(stack + Flat(v.members[k..]))
    decreases v, 0, |v.members| - k
  {
    if k == |v.members| {
      assert stack + [] == stack;
    } else {
      hide Build, Events;
      var m := v.members[k];
      BuildSplits(stack, [Key(m.name)] + Events(m.value, kind), MemberEvents(v, k + 1, kind));
      BuildSplits(stack, [Key(m.name)], Events(m.value, kind));
      BuildOne(stack, Key(m.name));
      BuildsValue(stack + [String(m.name)], m.value, kind);
      var s := stack + [String(m.name)] + [m.value];
      BuildsMembers(s, v, k + 1, kind);
      assert v.members[k..][1..] == v.members[k + 1..];
      assert s + Flat(v.members[k + 1..]) == stack + ([String(m.name), m.value] + Flat(v.members[k + 1..]));
    }
  }

  lemma {:induction false} BuildsArray(stack: seq<Value>, v: Value, kind: int -> IntKind)
    requires v.Array?
    ensures Build(stack, Events(v, kind)) == Some(stack + [v])
    decreases v, 0, |v.elements| + 1
  {
    hide Build;
    var n := |v.elements|;
    BuildBracketed(stack, StartArray, ElementEvents(v, 0, kind), EndArray(n));
    var s1 := stack + [Array([])];
    BuildsElements(s1, v, 0, kind);
    assert v.elements[0..] == v.elements;
    var s2 := s1 + v.elements;
    assert s2[|s2| - n..] == v.elements;
    assert s2[..|s2| - n - 1] == stack;
  }

  lemma {:induction false} BuildsElements(stack: seq<Value>, v: Value, k: nat, kind: int -> IntKind)
    requires v.Array? && k <= |v.elements|
    ensures Build(stack, ElementEvents(v, k, kind)) == Some(stack + v.elements[k..])
    decreases v, 0, |v.elements| - k
  {
    if k == |v.elements| {
      assert stack + v.elements[k..] == stack;
    } else {
      hide Build, Events;
      var e := v.elements[k];
      BuildSplits(stack, Events(e, kind), ElementEvents(v, k + 1, kind));
      BuildsValue(stack, e, kind);
      BuildsElements(stack + [e], v, k + 1, kind);
      assert stack + [e] + v.elements[k + 1..] == stack + v.elements[k..];
    }
  }
}
