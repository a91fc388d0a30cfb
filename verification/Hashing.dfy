/** The hash codes of value trees: a stack machine over events, insensitive to the order of members. */
module Hashing {
  import opened Base
  import opened Json
  import opened ValueEquality

  const SEED: bv64 := 0x84222325cbf29ce4

  function Bits(c: byte): bv64 { c as bv64 }

  function Xor(a: bv64, b: bv64): bv64 { a ^ b }

  function Times(x: bv64): bv64 { x * 0x00000100000001b3 }

  /** One round of FNV-1a. */
  function Hash(h: bv64, d: bv64): bv64 { Times(h ^ d) }

  function Fold(h: bv64, data: bytes): bv64
    decreases |data|
  {
    if data == [] then h else Fold(Hash(h, Bits(data[0])), data[1..])
  }

  // The type codes of RapidJSON.
  const NULL_CODE: byte := 0
  const FALSE_CODE: byte := 1
  const TRUE_CODE: byte := 2
  const OBJECT_CODE: byte := 3
  const ARRAY_CODE: byte := 4
  const STRING_CODE: byte := 5
  const NUMBER_CODE: byte := 6

  function Buffer(kind: byte, data: bytes): bv64 {
    Fold(Hash(SEED, Bits(kind)), data)
  }

  function LittleEndian(u: nat, count: nat): bytes
    decreases count
  {
    if count == 0 then [] else [u % 256] + LittleEndian(u / 256, count - 1)
  }

  /** The bytes hashed for an integer: its 64-bit pattern, then its nearest double, which is a parameter here. */
  function NumberBytes(double: int -> bytes, n: int): bytes
    requires -TWO63 <= n < TWO64
  {
    LittleEndian(Pattern(n), 8) + double(n)
  }

  function XorPairs(h: bv64, codes: seq<bv64>): bv64
    decreases |codes|
  {
    if |codes| < 2 then h else XorPairs(Xor(h, Hash(codes[0], codes[1])), codes[2..])
  }

  function Chain(h: bv64, codes: seq<bv64>): bv64
    decreases |codes|
  {
    if codes == [] then h else Chain(Hash(h, codes[0]), codes[1..])
  }

  /** One handler call on the stack of codes. */
  function Step(double: int -> bytes, stack: seq<bv64>, e: Event): Option<seq<bv64>> {
    match e
    case NullEvent => Some(stack + [Buffer(NULL_CODE, [])])
    case BoolEvent(b) => Some(stack + [Buffer(if b then TRUE_CODE else FALSE_CODE, [])])
    case IntegerEvent(_, n) =>
      if -TWO63 <= n < TWO64 then Some(stack + [Buffer(NUMBER_CODE, NumberBytes(double, n))]) else None
    case DoubleEvent(_) => None
    case StringEvent(s) => Some(stack + [Buffer(STRING_CODE, s)])
    case Key(s) => Some(stack + [Buffer(STRING_CODE, s)])
    case StartObject => Some(stack)
    case StartArray => Some(stack)
    case EndObject(n) =>
      if 2 * n > |stack| then None
      else
        var base := |stack| - 2 * n;
        Some(stack[..base] + [XorPairs(Hash(0, Bits(OBJECT_CODE)), stack[base..])])
    case EndArray(n) =>
      if n > |stack| then None
      else
        var base := |stack| - n;
        Some(stack[..base] + [Chain(Hash(0, Bits(ARRAY_CODE)), stack[base..])])
  }

  function Run(double: int -> bytes, stack: seq<bv64>, es: seq<Event>): Option<seq<bv64>>
    decreases |es|
  {
    if es == [] then Some(stack)
    else
      var next := Step(double, stack, es[0]);
      if next.None? then None else Run(double, next.value, es[1..])
  }

  /** The hasher object with its loops. */
  class Hasher {
    var stack: seq<bv64>

    constructor ()
      ensures stack == []
    {
      stack := [];
    }

    method WriteBuffer(kind: byte, data: bytes)
      modifies this
      ensures stack == old(stack) + [Buffer(kind, data)]
    {
      hide Hash;
      var h := Hash(SEED, Bits(kind));
      var i := 0;
      while i < |data|
        invariant 0 <= i <= |data| && stack == old(stack)
        invariant Fold(h, data[i..]) == Buffer(kind, data)
      {
        assert data[i..][0] == data[i] && data[i..][1..] == data[i + 1..];
        h := Hash(h, Bits(data[i]));
        i := i + 1;
      }
      stack := stack + [h];
    }

    method EndObject(memberCount: nat)
      requires 2 * memberCount <= |stack|
      modifies this
      ensures forall double :: Some(stack) == Step(double, old(stack), Event.EndObject(memberCount))
    {
      hide Hash;
      var h := Hash(0, Bits(OBJECT_CODE));
      var base := |stack| - 2 * memberCount;
      var kv := stack[base..];
      stack := stack[..base];
      var i := 0;
      while i < memberCount
        invariant 0 <= i <= memberCount && |kv| == 2 * memberCount && stack == old(stack)[..base]
        invariant XorPairs(h, kv[2 * i..]) == XorPairs(Hash(0, Bits(OBJECT_CODE)), kv)
      {
        assert kv[2 * i..][2..] == kv[2 * (i + 1)..];
        h := Xor(h, Hash(kv[2 * i], kv[2 * i + 1]));
        i := i + 1;
      }
      stack := stack + [h];
    }

    method EndArray(elementCount: nat)
      requires elementCount <= |stack|
      modifies this
      ensures forall double :: Some(stack) == Step(double, old(stack), Event.EndArray(elementCount))
    {
      hide Hash;
      var h := Hash(0, Bits(ARRAY_CODE));
      var base := |stack| - elementCount;
      var e := stack[base..];
      stack := stack[..base];
      var i := 0;
      while i < elementCount
        invariant 0 <= i <= elementCount == |e| && stack == old(stack)[..base]
        invariant Chain(h, e[i..]) == Chain(Hash(0, Bits(ARRAY_CODE)), e)
      {
        assert e[i..][1..] == e[i + 1..];
        h := Hash(h, e[i]);
        i := i + 1;
      }
      stack := stack + [h];
    }
  }

  // ---- the code of a tree ----

  function Code(double: int -> bytes, v: Value): bv64
    requires Storable(v)
    decreases v, 0
  {
    match v
    case Null => Buffer(NULL_CODE, [])
    case Bool(b) => Buffer(if b then TRUE_CODE else FALSE_CODE, [])
    case Number(n) => Buffer(NUMBER_CODE, NumberBytes(double, n))
    case String(s) => Buffer(STRING_CODE, s)
    case Object(ms) => XorPairs(Hash(0, Bits(OBJECT_CODE)), MemberCodes(double, v, 0))
    case Array(es) => Chain(Hash(0, Bits(ARRAY_CODE)), ElementCodes(double, v, 0))
  }

  function MemberCodes(double: int -> bytes, v: Value, k: nat): (r: seq<bv64>)
    requires v.Object? && Storable(v) && k <= |v.members|
    ensures |r| == 2 * (|v.members| - k)
    decreases v, 0, |v.members| - k
  {
    if k == |v.members| then []
    else [Buffer(STRING_CODE, v.members[k].name), Code(double, v.members[k].value)] + MemberCodes(double, v, k + 1)
  }

  function ElementCodes(double: int -> bytes, v: Value, k: nat): (r: seq<bv64>)
    requires v.Array? && Storable(v) && k <= |v.elements|
    ensures |r| == |v.elements| - k
    decreases v, 0, |v.elements| - k
  {
    if k == |v.elements| then [] else [Code(double, v.elements[k])] + ElementCodes(double, v, k + 1)
  }

  lemma {:induction false} RunSplits(double: int -> bytes, stack: seq<bv64>, a: seq<Event>, b: seq<Event>)
    ensures Run(double, stack, a + b) ==
            var m := Run(double, stack, a); if m.None? then None else Run(double, m.value, b)
    decreases |a|
  {
    hide Step;
    if a == [] {
      assert a + b == b;
    } else {
      assert (a + b)[0] == a[0] && (a + b)[1..] == a[1..] + b;
      if Step(double, stack, a[0]).Some? {
        RunSplits(double, Step(double, stack, a[0]).value, a[1..], b);
      }
    }
  }

  lemma RunOne(double: int -> bytes, stack: seq<bv64>, e: Event)
    ensures Run(double, stack, [e]) == Step(double, stack, e)
  {
    hide Step;
    assert [e][1..] == [];
    if Step(double, stack, e).Some? {
      assert Run(double, Step(double, stack, e).value, []) == Step(double, stack, e);
    }
  }

  /** After the events of a value the stack holds one code more: the code of the tree. */
  lemma {:induction false} EventsGiveTheCode(double: int -> bytes, stack: seq<bv64>, v: Value, kind: int -> IntKind)
    requires Storable(v)
    ensures Run(double, stack, Events(v, kind)) == Some(stack + [Code(double, v)])
    decreases v, 1, 1
  {
    hide Buffer, XorPairs, Chain, Hash, Run;
    match v
    case Object(_) => ObjectGivesTheCode(double, stack, v, kind);
    case Array(_) => ArrayGivesTheCode(double, stack, v, kind);
    case Null => RunOne(double, stack, NullEvent);
    case Bool(b) => RunOne(double, stack, BoolEvent(b));
    case Number(n) => RunOne(double, stack, IntegerEvent(kind(n), n));
    case String(s) => RunOne(double, stack, StringEvent(s));
  }

  lemma RunBracketed(double: int -> bytes, stack: seq<bv64>, first: Event, mid: seq<Event>, last: Event, codes: seq<bv64>)
    requires first.StartObject? || first.StartArray?
    requires Run(double, stack, mid) == Some(stack + codes)
    ensures Run(double, stack, [first] + mid + [last]) == Step(double, stack + codes, last)
  {
    hide Run;
    RunSplits(double, stack, [first] + mid, [last]);
    RunSplits(double, stack, [first], mid);
    RunOne(double, stack, first);
    RunOne(double, stack + codes, last);
  }

  lemma ObjectGivesTheCode(double: int -> bytes, stack: seq<bv64>, v: Value, kind: int -> IntKind)
    requires v.Object? && Storable(v)
    ensures Run(double, stack, Events(v, kind)) == Some(stack + [Code(double, v)])
    decreases v, 1, 0
  {
    hide Buffer, XorPairs, Chain, Hash, Run, MemberCodes, MemberEvents;
    var codes := MemberCodes(double, v, 0);
    MembersGiveCodes(double, stack, v, 0, kind);
    RunBracketed(double, stack, StartObject, MemberEvents(v, 0, kind), EndObject(|v.members|), codes);
    assert (stack + codes)[|stack|..] == codes && (stack + codes)[..|stack|] == stack;
  }

  lemma ArrayGivesTheCode(double: int -> bytes, stack: seq<bv64>, v: Value, kind: int -> IntKind)
    requires v.Array? && Storable(v)
    ensures Run(double, stack, Events(v, kind)) == Some(stack + [Code(double, v)])
    decreases v, 1, 0
  {
    hide Buffer, XorPairs, Chain, Hash, Run, ElementCodes, ElementEvents;
    var codes := ElementCodes(double, v, 0);
    ElementsGiveCodes(double, stack, v, 0, kind);
    RunBracketed(double, stack, StartArray, ElementEvents(v, 0, kind), EndArray(|v.elements|), codes);
    assert (stack + codes)[|stack|..] == codes && (stack + codes)[..|stack|] == stack;
  }

  lemma MembersGiveCodes(double: int -> bytes, stack: seq<bv64>, v: Value, k: nat, kind: int -> IntKind)
    requires v.Object? && Storable(v) && k <= |v.members|
    ensures Run(double, stack, MemberEvents(v, k, kind)) == Some(stack + MemberCodes(double, v, k))
    decreases v, 0, |v.members| - k
  {
    hide Buffer, Code, Events;
    if k == |v.members| {
      assert stack + [] == stack;
    } else {
      hide Run;
      hide MemberCodes, MemberEvents;
      var m := v.members[k];
      var named := stack + [Buffer(STRING_CODE, m.name)];
      var both := named + [Code(double, m.value)];
      MembersUnfold(double, v, k, kind);
      var first, rest := [Key(m.name)] + Events(m.value, kind), MemberEvents(v, k + 1, kind);
      RunSplits(double, stack, first, rest);
      RunKey(double, stack, m.name, Events(m.value, kind));
      EventsGiveTheCode(double, named, m.value, kind);
      MembersGiveCodes(double, both, v, k + 1, kind);
      Regroup(stack, Buffer(STRING_CODE, m.name), Code(double, m.value), MemberCodes(double, v, k + 1));
    }
  }

  lemma Regroup(stack: seq<bv64>, x: bv64, y: bv64, rest: seq<bv64>)
    ensures stack + [x] + [y] + rest == stack + ([x, y] + rest)
  {
  }

  lemma MembersUnfold(double: int -> bytes, v: Value, k: nat, kind: int -> IntKind)
    requires v.Object? && Storable(v) && k < |v.members|
    ensures MemberCodes(double, v, k) ==
            [Buffer(STRING_CODE, v.members[k].name), Code(double, v.members[k].value)] + MemberCodes(double, v, k + 1)
    ensures MemberEvents(v, k, kind) == [Key(v.members[k].name)] + Events(v.members[k].value, kind) + MemberEvents(v, k + 1, kind)
  {
    hide Buffer, Code, Events;
  }

  lemma RunKey(double: int -> bytes, stack: seq<bv64>, name: bytes, es: seq<Event>)
    ensures Run(double, stack, [Key(name)] + es) == Run(double, stack + [Buffer(STRING_CODE, name)], es)
  {
    hide Buffer, Run;
    RunSplits(double, stack, [Key(name)], es);
    RunOne(double, stack, Key(name));
  }

  lemma ElementsGiveCodes(double: int -> bytes, stack: seq<bv64>, v: Value, k: nat, kind: int -> IntKind)
    requires v.Array? && Storable(v) && k <= |v.elements|
    ensures Run(double, stack, ElementEvents(v, k, kind)) == Some(stack + ElementCodes(double, v, k))
    decreases v, 0, |v.elements| - k
  {
    hide Buffer, Code, Events;
    if k == |v.elements| {
      assert stack + [] == stack;
    } else {
      hide Run;
      hide ElementCodes, ElementEvents;
      var es, rest := Events(v.elements[k], kind), ElementEvents(v, k + 1, kind);
      var next := stack + [Code(double, v.elements[k])];
      ElementsUnfold(double, v, k, kind);
      RunSplits(double, stack, es, rest);
      EventsGiveTheCode(double, stack, v.elements[k], kind);
      ElementsGiveCodes(double, next, v, k + 1, kind);
      assert next + ElementCodes(double, v, k + 1) == stack + ElementCodes(double, v, k);
    }
  }

  lemma ElementsUnfold(double: int -> bytes, v: Value, k: nat, kind: int -> IntKind)
    requires v.Array? && Storable(v) && k < |v.elements|
    ensures ElementCodes(double, v, k) == [Code(double, v.elements[k])] + ElementCodes(double, v, k + 1)
    ensures ElementEvents(v, k, kind) == Events(v.elements[k], kind) + ElementEvents(v, k + 1, kind)
  {
    hide Code, Events;
  }

  // ---- the order of members does not matter ----

  /** What a member adds to the code of its object. */
  datatype Part = Part(name: bytes, code: bv64)

  function Parts(double: int -> bytes, v: Value, k: nat): (r: seq<Part>)
    requires v.Object? && Storable(v) && k <= |v.members|
  {
    seq(|v.members| - k, i requires 0 <= i < |v.members| - k => MemberPart(double, v, k + i))
  }

  function MemberPart(double: int -> bytes, v: Value, k: nat): Part
    requires v.Object? && Storable(v) && k < |v.members|
  {
    Part(v.members[k].name, Hash(Buffer(STRING_CODE, v.members[k].name), Code(double, v.members[k].value)))
  }

  function XorAll(h: bv64, ps: seq<Part>): bv64
    decreases |ps|
  {
    if ps == [] then h else XorAll(Xor(h, ps[0].code), ps[1..])
  }

  lemma XorPairsFirst(h: bv64, x: bv64, y: bv64, rest: seq<bv64>)
    ensures XorPairs(h, [x, y] + rest) == XorPairs(Xor(h, Hash(x, y)), rest)
  {
    hide Hash, Xor;
    assert ([x, y] + rest)[2..] == rest;
  }

  lemma XorAllFirst(h: bv64, p: Part, rest: seq<Part>)
    ensures XorAll(h, [p] + rest) == XorAll(Xor(h, p.code), rest)
  {
    hide Xor;
    assert ([p] + rest)[1..] == rest;
  }

  lemma {:induction false} PairsAreParts(double: int -> bytes, v: Value, k: nat, h: bv64)
    requires v.Object? && Storable(v) && k <= |v.members|
    ensures XorPairs(h, MemberCodes(double, v, k)) == XorAll(h, Parts(double, v, k))
    decreases |v.members| - k
  {
    hide Hash, Buffer, Code, Xor;
    if k < |v.members| {
      hide XorPairs, XorAll;
      var p := MemberPart(double, v, k);
      XorPairsFirst(h, Buffer(STRING_CODE, v.members[k].name), Code(double, v.members[k].value), MemberCodes(double, v, k + 1));
      assert Parts(double, v, k) == [p] + Parts(double, v, k + 1);
      XorAllFirst(h, p, Parts(double, v, k + 1));
      PairsAreParts(double, v, k + 1, Xor(h, p.code));
    }
  }

  ghost predicate IsXor(r: bv64, a: bv64, b: bv64, c: bv64) { r == (a ^ b) ^ c }

  lemma XorTwice(a: bv64, b: bv64, c: bv64)
    ensures IsXor(Xor(Xor(a, b), c), a, b, c)
  {
    assert Xor(a, b) == a ^ b;
  }

  lemma IsXorSwaps(r: bv64, a: bv64, b: bv64, c: bv64)
    requires IsXor(r, a, b, c)
    ensures IsXor(r, a, c, b)
  {
  }

  lemma IsXorOnce(r: bv64, s: bv64, a: bv64, b: bv64, c: bv64)
    requires IsXor(r, a, b, c) && IsXor(s, a, b, c)
    ensures r == s
  {
  }

  lemma XorSwaps(a: bv64, b: bv64, c: bv64)
    ensures Xor(Xor(a, b), c) == Xor(Xor(a, c), b)
  {
    hide Xor, IsXor;
    XorTwice(a, b, c);
    XorTwice(a, c, b);
    IsXorSwaps(Xor(Xor(a, c), b), a, c, b);
    IsXorOnce(Xor(Xor(a, b), c), Xor(Xor(a, c), b), a, b, c);
  }

  /** A part can be taken out of the middle first. */
  lemma {:induction false} XorAnywhere(h: bv64, ps: seq<Part>, j: nat)
    requires j < |ps|
    ensures XorAll(h, ps) == XorAll(Xor(h, ps[j].code), ps[..j] + ps[j + 1..])
    decreases |ps|
  {
    hide Xor;
    if j == 0 {
      assert ps[..0] + ps[1..] == ps[1..];
    } else {
      hide XorAll;
      var p, x, tail := ps[0], ps[j].code, ps[1..][..j - 1] + ps[1..][j..];
      XorAnywhere(Xor(h, p.code), ps[1..], j - 1);
      XorSwaps(h, p.code, x);
      assert ps == [p] + ps[1..] && ps[..j] + ps[j + 1..] == [p] + tail;
      XorAllFirst(h, p, ps[1..]);
      XorAllFirst(Xor(h, x), p, tail);
    }
  }

  ghost predicate DistinctParts(ps: seq<Part>) {
    forall i, j | 0 <= i < j < |ps| :: ps[i].name != ps[j].name
  }

  /** Two lists of differently named parts that hold the same parts give the same code. */
  lemma {:induction false} XorIgnoresOrder(h: bv64, ps: seq<Part>, qs: seq<Part>)
    requires |ps| == |qs| && DistinctParts(ps) && DistinctParts(qs)
    requires forall i | 0 <= i < |ps| :: ps[i] in qs
    ensures XorAll(h, ps) == XorAll(h, qs)
    decreases |ps|
  {
    hide Xor;
    if ps != [] {
      var j :| 0 <= j < |qs| && qs[j] == ps[0];
      XorAnywhere(h, qs, j);
      var rest := qs[..j] + qs[j + 1..];
      forall i | 0 <= i < |ps[1..]| ensures ps[1..][i] in rest {
        var k :| 0 <= k < |qs| && qs[k] == ps[i + 1];
        assert k != j;
        assert qs[k] == rest[if k < j then k else k - 1];
      }
      XorIgnoresOrder(Xor(h, ps[0].code), ps[1..], rest);
    }
  }

  lemma PartsDistinct(double: int -> bytes, v: Value)
    requires v.Object? && Storable(v) && DistinctNames(v.members)
    ensures DistinctParts(Parts(double, v, 0))
  {
    hide Hash, Buffer, Code;
  }

  /** Trees that are equal as maps of integers have one code, whatever the order of members at any depth. */
  lemma {:induction false} SameCode(double: int -> bytes, a: Value, b: Value)
    requires Storable(a) && Storable(b) && Distinct(a) && Distinct(b) && Same(SameNumber, a, b)
    ensures Code(double, a) == Code(double, b)
    decreases a, 1
  {
    hide Buffer, Chain, XorPairs, Hash;
    match a
    case Array(es) => SameElements(double, a, b, 0);
    case Object(ms) => SameMembers(double, a, b);
    case _ =>
  }

  lemma SameElements(double: int -> bytes, a: Value, b: Value, k: nat)
    requires a.Array? && Storable(a) && Storable(b) && Distinct(a) && Distinct(b) && Same(SameNumber, a, b)
    requires k <= |a.elements|
    ensures ElementCodes(double, a, k) == ElementCodes(double, b, k)
    decreases a, 0, |a.elements| - k
  {
    hide Code;
    if k < |a.elements| {
      SameCode(double, a.elements[k], b.elements[k]);
      SameElements(double, a, b, k + 1);
    }
  }

  lemma SameMembers(double: int -> bytes, a: Value, b: Value)
    requires a.Object? && Storable(a) && Storable(b) && Distinct(a) && Distinct(b) && Same(SameNumber, a, b)
    ensures Code(double, a) == Code(double, b)
    decreases a, 0
  {
    hide Buffer, XorPairs, Hash;
    var h := Hash(0, Bits(OBJECT_CODE));
    var ps, qs := Parts(double, a, 0), Parts(double, b, 0);
    NamesCount(a.members);
    NamesCount(b.members);
    forall i | 0 <= i < |ps| ensures ps[i] in qs {
      var m := a.members[i];
      assert m in a.members && m.name in Names(b.members);
      var n :| n in b.members && n.name == m.name;
      var j :| 0 <= j < |b.members| && b.members[j] == n;
      SameCode(double, m.value, n.value);
      assert qs[j] == MemberPart(double, b, j) == ps[i];
    }
    PartsDistinct(double, a);
    PartsDistinct(double, b);
    XorIgnoresOrder(h, ps, qs);
    PairsAreParts(double, a, 0, h);
    PairsAreParts(double, b, 0, h);
  }

  /** Values that operator== calls equal get equal codes unless a negative number meets one from 2^63 on. */
  lemma EqualThenSameCode(double: int -> bytes, a: Value, b: Value)
    requires Storable(a) && Storable(b) && Distinct(a) && Distinct(b)
    requires Equal(a, b) && Same(NoClash, a, b)
    ensures Code(double, a) == Code(double, b)
  {
    EqualIsMapEquality(a, b);
    PatternsMissTheSign(a, b);
    SameCode(double, a, b);
  }

  // ---- and where a clash does break it ----

  /** Multiplying by the inverse of the prime modulo 2^64 gives x back. */
  ghost predicate Undoes(r: bv64, x: bv64) { r * 0xce965057aff6957b == x }

  lemma ProductUndone(x: bv64)
    ensures Undoes(x * 0x00000100000001b3, x)
  {
  }

  lemma TimesUndone(x: bv64)
    ensures Undoes(Times(x), x)
  {
    ProductUndone(x);
    assert Times(x) == x * 0x00000100000001b3;
  }

  lemma UndoneOnce(r: bv64, x: bv64, y: bv64)
    requires Undoes(r, x) && Undoes(r, y)
    ensures x == y
  {
  }

  lemma XorInjective(h: bv64, c: bv64, d: bv64)
    requires h ^ c == h ^ d
    ensures c == d
  {
  }

  /** A round of the hash loses nothing: from one state, different bytes lead to different states. */
  lemma HashInjective(h: bv64, c: bv64, d: bv64)
    requires Hash(h, c) == Hash(h, d)
    ensures c == d
  {
    hide Times, Undoes;
    TimesUndone(h ^ c);
    TimesUndone(h ^ d);
    UndoneOnce(Times(h ^ c), h ^ c, h ^ d);
    XorInjective(h, c, d);
  }

  lemma {:induction false} FoldLast(h: bv64, data: bytes, c: byte)
    ensures Fold(h, data + [c]) == Hash(Fold(h, data), Bits(c))
    decreases |data|
  {
    hide Hash;
    if data == [] {
      assert (data + [c])[1..] == [];
    } else {
      assert (data + [c])[0] == data[0] && (data + [c])[1..] == data[1..] + [c];
      FoldLast(Hash(h, Bits(data[0])), data[1..], c);
    }
  }

  lemma BitsDiffer()
    ensures Bits(0xBF) != Bits(0x43)
  {
  }

  function ValueOf(bs: bytes): nat {
    if bs == [] then 0 else bs[0] as int + 256 * ValueOf(bs[1..])
  }

  function Power256(count: nat): nat { if count == 0 then 1 else 256 * Power256(count - 1) }

  /** The bytes hashed for a 64-bit word are the word, the least significant one first. */
  lemma {:induction false} LittleEndianValue(u: nat, count: nat)
    requires u < Power256(count)
    ensures |LittleEndian(u, count)| == count && ValueOf(LittleEndian(u, count)) == u
    decreases count
  {
    if count > 0 {
      LittleEndianValue(u / 256, count - 1);
      assert LittleEndian(u, count)[1..] == LittleEndian(u / 256, count - 1);
    }
  }

  /** Eight bytes hold every pattern, so different patterns are hashed from different bytes. */
  lemma PatternsAreHashedApart(m: int, n: int)
    requires -TWO63 <= m < TWO64 && -TWO63 <= n < TWO64
    ensures LittleEndian(Pattern(m), 8) == LittleEndian(Pattern(n), 8) <==> Pattern(m) == Pattern(n)
  {
    hide LittleEndian, ValueOf;
    assert Power256(8) == TWO64 by { PowerIs(); }
    LittleEndianValue(Pattern(m), 8);
    LittleEndianValue(Pattern(n), 8);
  }

  lemma PowerIs()
    ensures Power256(8) == TWO64
  {
    assert Power256(2) == 0x1_0000 && Power256(4) == 0x1_0000_0000;
    assert Power256(6) == 0x1_0000_0000_0000;
  }

  /** -1 and 2^64 - 1 are equal to operator==, but their doubles, -1.0 and 2^64, differ in one byte, and so do the codes. */
  lemma ClashBreaksTheCode(double: int -> bytes)
    requires double(-1) == [0, 0, 0, 0, 0, 0, 0xF0, 0xBF] && double(TWO64 - 1) == [0, 0, 0, 0, 0, 0, 0xF0, 0x43]
    ensures Equal(Number(-1), Number(TWO64 - 1))
    ensures Code(double, Number(-1)) != Code(double, Number(TWO64 - 1))
  {
    hide Hash, Bits, Fold, LittleEndian;
    var h := Hash(SEED, Bits(NUMBER_CODE));
    var same := LittleEndian(TWO64 - 1, 8) + [0, 0, 0, 0, 0, 0, 0xF0];
    assert NumberBytes(double, -1) == same + [0xBF];
    assert NumberBytes(double, TWO64 - 1) == same + [0x43];
    FoldLast(h, same, 0xBF);
    FoldLast(h, same, 0x43);
    BitsDiffer();
    if Hash(Fold(h, same), Bits(0xBF)) == Hash(Fold(h, same), Bits(0x43)) {
      HashInjective(Fold(h, same), Bits(0xBF), Bits(0x43));
    }
  }

  // ---- the order of elements does matter ----

  lemma ChainOfTwo(h: bv64, a: bv64, b: bv64)
    ensures Chain(h, [a, b]) == Hash(Hash(h, a), b)
  {
    hide Hash;
    assert [a, b][1..] == [b] && [b][1..] == [];
    assert Chain(Hash(h, a), [b]) == Chain(Hash(Hash(h, a), b), []);
  }

  /** Two elements can change places exactly if, from the state before them, each one's round differs as the elements do. */
  lemma SwapExactly(h: bv64, a: bv64, b: bv64)
    ensures Chain(h, [a, b]) == Chain(h, [b, a]) <==> Xor(Hash(h, a), b) == Xor(Hash(h, b), a)
  {
    hide Hash, Chain;
    ChainOfTwo(h, a, b);
    ChainOfTwo(h, b, a);
    SameRound(Hash(h, a), b, Hash(h, b), a);
  }

  /** One round from two states is the same exactly if states and inputs differ in the same bits. */
  lemma SameRound(g: bv64, a: bv64, h: bv64, b: bv64)
    ensures Hash(g, a) == Hash(h, b) <==> Xor(g, a) == Xor(h, b)
  {
    hide Times, Undoes;
    TimesUndone(g ^ a);
    TimesUndone(h ^ b);
    if Hash(g, a) == Hash(h, b) {
      UndoneOnce(Times(g ^ a), g ^ a, h ^ b);
    }
  }

  /** An array of null and true and an array of true and null get different codes. */
  lemma ElementOrderShows(double: int -> bytes)
    ensures Code(double, Array([Null, Bool(true)])) != Code(double, Array([Bool(true), Null]))
  {
    hide Chain;
    var h := Hash(0, Bits(ARRAY_CODE));
    var a, b := Buffer(NULL_CODE, []), Buffer(TRUE_CODE, []);
    var v, w := Array([Null, Bool(true)]), Array([Bool(true), Null]);
    assert ElementCodes(double, v, 0) == [a, b] && ElementCodes(double, w, 0) == [b, a];
    SwapExactly(h, a, b);
    CodesOfWords();
  }

  /** Rounds of FNV-1a with its 64-bit prime, from the offset that RapidJSON uses. */
  lemma CodesOfWords()
    ensures Hash(0, 1) == 0x100000001b3
    ensures Xor(Hash(Hash(0, Bits(ARRAY_CODE)), Buffer(NULL_CODE, [])), Buffer(TRUE_CODE, []))
            != Xor(Hash(Hash(0, Bits(ARRAY_CODE)), Buffer(TRUE_CODE, [])), Buffer(NULL_CODE, []))
  {
  }
}
