/** Equality of value trees as document.h compares them. */
module ValueEquality {
  import opened Base
  import opened Json

  // ---- operator== ----

  /** The index of the first member with some name, or the number of members. */
  function Find(ms: seq<Member>, name: bytes): (i: nat)
    ensures i <= |ms|
    ensures i < |ms| ==> ms[i].name == name
    ensures forall j | 0 <= j < i :: ms[j].name != name
  {
    if ms == [] then 0
    else if ms[0].name == name then 0
    else
      var i := Find(ms[1..], name);
      assert forall j | 0 < j < i + 1 :: ms[j] == ms[1..][j - 1];
      i + 1
  }

  /** An integer is stored as 64 bits; this is what they read as an unsigned number. */
  function Pattern(n: int): (u: nat)
    requires -TWO63 <= n < TWO64
    ensures u < TWO64 && (u == n || u - n == TWO64)
  {
    if n < 0 then n + TWO64 else n
  }

  predicate Equal(a: Value, b: Value)
    requires Storable(a) && Storable(b)
    decreases a
  {
    match a
    case Null => b.Null?
    case Bool(p) => b == Bool(p)
    case Number(n) => b.Number? && Pattern(n) == Pattern(b.n)
    case String(s) => b == String(s)
    case Array(es) =>
      b.Array? && |es| == |b.elements| && forall i | 0 <= i < |es| :: Equal(es[i], b.elements[i])
    case Object(ms) =>
      && b.Object? && |ms| == |b.members|
      && forall i | 0 <= i < |ms| ::
           var j := Find(b.members, ms[i].name); j < |b.members| && Equal(ms[i].value, b.members[j].value)
  }

  method FindMember(ms: seq<Member>, name: bytes) returns (i: nat)
    ensures i == Find(ms, name)
  {
    i := 0;
    while i < |ms|
      invariant i <= |ms|
      invariant forall j | 0 <= j < i :: ms[j].name != name
    {
      if ms[i].name == name {
        break;
      }
      i := i + 1;
    }
  }

  /** The comparison with its loops over elements and members. */
  method EqualTo(a: Value, b: Value) returns (r: bool)
    requires Storable(a) && Storable(b)
    ensures r <==> Equal(a, b)
    decreases a
  {
    match a
    case Null => r := b.Null?;
    case Bool(p) => r := b.Bool? && b.b == p;
    case Number(n) => r := b.Number? && Pattern(n) == Pattern(b.n);
    case String(s) => r := b.String? && b.s == s;
    case Array(es) =>
      if !b.Array? || |es| != |b.elements| {
        return false;
      }
      for i := 0 to |es|
        invariant forall k | 0 <= k < i :: Equal(es[k], b.elements[k])
      {
        var same := EqualTo(es[i], b.elements[i]);
        if !same {
          return false;
        }
      }
      r := true;
    case Object(ms) =>
      if !b.Object? || |ms| != |b.members| {
        return false;
      }
      for i := 0 to |ms|
        invariant forall k | 0 <= k < i ::
                    var j := Find(b.members, ms[k].name); j < |b.members| && Equal(ms[k].value, b.members[j].value)
      {
        var j := FindMember(b.members, ms[i].name);
        if j == |b.members| {
          return false;
        }
        var same := EqualTo(ms[i].value, b.members[j].value);
        if !same {
          return false;
        }
      }
      r := true;
  }

  // ---- equality of objects as finite maps ----

  predicate DistinctNames(ms: seq<Member>) {
    forall i, j | 0 <= i < j < |ms| :: ms[i].name != ms[j].name
  }

  /** No object in the tree repeats a member name. */
  predicate Distinct(v: Value) {
    match v
    case Object(ms) => DistinctNames(ms) && forall m | m in ms :: Distinct(m.value)
    case Array(es) => forall e | e in es :: Distinct(e)
    case _ => true
  }

  function Names(ms: seq<Member>): set<bytes> {
    set m | m in ms :: m.name
  }

  /** How two numbers at corresponding places are compared. */
  datatype Relation = SamePattern | SameNumber | NoClash

  predicate Related(r: Relation, n: int, m: int)
    requires -TWO63 <= n < TWO64 && -TWO63 <= m < TWO64
  {
    match r
    case SamePattern => (n - m) % TWO64 == 0
    case SameNumber => n == m
    case NoClash => !(n < 0 && m >= TWO63) && !(m < 0 && n >= TWO63)
  }

  /** Equality of trees with objects as finite maps and numbers compared by some relation. */
  predicate Same(r: Relation, a: Value, b: Value)
    requires Storable(a) && Storable(b)
    decreases a
  {
    match a
    case Null => b.Null?
    case Bool(p) => b == Bool(p)
    case Number(n) => b.Number? && Related(r, n, b.n)
    case String(s) => b == String(s)
    case Array(es) =>
      b.Array? && |es| == |b.elements| && forall i | 0 <= i < |es| :: Same(r, es[i], b.elements[i])
    case Object(ms) =>
      && b.Object? && Names(ms) == Names(b.members)
      && forall i, j | 0 <= i < |ms| && 0 <= j < |b.members| && ms[i].name == b.members[j].name ::
           Same(r, ms[i].value, b.members[j].value)
  }

  lemma {:induction false} NamesCount(ms: seq<Member>)
    requires DistinctNames(ms)
    ensures |Names(ms)| == |ms|
    decreases |ms|
  {
    if ms == [] {
      assert Names(ms) == {};
    } else {
      var rest := ms[1..];
      NamesCount(rest);
      assert Names(ms) == {ms[0].name} + Names(rest) by {
        assert ms == [ms[0]] + rest;
      }
      assert ms[0].name !in Names(rest);
    }
  }

  lemma FindsName(ms: seq<Member>, name: bytes)
    ensures Find(ms, name) < |ms| <==> name in Names(ms)
  {
    var i := Find(ms, name);
    if i < |ms| {
      assert ms[i] in ms;
    }
  }

  lemma FindsTheOne(ms: seq<Member>, j: nat)
    requires DistinctNames(ms) && j < |ms|
    ensures Find(ms, ms[j].name) == j
  {
  }

  lemma SubsetOfSameSize<T>(a: set<T>, b: set<T>)
    requires a <= b && |a| == |b|
    ensures a == b
  {
    assert |b - a| == |b| - |a|;
  }

  lemma SameNames(ms: seq<Member>, ns: seq<Member>)
    requires DistinctNames(ms) && DistinctNames(ns)
    ensures |ms| == |ns| && (forall i | 0 <= i < |ms| :: Find(ns, ms[i].name) < |ns|) <==> Names(ms) == Names(ns)
  {
    NamesCount(ms);
    NamesCount(ns);
    if |ms| == |ns| && forall i | 0 <= i < |ms| :: Find(ns, ms[i].name) < |ns| {
      forall name | name in Names(ms) ensures name in Names(ns) {
        var m :| m in ms && m.name == name;
        var k :| 0 <= k < |ms| && ms[k] == m;
        FindsName(ns, name);
      }
      SubsetOfSameSize(Names(ms), Names(ns));
    }
    if Names(ms) == Names(ns) {
      forall i | 0 <= i < |ms| ensures Find(ns, ms[i].name) < |ns| {
        assert ms[i] in ms;
        FindsName(ns, ms[i].name);
      }
    }
  }

  lemma PatternIsRemainder(n: int, m: int)
    requires -TWO63 <= n < TWO64 && -TWO63 <= m < TWO64
    ensures Pattern(n) == Pattern(m) <==> (n - m) % TWO64 == 0
  {
  }

  /** Without repeated names, operator== is equality of finite maps, all the way down. */
  lemma {:induction false} EqualIsMapEquality(a: Value, b: Value)
    requires Storable(a) && Storable(b) && Distinct(a) && Distinct(b)
    ensures Equal(a, b) <==> Same(SamePattern, a, b)
    decreases a
  {
    if a.Number? && b.Number? {
      PatternIsRemainder(a.n, b.n);
    } else if a.Array? && b.Array? && |a.elements| == |b.elements| {
      forall i | 0 <= i < |a.elements| ensures Equal(a.elements[i], b.elements[i]) <==> Same(SamePattern, a.elements[i], b.elements[i]) {
        EqualIsMapEquality(a.elements[i], b.elements[i]);
      }
    } else if a.Object? && b.Object? {
      EqualObjects(a, b);
    }
  }

  lemma EqualObjects(a: Value, b: Value)
    requires a.Object? && b.Object? && Storable(a) && Storable(b) && Distinct(a) && Distinct(b)
    ensures Equal(a, b) <==> Same(SamePattern, a, b)
    decreases a, 0
  {
    var ms, ns := a.members, b.members;
    SameNames(ms, ns);
    forall i, j | 0 <= i < |ms| && 0 <= j < |ns|
      ensures Equal(ms[i].value, ns[j].value) <==> Same(SamePattern, ms[i].value, ns[j].value)
    {
      assert ms[i] in ms && ns[j] in ns;
      EqualIsMapEquality(ms[i].value, ns[j].value);
    }
    if Equal(a, b) {
      forall i, j | 0 <= i < |ms| && 0 <= j < |ns| && ms[i].name == ns[j].name
        ensures Same(SamePattern, ms[i].value, ns[j].value)
      {
        FindsTheOne(ns, j);
      }
    }
  }

  lemma {:induction false} SameIsReflexive(r: Relation, a: Value)
    requires Storable(a) && Distinct(a)
    ensures Same(r, a, a)
    decreases a
  {
    match a
    case Array(es) =>
      forall i | 0 <= i < |es| ensures Same(r, es[i], es[i]) {
        SameIsReflexive(r, es[i]);
      }
    case Object(ms) =>
      forall i, j | 0 <= i < |ms| && 0 <= j < |ms| && ms[i].name == ms[j].name ensures Same(r, ms[i].value, ms[j].value) {
        assert i == j && ms[i] in ms;
        SameIsReflexive(r, ms[i].value);
      }
    case _ =>
  }

  lemma {:induction false} SameIsSymmetric(r: Relation, a: Value, b: Value)
    requires Storable(a) && Storable(b) && Same(r, a, b)
    ensures Same(r, b, a)
    decreases a
  {
    match a
    case Array(es) =>
      forall i | 0 <= i < |es| ensures Same(r, b.elements[i], es[i]) {
        SameIsSymmetric(r, es[i], b.elements[i]);
      }
    case Object(ms) =>
      forall i, j | 0 <= i < |ms| && 0 <= j < |b.members| && b.members[j].name == ms[i].name
        ensures Same(r, b.members[j].value, ms[i].value)
      {
        SameIsSymmetric(r, ms[i].value, b.members[j].value);
      }
    case _ =>
  }

  lemma {:induction false} SameIsTransitive(r: Relation, a: Value, b: Value, c: Value)
    requires Storable(a) && Storable(b) && Storable(c) && r != NoClash && Same(r, a, b) && Same(r, b, c)
    ensures Same(r, a, c)
    decreases a
  {
    match a
    case Array(es) =>
      forall i | 0 <= i < |es| ensures Same(r, es[i], c.elements[i]) {
        SameIsTransitive(r, es[i], b.elements[i], c.elements[i]);
      }
    case Object(ms) =>
      forall i, k | 0 <= i < |ms| && 0 <= k < |c.members| && ms[i].name == c.members[k].name
        ensures Same(r, ms[i].value, c.members[k].value)
      {
        assert ms[i] in ms && ms[i].name in Names(ms);
        var m :| m in b.members && m.name == ms[i].name;
        var j :| 0 <= j < |b.members| && b.members[j] == m;
        SameIsTransitive(r, ms[i].value, b.members[j].value, c.members[k].value);
      }
    case _ =>
  }

  /** operator== is an equivalence on trees without repeated names. */
  lemma EqualIsEquivalence(a: Value, b: Value, c: Value)
    requires Storable(a) && Storable(b) && Storable(c) && Distinct(a) && Distinct(b) && Distinct(c)
    ensures Equal(a, a)
    ensures Equal(a, b) ==> Equal(b, a)
    ensures Equal(a, b) && Equal(b, c) ==> Equal(a, c)
  {
    hide Equal, Same;
    EqualIsMapEquality(a, a);
    EqualIsMapEquality(a, b);
    EqualIsMapEquality(b, a);
    EqualIsMapEquality(b, c);
    EqualIsMapEquality(a, c);
    SameIsReflexive(SamePattern, a);
    if Equal(a, b) {
      SameIsSymmetric(SamePattern, a, b);
    }
    if Equal(a, b) && Equal(b, c) {
      SameIsTransitive(SamePattern, a, b, c);
    }
  }

  // ---- repeated names ----

  lemma NamesOfFirst(ms: seq<Member>)
    requires ms != []
    ensures Names(ms) == {ms[0].name} + Names(ms[1..])
  {
    assert ms == [ms[0]] + ms[1..];
  }

  lemma DistinctWithFirst(ms: seq<Member>)
    requires ms != [] && DistinctNames(ms[1..]) && ms[0].name !in Names(ms[1..])
    ensures DistinctNames(ms)
  {
    var rest := ms[1..];
    forall i, j | 0 <= i < j < |ms| ensures ms[i].name != ms[j].name {
      assert ms[j] == rest[j - 1] && rest[j - 1] in rest;
      if i > 0 {
        assert ms[i] == rest[i - 1];
      }
    }
  }

  /** There are no more names than members, and as many only if no name is repeated. */
  lemma {:induction false} NamesAreFew(ms: seq<Member>)
    ensures |Names(ms)| <= |ms|
    ensures |Names(ms)| == |ms| ==> DistinctNames(ms)
    decreases |ms|
  {
    if ms != [] {
      NamesAreFew(ms[1..]);
      NamesOfFirst(ms);
      hide Names, DistinctNames;
      if ms[0].name in Names(ms[1..]) {
        assert Names(ms) == Names(ms[1..]);
      } else if |Names(ms)| == |ms| {
        DistinctWithFirst(ms);
      }
    }
  }

  /** Members that all have their match in a list of the same length leave no room for a repeated name there. */
  lemma NoRoomForRepeats(ms: seq<Member>, ns: seq<Member>)
    requires DistinctNames(ms) && |ms| == |ns| && forall i | 0 <= i < |ms| :: Find(ns, ms[i].name) < |ns|
    ensures DistinctNames(ns) && Names(ms) == Names(ns)
  {
    NamesCount(ms);
    NamesAreFew(ns);
    forall name | name in Names(ms) ensures name in Names(ns) {
      var m :| m in ms && m.name == name;
      var k :| 0 <= k < |ms| && ms[k] == m;
      FindsName(ns, name);
    }
    SubsetSize(Names(ms), Names(ns));
    SubsetOfSameSize(Names(ms), Names(ns));
  }

  lemma SubsetSize<T>(a: set<T>, b: set<T>)
    requires a <= b
    ensures |a| <= |b|
  {
    assert |b - a| == |b| - |a|;
  }

  /** A left operand without repeated names is equal to none with them. */
  lemma {:induction false} EqualMeansDistinct(a: Value, b: Value)
    requires Storable(a) && Storable(b) && Distinct(a) && Equal(a, b)
    ensures Distinct(b)
    decreases a
  {
    match a
    case Array(es) =>
      forall e | e in b.elements ensures Distinct(e) {
        var i :| 0 <= i < |b.elements| && b.elements[i] == e;
        EqualMeansDistinct(es[i], b.elements[i]);
      }
    case Object(ms) =>
      var ns := b.members;
      NoRoomForRepeats(ms, ns);
      forall n | n in ns ensures Distinct(n.value) {
        var j :| 0 <= j < |ns| && ns[j] == n;
        assert n.name in Names(ms);
        var m :| m in ms && m.name == n.name;
        var i :| 0 <= i < |ms| && ms[i] == m;
        FindsTheOne(ns, j);
        EqualMeansDistinct(ms[i].value, ns[j].value);
      }
    case _ =>
  }

  /** One operand without repeated names is enough: the other one is then compared as a finite map, and refused if it is none. */
  lemma EqualDecidesRepeats(a: Value, b: Value)
    requires Storable(a) && Storable(b) && Distinct(a)
    ensures Equal(a, b) <==> Distinct(b) && Same(SamePattern, a, b)
  {
    hide Equal, Same;
    if Equal(a, b) {
      EqualMeansDistinct(a, b);
    }
    if Distinct(b) {
      EqualIsMapEquality(a, b);
    }
  }

  /** The two ways to compare agree exactly unless the repeated names are on the left and pass unnoticed there. */
  lemma SymmetryExactly(a: Value, b: Value)
    requires Storable(a) && Storable(b) && Distinct(a)
    ensures (Equal(a, b) <==> Equal(b, a)) <==> (Equal(b, a) ==> Distinct(b))
  {
    hide Equal, Distinct;
    if Equal(a, b) {
      EqualMeansDistinct(a, b);
    }
    if Distinct(b) {
      EqualIsEquivalence(a, b, a);
      EqualIsEquivalence(b, a, b);
    }
  }

  /** With a repeated name on the left only, the comparison can succeed one way and fail the other way. */
  lemma RepeatedNamesBreakSymmetry()
    ensures var a := Object([Member([1], Null), Member([1], Null)]);
            var b := Object([Member([1], Null), Member([2], Null)]);
            Storable(a) && Storable(b) && Equal(a, b) && !Equal(b, a)
  {
    var a := Object([Member([1], Null), Member([1], Null)]);
    var b := Object([Member([1], Null), Member([2], Null)]);
    assert Storable(Null);
    assert Equal(a.members[0].value, b.members[0].value);
    assert Find(b.members, [1]) == 0;
    assert b.members[1].name == [2] && Find(a.members, [2]) == 2;
  }

  /**
   * Comparing bit patterns instead of numbers goes wrong exactly where a negative number meets one from 2^63 on:
   * the trees are equal as maps of integers just when operator== holds and no such pair stands at one place.
   */
  lemma {:induction false} PatternsMissTheSign(a: Value, b: Value)
    requires Storable(a) && Storable(b)
    ensures Same(SameNumber, a, b) <==> Same(SamePattern, a, b) && Same(NoClash, a, b)
    decreases a
  {
    match a
    case Array(es) =>
      if b.Array? && |es| == |b.elements| {
        forall i | 0 <= i < |es|
          ensures Same(SameNumber, es[i], b.elements[i]) <==> Same(SamePattern, es[i], b.elements[i]) && Same(NoClash, es[i], b.elements[i])
        {
          PatternsMissTheSign(es[i], b.elements[i]);
        }
      }
    case Object(ms) =>
      if b.Object? {
        forall i, j | 0 <= i < |ms| && 0 <= j < |b.members|
          ensures Same(SameNumber, ms[i].value, b.members[j].value)
                  <==> Same(SamePattern, ms[i].value, b.members[j].value) && Same(NoClash, ms[i].value, b.members[j].value)
        {
          assert ms[i] in ms && b.members[j] in b.members;
          PatternsMissTheSign(ms[i].value, b.members[j].value);
        }
      }
    case _ =>
  }
}
