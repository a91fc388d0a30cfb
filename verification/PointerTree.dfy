/** Resolving a pointer in a value tree, and setting the value it denotes. */
module PointerTree {
  import opened Base
  import opened Json
  import opened Pointer
  import opened ValueEquality
  import Writer
  import RoundTrip

  /** Where one token leads inside a value. */
  datatype Place = Nowhere | InObject(k: nat) | InArray(k: nat)

  function Locate(v: Value, t: Token): (p: Place)
    ensures p.InObject? ==> v.Object? && p.k < |v.members|
    ensures p.InArray? ==> v.Array? && p.k < |v.elements|
  {
    match v
    case Object(ms) => var k := Find(ms, t.name); if k < |ms| then InObject(k) else Nowhere
    case Array(es) => if t.index == INVALID || t.index >= |es| then Nowhere else InArray(t.index)
    case _ => Nowhere
  }

  function Child(v: Value, p: Place): Value
    requires p.InObject? ==> v.Object? && p.k < |v.members|
    requires p.InArray? ==> v.Array? && p.k < |v.elements|
    requires !p.Nowhere?
  {
    if p.InObject? then v.members[p.k].value else v.elements[p.k]
  }

  function Replace(v: Value, p: Place, x: Value): Value
    requires p.InObject? ==> v.Object? && p.k < |v.members|
    requires p.InArray? ==> v.Array? && p.k < |v.elements|
    requires !p.Nowhere?
  {
    if p.InObject? then Object(v.members[p.k := v.members[p.k].(value := x)]) else Array(v.elements[p.k := x])
  }

  /** The value a pointer resolves to. */
  function Resolve(v: Value, ts: seq<Token>): Option<Value>
    decreases |ts|
  {
    if ts == [] then Some(v)
    else
      var p := Locate(v, ts[0]);
      if p.Nowhere? then None else Resolve(Child(v, p), ts[1..])
  }

  method Get(root: Value, ts: seq<Token>) returns (r: Option<Value>, unresolved: nat)
    ensures r == Resolve(root, ts)
    ensures r.None? ==> unresolved < |ts| && Resolve(root, ts[..unresolved]).Some?
                        && Locate(Resolve(root, ts[..unresolved]).value, ts[unresolved]) == Nowhere
  {
    var v := root;
    for i := 0 to |ts|
      invariant Resolve(root, ts[..i]) == Some(v)
      invariant Resolve(root, ts) == Resolve(v, ts[i..])
    {
      var p := Locate(v, ts[i]);
      if p.Nowhere? {
        return None, i;
      }
      assert ts[i..][1..] == ts[i + 1..];
      assert ts[..i + 1] == ts[..i] + [ts[i]];
      ResolveSplits(root, ts[..i], [ts[i]]);
      ResolveOne(v, ts[i]);
      v := Child(v, p);
    }
    assert ts[..|ts|] == ts;
    return Some(v), 0;
  }

  lemma ResolveOne(v: Value, t: Token)
    ensures Resolve(v, [t]) == if Locate(v, t).Nowhere? then None else Some(Child(v, Locate(v, t)))
  {
    hide Locate;
    assert [t][1..] == [];
    if !Locate(v, t).Nowhere? {
      assert Resolve(Child(v, Locate(v, t)), []) == Some(Child(v, Locate(v, t)));
    }
  }

  lemma {:induction false} ResolveSplits(v: Value, a: seq<Token>, b: seq<Token>)
    ensures Resolve(v, a + b) == var m := Resolve(v, a); if m.None? then None else Resolve(m.value, b)
    decreases |a|
  {
    hide Locate;
    if a == [] {
      assert a + b == b;
    } else {
      assert (a + b)[0] == a[0] && (a + b)[1..] == a[1..] + b;
      if !Locate(v, a[0]).Nowhere? {
        ResolveSplits(Child(v, Locate(v, a[0])), a[1..], b);
      }
    }
  }

  // ---- creating and setting ----

  predicate IsDash(t: Token) { t.name == [MINUS] }

  /** A value made ready for a token: changed to an object or an array, and grown until the token has its place. */
  function Prepared(v: Value, t: Token): Value {
    if v.Array? && IsDash(t) then Array(v.elements + [Null])
    else
      var w :=
        if t.index == INVALID then (if v.Object? then v else Object([]))
        else if v.Array? || v.Object? then v else Array([]);
      match w
      case Array(es) => Array(es + seq(if t.index >= |es| then t.index + 1 - |es| else 0, _ => Null))
      case Object(ms) => if Find(ms, t.name) < |ms| then w else Object(ms + [Member(t.name, Null)])
  }

  function PlaceIn(w: Value, t: Token, appended: bool): Place {
    match w
    case Object(ms) => InObject(Find(ms, t.name))
    case Array(es) => InArray(if appended && es != [] then |es| - 1 else t.index)
    case _ => Nowhere
  }

  lemma PlaceExists(v: Value, t: Token)
    ensures var p := PlaceIn(Prepared(v, t), t, v.Array? && IsDash(t));
            var w := Prepared(v, t);
            && (p.InObject? ==> w.Object? && p.k < |w.members|)
            && (p.InArray? ==> w.Array? && p.k < |w.elements|)
            && !p.Nowhere?
  {
    if v.Object? || t.index == INVALID {
      var ms := if v.Object? then v.members else [];
      if Find(ms, t.name) == |ms| && !(v.Array? && IsDash(t)) {
        FindAppended(ms, t.name, Null);
      }
    }
  }

  lemma FindAppended(ms: seq<Member>, name: bytes, x: Value)
    requires Find(ms, name) == |ms|
    ensures Find(ms + [Member(name, x)], name) == |ms|
  {
    var all := ms + [Member(name, x)];
    var i := Find(all, name);
    assert all[|ms|].name == name;
    assert forall j | 0 <= j < |ms| :: all[j] == ms[j];
  }

  /** The tree after setting the value at a pointer; whatever is missing on the way is created. */
  function Set(v: Value, ts: seq<Token>, x: Value): Value
    decreases |ts|
  {
    if ts == [] then x
    else
      var w := Prepared(v, ts[0]);
      var p := PlaceIn(w, ts[0], v.Array? && IsDash(ts[0]));
      PlaceExists(v, ts[0]);
      Replace(w, p, Set(Child(w, p), ts[1..], x))
  }

  /** The walk of Set comes to an array with the token "-", which stands for the element behind the last one. */
  predicate AppendsToArray(v: Value, ts: seq<Token>)
    decreases |ts|
  {
    if ts == [] then false
    else if v.Array? && IsDash(ts[0]) then true
    else
      var w := Prepared(v, ts[0]);
      var p := PlaceIn(w, ts[0], false);
      PlaceExists(v, ts[0]);
      AppendsToArray(Child(w, p), ts[1..])
  }

  lemma LocateReplaced(w: Value, t: Token, p: Place, y: Value)
    requires p == Locate(w, t) && !p.Nowhere?
    ensures Locate(Replace(w, p, y), t) == p && Child(Replace(w, p, y), p) == y
  {
    if p.InObject? {
      FindReplaced(w.members, p.k, y, t.name);
    }
  }

  lemma FindReplaced(ms: seq<Member>, k: nat, y: Value, name: bytes)
    requires k < |ms|
    ensures Find(ms[k := ms[k].(value := y)], name) == Find(ms, name)
  {
    var ns := ms[k := ms[k].(value := y)];
    assert forall j | 0 <= j < |ms| :: ns[j].name == ms[j].name;
    var i, j := Find(ms, name), Find(ns, name);
    assert i == j;
  }

  lemma PreparedIsLocated(v: Value, t: Token)
    requires t.index < TWO32 && !(v.Array? && IsDash(t))
    ensures Locate(Prepared(v, t), t) == PlaceIn(Prepared(v, t), t, false)
  {
    PlaceExists(v, t);
  }

  /** Get after Set finds the value exactly when no "-" met an array on the way. */
  lemma {:induction false} GetAfterSet(v: Value, ts: seq<Token>, x: Value)
    requires forall t | t in ts :: t == TokenOf(t.name)
    ensures Resolve(Set(v, ts, x), ts) == if AppendsToArray(v, ts) then None else Some(x)
    decreases |ts|
  {
    hide Prepared, PlaceIn, Locate, Replace;
    if ts != [] {
      var t := ts[0];
      assert t in ts && t == TokenOf(t.name);
      IndexIsSmall(t.name);
      if v.Array? && IsDash(t) {
        DashIsLost(v, t, ts, x);
      } else {
        var w := Prepared(v, t);
        var p := PlaceIn(w, t, false);
        PlaceExists(v, t);
        PreparedIsLocated(v, t);
        var y := Set(Child(w, p), ts[1..], x);
        LocateReplaced(w, t, p, y);
        GetAfterSet(Child(w, p), ts[1..], x);
      }
    }
  }

  lemma IndexIsSmall(name: bytes)
    ensures IndexOf(name) < TWO32
  {
  }

  lemma DashIsLost(v: Value, t: Token, ts: seq<Token>, x: Value)
    requires ts != [] && ts[0] == t == TokenOf(t.name) && v.Array? && IsDash(t)
    ensures Set(v, ts, x).Array? && Resolve(Set(v, ts, x), ts).None?
  {
    assert !IsDigit(MINUS) && !LooksLikeIndex([MINUS]);
    PlaceExists(v, t);
    var w := Set(v, ts, x);
    assert w.Array? && Locate(w, t) == Nowhere;
  }

  // ---- what Set leaves alone ----

  /** The tokens lead to different places in any container that has a place for the first. */
  predicate Apart(a: Token, b: Token) {
    a.name != b.name && (a.index != b.index || b.index == INVALID)
  }

  lemma LocateApart(w: Value, a: Token, b: Token, y: Value)
    requires Apart(a, b) && !Locate(w, a).Nowhere?
    ensures var p := Locate(w, a);
            var r := Replace(w, p, y);
            && Locate(r, b) == Locate(w, b)
            && (!Locate(w, b).Nowhere? ==> Child(r, Locate(w, b)) == Child(w, Locate(w, b)))
  {
    var p := Locate(w, a);
    if p.InObject? {
      FindReplaced(w.members, p.k, y, b.name);
    }
  }

  /** The value on the way of Set: what the tokens lead to, or the null that is put there. */
  function Reached(v: Value, ts: seq<Token>): Value {
    var r := Resolve(v, ts);
    if r.Some? then r.value else Null
  }

  /** An array that meets a token which is neither an index nor "-" is replaced by an object. */
  predicate ReplacesArray(c: Value, t: Token) { c.Array? && t.index == INVALID && !IsDash(t) }

  /** The last token is an index that a grown or new array has, in front of the one that made it grow. */
  predicate GrowsOver(v: Value, ts: seq<Token>, us: seq<Token>, k: nat)
    requires k < |ts| && k < |us|
  {
    && |us| == k + 1 && us[k].index != INVALID && ts[k].index != INVALID && us[k].index < ts[k].index
    && !Reached(v, ts[..k]).Object? && !AppendsToArray(v, ts[..k])
  }

  lemma LocateMissing(v: Value, t: Token)
    requires t == TokenOf(t.name) && !(v.Array? && IsDash(t))
    ensures var w := Prepared(v, t);
            var p := PlaceIn(w, t, false);
            && Locate(w, t) == p && !p.Nowhere?
            && (if Locate(v, t).Nowhere? then Child(w, p) == Null else Locate(v, t) == p && Child(w, p) == Child(v, p))
  {
    IndexIsSmall(t.name);
    PlaceExists(v, t);
    PreparedIsLocated(v, t);
  }

  /** What a container has for a token, once it is prepared for another one. */
  lemma PreparedElsewhere(v: Value, t: Token, u: Token)
    requires Apart(t, u) && !(v.Array? && IsDash(t))
    ensures var w := Prepared(v, t);
            var p := Locate(w, u);
            if ReplacesArray(v, t) then p.Nowhere?
            else if !Locate(v, u).Nowhere? then p == Locate(v, u) && Child(w, p) == Child(v, p)
            else if u.index != INVALID && t.index != INVALID && u.index < t.index && !v.Object? then !p.Nowhere? && Child(w, p) == Null
            else p.Nowhere?
  {
    if v.Object? && Find(v.members, t.name) == |v.members| {
      FindBesides(v.members, t.name, u.name);
    }
  }

  lemma FindBesides(ms: seq<Member>, added: bytes, name: bytes)
    requires added != name
    ensures Find(ms + [Member(added, Null)], name) == if Find(ms, name) == |ms| then |ms| + 1 else Find(ms, name)
  {
    var all := ms + [Member(added, Null)];
    assert all[|ms|].name == added && forall j | 0 <= j < |ms| :: all[j] == ms[j];
    var i, j := Find(ms, name), Find(all, name);
  }

  /** Where two pointers part: the container is prepared, and one of its places gets the new value. */
  lemma TurnsOff(v: Value, ts: seq<Token>, us: seq<Token>, x: Value)
    requires ts != [] && us != [] && ts[0] == TokenOf(ts[0].name) && Apart(ts[0], us[0]) && !(v.Array? && IsDash(ts[0]))
    ensures Resolve(Set(v, ts, x), us) ==
            if ReplacesArray(v, ts[0]) then None
            else if Resolve(v, us).Some? then Resolve(v, us)
            else if GrowsOver(v, ts, us, 0) then Some(Null) else None
  {
    hide Prepared, PlaceIn, Replace, Locate;
    var t, u := ts[0], us[0];
    LocateMissing(v, t);
    var w := Prepared(v, t);
    var p := PlaceIn(w, t, false);
    var y := Set(Child(w, p), ts[1..], x);
    LocateApart(w, t, u, y);
    PreparedElsewhere(v, t, u);
    assert ts[..0] == [];
    NullIsEmpty(us[1..]);
  }

  lemma NullIsEmpty(ts: seq<Token>)
    ensures Resolve(Null, ts) == if ts == [] then Some(Null) else None
  {
  }

  /**
   * For every tree and pointer: a pointer that turns off from it resolves after Set to what it resolved to before;
   * except that all of an array is lost if the token is no index and no "-", and that nulls fill an array up to the
   * index set. The case that "-" stands where they part is AppendIsLast.
   */
  lemma {:induction false} SetIsLocal(v: Value, ts: seq<Token>, us: seq<Token>, k: nat, x: Value)
    requires forall t | t in ts :: t == TokenOf(t.name)
    requires k < |ts| && k < |us| && ts[..k] == us[..k] && Apart(ts[k], us[k])
    requires !(Reached(v, ts[..k]).Array? && IsDash(ts[k]))
    ensures Resolve(Set(v, ts, x), us) ==
            if ReplacesArray(Reached(v, ts[..k]), ts[k]) then None
            else if Resolve(v, us).Some? then Resolve(v, us)
            else if GrowsOver(v, ts, us, k) then Some(Null) else None
    decreases |ts|
  {
    hide Prepared, PlaceIn, Replace, Locate;
    var t := ts[0];
    assert t in ts;
    if k == 0 {
      assert ts[..0] == [];
      TurnsOff(v, ts, us, x);
    } else {
      assert us[0] == us[..k][0] == t && ts[..k][0] == t && ts[..k][1..] == ts[1..][..k - 1] && us[..k][1..] == us[1..][..k - 1];
      if v.Array? && IsDash(t) {
        DashIsNoIndex(v, t);
        DashIsLost(v, t, ts, x);
        DashLeadsNowhere(Set(v, ts, x), v, ts, us);
      } else {
        LocateMissing(v, t);
        var w := Prepared(v, t);
        var p := PlaceIn(w, t, false);
        var y := Set(Child(w, p), ts[1..], x);
        LocateReplaced(w, t, p, y);
        NullIsEmpty(us[1..]);
        NullIsEmpty(ts[1..][..k - 1]);
        SetIsLocal(Child(w, p), ts[1..], us[1..], k - 1, x);
      }
    }
  }

  lemma DashLeadsNowhere(w: Value, v: Value, ts: seq<Token>, us: seq<Token>)
    requires ts != [] && us != [] && us[0] == ts[0] && IsDash(ts[0]) && ts[0] == TokenOf(ts[0].name) && v.Array? && w.Array?
    ensures Resolve(w, us).None? && Resolve(v, us).None?
  {
    DashIsNoIndex(v, ts[0]);
    DashIsNoIndex(w, ts[0]);
  }

  lemma DashIsNoIndex(v: Value, t: Token)
    requires t == TokenOf(t.name) && v.Array? && IsDash(t)
    ensures Locate(v, t).Nowhere?
  {
    assert !IsDigit(MINUS) && !LooksLikeIndex([MINUS]);
  }

  /** Below a place that is there already, Set does what it would do to the value of that place alone. */
  lemma {:induction false} SetInside(v: Value, ts: seq<Token>, k: nat, x: Value)
    requires forall t | t in ts :: t == TokenOf(t.name)
    requires k < |ts| && Resolve(v, ts[..k]).Some?
    ensures Resolve(Set(v, ts, x), ts[..k]) == Some(Set(Resolve(v, ts[..k]).value, ts[k..], x))
    decreases |ts|
  {
    hide Prepared, PlaceIn, Replace, Locate;
    var t := ts[0];
    assert t in ts;
    if k == 0 {
      assert ts[..0] == [] && ts[0..] == ts;
    } else {
      assert ts[..k][0] == t && ts[..k][1..] == ts[1..][..k - 1] && ts[1..][k - 1..] == ts[k..];
      assert !(v.Array? && IsDash(t)) by {
        if v.Array? && IsDash(t) {
          DashIsNoIndex(v, t);
        }
      }
      LocateMissing(v, t);
      var w := Prepared(v, t);
      var p := PlaceIn(w, t, false);
      LocateReplaced(w, t, p, Set(Child(w, p), ts[1..], x));
      SetInside(Child(w, p), ts[1..], k - 1, x);
    }
  }

  /** "-" at an array: all elements keep their places and the new value comes behind the last of them. */
  lemma AppendIsLast(v: Value, ts: seq<Token>, k: nat, x: Value)
    requires forall t | t in ts :: t == TokenOf(t.name)
    requires k < |ts| && Resolve(v, ts[..k]).Some? && Resolve(v, ts[..k]).value.Array? && IsDash(ts[k])
    ensures Resolve(Set(v, ts, x), ts[..k]) == Some(Array(Resolve(v, ts[..k]).value.elements + [Set(Null, ts[k + 1..], x)]))
  {
    SetInside(v, ts, k, x);
    hide Resolve;
    var es := Resolve(v, ts[..k]).value.elements;
    assert ts[k..][1..] == ts[k + 1..];
    assert (es + [Null])[|es| := Set(Null, ts[k + 1..], x)] == es + [Set(Null, ts[k + 1..], x)];
  }

  /** A name that an object does not have: all members keep their places and the new one comes behind them. */
  lemma NewMemberIsLast(v: Value, ts: seq<Token>, k: nat, x: Value)
    requires forall t | t in ts :: t == TokenOf(t.name)
    requires k < |ts| && Resolve(v, ts[..k]).Some? && Resolve(v, ts[..k]).value.Object?
    requires forall m | m in Resolve(v, ts[..k]).value.members :: m.name != ts[k].name
    ensures Resolve(Set(v, ts, x), ts[..k]) ==
            Some(Object(Resolve(v, ts[..k]).value.members + [Member(ts[k].name, Set(Null, ts[k + 1..], x))]))
  {
    SetInside(v, ts, k, x);
    hide Resolve;
    var ms, t, y := Resolve(v, ts[..k]).value.members, ts[k], Set(Null, ts[k + 1..], x);
    assert forall i | 0 <= i < |ms| :: ms[i] in ms;
    FindAppended(ms, t.name, Null);
    assert ts[k..][0] == t && ts[k..][1..] == ts[k + 1..];
    assert (ms + [Member(t.name, Null)])[|ms| := Member(t.name, y)] == ms + [Member(t.name, y)];
  }

  // ---- decimal indices ----

  /** A canonical decimal below 2^32 is converted exactly. */
  lemma {:induction false} ConvertsDecimals(name: bytes, j: nat)
    requires j <= |name| && forall k | 0 <= k < |name| :: IsDigit(name[k])
    requires Decimal(name) < TWO32
    ensures Decimal(name[..j]) < TWO32 && Convert(name, j, Decimal(name[..j])) == Decimal(name)
    decreases |name| - j
  {
    DecimalGrows(name, j);
    if j == |name| {
      assert name[..j] == name;
    } else {
      hide Convert, Decimal;
      DecimalNext(name, j);
      DecimalGrows(name, j + 1);
      ConvertNext(name, j, Decimal(name[..j]));
      ConvertsDecimals(name, j + 1);
    }
  }

  lemma DecimalNext(name: bytes, j: nat)
    requires j < |name| && forall k | 0 <= k < |name| :: IsDigit(name[k])
    ensures Decimal(name[..j + 1]) == Decimal(name[..j]) * 10 + (name[j] - ZERO)
  {
    assert name[..j + 1][..j] == name[..j];
  }

  lemma ConvertNext(name: bytes, j: nat, n: nat)
    requires j < |name| && forall k | 0 <= k < |name| :: IsDigit(name[k])
    requires n * 10 + (name[j] - ZERO) < TWO32
    ensures Convert(name, j, n) == Convert(name, j + 1, n * 10 + (name[j] - ZERO))
  {
  }

  lemma {:induction false} DecimalGrows(name: bytes, j: nat)
    requires j <= |name| && forall k | 0 <= k < |name| :: IsDigit(name[k])
    ensures Decimal(name[..j]) <= Decimal(name)
    decreases |name| - j
  {
    if j == |name| {
      assert name[..j] == name;
    } else {
      DecimalNext(name, j);
      DecimalGrows(name, j + 1);
    }
  }

  /** The decimal text of an index is a token with that index. */
  lemma IndexTokens(n: nat)
    requires n < INVALID
    ensures IndexOf(Writer.Digits(n)) == n
  {
    var ds := Writer.Digits(n);
    RoundTrip.DigitsInverse(n);
    assert ds[..0] == [];
    ConvertsDecimals(ds, 0);
  }
}
