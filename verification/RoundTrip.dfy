/** What a writer puts, a reader takes back: text of a value, parsed and built, is the value. */
module RoundTrip {
  import opened Base
  import opened Json
  import opened Reader
  import opened Strings
  import AsciiWriter
  import Writer
  import Document
  import Encodings
  import IterativeReader

  // ---- positions in a text ----

  /** White space, then something that is neither white space nor a comment: Skip stops there. */
  lemma {:induction false} SkipOver(cfg: Config, t: bytes, p: nat, blank: bytes)
    requires At(t, p, blank) && forall k | 0 <= k < |blank| :: IsSpace(blank[k])
    requires var c := Peek(t, p + |blank|); !IsSpace(c) && c != SLASH
    ensures Skip(cfg, t, p) == Skipped(true, p + |blank|)
  {
    forall k | p <= k < p + |blank| ensures IsSpace(t[k]) {
      assert t[p..p + |blank|][k - p] == blank[k - p];
    }
    SkipSpacesOver(t, p, p + |blank|);
  }

  lemma {:induction false} SkipSpacesOver(t: bytes, p: nat, q: nat)
    requires p <= q <= |t| && forall k | p <= k < q :: IsSpace(t[k])
    requires !IsSpace(Peek(t, q))
    ensures SkipSpaces(t, p) == q
    decreases q - p
  {
    if p < q {
      SkipSpacesOver(t, p + 1, q);
    }
  }

  /** The same, with the text behind the white space named. */
  lemma SkipTo(cfg: Config, t: bytes, p: nat, blank: bytes, rest: bytes)
    requires At(t, p, blank + rest) && forall c | c in blank :: IsSpace(c)
    requires rest != [] && !IsSpace(rest[0]) && rest[0] != SLASH
    ensures Skip(cfg, t, p) == Skipped(true, p + |blank|)
    ensures At(t, p + |blank|, rest) && Peek(t, p + |blank|) == rest[0]
  {
    AtSplits(t, p, blank, rest);
    AtFirst(t, p + |blank|, rest);
    SkipOver(cfg, t, p, blank);
  }

  /** A comma or a colon, white space and the next value or name. */
  lemma AfterMark(cfg: Config, t: bytes, q: nat, mark: byte, blank: bytes, rest: bytes)
    requires mark == COMMA || mark == COLON
    requires At(t, q, [mark] + (blank + rest)) && forall c | c in blank :: IsSpace(c)
    requires rest != [] && !IsSpace(rest[0]) && rest[0] != SLASH
    ensures Skip(cfg, t, q) == Skipped(true, q) && Peek(t, q) == mark
    ensures Skip(cfg, t, q + 1) == Skipped(true, q + 1 + |blank|)
    ensures At(t, q + 1 + |blank|, rest) && Peek(t, q + 1 + |blank|) == rest[0]
  {
    hide Skip, At, Peek;
    assert [mark] + (blank + rest) == [] + ([mark] + (blank + rest));
    SkipTo(cfg, t, q, [], [mark] + (blank + rest));
    AtSplits(t, q, [mark], blank + rest);
    SkipTo(cfg, t, q + 1, blank, rest);
  }

  // ---- numbers ----

  lemma {:induction false} DigitsInverse(n: nat)
    ensures var ds := Writer.Digits(n);
            && (forall k | 0 <= k < |ds| :: IsDigit(ds[k]))
            && Decimal(ds) == n
            && (ds[0] == ZERO ==> |ds| == 1)
  {
    var ds := Writer.Digits(n);
    if n < 10 {
      assert ds[..0] == [];
      assert Decimal(ds[..0]) == 0;
    } else {
      DigitsInverse(n / 10);
      assert ds[..|ds| - 1] == Writer.Digits(n / 10);
    }
  }

  /** The callback the reader chooses for a number. */
  function ParseKind(n: int): IntKind {
    if n < 0 then (if -n <= TWO31 then Int else Int64) else if n < TWO32 then Uint else Uint64
  }

  lemma {:induction false} EndOfDigitsOver(t: bytes, p: nat, q: nat)
    requires p <= q <= |t| && (forall k | p <= k < q :: IsDigit(t[k])) && !IsDigit(Peek(t, q))
    ensures EndOfDigits(t, p) == q
    decreases q - p
  {
    if p < q {
      EndOfDigitsOver(t, p + 1, q);
    }
  }

  /** A character that could continue a number. */
  predicate NumberGoesOn(c: byte) {
    IsDigit(c) || c == DOT || c == 0x65 || c == 0x45
  }

  lemma IntegerPartInverse(t: bytes, a: nat, n: nat)
    requires At(t, a, Writer.Digits(n)) && !NumberGoesOn(Peek(t, a + |Writer.Digits(n)|))
    ensures IsDigit(Peek(t, a)) && EndOfInteger(t, a) == a + |Writer.Digits(n)| && t[a..EndOfInteger(t, a)] == Writer.Digits(n)
  {
    var ds := Writer.Digits(n);
    DigitsInverse(n);
    AtFirst(t, a, ds);
    var b := a + |ds|;
    forall k | a <= k < b ensures IsDigit(t[k]) {
      assert t[a..b][k - a] == ds[k - a];
    }
    if t[a] == ZERO {
    } else {
      EndOfDigitsOver(t, a, b);
    }
  }

  lemma NumberEndsHere(t: bytes, b: nat)
    requires !NumberGoesOn(Peek(t, b))
    ensures Fraction(t, b) == Span(true, b) && Exponent(t, b) == Span(true, b)
  {
  }

  lemma KindOfInteger(n: int)
    requires -TWO63 <= n < TWO64
    ensures IntegerKind(n < 0, if n < 0 then -n else n) == [IntegerEvent(ParseKind(n), n)]
  {
  }

  lemma NumberIsParsed(cfg: Config, t: bytes, p: nat, n: int, acc: seq<Event>, a: nat, b: nat)
    requires -TWO63 <= n < TWO64
    requires (Peek(t, p) == MINUS <==> n < 0) && a == (if n < 0 then p + 1 else p)
    requires IsDigit(Peek(t, a)) && EndOfInteger(t, a) == b && !NumberGoesOn(Peek(t, b))
    requires a <= b <= |t| && (forall k | 0 <= k < |t[a..b]| :: IsDigit(t[a..b][k]))
    requires Decimal(t[a..b]) == if n < 0 then -n else n
    ensures ParseNumber(cfg, t, p, acc) == Out(true, b, acc + [IntegerEvent(ParseKind(n), n)])
  {
    hide EndOfInteger, IntegerKind, Fraction, Exponent, Decimal, ParseKind, IsDigit, NumberGoesOn;
    NumberEndsHere(t, b);
    KindOfInteger(n);
  }

  lemma ScalarIsNumber(cfg: Config, t: bytes, p: nat, acc: seq<Event>)
    requires Peek(t, p) == MINUS || IsDigit(Peek(t, p))
    ensures ParseScalar(cfg, t, p, acc) == ParseNumber(cfg, t, p, acc)
  {
    hide ParseNumber;
  }

  lemma NumberInverse(cfg: Config, t: bytes, p: nat, n: int, acc: seq<Event>)
    requires -TWO63 <= n < TWO64
    requires At(t, p, Writer.IntegerText(n)) && !NumberGoesOn(Peek(t, p + |Writer.IntegerText(n)|))
    ensures ParseScalar(cfg, t, p, acc) == Out(true, p + |Writer.IntegerText(n)|, acc + [IntegerEvent(ParseKind(n), n)])
    ensures Peek(t, p) == MINUS || IsDigit(Peek(t, p))
  {
    hide EndOfInteger, ParseNumber, ParseScalar, ParseKind, NumberGoesOn, Decimal, Writer.Digits, At;
    var m := if n < 0 then -n else n;
    var a := if n < 0 then p + 1 else p;
    DigitsInverse(m);
    AtFirst(t, p, Writer.IntegerText(n));
    if n < 0 {
      AtSplits(t, p, [MINUS], Writer.Digits(m));
    }
    IntegerPartInverse(t, a, m);
    ScalarIsNumber(cfg, t, p, acc);
    NumberIsParsed(cfg, t, p, n, acc, a, EndOfInteger(t, a));
  }

  // ---- values ----

  /** What may follow a value in a text the writer puts. */
  predicate Ends(t: bytes, p: nat) {
    !NumberGoesOn(Peek(t, p))
  }

  lemma LayoutIsBlank(f: Writer.Format, inArray: bool, count: nat, depth: nat)
    requires Writer.ValidFormat(f)
    ensures forall c | c in Writer.Layout(f, inArray, count, depth) :: IsSpace(c)
    ensures forall c | c in Writer.CloseLayout(f, inArray, count, depth) :: IsSpace(c)
  {
    if f.Pretty? {
      assert forall c | c in Writer.Indent(f, depth) :: c == f.indentChar;
    }
  }

  /** A value's text starts with a character that is neither white space, nor a closing bracket, nor a comment. */
  lemma ValueStart(f: Writer.Format, v: Value, depth: nat)
    requires Storable(v) && Writer.Printable(f, v)
    ensures var r := Writer.Render(f, v, depth);
            r != [] && !IsSpace(r[0]) && r[0] != SLASH && r[0] != RBRACKET && r[0] != RBRACE
  {
    if v.Number? {
      DigitsInverse(if v.n < 0 then -v.n else v.n);
      assert Writer.IntegerText(v.n)[0] == MINUS || IsDigit(Writer.IntegerText(v.n)[0]);
    }
  }

  lemma {:induction false} ParsesValue(cfg: Config, f: Writer.Format, v: Value, depth: nat, t: bytes, p: nat, acc: seq<Event>)
    requires Writer.ValidFormat(f) && Storable(v) && Writer.Printable(f, v)
    requires At(t, p, Writer.Render(f, v, depth)) && Ends(t, p + |Writer.Render(f, v, depth)|)
    ensures ParseValue(cfg, t, p, acc) == Out(true, p + |Writer.Render(f, v, depth)|, acc + Events(v, ParseKind))
    decreases v, 3, 0
  {
    hide ParseScalar, ParseObject, ParseArray;
    AtFirst(t, p, Writer.Render(f, v, depth)) by { ValueStart(f, v, depth); }
    if v.Object? {
      ParsesObject(cfg, f, v, depth, t, p, acc);
    } else if v.Array? {
      ParsesArray(cfg, f, v, depth, t, p, acc);
    } else {
      ParsesScalar(cfg, f, v, depth, t, p, acc);
    }
  }

  lemma ParsesScalar(cfg: Config, f: Writer.Format, v: Value, depth: nat, t: bytes, p: nat, acc: seq<Event>)
    requires Storable(v) && Writer.Printable(f, v) && !v.Object? && !v.Array?
    requires At(t, p, Writer.Render(f, v, depth)) && Ends(t, p + |Writer.Render(f, v, depth)|)
    ensures ParseScalar(cfg, t, p, acc) == Out(true, p + |Writer.Render(f, v, depth)|, acc + Events(v, ParseKind))
    ensures !IsOpening(Peek(t, p))
  {
    AtFirst(t, p, Writer.Render(f, v, depth)) by { ValueStart(f, v, depth); }
    if v.Number? {
      NumberInverse(cfg, t, p, v.n, acc);
    } else if v.String? {
      AsciiWriter.TextInverse(t, p, f, v.s, acc, false);
    }
  }

  /** `rest` is what is left of an array's text behind its element k - 1. */
  function ArrayRest(f: Writer.Format, v: Value, k: nat, depth: nat): bytes
    requires v.Array? && k <= |v.elements|
  {
    Writer.RenderElements(f, v, k, depth + 1) + Writer.CloseLayout(f, true, |v.elements|, depth) + [RBRACKET]
  }

  lemma {:induction false} ParsesArray(cfg: Config, f: Writer.Format, v: Value, depth: nat, t: bytes, p: nat, acc: seq<Event>)
    requires Writer.ValidFormat(f) && Storable(v) && Writer.Printable(f, v) && v.Array?
    requires At(t, p, Writer.Render(f, v, depth))
    ensures Peek(t, p) == LBRACKET
    ensures ParseArray(cfg, t, p, acc) == Out(true, p + |Writer.Render(f, v, depth)|, acc + Events(v, ParseKind))
    decreases v, 2, 0
  {
    hide Skip, ParseElements, Writer.RenderElements, Writer.CloseLayout, Writer.Layout, ArrayRest, At, Peek, Writer.Render;
    var n := |v.elements|;
    var r := Writer.Render(f, v, depth);
    RenderedArray(f, v, depth);
    AtFirst(t, p, r);
    AtSplits(t, p, [LBRACKET], ArrayRest(f, v, 0, depth));
    if n == 0 {
      EmptyRest(cfg, f, v, depth, t, p + 1);
      assert acc + [StartArray] + [EndArray(0)] == acc + Events(v, ParseKind) by { assert ElementEvents(v, 0, ParseKind) == []; }
    } else {
      var lay := Writer.Layout(f, true, 0, depth + 1);
      var text := Writer.Render(f, v.elements[0], depth + 1);
      FirstElement(f, v, 0, depth);
      assert ArrayRest(f, v, 0, depth) == lay + (text + ArrayRest(f, v, 1, depth));
      ValueStart(f, v.elements[0], depth + 1);
      LayoutIsBlank(f, true, 0, depth + 1);
      SkipTo(cfg, t, p + 1, lay, text + ArrayRest(f, v, 1, depth));
      ParsesElements(cfg, f, v, 0, depth, t, p + 1 + |lay|, acc + [StartArray]);
      assert acc + [StartArray] + ElementEvents(v, 0, ParseKind) + [EndArray(n)] == acc + Events(v, ParseKind);
    }
  }

  lemma RenderedArray(f: Writer.Format, v: Value, depth: nat)
    requires v.Array?
    ensures Writer.Render(f, v, depth) == [LBRACKET] + ArrayRest(f, v, 0, depth)
  {
    hide Writer.RenderElements, Writer.CloseLayout;
  }

  lemma EmptyRest(cfg: Config, f: Writer.Format, v: Value, depth: nat, t: bytes, p: nat)
    requires v.Array? && v.elements == []
    requires At(t, p, ArrayRest(f, v, 0, depth))
    ensures |ArrayRest(f, v, 0, depth)| == 1
    ensures Skip(cfg, t, p) == Skipped(true, p) && Peek(t, p) == RBRACKET
  {
    assert ArrayRest(f, v, 0, depth) == [RBRACKET];
    AtFirst(t, p, [RBRACKET]);
    SkipOver(cfg, t, p, []);
  }

  lemma FirstElement(f: Writer.Format, v: Value, k: nat, depth: nat)
    requires v.Array? && k < |v.elements|
    ensures ArrayRest(f, v, k, depth) == Writer.Separator(true, k) + (Writer.Layout(f, true, k, depth + 1)
                                         + (Writer.Render(f, v.elements[k], depth + 1) + ArrayRest(f, v, k + 1, depth)))
  {
    hide Writer.Separator, Writer.Layout, Writer.Render, Writer.CloseLayout;
  }

  /** The reader's loop over elements, standing on element k. */
  lemma {:induction false} ParsesElements(cfg: Config, f: Writer.Format, v: Value, k: nat, depth: nat, t: bytes, p: nat, acc: seq<Event>)
    requires Writer.ValidFormat(f) && Storable(v) && Writer.Printable(f, v) && v.Array? && k < |v.elements|
    requires At(t, p, Writer.Render(f, v.elements[k], depth + 1) + ArrayRest(f, v, k + 1, depth))
    ensures ParseElements(cfg, t, p, k, acc) ==
            Out(true, p + |Writer.Render(f, v.elements[k], depth + 1)| + |ArrayRest(f, v, k + 1, depth)|,
                acc + ElementEvents(v, k, ParseKind) + [EndArray(|v.elements|)])
    decreases v, 1, 2 * (|v.elements| - k)
  {
    hide ParseValue, ElementEnd, ArrayRest, Writer.Render, Events;
    var e := v.elements[k];
    var text := Writer.Render(f, e, depth + 1);
    AtSplits(t, p, text, ArrayRest(f, v, k + 1, depth));
    var q := p + |text|;
    ElementRestEnds(f, v, k, depth, t, q);
    ParsesValue(cfg, f, e, depth + 1, t, p, acc);
    var o := Out(true, q, acc + Events(e, ParseKind));
    assert ParseValue(cfg, t, p, acc) == o;
    ParsesElementEnd(cfg, f, v, k, depth, t, o);
    assert acc + Events(e, ParseKind) + ElementEvents(v, k + 1, ParseKind) == acc + ElementEvents(v, k, ParseKind);
  }

  lemma ElementRestEnds(f: Writer.Format, v: Value, k: nat, depth: nat, t: bytes, q: nat)
    requires Writer.ValidFormat(f) && v.Array? && k < |v.elements| && At(t, q, ArrayRest(f, v, k + 1, depth))
    ensures Ends(t, q)
  {
    var rest := ArrayRest(f, v, k + 1, depth);
    AtFirst(t, q, rest);
    if k + 1 < |v.elements| {
      FirstElement(f, v, k + 1, depth);
    } else {
      var lay := Writer.CloseLayout(f, true, |v.elements|, depth);
      LayoutIsBlank(f, true, |v.elements|, depth);
      assert rest == lay + [RBRACKET];
      assert rest[0] in lay || rest[0] == RBRACKET;
    }
  }

  lemma LastArrayRest(f: Writer.Format, v: Value, depth: nat)
    requires v.Array?
    ensures ArrayRest(f, v, |v.elements|, depth) == Writer.CloseLayout(f, true, |v.elements|, depth) + [RBRACKET]
  {
    hide Writer.CloseLayout;
  }

  lemma {:induction false} ParsesElementEnd(cfg: Config, f: Writer.Format, v: Value, k: nat, depth: nat, t: bytes, o: Out)
    requires Writer.ValidFormat(f) && Storable(v) && Writer.Printable(f, v) && v.Array? && k < |v.elements|
    requires o.ok && At(t, o.pos, ArrayRest(f, v, k + 1, depth))
    ensures ElementEnd(cfg, t, o, k + 1) ==
            Out(true, o.pos + |ArrayRest(f, v, k + 1, depth)|, o.events + ElementEvents(v, k + 1, ParseKind) + [EndArray(|v.elements|)])
    decreases v, 1, 2 * (|v.elements| - k) - 1
  {
    hide Skip, ParseElements, Writer.Render, Writer.Layout, Writer.CloseLayout, Events, At, Peek, ArrayRest;
    var q := o.pos;
    var rest := ArrayRest(f, v, k + 1, depth);
    if k + 1 == |v.elements| {
      var lay := Writer.CloseLayout(f, true, |v.elements|, depth);
      LastArrayRest(f, v, depth);
      LayoutIsBlank(f, true, |v.elements|, depth);
      SkipTo(cfg, t, q, lay, [RBRACKET]);
      assert ElementEvents(v, k + 1, ParseKind) == [];
      assert o.events + [] == o.events;
    } else {
      FirstElement(f, v, k + 1, depth);
      var lay := Writer.Layout(f, true, k + 1, depth + 1);
      var text := Writer.Render(f, v.elements[k + 1], depth + 1);
      var tail := ArrayRest(f, v, k + 2, depth);
      ValueStart(f, v.elements[k + 1], depth + 1);
      LayoutIsBlank(f, true, k + 1, depth + 1);
      AfterMark(cfg, t, q, COMMA, lay, text + tail);
      ParsesElements(cfg, f, v, k + 1, depth, t, q + 1 + |lay|, o.events);
    }
  }

  /** What is left of an object's text behind its member k - 1. */
  function ObjectRest(f: Writer.Format, v: Value, k: nat, depth: nat): bytes
    requires v.Object? && k <= |v.members|
  {
    Writer.RenderMembers(f, v, k, depth + 1) + Writer.CloseLayout(f, false, 2 * |v.members|, depth) + [RBRACE]
  }

  lemma FirstMember(f: Writer.Format, v: Value, k: nat, depth: nat)
    requires v.Object? && k < |v.members|
    ensures ObjectRest(f, v, k, depth) == Writer.Separator(false, 2 * k) + (Writer.Layout(f, false, 2 * k, depth + 1)
                                          + (Writer.RenderMember(f, v, k, depth + 1) + ObjectRest(f, v, k + 1, depth)))
  {
    hide Writer.Separator, Writer.Layout, Writer.RenderMember, Writer.CloseLayout;
  }

  lemma RenderedObject(f: Writer.Format, v: Value, depth: nat)
    requires v.Object?
    ensures Writer.Render(f, v, depth) == [LBRACE] + ObjectRest(f, v, 0, depth)
  {
    hide Writer.RenderMembers, Writer.CloseLayout;
  }

  lemma EmptyObjectRest(cfg: Config, f: Writer.Format, v: Value, depth: nat, t: bytes, p: nat)
    requires v.Object? && v.members == []
    requires At(t, p, ObjectRest(f, v, 0, depth))
    ensures |ObjectRest(f, v, 0, depth)| == 1
    ensures Skip(cfg, t, p) == Skipped(true, p) && Peek(t, p) == RBRACE
  {
    assert ObjectRest(f, v, 0, depth) == [RBRACE];
    AtFirst(t, p, [RBRACE]);
    SkipOver(cfg, t, p, []);
  }

  lemma MemberStart(f: Writer.Format, v: Value, k: nat, depth: nat)
    requires v.Object? && k < |v.members| && Writer.CanWrite(f, v.members[k].name)
    ensures var r := Writer.RenderMember(f, v, k, depth); r != [] && r[0] == QUOTE
  {
  }

  lemma {:induction false} ParsesObject(cfg: Config, f: Writer.Format, v: Value, depth: nat, t: bytes, p: nat, acc: seq<Event>)
    requires Writer.ValidFormat(f) && Storable(v) && Writer.Printable(f, v) && v.Object?
    requires At(t, p, Writer.Render(f, v, depth))
    ensures Peek(t, p) == LBRACE
    ensures ParseObject(cfg, t, p, acc) == Out(true, p + |Writer.Render(f, v, depth)|, acc + Events(v, ParseKind))
    decreases v, 2, 0
  {
    hide Skip, ParseMembers, Writer.RenderMembers, Writer.CloseLayout, Writer.Layout, Writer.RenderMember, ObjectRest, At, Peek, Writer.Render;
    var n := |v.members|;
    var r := Writer.Render(f, v, depth);
    RenderedObject(f, v, depth);
    AtFirst(t, p, r);
    AtSplits(t, p, [LBRACE], ObjectRest(f, v, 0, depth));
    if n == 0 {
      EmptyObjectRest(cfg, f, v, depth, t, p + 1);
      assert acc + [StartObject] + [EndObject(0)] == acc + Events(v, ParseKind) by { assert MemberEvents(v, 0, ParseKind) == []; }
    } else {
      var lay := Writer.Layout(f, false, 0, depth + 1);
      var text := Writer.RenderMember(f, v, 0, depth + 1);
      FirstMember(f, v, 0, depth);
      assert ObjectRest(f, v, 0, depth) == lay + (text + ObjectRest(f, v, 1, depth));
      MemberStart(f, v, 0, depth + 1);
      LayoutIsBlank(f, false, 0, depth + 1);
      SkipTo(cfg, t, p + 1, lay, text + ObjectRest(f, v, 1, depth));
      ParsesMembers(cfg, f, v, 0, depth, t, p + 1 + |lay|, acc + [StartObject]);
      assert acc + [StartObject] + MemberEvents(v, 0, ParseKind) + [EndObject(n)] == acc + Events(v, ParseKind);
    }
  }

  /** The reader's loop over members, standing on member k. */
  lemma {:induction false} ParsesMembers(cfg: Config, f: Writer.Format, v: Value, k: nat, depth: nat, t: bytes, p: nat, acc: seq<Event>)
    requires Writer.ValidFormat(f) && Storable(v) && Writer.Printable(f, v) && v.Object? && k < |v.members|
    requires At(t, p, Writer.RenderMember(f, v, k, depth + 1) + ObjectRest(f, v, k + 1, depth))
    ensures ParseMembers(cfg, t, p, k, acc) ==
            Out(true, p + |Writer.RenderMember(f, v, k, depth + 1)| + |ObjectRest(f, v, k + 1, depth)|,
                acc + MemberEvents(v, k, ParseKind) + [EndObject(|v.members|)])
    decreases v, 1, 2 * (|v.members| - k)
  {
    hide ParseValue, MemberEnd, ObjectRest, Writer.Render, Writer.RenderMember, Writer.Layout, Writer.TextOf, Writer.CanWrite, Skip, ParseString, Events, At, Peek;
    var m := v.members[k];
    var name := Writer.TextOf(f, m.name);
    var lay := Writer.Layout(f, false, 2 * k + 1, depth + 1);
    var text := Writer.Render(f, m.value, depth + 1);
    var rest := ObjectRest(f, v, k + 1, depth);
    MemberText(f, v, k, depth);
    AtSplits(t, p, name, [COLON] + (lay + (text + rest)));
    AsciiWriter.TextInverse(t, p, f, m.name, acc, true);
    var q := p + |name|;
    ValueStart(f, m.value, depth + 1);
    LayoutIsBlank(f, false, 2 * k + 1, depth + 1);
    AfterMark(cfg, t, q, COLON, lay, text + rest);
    var q2 := q + 1 + |lay|;
    AtSplits(t, q2, text, rest);
    MemberRestEnds(f, v, k, depth, t, q2 + |text|);
    assert m in v.members;
    ParsesValue(cfg, f, m.value, depth + 1, t, q2, acc + [Key(m.name)]);
    var o := Out(true, q2 + |text|, acc + [Key(m.name)] + Events(m.value, ParseKind));
    ParsesMemberEnd(cfg, f, v, k, depth, t, o);
    assert o.events + MemberEvents(v, k + 1, ParseKind) == acc + MemberEvents(v, k, ParseKind);
  }

  lemma MemberText(f: Writer.Format, v: Value, k: nat, depth: nat)
    requires v.Object? && k < |v.members|
    ensures var m := v.members[k];
            var rest := ObjectRest(f, v, k + 1, depth);
            Writer.RenderMember(f, v, k, depth + 1) + rest ==
            Writer.TextOf(f, m.name) + ([COLON] + (Writer.Layout(f, false, 2 * k + 1, depth + 1) + (Writer.Render(f, m.value, depth + 1) + rest)))
  {
    hide Writer.TextOf, Writer.CanWrite, Writer.Layout, Writer.Render, ObjectRest;
    assert Writer.Separator(false, 2 * k + 1) == [COLON];
  }

  lemma MemberRestEnds(f: Writer.Format, v: Value, k: nat, depth: nat, t: bytes, q: nat)
    requires Writer.ValidFormat(f) && v.Object? && k < |v.members| && At(t, q, ObjectRest(f, v, k + 1, depth))
    ensures Ends(t, q)
  {
    hide At, Peek, ObjectRest, Writer.Layout, Writer.CloseLayout, Writer.RenderMember;
    var rest := ObjectRest(f, v, k + 1, depth);
    if k + 1 < |v.members| {
      FirstMember(f, v, k + 1, depth);
      AtFirst(t, q, rest);
    } else {
      var lay := Writer.CloseLayout(f, false, 2 * |v.members|, depth);
      LayoutIsBlank(f, false, 2 * |v.members|, depth);
      LastObjectRest(f, v, depth);
      AtFirst(t, q, rest);
      assert rest[0] in lay || rest[0] == RBRACE;
    }
  }

  lemma LastObjectRest(f: Writer.Format, v: Value, depth: nat)
    requires v.Object?
    ensures ObjectRest(f, v, |v.members|, depth) == Writer.CloseLayout(f, false, 2 * |v.members|, depth) + [RBRACE]
  {
    hide Writer.CloseLayout;
  }

  lemma {:induction false} ParsesMemberEnd(cfg: Config, f: Writer.Format, v: Value, k: nat, depth: nat, t: bytes, o: Out)
    requires Writer.ValidFormat(f) && Storable(v) && Writer.Printable(f, v) && v.Object? && k < |v.members|
    requires o.ok && At(t, o.pos, ObjectRest(f, v, k + 1, depth))
    ensures MemberEnd(cfg, t, o, k + 1) ==
            Out(true, o.pos + |ObjectRest(f, v, k + 1, depth)|, o.events + MemberEvents(v, k + 1, ParseKind) + [EndObject(|v.members|)])
    decreases v, 1, 2 * (|v.members| - k) - 1
  {
    hide Skip, ParseMembers, Writer.RenderMember, Writer.Layout, Writer.CloseLayout, Events, At, Peek, ObjectRest;
    var q := o.pos;
    var rest := ObjectRest(f, v, k + 1, depth);
    if k + 1 == |v.members| {
      var lay := Writer.CloseLayout(f, false, 2 * |v.members|, depth);
      LastObjectRest(f, v, depth);
      LayoutIsBlank(f, false, 2 * |v.members|, depth);
      SkipTo(cfg, t, q, lay, [RBRACE]);
      assert MemberEvents(v, k + 1, ParseKind) == [];
      assert o.events + [] == o.events;
    } else {
      FirstMember(f, v, k + 1, depth);
      var lay := Writer.Layout(f, false, 2 * (k + 1), depth + 1);
      var text := Writer.RenderMember(f, v, k + 1, depth + 1);
      var tail := ObjectRest(f, v, k + 2, depth);
      MemberStart(f, v, k + 1, depth + 1);
      LayoutIsBlank(f, false, 2 * (k + 1), depth + 1);
      AfterMark(cfg, t, q, COMMA, lay, text + tail);
      ParsesMembers(cfg, f, v, k + 1, depth, t, q + 1 + |lay|, o.events);
    }
  }

  // ---- documents ----

  lemma ParsesDocument(cfg: Config, f: Writer.Format, v: Value)
    requires Writer.ValidFormat(f) && Storable(v) && Writer.Printable(f, v)
    ensures ParseDocument(cfg, Writer.Render(f, v, 0)) == Out(true, |Writer.Render(f, v, 0)|, Events(v, ParseKind))
  {
    hide Skip, ParseValue, Writer.Render, Events;
    var t := Writer.Render(f, v, 0);
    assert t[0..|t|] == t;
    ValueStart(f, v, 0);
    SkipOver(cfg, t, 0, []);
    ParsesValue(cfg, f, v, 0, t, 0, []);
    SkipOver(cfg, t, |t|, []);
    assert [] + Events(v, ParseKind) == Events(v, ParseKind);
    assert t[0] != 0 by { NotNul(f, v); }
  }

  lemma NotNul(f: Writer.Format, v: Value)
    requires Storable(v) && Writer.Printable(f, v)
    ensures Writer.Render(f, v, 0) != [] && Writer.Render(f, v, 0)[0] != 0
  {
    if v.Number? {
      DigitsInverse(if v.n < 0 then -v.n else v.n);
      assert Writer.IntegerText(v.n)[0] == MINUS || IsDigit(Writer.IntegerText(v.n)[0]);
    }
  }

  // ---- which trees can be written ----

  /** Every string and every name in the tree is well-formed UTF-8. */
  predicate Utf8Tree(v: Value) {
    match v
    case String(s) => Encodings.WellFormedFrom(s, 0)
    case Array(es) => forall e | e in es :: Utf8Tree(e)
    case Object(ms) => forall m | m in ms :: Encodings.WellFormedFrom(m.name, 0) && Utf8Tree(m.value)
    case _ => true
  }

  lemma CanWriteExactly(f: Writer.Format, s: bytes)
    ensures Writer.CanWrite(f, s) <==> f.target.Utf8? || Encodings.WellFormedFrom(s, 0)
  {
    AsciiWriter.WrittenIffWellFormed(s, 0);
  }

  /** Everything can be written in UTF-8, and exactly the well-formed trees in ASCII. */
  lemma {:induction false} PrintableExactly(f: Writer.Format, v: Value)
    ensures Writer.Printable(f, v) <==> f.target.Utf8? || Utf8Tree(v)
    decreases v
  {
    hide Writer.CanWrite, Encodings.WellFormedFrom;
    match v
    case String(s) => CanWriteExactly(f, s);
    case Array(es) =>
      forall e | e in es ensures Writer.Printable(f, e) <==> f.target.Utf8? || Utf8Tree(e) {
        PrintableExactly(f, e);
      }
    case Object(ms) =>
      forall m | m in ms
        ensures Writer.CanWrite(f, m.name) && Writer.Printable(f, m.value)
                <==> f.target.Utf8? || (Encodings.WellFormedFrom(m.name, 0) && Utf8Tree(m.value))
      {
        CanWriteExactly(f, m.name);
        PrintableExactly(f, m.value);
      }
    case _ =>
  }

  // ---- text for an ASCII target ----

  predicate IsAscii(t: bytes) { forall c | c in t :: c < 0x80 }

  lemma DigitsAreAscii(n: int)
    ensures IsAscii(Writer.IntegerText(n))
  {
    DigitsInverse(if n < 0 then -n else n);
  }

  lemma StringIsAscii(f: Writer.Format, s: bytes)
    requires f.target.Ascii? && Writer.CanWrite(f, s)
    ensures IsAscii(Writer.TextOf(f, s))
  {
    AsciiWriter.StaysAscii(s, 0);
  }

  lemma LayoutIsAscii(f: Writer.Format, inArray: bool, count: nat, depth: nat)
    requires Writer.ValidFormat(f)
    ensures IsAscii(Writer.Layout(f, inArray, count, depth)) && IsAscii(Writer.CloseLayout(f, inArray, count, depth))
    ensures IsAscii(Writer.Separator(inArray, count))
  {
    LayoutIsBlank(f, inArray, count, depth);
  }

  lemma {:induction false} TextIsAscii(f: Writer.Format, v: Value, depth: nat)
    requires Writer.ValidFormat(f) && Storable(v) && Writer.Printable(f, v) && f.target.Ascii?
    ensures IsAscii(Writer.Render(f, v, depth))
    decreases v, 1, 0
  {
    hide Writer.TextOf, Writer.IntegerText, Writer.CloseLayout, Writer.CanWrite;
    match v
    case Null =>
    case Bool(_) =>
    case Number(n) => DigitsAreAscii(n);
    case String(s) => StringIsAscii(f, s);
    case Array(es) =>
      ElementsAreAscii(f, v, 0, depth + 1);
      LayoutIsAscii(f, true, |es|, depth);
    case Object(ms) =>
      MembersAreAscii(f, v, 0, depth + 1);
      LayoutIsAscii(f, false, 2 * |ms|, depth);
  }

  lemma {:induction false} ElementsAreAscii(f: Writer.Format, v: Value, k: nat, depth: nat)
    requires Writer.ValidFormat(f) && Storable(v) && Writer.Printable(f, v) && f.target.Ascii? && v.Array? && k <= |v.elements|
    ensures IsAscii(Writer.RenderElements(f, v, k, depth))
    decreases v, 0, |v.elements| - k
  {
    hide Writer.Layout, Writer.Separator, Writer.Render;
    if k < |v.elements| {
      LayoutIsAscii(f, true, k, depth);
      TextIsAscii(f, v.elements[k], depth);
      ElementsAreAscii(f, v, k + 1, depth);
    }
  }

  lemma {:induction false} MembersAreAscii(f: Writer.Format, v: Value, k: nat, depth: nat)
    requires Writer.ValidFormat(f) && Storable(v) && Writer.Printable(f, v) && f.target.Ascii? && v.Object? && k <= |v.members|
    ensures IsAscii(Writer.RenderMembers(f, v, k, depth))
    decreases v, 0, |v.members| - k
  {
    hide Writer.Layout, Writer.Separator, Writer.Render, Writer.TextOf, Writer.CanWrite;
    if k < |v.members| {
      var m := v.members[k];
      assert m in v.members;
      LayoutIsAscii(f, false, 2 * k, depth);
      LayoutIsAscii(f, false, 2 * k + 1, depth);
      StringIsAscii(f, m.name);
      TextIsAscii(f, m.value, depth);
      MembersAreAscii(f, v, k + 1, depth);
    }
  }

  // ---- there and back ----

  /**
   * For every double-free tree, format and setting of the flags: writing succeeds always in UTF-8, and in ASCII exactly
   * if all strings are well-formed; then both parsers accept the text and build the tree again, alone on the stack, and
   * text for ASCII is ASCII.
   */
  lemma WriteThenReadIsIdentity(cfg: Config, f: Writer.Format, v: Value)
    requires Writer.ValidFormat(f) && Storable(v)
    ensures var w := Writer.Feed(f, Writer.EMPTY, Events(v, Document.AcceptKind));
            && (w.Some? <==> f.target.Utf8? || Utf8Tree(v))
            && (w.Some? ==>
                  var r := ParseDocument(cfg, w.value.out);
                  var i := IterativeReader.IterativeParse(cfg, w.value.out);
                  && w.value.levels == []
                  && r.ok && Document.Build([], r.events) == Some([v])
                  && i.ok && Document.Build([], i.events) == Some([v])
                  && (f.target.Ascii? ==> IsAscii(w.value.out)))
  {
    hide Writer.Feed, Writer.Printable, Utf8Tree, ParseDocument, IterativeReader.IterativeParse, Document.Build, Writer.Render;
    PrintableExactly(f, v);
    Writer.WritesExactly(f, v, Document.AcceptKind);
    if Writer.Printable(f, v) {
      Writer.WritesDocument(f, v, Document.AcceptKind);
      ParsesDocument(cfg, f, v);
      IterativeReader.IterativeIsRecursive(cfg, Writer.Render(f, v, 0));
      Document.BuildsValue([], v, ParseKind);
      assert [] + [v] == [v];
      if f.target.Ascii? {
        TextIsAscii(f, v, 0);
      }
    }
  }
}
