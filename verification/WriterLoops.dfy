/** Writer and PrettyWriter as objects, the document as a handler, and Accept, which drives either. */
module WriterLoops {
  import opened Base
  import opened Json
  import W = Writer
  import AsciiWriter
  import Document

  class GenericWriter {
    const format: W.Format
    var out: bytes
    var levels: seq<W.Level>
    var hasRoot: bool

    constructor (format: W.Format)
      ensures this.format == format && State() == W.EMPTY
    {
      this.format, out, levels, hasRoot := format, [], [], false;
    }

    ghost function State(): W.State
      reads this
    {
      W.State(out, levels, hasRoot)
    }

    /** The assertions of the call for `e` hold. */
    ghost predicate Accepts(e: Event)
      reads this
    {
      W.Step(format, State(), e).Some?
    }

    method Prefix(isString: bool)
      requires W.Prefix(format, State(), isString).Some?
      modifies this
      ensures Some(State()) == W.Prefix(format, old(State()), isString)
    {
      if levels == [] {
        hasRoot := true;
        return;
      }
      var top := |levels| - 1;
      var level := levels[top];
      if level.valueCount > 0 {
        if level.inArray {
          out := out + [COMMA];
        } else {
          out := out + [if level.valueCount % 2 == 0 then COMMA else COLON];
        }
      }
      if format.Pretty? {
        if level.inArray {
          if !format.singleLineArrays {
            out := out + [LF];
            WriteIndent();
          } else if level.valueCount > 0 {
            out := out + [SPACE];
          }
        } else if level.valueCount % 2 == 0 {
          out := out + [LF];
          WriteIndent();
        } else {
          out := out + [SPACE];
        }
      }
      levels := levels[..top] + [level.(valueCount := level.valueCount + 1)];
      assert out == old(out) + W.Separator(level.inArray, level.valueCount) + W.Layout(format, level.inArray, level.valueCount, |levels|);
    }

    method WriteIndent()
      requires format.Pretty?
      modifies this`out
      ensures out == old(out) + W.Indent(format, |levels|)
    {
      var count := |levels| * format.indentCount;
      var k := 0;
      assert out == old(out) + seq(0, _ => format.indentChar);
      while k < count
        invariant k <= count && out == old(out) + seq(k, _ => format.indentChar)
      {
        out := out + [format.indentChar];
        k := k + 1;
      }
    }

    /** One round of the loop of WriteString. */
    method WriteByte(c: byte)
      modifies this`out
      ensures out == old(out) + W.EscapeByte(c)
    {
      if c == QUOTE || c == BACKSLASH {
        out := out + [BACKSLASH] + [c];
      } else if c < 0x20 {
        var e: byte :=
          if c == 0x08 then 0x62 else if c == 0x09 then 0x74 else if c == 0x0A then 0x6E
          else if c == 0x0C then 0x66 else if c == 0x0D then 0x72 else 0x75;
        out := out + [BACKSLASH] + [e];
        if e == 0x75 {
          out := out + [ZERO] + [ZERO] + [W.HexDigit(c / 16)] + [W.HexDigit(c % 16)];
        }
      } else {
        out := out + [c];
      }
    }

    /** False, with part of the text put, where a string cannot be decoded. */
    method WriteString(s: bytes) returns (ok: bool)
      modifies this`out
      ensures ok <==> W.CanWrite(format, s)
      ensures ok ==> out == old(out) + W.TextOf(format, s)
    {
      if format.target.Utf8? {
        WriteQuoted(s);
        ok := true;
      } else {
        var text;
        ok, text := AsciiWriter.WriteString(s);
        AsciiWriter.WrittenIffWellFormed(s, 0);
        out := out + text;
      }
    }

    /** The loop for a Unicode target. */
    method WriteQuoted(s: bytes)
      modifies this`out
      ensures out == old(out) + W.Quoted(s)
    {
      hide W.EscapeByte;
      out := out + [QUOTE];
      var k := 0;
      assert s[0..] == s;
      while k < |s|
        invariant k <= |s| && out + W.Escaped(s[k..]) == old(out) + [QUOTE] + W.Escaped(s)
      {
        assert s[k..][1..] == s[k + 1..];
        ghost var before := out;
        WriteByte(s[k]);
        assert before + (W.EscapeByte(s[k]) + W.Escaped(s[k + 1..])) == out + W.Escaped(s[k + 1..]);
        k := k + 1;
      }
      assert W.Escaped(s[k..]) == [] && out + [] == out;
      out := out + [QUOTE];
      assert out == old(out) + [QUOTE] + W.Escaped(s) + [QUOTE];
    }

    /** Null, Bool, the four integers, Double, String and Key. */
    method Scalar(e: Event) returns (ok: bool)
      requires W.IsScalarEvent(e) && W.Prefix(format, State(), e.StringEvent? || e.Key?).Some?
      modifies this
      ensures ok <==> W.CanPut(format, e)
      ensures ok ==> Some(State()) == W.Step(format, old(State()), e)
    {
      hide W.TextOf, W.CanWrite;
      Prefix(e.StringEvent? || e.Key?);
      ok := true;
      if e.StringEvent? {
        ok := WriteString(e.s);
      } else if e.Key? {
        ok := WriteString(e.name);
      } else {
        out := out + W.ScalarText(format, e);
      }
    }

    method Start(inArray: bool)
      requires Accepts(if inArray then StartArray else StartObject)
      modifies this
      ensures Some(State()) == W.Step(format, old(State()), if inArray then StartArray else StartObject)
    {
      Prefix(false);
      levels := levels + [W.Level(0, inArray)];
      out := out + [if inArray then LBRACKET else LBRACE];
    }

    method End(inArray: bool, count: nat)
      requires Accepts(if inArray then EndArray(count) else EndObject(count))
      modifies this
      ensures Some(State()) == W.Step(format, old(State()), if inArray then EndArray(count) else EndObject(count))
    {
      var top := |levels| - 1;
      var empty := levels[top].valueCount == 0;
      levels := levels[..top];
      if format.Pretty? && !empty && !(inArray && format.singleLineArrays) {
        out := out + [LF];
        WriteIndent();
      }
      out := out + [if inArray then RBRACKET else RBRACE];
      assert out == old(out) + W.CloseLayout(format, inArray, old(levels)[top].valueCount, top) + [if inArray then RBRACKET else RBRACE];
    }
  }

  /** Accept of a tree into a writer: true exactly if all its strings can be written, and then its events were taken. */
  method Accept(v: Value, w: GenericWriter) returns (ok: bool)
    requires W.AwaitsValue(w.State())
    modifies w
    ensures ok <==> W.Printable(w.format, v)
    ensures ok ==> Some(w.State()) == W.Feed(w.format, old(w.State()), Events(v, Document.AcceptKind))
    decreases v, 1
  {
    match v
    case Object(_) => ok := AcceptObject(v, w);
    case Array(_) => ok := AcceptArray(v, w);
    case _ =>
      ghost var f, start := w.format, w.State();
      W.FeedOne(f, start, Events(v, Document.AcceptKind)[0]);
      W.PrefixOfValue(f, start, true);
      ok := w.Scalar(Events(v, Document.AcceptKind)[0]);
  }

  method AcceptObject(v: Value, w: GenericWriter) returns (ok: bool)
    requires v.Object? && W.AwaitsValue(w.State())
    modifies w
    ensures ok <==> W.Printable(w.format, v)
    ensures ok ==> Some(w.State()) == W.Feed(w.format, old(w.State()), Events(v, Document.AcceptKind))
    decreases v, 0
  {
    hide W.Step, W.Feed, W.CanWrite, W.Prefix, Events, MemberEvents;
    var ms := v.members;
    ghost var kind := Document.AcceptKind;
    ghost var f, start := w.format, w.State();
    OpenStep(f, start, false);
    ghost var base := W.Prefix(f, start, false).value.levels;
    ObjectEvents(v, kind);
    W.FeedBracketed(f, start, StartObject, MemberEvents(v, 0, kind), EndObject(|ms|));
    w.Start(false);
    ghost var inside := W.Feed(f, w.State(), MemberEvents(v, 0, kind));
    var k := 0;
    while k < |ms|
      invariant k <= |ms| && inside == W.Feed(f, w.State(), MemberEvents(v, k, kind))
      invariant w.State().levels == base + [W.Level(2 * k, false)]
      invariant forall j | 0 <= j < k :: W.CanWrite(f, ms[j].name) && W.Printable(f, ms[j].value)
    {
      assert ms[k] in ms;
      MemberFeeds(f, w.State(), base, v, k, kind);
      ok := w.Scalar(Key(ms[k].name));
      if !ok {
        return false;
      }
      ok := Accept(ms[k].value, w);
      if !ok {
        return false;
      }
      k := k + 1;
    }
    NoMembersLeft(f, w.State(), v, kind);
    CloseStep(f, w.State(), base, 2 * k, false);
    w.End(false, |ms|);
    ok := true;
  }

  method AcceptArray(v: Value, w: GenericWriter) returns (ok: bool)
    requires v.Array? && W.AwaitsValue(w.State())
    modifies w
    ensures ok <==> W.Printable(w.format, v)
    ensures ok ==> Some(w.State()) == W.Feed(w.format, old(w.State()), Events(v, Document.AcceptKind))
    decreases v, 0
  {
    hide W.Step, W.Feed, W.CanWrite, W.Prefix, Events, ElementEvents;
    var es := v.elements;
    ghost var kind := Document.AcceptKind;
    ghost var f, start := w.format, w.State();
    OpenStep(f, start, true);
    ghost var base := W.Prefix(f, start, false).value.levels;
    ArrayEvents(v, kind);
    W.FeedBracketed(f, start, StartArray, ElementEvents(v, 0, kind), EndArray(|es|));
    w.Start(true);
    ghost var inside := W.Feed(f, w.State(), ElementEvents(v, 0, kind));
    var k := 0;
    while k < |es|
      invariant k <= |es| && inside == W.Feed(f, w.State(), ElementEvents(v, k, kind))
      invariant w.State().levels == base + [W.Level(k, true)]
      invariant forall j | 0 <= j < k :: W.Printable(f, es[j])
    {
      assert es[k] in es;
      ElementFeeds(f, w.State(), base, v, k, kind);
      ok := Accept(es[k], w);
      if !ok {
        return false;
      }
      k := k + 1;
    }
    NoElementsLeft(f, w.State(), v, kind);
    CloseStep(f, w.State(), base, k, true);
    w.End(true, |es|);
    ok := true;
  }

  lemma ObjectEvents(v: Value, kind: int -> IntKind)
    requires v.Object?
    ensures Events(v, kind) == [StartObject] + MemberEvents(v, 0, kind) + [EndObject(|v.members|)]
  {
  }

  lemma ArrayEvents(v: Value, kind: int -> IntKind)
    requires v.Array?
    ensures Events(v, kind) == [StartArray] + ElementEvents(v, 0, kind) + [EndArray(|v.elements|)]
  {
  }

  lemma OpenStep(f: W.Format, w: W.State, inArray: bool)
    requires W.AwaitsValue(w)
    ensures var r := W.Step(f, w, if inArray then StartArray else StartObject);
            && r.Some? && W.Prefix(f, w, false).Some?
            && r.value.levels == W.Prefix(f, w, false).value.levels + [W.Level(0, inArray)]
  {
    W.PrefixOfValue(f, w, false);
  }

  lemma CloseStep(f: W.Format, w: W.State, base: seq<W.Level>, count: nat, inArray: bool)
    requires w.levels == base + [W.Level(count, inArray)] && (inArray || count % 2 == 0)
    ensures forall n: nat :: W.Step(f, w, if inArray then EndArray(n) else EndObject(n)).Some?
  {
  }

  /** What is left to feed, before and behind one member: its name, then its value. */
  lemma MemberFeeds(f: W.Format, w: W.State, base: seq<W.Level>, v: Value, k: nat, kind: int -> IntKind)
    requires v.Object? && k < |v.members| && w.levels == base + [W.Level(2 * k, false)]
    ensures var m := v.members[k];
            && W.Prefix(f, w, true).Some?
            && (W.CanWrite(f, m.name) ==>
                  var named := W.Step(f, w, Key(m.name));
                  && named.Some? && W.AwaitsValue(named.value)
                  && (W.Printable(f, m.value) ==>
                        var r := W.Feed(f, named.value, Events(m.value, kind));
                        && r.Some? && r.value.levels == base + [W.Level(2 * k + 2, false)]
                        && W.Feed(f, w, MemberEvents(v, k, kind)) == W.Feed(f, r.value, MemberEvents(v, k + 1, kind))))
  {
    hide W.CanWrite, W.Feed, W.Printable, W.Layout, W.Separator, W.TextOf, Events;
    var m := v.members[k];
    if W.CanWrite(f, m.name) {
      W.WritesKey(f, w, k, m.name);
      W.FeedOne(f, w, Key(m.name));
      var named := W.Step(f, w, Key(m.name)).value;
      if W.Printable(f, m.value) {
        LevelCounts(f, named, base, W.Level(2 * k + 1, false), m.value, kind);
        W.FeedSplits(f, w, [Key(m.name)] + Events(m.value, kind), MemberEvents(v, k + 1, kind));
        W.FeedSplits(f, w, [Key(m.name)], Events(m.value, kind));
      }
    }
  }

  lemma ElementFeeds(f: W.Format, w: W.State, base: seq<W.Level>, v: Value, k: nat, kind: int -> IntKind)
    requires v.Array? && k < |v.elements| && w.levels == base + [W.Level(k, true)]
    ensures W.AwaitsValue(w)
    ensures W.Printable(f, v.elements[k]) ==>
              var r := W.Feed(f, w, Events(v.elements[k], kind));
              && r.Some? && r.value.levels == base + [W.Level(k + 1, true)]
              && W.Feed(f, w, ElementEvents(v, k, kind)) == W.Feed(f, r.value, ElementEvents(v, k + 1, kind))
  {
    hide W.Feed, W.Printable, Events;
    if W.Printable(f, v.elements[k]) {
      LevelCounts(f, w, base, W.Level(k, true), v.elements[k], kind);
      W.FeedSplits(f, w, Events(v.elements[k], kind), ElementEvents(v, k + 1, kind));
    }
  }

  /** A whole value counts once in the level around it. */
  lemma LevelCounts(f: W.Format, w: W.State, base: seq<W.Level>, l: W.Level, v: Value, kind: int -> IntKind)
    requires w.levels == base + [l] && W.AwaitsValue(w) && W.Printable(f, v)
    ensures var r := W.Feed(f, w, Events(v, kind));
            r.Some? && r.value.levels == base + [l.(valueCount := l.valueCount + 1)]
  {
    hide W.Feed, W.Printable, Events, W.Render, W.Written;
    W.WritesValue(f, w, v, kind);
    W.PrefixInLevel(f, w, l);
    assert w.levels[..|w.levels| - 1] == base;
  }

  lemma NoMembersLeft(f: W.Format, w: W.State, v: Value, kind: int -> IntKind)
    requires v.Object?
    ensures W.Feed(f, w, MemberEvents(v, |v.members|, kind)) == Some(w)
  {
  }

  lemma NoElementsLeft(f: W.Format, w: W.State, v: Value, kind: int -> IntKind)
    requires v.Array?
    ensures W.Feed(f, w, ElementEvents(v, |v.elements|, kind)) == Some(w)
  {
  }

  lemma PairsFrom(vs: seq<Value>, k: nat)
    requires 2 * k + 1 < |vs| && Document.Pairs(vs[2 * k..]).Some?
    ensures vs[2 * k].String? && Document.Pairs(vs[2 * (k + 1)..]).Some?
    ensures Document.Pairs(vs[2 * k..]).value ==
            [Member(vs[2 * k].s, vs[2 * k + 1])] + Document.Pairs(vs[2 * (k + 1)..]).value
  {
    assert vs[2 * k..][2..] == vs[2 * (k + 1)..];
  }

  lemma NoPairs(vs: seq<Value>, k: nat)
    requires 2 * k == |vs|
    ensures Document.Pairs(vs[2 * k..]) == Some([])
  {
  }

  /** The popped names and values, copied into the members of an object. */
  method ToMembers(vs: seq<Value>) returns (members: seq<Member>)
    requires |vs| % 2 == 0 && Document.Pairs(vs).Some?
    ensures Document.Pairs(vs) == Some(members)
  {
    hide Document.Pairs;
    members := [];
    var k := 0;
    ghost var all := Document.Pairs(vs).value;
    assert vs[0..] == vs;
    while k < |vs| / 2
      invariant k <= |vs| / 2 && Document.Pairs(vs[2 * k..]).Some?
      invariant all == members + Document.Pairs(vs[2 * k..]).value
    {
      PairsFrom(vs, k);
      var m := Member(vs[2 * k].s, vs[2 * k + 1]);
      assert all == members + [m] + Document.Pairs(vs[2 * (k + 1)..]).value;
      members := members + [m];
      k := k + 1;
    }
    NoPairs(vs, k);
    assert members == all;
  }

  /** A document as a handler: its stack of finished and unfinished values. */
  class DocumentBuilder {
    var stack: seq<Value>

    constructor ()
      ensures stack == []
    {
      stack := [];
    }

    /** Null, Bool, the integers, Double, String, Key, StartObject and StartArray push one value. */
    method Push(e: Event)
      requires !e.EndObject? && !e.EndArray?
      modifies this
      ensures Some(stack) == Document.Step(old(stack), e)
    {
      var v :=
        match e
        case NullEvent => Null
        case BoolEvent(b) => Bool(b)
        case IntegerEvent(_, n) => Number(n)
        case DoubleEvent(d) => Double(d)
        case StringEvent(s) => String(s)
        case Key(s) => String(s)
        case StartObject => Object([])
        case StartArray => Array([]);
      stack := stack + [v];
    }

    method EndObject(memberCount: nat)
      requires Document.Step(stack, Event.EndObject(memberCount)).Some?
      modifies this
      ensures Some(stack) == Document.Step(old(stack), Event.EndObject(memberCount))
    {
      var base := |stack| - 2 * memberCount;
      var members := ToMembers(stack[base..]);
      stack := stack[..base - 1] + [Object(members)];
    }

    method EndArray(elementCount: nat)
      requires Document.Step(stack, Event.EndArray(elementCount)).Some?
      modifies this
      ensures Some(stack) == Document.Step(old(stack), Event.EndArray(elementCount))
    {
      var base := |stack| - elementCount;
      stack := stack[..base - 1] + [Array(stack[base..])];
    }
  }
}
