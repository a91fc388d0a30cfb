/** Writer and PrettyWriter: a stack of levels that turns handler calls into text. */
module Writer {
  import opened Base
  import opened Json
  import Encodings

  /** The target encoding: UTF-8 keeps all bytes, ASCII escapes every other code point. */
  datatype Target = Utf8 | Ascii

  /** The plain writer, or the pretty one with its indentation and the single-line-array option. */
  datatype Format =
    | Compact(target: Target)
    | Pretty(target: Target, indentChar: byte, indentCount: nat, singleLineArrays: bool)

  /** SetIndent admits white space only. */
  predicate ValidFormat(f: Format) { f.Pretty? ==> IsSpace(f.indentChar) }

  datatype Level = Level(valueCount: nat, inArray: bool)

  datatype State = State(out: bytes, levels: seq<Level>, hasRoot: bool)

  // ---- the text of a call ----

  function HexDigit(v: nat): byte
    requires v < 16
  {
    if v < 10 then ZERO + v else 0x41 + v - 10
  }

  /** One byte of a string, escaped where JSON needs it. */
  function EscapeByte(c: byte): bytes {
    if c == QUOTE || c == BACKSLASH then [BACKSLASH, c]
    else if c == 0x08 then [BACKSLASH, 0x62]
    else if c == 0x09 then [BACKSLASH, 0x74]
    else if c == 0x0A then [BACKSLASH, 0x6E]
    else if c == 0x0C then [BACKSLASH, 0x66]
    else if c == 0x0D then [BACKSLASH, 0x72]
    else if c < 0x20 then [BACKSLASH, 0x75, ZERO, ZERO, HexDigit(c / 16), HexDigit(c % 16)]
    else [c]
  }

  function Escaped(s: bytes): bytes {
    if s == [] then [] else EscapeByte(s[0]) + Escaped(s[1..])
  }

  function Quoted(s: bytes): bytes {
    [QUOTE] + Escaped(s) + [QUOTE]
  }

  function HexEscape(u: nat): bytes
    requires u <= 0xFFFF
  {
    [BACKSLASH, 0x75, HexDigit(u / 4096), HexDigit(u / 256 % 16), HexDigit(u / 16 % 16), HexDigit(u % 16)]
  }

  function UnicodeText(cp: nat): bytes
    requires Encodings.Scalar(cp)
  {
    if cp <= 0xFFFF then HexEscape(cp)
    else HexEscape((cp - 0x10000) / 1024 + 0xD800) + HexEscape((cp - 0x10000) % 1024 + 0xDC00)
  }

  /** What is put for the character at `i`, and the position behind it; None if Decode fails. */
  datatype Piece = Piece(text: bytes, pos: nat)

  function PieceAt(s: bytes, i: nat): (r: Option<Piece>)
    requires i < |s|
    ensures r.Some? ==> i < r.value.pos <= |s|
  {
    if s[i] < 0x80 then Some(Piece(EscapeByte(s[i]), i + 1))
    else
      var d := Encodings.Decode(s, i);
      if d.ok then
        Encodings.EncodeInvertsDecode(s, i);
        Some(Piece(UnicodeText(d.cp), d.pos))
      else None
  }

  /** The text between the quotes, from position `i` of the string on. */
  function AsciiBody(s: bytes, i: nat): Option<bytes>
    requires i <= |s|
    decreases |s| - i
  {
    if i == |s| then Some([])
    else
      var p := PieceAt(s, i);
      if p.None? then None
      else
        var rest := AsciiBody(s, p.value.pos);
        if rest.None? then None else Some(p.value.text + rest.value)
  }

  /** With ASCII as target a string must be well-formed UTF-8 to be written. */
  predicate CanWrite(f: Format, s: bytes) { f.target.Utf8? || AsciiBody(s, 0).Some? }

  function TextOf(f: Format, s: bytes): bytes {
    if f.target.Utf8? then Quoted(s)
    else if AsciiBody(s, 0).Some? then [QUOTE] + AsciiBody(s, 0).value + [QUOTE]
    else []
  }

  function Digits(n: nat): (r: bytes)
    ensures |r| > 0
  {
    if n < 10 then [ZERO + n] else Digits(n / 10) + [ZERO + n % 10]
  }

  function IntegerText(n: int): bytes {
    if n < 0 then [MINUS] + Digits(-n) else Digits(n)
  }

  predicate IsScalarEvent(e: Event) {
    e.NullEvent? || e.BoolEvent? || e.IntegerEvent? || e.DoubleEvent? || e.StringEvent? || e.Key?
  }

  function ScalarText(f: Format, e: Event): bytes
    requires IsScalarEvent(e)
  {
    match e
    case NullEvent => NULL_TEXT
    case BoolEvent(b) => if b then TRUE_TEXT else FALSE_TEXT
    case IntegerEvent(_, n) => IntegerText(n)
    case DoubleEvent(d) => d
    case StringEvent(s) => TextOf(f, s)
    case Key(s) => TextOf(f, s)
  }

  /** A string that cannot be written makes the call fail. */
  predicate CanPut(f: Format, e: Event) {
    match e
    case StringEvent(s) => CanWrite(f, s)
    case Key(s) => CanWrite(f, s)
    case _ => true
  }

  // ---- separators and layout ----

  function Indent(f: Format, depth: nat): bytes
    requires f.Pretty?
  {
    seq(depth * f.indentCount, _ => f.indentChar)
  }

  /** The separator before value number `count` of a level. */
  function Separator(inArray: bool, count: nat): bytes {
    if count == 0 then [] else if inArray || count % 2 == 0 then [COMMA] else [COLON]
  }

  /** The white space between that separator and the value; `depth` levels are open. */
  function Layout(f: Format, inArray: bool, count: nat, depth: nat): bytes {
    if f.Compact? then []
    else if inArray then
      if !f.singleLineArrays then [LF] + Indent(f, depth) else if count > 0 then [SPACE] else []
    else if count % 2 == 0 then [LF] + Indent(f, depth) else [SPACE]
  }

  /** The white space before a closing bracket; `depth` levels stay open. */
  function CloseLayout(f: Format, inArray: bool, count: nat, depth: nat): bytes {
    if f.Compact? || count == 0 || (inArray && f.singleLineArrays) then [] else [LF] + Indent(f, depth)
  }

  // ---- the machine ----

  function Top(w: State): Level
    requires w.levels != []
  {
    w.levels[|w.levels| - 1]
  }

  /** Prefix and PrettyPrefix; None where they assert: a second root, or a member name that is no string. */
  function Prefix(f: Format, w: State, isString: bool): Option<State> {
    if w.levels == [] then
      if w.hasRoot then None else Some(w.(hasRoot := true))
    else
      var l := Top(w);
      if !l.inArray && l.valueCount % 2 == 0 && !isString then None
      else Some(State(w.out + Separator(l.inArray, l.valueCount) + Layout(f, l.inArray, l.valueCount, |w.levels|),
                      w.levels[..|w.levels| - 1] + [l.(valueCount := l.valueCount + 1)], w.hasRoot))
  }

  function Open(f: Format, w: State, inArray: bool): Option<State> {
    var p := Prefix(f, w, false);
    if p.None? then None
    else Some(p.value.(out := p.value.out + [if inArray then LBRACKET else LBRACE],
                       levels := p.value.levels + [Level(0, inArray)]))
  }

  /** EndObject and EndArray; None where they assert. */
  function Close(f: Format, w: State, inArray: bool): Option<State> {
    if w.levels == [] || Top(w).inArray != inArray || (!inArray && Top(w).valueCount % 2 != 0) then None
    else
      var rest := w.levels[..|w.levels| - 1];
      Some(State(w.out + CloseLayout(f, inArray, Top(w).valueCount, |rest|) + [if inArray then RBRACKET else RBRACE],
                 rest, w.hasRoot))
  }

  /** One handler call. */
  function Step(f: Format, w: State, e: Event): Option<State> {
    match e
    case StartObject => Open(f, w, false)
    case StartArray => Open(f, w, true)
    case EndObject(_) => Close(f, w, false)
    case EndArray(_) => Close(f, w, true)
    case _ =>
      var p := Prefix(f, w, e.StringEvent? || e.Key?);
      if p.None? || !CanPut(f, e) then None else Some(p.value.(out := p.value.out + ScalarText(f, e)))
  }

  function Feed(f: Format, w: State, es: seq<Event>): Option<State>
    decreases |es|
  {
    if es == [] then Some(w)
    else
      var r := Step(f, w, es[0]);
      if r.None? then None else Feed(f, r.value, es[1..])
  }

  lemma {:induction false} FeedSplits(f: Format, w: State, a: seq<Event>, b: seq<Event>)
    ensures Feed(f, w, a + b) == var r := Feed(f, w, a); if r.None? then None else Feed(f, r.value, b)
    decreases |a|
  {
    if a == [] {
      assert a + b == b;
    } else {
      assert (a + b)[1..] == a[1..] + b;
      var r := Step(f, w, a[0]);
      if r.Some? {
        FeedSplits(f, r.value, a[1..], b);
      }
    }
  }

  // ---- what the text of a value is ----

  /** The text of a value that starts with `depth` levels open. */
  function Render(f: Format, v: Value, depth: nat): bytes
    decreases v, 2, 0
  {
    match v
    case Null => NULL_TEXT
    case Bool(b) => if b then TRUE_TEXT else FALSE_TEXT
    case Number(n) => IntegerText(n)
    case Double(d) => d
    case String(s) => TextOf(f, s)
    case Object(ms) =>
      [LBRACE] + RenderMembers(f, v, 0, depth + 1) + CloseLayout(f, false, 2 * |ms|, depth) + [RBRACE]
    case Array(es) =>
      [LBRACKET] + RenderElements(f, v, 0, depth + 1) + CloseLayout(f, true, |es|, depth) + [RBRACKET]
  }

  function RenderMember(f: Format, v: Value, k: nat, depth: nat): bytes
    requires v.Object? && k < |v.members|
    decreases v, 0, 0
  {
    TextOf(f, v.members[k].name) + Separator(false, 2 * k + 1) + Layout(f, false, 2 * k + 1, depth)
    + Render(f, v.members[k].value, depth)
  }

  function RenderMembers(f: Format, v: Value, k: nat, depth: nat): bytes
    requires v.Object? && k <= |v.members|
    decreases v, 1, |v.members| - k
  {
    if k == |v.members| then []
    else Separator(false, 2 * k) + Layout(f, false, 2 * k, depth) + RenderMember(f, v, k, depth) + RenderMembers(f, v, k + 1, depth)
  }

  function RenderElements(f: Format, v: Value, k: nat, depth: nat): bytes
    requires v.Array? && k <= |v.elements|
    decreases v, 1, |v.elements| - k
  {
    if k == |v.elements| then []
    else Separator(true, k) + Layout(f, true, k, depth) + Render(f, v.elements[k], depth) + RenderElements(f, v, k + 1, depth)
  }

  /** Every string and every name in the tree can be written. */
  predicate Printable(f: Format, v: Value) {
    match v
    case String(s) => CanWrite(f, s)
    case Array(es) => forall e | e in es :: Printable(f, e)
    case Object(ms) => forall m | m in ms :: CanWrite(f, m.name) && Printable(f, m.value)
    case _ => true
  }

  // ---- the machine writes that text ----

  /** The writer may take a value here: no root yet, or inside an array, or behind a member name. */
  predicate AwaitsValue(w: State) {
    if w.levels == [] then !w.hasRoot else Top(w).inArray || Top(w).valueCount % 2 == 1
  }

  /** The state behind a value whose text is `text`. */
  function Written(f: Format, w: State, text: bytes): State
    requires AwaitsValue(w)
  {
    var p := Prefix(f, w, false).value;
    p.(out := p.out + text)
  }

  lemma {:induction false} WritesValue(f: Format, w: State, v: Value, kind: int -> IntKind)
    requires Printable(f, v)
    requires AwaitsValue(w)
    ensures Feed(f, w, Events(v, kind)) == Some(Written(f, w, Render(f, v, |w.levels|)))
    decreases v, 2, 0
  {
    hide Prefix, CloseLayout, ScalarText, CanWrite;
    var es := Events(v, kind);
    if v.Object? {
      WritesObject(f, w, v, kind);
    } else if v.Array? {
      WritesArray(f, w, v, kind);
    } else {
      WritesScalar(f, w, v, kind);
    }
  }

  lemma WritesScalar(f: Format, w: State, v: Value, kind: int -> IntKind)
    requires Printable(f, v)
    requires AwaitsValue(w) && !v.Object? && !v.Array?
    ensures Feed(f, w, Events(v, kind)) == Some(Written(f, w, Render(f, v, |w.levels|)))
  {
    hide Prefix, TextOf, CanWrite;
    PrefixOfValue(f, w, true);
    var es := Events(v, kind);
    assert |es| == 1 && es[1..] == [];
    assert Feed(f, w, es) == Step(f, w, es[0]);
  }

  /** The prefix of a value does not depend on its type. */
  lemma PrefixOfValue(f: Format, w: State, isString: bool)
    requires AwaitsValue(w)
    ensures Prefix(f, w, isString) == Prefix(f, w, false) && Prefix(f, w, false).Some?
    ensures |Prefix(f, w, false).value.levels| == |w.levels|
  {
  }

  lemma FeedOne(f: Format, w: State, e: Event)
    ensures Feed(f, w, [e]) == Step(f, w, e)
  {
    hide Step;
    var r := Step(f, w, e);
    assert [e][1..] == [];
    if r.Some? {
      assert Feed(f, r.value, [e][1..]) == r;
    }
  }

  /** A compound value: its opening, its contents and its closing. */
  lemma FeedBracketed(f: Format, w: State, open: Event, mid: seq<Event>, close: Event)
    ensures Feed(f, w, [open] + mid + [close]) ==
            var a := Step(f, w, open);
            if a.None? then None
            else var b := Feed(f, a.value, mid);
                 if b.None? then None else Step(f, b.value, close)
  {
    hide Step, Feed;
    FeedSplits(f, w, [open] + mid, [close]);
    FeedSplits(f, w, [open], mid);
    FeedOne(f, w, open);
    var b := Feed(f, w, [open] + mid);
    if b.Some? {
      FeedOne(f, b.value, close);
    }
  }

  lemma Regroup4(a: bytes, b: bytes, c: bytes, d: bytes, e: bytes)
    ensures a + b + c + d + e == a + (b + c + d + e)
  {
  }

  /** From the state behind the opening to the state behind the closing. */
  lemma ClosesLevel(f: Format, p: State, inArray: bool, count: nat, items: bytes, text: bytes)
    requires inArray || count % 2 == 0
    requires text == [if inArray then LBRACKET else LBRACE] + items + CloseLayout(f, inArray, count, |p.levels|)
                     + [if inArray then RBRACKET else RBRACE]
    ensures Close(f, State(p.out + [if inArray then LBRACKET else LBRACE] + items, p.levels + [Level(count, inArray)], p.hasRoot), inArray)
            == Some(p.(out := p.out + text))
  {
    hide CloseLayout;
    var w := State(p.out + [if inArray then LBRACKET else LBRACE] + items, p.levels + [Level(count, inArray)], p.hasRoot);
    assert w.levels[..|w.levels| - 1] == p.levels;
    Regroup4(p.out, [if inArray then LBRACKET else LBRACE], items, CloseLayout(f, inArray, count, |p.levels|),
             [if inArray then RBRACKET else RBRACE]);
  }

  lemma {:induction false} WritesArray(f: Format, w: State, v: Value, kind: int -> IntKind)
    requires Printable(f, v)
    requires AwaitsValue(w) && v.Array?
    ensures Feed(f, w, Events(v, kind)) == Some(Written(f, w, Render(f, v, |w.levels|)))
    decreases v, 1, 0
  {
    hide Prefix, CloseLayout, Feed, Close, RenderElements;
    PrefixOfValue(f, w, false);
    FeedBracketed(f, w, StartArray, ElementEvents(v, 0, kind), EndArray(|v.elements|));
    var p := Prefix(f, w, false).value;
    var w1 := Open(f, w, true).value;
    assert w1.levels[..|w1.levels| - 1] == p.levels;
    WritesElements(f, w1, v, 0, kind);
    ClosesLevel(f, p, true, |v.elements|, RenderElements(f, v, 0, |w.levels| + 1), Render(f, v, |w.levels|));
  }

  lemma PrefixInLevel(f: Format, w: State, l: Level)
    requires w.levels != [] && Top(w) == l && AwaitsValue(w)
    ensures forall text ::
              Written(f, w, text) == State(w.out + Separator(l.inArray, l.valueCount) + Layout(f, l.inArray, l.valueCount, |w.levels|) + text,
                                           w.levels[..|w.levels| - 1] + [l.(valueCount := l.valueCount + 1)], w.hasRoot)
  {
  }

  lemma {:induction false} WritesElements(f: Format, w: State, v: Value, k: nat, kind: int -> IntKind)
    requires Printable(f, v)
    requires v.Array? && k <= |v.elements|
    requires w.levels != [] && Top(w) == Level(k, true)
    ensures Feed(f, w, ElementEvents(v, k, kind)) ==
            Some(State(w.out + RenderElements(f, v, k, |w.levels|), w.levels[..|w.levels| - 1] + [Level(|v.elements|, true)], w.hasRoot))
    decreases v, 0, |v.elements| - k
  {
    hide Layout, Separator, Render, Events, Written, CanWrite;
    if k == |v.elements| {
      assert w.levels == w.levels[..|w.levels| - 1] + [Top(w)];
      assert w.out + [] == w.out;
    } else {
      hide Feed;
      var e := v.elements[k];
      var text := Render(f, e, |w.levels|);
      WritesValue(f, w, e, kind);
      FeedSplits(f, w, Events(e, kind), ElementEvents(v, k + 1, kind));
      PrefixInLevel(f, w, Level(k, true));
      var w1 := Written(f, w, text);
      assert w1.levels[..|w1.levels| - 1] == w.levels[..|w.levels| - 1];
      WritesElements(f, w1, v, k + 1, kind);
      Regroup4(w.out, Separator(true, k), Layout(f, true, k, |w.levels|), text, RenderElements(f, v, k + 1, |w.levels|));
    }
  }

  lemma {:induction false} WritesObject(f: Format, w: State, v: Value, kind: int -> IntKind)
    requires Printable(f, v)
    requires AwaitsValue(w) && v.Object?
    ensures Feed(f, w, Events(v, kind)) == Some(Written(f, w, Render(f, v, |w.levels|)))
    decreases v, 1, 0
  {
    hide Prefix, CloseLayout, Feed, Close, RenderMembers;
    PrefixOfValue(f, w, false);
    FeedBracketed(f, w, StartObject, MemberEvents(v, 0, kind), EndObject(|v.members|));
    var p := Prefix(f, w, false).value;
    var w1 := Open(f, w, false).value;
    assert w1.levels[..|w1.levels| - 1] == p.levels;
    WritesMembers(f, w1, v, 0, kind);
    ClosesLevel(f, p, false, 2 * |v.members|, RenderMembers(f, v, 0, |w.levels| + 1), Render(f, v, |w.levels|));
  }

  lemma WritesKey(f: Format, w: State, k: nat, name: bytes)
    requires CanWrite(f, name)
    requires w.levels != [] && Top(w) == Level(2 * k, false)
    ensures Feed(f, w, [Key(name)]) ==
            Some(State(w.out + Separator(false, 2 * k) + Layout(f, false, 2 * k, |w.levels|) + TextOf(f, name),
                       w.levels[..|w.levels| - 1] + [Level(2 * k + 1, false)], w.hasRoot))
  {
    hide Layout, Separator, TextOf, CanWrite, Feed;
    FeedOne(f, w, Key(name));
  }

  lemma {:induction false} WritesMember(f: Format, w: State, v: Value, k: nat, kind: int -> IntKind)
    requires Printable(f, v)
    requires v.Object? && k < |v.members|
    requires w.levels != [] && Top(w) == Level(2 * k, false)
    ensures Feed(f, w, [Key(v.members[k].name)] + Events(v.members[k].value, kind)) ==
            Some(State(w.out + Separator(false, 2 * k) + Layout(f, false, 2 * k, |w.levels|) + RenderMember(f, v, k, |w.levels|),
                       w.levels[..|w.levels| - 1] + [Level(2 * k + 2, false)], w.hasRoot))
    decreases v, 0, 0
  {
    hide Layout, Separator, TextOf, CanWrite, Feed, Written, Render, Events;
    var m := v.members[k];
    WritesKey(f, w, k, m.name);
    var w1 := State(w.out + Separator(false, 2 * k) + Layout(f, false, 2 * k, |w.levels|) + TextOf(f, m.name),
                    w.levels[..|w.levels| - 1] + [Level(2 * k + 1, false)], w.hasRoot);
    assert w1.levels[..|w1.levels| - 1] == w.levels[..|w.levels| - 1];
    WritesValue(f, w1, m.value, kind);
    PrefixInLevel(f, w1, Level(2 * k + 1, false));
    FeedSplits(f, w, [Key(m.name)], Events(m.value, kind));
    Regroup4(w.out + Separator(false, 2 * k) + Layout(f, false, 2 * k, |w.levels|), TextOf(f, m.name), Separator(false, 2 * k + 1),
             Layout(f, false, 2 * k + 1, |w.levels|), Render(f, m.value, |w.levels|));
  }

  lemma {:induction false} WritesMembers(f: Format, w: State, v: Value, k: nat, kind: int -> IntKind)
    requires Printable(f, v)
    requires v.Object? && k <= |v.members|
    requires w.levels != [] && Top(w) == Level(2 * k, false)
    ensures Feed(f, w, MemberEvents(v, k, kind)) ==
            Some(State(w.out + RenderMembers(f, v, k, |w.levels|), w.levels[..|w.levels| - 1] + [Level(2 * |v.members|, false)], w.hasRoot))
    decreases v, 0, |v.members| - k
  {
    hide Layout, Separator, RenderMember, Events, CanWrite;
    if k == |v.members| {
      assert w.levels == w.levels[..|w.levels| - 1] + [Top(w)];
      assert w.out + [] == w.out;
    } else {
      hide Feed;
      var m := v.members[k];
      WritesMember(f, w, v, k, kind);
      var w1 := State(w.out + Separator(false, 2 * k) + Layout(f, false, 2 * k, |w.levels|) + RenderMember(f, v, k, |w.levels|),
                      w.levels[..|w.levels| - 1] + [Level(2 * k + 2, false)], w.hasRoot);
      assert w1.levels[..|w1.levels| - 1] == w.levels[..|w.levels| - 1];
      WritesMembers(f, w1, v, k + 1, kind);
      FeedSplits(f, w, [Key(m.name)] + Events(m.value, kind), MemberEvents(v, k + 1, kind));
      Regroup4(w.out, Separator(false, 2 * k), Layout(f, false, 2 * k, |w.levels|), RenderMember(f, v, k, |w.levels|),
               RenderMembers(f, v, k + 1, |w.levels|));
    }
  }

  // ---- and fails on a string it cannot write ----

  lemma {:induction false} FailsValue(f: Format, w: State, v: Value, kind: int -> IntKind)
    requires AwaitsValue(w) && !Printable(f, v)
    ensures Feed(f, w, Events(v, kind)).None?
    decreases v, 1, 0
  {
    hide Prefix, CloseLayout, CanWrite, TextOf, Feed, Close;
    PrefixOfValue(f, w, true);
    match v
    case String(s) => FeedOne(f, w, StringEvent(s));
    case Array(es) =>
      FeedBracketed(f, w, StartArray, ElementEvents(v, 0, kind), EndArray(|es|));
      var e :| e in es && !Printable(f, e);
      var j :| 0 <= j < |es| && es[j] == e;
      FailsElements(f, Open(f, w, true).value, v, 0, j, kind);
    case Object(ms) =>
      FeedBracketed(f, w, StartObject, MemberEvents(v, 0, kind), EndObject(|ms|));
      var m :| m in ms && !(CanWrite(f, m.name) && Printable(f, m.value));
      var j :| 0 <= j < |ms| && ms[j] == m;
      FailsMembers(f, Open(f, w, false).value, v, 0, j, kind);
  }

  lemma {:induction false} FailsElements(f: Format, w: State, v: Value, k: nat, j: nat, kind: int -> IntKind)
    requires v.Array? && k <= j < |v.elements| && !Printable(f, v.elements[j])
    requires w.levels != [] && Top(w) == Level(k, true)
    ensures Feed(f, w, ElementEvents(v, k, kind)).None?
    decreases v, 0, |v.elements| - k
  {
    hide Layout, Separator, Render, Events, Written, CanWrite, Feed;
    var e := v.elements[k];
    FeedSplits(f, w, Events(e, kind), ElementEvents(v, k + 1, kind));
    if Printable(f, e) {
      WritesValue(f, w, e, kind);
      PrefixInLevel(f, w, Level(k, true));
      FailsElements(f, Written(f, w, Render(f, e, |w.levels|)), v, k + 1, j, kind);
    } else {
      FailsValue(f, w, e, kind);
    }
  }

  lemma {:induction false} FailsMembers(f: Format, w: State, v: Value, k: nat, j: nat, kind: int -> IntKind)
    requires v.Object? && k <= j < |v.members|
    requires !(CanWrite(f, v.members[j].name) && Printable(f, v.members[j].value))
    requires w.levels != [] && Top(w) == Level(2 * k, false)
    ensures Feed(f, w, MemberEvents(v, k, kind)).None?
    decreases v, 0, |v.members| - k
  {
    hide Layout, Separator, Render, Events, Written, CanWrite, TextOf, Feed;
    var m := v.members[k];
    var key := [Key(m.name)];
    FeedSplits(f, w, key + Events(m.value, kind), MemberEvents(v, k + 1, kind));
    FeedSplits(f, w, key, Events(m.value, kind));
    if !CanWrite(f, m.name) {
      FeedOne(f, w, Key(m.name));
    } else {
      WritesKey(f, w, k, m.name);
      var w1 := Feed(f, w, key).value;
      assert Top(w1) == Level(2 * k + 1, false);
      if Printable(f, m.value) {
        WritesValue(f, w1, m.value, kind);
        PrefixInLevel(f, w1, Level(2 * k + 1, false));
        FailsMembers(f, Written(f, w1, Render(f, m.value, |w1.levels|)), v, k + 1, j, kind);
      } else {
        FailsValue(f, w1, m.value, kind);
      }
    }
  }

  const EMPTY: State := State([], [], false)

  /** Accept into a fresh writer never trips an assertion, closes every level, and puts the text of the value. */
  lemma WritesDocument(f: Format, v: Value, kind: int -> IntKind)
    requires Printable(f, v)
    ensures Feed(f, EMPTY, Events(v, kind)) == Some(State(Render(f, v, 0), [], true))
  {
    WritesValue(f, EMPTY, v, kind);
    assert [] + Render(f, v, 0) == Render(f, v, 0);
  }

  /** Accept into a fresh writer succeeds exactly on trees whose strings can all be written. */
  lemma WritesExactly(f: Format, v: Value, kind: int -> IntKind)
    ensures Feed(f, EMPTY, Events(v, kind)).Some? <==> Printable(f, v)
  {
    hide Feed;
    if Printable(f, v) {
      WritesDocument(f, v, kind);
    } else {
      FailsValue(f, EMPTY, v, kind);
    }
  }
}
