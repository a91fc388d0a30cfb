/** The grammar of reader.h: scanning, scalars and the recursive-descent parser, as functions of
    the text. ReaderLoops.dfy has the code that moves a stream. */
module Reader {
  import opened Base
  import opened Json
  import Encodings

  /** The template flags, and whether the conversion of a literal to a double overflows. */
  datatype Config = Config(comments: bool, trailingCommas: bool, stopWhenDone: bool, tooBig: bytes -> bool)

  /** Outcome of a parse step: success, stream position, and every handler call made so far. */
  datatype Out = Out(ok: bool, pos: nat, events: seq<Event>)

  // ---- white space and comments ----

  function SkipSpaces(t: bytes, i: nat): (j: nat)
    ensures i <= j && (i <= |t| ==> j <= |t|)
    ensures !IsSpace(Peek(t, j))
    decreases |t| - i
  {
    if i < |t| && IsSpace(t[i]) then SkipSpaces(t, i + 1) else i
  }

  datatype Skipped = Skipped(ok: bool, pos: nat)

  /** The rest of a block comment, from behind its opening. */
  function BlockComment(t: bytes, i: nat): (r: Skipped)
    ensures r.ok ==> i < r.pos <= |t|
    decreases |t| - i
  {
    if Peek(t, i) == 0 then Skipped(false, i)
    else if Peek(t, i) == STAR && Peek(t, i + 1) == SLASH then Skipped(true, i + 2)
    else BlockComment(t, i + 1)
  }

  /** The rest of a line comment, from behind its opening. */
  function LineComment(t: bytes, i: nat): (j: nat)
    ensures i <= j && (i <= |t| ==> j <= |t|)
    decreases |t| - i
  {
    if Peek(t, i) == 0 then i
    else if Peek(t, i) == LF then i + 1
    else LineComment(t, i + 1)
  }

  function Skip(cfg: Config, t: bytes, i: nat): (r: Skipped)
    ensures r.ok ==> i <= r.pos && (i <= |t| ==> r.pos <= |t|)
    decreases |t| - i
  {
    var j := SkipSpaces(t, i);
    if cfg.comments && Peek(t, j) == SLASH then
      if Peek(t, j + 1) == STAR then
        var b := BlockComment(t, j + 2);
        if b.ok then Skip(cfg, t, b.pos) else b
      else if Peek(t, j + 1) == SLASH then Skip(cfg, t, LineComment(t, j + 2))
      else Skipped(false, j + 1)
    else Skipped(true, j)
  }

  // ---- numbers ----

  function EndOfDigits(t: bytes, i: nat): (j: nat)
    ensures i <= j && (i <= |t| ==> j <= |t|)
    ensures i < |t| && IsDigit(t[i]) ==> i < j
    ensures forall k | i <= k < j :: k < |t| && IsDigit(t[k])
    ensures !IsDigit(Peek(t, j))
    decreases |t| - i
  {
    if i < |t| && IsDigit(t[i]) then EndOfDigits(t, i + 1) else i
  }

  /** Which handler call an integer literal makes; none when it has to become a double. */
  function IntegerKind(minus: bool, magnitude: nat): (r: seq<Event>)
    ensures |r| <= 1
  {
    if minus then
      if magnitude <= TWO31 then [IntegerEvent(Int, 0 - magnitude)]
      else if magnitude <= TWO63 then [IntegerEvent(Int64, 0 - magnitude)]
      else []
    else if magnitude < TWO32 then [IntegerEvent(Uint, magnitude)]
    else if magnitude < TWO64 then [IntegerEvent(Uint64, magnitude)]
    else []
  }

  /** End of the integer part at a digit. */
  function EndOfInteger(t: bytes, a: nat): (b: nat)
    requires IsDigit(Peek(t, a))
    ensures a < b <= |t|
    ensures forall k | a <= k < b :: IsDigit(t[k])
  {
    if Peek(t, a) == ZERO then a + 1 else EndOfDigits(t, a)
  }

  datatype Span = Span(ok: bool, end: nat)

  function Fraction(t: bytes, b: nat): (r: Span)
    ensures r.ok && b <= |t| ==> b <= r.end <= |t|
  {
    if Peek(t, b) != DOT then Span(true, b)
    else if IsDigit(Peek(t, b + 1)) then Span(true, EndOfDigits(t, b + 1))
    else Span(false, b + 1)
  }

  function Exponent(t: bytes, c: nat): (r: Span)
    ensures r.ok && c <= |t| ==> c <= r.end <= |t|
  {
    if Peek(t, c) != 0x65 && Peek(t, c) != 0x45 then Span(true, c)
    else
      var d := if Peek(t, c + 1) == PLUS || Peek(t, c + 1) == MINUS then c + 2 else c + 1;
      if IsDigit(Peek(t, d)) then Span(true, EndOfDigits(t, d)) else Span(false, d)
  }

  function ParseNumber(cfg: Config, t: bytes, i: nat, acc: seq<Event>): (r: Out)
    ensures r.ok ==> i < r.pos <= |t|
  {
    var minus := Peek(t, i) == MINUS;
    var a := if minus then i + 1 else i;
    if !IsDigit(Peek(t, a)) then Out(false, a, acc)
    else
      var b := EndOfInteger(t, a);
      var frac := Fraction(t, b);
      if !frac.ok then Out(false, frac.end, acc)
      else
        var exp := Exponent(t, frac.end);
        if !exp.ok then Out(false, exp.end, acc)
        else
          var integer := if exp.end == b then IntegerKind(minus, Decimal(t[a..b])) else [];
          if integer != [] then Out(true, exp.end, acc + integer)
          else if cfg.tooBig(t[i..exp.end]) then Out(false, exp.end, acc)
          else Out(true, exp.end, acc + [DoubleEvent(t[i..exp.end])])
  }

  // ---- strings ----

  function HexValue(c: byte): (v: int)
    ensures -1 <= v < 16
  {
    if IsDigit(c) then c - ZERO
    else if 0x41 <= c <= 0x46 then c - 0x41 + 10
    else if 0x61 <= c <= 0x66 then c - 0x61 + 10
    else -1
  }

  /** Four hexadecimal digits, or -1. */
  function Hex4(t: bytes, i: nat): (v: int)
    ensures -1 <= v <= 0xFFFF
    ensures v >= 0 ==> i + 4 <= |t|
  {
    var a, b, c, d := HexValue(Peek(t, i)), HexValue(Peek(t, i + 1)), HexValue(Peek(t, i + 2)), HexValue(Peek(t, i + 3));
    if a < 0 || b < 0 || c < 0 || d < 0 then -1 else ((a * 16 + b) * 16 + c) * 16 + d
  }

  /** The character a two-character escape stands for; 0 if there is none. */
  function Unescape(c: byte): byte {
    if c == QUOTE || c == SLASH || c == BACKSLASH then c
    else if c == 0x62 then 0x08
    else if c == 0x66 then 0x0C
    else if c == 0x6E then 0x0A
    else if c == 0x72 then 0x0D
    else if c == 0x74 then 0x09
    else 0
  }

  datatype Decoded = Decoded(ok: bool, pos: nat, s: bytes)

  function SurrogatePair(hi: nat, lo: nat): (cp: nat)
    requires 0xD800 <= hi <= 0xDBFF && 0xDC00 <= lo <= 0xDFFF
    ensures 0x10000 <= cp <= 0x10FFFF
  {
    (hi - 0xD800) * 1024 + (lo - 0xDC00) + 0x10000
  }

  /** A \u escape, from its backslash. */
  function UnicodeEscape(t: bytes, i: nat): (r: Decoded)
    ensures r.ok ==> i + 6 <= r.pos <= |t|
  {
    var h := Hex4(t, i + 2);
    if h < 0 then Decoded(false, i, [])
    else if 0xD800 <= h <= 0xDBFF then
      if Peek(t, i + 6) != BACKSLASH || Peek(t, i + 7) != 0x75 then Decoded(false, i, [])
      else
        var h2 := Hex4(t, i + 8);
        if h2 < 0xDC00 || h2 > 0xDFFF then Decoded(false, i, [])
        else Decoded(true, i + 12, Encodings.Encode(SurrogatePair(h, h2)))
    else Decoded(true, i + 6, Encodings.Encode(h))
  }

  /** String contents from `i` up to and including the closing quote, appended to `acc`. */
  function StringBody(t: bytes, i: nat, acc: bytes): (r: Decoded)
    ensures r.ok ==> i < r.pos <= |t|
    decreases |t| - i
  {
    var c := Peek(t, i);
    if c == BACKSLASH then
      var e := Peek(t, i + 1);
      if Unescape(e) != 0 then StringBody(t, i + 2, acc + [Unescape(e)])
      else if e == 0x75 then
        var u := UnicodeEscape(t, i);
        if u.ok then StringBody(t, u.pos, acc + u.s) else u
      else Decoded(false, i, acc)
    else if c == QUOTE then Decoded(true, i + 1, acc)
    else if c < 0x20 then Decoded(false, i, acc)
    else StringBody(t, i + 1, acc + [c])
  }

  function ParseString(t: bytes, i: nat, acc: seq<Event>, isKey: bool): (r: Out)
    requires Peek(t, i) == QUOTE
    ensures r.ok ==> i < r.pos <= |t|
  {
    var d := StringBody(t, i + 1, []);
    if d.ok then Out(true, d.pos, acc + [if isKey then Key(d.s) else StringEvent(d.s)])
    else Out(false, d.pos, acc)
  }

  // ---- scalars ----

  function ParseWord(t: bytes, i: nat, acc: seq<Event>, word: bytes, e: Event): (r: Out)
    requires |word| > 0
    ensures r.ok ==> i < r.pos <= |t|
  {
    if At(t, i, word) then Out(true, i + |word|, acc + [e]) else Out(false, i, acc)
  }

  predicate IsOpening(c: byte) { c == LBRACE || c == LBRACKET }

  function ParseScalar(cfg: Config, t: bytes, i: nat, acc: seq<Event>): (r: Out)
    ensures r.ok ==> i < r.pos <= |t|
    ensures !r.ok ==> r.events == acc
  {
    var c := Peek(t, i);
    if c == 0x6E then ParseWord(t, i, acc, NULL_TEXT, NullEvent)
    else if c == 0x74 then ParseWord(t, i, acc, TRUE_TEXT, BoolEvent(true))
    else if c == 0x66 then ParseWord(t, i, acc, FALSE_TEXT, BoolEvent(false))
    else if c == QUOTE then ParseString(t, i, acc, false)
    else ParseNumber(cfg, t, i, acc)
  }

  // ---- recursive descent ----

  function ParseValue(cfg: Config, t: bytes, i: nat, acc: seq<Event>): (r: Out)
    ensures r.ok ==> i < r.pos <= |t|
    decreases |t| - i, 1
  {
    if Peek(t, i) == LBRACE then ParseObject(cfg, t, i, acc)
    else if Peek(t, i) == LBRACKET then ParseArray(cfg, t, i, acc)
    else ParseScalar(cfg, t, i, acc)
  }

  function ParseObject(cfg: Config, t: bytes, i: nat, acc: seq<Event>): (r: Out)
    requires Peek(t, i) == LBRACE
    ensures r.ok ==> i < r.pos <= |t|
    decreases |t| - i, 0
  {
    var acc := acc + [StartObject];
    var s := Skip(cfg, t, i + 1);
    if !s.ok then Out(false, s.pos, acc)
    else if Peek(t, s.pos) == RBRACE then Out(true, s.pos + 1, acc + [EndObject(0)])
    else ParseMembers(cfg, t, s.pos, 0, acc)
  }

  /** The loop over members, `count` of which are behind. */
  function ParseMembers(cfg: Config, t: bytes, i: nat, count: nat, acc: seq<Event>): (r: Out)
    ensures r.ok ==> i < r.pos <= |t|
    decreases |t| - i, 2
  {
    if Peek(t, i) != QUOTE then Out(false, i, acc)
    else
      var k := ParseString(t, i, acc, true);
      if !k.ok then k
      else
        var s := Skip(cfg, t, k.pos);
        if !s.ok || Peek(t, s.pos) != COLON then Out(false, s.pos, k.events)
        else
          var s2 := Skip(cfg, t, s.pos + 1);
          if !s2.ok then Out(false, s2.pos, k.events)
          else
            var v := ParseValue(cfg, t, s2.pos, k.events);
            if !v.ok then v else MemberEnd(cfg, t, v, count + 1)
  }

  /** Behind a member's value `v`, the `count`-th: a comma and more members, or the closing brace. */
  function MemberEnd(cfg: Config, t: bytes, v: Out, count: nat): (r: Out)
    requires v.pos <= |t|
    ensures r.ok ==> v.pos < r.pos <= |t|
    decreases |t| - v.pos, 3
  {
    var s := Skip(cfg, t, v.pos);
    if !s.ok then Out(false, s.pos, v.events)
    else if Peek(t, s.pos) == COMMA then
      var s2 := Skip(cfg, t, s.pos + 1);
      if !s2.ok then Out(false, s2.pos, v.events)
      else if cfg.trailingCommas && Peek(t, s2.pos) == RBRACE then Out(true, s2.pos + 1, v.events + [EndObject(count)])
      else ParseMembers(cfg, t, s2.pos, count, v.events)
    else if Peek(t, s.pos) == RBRACE then Out(true, s.pos + 1, v.events + [EndObject(count)])
    else Out(false, s.pos, v.events)
  }

  function ParseArray(cfg: Config, t: bytes, i: nat, acc: seq<Event>): (r: Out)
    requires Peek(t, i) == LBRACKET
    ensures r.ok ==> i < r.pos <= |t|
    decreases |t| - i, 0
  {
    var acc := acc + [StartArray];
    var s := Skip(cfg, t, i + 1);
    if !s.ok then Out(false, s.pos, acc)
    else if Peek(t, s.pos) == RBRACKET then Out(true, s.pos + 1, acc + [EndArray(0)])
    else ParseElements(cfg, t, s.pos, 0, acc)
  }

  /** The loop over elements, `count` of which are behind. */
  function ParseElements(cfg: Config, t: bytes, i: nat, count: nat, acc: seq<Event>): (r: Out)
    ensures r.ok ==> i < r.pos <= |t|
    decreases |t| - i, 2
  {
    var v := ParseValue(cfg, t, i, acc);
    if !v.ok then v else ElementEnd(cfg, t, v, count + 1)
  }

  /** Behind an element `v`, the `count`-th: a comma and more elements, or the closing bracket. */
  function ElementEnd(cfg: Config, t: bytes, v: Out, count: nat): (r: Out)
    requires v.pos <= |t|
    ensures r.ok ==> v.pos < r.pos <= |t|
    decreases |t| - v.pos, 3
  {
    var s := Skip(cfg, t, v.pos);
    if !s.ok then Out(false, s.pos, v.events)
    else if Peek(t, s.pos) == COMMA then
      var s2 := Skip(cfg, t, s.pos + 1);
      if !s2.ok then Out(false, s2.pos, v.events)
      else if cfg.trailingCommas && Peek(t, s2.pos) == RBRACKET then Out(true, s2.pos + 1, v.events + [EndArray(count)])
      else ParseElements(cfg, t, s2.pos, count, v.events)
    else if Peek(t, s.pos) == RBRACKET then Out(true, s.pos + 1, v.events + [EndArray(count)])
    else Out(false, s.pos, v.events)
  }

  /** A whole document. */
  function ParseDocument(cfg: Config, t: bytes): (r: Out) {
    var s := Skip(cfg, t, 0);
    if !s.ok || Peek(t, s.pos) == 0 then Out(false, s.pos, [])
    else
      var v := ParseValue(cfg, t, s.pos, []);
      if !v.ok || cfg.stopWhenDone then v
      else
        var s2 := Skip(cfg, t, v.pos);
        if !s2.ok || Peek(t, s2.pos) != 0 then Out(false, s2.pos, v.events) else Out(true, s2.pos, v.events)
  }
}
