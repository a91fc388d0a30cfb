/**
 * JSON text as section 2 to 7 of RFC 8259 generate it, with the comments and trailing commas that the flags add, and the
 * events it means: texts are generated from trees of syntax, with no parser in sight. The parser accepts exactly these.
 */
module Grammar {
  import opened Base
  import opened Json
  import opened Reader
  import opened Strings
  import AsciiWriter
  import Encodings
  import IterativeReader
  import RoundTrip
  import Writer

  /** The characters that the other modules call by name. */
  lemma NamesOfCharacters()
    ensures LBRACKET == '[' as int && RBRACKET == ']' as int && LBRACE == '{' as int && RBRACE == '}' as int
    ensures COMMA == ',' as int && COLON == ':' as int && QUOTE == '"' as int && BACKSLASH == '\\' as int
    ensures SLASH == '/' as int && STAR == '*' as int && PLUS == '+' as int && MINUS == '-' as int && DOT == '.' as int
    ensures ZERO == '0' as int && NINE == '9' as int && SPACE == ' ' as int
    ensures LF == '\n' as int && CR == '\r' as int && TAB == '\t' as int
    ensures NULL_TEXT == ['n' as int, 'u' as int, 'l' as int, 'l' as int]
    ensures TRUE_TEXT == ['t' as int, 'r' as int, 'u' as int, 'e' as int]
    ensures FALSE_TEXT == ['f' as int, 'a' as int, 'l' as int, 's' as int, 'e' as int]
  {
  }

  // ---- white space and comments ----

  datatype Blank = Space(c: byte) | Block(body: bytes) | Line(body: bytes)

  type Gap = seq<Blank>

  predicate ValidBlank(cfg: Config, b: Blank) {
    match b
    case Space(c) => c == ' ' as int || c == '\t' as int || c == '\n' as int || c == '\r' as int
    case Block(body) =>
      cfg.comments && 0 !in body && forall k | 0 <= k < |body| - 1 :: body[k] == '*' as int ==> body[k + 1] != '/' as int
    case Line(body) => cfg.comments && 0 !in body && LF !in body
  }

  function BlankText(b: Blank): bytes {
    match b
    case Space(c) => [c]
    case Block(body) => [SLASH, STAR] + body + [STAR, SLASH]
    case Line(body) => [SLASH, SLASH] + body + [LF]
  }

  predicate ValidGap(cfg: Config, g: Gap) { forall b | b in g :: ValidBlank(cfg, b) }

  function GapText(g: Gap): bytes {
    if g == [] then [] else BlankText(g[0]) + GapText(g[1..])
  }

  /** Neither white space nor the start of a comment. */
  predicate Stops(cfg: Config, c: byte) { !IsSpace(c) && !(cfg.comments && c == SLASH) }

  lemma SkipsOneSpace(cfg: Config, t: bytes, i: nat)
    requires IsSpace(Peek(t, i))
    ensures Skip(cfg, t, i) == Skip(cfg, t, i + 1)
  {
    assert SkipSpaces(t, i) == SkipSpaces(t, i + 1);
  }

  lemma {:induction false} BlockEnds(t: bytes, i: nat, body: bytes)
    requires 0 !in body && forall k | 0 <= k < |body| - 1 :: body[k] == STAR ==> body[k + 1] != SLASH
    requires At(t, i, body + [STAR, SLASH])
    ensures Reader.BlockComment(t, i) == Skipped(true, i + |body| + 2)
    decreases |body|
  {
    var w := body + [STAR, SLASH];
    assert t[i..i + |w|][0] == w[0] && t[i..i + |w|][1] == w[1];
    if body != [] {
      assert body[0] in body;
      assert w[1..] == body[1..] + [STAR, SLASH] && t[i + 1..i + |w|] == t[i..i + |w|][1..];
      BlockEnds(t, i + 1, body[1..]);
    }
  }

  lemma {:induction false} LineEnds(t: bytes, i: nat, body: bytes)
    requires 0 !in body && LF !in body && At(t, i, body + [LF])
    ensures Reader.LineComment(t, i) == i + |body| + 1
    decreases |body|
  {
    var w := body + [LF];
    assert t[i..i + |w|][0] == w[0];
    if body != [] {
      assert body[0] in body;
      assert w[1..] == body[1..] + [LF] && t[i + 1..i + |w|] == t[i..i + |w|][1..];
      LineEnds(t, i + 1, body[1..]);
    }
  }

  lemma SkipsBlockComment(cfg: Config, t: bytes, i: nat, end: nat)
    requires cfg.comments && Peek(t, i) == SLASH && Peek(t, i + 1) == STAR && Reader.BlockComment(t, i + 2) == Skipped(true, end)
    ensures Skip(cfg, t, i) == Skip(cfg, t, end)
  {
    assert SkipSpaces(t, i) == i;
  }

  lemma SkipsLineComment(cfg: Config, t: bytes, i: nat, end: nat)
    requires cfg.comments && Peek(t, i) == SLASH && Peek(t, i + 1) == SLASH && Reader.LineComment(t, i + 2) == end
    ensures Skip(cfg, t, i) == Skip(cfg, t, end)
  {
    assert SkipSpaces(t, i) == i;
  }

  lemma SkipsNothing(cfg: Config, t: bytes, q: nat)
    requires Stops(cfg, Peek(t, q))
    ensures Skip(cfg, t, q) == Skipped(true, q)
  {
  }

  lemma AtTwo(t: bytes, i: nat, a: byte, b: byte, rest: bytes)
    requires At(t, i, [a, b] + rest)
    ensures Peek(t, i) == a && Peek(t, i + 1) == b && At(t, i + 2, rest)
  {
    AtSplits(t, i, [a, b], rest);
    assert t[i..i + 2][0] == a && t[i..i + 2][1] == b;
  }

  lemma SkipsBlank(cfg: Config, t: bytes, i: nat, b: Blank)
    requires ValidBlank(cfg, b) && At(t, i, BlankText(b))
    ensures Skip(cfg, t, i) == Skip(cfg, t, i + |BlankText(b)|)
  {
    hide Skip, At, Peek, Reader.BlockComment, Reader.LineComment;
    match b
    case Space(c) =>
      AtFirst(t, i, [c]);
      SkipsOneSpace(cfg, t, i);
    case Block(body) =>
      assert BlankText(b) == [SLASH, STAR] + (body + [STAR, SLASH]);
      AtTwo(t, i, SLASH, STAR, body + [STAR, SLASH]);
      BlockEnds(t, i + 2, body);
      SkipsBlockComment(cfg, t, i, i + 2 + |body| + 2);
    case Line(body) =>
      assert BlankText(b) == [SLASH, SLASH] + (body + [LF]);
      AtTwo(t, i, SLASH, SLASH, body + [LF]);
      LineEnds(t, i + 2, body);
      SkipsLineComment(cfg, t, i, i + 2 + |body| + 1);
  }

  lemma {:induction false} SkipsOver(cfg: Config, t: bytes, i: nat, g: Gap)
    requires ValidGap(cfg, g) && At(t, i, GapText(g))
    ensures Skip(cfg, t, i) == Skip(cfg, t, i + |GapText(g)|)
    decreases |g|
  {
    hide Skip, At, BlankText, ValidBlank;
    if g != [] {
      assert g[0] in g;
      AtSplits(t, i, BlankText(g[0]), GapText(g[1..]));
      SkipsBlank(cfg, t, i, g[0]);
      SkipsOver(cfg, t, i + |BlankText(g[0])|, g[1..]);
    }
  }

  lemma SkipsGap(cfg: Config, t: bytes, i: nat, g: Gap)
    requires ValidGap(cfg, g) && At(t, i, GapText(g)) && Stops(cfg, Peek(t, i + |GapText(g)|))
    ensures Skip(cfg, t, i) == Skipped(true, i + |GapText(g)|)
  {
    hide Skip, At, GapText, ValidGap;
    SkipsOver(cfg, t, i, g);
    SkipsNothing(cfg, t, i + |GapText(g)|);
  }

  /** White space at the end of a document, where a last line comment needs no line feed. */
  datatype Tail = Tail(gap: Gap, comment: Option<bytes>)

  predicate ValidTail(cfg: Config, e: Tail) {
    && ValidGap(cfg, e.gap)
    && (e.comment.Some? ==> cfg.comments && 0 !in e.comment.value && LF !in e.comment.value)
  }

  function TailText(e: Tail): bytes {
    GapText(e.gap) + if e.comment.Some? then [SLASH, SLASH] + e.comment.value else []
  }

  lemma {:induction false} LineEndsAtNul(t: bytes, i: nat, body: bytes)
    requires 0 !in body && LF !in body && At(t, i, body) && Peek(t, i + |body|) == 0
    ensures Reader.LineComment(t, i) == i + |body|
    decreases |body|
  {
    if body != [] {
      assert body[0] in body && t[i..i + |body|][0] == body[0];
      assert t[i + 1..i + |body|] == t[i..i + |body|][1..];
      LineEndsAtNul(t, i + 1, body[1..]);
    }
  }

  lemma SkipsTail(cfg: Config, t: bytes, i: nat, e: Tail)
    requires ValidTail(cfg, e) && At(t, i, TailText(e)) && Peek(t, i + |TailText(e)|) == 0
    ensures Skip(cfg, t, i) == Skipped(true, i + |TailText(e)|)
  {
    hide Skip, At, Peek, GapText, ValidGap;
    var q := i + |GapText(e.gap)|;
    if e.comment.None? {
      assert TailText(e) == GapText(e.gap);
      SkipsGap(cfg, t, i, e.gap);
    } else {
      var body := e.comment.value;
      AtSplits(t, i, GapText(e.gap), [SLASH, SLASH] + body);
      SkipsOver(cfg, t, i, e.gap);
      AtTwo(t, q, SLASH, SLASH, body);
      LineEndsAtNul(t, q + 2, body);
      SkipsLineComment(cfg, t, q, q + 2 + |body|);
      SkipsNothing(cfg, t, q + 2 + |body|);
    }
  }

  // ---- and nothing else is skipped ----

  /** What a block comment holds that ends well. */
  lemma {:induction false} BlockOf(t: bytes, i: nat) returns (body: bytes)
    requires Reader.BlockComment(t, i).ok
    ensures 0 !in body && forall k | 0 <= k < |body| - 1 :: body[k] == STAR ==> body[k + 1] != SLASH
    ensures At(t, i, body + [STAR, SLASH]) && Reader.BlockComment(t, i).pos == i + |body| + 2
    decreases |t| - i
  {
    if Peek(t, i) == STAR && Peek(t, i + 1) == SLASH {
      body := [];
      assert t[i..i + 2] == [STAR, SLASH];
    } else {
      var rest := BlockOf(t, i + 1);
      body := [t[i]] + rest;
      assert At(t, i, [t[i]]) && body + [STAR, SLASH] == [t[i]] + (rest + [STAR, SLASH]);
      AtSplits(t, i, [t[i]], rest + [STAR, SLASH]);
      AtFirst(t, i + 1, rest + [STAR, SLASH]);
      assert t[i] != 0 && forall k | 0 < k < |body| :: body[k] == rest[k - 1];
    }
  }

  lemma {:induction false} LineOf(t: bytes, i: nat) returns (body: bytes, ended: bool)
    requires i <= |t|
    ensures 0 !in body && LF !in body && At(t, i, if ended then body + [LF] else body)
    ensures Reader.LineComment(t, i) == i + |body| + (if ended then 1 else 0)
    ensures !ended ==> Peek(t, i + |body|) == 0
    decreases |t| - i
  {
    if Peek(t, i) == 0 {
      body, ended := [], false;
    } else if Peek(t, i) == LF {
      body, ended := [], true;
    } else {
      hide At;
      var rest;
      rest, ended := LineOf(t, i + 1);
      body := [t[i]] + rest;
      var w := if ended then rest + [LF] else rest;
      assert (if ended then body + [LF] else body) == [t[i]] + w;
      CharIsAt(t, i);
      AtSplits(t, i, [t[i]], w);
    }
  }

  lemma CharIsAt(t: bytes, i: nat)
    requires Peek(t, i) != 0
    ensures i < |t| && At(t, i, [Peek(t, i)])
  {
  }

  lemma NothingIsAt(t: bytes, i: nat)
    requires i <= |t|
    ensures At(t, i, [])
  {
  }

  lemma SpaceIsBlank(cfg: Config, t: bytes, i: nat)
    requires IsSpace(Peek(t, i))
    ensures ValidBlank(cfg, Space(Peek(t, i))) && At(t, i, BlankText(Space(Peek(t, i)))) && |BlankText(Space(Peek(t, i)))| == 1
  {
  }

  lemma CommentIsWhole(cfg: Config, t: bytes, i: nat)
    requires Skip(cfg, t, i).ok && !Stops(cfg, Peek(t, i)) && !IsSpace(Peek(t, i))
    ensures cfg.comments && Peek(t, i) == SLASH && i + 2 <= |t|
    ensures Peek(t, i + 1) == STAR || Peek(t, i + 1) == SLASH
    ensures Peek(t, i + 1) == STAR ==> Reader.BlockComment(t, i + 2).ok
  {
    assert SkipSpaces(t, i) == i;
  }

  lemma BothSlashes(t: bytes, i: nat, body: bytes)
    requires Peek(t, i) == SLASH && Peek(t, i + 1) == SLASH && At(t, i + 2, body)
    ensures At(t, i, [SLASH, SLASH] + body)
  {
    assert t[i..i + 2] == [SLASH, SLASH];
    AtSplits(t, i, [SLASH, SLASH], body);
  }

  lemma BlockIsBlank(cfg: Config, t: bytes, i: nat, body: bytes)
    requires cfg.comments && Peek(t, i) == SLASH && Peek(t, i + 1) == STAR && At(t, i + 2, body + [STAR, SLASH])
    requires 0 !in body && forall k | 0 <= k < |body| - 1 :: body[k] == STAR ==> body[k + 1] != SLASH
    ensures ValidBlank(cfg, Block(body)) && At(t, i, BlankText(Block(body))) && |BlankText(Block(body))| == |body| + 4
  {
    assert t[i..i + 2] == [SLASH, STAR];
    AtSplits(t, i, [SLASH, STAR], body + [STAR, SLASH]);
    assert BlankText(Block(body)) == [SLASH, STAR] + (body + [STAR, SLASH]);
  }

  lemma LineIsBlank(cfg: Config, t: bytes, i: nat, body: bytes)
    requires cfg.comments && Peek(t, i) == SLASH && Peek(t, i + 1) == SLASH && At(t, i + 2, body + [LF])
    requires 0 !in body && LF !in body
    ensures ValidBlank(cfg, Line(body)) && At(t, i, BlankText(Line(body))) && |BlankText(Line(body))| == |body| + 3
  {
    BothSlashes(t, i, body + [LF]);
    assert BlankText(Line(body)) == [SLASH, SLASH] + (body + [LF]);
  }

  lemma {:induction false} TailOf(cfg: Config, t: bytes, i: nat) returns (e: Tail)
    requires i <= |t| && Skip(cfg, t, i).ok
    ensures ValidTail(cfg, e) && At(t, i, TailText(e)) && Skip(cfg, t, i).pos == i + |TailText(e)|
    ensures Stops(cfg, Peek(t, i + |TailText(e)|)) && (e.comment.Some? ==> Peek(t, i + |TailText(e)|) == 0)
    decreases |t| - i
  {
    hide At, Peek, Reader.BlockComment, Reader.LineComment, Skip, ValidBlank, BlankText;
    if Stops(cfg, Peek(t, i)) {
      SkipsNothing(cfg, t, i);
      e := Tail([], None);
      NothingIsAt(t, i);
    } else if IsSpace(Peek(t, i)) {
      SkipsOneSpace(cfg, t, i);
      SpaceIsBlank(cfg, t, i);
      e := TailBehind(cfg, t, i, Space(Peek(t, i)));
    } else if Peek(t, i + 1) == STAR {
      CommentIsWhole(cfg, t, i);
      var body := BlockOf(t, i + 2);
      SkipsBlockComment(cfg, t, i, i + 2 + |body| + 2);
      BlockIsBlank(cfg, t, i, body);
      e := TailBehind(cfg, t, i, Block(body));
    } else {
      CommentIsWhole(cfg, t, i);
      var body, ended := LineOf(t, i + 2);
      SkipsLineComment(cfg, t, i, i + 2 + |body| + if ended then 1 else 0);
      if ended {
        LineIsBlank(cfg, t, i, body);
        e := TailBehind(cfg, t, i, Line(body));
      } else {
        SkipsNothing(cfg, t, i + 2 + |body|);
        e := Tail([], Some(body));
        assert TailText(e) == [SLASH, SLASH] + body;
        BothSlashes(t, i, body);
      }
    }
  }

  lemma TailBehind(cfg: Config, t: bytes, i: nat, b: Blank) returns (e: Tail)
    requires i <= |t| && Skip(cfg, t, i).ok && ValidBlank(cfg, b) && At(t, i, BlankText(b)) && BlankText(b) != []
    requires Skip(cfg, t, i) == Skip(cfg, t, i + |BlankText(b)|)
    ensures ValidTail(cfg, e) && At(t, i, TailText(e)) && Skip(cfg, t, i).pos == i + |TailText(e)|
    ensures Stops(cfg, Peek(t, i + |TailText(e)|)) && (e.comment.Some? ==> Peek(t, i + |TailText(e)|) == 0)
    decreases |t| - i, 0
  {
    hide Peek, Skip, ValidBlank, BlankText;
    var rest := TailOf(cfg, t, i + |BlankText(b)|);
    e := Tail([b] + rest.gap, rest.comment);
    assert e.gap[1..] == rest.gap;
    var c := if e.comment.Some? then [SLASH, SLASH] + e.comment.value else [];
    assert BlankText(b) + (GapText(rest.gap) + c) == BlankText(b) + GapText(rest.gap) + c;
    AtSplits(t, i, BlankText(b), TailText(rest));
  }

  // ---- strings ----

  const UPPER: string := "0123456789ABCDEF"
  const LOWER: string := "0123456789abcdef"

  /** The character is a hexadecimal digit for the value, in either case. */
  predicate SpellsDigit(c: byte, v: nat) {
    v < 16 && (c == UPPER[v] as int || c == LOWER[v] as int)
  }

  /** Four hexadecimal digits, in any mixture of cases, for a code unit. */
  predicate Spells(ds: bytes, u: nat) {
    && |ds| == 4 && u <= 0xFFFF
    && SpellsDigit(ds[0], u / 4096) && SpellsDigit(ds[1], u / 256 % 16)
    && SpellsDigit(ds[2], u / 16 % 16) && SpellsDigit(ds[3], u % 16)
  }

  /** The letters of the short escapes, and the characters they stand for. */
  const SHORT: string := "\"\\/bfnrt"
  const MEANT: bytes := [0x22, 0x5C, 0x2F, 0x08, 0x0C, 0x0A, 0x0D, 0x09]

  /** One character of a string as it is spelled; code units above the basic plane come in pairs. */
  datatype Spelling = Raw(c: byte) | Short(k: nat) | Unit(u: nat, ds: bytes) | Pair(hi: nat, lo: nat, ds: bytes, es: bytes)

  predicate ValidSpelling(c: Spelling) {
    match c
    case Raw(b) => b >= 0x20 && b != '"' as int && b != '\\' as int
    case Short(k) => k < 8
    case Unit(u, ds) => Spells(ds, u) && !(0xD800 <= u <= 0xDBFF)
    case Pair(hi, lo, ds, es) => Spells(ds, hi) && Spells(es, lo) && 0xD800 <= hi <= 0xDBFF && 0xDC00 <= lo <= 0xDFFF
  }

  function SpellingText(c: Spelling): bytes {
    match c
    case Raw(b) => [b]
    case Short(k) => [BACKSLASH, if k < 8 then SHORT[k] as int else 0]
    case Unit(_, ds) => [BACKSLASH, 'u' as int] + ds
    case Pair(_, _, ds, es) => [BACKSLASH, 'u' as int] + ds + [BACKSLASH, 'u' as int] + es
  }

  function SpellingMeaning(c: Spelling): bytes
    requires ValidSpelling(c)
  {
    match c
    case Raw(b) => [b]
    case Short(k) => [MEANT[k]]
    case Unit(u, _) => Encodings.Encode(u)
    case Pair(hi, lo, _, _) => Encodings.Encode(0x10000 + (hi - 0xD800) * 0x400 + (lo - 0xDC00))
  }

  predicate ValidSpellings(cs: seq<Spelling>) { forall c | c in cs :: ValidSpelling(c) }

  /** The text of the characters and the closing quote. */
  function BodyText(cs: seq<Spelling>): bytes {
    if cs == [] then [QUOTE] else SpellingText(cs[0]) + BodyText(cs[1..])
  }

  function Meaning(cs: seq<Spelling>): bytes
    requires ValidSpellings(cs)
  {
    if cs == [] then [] else SpellingMeaning(cs[0]) + Meaning(cs[1..])
  }

  /** A character counts as a hexadecimal digit exactly if it is in one of the alphabets, and then for its place there. */
  lemma HexDigitsExactly(c: byte)
    ensures forall v: nat | v < 16 :: HexValue(c) == v <==> SpellsDigit(c, v)
    ensures HexValue(c) == -1 <==> forall v: nat | v < 16 :: !SpellsDigit(c, v)
  {
    assert forall v: nat | v < 16 :: SpellsDigit(c, v) <==> c == (if v < 10 then 0x30 + v else 0x37 + v) || c == (if v < 10 then 0x30 + v else 0x57 + v) by {
      forall v: nat | v < 16
        ensures SpellsDigit(c, v) <==> c == (if v < 10 then 0x30 + v else 0x37 + v) || c == (if v < 10 then 0x30 + v else 0x57 + v)
      {
        AlphabetAt(v);
      }
    }
    if HexValue(c) >= 0 {
      assert SpellsDigit(c, HexValue(c));
    }
  }

  lemma AlphabetAt(v: nat)
    requires v < 16
    ensures UPPER[v] as int == (if v < 10 then 0x30 + v else 0x37 + v) && LOWER[v] as int == (if v < 10 then 0x30 + v else 0x57 + v)
  {
  }

  /** Four digits in any case are read as the code unit they spell. */
  lemma Hex4Exactly(t: bytes, i: nat, u: nat)
    requires i + 4 <= |t|
    ensures Hex4(t, i) == u <==> Spells(t[i..i + 4], u)
  {
    hide HexValue, SpellsDigit;
    var a, b, c, d := HexValue(t[i]), HexValue(t[i + 1]), HexValue(t[i + 2]), HexValue(t[i + 3]);
    HexDigitsExactly(t[i]);
    HexDigitsExactly(t[i + 1]);
    HexDigitsExactly(t[i + 2]);
    HexDigitsExactly(t[i + 3]);
    if Spells(t[i..i + 4], u) {
      AsciiWriter.Nibbles(u);
    }
    if Hex4(t, i) == u {
      NibblesOf(a, b, c, d);
    }
  }

  lemma NibblesOf(a: nat, b: nat, c: nat, d: nat)
    requires a < 16 && b < 16 && c < 16 && d < 16
    ensures var u := ((a * 16 + b) * 16 + c) * 16 + d;
            u / 4096 == a && u / 256 % 16 == b && u / 16 % 16 == c && u % 16 == d
  {
    var u := ((a * 16 + b) * 16 + c) * 16 + d;
    assert u / 16 == (a * 16 + b) * 16 + c;
    assert u / 256 == u / 16 / 16 == a * 16 + b;
    assert u / 4096 == u / 256 / 16 == a;
  }

  /** The short escapes are those of the table, with the meanings of the table. */
  lemma ShortExactly(c: byte)
    ensures forall k: nat | k < 8 && c == SHORT[k] as int :: Unescape(c) == MEANT[k] && MEANT[k] != 0
    ensures Unescape(c) != 0 ==> exists k: nat | k < 8 :: c == SHORT[k] as int
    ensures Unescape('u' as int) == 0
  {
    assert SHORT[0] == '"' && SHORT[1] == '\\' && SHORT[2] == '/' && SHORT[3] == 'b';
    assert SHORT[4] == 'f' && SHORT[5] == 'n' && SHORT[6] == 'r' && SHORT[7] == 't';
  }

  lemma BodyStep(t: bytes, i: nat, acc: bytes)
    ensures Peek(t, i) == BACKSLASH && Unescape(Peek(t, i + 1)) != 0
            ==> StringBody(t, i, acc) == StringBody(t, i + 2, acc + [Unescape(Peek(t, i + 1))])
    ensures Peek(t, i) == BACKSLASH && Peek(t, i + 1) == 'u' as int && UnicodeEscape(t, i).ok
            ==> StringBody(t, i, acc) == StringBody(t, UnicodeEscape(t, i).pos, acc + UnicodeEscape(t, i).s)
    ensures Peek(t, i) >= 0x20 && Peek(t, i) != QUOTE && Peek(t, i) != BACKSLASH
            ==> StringBody(t, i, acc) == StringBody(t, i + 1, acc + [Peek(t, i)])
  {
    hide UnicodeEscape;
  }

  /** What the digits of one or two escapes make of them. */
  lemma OneEscape(t: bytes, i: nat, u: nat)
    requires Hex4(t, i + 2) == u && !(0xD800 <= u <= 0xDBFF)
    ensures UnicodeEscape(t, i) == Decoded(true, i + 6, Encodings.Encode(u))
  {
    hide Hex4, Encodings.Encode, Peek;
  }

  lemma TwoEscapes(t: bytes, i: nat, hi: nat, lo: nat)
    requires Hex4(t, i + 2) == hi && 0xD800 <= hi <= 0xDBFF && Hex4(t, i + 8) == lo && 0xDC00 <= lo <= 0xDFFF
    requires Peek(t, i + 6) == BACKSLASH && Peek(t, i + 7) == 'u' as int
    ensures UnicodeEscape(t, i) == Decoded(true, i + 12, Encodings.Encode(0x10000 + (hi - 0xD800) * 0x400 + (lo - 0xDC00)))
  {
    hide Hex4, Encodings.Encode, Peek;
  }

  lemma ReadsUnit(t: bytes, i: nat, c: Spelling)
    requires (c.Unit? || c.Pair?) && ValidSpelling(c) && At(t, i, SpellingText(c))
    ensures Peek(t, i) == BACKSLASH && Peek(t, i + 1) == 'u' as int
    ensures UnicodeEscape(t, i) == Decoded(true, i + |SpellingText(c)|, SpellingMeaning(c))
  {
    hide Spells, Encodings.Encode, Hex4, At, Peek, UnicodeEscape;
    if c.Unit? {
      AtTwo(t, i, BACKSLASH, 'u' as int, c.ds);
      ReadsDigits(t, i + 2, c.ds, c.u);
      OneEscape(t, i, c.u);
    } else {
      assert SpellingText(c) == [BACKSLASH, 'u' as int] + (c.ds + ([BACKSLASH, 'u' as int] + c.es));
      AtTwo(t, i, BACKSLASH, 'u' as int, c.ds + ([BACKSLASH, 'u' as int] + c.es));
      AtSplits(t, i + 2, c.ds, [BACKSLASH, 'u' as int] + c.es);
      ReadsDigits(t, i + 2, c.ds, c.hi);
      AtTwo(t, i + 6, BACKSLASH, 'u' as int, c.es);
      ReadsDigits(t, i + 8, c.es, c.lo);
      TwoEscapes(t, i, c.hi, c.lo);
    }
  }

  lemma ReadsDigits(t: bytes, i: nat, ds: bytes, u: nat)
    requires Spells(ds, u) && At(t, i, ds)
    ensures Hex4(t, i) == u && |ds| == 4
  {
    Hex4Exactly(t, i, u);
  }

  lemma ReadsSpelling(t: bytes, i: nat, c: Spelling, acc: bytes)
    requires ValidSpelling(c) && At(t, i, SpellingText(c))
    ensures StringBody(t, i, acc) == StringBody(t, i + |SpellingText(c)|, acc + SpellingMeaning(c))
  {
    hide StringBody, UnicodeEscape, Spells, Unescape, At, Encodings.Encode;
    BodyStep(t, i, acc);
    match c
    case Raw(_) => AtFirst(t, i, SpellingText(c));
    case Short(k) =>
      assert SpellingText(c) == [BACKSLASH, SHORT[k] as int] + [];
      AtTwo(t, i, BACKSLASH, SHORT[k] as int, []);
      ShortExactly(SHORT[k] as int);
    case _ =>
      ReadsUnit(t, i, c);
      ShortExactly('u' as int);
  }

  lemma {:induction false} ReadsBody(t: bytes, i: nat, cs: seq<Spelling>, acc: bytes)
    requires ValidSpellings(cs) && At(t, i, BodyText(cs))
    ensures StringBody(t, i, acc) == Decoded(true, i + |BodyText(cs)|, acc + Meaning(cs))
    decreases |cs|
  {
    hide StringBody, At, ValidSpelling, SpellingText, SpellingMeaning;
    if cs == [] {
      AtFirst(t, i, [QUOTE]);
      ClosingQuote(t, i, acc);
      assert acc + [] == acc;
    } else {
      var c := cs[0];
      assert c in cs;
      AtSplits(t, i, SpellingText(c), BodyText(cs[1..]));
      ReadsSpelling(t, i, c, acc);
      ReadsBody(t, i + |SpellingText(c)|, cs[1..], acc + SpellingMeaning(c));
      assert acc + SpellingMeaning(c) + Meaning(cs[1..]) == acc + Meaning(cs);
    }
  }

  // ---- and no other string is read ----

  lemma DigitsOf(t: bytes, i: nat)
    requires Hex4(t, i) >= 0
    ensures i + 4 <= |t| && Spells(t[i..i + 4], Hex4(t, i)) && At(t, i, t[i..i + 4])
  {
    Hex4Exactly(t, i, Hex4(t, i));
  }

  lemma EscapeIsAt(t: bytes, i: nat, ds: bytes)
    requires Peek(t, i) == BACKSLASH && Peek(t, i + 1) == 'u' as int && At(t, i + 2, ds)
    ensures At(t, i, [BACKSLASH, 'u' as int] + ds)
  {
    assert t[i..i + 2] == [BACKSLASH, 'u' as int];
    AtSplits(t, i, [BACKSLASH, 'u' as int], ds);
  }

  /** An escape that is read has digits, and a pair if it starts one. */
  lemma EscapeIsWhole(t: bytes, i: nat)
    requires UnicodeEscape(t, i).ok
    ensures Hex4(t, i + 2) >= 0
    ensures 0xD800 <= Hex4(t, i + 2) <= 0xDBFF ==>
              Peek(t, i + 6) == BACKSLASH && Peek(t, i + 7) == 'u' as int && 0xDC00 <= Hex4(t, i + 8) <= 0xDFFF
  {
    hide Hex4, Encodings.Encode, Peek;
  }

  lemma UnitOf(t: bytes, i: nat) returns (c: Spelling)
    requires Peek(t, i) == BACKSLASH && Peek(t, i + 1) == 'u' as int && UnicodeEscape(t, i).ok
    ensures ValidSpelling(c) && At(t, i, SpellingText(c)) && SpellingText(c) != []
    ensures UnicodeEscape(t, i) == Decoded(true, i + |SpellingText(c)|, SpellingMeaning(c))
  {
    hide Hex4, Spells, Encodings.Encode, At, Peek, UnicodeEscape;
    var h := Hex4(t, i + 2);
    EscapeIsWhole(t, i);
    DigitsOf(t, i + 2);
    var ds := t[i + 2..i + 6];
    EscapeIsAt(t, i, ds);
    if 0xD800 <= h <= 0xDBFF {
      DigitsOf(t, i + 8);
      var es := t[i + 8..i + 12];
      EscapeIsAt(t, i + 6, es);
      c := Pair(h, Hex4(t, i + 8), ds, es);
      AtSplits(t, i, [BACKSLASH, 'u' as int] + ds, [BACKSLASH, 'u' as int] + es);
      assert SpellingText(c) == [BACKSLASH, 'u' as int] + ds + ([BACKSLASH, 'u' as int] + es);
      TwoEscapes(t, i, h, Hex4(t, i + 8));
    } else {
      c := Unit(h, ds);
      OneEscape(t, i, h);
    }
  }

  lemma SpellingOf(t: bytes, i: nat, acc: bytes) returns (c: Spelling)
    requires StringBody(t, i, acc).ok && Peek(t, i) != QUOTE
    ensures ValidSpelling(c) && At(t, i, SpellingText(c)) && SpellingText(c) != []
    ensures StringBody(t, i, acc) == StringBody(t, i + |SpellingText(c)|, acc + SpellingMeaning(c))
  {
    hide UnicodeEscape, Unescape, Spells, Encodings.Encode;
    if Peek(t, i) == BACKSLASH {
      var e := Peek(t, i + 1);
      ShortExactly(e);
      if Unescape(e) != 0 {
        var k: nat :| k < 8 && e == SHORT[k] as int;
        c := Short(k);
        assert t[i..i + 2] == [BACKSLASH, e];
      } else {
        c := UnitOf(t, i);
      }
    } else {
      c := Raw(t[i]);
    }
  }

  lemma {:induction false} BodyOf(t: bytes, i: nat, acc: bytes) returns (cs: seq<Spelling>)
    requires StringBody(t, i, acc).ok
    ensures ValidSpellings(cs) && At(t, i, BodyText(cs))
    ensures StringBody(t, i, acc) == Decoded(true, i + |BodyText(cs)|, acc + Meaning(cs))
    decreases |t| - i
  {
    hide StringBody, ValidSpelling, SpellingText, SpellingMeaning;
    if Peek(t, i) == QUOTE {
      cs := [];
      ClosingQuote(t, i, acc);
      assert acc + [] == acc;
    } else {
      var c := SpellingOf(t, i, acc);
      var rest := BodyOf(t, i + |SpellingText(c)|, acc + SpellingMeaning(c));
      cs := [c] + rest;
      assert cs[1..] == rest;
      AtSplits(t, i, SpellingText(c), BodyText(rest));
      assert acc + SpellingMeaning(c) + Meaning(rest) == acc + (SpellingMeaning(c) + Meaning(rest));
    }
  }

  // ---- how the writers spell ----

  function UpperDigit(v: nat): byte
    requires v < 16
  {
    AlphabetAt(v);
    UPPER[v] as int
  }

  function UpperDigits(u: nat): bytes
    requires u <= 0xFFFF
  {
    [UpperDigit(u / 4096), UpperDigit(u / 256 % 16), UpperDigit(u / 16 % 16), UpperDigit(u % 16)]
  }

  /** A short escape where there is one, but for the solidus; four digits in upper case for other control characters. */
  function WriterSpelling(c: byte): Spelling {
    if c == '"' as int then Short(0)
    else if c == '\\' as int then Short(1)
    else if c == 0x08 then Short(3)
    else if c == 0x0C then Short(4)
    else if c == 0x0A then Short(5)
    else if c == 0x0D then Short(6)
    else if c == 0x09 then Short(7)
    else if c < 0x20 then Unit(c, UpperDigits(c))
    else Raw(c)
  }

  lemma WriterDigit(v: nat)
    requires v < 16
    ensures Writer.HexDigit(v) == UpperDigit(v) && SpellsDigit(UpperDigit(v), v)
  {
    AlphabetAt(v);
  }

  lemma UpperDigitsSpell(u: nat)
    requires u <= 0xFFFF
    ensures Spells(UpperDigits(u), u) && Writer.HexEscape(u) == [BACKSLASH, 'u' as int] + UpperDigits(u)
  {
    hide SpellsDigit, Writer.HexDigit, UpperDigit;
    WriterDigit(u / 4096);
    WriterDigit(u / 256 % 16);
    WriterDigit(u / 16 % 16);
    WriterDigit(u % 16);
  }

  predicate HasShort(c: byte) {
    c == '"' as int || c == '\\' as int || c == 0x08 || c == 0x0C || c == 0x0A || c == 0x0D || c == 0x09
  }

  lemma WritesControl(c: byte)
    requires c < 0x20 && !HasShort(c)
    ensures var w := WriterSpelling(c);
            w == Unit(c, UpperDigits(c)) && ValidSpelling(w) && Writer.EscapeByte(c) == SpellingText(w) && SpellingMeaning(w) == [c]
  {
    hide Spells, Writer.HexDigit, SpellsDigit;
    UpperDigitsSpell(c);
    assert Writer.EscapeByte(c) == Writer.HexEscape(c) by {
      WriterDigit(0);
    }
  }

  lemma WritesShort(c: byte)
    requires HasShort(c)
    ensures var w := WriterSpelling(c);
            w.Short? && ValidSpelling(w) && Writer.EscapeByte(c) == SpellingText(w) && SpellingMeaning(w) == [c]
  {
    hide Writer.HexDigit, UpperDigits;
    assert SHORT[0] == '"' && SHORT[1] == '\\' && SHORT[3] == 'b' && SHORT[4] == 'f';
    assert SHORT[5] == 'n' && SHORT[6] == 'r' && SHORT[7] == 't';
  }

  /** Every byte is written in one way, which the grammar has and which means the byte. */
  lemma WritesSpelling(c: byte)
    ensures var w := WriterSpelling(c);
            ValidSpelling(w) && Writer.EscapeByte(c) == SpellingText(w) && SpellingMeaning(w) == [c]
  {
    hide Spells, Writer.HexDigit, UpperDigits;
    if HasShort(c) {
      WritesShort(c);
    } else if c < 0x20 {
      WritesControl(c);
    }
  }

  /** For ASCII a code point outside of it is one escape, or a surrogate pair of them, in upper case. */
  lemma WritesUnicode(cp: nat)
    requires Encodings.Scalar(cp)
    ensures cp <= 0xFFFF ==> Writer.UnicodeText(cp) == SpellingText(Unit(cp, UpperDigits(cp))) && ValidSpelling(Unit(cp, UpperDigits(cp)))
    ensures cp > 0xFFFF ==>
              var hi, lo := 0xD800 + (cp - 0x10000) / 0x400, 0xDC00 + (cp - 0x10000) % 0x400;
              var w := Pair(hi, lo, UpperDigits(hi), UpperDigits(lo));
              Writer.UnicodeText(cp) == SpellingText(w) && ValidSpelling(w) && SpellingMeaning(w) == Encodings.Encode(cp)
  {
    hide Spells, Writer.HexEscape, Encodings.Encode, UpperDigits;
    if cp <= 0xFFFF {
      UpperDigitsSpell(cp);
    } else {
      UpperDigitsSpell(0xD800 + (cp - 0x10000) / 0x400);
      UpperDigitsSpell(0xDC00 + (cp - 0x10000) % 0x400);
    }
  }

  // ---- numbers ----

  predicate Digits(ds: bytes) { ds != [] && forall k | 0 <= k < |ds| :: '0' as int <= ds[k] <= '9' as int }

  datatype Power = Power(letter: byte, sign: bytes, digits: bytes)

  datatype Numeral = Numeral(minus: bool, digits: bytes, fraction: Option<bytes>, power: Option<Power>)

  predicate ValidNumeral(n: Numeral) {
    && Digits(n.digits) && (n.digits[0] == '0' as int ==> |n.digits| == 1)
    && (n.fraction.Some? ==> Digits(n.fraction.value))
    && (n.power.Some? ==>
          && (n.power.value.letter == 'e' as int || n.power.value.letter == 'E' as int)
          && (n.power.value.sign == [] || n.power.value.sign == ['+' as int] || n.power.value.sign == ['-' as int])
          && Digits(n.power.value.digits))
  }

  function FractionText(n: Numeral): bytes { if n.fraction.Some? then [DOT] + n.fraction.value else [] }

  function PowerText(n: Numeral): bytes {
    if n.power.Some? then [n.power.value.letter] + n.power.value.sign + n.power.value.digits else []
  }

  function NumeralText(n: Numeral): bytes {
    (if n.minus then [MINUS] else []) + (n.digits + (FractionText(n) + PowerText(n)))
  }

  /** An integer that fits is passed on exactly, by the narrowest call for its sign; everything else by its literal. */
  function NumeralEvent(n: Numeral): Event
    requires ValidNumeral(n)
  {
    var m := Decimal(n.digits);
    if n.fraction.Some? || n.power.Some? then DoubleEvent(NumeralText(n))
    else if n.minus && m <= 0x8000_0000 then IntegerEvent(Int, 0 - m)
    else if n.minus && m <= 0x8000_0000_0000_0000 then IntegerEvent(Int64, 0 - m)
    else if !n.minus && m <= 0xFFFF_FFFF then IntegerEvent(Uint, m)
    else if !n.minus && m <= 0xFFFF_FFFF_FFFF_FFFF then IntegerEvent(Uint64, m)
    else DoubleEvent(NumeralText(n))
  }

  predicate NumeralFits(cfg: Config, n: Numeral)
    requires ValidNumeral(n)
  {
    NumeralEvent(n).DoubleEvent? ==> !cfg.tooBig(NumeralText(n))
  }

  /** A character that would be taken as part of the number in front of it. */
  predicate Continues(n: Numeral, c: byte) {
    || (IsDigit(c) && !(n.digits == ['0' as int] && n.fraction.None? && n.power.None?))
    || (c == '.' as int && n.fraction.None? && n.power.None?)
    || ((c == 'e' as int || c == 'E' as int) && n.power.None?)
  }

  lemma ReadsDigitRun(t: bytes, i: nat, ds: bytes)
    requires Digits(ds) && At(t, i, ds) && !IsDigit(Peek(t, i + |ds|))
    ensures EndOfDigits(t, i) == i + |ds| && IsDigit(Peek(t, i))
  {
    forall k | i <= k < i + |ds| ensures IsDigit(t[k]) {
      assert t[i..i + |ds|][k - i] == ds[k - i];
    }
    RoundTrip.EndOfDigitsOver(t, i, i + |ds|);
  }

  lemma ReadsFraction(t: bytes, b: nat, n: Numeral)
    requires ValidNumeral(n) && At(t, b, FractionText(n))
    requires var c := Peek(t, b + |FractionText(n)|); if n.fraction.None? then c != DOT else !IsDigit(c)
    ensures Fraction(t, b) == Span(true, b + |FractionText(n)|)
  {
    hide EndOfDigits, At, Digits, IsDigit;
    if n.fraction.Some? {
      AtFirst(t, b, FractionText(n));
      AtSplits(t, b, [DOT], n.fraction.value);
      ReadsDigitRun(t, b + 1, n.fraction.value);
    }
  }

  /** Behind the letter of an exponent: a sign if there is one, then digits. */
  lemma ExponentAt(t: bytes, c: nat, d: nat)
    requires Peek(t, c) == 'e' as int || Peek(t, c) == 'E' as int
    requires if Peek(t, c + 1) == PLUS || Peek(t, c + 1) == MINUS then d == c + 2 else d == c + 1
    ensures Exponent(t, c) == if IsDigit(Peek(t, d)) then Span(true, EndOfDigits(t, d)) else Span(false, d)
  {
    hide EndOfDigits, Peek;
  }

  /** The sign is there exactly if the character behind the letter is one. */
  lemma SignIsFirst(sign: bytes, ds: bytes)
    requires Digits(ds) && (sign == [] || sign == ['+' as int] || sign == ['-' as int])
    ensures sign + ds != [] && (sign != [] <==> (sign + ds)[0] == PLUS || (sign + ds)[0] == MINUS) && |sign| <= 1
  {
    assert IsDigit(ds[0]);
  }

  lemma ReadsPower(t: bytes, c: nat, n: Numeral)
    requires ValidNumeral(n) && At(t, c, PowerText(n)) && !Continues(n, Peek(t, c + |PowerText(n)|))
    ensures Exponent(t, c) == Span(true, c + |PowerText(n)|)
  {
    if n.power.Some? {
      var e := n.power.value;
      assert !IsDigit(Peek(t, c + |PowerText(n)|));
      ReadsPowerParts(t, c, e.letter, e.sign, e.digits);
    }
  }

  lemma ReadsPowerParts(t: bytes, c: nat, letter: byte, sign: bytes, ds: bytes)
    requires (letter == 'e' as int || letter == 'E' as int) && Digits(ds)
    requires sign == [] || sign == ['+' as int] || sign == ['-' as int]
    requires At(t, c, [letter] + sign + ds) && !IsDigit(Peek(t, c + |[letter] + sign + ds|))
    ensures Exponent(t, c) == Span(true, c + |[letter] + sign + ds|)
  {
    hide EndOfDigits, At, Peek, Exponent, Digits, IsDigit;
    assert [letter] + sign + ds == [letter] + (sign + ds);
    AtFirst(t, c, [letter] + sign + ds);
    AtSplits(t, c, [letter], sign + ds);
    AtSplits(t, c + 1, sign, ds);
    SignIsFirst(sign, ds);
    AtFirst(t, c + 1, sign + ds);
    var d := c + 1 + |sign|;
    ReadsDigitRun(t, d, ds);
    ExponentAt(t, c, d);
  }

  lemma ReadsInteger(t: bytes, a: nat, ds: bytes)
    requires Digits(ds) && (ds[0] == ZERO ==> |ds| == 1) && At(t, a, ds) && (IsDigit(Peek(t, a + |ds|)) ==> ds == [ZERO])
    ensures IsDigit(Peek(t, a)) && EndOfInteger(t, a) == a + |ds| && t[a..EndOfInteger(t, a)] == ds
  {
    AtFirst(t, a, ds);
    if ds[0] != ZERO {
      ReadsDigitRun(t, a, ds);
    }
  }

  /** What follows the parts of a number does not continue them. */
  lemma PartsEnd(t: bytes, b: nat, c: nat, n: Numeral)
    requires ValidNumeral(n) && At(t, b, FractionText(n)) && c == b + |FractionText(n)|
    requires At(t, c, PowerText(n)) && !Continues(n, Peek(t, c + |PowerText(n)|))
    ensures if n.fraction.None? then Peek(t, c) != DOT else !IsDigit(Peek(t, c))
    ensures IsDigit(Peek(t, b)) ==> n.digits == [ZERO]
  {
    if n.power.Some? {
      AtFirst(t, c, PowerText(n));
    }
    if n.fraction.Some? {
      AtFirst(t, b, FractionText(n));
    }
  }

  lemma ReadsParts(t: bytes, i: nat, a: nat, n: Numeral)
    requires ValidNumeral(n) && At(t, i, NumeralText(n)) && !Continues(n, Peek(t, i + |NumeralText(n)|))
    requires a == if n.minus then i + 1 else i
    ensures n.minus <==> Peek(t, i) == MINUS
    ensures IsDigit(Peek(t, a)) && EndOfInteger(t, a) == a + |n.digits| && t[a..EndOfInteger(t, a)] == n.digits
    ensures var b := EndOfInteger(t, a);
            && Fraction(t, b) == Span(true, b + |FractionText(n)|)
            && Exponent(t, b + |FractionText(n)|) == Span(true, i + |NumeralText(n)|)
  {
    hide At, Peek, EndOfInteger, Fraction, Exponent, FractionText, PowerText, Continues;
    var b := a + |n.digits|;
    var c := b + |FractionText(n)|;
    AtSplits(t, i, if n.minus then [MINUS] else [], n.digits + (FractionText(n) + PowerText(n)));
    AtSplits(t, a, n.digits, FractionText(n) + PowerText(n));
    AtSplits(t, b, FractionText(n), PowerText(n));
    PartsEnd(t, b, c, n);
    ReadsInteger(t, a, n.digits);
    ReadsFraction(t, b, n);
    ReadsPower(t, c, n);
    AtFirst(t, i, NumeralText(n));
  }

  lemma ReadsNumeral(cfg: Config, t: bytes, i: nat, n: Numeral, acc: seq<Event>)
    requires ValidNumeral(n) && At(t, i, NumeralText(n)) && !Continues(n, Peek(t, i + |NumeralText(n)|))
    ensures ParseNumber(cfg, t, i, acc) ==
            if NumeralFits(cfg, n) then Out(true, i + |NumeralText(n)|, acc + [NumeralEvent(n)])
            else Out(false, i + |NumeralText(n)|, acc)
  {
    hide At, Peek, EndOfInteger, Fraction, Exponent, FractionText, PowerText, Decimal, Continues, IsDigit;
    var a := if n.minus then i + 1 else i;
    ReadsParts(t, i, a, n);
    TextIsSlice(t, i, NumeralText(n));
    PartsAreThere(n);
  }

  lemma TextIsSlice(t: bytes, i: nat, w: bytes)
    requires At(t, i, w)
    ensures i + |w| <= |t| && t[i..i + |w|] == w
  {
  }

  lemma PartsAreThere(n: Numeral)
    ensures |FractionText(n)| + |PowerText(n)| == 0 <==> n.fraction.None? && n.power.None?
  {
  }

  /** The parts that a number was read in. */
  lemma PartsOf(t: bytes, i: nat, a: nat) returns (n: Numeral)
    requires a == (if Peek(t, i) == MINUS then i + 1 else i) && IsDigit(Peek(t, a))
    requires Fraction(t, EndOfInteger(t, a)).ok && Exponent(t, Fraction(t, EndOfInteger(t, a)).end).ok
    ensures ValidNumeral(n) && (n.minus <==> Peek(t, i) == MINUS) && n.digits == t[a..EndOfInteger(t, a)]
    ensures var d := Exponent(t, Fraction(t, EndOfInteger(t, a)).end).end;
            && i < d <= |t| && NumeralText(n) == t[i..d]
            && (d == EndOfInteger(t, a) <==> n.fraction.None? && n.power.None?)
            && !Continues(n, Peek(t, d))
  {
    hide Fraction, Exponent, EndOfInteger, Digits, IsDigit, Peek, Continues;
    var b := EndOfInteger(t, a);
    var c := Fraction(t, b).end;
    var d := Exponent(t, c).end;
    var fraction := FractionOf(t, b);
    var power := PowerOf(t, c);
    n := Numeral(Peek(t, i) == MINUS, t[a..b], fraction, power);
    IntegerOf(t, a);
    SignIs(t, i);
    Slices(t, i, a, b, c, d);
    PartsAreThere(n);
    NothingContinues(t, a, n);
  }

  lemma NothingContinues(t: bytes, a: nat, n: Numeral)
    requires IsDigit(Peek(t, a)) && n.digits == t[a..EndOfInteger(t, a)]
    requires var b := EndOfInteger(t, a);
             && Fraction(t, b).ok && (n.fraction.None? <==> Fraction(t, b).end == b)
             && Exponent(t, Fraction(t, b).end).ok && (n.power.None? <==> Exponent(t, Fraction(t, b).end).end == Fraction(t, b).end)
    ensures !Continues(n, Peek(t, Exponent(t, Fraction(t, EndOfInteger(t, a)).end).end))
  {
  }

  lemma NumeralOf(cfg: Config, t: bytes, i: nat, acc: seq<Event>) returns (n: Numeral)
    requires ParseNumber(cfg, t, i, acc).ok
    ensures ValidNumeral(n) && At(t, i, NumeralText(n)) && NumeralFits(cfg, n)
    ensures ParseNumber(cfg, t, i, acc) == Out(true, i + |NumeralText(n)|, acc + [NumeralEvent(n)])
    ensures !Continues(n, Peek(t, i + |NumeralText(n)|))
  {
    hide Continues, Decimal, Fraction, Exponent, EndOfInteger, NumeralText, Digits, IsDigit;
    var a := if Peek(t, i) == MINUS then i + 1 else i;
    n := PartsOf(t, i, a);
    var d := Exponent(t, Fraction(t, EndOfInteger(t, a)).end).end;
    SliceIsAt(t, i, d);
  }

  lemma SignIs(t: bytes, i: nat)
    ensures Peek(t, i) == MINUS ==> i < |t| && t[i..i + 1] == [MINUS]
    ensures i <= |t| ==> t[i..i] == []
  {
  }

  lemma SliceIsAt(t: bytes, i: nat, j: nat)
    requires i <= j <= |t|
    ensures At(t, i, t[i..j])
  {
  }

  lemma Slices(t: bytes, i: nat, a: nat, b: nat, c: nat, d: nat)
    requires i <= a <= b <= c <= d <= |t|
    ensures t[i..a] + (t[a..b] + (t[b..c] + t[c..d])) == t[i..d]
  {
  }

  lemma IntegerOf(t: bytes, a: nat)
    requires IsDigit(Peek(t, a))
    ensures var ds := t[a..EndOfInteger(t, a)]; Digits(ds) && (ds[0] == '0' as int ==> |ds| == 1)
  {
  }

  lemma DigitRunOf(t: bytes, i: nat)
    requires IsDigit(Peek(t, i))
    ensures i < EndOfDigits(t, i) <= |t| && Digits(t[i..EndOfDigits(t, i)])
  {
  }

  lemma FractionOf(t: bytes, b: nat) returns (f: Option<bytes>)
    requires b <= |t| && Fraction(t, b).ok
    ensures f.None? <==> Fraction(t, b).end == b
    ensures (f.Some? ==> Digits(f.value)) && t[b..Fraction(t, b).end] == if f.Some? then [DOT] + f.value else []
  {
    if Peek(t, b) == DOT {
      DigitRunOf(t, b + 1);
      hide EndOfDigits, Digits;
      var e := EndOfDigits(t, b + 1);
      f := Some(t[b + 1..e]);
      assert t[b..e] == [t[b]] + t[b + 1..e];
    } else {
      f := None;
    }
  }

  lemma PowerOf(t: bytes, c: nat) returns (p: Option<Power>)
    requires c <= |t| && Exponent(t, c).ok
    ensures p.None? <==> Exponent(t, c).end == c
    ensures p.Some? ==> (p.value.letter == 'e' as int || p.value.letter == 'E' as int) && Digits(p.value.digits)
                        && (p.value.sign == [] || p.value.sign == ['+' as int] || p.value.sign == ['-' as int])
    ensures t[c..Exponent(t, c).end] == if p.Some? then [p.value.letter] + p.value.sign + p.value.digits else []
  {
    if Peek(t, c) == 'e' as int || Peek(t, c) == 'E' as int {
      var signed := Peek(t, c + 1) == PLUS || Peek(t, c + 1) == MINUS;
      var d := if signed then c + 2 else c + 1;
      DigitRunOf(t, d);
      hide EndOfDigits, Digits;
      var e := EndOfDigits(t, d);
      p := Some(Power(t[c], t[c + 1..d], t[d..e]));
      assert t[c..e] == [t[c]] + t[c + 1..d] + t[d..e];
    } else {
      p := None;
    }
  }

  // ---- values ----

  datatype Syntax =
    | NullWord
    | TrueWord
    | FalseWord
    | NumberSyntax(n: Numeral)
    | StringSyntax(cs: seq<Spelling>)
    | EmptyArray(gap: Gap)
    | ArrayOf(gap: Gap, es: Elements)
    | EmptyObject(gap: Gap)
    | ObjectOf(gap: Gap, ms: Members)

  /** From one element up to the closing bracket; a loose element is one before a trailing comma. */
  datatype Elements =
    | LastElement(v: Syntax, after: Gap)
    | LooseElement(v: Syntax, after: Gap, gap: Gap)
    | MoreElements(v: Syntax, after: Gap, gap: Gap, rest: Elements)

  datatype Named = Named(name: seq<Spelling>, before: Gap, behind: Gap, v: Syntax)

  datatype Members =
    | LastMember(m: Named, after: Gap)
    | LooseMember(m: Named, after: Gap, gap: Gap)
    | MoreMembers(m: Named, after: Gap, gap: Gap, rest: Members)

  ghost predicate Valid(cfg: Config, s: Syntax) {
    match s
    case NumberSyntax(n) => ValidNumeral(n) && NumeralFits(cfg, n)
    case StringSyntax(cs) => ValidSpellings(cs)
    case EmptyArray(g) => ValidGap(cfg, g)
    case ArrayOf(g, es) => ValidGap(cfg, g) && ValidElements(cfg, es)
    case EmptyObject(g) => ValidGap(cfg, g)
    case ObjectOf(g, ms) => ValidGap(cfg, g) && ValidMembers(cfg, ms)
    case _ => true
  }

  ghost predicate ValidElements(cfg: Config, es: Elements) {
    && Valid(cfg, es.v) && ValidGap(cfg, es.after)
    && (es.LooseElement? ==> cfg.trailingCommas && ValidGap(cfg, es.gap))
    && (es.MoreElements? ==> ValidGap(cfg, es.gap) && ValidElements(cfg, es.rest))
  }

  ghost predicate ValidMembers(cfg: Config, ms: Members) {
    && ValidSpellings(ms.m.name) && ValidGap(cfg, ms.m.before) && ValidGap(cfg, ms.m.behind) && Valid(cfg, ms.m.v)
    && ValidGap(cfg, ms.after)
    && (ms.LooseMember? ==> cfg.trailingCommas && ValidGap(cfg, ms.gap))
    && (ms.MoreMembers? ==> ValidGap(cfg, ms.gap) && ValidMembers(cfg, ms.rest))
  }

  function SyntaxText(s: Syntax): bytes {
    match s
    case NullWord => NULL_TEXT
    case TrueWord => TRUE_TEXT
    case FalseWord => FALSE_TEXT
    case NumberSyntax(n) => NumeralText(n)
    case StringSyntax(cs) => [QUOTE] + BodyText(cs)
    case EmptyArray(g) => [LBRACKET] + (GapText(g) + [RBRACKET])
    case ArrayOf(g, es) => [LBRACKET] + (GapText(g) + ElementsText(es))
    case EmptyObject(g) => [LBRACE] + (GapText(g) + [RBRACE])
    case ObjectOf(g, ms) => [LBRACE] + (GapText(g) + MembersText(ms))
  }

  function ElementsText(es: Elements): bytes
    decreases es, 1
  {
    SyntaxText(es.v) + ElementsRest(es)
  }

  /** What follows the first of the elements. */
  function ElementsRest(es: Elements): bytes
    decreases es, 0
  {
    match es
    case LastElement(_, after) => GapText(after) + [RBRACKET]
    case LooseElement(_, after, gap) => GapText(after) + ([COMMA] + (GapText(gap) + [RBRACKET]))
    case MoreElements(_, after, gap, rest) => GapText(after) + ([COMMA] + (GapText(gap) + ElementsText(rest)))
  }

  function NamedText(m: Named): bytes {
    [QUOTE] + BodyText(m.name) + (GapText(m.before) + ([COLON] + (GapText(m.behind) + SyntaxText(m.v))))
  }

  function MembersText(ms: Members): bytes
    decreases ms, 1
  {
    NamedText(ms.m) + MembersRest(ms)
  }

  function MembersRest(ms: Members): bytes
    decreases ms, 0
  {
    match ms
    case LastMember(_, after) => GapText(after) + [RBRACE]
    case LooseMember(_, after, gap) => GapText(after) + ([COMMA] + (GapText(gap) + [RBRACE]))
    case MoreMembers(_, after, gap, rest) => GapText(after) + ([COMMA] + (GapText(gap) + MembersText(rest)))
  }

  /** The handler calls that a text means. */
  ghost function Meant(cfg: Config, s: Syntax): seq<Event>
    requires Valid(cfg, s)
  {
    match s
    case NullWord => [NullEvent]
    case TrueWord => [BoolEvent(true)]
    case FalseWord => [BoolEvent(false)]
    case NumberSyntax(n) => [NumeralEvent(n)]
    case StringSyntax(cs) => [StringEvent(Meaning(cs))]
    case EmptyArray(_) => [StartArray, EndArray(0)]
    case ArrayOf(_, es) => [StartArray] + MeantByElements(cfg, es) + [EndArray(CountElements(es))]
    case EmptyObject(_) => [StartObject, EndObject(0)]
    case ObjectOf(_, ms) => [StartObject] + MeantByMembers(cfg, ms) + [EndObject(CountMembers(ms))]
  }

  function CountElements(es: Elements): nat { if es.MoreElements? then 1 + CountElements(es.rest) else 1 }

  function CountMembers(ms: Members): nat { if ms.MoreMembers? then 1 + CountMembers(ms.rest) else 1 }

  ghost function MeantByElements(cfg: Config, es: Elements): seq<Event>
    requires ValidElements(cfg, es)
  {
    Meant(cfg, es.v) + if es.MoreElements? then MeantByElements(cfg, es.rest) else []
  }

  ghost function MeantByMembers(cfg: Config, ms: Members): seq<Event>
    requires ValidMembers(cfg, ms)
  {
    [Key(Meaning(ms.m.name))] + Meant(cfg, ms.m.v) + if ms.MoreMembers? then MeantByMembers(cfg, ms.rest) else []
  }

  /** A character that would be taken as part of the value in front of it. */
  predicate ContinuesValue(s: Syntax, c: byte) { s.NumberSyntax? && Continues(s.n, c) }

  lemma StartOfValue(cfg: Config, s: Syntax)
    requires Valid(cfg, s)
    ensures var w := SyntaxText(s);
            && w != [] && Stops(cfg, w[0]) && w[0] != RBRACKET && w[0] != RBRACE && w[0] != 0
            && (w[0] == LBRACE <==> s.EmptyObject? || s.ObjectOf?) && (w[0] == LBRACKET <==> s.EmptyArray? || s.ArrayOf?)
  {
  }

  /** A gap and what stands behind it. */
  lemma SkipsBefore(cfg: Config, t: bytes, q: nat, g: Gap, w: bytes)
    requires ValidGap(cfg, g) && At(t, q, GapText(g) + w) && w != [] && Stops(cfg, w[0])
    ensures Skip(cfg, t, q) == Skipped(true, q + |GapText(g)|)
    ensures At(t, q + |GapText(g)|, w) && Peek(t, q + |GapText(g)|) == w[0]
  {
    hide Skip, At, Peek, GapText, ValidGap;
    AtSplits(t, q, GapText(g), w);
    AtFirst(t, q + |GapText(g)|, w);
    SkipsGap(cfg, t, q, g);
  }

  /** A comma or a colon, a gap and what stands behind it. */
  lemma SkipsMark(cfg: Config, t: bytes, q: nat, after: Gap, mark: byte, g: Gap, w: bytes)
    requires (mark == COMMA || mark == COLON) && ValidGap(cfg, after) && ValidGap(cfg, g) && w != [] && Stops(cfg, w[0])
    requires At(t, q, GapText(after) + ([mark] + (GapText(g) + w)))
    ensures var m := q + |GapText(after)|;
            && Skip(cfg, t, q) == Skipped(true, m) && Peek(t, m) == mark
            && Skip(cfg, t, m + 1) == Skipped(true, m + 1 + |GapText(g)|)
            && At(t, m + 1 + |GapText(g)|, w) && Peek(t, m + 1 + |GapText(g)|) == w[0]
  {
    hide Skip, At, Peek, GapText, ValidGap;
    SkipsBefore(cfg, t, q, after, [mark] + (GapText(g) + w));
    AtSplits(t, q + |GapText(after)|, [mark], GapText(g) + w);
    SkipsBefore(cfg, t, q + |GapText(after)| + 1, g, w);
  }

  /** The character behind a value inside a container. */
  lemma RestDoesNotContinue(cfg: Config, t: bytes, q: nat, s: Syntax, after: Gap, w: bytes)
    requires ValidGap(cfg, after) && w != [] && (w[0] == COMMA || w[0] == RBRACKET || w[0] == RBRACE)
    requires At(t, q, GapText(after) + w)
    ensures !ContinuesValue(s, Peek(t, q))
  {
    AtFirst(t, q, GapText(after) + w);
    if after != [] {
      assert after[0] in after && ValidBlank(cfg, after[0]);
      assert GapText(after)[0] == BlankText(after[0])[0];
    }
  }

  lemma {:induction false} ReadsValue(cfg: Config, t: bytes, i: nat, s: Syntax, acc: seq<Event>)
    requires Valid(cfg, s) && At(t, i, SyntaxText(s)) && !ContinuesValue(s, Peek(t, i + |SyntaxText(s)|))
    ensures ParseValue(cfg, t, i, acc) == Out(true, i + |SyntaxText(s)|, acc + Meant(cfg, s))
    decreases s, 3
  {
    hide ParseScalar, ParseObject, ParseArray, At, ContinuesValue;
    StartOfValue(cfg, s);
    AtFirst(t, i, SyntaxText(s));
    if s.EmptyArray? || s.ArrayOf? {
      ReadsArray(cfg, t, i, s, acc);
    } else if s.EmptyObject? || s.ObjectOf? {
      ReadsObject(cfg, t, i, s, acc);
    } else {
      ReadsScalar(cfg, t, i, s, acc);
    }
  }

  lemma ReadsScalar(cfg: Config, t: bytes, i: nat, s: Syntax, acc: seq<Event>)
    requires Valid(cfg, s) && !s.EmptyArray? && !s.ArrayOf? && !s.EmptyObject? && !s.ObjectOf?
    requires At(t, i, SyntaxText(s)) && !ContinuesValue(s, Peek(t, i + |SyntaxText(s)|))
    ensures ParseScalar(cfg, t, i, acc) == Out(true, i + |SyntaxText(s)|, acc + Meant(cfg, s))
  {
    hide ParseNumber, StringBody, NumeralFits, NumeralEvent, NumeralText, Continues, Meaning, BodyText, At, ValidSpellings;
    AtFirst(t, i, SyntaxText(s)) by { StartOfValue(cfg, s); }
    match s
    case NumberSyntax(n) =>
      StartOfNumeral(n);
      ReadsNumeral(cfg, t, i, n, acc);
    case StringSyntax(cs) =>
      AtSplits(t, i, [QUOTE], BodyText(cs));
      ReadsBody(t, i + 1, cs, []);
      assert [] + Meaning(cs) == Meaning(cs);
    case _ =>
  }

  lemma StartOfNumeral(n: Numeral)
    requires ValidNumeral(n)
    ensures NumeralText(n) != [] && (NumeralText(n)[0] == MINUS || IsDigit(NumeralText(n)[0]))
  {
  }

  lemma ContainerMeans(cfg: Config, s: Syntax, acc: seq<Event>)
    requires Valid(cfg, s)
    ensures s.EmptyArray? ==> acc + Meant(cfg, s) == acc + [StartArray] + [EndArray(0)]
    ensures s.EmptyObject? ==> acc + Meant(cfg, s) == acc + [StartObject] + [EndObject(0)]
    ensures s.ArrayOf? ==> acc + Meant(cfg, s) == acc + [StartArray] + MeantByElements(cfg, s.es) + [EndArray(CountElements(s.es))]
    ensures s.ObjectOf? ==> acc + Meant(cfg, s) == acc + [StartObject] + MeantByMembers(cfg, s.ms) + [EndObject(CountMembers(s.ms))]
  {
    hide MeantByElements, MeantByMembers, CountElements, CountMembers;
  }

  lemma ReadsEmptyArray(cfg: Config, t: bytes, i: nat, g: Gap, acc: seq<Event>)
    requires ValidGap(cfg, g) && At(t, i, [LBRACKET] + (GapText(g) + [RBRACKET])) && Peek(t, i) == LBRACKET
    ensures ParseArray(cfg, t, i, acc) == Out(true, i + 1 + |GapText(g)| + 1, acc + [StartArray] + [EndArray(0)])
  {
    hide Skip, ParseElements, At, Peek, GapText, ValidGap;
    AtSplits(t, i, [LBRACKET], GapText(g) + [RBRACKET]);
    SkipsBefore(cfg, t, i + 1, g, [RBRACKET]);
  }

  lemma OpensArray(cfg: Config, t: bytes, i: nat, g: Gap, es: Elements, acc: seq<Event>)
    requires ValidGap(cfg, g) && ValidElements(cfg, es) && Peek(t, i) == LBRACKET
    requires At(t, i, [LBRACKET] + (GapText(g) + ElementsText(es)))
    ensures At(t, i + 1 + |GapText(g)|, ElementsText(es))
    ensures ParseArray(cfg, t, i, acc) == ParseElements(cfg, t, i + 1 + |GapText(g)|, 0, acc + [StartArray])
  {
    hide Skip, ParseElements, At, Peek, GapText, ValidGap, ElementsText, ValidElements;
    AtSplits(t, i, [LBRACKET], GapText(g) + ElementsText(es));
    StartOfElements(cfg, es);
    SkipsBefore(cfg, t, i + 1, g, ElementsText(es));
  }

  lemma {:induction false} ReadsArray(cfg: Config, t: bytes, i: nat, s: Syntax, acc: seq<Event>)
    requires Valid(cfg, s) && (s.EmptyArray? || s.ArrayOf?) && At(t, i, SyntaxText(s)) && Peek(t, i) == LBRACKET
    ensures ParseArray(cfg, t, i, acc) == Out(true, i + |SyntaxText(s)|, acc + Meant(cfg, s))
    decreases s, 2
  {
    hide ParseArray, ParseElements, At, Peek, GapText, ValidGap, ElementsText, ValidElements, Meant, MeantByElements, CountElements;
    if s.EmptyArray? {
      ReadsEmptyArray(cfg, t, i, s.gap, acc);
    } else {
      OpensArray(cfg, t, i, s.gap, s.es, acc);
      ReadsElements(cfg, t, i + 1 + |GapText(s.gap)|, s.es, 0, acc + [StartArray]);
    }
    ContainerMeans(cfg, s, acc);
  }

  lemma StartOfElements(cfg: Config, es: Elements)
    requires ValidElements(cfg, es)
    ensures var w := ElementsText(es); w != [] && Stops(cfg, w[0]) && w[0] != RBRACKET && w[0] != 0
  {
    hide SyntaxText, ElementsRest;
    StartOfValue(cfg, es.v);
  }

  lemma {:induction false} ReadsElements(cfg: Config, t: bytes, i: nat, es: Elements, count: nat, acc: seq<Event>)
    requires ValidElements(cfg, es) && At(t, i, ElementsText(es))
    ensures ParseElements(cfg, t, i, count, acc) ==
            Out(true, i + |ElementsText(es)|, acc + MeantByElements(cfg, es) + [EndArray(count + CountElements(es))])
    decreases es, 1
  {
    hide ParseValue, ElementEnd, At, Peek, GapText, ValidGap, SyntaxText, ElementsRest, ContinuesValue, Meant, MeantByElements, CountElements;
    var q := i + |SyntaxText(es.v)|;
    AtSplits(t, i, SyntaxText(es.v), ElementsRest(es));
    ElementRestEnds(cfg, t, q, es);
    ReadsValue(cfg, t, i, es.v, acc);
    TextIsSlice(t, q, ElementsRest(es));
    ReadsElementEnd(cfg, t, Out(true, q, acc + Meant(cfg, es.v)), es, count);
    ElementsMean(cfg, es, acc);
  }

  lemma ElementRestEnds(cfg: Config, t: bytes, q: nat, es: Elements)
    requires ValidElements(cfg, es) && At(t, q, ElementsRest(es))
    ensures !ContinuesValue(es.v, Peek(t, q))
  {
    hide At, Peek, GapText, ValidGap, ContinuesValue, ElementsText;
    match es
    case LastElement(v, after) => RestDoesNotContinue(cfg, t, q, v, after, [RBRACKET]);
    case LooseElement(v, after, gap) => RestDoesNotContinue(cfg, t, q, v, after, [COMMA] + (GapText(gap) + [RBRACKET]));
    case MoreElements(v, after, gap, rest) => RestDoesNotContinue(cfg, t, q, v, after, [COMMA] + (GapText(gap) + ElementsText(rest)));
  }

  lemma {:induction false} ReadsElementEnd(cfg: Config, t: bytes, o: Out, es: Elements, count: nat)
    requires ValidElements(cfg, es) && o.ok && o.pos <= |t| && At(t, o.pos, ElementsRest(es))
    ensures ElementEnd(cfg, t, o, count + 1) ==
            Out(true, o.pos + |ElementsRest(es)|,
                o.events + (if es.MoreElements? then MeantByElements(cfg, es.rest) else []) + [EndArray(count + CountElements(es))])
    decreases es, 0
  {
    hide Skip, ParseElements, At, Peek, GapText, ValidGap, ElementsText;
    match es
    case LastElement(_, after) =>
      SkipsBefore(cfg, t, o.pos, after, [RBRACKET]);
      assert o.events + [] == o.events;
    case LooseElement(_, after, gap) =>
      SkipsMark(cfg, t, o.pos, after, COMMA, gap, [RBRACKET]);
      assert o.events + [] == o.events;
    case MoreElements(_, after, gap, rest) =>
      StartOfElements(cfg, rest);
      SkipsMark(cfg, t, o.pos, after, COMMA, gap, ElementsText(rest));
      ReadsElements(cfg, t, o.pos + |GapText(after)| + 1 + |GapText(gap)|, rest, count + 1, o.events);
  }

  lemma ReadsEmptyObject(cfg: Config, t: bytes, i: nat, g: Gap, acc: seq<Event>)
    requires ValidGap(cfg, g) && At(t, i, [LBRACE] + (GapText(g) + [RBRACE])) && Peek(t, i) == LBRACE
    ensures ParseObject(cfg, t, i, acc) == Out(true, i + 1 + |GapText(g)| + 1, acc + [StartObject] + [EndObject(0)])
  {
    hide Skip, ParseMembers, At, Peek, GapText, ValidGap;
    AtSplits(t, i, [LBRACE], GapText(g) + [RBRACE]);
    SkipsBefore(cfg, t, i + 1, g, [RBRACE]);
  }

  lemma OpensObject(cfg: Config, t: bytes, i: nat, g: Gap, ms: Members, acc: seq<Event>)
    requires ValidGap(cfg, g) && Peek(t, i) == LBRACE && At(t, i, [LBRACE] + (GapText(g) + MembersText(ms)))
    ensures At(t, i + 1 + |GapText(g)|, MembersText(ms))
    ensures ParseObject(cfg, t, i, acc) == ParseMembers(cfg, t, i + 1 + |GapText(g)|, 0, acc + [StartObject])
  {
    hide Skip, ParseMembers, At, Peek, GapText, ValidGap, MembersText;
    AtSplits(t, i, [LBRACE], GapText(g) + MembersText(ms));
    StartOfMembers(cfg, ms);
    SkipsBefore(cfg, t, i + 1, g, MembersText(ms));
  }

  lemma {:induction false} ReadsObject(cfg: Config, t: bytes, i: nat, s: Syntax, acc: seq<Event>)
    requires Valid(cfg, s) && (s.EmptyObject? || s.ObjectOf?) && At(t, i, SyntaxText(s)) && Peek(t, i) == LBRACE
    ensures ParseObject(cfg, t, i, acc) == Out(true, i + |SyntaxText(s)|, acc + Meant(cfg, s))
    decreases s, 2
  {
    hide ParseObject, ParseMembers, At, Peek, GapText, ValidGap, MembersText, ValidMembers, Meant, MeantByMembers, CountMembers;
    if s.EmptyObject? {
      ReadsEmptyObject(cfg, t, i, s.gap, acc);
    } else {
      OpensObject(cfg, t, i, s.gap, s.ms, acc);
      ReadsMembers(cfg, t, i + 1 + |GapText(s.gap)|, s.ms, 0, acc + [StartObject]);
    }
    ContainerMeans(cfg, s, acc);
  }

  lemma StartOfMembers(cfg: Config, ms: Members)
    ensures var w := MembersText(ms); w != [] && w[0] == QUOTE && Stops(cfg, w[0])
  {
    hide BodyText, GapText, SyntaxText, MembersRest;
  }

  function ValueStart(m: Named): nat { 1 + |BodyText(m.name)| + |GapText(m.before)| + 1 + |GapText(m.behind)| }

  /** Up to the value of a member. */
  lemma ReadsMemberStart(cfg: Config, t: bytes, i: nat, ms: Members, count: nat, acc: seq<Event>)
    requires ValidMembers(cfg, ms) && At(t, i, MembersText(ms))
    ensures var v := i + ValueStart(ms.m);
            && At(t, v, SyntaxText(ms.m.v) + MembersRest(ms))
            && v + |SyntaxText(ms.m.v) + MembersRest(ms)| == i + |MembersText(ms)|
            && var o := ParseValue(cfg, t, v, acc + [Key(Meaning(ms.m.name))]);
               ParseMembers(cfg, t, i, count, acc) == if !o.ok then o else MemberEnd(cfg, t, o, count + 1)
  {
    hide ParseValue, ParseString, MemberEnd, Skip, At, Peek, GapText, ValidGap, ValidSpellings, BodyText, Meaning, SyntaxText, MembersRest, MembersText;
    var m := ms.m;
    var name := [QUOTE] + BodyText(m.name);
    var w := SyntaxText(m.v) + MembersRest(ms);
    MemberText(ms);
    AtSplits(t, i, name, GapText(m.before) + ([COLON] + (GapText(m.behind) + w)));
    ReadsName(t, i, m.name, acc);
    StartOfValue(cfg, m.v);
    SkipsMark(cfg, t, i + |name|, m.before, COLON, m.behind, w);
  }

  lemma {:induction false} ReadsMembers(cfg: Config, t: bytes, i: nat, ms: Members, count: nat, acc: seq<Event>)
    requires ValidMembers(cfg, ms) && At(t, i, MembersText(ms))
    ensures ParseMembers(cfg, t, i, count, acc) ==
            Out(true, i + |MembersText(ms)|, acc + MeantByMembers(cfg, ms) + [EndObject(count + CountMembers(ms))])
    decreases ms, 1
  {
    hide ParseValue, ParseMembers, MemberEnd, At, Peek, ValidGap, ValidSpellings, Meaning, SyntaxText, MembersRest, MembersText, ContinuesValue, ValueStart;
    var m := ms.m;
    var v := i + ValueStart(m);
    ReadsMemberStart(cfg, t, i, ms, count, acc);
    AtSplits(t, v, SyntaxText(m.v), MembersRest(ms));
    var q := v + |SyntaxText(m.v)|;
    MemberRestEnds(cfg, t, q, ms);
    var named := acc + [Key(Meaning(m.name))];
    ReadsValue(cfg, t, v, m.v, named);
    TextIsSlice(t, q, MembersRest(ms));
    ReadsMemberEnd(cfg, t, Out(true, q, named + Meant(cfg, m.v)), ms, count);
    MembersMean(cfg, ms, acc);
  }

  lemma MembersMean(cfg: Config, ms: Members, acc: seq<Event>)
    requires ValidMembers(cfg, ms)
    ensures acc + [Key(Meaning(ms.m.name))] + Meant(cfg, ms.m.v) + (if ms.MoreMembers? then MeantByMembers(cfg, ms.rest) else [])
            == acc + MeantByMembers(cfg, ms)
  {
    hide Meant, Meaning;
  }

  lemma MemberText(ms: Members)
    ensures var m := ms.m;
            MembersText(ms) ==
            [QUOTE] + BodyText(m.name) + (GapText(m.before) + ([COLON] + (GapText(m.behind) + (SyntaxText(m.v) + MembersRest(ms)))))
  {
    hide BodyText, GapText, SyntaxText, MembersRest;
  }

  lemma ReadsName(t: bytes, i: nat, cs: seq<Spelling>, acc: seq<Event>)
    requires ValidSpellings(cs) && At(t, i, [QUOTE] + BodyText(cs))
    ensures Peek(t, i) == QUOTE
    ensures ParseString(t, i, acc, true) == Out(true, i + |[QUOTE] + BodyText(cs)|, acc + [Key(Meaning(cs))])
  {
    hide StringBody, BodyText, Meaning, At, ValidSpellings;
    AtFirst(t, i, [QUOTE] + BodyText(cs));
    AtSplits(t, i, [QUOTE], BodyText(cs));
    ReadsBody(t, i + 1, cs, []);
    assert [] + Meaning(cs) == Meaning(cs);
  }

  lemma MemberRestEnds(cfg: Config, t: bytes, q: nat, ms: Members)
    requires ValidMembers(cfg, ms) && At(t, q, MembersRest(ms))
    ensures !ContinuesValue(ms.m.v, Peek(t, q))
  {
    hide At, Peek, GapText, ValidGap, ContinuesValue, MembersText;
    match ms
    case LastMember(m, after) => RestDoesNotContinue(cfg, t, q, m.v, after, [RBRACE]);
    case LooseMember(m, after, gap) => RestDoesNotContinue(cfg, t, q, m.v, after, [COMMA] + (GapText(gap) + [RBRACE]));
    case MoreMembers(m, after, gap, rest) => RestDoesNotContinue(cfg, t, q, m.v, after, [COMMA] + (GapText(gap) + MembersText(rest)));
  }

  lemma {:induction false} ReadsMemberEnd(cfg: Config, t: bytes, o: Out, ms: Members, count: nat)
    requires ValidMembers(cfg, ms) && o.ok && o.pos <= |t| && At(t, o.pos, MembersRest(ms))
    ensures MemberEnd(cfg, t, o, count + 1) ==
            Out(true, o.pos + |MembersRest(ms)|,
                o.events + (if ms.MoreMembers? then MeantByMembers(cfg, ms.rest) else []) + [EndObject(count + CountMembers(ms))])
    decreases ms, 0
  {
    hide Skip, ParseMembers, At, Peek, GapText, ValidGap, MembersText;
    match ms
    case LastMember(_, after) =>
      SkipsBefore(cfg, t, o.pos, after, [RBRACE]);
      assert o.events + [] == o.events;
    case LooseMember(_, after, gap) =>
      SkipsMark(cfg, t, o.pos, after, COMMA, gap, [RBRACE]);
      assert o.events + [] == o.events;
    case MoreMembers(_, after, gap, rest) =>
      StartOfMembers(cfg, rest);
      SkipsMark(cfg, t, o.pos, after, COMMA, gap, MembersText(rest));
      ReadsMembers(cfg, t, o.pos + |GapText(after)| + 1 + |GapText(gap)|, rest, count + 1, o.events);
  }

  // ---- and no other value is read ----

  /** What was skipped in front of something. */
  lemma GapOf(cfg: Config, t: bytes, i: nat) returns (g: Gap)
    requires i <= |t| && Skip(cfg, t, i).ok && Peek(t, Skip(cfg, t, i).pos) != 0
    ensures ValidGap(cfg, g) && At(t, i, GapText(g)) && Skip(cfg, t, i).pos == i + |GapText(g)|
  {
    hide Skip, GapText, ValidGap;
    var e := TailOf(cfg, t, i);
    assert e.comment.None? && TailText(e) == GapText(e.gap);
    g := e.gap;
  }

  lemma {:induction false} ValueOf(cfg: Config, t: bytes, i: nat, acc: seq<Event>) returns (s: Syntax)
    requires ParseValue(cfg, t, i, acc).ok
    ensures Valid(cfg, s) && At(t, i, SyntaxText(s)) && !ContinuesValue(s, Peek(t, i + |SyntaxText(s)|))
    ensures ParseValue(cfg, t, i, acc) == Out(true, i + |SyntaxText(s)|, acc + Meant(cfg, s))
    decreases |t| - i, 3
  {
    hide ParseScalar, ParseObject, ParseArray, At, SyntaxText, ContinuesValue, Valid;
    if Peek(t, i) == LBRACE {
      s := ObjectSyntaxOf(cfg, t, i, acc);
    } else if Peek(t, i) == LBRACKET {
      s := ArraySyntaxOf(cfg, t, i, acc);
    } else {
      s := ScalarOf(cfg, t, i, acc);
    }
  }

  lemma ScalarOf(cfg: Config, t: bytes, i: nat, acc: seq<Event>) returns (s: Syntax)
    requires ParseScalar(cfg, t, i, acc).ok
    ensures Valid(cfg, s) && At(t, i, SyntaxText(s)) && !ContinuesValue(s, Peek(t, i + |SyntaxText(s)|))
    ensures ParseScalar(cfg, t, i, acc) == Out(true, i + |SyntaxText(s)|, acc + Meant(cfg, s))
  {
    hide ParseNumber, StringBody, NumeralFits, NumeralEvent, NumeralText, Continues, Meaning, BodyText, At, ValidSpellings;
    var c := Peek(t, i);
    if c == 'n' as int {
      s := NullWord;
    } else if c == 't' as int {
      s := TrueWord;
    } else if c == 'f' as int {
      s := FalseWord;
    } else if c == QUOTE {
      var cs := BodyOf(t, i + 1, []);
      s := StringSyntax(cs);
      CharIsAt(t, i);
      AtSplits(t, i, [QUOTE], BodyText(cs));
      assert [] + Meaning(cs) == Meaning(cs);
    } else {
      var n := NumeralOf(cfg, t, i, acc);
      s := NumberSyntax(n);
    }
  }

  lemma {:induction false} ArraySyntaxOf(cfg: Config, t: bytes, i: nat, acc: seq<Event>) returns (s: Syntax)
    requires Peek(t, i) == LBRACKET && ParseArray(cfg, t, i, acc).ok
    ensures Valid(cfg, s) && At(t, i, SyntaxText(s)) && !ContinuesValue(s, Peek(t, i + |SyntaxText(s)|))
    ensures ParseArray(cfg, t, i, acc) == Out(true, i + |SyntaxText(s)|, acc + Meant(cfg, s))
    decreases |t| - i, 2
  {
    hide Skip, ParseElements, At, GapText, ValidGap, ElementsText, Meant, MeantByElements, CountElements, Peek;
    CharIsAt(t, i);
    var q := Skip(cfg, t, i + 1).pos;
    if Peek(t, q) == RBRACKET {
      var g := GapOf(cfg, t, i + 1);
      s := EmptyArray(g);
      CharIsAt(t, q);
      AtSplits(t, i + 1, GapText(g), [RBRACKET]);
      AtSplits(t, i, [LBRACKET], GapText(g) + [RBRACKET]);
      ContainerMeans(cfg, s, acc);
    } else {
      var es := ElementsOf(cfg, t, q, 0, acc + [StartArray]);
      StartOfElements(cfg, es);
      AtFirst(t, q, ElementsText(es));
      var g := GapOf(cfg, t, i + 1);
      s := ArrayOf(g, es);
      AtSplits(t, i + 1, GapText(g), ElementsText(es));
      AtSplits(t, i, [LBRACKET], GapText(g) + ElementsText(es));
      ContainerMeans(cfg, s, acc);
    }
  }

  lemma {:induction false} ElementsOf(cfg: Config, t: bytes, i: nat, count: nat, acc: seq<Event>) returns (es: Elements)
    requires ParseElements(cfg, t, i, count, acc).ok
    ensures ValidElements(cfg, es) && At(t, i, ElementsText(es))
    ensures ParseElements(cfg, t, i, count, acc) ==
            Out(true, i + |ElementsText(es)|, acc + MeantByElements(cfg, es) + [EndArray(count + CountElements(es))])
    decreases |t| - i, 4
  {
    hide ParseValue, ElementEnd, At, SyntaxText, ElementsRest, ContinuesValue, Valid, ValidElements;
    var v := ValueOf(cfg, t, i, acc);
    var q := i + |SyntaxText(v)|;
    es := ElementsBehind(cfg, t, i, Out(true, q, acc + Meant(cfg, v)), v, count);
    AtSplits(t, i, SyntaxText(v), ElementsRest(es));
    ElementsMean(cfg, es, acc);
  }

  lemma ElementsMean(cfg: Config, es: Elements, acc: seq<Event>)
    requires ValidElements(cfg, es)
    ensures acc + Meant(cfg, es.v) + (if es.MoreElements? then MeantByElements(cfg, es.rest) else [])
            == acc + MeantByElements(cfg, es)
  {
    hide Meant;
  }

  lemma {:induction false} ElementsBehind(cfg: Config, t: bytes, i: nat, o: Out, v: Syntax, count: nat) returns (es: Elements)
    requires i < o.pos <= |t| && ElementEnd(cfg, t, o, count + 1).ok && Valid(cfg, v)
    ensures es.v == v && ValidElements(cfg, es) && At(t, o.pos, ElementsRest(es))
    ensures ElementEnd(cfg, t, o, count + 1) ==
            Out(true, o.pos + |ElementsRest(es)|,
                o.events + (if es.MoreElements? then MeantByElements(cfg, es.rest) else []) + [EndArray(count + CountElements(es))])
    decreases |t| - i, 3
  {
    hide Skip, ParseElements, At, GapText, ValidGap, ElementsText, Valid;
    var after := GapOf(cfg, t, o.pos);
    var m := o.pos + |GapText(after)|;
    CharIsAt(t, m);
    assert o.events + [] == o.events;
    if Peek(t, m) == RBRACKET {
      es := LastElement(v, after);
      AtSplits(t, o.pos, GapText(after), [RBRACKET]);
    } else {
      var q := Skip(cfg, t, m + 1).pos;
      if cfg.trailingCommas && Peek(t, q) == RBRACKET {
        var gap := GapOf(cfg, t, m + 1);
        es := LooseElement(v, after, gap);
        CharIsAt(t, q);
        MarkIsAt(t, o.pos, GapText(after), COMMA, GapText(gap), [RBRACKET]);
      } else {
        var rest := ElementsOf(cfg, t, q, count + 1, o.events);
        StartOfElements(cfg, rest);
        AtFirst(t, q, ElementsText(rest));
        var gap := GapOf(cfg, t, m + 1);
        es := MoreElements(v, after, gap, rest);
        MarkIsAt(t, o.pos, GapText(after), COMMA, GapText(gap), ElementsText(rest));
      }
    }
  }

  lemma MarkIsAt(t: bytes, i: nat, a: bytes, mark: byte, b: bytes, c: bytes)
    requires At(t, i, a) && At(t, i + |a|, [mark]) && At(t, i + |a| + 1, b) && At(t, i + |a| + 1 + |b|, c)
    ensures At(t, i, a + ([mark] + (b + c)))
  {
    hide At;
    AtSplits(t, i + |a| + 1, b, c);
    AtSplits(t, i + |a|, [mark], b + c);
    AtSplits(t, i, a, [mark] + (b + c));
  }

  lemma {:induction false} ObjectSyntaxOf(cfg: Config, t: bytes, i: nat, acc: seq<Event>) returns (s: Syntax)
    requires Peek(t, i) == LBRACE && ParseObject(cfg, t, i, acc).ok
    ensures Valid(cfg, s) && At(t, i, SyntaxText(s)) && !ContinuesValue(s, Peek(t, i + |SyntaxText(s)|))
    ensures ParseObject(cfg, t, i, acc) == Out(true, i + |SyntaxText(s)|, acc + Meant(cfg, s))
    decreases |t| - i, 2
  {
    hide Skip, ParseMembers, At, GapText, ValidGap, MembersText, Meant, MeantByMembers, CountMembers, Peek;
    CharIsAt(t, i);
    var q := Skip(cfg, t, i + 1).pos;
    if Peek(t, q) == RBRACE {
      var g := GapOf(cfg, t, i + 1);
      s := EmptyObject(g);
      CharIsAt(t, q);
      AtSplits(t, i + 1, GapText(g), [RBRACE]);
      AtSplits(t, i, [LBRACE], GapText(g) + [RBRACE]);
      ContainerMeans(cfg, s, acc);
    } else {
      var ms := MembersOf(cfg, t, q, 0, acc + [StartObject]);
      StartOfMembers(cfg, ms);
      AtFirst(t, q, MembersText(ms));
      var g := GapOf(cfg, t, i + 1);
      s := ObjectOf(g, ms);
      AtSplits(t, i + 1, GapText(g), MembersText(ms));
      AtSplits(t, i, [LBRACE], GapText(g) + MembersText(ms));
      ContainerMeans(cfg, s, acc);
    }
  }

  lemma NameOf(t: bytes, i: nat, acc: seq<Event>) returns (cs: seq<Spelling>)
    requires Peek(t, i) == QUOTE && ParseString(t, i, acc, true).ok
    ensures ValidSpellings(cs) && At(t, i, [QUOTE] + BodyText(cs))
    ensures ParseString(t, i, acc, true) == Out(true, i + 1 + |BodyText(cs)|, acc + [Key(Meaning(cs))])
  {
    hide StringBody, BodyText, Meaning, At, ValidSpellings;
    cs := BodyOf(t, i + 1, []);
    CharIsAt(t, i);
    AtSplits(t, i, [QUOTE], BodyText(cs));
    assert [] + Meaning(cs) == Meaning(cs);
  }

  lemma {:induction false} MembersOf(cfg: Config, t: bytes, i: nat, count: nat, acc: seq<Event>) returns (ms: Members)
    requires ParseMembers(cfg, t, i, count, acc).ok
    ensures ValidMembers(cfg, ms) && At(t, i, MembersText(ms))
    ensures ParseMembers(cfg, t, i, count, acc) ==
            Out(true, i + |MembersText(ms)|, acc + MeantByMembers(cfg, ms) + [EndObject(count + CountMembers(ms))])
    decreases |t| - i, 4
  {
    hide ParseValue, ParseString, MemberEnd, Skip, At, GapText, ValidGap, ValidSpellings, BodyText, Meaning, SyntaxText, MembersRest, ContinuesValue, Valid, ValidMembers;
    var name := NameOf(t, i, acc);
    var k := i + 1 + |BodyText(name)|;
    var before := GapOf(cfg, t, k);
    var c := k + |GapText(before)|;
    CharIsAt(t, c);
    var p := Skip(cfg, t, c + 1).pos;
    var named := acc + [Key(Meaning(name))];
    var v := ValueOf(cfg, t, p, named);
    StartOfValue(cfg, v);
    AtFirst(t, p, SyntaxText(v));
    var behind := GapOf(cfg, t, c + 1);
    var m := Named(name, before, behind, v);
    MarkIsAt(t, k, GapText(before), COLON, GapText(behind), SyntaxText(v));
    var q := p + |SyntaxText(v)|;
    ms := MembersBehind(cfg, t, i, Out(true, q, named + Meant(cfg, v)), m, count);
    NamedIsAt(t, i, ms);
    MembersMean(cfg, ms, acc);
  }

  lemma NamedIsAt(t: bytes, i: nat, ms: Members)
    requires var m := ms.m;
             && At(t, i, [QUOTE] + BodyText(m.name))
             && At(t, i + 1 + |BodyText(m.name)|, GapText(m.before) + ([COLON] + (GapText(m.behind) + SyntaxText(m.v))))
             && At(t, i + |NamedText(m)|, MembersRest(ms))
    ensures At(t, i, MembersText(ms))
  {
    hide At, BodyText, GapText, SyntaxText, MembersRest;
    var m := ms.m;
    AtSplits(t, i, [QUOTE] + BodyText(m.name), GapText(m.before) + ([COLON] + (GapText(m.behind) + SyntaxText(m.v))));
    AtSplits(t, i, NamedText(m), MembersRest(ms));
  }

  lemma {:induction false} MembersBehind(cfg: Config, t: bytes, i: nat, o: Out, m: Named, count: nat) returns (ms: Members)
    requires i < o.pos <= |t| && MemberEnd(cfg, t, o, count + 1).ok
    requires ValidSpellings(m.name) && ValidGap(cfg, m.before) && ValidGap(cfg, m.behind) && Valid(cfg, m.v)
    ensures ms.m == m && ValidMembers(cfg, ms) && At(t, o.pos, MembersRest(ms))
    ensures MemberEnd(cfg, t, o, count + 1) ==
            Out(true, o.pos + |MembersRest(ms)|,
                o.events + (if ms.MoreMembers? then MeantByMembers(cfg, ms.rest) else []) + [EndObject(count + CountMembers(ms))])
    decreases |t| - i, 3
  {
    hide Skip, ParseMembers, At, GapText, ValidGap, ValidSpellings, MembersText, Valid;
    var after := GapOf(cfg, t, o.pos);
    var k := o.pos + |GapText(after)|;
    CharIsAt(t, k);
    assert o.events + [] == o.events;
    if Peek(t, k) == RBRACE {
      ms := LastMember(m, after);
      AtSplits(t, o.pos, GapText(after), [RBRACE]);
    } else {
      var q := Skip(cfg, t, k + 1).pos;
      if cfg.trailingCommas && Peek(t, q) == RBRACE {
        var gap := GapOf(cfg, t, k + 1);
        ms := LooseMember(m, after, gap);
        CharIsAt(t, q);
        MarkIsAt(t, o.pos, GapText(after), COMMA, GapText(gap), [RBRACE]);
      } else {
        var rest := MembersOf(cfg, t, q, count + 1, o.events);
        StartOfMembers(cfg, rest);
        AtFirst(t, q, MembersText(rest));
        var gap := GapOf(cfg, t, k + 1);
        ms := MoreMembers(m, after, gap, rest);
        MarkIsAt(t, o.pos, GapText(after), COMMA, GapText(gap), MembersText(rest));
      }
    }
  }

  // ---- documents ----

  datatype Document = Document(lead: Gap, v: Syntax, tail: Tail)

  /** The text of a document up to the end of its value. */
  function Head(d: Document): bytes { GapText(d.lead) + SyntaxText(d.v) }

  /** All of the text, or all in front of the first NUL, is the document; or just its start, if the parser stops there. */
  ghost predicate Generates(cfg: Config, d: Document, t: bytes) {
    && ValidGap(cfg, d.lead) && Valid(cfg, d.v)
    && if cfg.stopWhenDone then At(t, 0, Head(d)) && !ContinuesValue(d.v, Peek(t, |Head(d)|))
       else ValidTail(cfg, d.tail) && At(t, 0, Head(d) + TailText(d.tail)) && Peek(t, |Head(d) + TailText(d.tail)|) == 0
  }

  function EndOf(cfg: Config, d: Document): nat {
    if cfg.stopWhenDone then |Head(d)| else |Head(d) + TailText(d.tail)|
  }

  lemma TailDoesNotContinue(cfg: Config, t: bytes, q: nat, s: Syntax, e: Tail)
    requires ValidTail(cfg, e) && At(t, q, TailText(e)) && Peek(t, q + |TailText(e)|) == 0
    ensures !ContinuesValue(s, Peek(t, q))
  {
    if TailText(e) != [] {
      AtFirst(t, q, TailText(e));
      if e.gap != [] {
        assert e.gap[0] in e.gap && ValidBlank(cfg, e.gap[0]);
        assert GapText(e.gap)[0] == BlankText(e.gap[0])[0];
      }
    }
  }

  /** For every flag setting, both parsers accept every text the grammar generates, and make the calls it means. */
  lemma AcceptsTheGrammar(cfg: Config, d: Document, t: bytes)
    requires Generates(cfg, d, t)
    ensures ParseDocument(cfg, t) == Out(true, EndOf(cfg, d), Meant(cfg, d.v))
    ensures IterativeReader.IterativeParse(cfg, t) == Out(true, EndOf(cfg, d), Meant(cfg, d.v))
  {
    IterativeReader.IterativeIsRecursive(cfg, t);
    hide Skip, ParseValue, At, Peek, GapText, ValidGap, SyntaxText, TailText, ValidTail, Valid, Meant, ContinuesValue, IterativeReader.IterativeParse;
    var p := |GapText(d.lead)|;
    var q := p + |SyntaxText(d.v)|;
    if !cfg.stopWhenDone {
      AtSplits(t, 0, Head(d), TailText(d.tail));
      TailDoesNotContinue(cfg, t, q, d.v, d.tail);
      SkipsTail(cfg, t, q, d.tail);
    }
    StartOfValue(cfg, d.v);
    SkipsBefore(cfg, t, 0, d.lead, SyntaxText(d.v));
    ReadsValue(cfg, t, p, d.v, []);
    assert [] + Meant(cfg, d.v) == Meant(cfg, d.v);
  }

  /** And nothing else: what they accept was generated. */
  lemma AcceptsNothingElse(cfg: Config, t: bytes) returns (d: Document)
    requires ParseDocument(cfg, t).ok
    ensures Generates(cfg, d, t)
  {
    hide Skip, ParseValue, At, GapText, ValidGap, SyntaxText, TailText, ValidTail, Valid, Meant, ContinuesValue;
    var lead := GapOf(cfg, t, 0);
    var p := |GapText(lead)|;
    var v := ValueOf(cfg, t, p, []);
    var q := p + |SyntaxText(v)|;
    AtSplits(t, 0, GapText(lead), SyntaxText(v));
    d := Document(lead, v, Tail([], None));
    if !cfg.stopWhenDone {
      var tail := TailOf(cfg, t, q);
      d := Document(lead, v, tail);
      AtSplits(t, 0, Head(d), TailText(tail));
    }
  }

  /** Both parsers accept exactly the texts that the grammar generates. */
  lemma AcceptsExactly(cfg: Config, t: bytes)
    ensures ParseDocument(cfg, t).ok <==> exists d :: Generates(cfg, d, t)
    ensures IterativeReader.IterativeParse(cfg, t).ok <==> exists d :: Generates(cfg, d, t)
  {
    IterativeReader.IterativeIsRecursive(cfg, t);
    hide ParseDocument, IterativeReader.IterativeParse, Generates;
    if ParseDocument(cfg, t).ok {
      var d := AcceptsNothingElse(cfg, t);
    }
    forall d | Generates(cfg, d, t) ensures ParseDocument(cfg, t).ok {
      AcceptsTheGrammar(cfg, d, t);
    }
  }
}
