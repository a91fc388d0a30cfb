/** JSON Pointer text (RFC 6901), as a plain string and as a URI fragment: parsing and printing. */
module Pointer {
  import opened Base
  import opened Json
  import opened Encodings
  import Reader
  import Strings
  import Writer

  const TILDE: byte := 0x7E
  const PERCENT: byte := 0x25
  const HASH: byte := 0x23
  const ONE: byte := 0x31

  /** The index of a token that is no array index. */
  const INVALID: nat := TWO32 - 1

  datatype Token = Token(name: bytes, index: nat)

  // ---- array indices ----

  predicate LooksLikeIndex(name: bytes) {
    && name != []
    && (forall k | 0 <= k < |name| :: IsDigit(name[k]))
    && (|name| > 1 ==> name[0] != ZERO)
  }

  /** The conversion in 32 bits; it gives up when a product came out smaller than the number before. */
  function Convert(name: bytes, j: nat, n: nat): (r: nat)
    requires j <= |name| && n < TWO32 && forall k | 0 <= k < |name| :: IsDigit(name[k])
    ensures r < TWO32
    decreases |name| - j
  {
    if j == |name| then n
    else
      var m := (n * 10 + (name[j] - ZERO)) % TWO32;
      if m < n then INVALID else Convert(name, j + 1, m)
  }

  function IndexOf(name: bytes): nat {
    if LooksLikeIndex(name) then Convert(name, 0, 0) else INVALID
  }

  function TokenOf(name: bytes): Token { Token(name, IndexOf(name)) }

  function TokensOf(names: seq<bytes>): (r: seq<Token>)
    ensures |r| == |names|
  {
    seq(|names|, i requires 0 <= i < |names| => TokenOf(names[i]))
  }

  // ---- parsing ----

  predicate NeedPercentEncode(c: byte) {
    !(IsDigit(c) || 0x41 <= c <= 0x5A || 0x61 <= c <= 0x7A || c == MINUS || c == DOT || c == 0x5F || c == TILDE)
  }

  /** The bytes of the %XY triplets that follow one another from some position on. */
  function Triplets(t: bytes, i: nat): (r: bytes)
    ensures i + 3 * |r| <= |t| || r == []
    decreases |t| - i
  {
    var a, b := Reader.HexValue(Peek(t, i + 1)), Reader.HexValue(Peek(t, i + 2));
    if Peek(t, i) == PERCENT && i + 3 <= |t| && a >= 0 && b >= 0 then [a * 16 + b] + Triplets(t, i + 3) else []
  }

  /** One UTF-8 sequence written as triplets. A stream that ran out gives zeros and is no longer valid. */
  function PercentDecode(t: bytes, i: nat): Copied {
    var bs := Triplets(t, i);
    var d := Validate(bs, 0);
    Copied(d.ok && d.pos <= |bs|, i + 3 * d.pos, d.out)
  }

  /** One character of a name, with its escape undone; `pos` is behind it. */
  function Unescape(t: bytes, c: byte, pos: nat): Copied {
    if c != TILDE then Copied(true, pos, [c])
    else if Peek(t, pos) == ZERO && pos < |t| then Copied(true, pos + 1, [TILDE])
    else if Peek(t, pos) == ONE && pos < |t| then Copied(true, pos + 1, [SLASH])
    else Copied(false, pos, [])
  }

  /** The next bytes of a name. */
  function NamePiece(t: bytes, i: nat, uri: bool): (r: Copied)
    requires i < |t|
    ensures r.ok ==> i < r.pos <= |t| && 1 <= |r.out| <= r.pos - i
  {
    if uri && t[i] == PERCENT then
      var d := PercentDecode(t, i);
      PercentDecodes(t, i);
      if !d.ok || |d.out| > 1 then d else Unescape(t, d.out[0], d.pos)
    else if uri && NeedPercentEncode(t[i]) then Copied(false, i, [])
    else Unescape(t, t[i], i + 1)
  }

  lemma PercentDecodes(t: bytes, i: nat)
    requires i < |t| && t[i] == PERCENT
    ensures var d := PercentDecode(t, i);
            && 1 <= |d.out| <= 4
            && (Triplets(t, i) == [] ==> |d.out| == 1 && !d.ok)
            && (d.ok ==> i + 3 <= d.pos <= |t| && |d.out| * 3 == d.pos - i)
  {
    hide Validate, WellFormedAt;
    var bs := Triplets(t, i);
    ValidateLength(bs, 0);
    if bs != [] {
      ValidateCopies(bs, 0);
    }
  }

  /** A name up to the next solidus or the end. */
  function ScanName(t: bytes, i: nat, uri: bool, acc: bytes): (r: Copied)
    requires i <= |t|
    ensures r.ok ==> i <= r.pos <= |t| && (r.pos < |t| ==> t[r.pos] == SLASH)
    decreases |t| - i
  {
    if i == |t| || t[i] == SLASH then Copied(true, i, acc)
    else
      var p := NamePiece(t, i, uri);
      if p.ok then ScanName(t, p.pos, uri, acc + p.out) else Copied(false, i, acc)
  }

  function ScanNames(t: bytes, i: nat, uri: bool): Option<seq<bytes>>
    requires i <= |t| && (i < |t| ==> t[i] == SLASH)
    decreases |t| - i
  {
    if i == |t| then Some([])
    else
      var r := ScanName(t, i + 1, uri, []);
      if !r.ok then None
      else
        var rest := ScanNames(t, r.pos, uri);
        if rest.None? then None else Some([r.out] + rest.value)
  }

  function IsFragment(t: bytes): bool { Peek(t, 0) == HASH }

  /** The names a text denotes; None if the text is rejected. */
  function ParseNames(t: bytes): Option<seq<bytes>> {
    var i := if IsFragment(t) then 1 else 0;
    if i < |t| && t[i] != SLASH then None else ScanNames(t, i, IsFragment(t))
  }

  /** The tokens of a pointer: the names that were parsed, each with the array index it denotes. */
  function Parse(t: bytes): Option<seq<Token>> {
    var names := ParseNames(t);
    if names.None? then None else Some(TokensOf(names.value))
  }

  // ---- printing ----

  function Percent(bs: bytes): (r: bytes)
    ensures |r| == 3 * |bs|
  {
    if bs == [] then [] else [PERCENT, Writer.HexDigit(bs[0] / 16), Writer.HexDigit(bs[0] % 16)] + Percent(bs[1..])
  }

  /** What is put for the character at `j`; `pos` is behind it. */
  function PrintPiece(name: bytes, j: nat, uri: bool): (r: Copied)
    requires j < |name|
    ensures r.ok ==> j < r.pos <= |name|
  {
    var c := name[j];
    if c == TILDE then Copied(true, j + 1, [TILDE, ZERO])
    else if c == SLASH then Copied(true, j + 1, [TILDE, ONE])
    else if uri && NeedPercentEncode(c) then
      var d := Validate(name, j);
      ValidateStays(name, j);
      Copied(d.ok, d.pos, Percent(d.out))
    else Copied(true, j + 1, [c])
  }

  lemma ValidateStays(s: bytes, i: nat)
    requires i < |s|
    ensures Validate(s, i).ok ==> i < Validate(s, i).pos <= |s|
  {
    hide Validate, WellFormedAt;
    ValidateCopies(s, i);
  }

  function PrintName(name: bytes, j: nat, uri: bool): Option<bytes>
    requires j <= |name|
    decreases |name| - j
  {
    if j == |name| then Some([])
    else
      var p := PrintPiece(name, j, uri);
      if !p.ok then None
      else
        var rest := PrintName(name, p.pos, uri);
        if rest.None? then None else Some(p.out + rest.value)
  }

  function PrintNames(names: seq<bytes>, uri: bool): Option<bytes> {
    if names == [] then Some([])
    else
      var first := PrintName(names[0], 0, uri);
      var rest := PrintNames(names[1..], uri);
      if first.None? || rest.None? then None else Some([SLASH] + first.value + rest.value)
  }

  function Stringify(names: seq<bytes>, uri: bool): Option<bytes> {
    var text := PrintNames(names, uri);
    if text.None? then None else Some((if uri then [HASH] else []) + text.value)
  }

  // ---- printing, then parsing ----

  lemma PieceReadBack(t: bytes, p: nat, name: bytes, j: nat, uri: bool)
    requires j < |name| && PrintPiece(name, j, uri).ok && At(t, p, PrintPiece(name, j, uri).out)
    ensures var w := PrintPiece(name, j, uri);
            && w.out != [] && p < |t| && t[p] != SLASH
            && NamePiece(t, p, uri) == Copied(true, p + |w.out|, name[j..w.pos])
  {
    hide Validate, WellFormedAt, Triplets;
    var c := name[j];
    var w := PrintPiece(name, j, uri);
    var out := w.out;
    if c == TILDE || c == SLASH {
      assert t[p..p + 2] == out && t[p] == out[0] && t[p + 1] == out[1];
      assert name[j..j + 1] == [c];
    } else if uri && NeedPercentEncode(c) {
      PercentReadBack(t, p, name, j, Validate(name, j));
    } else {
      assert t[p..p + 1] == out && t[p] == out[0];
      assert name[j..j + 1] == [c];
    }
  }

  lemma HexReadBack(v: nat)
    requires v < 16
    ensures Reader.HexValue(Writer.HexDigit(v)) == v
  {
  }

  lemma {:induction false} TripletsReadBack(t: bytes, p: nat, bs: bytes)
    requires At(t, p, Percent(bs))
    ensures bs <= Triplets(t, p)
    decreases |bs|
  {
    hide At;
    if bs != [] {
      var head := [PERCENT, Writer.HexDigit(bs[0] / 16), Writer.HexDigit(bs[0] % 16)];
      Strings.AtSplits(t, p, head, Percent(bs[1..]));
      TripletsReadBack(t, p + 3, bs[1..]);
      PeeksHere(t, p, head, 0);
      PeeksHere(t, p, head, 1);
      PeeksHere(t, p, head, 2);
      HexReadBack(bs[0] / 16);
      HexReadBack(bs[0] % 16);
      AtFits(t, p, head);
      assert Triplets(t, p) == [bs[0]] + Triplets(t, p + 3);
    }
  }

  lemma AtFits(t: bytes, p: nat, w: bytes)
    requires At(t, p, w)
    ensures p + |w| <= |t|
  {
  }

  lemma PercentReadBack(t: bytes, p: nat, name: bytes, j: nat, d: Copied)
    requires j < |name| && NeedPercentEncode(name[j]) && d == Validate(name, j) && d.ok && At(t, p, Percent(d.out))
    ensures d.out != [] && p < |t| && t[p] == PERCENT && j <= d.pos <= |name|
    ensures NamePiece(t, p, true) == Copied(true, p + 3 * |d.out|, name[j..d.pos])
  {
    hide Validate, WellFormedAt, Triplets, At;
    ValidateCopies(name, j);
    var bs := d.out;
    assert bs == name[j..d.pos] by { SliceAt(name, j, bs); }
    TripletsReadBack(t, p, bs);
    var all := Triplets(t, p);
    PeeksHere(t, p, Percent(bs), 0);
    AtFits(t, p, Percent(bs));
    WellFormedPrefix(name, j, all);
    ValidateCopies(all, 0);
    SliceAt(all, 0, Validate(all, 0).out);
    assert Validate(all, 0).out == bs;
    assert |bs| == 1 ==> bs[0] == name[j];
  }

  lemma SliceAt(s: bytes, i: nat, w: bytes)
    requires At(s, i, w)
    ensures i + |w| <= |s| && w == s[i..i + |w|]
  {
  }

  lemma WellFormedPrefix(name: bytes, j: nat, all: bytes)
    requires var n := WellFormedAt(name, j); n > 0 && j + n <= |name| && name[j..j + n] <= all
    ensures WellFormedAt(all, 0) == WellFormedAt(name, j)
  {
    hide WellFormedAt;
    var n := WellFormedAt(name, j);
    assert all[0..n] == name[j..j + n];
    WellFormedElsewhere(name, j, all, 0);
  }

  lemma {:induction false} NameReadBack(t: bytes, p: nat, name: bytes, j: nat, uri: bool, acc: bytes)
    requires j <= |name| && PrintName(name, j, uri).Some? && At(t, p, PrintName(name, j, uri).value)
    requires var q := p + |PrintName(name, j, uri).value|; q == |t| || Peek(t, q) == SLASH
    ensures p + |PrintName(name, j, uri).value| <= |t|
    ensures ScanName(t, p, uri, acc) == Copied(true, p + |PrintName(name, j, uri).value|, acc + name[j..])
    decreases |name| - j
  {
    hide NamePiece, PrintPiece, At;
    AtFits(t, p, PrintName(name, j, uri).value);
    if j == |name| {
      assert acc + name[j..] == acc;
    } else {
      var w := PrintPiece(name, j, uri);
      var rest := PrintName(name, w.pos, uri).value;
      Strings.AtSplits(t, p, w.out, rest);
      PieceReadBack(t, p, name, j, uri);
      var next := acc + name[j..w.pos];
      NameReadBack(t, p + |w.out|, name, w.pos, uri, next);
      assert next + name[w.pos..] == acc + name[j..];
    }
  }

  lemma {:induction false} NamesReadBack(t: bytes, p: nat, names: seq<bytes>, uri: bool)
    requires PrintNames(names, uri).Some? && At(t, p, PrintNames(names, uri).value) && p + |PrintNames(names, uri).value| == |t|
    ensures (p < |t| ==> t[p] == SLASH) && ScanNames(t, p, uri) == Some(names)
    decreases |names|
  {
    hide ScanName, PrintName, At;
    if names != [] {
      var first, rest := PrintName(names[0], 0, uri).value, PrintNames(names[1..], uri).value;
      assert PrintNames(names, uri).value == [SLASH] + (first + rest);
      Strings.AtSplits(t, p, [SLASH], first + rest);
      Strings.AtSplits(t, p + 1, first, rest);
      PeeksHere(t, p, [SLASH], 0);
      var q := p + 1 + |first|;
      if rest != [] {
        PeeksHere(t, q, rest, 0);
      }
      NameReadBack(t, p + 1, names[0], 0, uri, []);
      NamesReadBack(t, q, names[1..], uri);
      assert [] + names[0][0..] == names[0] && [names[0]] + names[1..] == names;
    }
  }

  /** Whatever is printed parses back to the same names, in both forms. */
  lemma StringifyThenParse(names: seq<bytes>, uri: bool)
    requires Stringify(names, uri).Some?
    ensures ParseNames(Stringify(names, uri).value) == Some(names)
  {
    hide ScanNames;
    var text := PrintNames(names, uri).value;
    var t := Stringify(names, uri).value;
    var i := if uri then 1 else 0;
    assert t[i..i + |text|] == text;
    NamesReadBack(t, i, names, uri);
    if !uri && t != [] {
      assert t[0] == SLASH;
    }
  }

  // ---- which names can be printed ----

  lemma {:induction false} PlainAlwaysPrints(names: seq<bytes>)
    ensures Stringify(names, false).Some?
    decreases |names|
  {
    if names != [] {
      PlainNamePrints(names[0], 0);
      PlainAlwaysPrints(names[1..]);
    }
  }

  lemma {:induction false} PlainNamePrints(name: bytes, j: nat)
    requires j <= |name|
    ensures PrintName(name, j, false).Some?
    decreases |name| - j
  {
    if j < |name| {
      PlainNamePrints(name, j + 1);
    }
  }

  /** The fragment form exists exactly for names that are well-formed UTF-8. */
  lemma {:induction false} FragmentPrintsUtf8(name: bytes, j: nat)
    requires j <= |name|
    ensures PrintName(name, j, true).Some? <==> WellFormedFrom(name, j)
    decreases |name| - j
  {
    hide Validate, WellFormedAt;
    if j < |name| {
      ValidateCopies(name, j);
      OneByte(name, j);
      var p := PrintPiece(name, j, true);
      ValidateStays(name, j);
      if p.ok {
        FragmentPrintsUtf8(name, p.pos);
      }
    }
  }

  lemma OneByte(name: bytes, j: nat)
    requires j < |name|
    ensures !NeedPercentEncode(name[j]) || name[j] == SLASH ==> WellFormedAt(name, j) == 1
  {
  }

  lemma {:induction false} FragmentsPrintUtf8(names: seq<bytes>)
    ensures Stringify(names, true).Some? <==> forall i | 0 <= i < |names| :: WellFormedFrom(names[i], 0)
    decreases |names|
  {
    if names != [] {
      FragmentPrintsUtf8(names[0], 0);
      FragmentsPrintUtf8(names[1..]);
      assert forall i | 0 < i < |names| :: names[i] == names[1..][i - 1];
    }
  }

  /** A pointer that was parsed from any text survives printing and parsing again, token by token with their indices. */
  lemma ParsedPointerRoundTrip(t: bytes)
    requires ParseNames(t).Some?
    ensures var names := ParseNames(t).value;
            && Stringify(names, false).Some?
            && Parse(Stringify(names, false).value) == Parse(t)
            && ((forall i | 0 <= i < |names| :: WellFormedFrom(names[i], 0)) ==>
                  Stringify(names, true).Some? && Parse(Stringify(names, true).value) == Parse(t))
  {
    hide Stringify, ParseNames;
    var names := ParseNames(t).value;
    PlainAlwaysPrints(names);
    StringifyThenParse(names, false);
    FragmentsPrintUtf8(names);
    if Stringify(names, true).Some? {
      StringifyThenParse(names, true);
    }
  }
}
