/** The string writer with ASCII as target encoding: every other code point becomes one or two \u escapes. */
module AsciiWriter {
  import opened Base
  import opened Json
  import opened Reader
  import opened Strings
  import Encodings
  import Writer

  /** The loop over the input cursor. */
  method WriteString(s: bytes) returns (ok: bool, out: bytes)
    ensures ok <==> Encodings.WellFormedFrom(s, 0)
    ensures ok ==> Writer.AsciiBody(s, 0).Some? && out == [QUOTE] + Writer.AsciiBody(s, 0).value + [QUOTE]
    ensures ok ==> |out| <= 2 + 12 * |s| && forall c | c in out :: c < 0x80
  {
    hide Writer.PieceAt;
    WrittenIffWellFormed(s, 0);
    out := [QUOTE];
    var i := 0;
    while i < |s|
      invariant 0 <= i <= |s| && |out| > 0
      invariant Writer.AsciiBody(s, 0).Some? <==> Writer.AsciiBody(s, i).Some?
      invariant Writer.AsciiBody(s, 0).Some? ==> out + Writer.AsciiBody(s, i).value == [QUOTE] + Writer.AsciiBody(s, 0).value
    {
      var piece := Writer.PieceAt(s, i);
      if piece.None? {
        return false, out;
      }
      var p := piece.value;
      assert Writer.AsciiBody(s, i).Some? ==> Writer.AsciiBody(s, i).value == p.text + Writer.AsciiBody(s, p.pos).value;
      out := out + p.text;
      i := p.pos;
    }
    out := out + [QUOTE];
    ok := true;
    StaysAscii(s, 0);
  }

  /** The writer succeeds on well-formed UTF-8 and on nothing else. */
  lemma {:induction false} WrittenIffWellFormed(s: bytes, i: nat)
    requires i <= |s|
    ensures Writer.AsciiBody(s, i).Some? <==> Encodings.WellFormedFrom(s, i)
    decreases |s| - i
  {
    hide Encodings.Decode, Encodings.WellFormedAt, Writer.EscapeByte, Writer.UnicodeText;
    if i < |s| {
      Encodings.DecodeFollowsTheGrammar(s, i);
      AsciiIsWellFormed(s, i);
      var p := Writer.PieceAt(s, i);
      if p.Some? {
        WrittenIffWellFormed(s, p.value.pos);
      }
    }
  }

  lemma AsciiIsWellFormed(s: bytes, i: nat)
    requires i < |s|
    ensures s[i] < 0x80 ==> Encodings.WellFormedAt(s, i) == 1
  {
  }

  lemma HexEscapeIsAscii(u: nat)
    requires u <= 0xFFFF
    ensures |Writer.HexEscape(u)| == 6 && forall c | c in Writer.HexEscape(u) :: c < 0x80
  {
  }

  lemma UnicodeTextIsAscii(cp: nat)
    requires Encodings.Scalar(cp)
    ensures |Writer.UnicodeText(cp)| <= 12 && forall c | c in Writer.UnicodeText(cp) :: c < 0x80
  {
    hide Writer.HexEscape;
    if cp <= 0xFFFF {
      HexEscapeIsAscii(cp);
    } else {
      HexEscapeIsAscii((cp - 0x10000) / 1024 + 0xD800);
      HexEscapeIsAscii((cp - 0x10000) % 1024 + 0xDC00);
    }
  }

  lemma PieceIsAscii(s: bytes, i: nat)
    requires i < |s| && Writer.PieceAt(s, i).Some?
    ensures |Writer.PieceAt(s, i).value.text| <= 12 && forall c | c in Writer.PieceAt(s, i).value.text :: c < 0x80
  {
    hide Encodings.Decode, Writer.UnicodeText;
    if s[i] >= 0x80 {
      Encodings.EncodeInvertsDecode(s, i);
      UnicodeTextIsAscii(Encodings.Decode(s, i).cp);
    }
  }

  /** Nothing above 0x7F is put, and at most twelve bytes for each byte of the string. */
  lemma {:induction false} StaysAscii(s: bytes, i: nat)
    requires i <= |s| && Writer.AsciiBody(s, i).Some?
    ensures |Writer.AsciiBody(s, i).value| <= 12 * (|s| - i)
    ensures forall c | c in Writer.AsciiBody(s, i).value :: c < 0x80
    decreases |s| - i
  {
    hide Writer.PieceAt;
    if i < |s| {
      PieceIsAscii(s, i);
      StaysAscii(s, Writer.PieceAt(s, i).value.pos);
    }
  }

  lemma HexDigitInverse(v: nat)
    requires v < 16
    ensures HexValue(Writer.HexDigit(v)) == v
  {
  }

  lemma Hex4Inverse(t: bytes, p: nat, u: nat)
    requires u <= 0xFFFF && At(t, p, Writer.HexEscape(u))
    ensures Peek(t, p) == BACKSLASH && Peek(t, p + 1) == 0x75 && Hex4(t, p + 2) == u
  {
    hide Writer.HexDigit, HexValue;
    var w := Writer.HexEscape(u);
    assert t[p..p + 6] == w;
    assert t[p] == w[0] && t[p + 1] == w[1] && t[p + 2] == w[2] && t[p + 3] == w[3] && t[p + 4] == w[4] && t[p + 5] == w[5];
    HexDigitInverse(u / 4096);
    HexDigitInverse(u / 256 % 16);
    HexDigitInverse(u / 16 % 16);
    HexDigitInverse(u % 16);
    Nibbles(u);
  }

  lemma Nibbles(u: nat)
    requires u <= 0xFFFF
    ensures ((u / 4096 * 16 + u / 256 % 16) * 16 + u / 16 % 16) * 16 + u % 16 == u
  {
    assert u / 16 / 16 == u / 256 && u / 256 / 16 == u / 4096;
    assert u / 256 == u / 4096 * 16 + u / 256 % 16;
    assert u / 16 == u / 256 * 16 + u / 16 % 16;
  }

  lemma UnicodeTextInverse(t: bytes, p: nat, cp: nat)
    requires Encodings.Scalar(cp) && At(t, p, Writer.UnicodeText(cp))
    ensures Peek(t, p) == BACKSLASH && Peek(t, p + 1) == 0x75
    ensures UnicodeEscape(t, p) == Decoded(true, p + |Writer.UnicodeText(cp)|, Encodings.Encode(cp))
  {
    hide Writer.HexEscape, Hex4, At, Encodings.Encode;
    if cp <= 0xFFFF {
      HexEscapeIsAscii(cp);
      Hex4Inverse(t, p, cp);
    } else {
      var hi, lo := (cp - 0x10000) / 1024 + 0xD800, (cp - 0x10000) % 1024 + 0xDC00;
      HexEscapeIsAscii(hi);
      HexEscapeIsAscii(lo);
      AtSplits(t, p, Writer.HexEscape(hi), Writer.HexEscape(lo));
      Hex4Inverse(t, p, hi);
      Hex4Inverse(t, p + 6, lo);
      assert SurrogatePair(hi, lo) == cp;
    }
  }

  lemma PieceInverse(t: bytes, p: nat, s: bytes, i: nat, acc: bytes)
    requires i < |s| && Writer.PieceAt(s, i).Some? && At(t, p, Writer.PieceAt(s, i).value.text)
    ensures var q := Writer.PieceAt(s, i).value;
            StringBody(t, p, acc) == StringBody(t, p + |q.text|, acc + s[i..q.pos])
  {
    hide Encodings.Decode, Writer.UnicodeText, UnicodeEscape, Writer.EscapeByte, At;
    if s[i] < 0x80 {
      hide StringBody;
      EscapeInverse(t, p, s[i], acc);
      assert s[i..i + 1] == [s[i]];
    } else {
      var d := Encodings.Decode(s, i);
      Encodings.EncodeInvertsDecode(s, i);
      UnicodeTextInverse(t, p, d.cp);
    }
  }

  /** Reading the written text gives the string back, byte for byte. */
  lemma {:induction false} ReadsBack(t: bytes, p: nat, s: bytes, i: nat, acc: bytes)
    requires i <= |s| && Writer.AsciiBody(s, i).Some? && At(t, p, Writer.AsciiBody(s, i).value + [QUOTE])
    ensures StringBody(t, p, acc) == Decoded(true, p + |Writer.AsciiBody(s, i).value| + 1, acc + s[i..])
    decreases |s| - i
  {
    hide StringBody, Writer.PieceAt, At;
    if i == |s| {
      assert Writer.AsciiBody(s, i).value + [QUOTE] == [QUOTE];
      AtFirst(t, p, [QUOTE]);
      ClosingQuote(t, p, acc);
      assert acc + s[i..] == acc;
    } else {
      var q := Writer.PieceAt(s, i).value;
      var rest := Writer.AsciiBody(s, q.pos).value;
      assert Writer.AsciiBody(s, i).value + [QUOTE] == q.text + (rest + [QUOTE]);
      AtSplits(t, p, q.text, rest + [QUOTE]);
      PieceInverse(t, p, s, i, acc);
      ReadsBack(t, p + |q.text|, s, q.pos, acc + s[i..q.pos]);
      assert (acc + s[i..q.pos]) + s[q.pos..] == acc + s[i..];
    }
  }

  /** Every well-formed string survives the ASCII form, between its quotes and wherever it stands in a text. */
  lemma AsciiRoundTrip(t: bytes, p: nat, s: bytes, events: seq<Event>, isKey: bool)
    requires Encodings.WellFormedFrom(s, 0)
    requires Writer.AsciiBody(s, 0).Some? ==> At(t, p, [QUOTE] + Writer.AsciiBody(s, 0).value + [QUOTE])
    ensures Writer.AsciiBody(s, 0).Some? && Peek(t, p) == QUOTE
    ensures ParseString(t, p, events, isKey) ==
            Out(true, p + |Writer.AsciiBody(s, 0).value| + 2, events + [if isKey then Key(s) else StringEvent(s)])
  {
    hide StringBody, Writer.AsciiBody, At;
    WrittenIffWellFormed(s, 0);
    var text := Writer.AsciiBody(s, 0).value;
    assert [QUOTE] + text + [QUOTE] == [QUOTE] + (text + [QUOTE]);
    AtSplits(t, p, [QUOTE], text + [QUOTE]);
    AtFirst(t, p, [QUOTE]);
    ReadsBack(t, p + 1, s, 0, []);
    assert [] + s[0..] == s;
  }

  /** A string written for either target is read back byte for byte, wherever it stands. */
  lemma TextInverse(t: bytes, p: nat, f: Writer.Format, s: bytes, acc: seq<Event>, isKey: bool)
    requires Writer.CanWrite(f, s) && At(t, p, Writer.TextOf(f, s))
    ensures Peek(t, p) == QUOTE
    ensures ParseString(t, p, acc, isKey) == Out(true, p + |Writer.TextOf(f, s)|, acc + [if isKey then Key(s) else StringEvent(s)])
  {
    hide Writer.AsciiBody, At, Writer.Quoted;
    if f.target.Utf8? {
      QuotedInverse(t, p, s, acc, isKey);
    } else {
      WrittenIffWellFormed(s, 0);
      AsciiRoundTrip(t, p, s, acc, isKey);
    }
  }
}
