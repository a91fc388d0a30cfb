/** Words at positions of a text, and strings that are read back as they were written. */
module Strings {
  import opened Base
  import opened Json
  import opened Reader
  import Writer

  // ---- positions in a text ----

  lemma AtSplits(t: bytes, p: nat, a: bytes, b: bytes)
    ensures At(t, p, a + b) <==> At(t, p, a) && At(t, p + |a|, b)
  {
    if At(t, p, a + b) {
      var w := t[p..p + |a + b|];
      assert a == w[..|a|] == t[p..p + |a|];
      assert b == w[|a|..] == t[p + |a|..p + |a| + |b|];
    }
    if At(t, p, a) && At(t, p + |a|, b) {
      assert t[p..p + |a + b|] == t[p..p + |a|] + t[p + |a|..p + |a| + |b|];
    }
  }

  lemma AtFirst(t: bytes, p: nat, w: bytes)
    requires At(t, p, w) && w != []
    ensures Peek(t, p) == w[0]
  {
    assert t[p..p + |w|][0] == t[p];
  }

  // ---- strings ----

  lemma EscapeInverse(t: bytes, p: nat, c: byte, acc: bytes)
    requires At(t, p, Writer.EscapeByte(c))
    ensures StringBody(t, p, acc) == StringBody(t, p + |Writer.EscapeByte(c)|, acc + [c])
  {
    var w := Writer.EscapeByte(c);
    assert forall k | 0 <= k < |w| :: Peek(t, p + k) == w[k] by {
      forall k | 0 <= k < |w| ensures Peek(t, p + k) == w[k] {
        assert t[p..p + |w|][k] == t[p + k];
      }
    }
    assert Peek(t, p + 0) == w[0];
    if |w| > 1 {
      assert Peek(t, p + 1) == w[1];
    }
    if |w| == 6 {
      HexInverse(t, p, c);
    }
  }

  lemma HexInverse(t: bytes, p: nat, c: byte)
    requires c < 0x20 && |Writer.EscapeByte(c)| == 6
    requires At(t, p, Writer.EscapeByte(c))
    ensures UnicodeEscape(t, p) == Decoded(true, p + 6, [c])
  {
    var w := Writer.EscapeByte(c);
    assert t[p..p + 6] == w;
    assert Peek(t, p + 2) == w[2] && Peek(t, p + 3) == w[3] && Peek(t, p + 4) == w[4] && Peek(t, p + 5) == w[5];
    assert HexValue(Writer.HexDigit(c / 16)) == c / 16;
    assert HexValue(Writer.HexDigit(c % 16)) == c % 16;
    assert Hex4(t, p + 2) == c;
  }

  lemma {:induction false} StringInverse(t: bytes, p: nat, s: bytes, acc: bytes)
    requires At(t, p, Writer.Escaped(s) + [QUOTE])
    ensures StringBody(t, p, acc) == Decoded(true, p + |Writer.Escaped(s)| + 1, acc + s)
    decreases |s|
  {
    hide StringBody, Writer.EscapeByte;
    if s == [] {
      AtFirst(t, p, [QUOTE]);
      assert Writer.Escaped(s) + [QUOTE] == [QUOTE];
      ClosingQuote(t, p, acc);
      assert acc + s == acc;
    } else {
      var w := Writer.EscapeByte(s[0]);
      assert Writer.Escaped(s) + [QUOTE] == w + (Writer.Escaped(s[1..]) + [QUOTE]);
      AtSplits(t, p, w, Writer.Escaped(s[1..]) + [QUOTE]);
      EscapeInverse(t, p, s[0], acc);
      StringInverse(t, p + |w|, s[1..], acc + [s[0]]);
      assert acc + [s[0]] + s[1..] == acc + s;
    }
  }

  lemma ClosingQuote(t: bytes, p: nat, acc: bytes)
    requires Peek(t, p) == QUOTE
    ensures StringBody(t, p, acc) == Decoded(true, p + 1, acc)
  {
  }

  lemma QuotedInverse(t: bytes, p: nat, s: bytes, acc: seq<Event>, isKey: bool)
    requires At(t, p, Writer.Quoted(s))
    ensures Peek(t, p) == QUOTE
    ensures ParseString(t, p, acc, isKey) == Out(true, p + |Writer.Quoted(s)|, acc + [if isKey then Key(s) else StringEvent(s)])
  {
    hide StringBody, Writer.Escaped;
    AtFirst(t, p, Writer.Quoted(s));
    assert Writer.Quoted(s) == [QUOTE] + (Writer.Escaped(s) + [QUOTE]);
    AtSplits(t, p, [QUOTE], Writer.Escaped(s) + [QUOTE]);
    StringInverse(t, p + 1, s, []);
    assert [] + s == s;
  }
}
