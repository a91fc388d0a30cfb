/** The texts of JSON Pointers as sections 3 and 6 of RFC 6901 generate them, and the names they mean. Parse accepts exactly these. */
module PointerGrammar {
  import opened Base
  import opened Json
  import opened Pointer
  import Encodings
  import Grammar
  import Reader
  import Strings
  import Writer

  /** The characters of a URI that are never percent-encoded, but for the tilde. */
  predicate Unreserved(c: byte) {
    || 'A' as int <= c <= 'Z' as int || 'a' as int <= c <= 'z' as int || '0' as int <= c <= '9' as int
    || c == '-' as int || c == '.' as int || c == '_' as int
  }

  /** Two hexadecimal digits, in any case, for every byte. */
  predicate SpellsBytes(ds: bytes, bs: bytes) {
    if bs == [] then ds == []
    else |ds| >= 2 && Grammar.SpellsDigit(ds[0], bs[0] / 16) && Grammar.SpellsDigit(ds[1], bs[0] % 16) && SpellsBytes(ds[2..], bs[1..])
  }

  /**
   * A piece of a name as it is spelled: a character as it is, an escape, a percent-encoded UTF-8 sequence, or an escape
   * whose tilde is percent-encoded.
   */
  datatype Piece = Plain(c: byte) | Escape(one: bool) | Coded(bs: bytes, ds: bytes) | CodedEscape(ds: bytes, one: bool)

  predicate Valid(uri: bool, p: Piece) {
    match p
    case Plain(c) => c != '/' as int && c != '~' as int && (uri ==> Unreserved(c))
    case Escape(_) => true
    case Coded(bs, ds) => uri && bs != [] && bs != ['~' as int] && Encodings.WellFormedAt(bs, 0) == |bs| && SpellsBytes(ds, bs)
    case CodedEscape(ds, _) => uri && SpellsBytes(ds, ['~' as int])
  }

  function CodedText(ds: bytes): bytes {
    if |ds| < 2 then [] else ['%' as int, ds[0], ds[1]] + CodedText(ds[2..])
  }

  function EscapeText(one: bool): bytes { [if one then '1' as int else '0' as int] }

  function PieceText(p: Piece): bytes {
    match p
    case Plain(c) => [c]
    case Escape(one) => ['~' as int] + EscapeText(one)
    case Coded(_, ds) => CodedText(ds)
    case CodedEscape(ds, one) => CodedText(ds) + EscapeText(one)
  }

  function PieceMeaning(p: Piece): bytes {
    match p
    case Plain(c) => [c]
    case Escape(one) => [if one then '/' as int else '~' as int]
    case Coded(bs, _) => bs
    case CodedEscape(_, one) => [if one then '/' as int else '~' as int]
  }

  type Name = seq<Piece>

  predicate ValidName(uri: bool, ps: Name) { forall p | p in ps :: Valid(uri, p) }

  function NameText(ps: Name): bytes { if ps == [] then [] else PieceText(ps[0]) + NameText(ps[1..]) }

  function NameMeaning(ps: Name): bytes { if ps == [] then [] else PieceMeaning(ps[0]) + NameMeaning(ps[1..]) }

  predicate ValidNames(uri: bool, ns: seq<Name>) { forall n | n in ns :: ValidName(uri, n) }

  function NamesText(ns: seq<Name>): bytes { if ns == [] then [] else ['/' as int] + (NameText(ns[0]) + NamesText(ns[1..])) }

  function Meaning(ns: seq<Name>): seq<bytes> { if ns == [] then [] else [NameMeaning(ns[0])] + Meaning(ns[1..]) }

  function PointerText(uri: bool, ns: seq<Name>): bytes { (if uri then ['#' as int] else []) + NamesText(ns) }

  // ---- what is generated is accepted ----

  lemma {:induction false} TripletsAre(t: bytes, i: nat, bs: bytes, ds: bytes)
    requires SpellsBytes(ds, bs) && At(t, i, CodedText(ds))
    ensures bs <= Triplets(t, i) && |CodedText(ds)| == 3 * |bs|
    decreases |bs|
  {
    hide At, Reader.HexValue, Grammar.SpellsDigit;
    if bs != [] {
      var head := ['%' as int, ds[0], ds[1]];
      Strings.AtSplits(t, i, head, CodedText(ds[2..]));
      TripletsAre(t, i + 3, bs[1..], ds[2..]);
      Encodings.PeeksHere(t, i, head, 0);
      Encodings.PeeksHere(t, i, head, 1);
      Encodings.PeeksHere(t, i, head, 2);
      Grammar.HexDigitsExactly(ds[0]);
      Grammar.HexDigitsExactly(ds[1]);
      AtFits(t, i, head);
      assert Triplets(t, i) == [bs[0]] + Triplets(t, i + 3);
    }
  }

  lemma DecodesCoded(t: bytes, i: nat, bs: bytes, ds: bytes)
    requires SpellsBytes(ds, bs) && At(t, i, CodedText(ds)) && bs != [] && Encodings.WellFormedAt(bs, 0) == |bs|
    ensures |CodedText(ds)| == 3 * |bs| && i < |t| && t[i] == PERCENT
    ensures PercentDecode(t, i) == Encodings.Copied(true, i + 3 * |bs|, bs)
  {
    hide Encodings.Validate, Encodings.WellFormedAt, Triplets, At, CodedText, SpellsBytes;
    TripletsAre(t, i, bs, ds);
    var all := Triplets(t, i);
    assert bs[0..|bs|] == bs;
    WellFormedPrefix(bs, 0, all);
    Encodings.ValidateCopies(all, 0);
    SliceAt(all, 0, Encodings.Validate(all, 0).out);
    StartsWithPercent(t, i, ds, bs);
  }

  lemma StartsWithPercent(t: bytes, i: nat, ds: bytes, bs: bytes)
    requires SpellsBytes(ds, bs) && bs != [] && At(t, i, CodedText(ds))
    ensures i < |t| && t[i] == PERCENT
  {
    Encodings.PeeksHere(t, i, CodedText(ds), 0);
  }

  lemma ReadsEscape(t: bytes, i: nat, one: bool)
    requires At(t, i, EscapeText(one))
    ensures Pointer.Unescape(t, TILDE, i) == Encodings.Copied(true, i + 1, [if one then SLASH else TILDE])
  {
    Encodings.PeeksHere(t, i, EscapeText(one), 0);
  }

  lemma ReadsPiece(t: bytes, i: nat, uri: bool, p: Piece)
    requires Valid(uri, p) && At(t, i, PieceText(p))
    ensures i < |t| && t[i] != SLASH
    ensures NamePiece(t, i, uri) == Encodings.Copied(true, i + |PieceText(p)|, PieceMeaning(p))
  {
    hide Encodings.WellFormedAt, PercentDecode, CodedText, SpellsBytes, At, Pointer.Unescape;
    match p
    case Plain(c) =>
      AtFits(t, i, [c]);
      Encodings.PeeksHere(t, i, [c], 0);
      PlainStays(t, c, i + 1);
    case Escape(one) =>
      Strings.AtSplits(t, i, ['~' as int], EscapeText(one));
      Encodings.PeeksHere(t, i, ['~' as int], 0);
      ReadsEscape(t, i + 1, one);
    case Coded(bs, ds) =>
      DecodesCoded(t, i, bs, ds);
      if |bs| == 1 {
        assert bs == [bs[0]];
        PlainStays(t, bs[0], i + 3);
      }
    case CodedEscape(ds, one) =>
      Strings.AtSplits(t, i, CodedText(ds), EscapeText(one));
      TildeIsWellFormed();
      DecodesCoded(t, i, ['~' as int], ds);
      ReadsEscape(t, i + 3, one);
  }

  lemma TildeIsWellFormed()
    ensures Encodings.WellFormedAt(['~' as int], 0) == 1
  {
  }

  lemma PlainStays(t: bytes, c: byte, pos: nat)
    requires c != TILDE
    ensures Pointer.Unescape(t, c, pos) == Encodings.Copied(true, pos, [c])
  {
  }

  lemma {:induction false} ReadsName(t: bytes, i: nat, uri: bool, ps: Name, acc: bytes)
    requires ValidName(uri, ps) && At(t, i, NameText(ps))
    requires var q := i + |NameText(ps)|; q == |t| || Peek(t, q) == SLASH
    ensures i + |NameText(ps)| <= |t|
    ensures ScanName(t, i, uri, acc) == Encodings.Copied(true, i + |NameText(ps)|, acc + NameMeaning(ps))
    decreases |ps|
  {
    hide NamePiece, PieceText, PieceMeaning, Valid, At;
    AtFits(t, i, NameText(ps));
    if ps == [] {
      assert acc + [] == acc;
    } else {
      var p := ps[0];
      assert p in ps;
      Strings.AtSplits(t, i, PieceText(p), NameText(ps[1..]));
      ReadsPiece(t, i, uri, p);
      ReadsName(t, i + |PieceText(p)|, uri, ps[1..], acc + PieceMeaning(p));
      assert acc + PieceMeaning(p) + NameMeaning(ps[1..]) == acc + NameMeaning(ps);
    }
  }

  lemma {:induction false} ReadsNames(t: bytes, i: nat, uri: bool, ns: seq<Name>)
    requires ValidNames(uri, ns) && At(t, i, NamesText(ns)) && i + |NamesText(ns)| == |t|
    ensures (i < |t| ==> t[i] == SLASH) && ScanNames(t, i, uri) == Some(Meaning(ns))
    decreases |ns|
  {
    hide ScanName, NameText, NameMeaning, ValidName, At;
    if ns != [] {
      var first, rest := NameText(ns[0]), NamesText(ns[1..]);
      assert ns[0] in ns;
      Strings.AtSplits(t, i, ['/' as int], first + rest);
      Strings.AtSplits(t, i + 1, first, rest);
      Encodings.PeeksHere(t, i, ['/' as int], 0);
      var q := i + 1 + |first|;
      if rest != [] {
        Encodings.PeeksHere(t, q, rest, 0);
      }
      ReadsName(t, i + 1, uri, ns[0], []);
      ReadsNames(t, q, uri, ns[1..]);
      assert [] + NameMeaning(ns[0]) == NameMeaning(ns[0]);
    }
  }

  /** Every text that the grammar generates, in either form, is parsed to the names it means. */
  lemma ParsesTheGrammar(uri: bool, ns: seq<Name>)
    requires ValidNames(uri, ns)
    ensures ParseNames(PointerText(uri, ns)) == Some(Meaning(ns))
  {
    hide ScanNames, Meaning, ValidNames;
    var t := PointerText(uri, ns);
    var i := if uri then 1 else 0;
    assert t[i..] == NamesText(ns) && t[i..i + |NamesText(ns)|] == NamesText(ns);
    ReadsNames(t, i, uri, ns);
    assert uri || Peek(t, 0) != HASH;
  }

  // ---- and nothing else ----

  /** The first of some triplets. */
  lemma FirstTriplet(t: bytes, i: nat)
    requires Triplets(t, i) != []
    ensures i + 3 <= |t| && At(t, i, ['%' as int, t[i + 1], t[i + 2]])
    ensures Triplets(t, i)[1..] == Triplets(t, i + 3)
    ensures Grammar.SpellsDigit(t[i + 1], Triplets(t, i)[0] / 16) && Grammar.SpellsDigit(t[i + 2], Triplets(t, i)[0] % 16)
  {
    hide Reader.HexValue, Grammar.SpellsDigit;
    TripletSpelled(t[i + 1], t[i + 2], Triplets(t, i)[0]);
    assert t[i..i + 3] == ['%' as int, t[i + 1], t[i + 2]];
  }

  lemma {:induction false} CodedOf(t: bytes, i: nat, n: nat) returns (ds: bytes)
    requires n <= |Triplets(t, i)|
    ensures SpellsBytes(ds, Triplets(t, i)[..n]) && (n > 0 ==> At(t, i, CodedText(ds)))
    ensures |CodedText(ds)| == 3 * n && |ds| == 2 * n
    decreases n
  {
    hide Triplets, Grammar.SpellsDigit, At;
    if n == 0 {
      ds := [];
    } else {
      FirstTriplet(t, i);
      var rest := CodedOf(t, i + 3, n - 1);
      var a, b := t[i + 1], t[i + 2];
      ds := [a, b] + rest;
      assert ds[2..] == rest && Triplets(t, i)[..n][1..] == Triplets(t, i + 3)[..n - 1];
      if n > 1 {
        Strings.AtSplits(t, i, ['%' as int, a, b], CodedText(rest));
      } else {
        assert CodedText(ds) == ['%' as int, a, b];
      }
    }
  }

  lemma TripletSpelled(a: byte, b: byte, x: byte)
    requires Reader.HexValue(a) >= 0 && Reader.HexValue(b) >= 0 && x == Reader.HexValue(a) * 16 + Reader.HexValue(b)
    ensures Grammar.SpellsDigit(a, x / 16) && Grammar.SpellsDigit(b, x % 16)
  {
    hide Reader.HexValue, Grammar.SpellsDigit;
    Grammar.HexDigitsExactly(a);
    Grammar.HexDigitsExactly(b);
    assert x / 16 == Reader.HexValue(a) && x % 16 == Reader.HexValue(b);
  }

  lemma CodedSequenceOf(t: bytes, i: nat) returns (bs: bytes, ds: bytes)
    requires i < |t| && t[i] == PERCENT && PercentDecode(t, i).ok
    ensures PercentDecode(t, i) == Encodings.Copied(true, i + |CodedText(ds)|, bs) && |CodedText(ds)| == 3 * |bs|
    ensures bs != [] && Encodings.WellFormedAt(bs, 0) == |bs| && SpellsBytes(ds, bs) && At(t, i, CodedText(ds))
  {
    hide Encodings.Validate, Encodings.WellFormedAt, Triplets, CodedText, SpellsBytes;
    PercentDecodes(t, i);
    var all := Triplets(t, i);
    Encodings.ValidateCopies(all, 0);
    bs := Encodings.Validate(all, 0).out;
    var n := |bs|;
    SliceAt(all, 0, bs);
    assert bs == all[0..n] == all[..n];
    ds := CodedOf(t, i, n);
    Encodings.WellFormedElsewhere(all, 0, bs, 0) by { assert bs[0..n] == bs; }
  }

  lemma EscapeOf(t: bytes, i: nat) returns (one: bool)
    requires Pointer.Unescape(t, TILDE, i).ok
    ensures At(t, i, EscapeText(one))
    ensures Pointer.Unescape(t, TILDE, i) == Encodings.Copied(true, i + 1, [if one then SLASH else TILDE])
  {
    one := Peek(t, i) == ONE;
  }

  lemma CodedPieceOf(t: bytes, i: nat) returns (p: Piece)
    requires i < |t| && t[i] == PERCENT && NamePiece(t, i, true).ok
    ensures Valid(true, p) && At(t, i, PieceText(p))
    ensures NamePiece(t, i, true) == Encodings.Copied(true, i + |PieceText(p)|, PieceMeaning(p))
  {
    hide Encodings.WellFormedAt, PercentDecode, CodedText, SpellsBytes, Pointer.Unescape, At;
    var bs, ds := CodedSequenceOf(t, i);
    if bs == [TILDE] {
      var one := EscapeOf(t, i + 3);
      p := CodedEscape(ds, one);
      Strings.AtSplits(t, i, CodedText(ds), EscapeText(one));
    } else {
      p := Coded(bs, ds);
      if |bs| == 1 {
        assert bs == [bs[0]];
        PlainStays(t, bs[0], i + 3);
      }
    }
  }

  lemma PieceOf(t: bytes, i: nat, uri: bool) returns (p: Piece)
    requires i < |t| && t[i] != SLASH && NamePiece(t, i, uri).ok
    ensures Valid(uri, p) && At(t, i, PieceText(p))
    ensures NamePiece(t, i, uri) == Encodings.Copied(true, i + |PieceText(p)|, PieceMeaning(p))
  {
    hide Encodings.WellFormedAt, PercentDecode, CodedText, SpellsBytes, Pointer.Unescape;
    if uri && t[i] == PERCENT {
      p := CodedPieceOf(t, i);
    } else if t[i] == TILDE {
      var one := EscapeOf(t, i + 1);
      p := Escape(one);
      assert t[i..i + 1] == ['~' as int];
      Strings.AtSplits(t, i, ['~' as int], EscapeText(one));
    } else {
      p := Plain(t[i]);
      PlainStays(t, t[i], i + 1);
    }
  }

  lemma {:induction false} NameOf(t: bytes, i: nat, uri: bool, acc: bytes) returns (ps: Name)
    requires i <= |t| && ScanName(t, i, uri, acc).ok
    ensures ValidName(uri, ps) && At(t, i, NameText(ps))
    ensures ScanName(t, i, uri, acc) == Encodings.Copied(true, i + |NameText(ps)|, acc + NameMeaning(ps))
    decreases |t| - i
  {
    hide NamePiece, PieceText, PieceMeaning, Valid;
    if i == |t| || t[i] == SLASH {
      ps := [];
      assert acc + [] == acc;
    } else {
      var p := PieceOf(t, i, uri);
      var rest := NameOf(t, i + |PieceText(p)|, uri, acc + PieceMeaning(p));
      ps := [p] + rest;
      assert ps[1..] == rest;
      Strings.AtSplits(t, i, PieceText(p), NameText(rest));
      assert acc + PieceMeaning(p) + NameMeaning(rest) == acc + (PieceMeaning(p) + NameMeaning(rest));
    }
  }

  lemma {:induction false} NamesOf(t: bytes, i: nat, uri: bool) returns (ns: seq<Name>)
    requires i <= |t| && (i < |t| ==> t[i] == SLASH) && ScanNames(t, i, uri).Some?
    ensures ValidNames(uri, ns) && t[i..] == NamesText(ns) && ScanNames(t, i, uri) == Some(Meaning(ns))
    decreases |t| - i
  {
    hide ScanName, NameText, NameMeaning, ValidName;
    if i == |t| {
      ns := [];
    } else {
      var first := NameOf(t, i + 1, uri, []);
      var q := i + 1 + |NameText(first)|;
      var rest := NamesOf(t, q, uri);
      ns := [first] + rest;
      assert ns[1..] == rest && [] + NameMeaning(first) == NameMeaning(first);
      assert t[i..] == [t[i]] + (t[i + 1..q] + t[q..]);
    }
  }

  /** Every text that is parsed was generated. */
  lemma ParsesNothingElse(t: bytes) returns (uri: bool, ns: seq<Name>)
    requires ParseNames(t).Some?
    ensures ValidNames(uri, ns) && t == PointerText(uri, ns) && ParseNames(t) == Some(Meaning(ns))
  {
    hide ScanNames, Meaning, ValidNames;
    uri := IsFragment(t);
    var i := if uri then 1 else 0;
    ns := NamesOf(t, i, uri);
    assert t == t[..i] + t[i..];
  }

  // ---- how pointers are printed ----

  function UpperPairs(bs: bytes): bytes {
    if bs == [] then [] else [Grammar.UpperDigit(bs[0] / 16), Grammar.UpperDigit(bs[0] % 16)] + UpperPairs(bs[1..])
  }

  lemma {:induction false} PrintsUpperPairs(bs: bytes)
    ensures SpellsBytes(UpperPairs(bs), bs) && Percent(bs) == CodedText(UpperPairs(bs))
    decreases |bs|
  {
    hide Writer.HexDigit, Grammar.SpellsDigit, Grammar.UpperDigit;
    if bs != [] {
      Grammar.WriterDigit(bs[0] / 16);
      Grammar.WriterDigit(bs[0] % 16);
      assert UpperPairs(bs)[2..] == UpperPairs(bs[1..]);
      PrintsUpperPairs(bs[1..]);
    }
  }

  /** Each character is printed in one way: escaped, as it is, or as one percent-encoded sequence in upper case. */
  lemma PrintsPiece(name: bytes, j: nat, uri: bool)
    requires j < |name| && PrintPiece(name, j, uri).ok
    ensures var c, r := name[j], PrintPiece(name, j, uri);
            var p := if c == '~' as int then Escape(false)
                     else if c == '/' as int then Escape(true)
                     else if uri && !Unreserved(c) then Coded(name[j..r.pos], UpperPairs(name[j..r.pos]))
                     else Plain(c);
            Valid(uri, p) && r.out == PieceText(p) && PieceMeaning(p) == name[j..r.pos]
  {
    hide Encodings.Validate, Encodings.WellFormedAt, SpellsBytes, CodedText, UpperPairs;
    var c := name[j];
    if c != TILDE && c != SLASH && uri && !Unreserved(c) {
      Encodings.ValidateCopies(name, j);
      var d := Encodings.Validate(name, j);
      SliceAt(name, j, d.out);
      PrintsUpperPairs(d.out);
      Encodings.WellFormedElsewhere(name, j, d.out, 0) by { assert d.out[0..|d.out|] == d.out; }
      assert d.out[0] == c;
    } else {
      assert name[j..j + 1] == [c];
    }
  }
}
