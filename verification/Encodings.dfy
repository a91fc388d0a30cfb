/** UTF-8 as encodings.h encodes, decodes and validates it, against the grammar of RFC 3629. */
module Encodings {
  import opened Base
  import opened Json

  /** The bytes of one code point. Masks and shifts are written as remainders and quotients. */
  function Encode(cp: nat): (r: bytes)
    requires cp <= 0x10FFFF
    ensures 1 <= |r| <= 4
  {
    if cp <= 0x7F then [cp]
    else if cp <= 0x7FF then [0xC0 + cp / 64, 0x80 + cp % 64]
    else if cp <= 0xFFFF then [0xE0 + cp / 4096, 0x80 + cp / 64 % 64, 0x80 + cp % 64]
    else [0xF0 + cp / 262144, 0x80 + cp / 4096 % 64, 0x80 + cp / 64 % 64, 0x80 + cp % 64]
  }

  /** The table that sorts bytes: 0x10, 0x40 and 0x20 are the three kinds of continuation bytes. */
  function GetRange(c: byte): nat {
    if c <= 0x7F then 0
    else if c <= 0x8F then 0x10
    else if c <= 0x9F then 0x40
    else if c <= 0xBF then 0x20
    else if c <= 0xC1 then 8
    else if c <= 0xDF then 2
    else if c == 0xE0 then 10
    else if c == 0xED then 4
    else if c <= 0xEF then 3
    else if c == 0xF0 then 11
    else if c <= 0xF3 then 6
    else if c == 0xF4 then 5
    else 8
  }

  /** The first and the later continuation bytes a leading byte asks for, as masks over GetRange. */
  datatype Plan = Plan(ok: bool, masks: seq<nat>)

  function PlanOf(kind: nat): Plan {
    match kind
    case 2 => Plan(true, [0x70])
    case 3 => Plan(true, [0x70, 0x70])
    case 4 => Plan(true, [0x50, 0x70])
    case 5 => Plan(true, [0x10, 0x70, 0x70])
    case 6 => Plan(true, [0x70, 0x70, 0x70])
    case 10 => Plan(true, [0x20, 0x70])
    case 11 => Plan(true, [0x60, 0x70, 0x70])
    case _ => Plan(false, [])
  }

  /** Whether a byte's range has a bit of the mask; ranges of continuation bytes are single bits. */
  predicate Matches(c: byte, mask: nat) {
    var r := GetRange(c);
    (r == 0x10 || r == 0x20 || r == 0x40) && mask / r % 2 == 1
  }

  /** The bits a leading byte of some kind contributes: 0xFF shifted right by the kind. */
  function LeadBits(c: byte, kind: nat): nat {
    match kind
    case 2 => c % 64
    case 3 => c % 32
    case 4 => c % 16
    case 5 => c % 8
    case 6 => c % 4
    case _ => 0
  }

  datatype Decoded = Decoded(ok: bool, pos: nat, cp: nat)

  /** Take one continuation byte; after a mismatch the bytes are still taken. */
  function Shift(t: bytes, d: Decoded, mask: nat): Decoded {
    var c := Peek(t, d.pos);
    Decoded(d.ok && Matches(c, mask), d.pos + 1, d.cp * 64 + c % 64)
  }

  function Tails(t: bytes, d: Decoded, masks: seq<nat>): Decoded
    decreases |masks|
  {
    if masks == [] then d else Tails(t, Shift(t, d, masks[0]), masks[1..])
  }

  function Decode(t: bytes, i: nat): Decoded {
    var c := Peek(t, i);
    if c < 0x80 then Decoded(true, i + 1, c)
    else
      var kind := GetRange(c);
      var plan := PlanOf(kind);
      Tails(t, Decoded(plan.ok, i + 1, LeadBits(c, kind)), plan.masks)
  }

  /** What a validating copy took and put. */
  datatype Copied = Copied(ok: bool, pos: nat, out: bytes)

  function CopyTails(t: bytes, d: Copied, masks: seq<nat>): Copied
    decreases |masks|
  {
    if masks == [] then d
    else
      var c := Peek(t, d.pos);
      CopyTails(t, Copied(d.ok && Matches(c, masks[0]), d.pos + 1, d.out + [c]), masks[1..])
  }

  function Validate(t: bytes, i: nat): Copied {
    var c := Peek(t, i);
    if c < 0x80 then Copied(true, i + 1, [c])
    else
      var plan := PlanOf(GetRange(c));
      CopyTails(t, Copied(plan.ok, i + 1, [c]), plan.masks)
  }

  // ---- RFC 3629, section 4 ----

  predicate Tail(c: byte) { 0x80 <= c <= 0xBF }

  /** The length of the well-formed sequence at a position; 0 if there is none. */
  function WellFormedAt(t: bytes, i: nat): (n: nat)
    ensures n <= 4
  {
    var a, b, c, d := Peek(t, i), Peek(t, i + 1), Peek(t, i + 2), Peek(t, i + 3);
    if a <= 0x7F then 1
    else if 0xC2 <= a <= 0xDF && Tail(b) then 2
    else if a == 0xE0 && 0xA0 <= b <= 0xBF && Tail(c) then 3
    else if 0xE1 <= a <= 0xEC && Tail(b) && Tail(c) then 3
    else if a == 0xED && 0x80 <= b <= 0x9F && Tail(c) then 3
    else if 0xEE <= a <= 0xEF && Tail(b) && Tail(c) then 3
    else if a == 0xF0 && 0x90 <= b <= 0xBF && Tail(c) && Tail(d) then 4
    else if 0xF1 <= a <= 0xF3 && Tail(b) && Tail(c) && Tail(d) then 4
    else if a == 0xF4 && 0x80 <= b <= 0x8F && Tail(c) && Tail(d) then 4
    else 0
  }

  /** The code points UTF-8 may carry: all but the surrogates. */
  predicate Scalar(cp: nat) {
    cp <= 0xD7FF || 0xE000 <= cp <= 0x10FFFF
  }

  lemma TailsUnfold(t: bytes, d: Decoded, masks: seq<nat>)
    ensures |masks| == 1 ==> Tails(t, d, masks) == Shift(t, d, masks[0])
    ensures |masks| == 2 ==> Tails(t, d, masks) == Shift(t, Shift(t, d, masks[0]), masks[1])
    ensures |masks| == 3 ==> Tails(t, d, masks) == Shift(t, Shift(t, Shift(t, d, masks[0]), masks[1]), masks[2])
    decreases |masks|
  {
    hide Shift;
    if masks != [] {
      var e := Shift(t, d, masks[0]);
      assert Tails(t, d, masks) == Tails(t, e, masks[1..]);
      TailsUnfold(t, e, masks[1..]);
      assert |masks| == 1 ==> masks[1..] == [];
    }
  }

  /** The masks stand for ranges of continuation bytes. */
  lemma MasksAreRanges(c: byte)
    ensures Matches(c, 0x70) <==> Tail(c)
    ensures Matches(c, 0x50) <==> 0x80 <= c <= 0x9F
    ensures Matches(c, 0x10) <==> 0x80 <= c <= 0x8F
    ensures Matches(c, 0x20) <==> 0xA0 <= c <= 0xBF
    ensures Matches(c, 0x60) <==> 0x90 <= c <= 0xBF
    ensures Tail(c) ==> c % 64 == c - 0x80
  {
  }

  /** The bit layout of RFC 3629, section 3. */
  function Bits(t: bytes, i: nat): (cp: int) {
    var a, b, c, d := Peek(t, i), Peek(t, i + 1), Peek(t, i + 2), Peek(t, i + 3);
    match WellFormedAt(t, i)
    case 1 => a
    case 2 => Join(a - 0xC0, b)
    case 3 => Join(Join(a - 0xE0, b), c)
    case _ => Join(Join(Join(a - 0xF0, b), c), d)
  }

  function Join(high: int, c: byte): int { high * 64 + (c - 0x80) }

  lemma LeadBitsAreLow(a: byte)
    ensures 0xC2 <= a <= 0xDF ==> LeadBits(a, GetRange(a)) == a - 0xC0
    ensures 0xE0 <= a <= 0xEF ==> LeadBits(a, GetRange(a)) == a - 0xE0
    ensures 0xF0 <= a <= 0xF4 ==> LeadBits(a, GetRange(a)) == a - 0xF0
  {
  }

  /** Decode accepts exactly the well-formed sequences, moves behind the one it accepts and gathers its bits. */
  lemma DecodeFollowsTheGrammar(t: bytes, i: nat)
    ensures Decode(t, i).ok <==> WellFormedAt(t, i) > 0
    ensures Decode(t, i).ok ==> Decode(t, i).pos == i + WellFormedAt(t, i) && Decode(t, i).cp == Bits(t, i)
    ensures Decode(t, i).ok && i < |t| ==> Decode(t, i).pos <= |t|
  {
    hide Matches, LeadBits;
    var a, b, c, d := Peek(t, i), Peek(t, i + 1), Peek(t, i + 2), Peek(t, i + 3);
    if a >= 0x80 {
      LeadBitsAreLow(a);
      MasksAreRanges(b);
      MasksAreRanges(c);
      MasksAreRanges(d);
      var plan := PlanOf(GetRange(a));
      TailsUnfold(t, Decoded(plan.ok, i + 1, LeadBits(a, GetRange(a))), plan.masks);
    }
  }

  lemma Splits(high: int, c: byte)
    requires Tail(c)
    ensures Join(high, c) / 64 == high && Join(high, c) % 64 == c - 0x80
  {
  }

  lemma Quotients(cp: nat)
    ensures cp / 64 / 64 == cp / 4096 && cp / 4096 / 64 == cp / 262144
  {
  }

  lemma Encode3(a: byte, b: byte, c: byte)
    requires 0xE0 <= a <= 0xEF && Tail(b) && Tail(c) && (a == 0xE0 ==> b >= 0xA0)
    ensures var cp := Join(Join(a - 0xE0, b), c); 0x800 <= cp <= 0xFFFF && Encode(cp) == [a, b, c]
  {
    Splits(a - 0xE0, b);
    Splits(Join(a - 0xE0, b), c);
    Quotients(Join(Join(a - 0xE0, b), c));
  }

  lemma Encode4(a: byte, b: byte, c: byte, d: byte)
    requires 0xF0 <= a <= 0xF4 && Tail(b) && Tail(c) && Tail(d) && (a == 0xF0 ==> b >= 0x90) && (a == 0xF4 ==> b <= 0x8F)
    ensures var cp := Join(Join(Join(a - 0xF0, b), c), d); 0x10000 <= cp <= 0x10FFFF && Encode(cp) == [a, b, c, d]
  {
    Splits(a - 0xF0, b);
    Splits(Join(a - 0xF0, b), c);
    Splits(Join(Join(a - 0xF0, b), c), d);
    Quotients(Join(Join(Join(a - 0xF0, b), c), d));
  }

  lemma Encode2(a: byte, b: byte)
    requires 0xC2 <= a <= 0xDF && Tail(b)
    ensures var cp := Join(a - 0xC0, b); 0x80 <= cp <= 0x7FF && Encode(cp) == [a, b]
  {
    Splits(a - 0xC0, b);
  }

  /** The leading bytes of well-formed sequences, by length. */
  lemma Leads(t: bytes, i: nat)
    ensures var n := WellFormedAt(t, i);
            var a, b, c, d := Peek(t, i), Peek(t, i + 1), Peek(t, i + 2), Peek(t, i + 3);
            && (n == 1 ==> a <= 0x7F)
            && (n == 2 ==> 0xC2 <= a <= 0xDF && Tail(b))
            && (n == 3 ==> 0xE0 <= a <= 0xEF && Tail(b) && Tail(c) && (a == 0xE0 ==> b >= 0xA0) && (a == 0xED ==> b <= 0x9F))
            && (n == 4 ==> 0xF0 <= a <= 0xF4 && Tail(b) && Tail(c) && Tail(d) && (a == 0xF0 ==> b >= 0x90) && (a == 0xF4 ==> b <= 0x8F))
  {
  }

  /** Three bytes never spell a surrogate. */
  lemma NoSurrogate(a: byte, b: byte, c: byte)
    requires 0xE0 <= a <= 0xEF && Tail(b) && Tail(c) && (a == 0xED ==> b <= 0x9F)
    ensures Join(Join(a - 0xE0, b), c) <= 0xD7FF || 0xE000 <= Join(Join(a - 0xE0, b), c)
  {
  }

  lemma EncodeBits(t: bytes, i: nat)
    requires WellFormedAt(t, i) > 0
    ensures 0 <= Bits(t, i) && Scalar(Bits(t, i))
    ensures Encode(Bits(t, i)) == [Peek(t, i), Peek(t, i + 1), Peek(t, i + 2), Peek(t, i + 3)][..WellFormedAt(t, i)]
  {
    hide WellFormedAt, Join, Encode, Peek;
    Leads(t, i);
    var a, b, c, d := Peek(t, i), Peek(t, i + 1), Peek(t, i + 2), Peek(t, i + 3);
    var n := WellFormedAt(t, i);
    if n == 1 {
      EncodeAscii(a);
    } else if n == 2 {
      Encode2(a, b);
    } else if n == 3 {
      Encode3(a, b, c);
      NoSurrogate(a, b, c);
    } else {
      Encode4(a, b, c, d);
    }
  }

  lemma EncodeAscii(a: byte)
    requires a <= 0x7F
    ensures Encode(a) == [a]
  {
  }

  /** Encode gives back the bytes Decode took. */
  lemma EncodeInvertsDecode(t: bytes, i: nat)
    requires i < |t| && Decode(t, i).ok
    ensures var d := Decode(t, i); i < d.pos <= |t| && Scalar(d.cp) && Encode(d.cp) == t[i..d.pos]
  {
    hide Decode, WellFormedAt, Encode;
    DecodeFollowsTheGrammar(t, i);
    EncodeBits(t, i);
    var n := WellFormedAt(t, i);
    assert [Peek(t, i), Peek(t, i + 1), Peek(t, i + 2), Peek(t, i + 3)][..n] == t[i..i + n];
  }

  lemma PeeksHere(t: bytes, i: nat, s: bytes, k: nat)
    requires At(t, i, s) && k < |s|
    ensures Peek(t, i + k) == s[k]
  {
    assert t[i..i + |s|][k] == t[i + k];
  }

  lemma EncodedIsWellFormed(t: bytes, i: nat, cp: nat)
    requires Scalar(cp) && At(t, i, Encode(cp))
    ensures WellFormedAt(t, i) == |Encode(cp)| && Bits(t, i) == cp
  {
    hide At;
    var e := Encode(cp);
    PeeksHere(t, i, e, 0);
    if |e| > 1 { PeeksHere(t, i, e, 1); }
    if |e| > 2 { PeeksHere(t, i, e, 2); }
    if |e| > 3 { PeeksHere(t, i, e, 3); }
    Quotients(cp);
  }

  /** Decode gives back every code point Encode wrote, whatever follows it. */
  lemma DecodeInvertsEncode(t: bytes, i: nat, cp: nat)
    requires Scalar(cp) && At(t, i, Encode(cp))
    ensures Decode(t, i) == Decoded(true, i + |Encode(cp)|, cp)
  {
    hide Decode, WellFormedAt;
    EncodedIsWellFormed(t, i, cp);
    DecodeFollowsTheGrammar(t, i);
  }

  lemma {:induction false} CopiesAlong(t: bytes, d: Decoded, c: Copied, masks: seq<nat>)
    requires d.ok == c.ok && d.pos == c.pos
    ensures CopyTails(t, c, masks).ok == Tails(t, d, masks).ok
    ensures CopyTails(t, c, masks).pos == Tails(t, d, masks).pos == d.pos + |masks|
    ensures CopyTails(t, c, masks).out == c.out + seq(|masks|, k requires k >= 0 => Peek(t, d.pos + k))
    decreases |masks|
  {
    hide Matches;
    if masks != [] {
      var b := Peek(t, d.pos);
      CopiesAlong(t, Shift(t, d, masks[0]), Copied(c.ok && Matches(b, masks[0]), c.pos + 1, c.out + [b]), masks[1..]);
      assert [b] + seq(|masks| - 1, k requires k >= 0 => Peek(t, d.pos + 1 + k)) == seq(|masks|, k requires k >= 0 => Peek(t, d.pos + k));
    }
  }

  /** Validate accepts exactly what Decode accepts and copies the accepted bytes unchanged. */
  lemma ValidateCopies(t: bytes, i: nat)
    requires i < |t|
    ensures Validate(t, i).ok <==> WellFormedAt(t, i) > 0
    ensures Validate(t, i).ok ==> Validate(t, i).pos == i + WellFormedAt(t, i) && At(t, i, Validate(t, i).out)
                                  && |Validate(t, i).out| == WellFormedAt(t, i)
  {
    hide WellFormedAt, Tails, CopyTails, GetRange;
    DecodeFollowsTheGrammar(t, i);
    var a := Peek(t, i);
    if a >= 0x80 {
      var plan := PlanOf(GetRange(a));
      CopiesAlong(t, Decoded(plan.ok, i + 1, LeadBits(a, GetRange(a))), Copied(plan.ok, i + 1, [a]), plan.masks);
    }
  }

  /** Whether the bytes from `i` on are well-formed UTF-8, by the grammar of RFC 3629, section 4. */
  predicate WellFormedFrom(s: bytes, i: nat)
    requires i <= |s|
    decreases |s| - i
  {
    if i == |s| then true
    else
      var n := WellFormedAt(s, i);
      n > 0 && i + n <= |s| && WellFormedFrom(s, i + n)
  }

  /** Only the bytes of a sequence decide whether it is well-formed. */
  lemma WellFormedElsewhere(s: bytes, i: nat, t: bytes, j: nat)
    requires var n := WellFormedAt(s, i); n > 0 && i + n <= |s| && At(t, j, s[i..i + n])
    ensures WellFormedAt(t, j) == WellFormedAt(s, i)
  {
    var n := WellFormedAt(s, i);
    var w := s[i..i + n];
    assert Peek(t, j) == w[0] == Peek(s, i);
    assert n > 1 ==> Peek(t, j + 1) == w[1] == Peek(s, i + 1);
    assert n > 2 ==> Peek(t, j + 2) == w[2] == Peek(s, i + 2);
    assert n > 3 ==> Peek(t, j + 3) == w[3] == Peek(s, i + 3);
  }

  /** Validate takes and puts one byte, and one more for every continuation byte the first one asks for. */
  lemma ValidateLength(t: bytes, i: nat)
    ensures Validate(t, i).pos == i + |Validate(t, i).out| && 1 <= |Validate(t, i).out| <= 4
    ensures i >= |t| ==> |Validate(t, i).out| == 1
  {
    hide Tails, CopyTails, GetRange;
    var a := Peek(t, i);
    if a >= 0x80 {
      var plan := PlanOf(GetRange(a));
      CopiesAlong(t, Decoded(plan.ok, i + 1, 0), Copied(plan.ok, i + 1, [a]), plan.masks);
    }
  }

  // ---- whole texts ----

  predicate AllScalars(cps: seq<nat>) { forall cp | cp in cps :: Scalar(cp) }

  function EncodeAll(cps: seq<nat>): bytes
    requires AllScalars(cps)
  {
    if cps == [] then []
    else
      assert cps[0] in cps;
      Encode(cps[0]) + EncodeAll(cps[1..])
  }
}
