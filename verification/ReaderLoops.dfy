/** GenericReader as the object it is: a stream position, a handler log and loops that move them. Every
    method is proved to do what the grammar in Reader.dfy or the machine in IterativeReader.dfy says. */
module ReaderLoops {
  import opened Base
  import opened Json
  import opened Reader
  import IterativeReader

  newtype uint32 = x: int | 0 <= x < 0x1_0000_0000
  newtype uint64 = x: int | 0 <= x < 0x1_0000_0000_0000_0000

  /** The machine word `u` of a type with `range` values, read as a signed number. */
  function Signed(u: nat, range: nat): int {
    if 2 * u < range then u else u - range
  }

  /** Complement and add one, on a word. */
  function Negated(u: nat, range: nat): nat
    requires u < range
  {
    (range - 1 - u + 1) % range
  }

  lemma NegatedIsMinus(u: nat, half: nat)
    requires 0 < u <= half
    ensures Signed(Negated(u, 2 * half), 2 * half) == 0 - u
  {
    SmallRemainder(2 * half - u, 2 * half);
  }

  lemma SmallRemainder(x: nat, range: nat)
    requires x < range
    ensures x % range == x
  {
  }

  // ---- the integer part of ParseNumber ----

  lemma DecimalStep(t: bytes, a: nat, p: nat)
    requires a <= p < |t| && forall k | a <= k <= p :: IsDigit(t[k])
    ensures Decimal(t[a..p + 1]) == Decimal(t[a..p]) * 10 + (t[p] - ZERO)
  {
    var ds := t[a..p + 1];
    assert ds[..|ds| - 1] == t[a..p];
  }

  lemma {:induction false} DecimalGrows(t: bytes, a: nat, p: nat, b: nat)
    requires a <= p <= b <= |t| && forall k | a <= k < b :: IsDigit(t[k])
    ensures Decimal(t[a..p]) <= Decimal(t[a..b])
    decreases b - p
  {
    if p < b {
      DecimalStep(t, a, p);
      DecimalGrows(t, a, p + 1, b);
    }
  }

  /** The digit at `p` takes the accumulated value over `bound`. */
  ghost predicate Overflows(t: bytes, a: nat, p: nat, bound: nat) {
    a <= p < |t| && (forall k | a <= k <= p :: IsDigit(t[k])) && Decimal(t[a..p]) * 10 + (t[p] - ZERO) > bound
  }

  lemma {:induction false} EndBehind(t: bytes, a: nat, p: nat)
    requires a <= p <= |t| && forall k | a <= k < p :: IsDigit(t[k])
    ensures EndOfDigits(t, p) == EndOfDigits(t, a)
    decreases p - a
  {
    if a < p {
      EndBehind(t, a + 1, p);
    }
  }

  /** Once over a bound, the whole literal is over it. */
  lemma StaysOver(t: bytes, a: nat, p: nat, bound: nat)
    requires Overflows(t, a, p, bound)
    ensures p < EndOfDigits(t, a) && Decimal(t[a..EndOfDigits(t, a)]) > bound
  {
    EndBehind(t, a, p);
    DecimalStep(t, a, p);
    DecimalGrows(t, a, p + 1, EndOfDigits(t, a));
  }

  /** The 32-bit accumulator: it stops at the end of the digits, or before the digit that would take it
      over the range of the sign at hand. */
  method Accumulate32(t: bytes, a: nat, minus: bool) returns (i: uint32, p: nat, use64bit: bool)
    requires IsDigit(Peek(t, a)) && Peek(t, a) != ZERO
    ensures a < p <= |t| && (forall k | a <= k < p :: IsDigit(t[k])) && i as int == Decimal(t[a..p])
    ensures i as int <= if minus then TWO31 else TWO32 - 1
    ensures use64bit ==> Overflows(t, a, p, if minus then TWO31 else TWO32 - 1)
    ensures !use64bit ==> p == EndOfDigits(t, a)
  {
    assert t[a..a] == [];
    DecimalStep(t, a, a);
    i, p, use64bit := (t[a] - ZERO) as uint32, a + 1, false;
    var limit: uint32 := if minus then 214748364 else 429496729;
    var last: byte := if minus then ZERO + 8 else ZERO + 5;
    while IsDigit(Peek(t, p)) && !use64bit
      invariant a < p <= |t| && (forall k | a <= k < p :: IsDigit(t[k])) && i as int == Decimal(t[a..p])
      invariant i as int <= if minus then TWO31 else TWO32 - 1
      invariant use64bit ==> Overflows(t, a, p, if minus then TWO31 else TWO32 - 1)
      decreases |t| - p, !use64bit
    {
      if i >= limit && (i != limit || Peek(t, p) > last) {
        use64bit := true;
      } else {
        DecimalStep(t, a, p);
        i := i * 10 + (t[p] - ZERO) as uint32;
        p := p + 1;
      }
    }
    EndBehind(t, a, p);
  }

  /** The 64-bit accumulator, which takes over where the 32-bit one stopped. */
  method Accumulate64(t: bytes, a: nat, minus: bool, i: uint32, start: nat) returns (i64: uint64, p: nat, useDouble: bool)
    requires a < start <= |t| && (forall k | a <= k < start :: IsDigit(t[k])) && i as int == Decimal(t[a..start])
    ensures a < p <= |t| && (forall k | a <= k < p :: IsDigit(t[k])) && i64 as int == Decimal(t[a..p])
    ensures i64 as int <= if minus then TWO63 else TWO64 - 1
    ensures useDouble ==> Overflows(t, a, p, if minus then TWO63 else TWO64 - 1)
    ensures !useDouble ==> p == EndOfDigits(t, a)
  {
    i64, p, useDouble := i as uint64, start, false;
    var limit: uint64 := if minus then 0x0CCC_CCCC_CCCC_CCCC else 0x1999_9999_9999_9999;
    var last: byte := if minus then ZERO + 8 else ZERO + 5;
    while IsDigit(Peek(t, p)) && !useDouble
      invariant a < p <= |t| && (forall k | a <= k < p :: IsDigit(t[k])) && i64 as int == Decimal(t[a..p])
      invariant i64 as int <= if minus then TWO63 else TWO64 - 1
      invariant useDouble ==> Overflows(t, a, p, if minus then TWO63 else TWO64 - 1)
      decreases |t| - p, !useDouble
    {
      if i64 >= limit && (i64 != limit || Peek(t, p) > last) {
        useDouble := true;
      } else {
        DecimalStep(t, a, p);
        i64 := i64 * 10 + (t[p] - ZERO) as uint64;
        p := p + 1;
      }
    }
    EndBehind(t, a, p);
  }

  /** For every integer literal of any length: no accumulator wraps, the kind of call is decided by the
      magnitude alone, and the value passed is exact. An empty result means the number goes on as a double. */
  method ParseInteger(t: bytes, a: nat, minus: bool) returns (end: nat, call: seq<Event>)
    requires IsDigit(Peek(t, a))
    ensures end == EndOfInteger(t, a) && call == IntegerKind(minus, Decimal(t[a..end]))
  {
    hide Signed, Negated, Decimal, EndOfDigits, Overflows;
    if Peek(t, a) == ZERO {
      ZeroDigit(t, a);
      end, call := a + 1, if minus then [IntegerEvent(Int, 0)] else [IntegerEvent(Uint, 0)];
      return;
    }
    var i, p, use64bit := Accumulate32(t, a, minus);
    if !use64bit {
      end := p;
      if minus {
        DecimalPositive(t, a, p);
        NegatedIsMinus(i as int, TWO31);
        call := [IntegerEvent(Int, Signed(Negated(i as int, TWO32), TWO32))];
      } else {
        call := [IntegerEvent(Uint, i as int)];
      }
      return;
    }
    StaysOver(t, a, p, if minus then TWO31 else TWO32 - 1);
    var i64, q, useDouble := Accumulate64(t, a, minus, i, p);
    if useDouble {
      StaysOver(t, a, q, if minus then TWO63 else TWO64 - 1);
      end := SkipDigits(t, q);
      EndBehind(t, a, q);
      call := [];
    } else {
      end := q;
      if minus {
        DecimalPositive(t, a, q);
        NegatedIsMinus(i64 as int, TWO63);
        call := [IntegerEvent(Int64, Signed(Negated(i64 as int, TWO64), TWO64))];
      } else {
        call := [IntegerEvent(Uint64, i64 as int)];
      }
    }
  }

  lemma ZeroDigit(t: bytes, a: nat)
    requires Peek(t, a) == ZERO
    ensures Decimal(t[a..a + 1]) == 0
  {
    assert t[a..a] == [];
    DecimalStep(t, a, a);
  }

  /** The digits of an integer too big for any accumulator. */
  method SkipDigits(t: bytes, start: nat) returns (end: nat)
    requires start <= |t|
    ensures end == EndOfDigits(t, start)
  {
    end := start;
    while IsDigit(Peek(t, end))
      invariant start <= end <= |t| && EndOfDigits(t, end) == EndOfDigits(t, start)
      decreases |t| - end
    {
      end := end + 1;
    }
  }

  lemma DecimalPositive(t: bytes, a: nat, p: nat)
    requires a < p <= |t| && (forall k | a <= k < p :: IsDigit(t[k])) && t[a] != ZERO
    ensures Decimal(t[a..p]) > 0
  {
    assert t[a..a] == [];
    DecimalStep(t, a, a);
    DecimalGrows(t, a, a + 1, p);
  }

  // ---- the reader object ----

  class GenericReader {
    const cfg: Config
    const text: bytes
    var pos: nat
    var ok: bool
    var events: seq<Event>
    var stack: seq<IterativeReader.Frame>

    constructor (cfg: Config, text: bytes)
      ensures this.cfg == cfg && this.text == text && pos == 0 && ok && events == [] && stack == []
    {
      this.cfg, this.text, pos, ok, events, stack := cfg, text, 0, true, [], [];
    }

    /** The reader is where a parse that gave `o` left it; a failed parse only promises its events. */
    ghost predicate Reached(o: Out)
      reads this
    {
      ok == o.ok && events == o.events && (ok ==> pos == o.pos)
    }

    method SkipWhitespaceAndComments()
      requires ok
      modifies this`pos, this`ok
      ensures var s := Skip(cfg, text, old(pos)); ok == s.ok && (ok ==> pos == s.pos)
    {
      hide Skip;
      SkipWhitespace();
      while cfg.comments && ok && Peek(text, pos) == SLASH
        invariant ok ==> Skip(cfg, text, pos) == Skip(cfg, text, old(pos)) && !IsSpace(Peek(text, pos))
        invariant !ok ==> !Skip(cfg, text, old(pos)).ok
        decreases ok, |text| - pos
      {
        SkipComment();
        if ok {
          SkipWhitespace();
        }
      }
      if ok {
        SkipsNothing();
      }
    }

    lemma SkipsNothing()
      requires !IsSpace(Peek(text, pos)) && !(cfg.comments && Peek(text, pos) == SLASH)
      ensures Skip(cfg, text, pos) == Skipped(true, pos)
    {
    }

    method SkipComment()
      requires ok && cfg.comments && Peek(text, pos) == SLASH
      modifies this`pos, this`ok
      ensures ok ==> pos > old(pos) && Skip(cfg, text, pos) == Skip(cfg, text, old(pos))
      ensures !ok ==> !Skip(cfg, text, old(pos)).ok
    {
      assert SkipSpaces(text, pos) == pos;
      if Peek(text, pos + 1) == STAR {
        pos := pos + 2;
        ghost var start := pos;
        while Peek(text, pos) != 0 && !(Peek(text, pos) == STAR && Peek(text, pos + 1) == SLASH)
          invariant start <= pos && BlockComment(text, pos) == BlockComment(text, start) && ok
          decreases |text| - pos
        {
          pos := pos + 1;
        }
        if Peek(text, pos) == 0 {
          ok := false;
        } else {
          pos := pos + 2;
        }
      } else if Peek(text, pos + 1) == SLASH {
        pos := pos + 2;
        ghost var start := pos;
        while Peek(text, pos) != 0 && Peek(text, pos) != LF
          invariant start <= pos && LineComment(text, pos) == LineComment(text, start) && ok
          decreases |text| - pos
        {
          pos := pos + 1;
        }
        if Peek(text, pos) == LF {
          pos := pos + 1;
        }
      } else {
        ok := false;
      }
    }

    method SkipWhitespace()
      modifies this`pos
      ensures pos == SkipSpaces(text, old(pos)) && pos >= old(pos)
      ensures Skip(cfg, text, pos) == Skip(cfg, text, old(pos))
    {
      while IsSpace(Peek(text, pos))
        invariant old(pos) <= pos && SkipSpaces(text, pos) == SkipSpaces(text, old(pos))
        decreases |text| - pos
      {
        pos := pos + 1;
      }
      assert SkipSpaces(text, pos) == pos;
    }

    method ParseString(isKey: bool)
      requires ok && Peek(text, pos) == QUOTE
      modifies this`pos, this`ok, this`events
      ensures Reached(Reader.ParseString(text, old(pos), old(events), isKey))
    {
      pos := pos + 1;
      ghost var start := pos;
      var s: bytes := [];
      while ok && Peek(text, pos) != QUOTE
        invariant old(pos) < pos && start == old(pos) + 1 && events == old(events)
        invariant ok ==> StringBody(text, pos, s) == StringBody(text, start, [])
        invariant !ok ==> !StringBody(text, start, []).ok
        decreases ok, |text| - pos
      {
        var c := Peek(text, pos);
        if c == BACKSLASH {
          var e := Peek(text, pos + 1);
          if Unescape(e) != 0 {
            s, pos := s + [Unescape(e)], pos + 2;
          } else if e == 0x75 {
            var u := UnicodeEscape(text, pos);
            if u.ok {
              s, pos := s + u.s, u.pos;
            } else {
              ok := false;
            }
          } else {
            ok := false;
          }
        } else if c < 0x20 {
          ok := false;
        } else {
          s, pos := s + [c], pos + 1;
        }
      }
      if ok {
        pos := pos + 1;
        events := events + [if isKey then Key(s) else StringEvent(s)];
      }
    }

    /** A point and the digits it demands, if there is a point. */
    method TakeFraction()
      requires ok
      modifies this`pos, this`ok
      ensures Fraction(text, old(pos)) == Span(ok, pos)
    {
      if Peek(text, pos) == DOT {
        pos := pos + 1;
        ok := IsDigit(Peek(text, pos));
        if ok {
          pos := SkipDigits(text, pos);
        }
      }
    }

    /** The letter, the sign and the digits of an exponent, if there is one. */
    method TakeExponent()
      requires ok
      modifies this`pos, this`ok
      ensures Exponent(text, old(pos)) == Span(ok, pos)
    {
      if Peek(text, pos) == 0x65 || Peek(text, pos) == 0x45 {
        pos := pos + 1;
        if Peek(text, pos) == PLUS || Peek(text, pos) == MINUS {
          pos := pos + 1;
        }
        ok := IsDigit(Peek(text, pos));
        if ok {
          pos := SkipDigits(text, pos);
        }
      }
    }

    method ParseNumber()
      requires ok
      modifies this`pos, this`ok, this`events
      ensures Reached(Reader.ParseNumber(cfg, text, old(pos), old(events)))
    {
      var start := pos;
      var minus := Peek(text, pos) == MINUS;
      if minus {
        pos := pos + 1;
      }
      if !IsDigit(Peek(text, pos)) {
        ok := false;
        return;
      }
      var a := pos;
      var b, call := ParseInteger(text, a, minus);
      pos := b;
      TakeFraction();
      if ok {
        TakeExponent();
      }
      if !ok {
        return;
      }
      if pos == b && call != [] {
        events := events + call;
      } else if cfg.tooBig(text[start..pos]) {
        ok := false;
      } else {
        events := events + [DoubleEvent(text[start..pos])];
      }
    }

    method Consume(word: bytes, e: Event)
      requires ok && word != []
      modifies this`pos, this`ok, this`events
      ensures Reached(ParseWord(text, old(pos), old(events), word, e))
    {
      var k := 0;
      while k < |word| && ok
        invariant k <= |word| && pos == old(pos) + k && (k > 0 ==> pos <= |text|) && events == old(events)
        invariant ok ==> forall j | 0 <= j < k :: old(pos) + j < |text| && text[old(pos) + j] == word[j]
        invariant !ok ==> !At(text, old(pos), word)
        decreases |word| - k, ok
      {
        if pos < |text| && text[pos] == word[k] {
          pos, k := pos + 1, k + 1;
        } else {
          assert At(text, old(pos), word) ==> text[old(pos)..old(pos) + |word|][k] == word[k];
          ok := false;
        }
      }
      if ok {
        assert text[old(pos)..old(pos) + |word|] == word;
        events := events + [e];
      }
    }

    method ParseScalar()
      requires ok
      modifies this`pos, this`ok, this`events
      ensures Reached(Reader.ParseScalar(cfg, text, old(pos), old(events)))
    {
      var c := Peek(text, pos);
      if c == 0x6E {
        Consume(NULL_TEXT, NullEvent);
      } else if c == 0x74 {
        Consume(TRUE_TEXT, BoolEvent(true));
      } else if c == 0x66 {
        Consume(FALSE_TEXT, BoolEvent(false));
      } else if c == QUOTE {
        ParseString(false);
      } else {
        ParseNumber();
      }
    }

    method ParseValue()
      requires ok
      modifies this`pos, this`ok, this`events
      ensures Reached(Reader.ParseValue(cfg, text, old(pos), old(events)))
      decreases |text| - pos, 1
    {
      if Peek(text, pos) == LBRACE {
        ParseObject();
      } else if Peek(text, pos) == LBRACKET {
        ParseArray();
      } else {
        ParseScalar();
      }
    }

    method ParseObject()
      requires ok && Peek(text, pos) == LBRACE
      modifies this`pos, this`ok, this`events
      ensures Reached(Reader.ParseObject(cfg, text, old(pos), old(events)))
      decreases |text| - pos, 0
    {
      hide Skip, ParseMembers;
      ghost var whole := Reader.ParseObject(cfg, text, pos, events);
      pos := pos + 1;
      events := events + [StartObject];
      SkipWhitespaceAndComments();
      if !ok {
        return;
      }
      if Peek(text, pos) == RBRACE {
        pos := pos + 1;
        events := events + [EndObject(0)];
        return;
      }
      var memberCount := 0;
      while true
        invariant ok && old(pos) < pos
        invariant ParseMembers(cfg, text, pos, memberCount, events) == whole
        decreases |text| - pos
      {
        ParseMember(memberCount);
        if !ok {
          return;
        }
        SkipWhitespaceAndComments();
        if !ok {
          return;
        }
        memberCount := memberCount + 1;
        if Peek(text, pos) == COMMA {
          pos := pos + 1;
          SkipWhitespaceAndComments();
          if !ok {
            return;
          }
          if cfg.trailingCommas && Peek(text, pos) == RBRACE {
            events := events + [EndObject(memberCount)];
            pos := pos + 1;
            return;
          }
        } else if Peek(text, pos) == RBRACE {
          pos := pos + 1;
          events := events + [EndObject(memberCount)];
          return;
        } else {
          ok := false;
          return;
        }
      }
    }

    /** One round of the loop over members, up to behind the value. */
    method ParseMember(ghost count: nat)
      requires ok
      modifies this`pos, this`ok, this`events
      ensures var r := ParseMembers(cfg, text, old(pos), count, old(events));
              if ok then old(pos) < pos <= |text| && r == MemberEnd(cfg, text, Out(true, pos, events), count + 1)
              else !r.ok && r.events == events
      decreases |text| - pos, 2
    {
      hide Skip, Reader.ParseString, Reader.ParseValue, MemberEnd;
      if Peek(text, pos) != QUOTE {
        ok := false;
        return;
      }
      ParseString(true);
      if !ok {
        return;
      }
      SkipWhitespaceAndComments();
      if !ok || Peek(text, pos) != COLON {
        ok := false;
        return;
      }
      pos := pos + 1;
      SkipWhitespaceAndComments();
      if ok {
        ParseValue();
      }
    }

    method ParseArray()
      requires ok && Peek(text, pos) == LBRACKET
      modifies this`pos, this`ok, this`events
      ensures Reached(Reader.ParseArray(cfg, text, old(pos), old(events)))
      decreases |text| - pos, 0
    {
      hide Skip, Reader.ParseValue;
      ghost var whole := Reader.ParseArray(cfg, text, pos, events);
      pos := pos + 1;
      events := events + [StartArray];
      SkipWhitespaceAndComments();
      if !ok {
        return;
      }
      if Peek(text, pos) == RBRACKET {
        pos := pos + 1;
        events := events + [EndArray(0)];
        return;
      }
      var elementCount := 0;
      while true
        invariant ok && old(pos) < pos
        invariant ParseElements(cfg, text, pos, elementCount, events) == whole
        decreases |text| - pos
      {
        ParseValue();
        if !ok {
          return;
        }
        elementCount := elementCount + 1;
        SkipWhitespaceAndComments();
        if !ok {
          return;
        }
        if Peek(text, pos) == COMMA {
          pos := pos + 1;
          SkipWhitespaceAndComments();
          if !ok {
            return;
          }
          if cfg.trailingCommas && Peek(text, pos) == RBRACKET {
            events := events + [EndArray(elementCount)];
            pos := pos + 1;
            return;
          }
        } else if Peek(text, pos) == RBRACKET {
          pos := pos + 1;
          events := events + [EndArray(elementCount)];
          return;
        } else {
          ok := false;
          return;
        }
      }
    }

    /** The recursive mode of Parse. */
    method Parse()
      requires ok && pos == 0 && events == []
      modifies this`pos, this`ok, this`events
      ensures Reached(ParseDocument(cfg, text))
    {
      hide Skip, Reader.ParseValue;
      SkipWhitespaceAndComments();
      if !ok || Peek(text, pos) == 0 {
        ok := false;
        return;
      }
      ParseValue();
      if ok && !cfg.stopWhenDone {
        SkipWhitespaceAndComments();
        ok := ok && Peek(text, pos) == 0;
      }
    }

    ghost function AsMachine(state: IterativeReader.State): IterativeReader.Machine
      reads this
    {
      IterativeReader.Machine(state, stack, pos, events)
    }

    /** One transition of the iterative mode, on the reader's own stack. */
    method Transit(src: IterativeReader.State) returns (d: IterativeReader.State)
      requires ok && IterativeReader.Inv(AsMachine(src)) && Peek(text, pos) != 0
      modifies this
      ensures var m := IterativeReader.Step(cfg, text, old(AsMachine(src)));
              d == m.state && events == m.events && (if d.Error? then !ok else ok && AsMachine(d) == m)
    {
      hide Reader.ParseScalar, Reader.ParseString;
      var dst := IterativeReader.Predict(src, IterativeReader.Tokenize(Peek(text, pos)));
      d := dst;
      match dst
      case Error =>
        ok := false;
      case ObjectInitial | ArrayInitial =>
        Open(src, dst);
      case MemberKey =>
        ParseString(true);
        d := if ok then dst else IterativeReader.Error;
      case KeyValueDelimiter =>
        pos := pos + 1;
      case MemberDelimiter | ElementDelimiter =>
        var top := |stack| - 1;
        pos := pos + 1;
        stack := stack[top := stack[top].(count := stack[top].count + 1)];
      case ObjectFinish =>
        d := Close(src, true);
      case ArrayFinish =>
        d := Close(src, false);
      case MemberValue | Element =>
        ParseScalar();
        d := if ok then dst else IterativeReader.Error;
      case _ =>
        ParseScalar();
        d := if ok then IterativeReader.Finish else IterativeReader.Error;
    }

    method Open(src: IterativeReader.State, dst: IterativeReader.State)
      requires dst == IterativeReader.ObjectInitial || dst == IterativeReader.ArrayInitial
      modifies this`stack, this`pos, this`events
      ensures AsMachine(dst) == IterativeReader.Open(old(AsMachine(src)), dst)
    {
      var n := src;
      if src == IterativeReader.ArrayInitial || src == IterativeReader.ElementDelimiter {
        n := IterativeReader.Element;
      } else if src == IterativeReader.KeyValueDelimiter {
        n := IterativeReader.MemberValue;
      }
      stack := stack + [IterativeReader.Frame(n, 0)];
      events := events + [if dst == IterativeReader.ObjectInitial then StartObject else StartArray];
      pos := pos + 1;
    }

    method Close(src: IterativeReader.State, isObject: bool) returns (d: IterativeReader.State)
      requires ok && stack != []
      modifies this`stack, this`pos, this`events, this`ok
      ensures var delimiter := if isObject then IterativeReader.MemberDelimiter else IterativeReader.ElementDelimiter;
              if !cfg.trailingCommas && src == delimiter then !ok && d.Error? && events == old(events)
              else ok && AsMachine(d) == IterativeReader.Close(old(AsMachine(src)), isObject)
    {
      if !cfg.trailingCommas && src == (if isObject then IterativeReader.MemberDelimiter else IterativeReader.ElementDelimiter) {
        ok := false;
        return IterativeReader.Error;
      }
      var top := |stack| - 1;
      var c := stack[top].count;
      if src == (if isObject then IterativeReader.MemberValue else IterativeReader.Element) {
        c := c + 1;
      }
      d := stack[top].resume;
      if d == IterativeReader.Start {
        d := IterativeReader.Finish;
      }
      stack := stack[..top];
      events := events + [if isObject then EndObject(c) else EndArray(c)];
      pos := pos + 1;
    }

    /** The iterative mode of Parse; it does what the recursive mode does. */
    method IterativeParse()
      requires ok && pos == 0 && events == [] && stack == []
      modifies this
      ensures Reached(IterativeReader.IterativeParse(cfg, text))
      ensures Reached(ParseDocument(cfg, text))
    {
      hide Skip, IterativeReader.Step, ParseDocument;
      IterativeReader.IterativeIsRecursive(cfg, text);
      ghost var whole := IterativeReader.IterativeParse(cfg, text);
      var state := IterativeReader.Start;
      SkipWhitespaceAndComments();
      if !ok {
        return;
      }
      while Peek(text, pos) != 0
        invariant ok && IterativeReader.Inv(AsMachine(state))
        invariant IterativeReader.Run(cfg, text, AsMachine(state)) == whole
        decreases |text| - pos
      {
        IterativeReader.StepKeepsInv(cfg, text, AsMachine(state));
        var d := Transit(state);
        if d == IterativeReader.Error {
          return;
        }
        state := d;
        if cfg.stopWhenDone && state == IterativeReader.Finish {
          return;
        }
        SkipWhitespaceAndComments();
        if !ok {
          return;
        }
      }
      ok := state == IterativeReader.Finish;
    }
  }
}
