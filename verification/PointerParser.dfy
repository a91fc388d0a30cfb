/** The parser of pointers with its cursors: names are written one behind the other into one buffer. */
module PointerParser {
  import opened Base
  import opened Json
  import opened Pointer
  import opened Encodings

  /** A token whose name lies in the name buffer. */
  datatype Slot = Slot(start: nat, length: nat, index: nat)

  ghost predicate SlotHolds(buffer: bytes, s: Slot, name: bytes) {
    && s.start + s.length < |buffer|
    && buffer[s.start..s.start + s.length] == name
    && buffer[s.start + s.length] == 0
    && s.index == IndexOf(name)
  }

  method ToIndex(name: bytes) returns (index: nat)
    ensures index == IndexOf(name)
  {
    var isNumber := name != [];
    for j := 0 to |name|
      invariant isNumber <==> name != [] && forall k | 0 <= k < j :: IsDigit(name[k])
    {
      if !IsDigit(name[j]) {
        isNumber := false;
      }
    }
    if isNumber && |name| > 1 && name[0] == ZERO {
      isNumber := false;
    }
    if !isNumber {
      return INVALID;
    }
    var n := 0;
    for j := 0 to |name|
      invariant 0 <= n < TWO32
      invariant Convert(name, j, n) == Convert(name, 0, 0)
    {
      var m := (n * 10 + (name[j] - ZERO)) % TWO32;
      if m < n {
        return INVALID;
      }
      n := m;
    }
    return n;
  }

  /** Write some bytes; the buffer must have room for them. */
  method Put(buffer: array<byte>, at: nat, out: bytes)
    requires at + |out| <= buffer.Length
    modifies buffer
    ensures buffer[..at] == old(buffer[..at]) && buffer[at..at + |out|] == out
  {
    var k := 0;
    while k < |out|
      invariant 0 <= k <= |out|
      invariant forall m | 0 <= m < at :: buffer[m] == old(buffer[m])
      invariant forall m | 0 <= m < k :: buffer[at + m] == out[m]
    {
      buffer[at + k] := out[k];
      k := k + 1;
    }
  }

  /** The next bytes of a name. What a percent sequence decodes to is put before it is known to be valid. */
  method ScanPiece(t: bytes, i: nat, uri: bool, buffer: array<byte>, name: nat) returns (p: Copied)
    requires i < |t| == buffer.Length && name < i && (uri ==> name + 1 < i)
    modifies buffer
    ensures p == NamePiece(t, i, uri)
    ensures buffer[..name] == old(buffer[..name])
    ensures p.ok ==> name + |p.out| <= |t| && buffer[name..name + |p.out|] == p.out
  {
    hide PercentDecode, Triplets;
    p := NamePiece(t, i, uri);
    if uri && t[i] == PERCENT {
      PercentDecodes(t, i);
      TripletsFit(t, i);
      Put(buffer, name, PercentDecode(t, i).out);
    }
    if p.ok {
      Put(buffer, name, p.out);
    }
  }

  lemma TripletsFit(t: bytes, i: nat)
    ensures Triplets(t, i) != [] ==> i + 3 <= |t|
  {
  }

  /**
   * Copy one name into the buffer. The buffer is as long as the text and the write cursor stays behind the read
   * cursor, by two in a fragment: even the up to four bytes put for a broken percent sequence fit.
   */
  method ScanInto(t: bytes, start: nat, uri: bool, buffer: array<byte>, from: nat) returns (ok: bool, i: nat, name: nat)
    requires start <= |t| == buffer.Length
    requires from < start && (uri ==> from + 1 < start)
    modifies buffer
    ensures ok == ScanName(t, start, uri, []).ok
    ensures ok ==> i == ScanName(t, start, uri, []).pos <= |t|
    ensures ok ==> from <= name && name - from <= i - start && buffer[from..name] == ScanName(t, start, uri, []).out
    ensures buffer[..from] == old(buffer[..from])
  {
    hide NamePiece;
    i, name, ok := start, from, true;
    ghost var done: bytes := [];
    while i < |t| && t[i] != SLASH
      invariant start <= i <= |t| && from <= name && name - from <= i - start
      invariant buffer[..from] == old(buffer[..from]) && buffer[from..name] == done
      invariant ScanName(t, i, uri, done) == ScanName(t, start, uri, [])
      decreases |t| - i
    {
      ghost var before := buffer[..];
      var p := ScanPiece(t, i, uri, buffer, name);
      assert buffer[..][..name] == buffer[..name] && before[..name] == buffer[..name];
      Extends(before, buffer[..], from, name, if p.ok then name + |p.out| else name);
      if !p.ok {
        return false, i, name;
      }
      done := done + p.out;
      i, name := p.pos, name + |p.out|;
    }
  }

  /** Bytes put behind a stretch of the buffer extend it. */
  lemma Extends(was: bytes, now: bytes, from: nat, name: nat, end: nat)
    requires from <= name <= end <= |now| && name <= |was| && now[..name] == was[..name]
    ensures now[..from] == was[..from] && now[from..name] == was[from..name]
    ensures now[from..end] == was[from..name] + now[name..end]
  {
    assert now[..name][..from] == now[..from] && was[..name][..from] == was[..from];
    assert now[..name][from..] == now[from..name] && was[..name][from..] == was[from..name];
  }

  /** One token: its solidus, its name, the terminator and its index. */
  method ParseToken(t: bytes, i: nat, uri: bool, buffer: array<byte>, name: nat) returns (ok: bool, next: nat, slot: Slot)
    requires i < |t| == buffer.Length && name <= i && (uri ==> name < i)
    modifies buffer
    ensures ok == ScanName(t, i + 1, uri, []).ok
    ensures buffer[..name] == old(buffer[..name])
    ensures ok ==> next == ScanName(t, i + 1, uri, []).pos <= |t| && slot.start == name && name + slot.length < next - (i - name)
    ensures ok ==> SlotHolds(buffer[..name + slot.length + 1], slot, ScanName(t, i + 1, uri, []).out)
  {
    hide ScanName;
    slot := Slot(name, 0, INVALID);
    var end;
    ok, next, end := ScanInto(t, i + 1, uri, buffer, name);
    if ok {
      var text := buffer[name..end];
      ghost var was := buffer[..];
      buffer[end] := 0;
      assert buffer[..name] == was[..name] && buffer[name..end] == was[name..end];
      var index := ToIndex(text);
      slot := Slot(name, end - name, index);
      assert buffer[..end + 1][name..end] == buffer[name..end];
    }
  }

  /** The names done and those still to be scanned are the names of the text. */
  ghost predicate Scanned(t: bytes, i: nat, uri: bool, done: seq<bytes>)
    requires i <= |t| && (i < |t| ==> t[i] == SLASH)
  {
    ParseNames(t) == var rest := ScanNames(t, i, uri); if rest.None? then None else Some(done + rest.value)
  }

  lemma ScannedMore(t: bytes, i: nat, uri: bool, done: seq<bytes>)
    requires i < |t| && t[i] == SLASH && Scanned(t, i, uri, done)
    ensures var r := ScanName(t, i + 1, uri, []);
            if r.ok then Scanned(t, r.pos, uri, done + [r.out]) else ParseNames(t).None?
  {
    hide ScanName, ParseNames;
    var r := ScanName(t, i + 1, uri, []);
    if r.ok {
      var rest := ScanNames(t, r.pos, uri);
      if rest.Some? {
        assert done + ([r.out] + rest.value) == done + [r.out] + rest.value;
      }
    }
  }

  ghost predicate SlotsHold(buffer: bytes, tokens: seq<Slot>, names: seq<bytes>) {
    |tokens| == |names| && forall k | 0 <= k < |tokens| :: SlotHolds(buffer, tokens[k], names[k])
  }

  method Parse(t: bytes) returns (ok: bool, buffer: array<byte>, tokens: seq<Slot>)
    ensures fresh(buffer) && buffer.Length == |t|
    ensures ok <==> ParseNames(t).Some?
    ensures ok ==> SlotsHold(buffer[..], tokens, ParseNames(t).value)
  {
    buffer := new byte[|t|];
    tokens := [];
    var uri := IsFragment(t);
    var i := if uri then 1 else 0;
    if i < |t| && t[i] != SLASH {
      return false, buffer, tokens;
    }
    ghost var first := i;
    var name := 0;
    ghost var done: seq<bytes> := [];
    assert Scanned(t, i, uri, done) by {
      assert ScanNames(t, i, uri).Some? ==> [] + ScanNames(t, i, uri).value == ScanNames(t, i, uri).value;
    }
    hide ScanName, ScanNames, ParseNames, Scanned, SlotHolds;
    while i < |t|
      invariant first <= i <= |t| && name + first <= i && (i < |t| ==> t[i] == SLASH)
      invariant Scanned(t, i, uri, done)
      invariant SlotsHold(buffer[..name], tokens, done)
      decreases |t| - i
    {
      ghost var was := buffer[..name];
      ScannedMore(t, i, uri, done);
      var scanned, next, slot := ParseToken(t, i, uri, buffer, name);
      if !scanned {
        return false, buffer, tokens;
      }
      ghost var text := ScanName(t, i + 1, uri, []).out;
      name := slot.start + slot.length + 1;
      assert was <= buffer[..name] by { assert buffer[..slot.start] == buffer[..name][..slot.start]; }
      SlotsKept(was, buffer[..name], tokens, done);
      tokens := tokens + [slot];
      done := done + [text];
      i := next;
    }
    SlotsKept(buffer[..name], buffer[..], tokens, done);
    AllScanned(t, uri, done);
    ok := true;
  }

  lemma AllScanned(t: bytes, uri: bool, done: seq<bytes>)
    requires Scanned(t, |t|, uri, done)
    ensures ParseNames(t) == Some(done)
  {
    hide ParseNames;
    assert done + [] == done;
  }

  lemma SlotsKept(was: bytes, now: bytes, tokens: seq<Slot>, names: seq<bytes>)
    requires was <= now && SlotsHold(was, tokens, names)
    ensures SlotsHold(now, tokens, names)
  {
    forall k | 0 <= k < |tokens| ensures SlotHolds(now, tokens[k], names[k]) {
      var s := tokens[k];
      assert SlotHolds(was, s, names[k]);
      assert now[s.start..s.start + s.length] == was[s.start..s.start + s.length];
    }
  }

  /** The comparison of two valid pointers. */
  method SameTokens(a: seq<Token>, b: seq<Token>) returns (r: bool)
    ensures r <==> a == b
  {
    if |a| != |b| {
      return false;
    }
    for i := 0 to |a|
      invariant forall k | 0 <= k < i :: a[k] == b[k]
    {
      if a[i].index != b[i].index || |a[i].name| != |b[i].name| || a[i].name != b[i].name {
        return false;
      }
    }
    return true;
  }
}
