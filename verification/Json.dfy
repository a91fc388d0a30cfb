/** Bytes, SAX events and value trees shared by the modules about RapidJSON. */
module Json {
  import opened Base

  /** The value types of a parsed document. A double is known only by its literal. */
  datatype Value =
    | Null
    | Bool(b: bool)
    | Number(n: int)
    | Double(literal: bytes)
    | String(s: bytes)
    | Object(members: seq<Member>)
    | Array(elements: seq<Value>)

  datatype Member = Member(name: bytes, value: Value)

  /** Which of the four integer callbacks of a handler is called. */
  datatype IntKind = Int | Uint | Int64 | Uint64

  /** One call to a SAX handler. */
  datatype Event =
    | NullEvent
    | BoolEvent(b: bool)
    | IntegerEvent(kind: IntKind, n: int)
    | DoubleEvent(literal: bytes)
    | StringEvent(s: bytes)
    | StartObject
    | Key(name: bytes)
    | EndObject(memberCount: nat)
    | StartArray
    | EndArray(elementCount: nat)

  const TWO31: int := 0x8000_0000
  const TWO32: int := 0x1_0000_0000
  const TWO63: int := 0x8000_0000_0000_0000
  const TWO64: int := 0x1_0000_0000_0000_0000

  /** Every number in the tree is an integer that a RapidJSON number can hold; there is no double. */
  predicate Storable(v: Value) {
    match v
    case Number(n) => -TWO63 <= n < TWO64
    case Double(_) => false
    case Array(es) => forall e | e in es :: Storable(e)
    case Object(ms) => forall m | m in ms :: Storable(m.value)
    case _ => true
  }

  /** The calls Accept makes for a value; `kind` says which callback an integer goes to. */
  function Events(v: Value, kind: int -> IntKind): seq<Event> {
    match v
    case Null => [NullEvent]
    case Bool(b) => [BoolEvent(b)]
    case Number(n) => [IntegerEvent(kind(n), n)]
    case Double(d) => [DoubleEvent(d)]
    case String(s) => [StringEvent(s)]
    case Object(ms) => [StartObject] + MemberEvents(v, 0, kind) + [EndObject(|ms|)]
    case Array(es) => [StartArray] + ElementEvents(v, 0, kind) + [EndArray(|es|)]
  }

  /** The calls for the members of an object from index k on. */
  function MemberEvents(v: Value, k: nat, kind: int -> IntKind): seq<Event>
    requires v.Object? && k <= |v.members|
    decreases v, |v.members| - k
  {
    if k == |v.members| then []
    else [Key(v.members[k].name)] + Events(v.members[k].value, kind) + MemberEvents(v, k + 1, kind)
  }

  /** The calls for the elements of an array from index k on. */
  function ElementEvents(v: Value, k: nat, kind: int -> IntKind): seq<Event>
    requires v.Array? && k <= |v.elements|
    decreases v, |v.elements| - k
  {
    if k == |v.elements| then [] else Events(v.elements[k], kind) + ElementEvents(v, k + 1, kind)
  }

  // The characters with a meaning in JSON text.
  const TAB: byte := 0x09
  const LF: byte := 0x0A
  const CR: byte := 0x0D
  const SPACE: byte := 0x20
  const QUOTE: byte := 0x22
  const PLUS: byte := 0x2B
  const COMMA: byte := 0x2C
  const MINUS: byte := 0x2D
  const DOT: byte := 0x2E
  const SLASH: byte := 0x2F
  const ZERO: byte := 0x30
  const NINE: byte := 0x39
  const STAR: byte := 0x2A
  const COLON: byte := 0x3A
  const LBRACKET: byte := 0x5B
  const BACKSLASH: byte := 0x5C
  const RBRACKET: byte := 0x5D
  const LBRACE: byte := 0x7B
  const RBRACE: byte := 0x7D

  const NULL_TEXT: bytes := [0x6E, 0x75, 0x6C, 0x6C]
  const TRUE_TEXT: bytes := [0x74, 0x72, 0x75, 0x65]
  const FALSE_TEXT: bytes := [0x66, 0x61, 0x6C, 0x73, 0x65]

  predicate IsDigit(c: byte) { ZERO <= c <= NINE }

  predicate IsSpace(c: byte) { c == SPACE || c == LF || c == CR || c == TAB }

  /** The character at a stream position; a stream ends with (or before) a NUL. */
  function Peek(t: bytes, i: nat): byte {
    if i < |t| then t[i] else 0
  }

  /** Whether a word stands at some position of a text. */
  predicate At(t: bytes, i: nat, word: bytes) {
    i + |word| <= |t| && t[i..i + |word|] == word
  }

  /** The number a run of decimal digits denotes. */
  function Decimal(ds: bytes): nat
    requires forall k | 0 <= k < |ds| :: IsDigit(ds[k])
  {
    if ds == [] then 0
    else
      assert IsDigit(ds[|ds| - 1]);
      Decimal(ds[..|ds| - 1]) * 10 + (ds[|ds| - 1] - ZERO)
  }
}
