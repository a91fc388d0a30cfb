/**
 * JSON Schema: the compiled schema, the direct meaning of a schema on a value tree, and the streaming validator,
 * which sees one event at a time and runs the validators of combined schemas beside itself.
 */
module Schema {
  import opened Base
  import opened Json
  import Encodings

  datatype TypeName = NullType | BooleanType | ObjectType | ArrayType | StringType | NumberType | IntegerType

  datatype Limit = NoLimit | Limit(n: int, exclusive: bool)

  datatype Schema = Schema(
    types: set<TypeName>,
    allOf: seq<Schema>, anyOf: seq<Schema>, oneOf: seq<Schema>, notOf: Option<Schema>,
    properties: seq<Property>, additional: Option<Schema>, additionalProperties: bool,
    minProperties: nat, maxProperties: nat,
    itemsList: Option<Schema>, itemsTuple: seq<Schema>, additionalItems: Option<Schema>, moreItems: bool,
    minItems: nat, maxItems: nat,
    minLength: nat, maxLength: nat,
    minimum: Limit, maximum: Limit)

  datatype Property = Property(name: bytes, schema: Schema, required: bool, defaultLength: nat)

  /** The empty schema, which accepts everything. */
  const TYPELESS: Schema :=
    Schema({NullType, BooleanType, ObjectType, ArrayType, StringType, NumberType, IntegerType},
           [], [], [], None, [], None, true, 0, TWO32 - 1, None, [], None, true, 0, TWO32 - 1, 0, TWO32 - 1, NoLimit, NoLimit)

  // ---- the direct meaning of a schema ----

  /** The index of the property with some name, or the number of properties. */
  function FindProperty(ps: seq<Property>, name: bytes): (i: nat)
    ensures i <= |ps|
    ensures i < |ps| ==> ps[i].name == name
    ensures forall j | 0 <= j < i :: ps[j].name != name
  {
    if ps == [] then 0
    else if ps[0].name == name then 0
    else
      var i := FindProperty(ps[1..], name);
      assert forall j | 0 < j < i + 1 :: ps[j] == ps[1..][j - 1];
      i + 1
  }

  /** The text is the encoding of some number of code points, and the number is within the bounds; other bytes pass. */
  ghost predicate LengthMeant(s: Schema, t: bytes) {
    forall cps: seq<nat> | Encodings.AllScalars(cps) && Encodings.EncodeAll(cps) == t :: s.minLength <= |cps| <= s.maxLength
  }

  predicate WithinLimits(s: Schema, n: int) {
    && (s.minimum.Limit? ==> if s.minimum.exclusive then s.minimum.n < n else s.minimum.n <= n)
    && (s.maximum.Limit? ==> if s.maximum.exclusive then n < s.maximum.n else n <= s.maximum.n)
  }

  /** Whether one of the first n members falls under a property. */
  predicate Present(s: Schema, v: Value, n: nat, i: nat)
    requires v.Object? && n <= |v.members|
  {
    exists k | 0 <= k < n :: FindProperty(s.properties, v.members[k].name) == i
  }

  /** What a schema asks of a value itself, apart from its parts and from combined schemas. */
  ghost predicate LocallyValid(s: Schema, v: Value) {
    match v
    case Null => NullType in s.types
    case Bool(_) => BooleanType in s.types
    case Number(n) => (IntegerType in s.types || NumberType in s.types) && WithinLimits(s, n)
    case Double(_) => NumberType in s.types
    case String(t) => StringType in s.types && LengthMeant(s, t)
    case Object(ms) =>
      && ObjectType in s.types
      && s.minProperties <= |ms| <= s.maxProperties
      && forall i | 0 <= i < |s.properties| ::
           s.properties[i].required && s.properties[i].defaultLength == 0 ==> Present(s, v, |ms|, i)
    case Array(es) => ArrayType in s.types && s.minItems <= |es| <= s.maxItems
  }

  /** Whether a value meets a schema. */
  ghost predicate Valid(s: Schema, v: Value)
    decreases v, s, 1
  {
    && LocallyValid(s, v)
    && (forall k | 0 <= k < PartCount(v) :: PartValid(s, v, k))
    && EachValid(s.allOf, v)
    && (s.anyOf != [] ==> SomeValid(s.anyOf, v))
    && (s.oneOf != [] ==> OnlyOneValid(s.oneOf, v))
    && (s.notOf.Some? ==> !Valid(s.notOf.value, v))
  }

  function PartCount(v: Value): nat {
    match v
    case Object(ms) => |ms|
    case Array(es) => |es|
    case _ => 0
  }

  predicate HasProperty(s: Schema, name: bytes) { exists p | p in s.properties :: p.name == name }

  /**
   * A member meets the first property of its name; without one, the schema for additional properties; without that, it
   * has to be allowed. An element meets the schema of all items, that of its place, or that of additional items.
   */
  ghost predicate PartValid(s: Schema, v: Value, k: nat)
    requires k < PartCount(v)
    decreases v, s, 0
  {
    match v
    case Object(ms) =>
      if HasProperty(s, ms[k].name) then
        forall i | 0 <= i < |s.properties| && s.properties[i].name == ms[k].name
                   && (forall j | 0 <= j < i :: s.properties[j].name != ms[k].name) :: Valid(s.properties[i].schema, ms[k].value)
      else if s.additional.Some? then Valid(s.additional.value, ms[k].value)
      else s.additionalProperties && Valid(TYPELESS, ms[k].value)
    case Array(es) =>
      && (s.itemsList.Some? ==> Valid(s.itemsList.value, es[k]))
      && (s.itemsList.None? && k < |s.itemsTuple| ==> Valid(s.itemsTuple[k], es[k]))
      && (s.itemsList.None? && s.itemsTuple != [] && k >= |s.itemsTuple| ==>
            if s.additionalItems.Some? then Valid(s.additionalItems.value, es[k]) else s.moreItems && Valid(TYPELESS, es[k]))
      && (s.itemsList.None? && s.itemsTuple == [] ==> Valid(TYPELESS, es[k]))
  }

  ghost predicate EachValid(ss: seq<Schema>, v: Value)
    decreases v, ss, 0
  {
    forall i | 0 <= i < |ss| :: Valid(ss[i], v)
  }

  ghost predicate SomeValid(ss: seq<Schema>, v: Value)
    decreases v, ss, 0
  {
    exists i | 0 <= i < |ss| :: Valid(ss[i], v)
  }

  ghost predicate OnlyOneValid(ss: seq<Schema>, v: Value)
    decreases v, ss, 0
  {
    exists i | 0 <= i < |ss| :: Valid(ss[i], v) && forall j | 0 <= j < |ss| && j != i :: !Valid(ss[j], v)
  }

  // ---- the streaming validator ----

  /** The schema for the value of a member; none if the member is not allowed. */
  function MemberSchema(s: Schema, name: bytes): Option<Schema> {
    var i := FindProperty(s.properties, name);
    if i < |s.properties| then Some(s.properties[i].schema)
    else if s.additional.Some? then s.additional
    else if s.additionalProperties then Some(TYPELESS)
    else None
  }

  /** The schema for an element of an array; none if the element is not allowed. */
  function ItemSchema(s: Schema, index: nat): Option<Schema> {
    if s.itemsList.Some? then s.itemsList
    else if s.itemsTuple != [] then
      if index < |s.itemsTuple| then Some(s.itemsTuple[index])
      else if s.additionalItems.Some? then s.additionalItems
      else if s.moreItems then Some(TYPELESS)
      else None
    else Some(TYPELESS)
  }

  /** The number of code points of a well-formed string. */
  function CodePoints(t: bytes, i: nat): Option<nat>
    requires i <= |t|
    decreases |t| - i
  {
    if i == |t| then Some(0)
    else
      var d := Encodings.Decode(t, i);
      if !d.ok then None
      else
        Encodings.EncodeInvertsDecode(t, i);
        var rest := CodePoints(t, d.pos);
        if rest.Some? then Some(rest.value + 1) else None
  }

  predicate LengthOk(s: Schema, t: bytes) {
    var n := CodePoints(t, 0);
    n.Some? ==> s.minLength <= n.value <= s.maxLength
  }

  /** A validator: the contexts of the values that are open, outermost first, and the verdict so far. */
  datatype Validator = Validator(root: Schema, stack: seq<Context>, valid: bool)

  /** One open value: its schema, the schema of the next part, the validators running beside, what was seen. */
  datatype Context = Context(schema: Schema, valueSchema: Option<Schema>, validators: seq<Validator>,
                             exist: seq<bool>, inArray: bool, index: nat)

  predicate IsOpening(e: Event) { e.StartObject? || e.StartArray? }

  predicate Begins(e: Event) { !e.Key? && !e.EndObject? && !e.EndArray? }

  predicate HasRequired(s: Schema) { exists p | p in s.properties :: p.required }

  function ValidatorCount(s: Schema): nat {
    |s.allOf| + |s.anyOf| + |s.oneOf| + if s.notOf.Some? then 1 else 0
  }

  /** Integers that come as signed: a limit that is no int64 is above all of them. */
  predicate CheckInt(s: Schema, n: int) {
    && (IntegerType in s.types || NumberType in s.types)
    && (s.minimum.Limit? ==>
          s.minimum.n < TWO63 && if s.minimum.exclusive then n > s.minimum.n else n >= s.minimum.n)
    && (s.maximum.Limit? && s.maximum.n < TWO63 ==>
          if s.maximum.exclusive then n < s.maximum.n else n <= s.maximum.n)
  }

  /** Integers that come as unsigned: a limit that is no uint64 is below all of them. */
  predicate CheckUint(s: Schema, n: int) {
    && (IntegerType in s.types || NumberType in s.types)
    && (s.minimum.Limit? && s.minimum.n >= 0 ==>
          if s.minimum.exclusive then n > s.minimum.n else n >= s.minimum.n)
    && (s.maximum.Limit? ==>
          s.maximum.n >= 0 && if s.maximum.exclusive then n < s.maximum.n else n <= s.maximum.n)
  }

  /** The check at the first event of a value. */
  predicate BeginOk(s: Schema, e: Event)
    requires Begins(e)
  {
    match e
    case NullEvent => NullType in s.types
    case BoolEvent(_) => BooleanType in s.types
    case IntegerEvent(kind, n) => if kind.Int? || kind.Int64? then CheckInt(s, n) else CheckUint(s, n)
    case DoubleEvent(_) => NumberType in s.types
    case StringEvent(t) => StringType in s.types && LengthOk(s, t)
    case StartObject => ObjectType in s.types
    case StartArray => ArrayType in s.types
  }

  predicate EndObjectOk(s: Schema, exist: seq<bool>, memberCount: nat) {
    && (HasRequired(s) ==> forall i | 0 <= i < |s.properties| ::
          s.properties[i].required && s.properties[i].defaultLength == 0 ==> i < |exist| && exist[i])
    && s.minProperties <= memberCount <= s.maxProperties
  }

  predicate EndArrayOk(s: Schema, elementCount: nat) {
    s.minItems <= elementCount <= s.maxItems
  }

  predicate AllValid(vs: seq<Validator>) {
    forall i | 0 <= i < |vs| :: vs[i].valid
  }

  predicate AnyValid(vs: seq<Validator>) {
    exists i | 0 <= i < |vs| :: vs[i].valid
  }

  predicate OneValid(vs: seq<Validator>) {
    exists i | 0 <= i < |vs| :: vs[i].valid && forall j | 0 <= j < |vs| && j != i :: !vs[j].valid
  }

  /** The verdict on a finished value, from the verdicts of the validators that ran beside it. */
  predicate EndValueOk(s: Schema, vs: seq<Validator>) {
    var any, one := |s.allOf|, |s.allOf| + |s.anyOf|;
    var no := one + |s.oneOf|;
    && |vs| == ValidatorCount(s)
    && AllValid(vs[..any])
    && (s.anyOf != [] ==> AnyValid(vs[any..one]))
    && (s.oneOf != [] ==> OneValid(vs[one..no]))
    && (s.notOf.Some? ==> !vs[no].valid)
  }

  /** The context pushed for a value, once its validators have seen its first event. */
  function Pushed(s: Schema, e: Event, vs: seq<Validator>): Context {
    Context(s, None, vs, if e.StartObject? && HasRequired(s) then seq(|s.properties|, _ => false) else [], e.StartArray?, 0)
  }

  /** After the first event: a scalar is finished and popped at once. */
  function Entered(root: Schema, below: seq<Context>, s: Schema, e: Event, vs: seq<Validator>): Validator {
    if IsOpening(e) then Validator(root, below + [Pushed(s, e, vs)], true)
    else Validator(root, below, EndValueOk(s, vs))
  }

  /** A new validator after its first event; it starts one more validator for every combined schema. */
  function FeedFresh(s: Schema, e: Event): Validator
    requires Begins(e)
    decreases s
  {
    if !BeginOk(s, e) then Validator(s, [], false)
    else Entered(s, [], s, e, FeedFreshAll(s.allOf, e) + FeedFreshAll(s.anyOf, e) + FeedFreshAll(s.oneOf, e)
                              + if s.notOf.Some? then [FeedFresh(s.notOf.value, e)] else [])
  }

  function FeedFreshAll(ss: seq<Schema>, e: Event): seq<Validator>
    requires Begins(e)
    decreases ss
  {
    seq(|ss|, i requires 0 <= i < |ss| => FeedFresh(ss[i], e))
  }

  /** The validators beside a value with some schema, after its first event. */
  function FeedSubs(s: Schema, e: Event): seq<Validator>
    requires Begins(e)
  {
    FeedFreshAll(s.allOf, e) + FeedFreshAll(s.anyOf, e) + FeedFreshAll(s.oneOf, e)
    + if s.notOf.Some? then [FeedFresh(s.notOf.value, e)] else []
  }

  /** The schema of the next part of an open value. */
  function NextSchema(c: Context): Option<Schema> {
    if c.inArray then ItemSchema(c.schema, c.index) else c.valueSchema
  }

  function Advance(c: Context): Context {
    if c.inArray then c.(valueSchema := ItemSchema(c.schema, c.index), index := c.index + 1) else c
  }

  function SeeKey(c: Context, name: bytes): Context {
    var i := FindProperty(c.schema.properties, name);
    c.(valueSchema := MemberSchema(c.schema, name),
       exist := if i < |c.schema.properties| && i < |c.exist| then c.exist[i := true] else c.exist)
  }

  function MapTop(stack: seq<Context>, f: Context -> Context): seq<Context>
    requires stack != []
  {
    stack[..|stack| - 1] + [f(stack[|stack| - 1])]
  }

  /** One event. Every validator beside an open value gets the event too. */
  function Feed(v: Validator, e: Event): Validator
    decreases v
  {
    if !v.valid then v
    else if v.stack == [] then if Begins(e) then FeedFresh(v.root, e) else v.(valid := false)
    else
      var top := v.stack[|v.stack| - 1];
      var fed := FeedStack(v.stack, e);
      if Begins(e) then
        var s := NextSchema(top);
        if s.None? || !BeginOk(s.value, e) then v.(valid := false)
        else Entered(v.root, MapTop(fed, Advance), s.value, e, FeedSubs(s.value, e))
      else if e.Key? then
        if MemberSchema(top.schema, e.name).None? then v.(valid := false)
        else v.(stack := MapTop(fed, c => SeeKey(c, e.name)))
      else
        var ok := if e.EndObject? then EndObjectOk(top.schema, top.exist, e.memberCount) else EndArrayOk(top.schema, e.elementCount);
        v.(stack := fed[..|fed| - 1], valid := ok && EndValueOk(top.schema, fed[|fed| - 1].validators))
  }

  function FeedStack(stack: seq<Context>, e: Event): (r: seq<Context>)
    ensures |r| == |stack|
    decreases stack
  {
    seq(|stack|, i requires 0 <= i < |stack| => stack[i].(validators := FeedEach(stack[i].validators, e)))
  }

  function FeedEach(vs: seq<Validator>, e: Event): (r: seq<Validator>)
    ensures |r| == |vs|
    decreases vs
  {
    seq(|vs|, i requires 0 <= i < |vs| => Feed(vs[i], e))
  }

  function FeedAll(v: Validator, es: seq<Event>): Validator
    decreases |es|
  {
    if es == [] then v else FeedAll(Feed(v, es[0]), es[1..])
  }
}
