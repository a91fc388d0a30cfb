/** The table-driven parser of reader.h, and the proof that it is the recursive one. */
module IterativeReader {
  import opened Base
  import opened Json
  import opened Reader

  datatype State =
    | Finish | Error | Start
    | ObjectInitial | MemberKey | MemberValue | ObjectFinish
    | ArrayInitial | Element | ArrayFinish
    | SingleValue
    | ElementDelimiter | MemberDelimiter | KeyValueDelimiter

  datatype Token =
    | LeftBracket | RightBracket | LeftCurlyBracket | RightCurlyBracket
    | Comma | Colon | StringToken | FalseToken | TrueToken | NullToken | NumberToken

  function Tokenize(c: byte): Token {
    if c == QUOTE then StringToken
    else if c == COMMA then Comma
    else if c == COLON then Colon
    else if c == LBRACKET then LeftBracket
    else if c == RBRACKET then RightBracket
    else if c == 0x66 then FalseToken
    else if c == 0x6E then NullToken
    else if c == 0x74 then TrueToken
    else if c == LBRACE then LeftCurlyBracket
    else if c == RBRACE then RightCurlyBracket
    else NumberToken
  }

  predicate IsScalar(k: Token) {
    k.StringToken? || k.FalseToken? || k.TrueToken? || k.NullToken? || k.NumberToken?
  }

  /** The row of a state in which a value may come: `scalar` is where a scalar leads. */
  function PredictValue(k: Token, scalar: State, onRightBracket: State): State {
    match k
    case LeftBracket => ArrayInitial
    case LeftCurlyBracket => ObjectInitial
    case RightBracket => onRightBracket
    case _ => if IsScalar(k) then scalar else Error
  }

  /** The table: current state and one token of lookahead give the state to move to. */
  function Predict(s: State, k: Token): State {
    match s
    case Start => PredictValue(k, SingleValue, Error)
    case ObjectInitial =>
      if k.RightCurlyBracket? then ObjectFinish else if k.StringToken? then MemberKey else Error
    case MemberKey => if k.Colon? then KeyValueDelimiter else Error
    case MemberValue =>
      if k.RightCurlyBracket? then ObjectFinish else if k.Comma? then MemberDelimiter else Error
    case ArrayInitial => PredictValue(k, Element, ArrayFinish)
    case Element => if k.RightBracket? then ArrayFinish else if k.Comma? then ElementDelimiter else Error
    case ElementDelimiter => PredictValue(k, Element, ArrayFinish)
    case MemberDelimiter =>
      if k.RightCurlyBracket? then ObjectFinish else if k.StringToken? then MemberKey else Error
    case KeyValueDelimiter => PredictValue(k, MemberValue, Error)
    case _ => Error
  }

  /** The two words pushed on the reader's stack when an object or an array opens. */
  datatype Frame = Frame(resume: State, count: nat)

  datatype Machine = Machine(state: State, stack: seq<Frame>, pos: nat, events: seq<Event>)

  function Fail(m: Machine): Machine { m.(state := Error) }

  function Open(m: Machine, dst: State): Machine {
    var resume :=
      if m.state == ArrayInitial || m.state == ElementDelimiter then Element
      else if m.state == KeyValueDelimiter then MemberValue
      else m.state;
    Machine(dst, m.stack + [Frame(resume, 0)], m.pos + 1,
            m.events + [if dst == ObjectInitial then StartObject else StartArray])
  }

  /** Close the innermost scope; `last` is the state in which one more item has to be counted. */
  function Close(m: Machine, isObject: bool): Machine
    requires m.stack != []
  {
    var top := m.stack[|m.stack| - 1];
    var last := if isObject then MemberValue else Element;
    var count := if m.state == last then top.count + 1 else top.count;
    Machine(if top.resume == Start then Finish else top.resume, m.stack[..|m.stack| - 1], m.pos + 1,
            m.events + [if isObject then EndObject(count) else EndArray(count)])
  }

  function OfOut(m: Machine, o: Out, dst: State): Machine {
    Machine(if o.ok then dst else Error, m.stack, o.pos, o.events)
  }

  /** The states that only occur inside a scope, and so need a frame on the stack. */
  predicate Nested(s: State) {
    s.ObjectInitial? || s.MemberKey? || s.MemberValue? || s.ArrayInitial? || s.Element?
    || s.ElementDelimiter? || s.MemberDelimiter? || s.KeyValueDelimiter?
  }

  predicate Framed(m: Machine) {
    Nested(m.state) ==> m.stack != []
  }

  function Transit(cfg: Config, t: bytes, m: Machine, dst: State): (r: Machine)
    requires Framed(m)
    requires dst == Predict(m.state, Tokenize(Peek(t, m.pos)))
  {
    match dst
    case Error => Fail(m)
    case ObjectInitial => Open(m, dst)
    case ArrayInitial => Open(m, dst)
    case MemberKey => OfOut(m, ParseString(t, m.pos, m.events, true), dst)
    case KeyValueDelimiter => m.(state := dst, pos := m.pos + 1)
    case MemberValue => OfOut(m, ParseScalar(cfg, t, m.pos, m.events), dst)
    case Element => OfOut(m, ParseScalar(cfg, t, m.pos, m.events), dst)
    case MemberDelimiter => Delimit(m, dst)
    case ElementDelimiter => Delimit(m, dst)
    case ObjectFinish =>
      if !cfg.trailingCommas && m.state == MemberDelimiter then Fail(m) else Close(m, true)
    case ArrayFinish =>
      if !cfg.trailingCommas && m.state == ElementDelimiter then Fail(m) else Close(m, false)
    case _ => OfOut(m, ParseScalar(cfg, t, m.pos, m.events), Finish)
  }

  function Delimit(m: Machine, dst: State): Machine
    requires m.stack != []
  {
    var n := |m.stack| - 1;
    Machine(dst, m.stack[n := m.stack[n].(count := m.stack[n].count + 1)], m.pos + 1, m.events)
  }

  /** Scopes resume in states that continue the enclosing scope, and the outermost one in Start. */
  predicate WellStacked(stack: seq<Frame>) {
    forall k | 0 <= k < |stack| ::
      if k == 0 then stack[k].resume == Start else stack[k].resume == Element || stack[k].resume == MemberValue
  }

  predicate Inv(m: Machine) {
    && WellStacked(m.stack)
    && (Nested(m.state) <==> m.stack != [])
    && (m.state == Start || m.state == Finish || Nested(m.state))
  }

  function Step(cfg: Config, t: bytes, m: Machine): Machine
    requires Framed(m)
  {
    Transit(cfg, t, m, Predict(m.state, Tokenize(Peek(t, m.pos))))
  }

  /** What the table can ask for in a state, and which characters lead to a string. */
  lemma Predicted(s: State, c: byte)
    requires s == Start || s == Finish || Nested(s)
    ensures var dst := Predict(s, Tokenize(c));
            && dst != Start && dst != Finish
            && (dst == SingleValue ==> s == Start)
            && (dst != Error && dst != SingleValue && dst != ObjectInitial && dst != ArrayInitial ==> Nested(s))
            && (dst == ObjectInitial || dst == ArrayInitial ==>
                  s == Start || s == ArrayInitial || s == ElementDelimiter || s == KeyValueDelimiter)
            && (dst == MemberKey ==> c == QUOTE)
  {
  }

  lemma OpenKeepsInv(m: Machine, dst: State)
    requires Inv(m) && (dst == ObjectInitial || dst == ArrayInitial)
    requires m.state == Start || m.state == ArrayInitial || m.state == ElementDelimiter || m.state == KeyValueDelimiter
    ensures Inv(Open(m, dst))
  {
  }

  lemma CloseKeepsInv(m: Machine, isObject: bool)
    requires Inv(m) && Nested(m.state)
    ensures Inv(Close(m, isObject))
  {
  }

  lemma DelimitKeepsInv(m: Machine, dst: State)
    requires Inv(m) && Nested(m.state) && (dst == MemberDelimiter || dst == ElementDelimiter)
    ensures Inv(Delimit(m, dst))
  {
  }

  lemma StepKeepsInv(cfg: Config, t: bytes, m: Machine)
    requires Inv(m) && Peek(t, m.pos) != 0
    ensures var r := Step(cfg, t, m); r.state == Error || (Inv(r) && m.pos < r.pos <= |t|)
  {
    hide ParseScalar, ParseString, Predict, Tokenize, WellStacked, Open, Close, Delimit;
    var dst := Predict(m.state, Tokenize(Peek(t, m.pos)));
    Predicted(m.state, Peek(t, m.pos));
    StepMoves(cfg, t, m);
    if dst == ObjectInitial || dst == ArrayInitial {
      OpenKeepsInv(m, dst);
    } else if dst == ObjectFinish || dst == ArrayFinish {
      CloseKeepsInv(m, dst == ObjectFinish);
    } else if dst == MemberDelimiter || dst == ElementDelimiter {
      DelimitKeepsInv(m, dst);
    }
  }

  lemma StepMoves(cfg: Config, t: bytes, m: Machine)
    requires Framed(m) && Peek(t, m.pos) != 0
    ensures var r := Step(cfg, t, m); r.state == Error || m.pos < r.pos <= |t|
  {
    hide ParseScalar, ParseString;
  }

  /** The main loop, from its test: white space is already skipped. */
  function Run(cfg: Config, t: bytes, m: Machine): (r: Out)
    requires Inv(m)
    decreases |t| - m.pos, 0
  {
    if Peek(t, m.pos) == 0 then Out(m.state == Finish, m.pos, m.events)
    else
      StepKeepsInv(cfg, t, m);
      var d := Step(cfg, t, m);
      if d.state == Error then Out(false, d.pos, d.events) else Continue(cfg, t, d)
  }

  /** The rest of an iteration, after a transition. */
  function Continue(cfg: Config, t: bytes, d: Machine): (r: Out)
    requires Inv(d)
    decreases |t| - d.pos, 1
  {
    if cfg.stopWhenDone && d.state == Finish then Out(true, d.pos, d.events)
    else
      var s := Skip(cfg, t, d.pos);
      if !s.ok then Out(false, s.pos, d.events) else Run(cfg, t, d.(pos := s.pos))
  }

  lemma RunUnfolds(cfg: Config, t: bytes, m: Machine)
    requires Inv(m) && Peek(t, m.pos) != 0
    ensures var d := Step(cfg, t, m);
            if d.state == Error then Run(cfg, t, m) == Out(false, d.pos, d.events)
            else Inv(d) && Run(cfg, t, m) == Continue(cfg, t, d)
  {
    hide Step, Continue;
    StepKeepsInv(cfg, t, m);
  }

  lemma RunAtEnd(cfg: Config, t: bytes, m: Machine)
    requires Inv(m) && Peek(t, m.pos) == 0
    ensures Run(cfg, t, m) == Out(m.state == Finish, m.pos, m.events)
  {
  }

  lemma ContinueUnfolds(cfg: Config, t: bytes, d: Machine)
    requires Inv(d) && !(cfg.stopWhenDone && d.state == Finish)
    ensures var s := Skip(cfg, t, d.pos);
            Continue(cfg, t, d) == if s.ok then Run(cfg, t, d.(pos := s.pos)) else Out(false, s.pos, d.events)
  {
    hide Skip, Run;
  }

  function IterativeParse(cfg: Config, t: bytes): (r: Out) {
    var s := Skip(cfg, t, 0);
    if !s.ok then Out(false, s.pos, []) else Run(cfg, t, Machine(Start, [], s.pos, []))
  }

  // ---- the machine is the recursion ----

  /** Same verdict, same events, and on success the same end position. */
  predicate Same(a: Out, b: Out) {
    a.ok == b.ok && a.events == b.events && (a.ok ==> a.pos == b.pos)
  }

  predicate AwaitsValue(s: State) {
    s.Start? || s.ArrayInitial? || s.ElementDelimiter? || s.KeyValueDelimiter?
  }

  /** Where a complete value leads from a state that awaits one. */
  function AfterValue(s: State): State
    requires AwaitsValue(s)
  {
    match s
    case Start => Finish
    case KeyValueDelimiter => MemberValue
    case _ => Element
  }

  /** The machine after a value whose parse ended in `o`. */
  function Resumed(cfg: Config, t: bytes, s: State, stack: seq<Frame>, o: Out): Out
    requires Inv(Machine(s, stack, o.pos, o.events))
  {
    if o.ok then Continue(cfg, t, Machine(s, stack, o.pos, o.events)) else o
  }

  /** A character that opens no value is rejected by the scalar parsers, without an event. */
  lemma NoScalar(cfg: Config, t: bytes, i: nat, acc: seq<Event>)
    requires var c := Peek(t, i); c == 0 || c == COMMA || c == COLON || c == RBRACKET || c == RBRACE
    ensures var r := ParseScalar(cfg, t, i, acc); !r.ok && r.events == acc
  {
  }

  lemma StepOnOpening(cfg: Config, t: bytes, m: Machine)
    requires Inv(m) && AwaitsValue(m.state)
    ensures Peek(t, m.pos) == LBRACE ==> Step(cfg, t, m) == Open(m, ObjectInitial)
    ensures Peek(t, m.pos) == LBRACKET ==> Step(cfg, t, m) == Open(m, ArrayInitial)
  {
  }

  lemma StepOnScalar(cfg: Config, t: bytes, m: Machine)
    requires Inv(m) && AwaitsValue(m.state) && Peek(t, m.pos) != 0 && !IsOpening(Peek(t, m.pos))
    requires m.state == ArrayInitial || (cfg.trailingCommas && m.state == ElementDelimiter) ==> Peek(t, m.pos) != RBRACKET
    ensures var o := ParseScalar(cfg, t, m.pos, m.events);
            var d := Step(cfg, t, m);
            d.events == o.events && if o.ok then d == OfOut(m, o, AfterValue(m.state)) else d.state == Error
  {
    var c := Peek(t, m.pos);
    if c == COMMA || c == COLON || c == RBRACKET || c == RBRACE {
      NoScalar(cfg, t, m.pos, m.events);
    } else {
      hide ParseScalar;
    }
  }

  /** From a state that awaits a value, running the machine is parsing the value recursively and going on. */
  lemma {:induction false} ValueSimulation(cfg: Config, t: bytes, m: Machine)
    requires Inv(m) && AwaitsValue(m.state)
    requires m.state == ArrayInitial || (cfg.trailingCommas && m.state == ElementDelimiter) ==> Peek(t, m.pos) != RBRACKET
    ensures Same(Run(cfg, t, m), Resumed(cfg, t, AfterValue(m.state), m.stack, ParseValue(cfg, t, m.pos, m.events)))
    decreases |t| - m.pos, 1
  {
    hide ParseScalar, Step, Skip, Continue;
    var c := Peek(t, m.pos);
    if c == LBRACE {
      ObjectSimulation(cfg, t, m);
    } else if c == LBRACKET {
      ArraySimulation(cfg, t, m);
    } else if c != 0 {
      StepOnScalar(cfg, t, m);
    } else {
      NoScalar(cfg, t, m.pos, m.events);
    }
  }

  /** The frame on top of `outer` belongs to the scope the machine is in, and `next` is where it resumes. */
  predicate InScope(stack: seq<Frame>, outer: seq<Frame>, next: State) {
    && WellStacked(stack)
    && |stack| == |outer| + 1 && stack[..|outer|] == outer
    && next == (if stack[|outer|].resume == Start then Finish else stack[|outer|].resume)
  }

  lemma ScopeIsInvariant(stack: seq<Frame>, outer: seq<Frame>, next: State, pos: nat, events: seq<Event>)
    requires InScope(stack, outer, next)
    ensures Inv(Machine(next, outer, pos, events))
  {
    assert forall k | 0 <= k < |outer| :: outer[k] == stack[k];
  }

  lemma OpenedScope(m: Machine, dst: State)
    requires Inv(m) && AwaitsValue(m.state) && (dst == ObjectInitial || dst == ArrayInitial)
    ensures InScope(Open(m, dst).stack, m.stack, AfterValue(m.state)) && Open(m, dst).stack[|m.stack|].count == 0
    ensures Inv(Open(m, dst))
  {
  }

  lemma ClosedScope(cfg: Config, t: bytes, m: Machine, outer: seq<Frame>, next: State)
    requires Inv(m) && InScope(m.stack, outer, next)
    ensures var n := m.stack[|outer|].count;
            && (Peek(t, m.pos) == RBRACE && (m.state == ObjectInitial || m.state == MemberValue || (cfg.trailingCommas && m.state == MemberDelimiter)) ==>
                  Step(cfg, t, m) == Machine(next, outer, m.pos + 1, m.events + [EndObject(if m.state == MemberValue then n + 1 else n)]))
            && (Peek(t, m.pos) == RBRACKET && (m.state == ArrayInitial || m.state == Element || (cfg.trailingCommas && m.state == ElementDelimiter)) ==>
                  Step(cfg, t, m) == Machine(next, outer, m.pos + 1, m.events + [EndArray(if m.state == Element then n + 1 else n)]))
  {
  }

  lemma DelimitedScope(cfg: Config, t: bytes, m: Machine, outer: seq<Frame>, next: State)
    requires Inv(m) && InScope(m.stack, outer, next) && Peek(t, m.pos) == COMMA
    requires m.state == MemberValue || m.state == Element
    ensures var d := Step(cfg, t, m);
            && d.state == (if m.state == Element then ElementDelimiter else MemberDelimiter)
            && d.pos == m.pos + 1 && d.events == m.events && Inv(d)
            && InScope(d.stack, outer, next) && d.stack[|outer|].count == m.stack[|outer|].count + 1
  {
    var d := Delimit(m, if m.state == Element then ElementDelimiter else MemberDelimiter);
    assert d.stack[..|outer|] == outer;
  }

  /** In the other positions of a scope, any character but the expected ones is an error. */
  lemma StepOnUnexpected(cfg: Config, t: bytes, m: Machine)
    requires Inv(m) && Peek(t, m.pos) != 0
    ensures (m.state == ObjectInitial && Peek(t, m.pos) != RBRACE && Peek(t, m.pos) != QUOTE)
            || (m.state == MemberDelimiter && !(cfg.trailingCommas && Peek(t, m.pos) == RBRACE) && Peek(t, m.pos) != QUOTE)
            || (m.state == MemberKey && Peek(t, m.pos) != COLON)
            || (m.state == MemberValue && Peek(t, m.pos) != COMMA && Peek(t, m.pos) != RBRACE)
            || (m.state == Element && Peek(t, m.pos) != COMMA && Peek(t, m.pos) != RBRACKET)
            ==> Step(cfg, t, m) == Fail(m)
  {
  }

  lemma StepOnKey(cfg: Config, t: bytes, m: Machine)
    requires Inv(m)
    ensures (m.state == ObjectInitial || m.state == MemberDelimiter) && Peek(t, m.pos) == QUOTE ==>
              Step(cfg, t, m) == OfOut(m, ParseString(t, m.pos, m.events, true), MemberKey)
    ensures m.state == MemberKey && Peek(t, m.pos) == COLON ==>
              Step(cfg, t, m) == m.(state := KeyValueDelimiter, pos := m.pos + 1)
  {
    hide ParseString;
  }

  lemma {:induction false} ObjectSimulation(cfg: Config, t: bytes, m: Machine)
    requires Inv(m) && AwaitsValue(m.state) && Peek(t, m.pos) == LBRACE
    ensures Same(Run(cfg, t, m), Resumed(cfg, t, AfterValue(m.state), m.stack, ParseObject(cfg, t, m.pos, m.events)))
    decreases |t| - m.pos, 0
  {
    hide Step, Skip, Open, Run, Continue, ParseMembers, ParseElements;
    StepOnOpening(cfg, t, m);
    RunUnfolds(cfg, t, m);
    OpenedScope(m, ObjectInitial);
    var d := Open(m, ObjectInitial);
    assert d.state == ObjectInitial && d.pos == m.pos + 1 && d.events == m.events + [StartObject] by { OpenFields(m); }
    ContinueUnfolds(cfg, t, d);
    var s := Skip(cfg, t, m.pos + 1);
    if s.ok {
      var d' := d.(pos := s.pos);
      if Peek(t, s.pos) == RBRACE {
        ClosedScope(cfg, t, d', m.stack, AfterValue(m.state));
        RunUnfolds(cfg, t, d');
      } else {
        MembersSimulation(cfg, t, d', m.stack, AfterValue(m.state));
      }
    }
  }

  lemma OpenFields(m: Machine)
    ensures Open(m, ObjectInitial).events == m.events + [StartObject] && Open(m, ArrayInitial).events == m.events + [StartArray]
    ensures forall dst :: Open(m, dst).state == dst && Open(m, dst).pos == m.pos + 1
  {
  }

  lemma {:induction false} MembersSimulation(cfg: Config, t: bytes, m: Machine, outer: seq<Frame>, next: State)
    requires Inv(m) && (m.state == ObjectInitial || m.state == MemberDelimiter)
    requires m.state == ObjectInitial || cfg.trailingCommas ==> Peek(t, m.pos) != RBRACE
    requires InScope(m.stack, outer, next)
    ensures Inv(Machine(next, outer, 0, []))
    ensures Same(Run(cfg, t, m), Resumed(cfg, t, next, outer, ParseMembers(cfg, t, m.pos, m.stack[|outer|].count, m.events)))
    decreases |t| - m.pos, 2
  {
    hide Step, Skip, ParseString, Run, Continue, ParseValue, MemberEnd;
    ScopeIsInvariant(m.stack, outer, next, 0, []);
    if Peek(t, m.pos) == QUOTE {
      StepOnKey(cfg, t, m);
      RunUnfolds(cfg, t, m);
      var k := ParseString(t, m.pos, m.events, true);
      var s := Skip(cfg, t, k.pos);
      if k.ok {
        ContinueUnfolds(cfg, t, Machine(MemberKey, m.stack, k.pos, k.events));
      }
      if k.ok && s.ok {
        var m1 := Machine(MemberKey, m.stack, s.pos, k.events);
        if Peek(t, s.pos) == COLON {
          StepOnKey(cfg, t, m1);
          RunUnfolds(cfg, t, m1);
          ContinueUnfolds(cfg, t, Machine(KeyValueDelimiter, m.stack, s.pos + 1, k.events));
          var s2 := Skip(cfg, t, s.pos + 1);
          if s2.ok {
            ValueSimulation(cfg, t, Machine(KeyValueDelimiter, m.stack, s2.pos, k.events));
            var v := ParseValue(cfg, t, s2.pos, k.events);
            if v.ok {
              MemberEndSimulation(cfg, t, v, m.stack, outer, next);
            }
          }
        } else if Peek(t, s.pos) != 0 {
          StepOnUnexpected(cfg, t, m1);
          RunUnfolds(cfg, t, m1);
        } else {
          RunAtEnd(cfg, t, m1);
        }
      }
    } else if Peek(t, m.pos) != 0 {
      StepOnUnexpected(cfg, t, m);
      RunUnfolds(cfg, t, m);
    } else {
      RunAtEnd(cfg, t, m);
    }
  }

  lemma {:induction false} MemberEndSimulation(cfg: Config, t: bytes, v: Out, stack: seq<Frame>, outer: seq<Frame>, next: State)
    requires v.ok && v.pos <= |t| && InScope(stack, outer, next)
    ensures Inv(Machine(next, outer, 0, [])) && Inv(Machine(MemberValue, stack, v.pos, v.events))
    ensures Same(Continue(cfg, t, Machine(MemberValue, stack, v.pos, v.events)),
                 Resumed(cfg, t, next, outer, MemberEnd(cfg, t, v, stack[|outer|].count + 1)))
    decreases |t| - v.pos, 3
  {
    hide Step, Skip, Run, Continue, ParseValue, ParseMembers, ParseElements;
    ScopeIsInvariant(stack, outer, next, 0, []);
    ContinueUnfolds(cfg, t, Machine(MemberValue, stack, v.pos, v.events));
    var s := Skip(cfg, t, v.pos);
    var m := Machine(MemberValue, stack, s.pos, v.events);
    if s.ok && Peek(t, s.pos) == 0 {
      RunAtEnd(cfg, t, m);
    } else if s.ok {
      RunUnfolds(cfg, t, m);
      if Peek(t, s.pos) == COMMA {
        DelimitedScope(cfg, t, m, outer, next);
        ContinueUnfolds(cfg, t, Step(cfg, t, m));
        var s2 := Skip(cfg, t, s.pos + 1);
        if s2.ok {
          var d := Step(cfg, t, m).(pos := s2.pos);
          if cfg.trailingCommas && Peek(t, s2.pos) == RBRACE {
            ClosedScope(cfg, t, d, outer, next);
            RunUnfolds(cfg, t, d);
          } else {
            MembersSimulation(cfg, t, d, outer, next);
          }
        }
      } else if Peek(t, s.pos) == RBRACE {
        ClosedScope(cfg, t, m, outer, next);
      } else {
        StepOnUnexpected(cfg, t, m);
      }
    }
  }

  lemma {:induction false} ArraySimulation(cfg: Config, t: bytes, m: Machine)
    requires Inv(m) && AwaitsValue(m.state) && Peek(t, m.pos) == LBRACKET
    ensures Same(Run(cfg, t, m), Resumed(cfg, t, AfterValue(m.state), m.stack, ParseArray(cfg, t, m.pos, m.events)))
    decreases |t| - m.pos, 0
  {
    hide Step, Skip, Open, Run, Continue, ParseMembers, ParseElements;
    StepOnOpening(cfg, t, m);
    RunUnfolds(cfg, t, m);
    OpenedScope(m, ArrayInitial);
    var d := Open(m, ArrayInitial);
    assert d.state == ArrayInitial && d.pos == m.pos + 1 && d.events == m.events + [StartArray] by { OpenFields(m); }
    ContinueUnfolds(cfg, t, d);
    var s := Skip(cfg, t, m.pos + 1);
    if s.ok {
      var d' := d.(pos := s.pos);
      if Peek(t, s.pos) == RBRACKET {
        ClosedScope(cfg, t, d', m.stack, AfterValue(m.state));
        RunUnfolds(cfg, t, d');
      } else {
        ElementsSimulation(cfg, t, d', m.stack, AfterValue(m.state));
      }
    }
  }

  lemma {:induction false} ElementsSimulation(cfg: Config, t: bytes, m: Machine, outer: seq<Frame>, next: State)
    requires Inv(m) && (m.state == ArrayInitial || m.state == ElementDelimiter)
    requires m.state == ArrayInitial || cfg.trailingCommas ==> Peek(t, m.pos) != RBRACKET
    requires InScope(m.stack, outer, next)
    ensures Inv(Machine(next, outer, 0, []))
    ensures Same(Run(cfg, t, m), Resumed(cfg, t, next, outer, ParseElements(cfg, t, m.pos, m.stack[|outer|].count, m.events)))
    decreases |t| - m.pos, 2
  {
    hide Step, Skip, Run, Continue, ParseValue, ElementEnd;
    ScopeIsInvariant(m.stack, outer, next, 0, []);
    ValueSimulation(cfg, t, m);
    var v := ParseValue(cfg, t, m.pos, m.events);
    if v.ok {
      ElementEndSimulation(cfg, t, v, m.stack, outer, next);
    }
  }

  lemma {:induction false} ElementEndSimulation(cfg: Config, t: bytes, v: Out, stack: seq<Frame>, outer: seq<Frame>, next: State)
    requires v.ok && v.pos <= |t| && InScope(stack, outer, next)
    ensures Inv(Machine(next, outer, 0, [])) && Inv(Machine(Element, stack, v.pos, v.events))
    ensures Same(Continue(cfg, t, Machine(Element, stack, v.pos, v.events)),
                 Resumed(cfg, t, next, outer, ElementEnd(cfg, t, v, stack[|outer|].count + 1)))
    decreases |t| - v.pos, 3
  {
    hide Step, Skip, Run, Continue, ParseValue, ParseMembers, ParseElements;
    ScopeIsInvariant(stack, outer, next, 0, []);
    ContinueUnfolds(cfg, t, Machine(Element, stack, v.pos, v.events));
    var s := Skip(cfg, t, v.pos);
    var m := Machine(Element, stack, s.pos, v.events);
    if s.ok && Peek(t, s.pos) == 0 {
      RunAtEnd(cfg, t, m);
    } else if s.ok {
      RunUnfolds(cfg, t, m);
      if Peek(t, s.pos) == COMMA {
        DelimitedScope(cfg, t, m, outer, next);
        ContinueUnfolds(cfg, t, Step(cfg, t, m));
        var s2 := Skip(cfg, t, s.pos + 1);
        if s2.ok {
          var d := Step(cfg, t, m).(pos := s2.pos);
          if cfg.trailingCommas && Peek(t, s2.pos) == RBRACKET {
            ClosedScope(cfg, t, d, outer, next);
            RunUnfolds(cfg, t, d);
          } else {
            ElementsSimulation(cfg, t, d, outer, next);
          }
        }
      } else if Peek(t, s.pos) == RBRACKET {
        ClosedScope(cfg, t, m, outer, next);
      } else {
        StepOnUnexpected(cfg, t, m);
      }
    }
  }

  /** For every text and every setting of the flags, the table-driven parser accepts exactly what the
      recursive parser accepts, makes the same handler calls in the same order (also before an error),
      and on success stops at the same place. */
  lemma IterativeIsRecursive(cfg: Config, t: bytes)
    ensures Same(IterativeParse(cfg, t), ParseDocument(cfg, t))
  {
    hide Skip, Run, Continue, ParseValue, Step;
    var s := Skip(cfg, t, 0);
    if s.ok {
      var m := Machine(Start, [], s.pos, []);
      if Peek(t, s.pos) == 0 {
        RunAtEnd(cfg, t, m);
      } else {
        ValueSimulation(cfg, t, m);
        var v := ParseValue(cfg, t, s.pos, []);
        if v.ok {
          RootEnd(cfg, t, Machine(Finish, [], v.pos, v.events));
        }
      }
    }
  }

  /** Behind the root value the machine accepts exactly the end of the text, unless told to stop there. */
  lemma RootEnd(cfg: Config, t: bytes, d: Machine)
    requires d.state == Finish && d.stack == []
    ensures var s := Skip(cfg, t, d.pos);
            Same(Continue(cfg, t, d),
                 if cfg.stopWhenDone then Out(true, d.pos, d.events) else Out(s.ok && Peek(t, s.pos) == 0, s.pos, d.events))
  {
    hide Skip;
    var s := Skip(cfg, t, d.pos);
    if !cfg.stopWhenDone && s.ok && Peek(t, s.pos) != 0 {
      RunUnfolds(cfg, t, d.(pos := s.pos));
    }
  }
}
