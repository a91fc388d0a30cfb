/**
 * The text of a writer line by line: which lines it has, how deep each one stands and what is on it, from the tree alone.
 * The writers put exactly these lines.
 */
module Lines {
  import opened Base
  import opened Json
  import Writer

  datatype Line = Line(depth: nat, text: bytes)

  function Repeated(c: byte, n: nat): (r: bytes)
    ensures |r| == n && forall k | 0 <= k < n :: r[k] == c
  {
    if n == 0 then [] else [c] + Repeated(c, n - 1)
  }

  /** A line feed and the indentation of a line. */
  function NewLine(f: Writer.Format, depth: nat): bytes {
    if f.Compact? then [] else ['\n' as int] + Repeated(f.indentChar, f.indentCount * depth)
  }

  function Show(f: Writer.Format, ls: seq<Line>): bytes {
    if ls == [] then []
    else
      var n := |ls| - 1;
      if n == 0 then ls[0].text else Show(f, ls[..n]) + NewLine(f, ls[n].depth) + ls[n].text
  }

  /** The last line of the one and the first of the other in one. */
  function Glue(a: seq<Line>, b: seq<Line>): (r: seq<Line>)
    requires a != [] && b != []
    ensures r != [] && (r[0].depth == a[0].depth)
  {
    a[..|a| - 1] + [Line(a[|a| - 1].depth, a[|a| - 1].text + b[0].text)] + b[1..]
  }

  function Parts(v: Value): nat {
    match v
    case Object(ms) => |ms|
    case Array(es) => |es|
    case _ => 0
  }

  /** All parts stay on the line of the opening bracket. */
  predicate OneLine(f: Writer.Format, v: Value) { f.Compact? || (v.Array? && f.singleLineArrays) }

  function Opening(v: Value): bytes { [if v.Object? then '{' as int else '[' as int] }

  function Closing(v: Value): bytes { [if v.Object? then '}' as int else ']' as int] }

  /** The lines of a value whose first line stands at some depth. */
  function LinesOf(f: Writer.Format, v: Value, depth: nat): (r: seq<Line>)
    ensures r != [] && r[0].depth == depth
    decreases v, 2, 0
  {
    match v
    case Null => [Line(depth, NULL_TEXT)]
    case Bool(b) => [Line(depth, if b then TRUE_TEXT else FALSE_TEXT)]
    case Number(n) => [Line(depth, Writer.IntegerText(n))]
    case Double(d) => [Line(depth, d)]
    case String(s) => [Line(depth, Writer.TextOf(f, s))]
    case _ =>
      if Parts(v) == 0 then [Line(depth, Opening(v) + Closing(v))]
      else if OneLine(f, v) then Glue(Glue([Line(depth, Opening(v))], InRow(f, v, 0, depth + 1)), [Line(depth, Closing(v))])
      else [Line(depth, Opening(v))] + Stacked(f, v, 0, depth + 1) + [Line(depth, Closing(v))]
  }

  /** An element, or a name, a colon and a value. */
  function PartLines(f: Writer.Format, v: Value, k: nat, depth: nat): (r: seq<Line>)
    requires k < Parts(v)
    ensures r != [] && r[0].depth == depth
    decreases v, 0, 0
  {
    match v
    case Array(es) => LinesOf(f, es[k], depth)
    case Object(ms) =>
      var colon := if f.Compact? then [':' as int] else [':' as int, ' ' as int];
      Glue([Line(depth, Writer.TextOf(f, ms[k].name) + colon)], LinesOf(f, ms[k].value, depth))
  }

  /** The parts from k on, each on lines of its own, with commas at the ends of lines. */
  function Stacked(f: Writer.Format, v: Value, k: nat, depth: nat): (r: seq<Line>)
    requires k < Parts(v)
    ensures r != [] && r[0].depth == depth
    decreases v, 1, Parts(v) - k
  {
    var part := PartLines(f, v, k, depth);
    if k + 1 == Parts(v) then part else Glue(part, [Line(depth, [',' as int])]) + Stacked(f, v, k + 1, depth)
  }

  /** The parts from k on, one behind the other. */
  function InRow(f: Writer.Format, v: Value, k: nat, depth: nat): (r: seq<Line>)
    requires k < Parts(v)
    ensures r != [] && r[0].depth == depth
    decreases v, 1, Parts(v) - k
  {
    var part := PartLines(f, v, k, depth);
    var comma := if f.Compact? then [',' as int] else [',' as int, ' ' as int];
    if k + 1 == Parts(v) then part else Glue(Glue(part, [Line(depth, comma)]), InRow(f, v, k + 1, depth))
  }

  // ---- showing lines ----

  lemma ShowLast(f: Writer.Format, ls: seq<Line>, l: Line)
    requires ls != []
    ensures Show(f, ls + [l]) == Show(f, ls) + (NewLine(f, l.depth) + l.text)
  {
    hide NewLine;
    assert (ls + [l])[..|ls|] == ls;
    Associates(Show(f, ls), NewLine(f, l.depth), l.text);
  }

  lemma Associates(a: bytes, b: bytes, c: bytes)
    ensures a + b + c == a + (b + c)
  {
  }

  lemma {:induction false} ShowStacked(f: Writer.Format, a: seq<Line>, b: seq<Line>)
    requires a != [] && b != []
    ensures Show(f, a + b) == Show(f, a) + (NewLine(f, b[0].depth) + Show(f, b))
    decreases |b|
  {
    hide NewLine, Show;
    var n := |b| - 1;
    var init, last := b[..n], b[n];
    if n == 0 {
      assert b == [last];
      ShowOne(f, last);
      ShowLast(f, a, last);
    } else {
      assert b == init + [last] && a + b == a + init + [last];
      ShowStacked(f, a, init);
      ShowLast(f, a + init, last);
      ShowLast(f, init, last);
      var end := NewLine(f, last.depth) + last.text;
      Associates(Show(f, a), NewLine(f, b[0].depth) + Show(f, init), end);
      Associates(NewLine(f, b[0].depth), Show(f, init), end);
    }
  }

  lemma GlueLast(a: seq<Line>, init: seq<Line>, last: Line)
    requires a != [] && init != []
    ensures Glue(a, init + [last]) == Glue(a, init) + [last]
  {
    assert (init + [last])[1..] == init[1..] + [last];
  }

  lemma GlueOne(f: Writer.Format, a: seq<Line>, l: Line)
    requires a != []
    ensures Show(f, Glue(a, [l])) == Show(f, a) + l.text
  {
    hide NewLine, Show;
    var n := |a| - 1;
    var init, last := a[..n], a[n];
    var glued := Line(last.depth, last.text + l.text);
    assert Glue(a, [l]) == init + [glued] && a == init + [last];
    if n == 0 {
      assert a == [last] && Glue(a, [l]) == [glued];
      ShowOne(f, last);
      ShowOne(f, glued);
    } else {
      ShowLast(f, init, last);
      ShowLast(f, init, glued);
      Associates(NewLine(f, last.depth), last.text, l.text);
      Associates(Show(f, init), NewLine(f, last.depth) + last.text, l.text);
    }
  }

  lemma {:induction false} ShowGlued(f: Writer.Format, a: seq<Line>, b: seq<Line>)
    requires a != [] && b != []
    ensures Show(f, Glue(a, b)) == Show(f, a) + Show(f, b)
    decreases |b|
  {
    hide NewLine, Show, Glue;
    var n := |b| - 1;
    var init, last := b[..n], b[n];
    if n == 0 {
      assert b == [last];
      ShowOne(f, last);
      GlueOne(f, a, last);
    } else {
      assert b == init + [last];
      GlueLast(a, init, last);
      ShowGlued(f, a, init);
      ShowLast(f, Glue(a, init), last);
      ShowLast(f, init, last);
      Associates(Show(f, a), Show(f, init), NewLine(f, last.depth) + last.text);
    }
  }

  lemma ShowOne(f: Writer.Format, l: Line)
    ensures Show(f, [l]) == l.text
  {
  }

  lemma NewLineIs(f: Writer.Format, depth: nat)
    requires f.Pretty?
    ensures NewLine(f, depth) == [LF] + Writer.Indent(f, depth)
  {
    assert f.indentCount * depth == depth * f.indentCount;
    assert Repeated(f.indentChar, f.indentCount * depth) == Writer.Indent(f, depth);
  }

  // ---- the writers put these lines ----

  /** What is put in front of a part. */
  function Lead(f: Writer.Format, v: Value, k: nat, depth: nat): bytes
    requires k < Parts(v)
  {
    (if k == 0 then [] else [',' as int])
    + (if !OneLine(f, v) then NewLine(f, depth) else if k == 0 || f.Compact? then [] else [' ' as int])
  }

  lemma LeadIs(f: Writer.Format, v: Value, k: nat, depth: nat)
    requires k < Parts(v)
    ensures v.Array? ==> Lead(f, v, k, depth) == Writer.Separator(true, k) + Writer.Layout(f, true, k, depth)
    ensures v.Object? ==> Lead(f, v, k, depth) == Writer.Separator(false, 2 * k) + Writer.Layout(f, false, 2 * k, depth)
    ensures v.Object? ==> Writer.Separator(false, 2 * k + 1) + Writer.Layout(f, false, 2 * k + 1, depth) ==
                          if f.Compact? then [':' as int] else [':' as int, ' ' as int]
  {
    hide Writer.Indent, NewLine;
    if f.Pretty? {
      NewLineIs(f, depth);
    } else {
      NoNewLine(f, depth);
    }
  }

  lemma NoNewLine(f: Writer.Format, depth: nat)
    requires f.Compact?
    ensures NewLine(f, depth) == []
  {
  }

  function RenderParts(f: Writer.Format, v: Value, k: nat, depth: nat): bytes
    requires k <= Parts(v)
  {
    match v
    case Object(_) => Writer.RenderMembers(f, v, k, depth)
    case Array(_) => Writer.RenderElements(f, v, k, depth)
    case _ => []
  }

  function RenderPart(f: Writer.Format, v: Value, k: nat, depth: nat): bytes
    requires k < Parts(v)
  {
    match v
    case Object(_) => Writer.RenderMember(f, v, k, depth)
    case Array(es) => Writer.Render(f, es[k], depth)
  }

  lemma PartsUnfold(f: Writer.Format, v: Value, k: nat, depth: nat)
    requires k < Parts(v)
    ensures RenderParts(f, v, k, depth) == Lead(f, v, k, depth) + (RenderPart(f, v, k, depth) + RenderParts(f, v, k + 1, depth))
  {
    hide Writer.Render, Writer.RenderMember, Lead, Writer.Layout, Writer.Separator;
    LeadIs(f, v, k, depth);
  }

  lemma RenderedContainer(f: Writer.Format, v: Value, depth: nat)
    requires v.Object? || v.Array?
    ensures Writer.Render(f, v, depth) ==
            Opening(v) + (RenderParts(f, v, 0, depth + 1) + ((if Parts(v) == 0 || OneLine(f, v) then [] else NewLine(f, depth)) + Closing(v)))
  {
    hide Writer.RenderMembers, Writer.RenderElements, Writer.Indent, NewLine;
    if f.Pretty? {
      NewLineIs(f, depth);
    }
  }

  lemma MemberText(f: Writer.Format, v: Value, k: nat, depth: nat)
    requires v.Object? && k < |v.members|
    ensures Writer.RenderMember(f, v, k, depth) ==
            Writer.TextOf(f, v.members[k].name) + (if f.Compact? then [':' as int] else [':' as int, ' ' as int])
            + Writer.Render(f, v.members[k].value, depth)
  {
    hide Writer.Render, Writer.TextOf, Writer.Layout, Writer.Separator;
    LeadIs(f, v, k, depth);
    Associates(Writer.TextOf(f, v.members[k].name), Writer.Separator(false, 2 * k + 1), Writer.Layout(f, false, 2 * k + 1, depth));
  }

  lemma {:induction false} PartIsShown(f: Writer.Format, v: Value, k: nat, depth: nat)
    requires k < Parts(v)
    ensures RenderPart(f, v, k, depth) == Show(f, PartLines(f, v, k, depth))
    decreases v, 1, 0
  {
    hide Show, Writer.Render, Writer.RenderMember, LinesOf, Writer.TextOf, Glue;
    match v
    case Array(es) => WritesLines(f, es[k], depth);
    case Object(ms) =>
      var colon := if f.Compact? then [':' as int] else [':' as int, ' ' as int];
      var head := Line(depth, Writer.TextOf(f, ms[k].name) + colon);
      WritesLines(f, ms[k].value, depth);
      ShowGlued(f, [head], LinesOf(f, ms[k].value, depth));
      ShowOne(f, head);
      MemberText(f, v, k, depth);
  }

  /** One more part in front of others, in a row and stacked. */
  lemma RowIsShown(f: Writer.Format, v: Value, k: nat, depth: nat)
    requires k + 1 < Parts(v) && OneLine(f, v)
    ensures Show(f, InRow(f, v, k, depth)) ==
            Show(f, PartLines(f, v, k, depth)) + (Lead(f, v, k + 1, depth) + Show(f, InRow(f, v, k + 1, depth)))
  {
    hide Show, PartLines, NewLine, Glue;
    var comma := if f.Compact? then [',' as int] else [',' as int, ' ' as int];
    var part, rest := PartLines(f, v, k, depth), InRow(f, v, k + 1, depth);
    ShowGlued(f, part, [Line(depth, comma)]);
    ShowOne(f, Line(depth, comma));
    ShowGlued(f, Glue(part, [Line(depth, comma)]), rest);
    assert Lead(f, v, k + 1, depth) == comma;
    Associates(Show(f, part), comma, Show(f, rest));
  }

  lemma StackIsShown(f: Writer.Format, v: Value, k: nat, depth: nat)
    requires k + 1 < Parts(v) && !OneLine(f, v)
    ensures Show(f, Stacked(f, v, k, depth)) ==
            Show(f, PartLines(f, v, k, depth)) + (Lead(f, v, k + 1, depth) + Show(f, Stacked(f, v, k + 1, depth)))
  {
    hide Show, PartLines, NewLine, Glue;
    var comma := [',' as int];
    var part, rest := PartLines(f, v, k, depth), Stacked(f, v, k + 1, depth);
    ShowGlued(f, part, [Line(depth, comma)]);
    ShowOne(f, Line(depth, comma));
    ShowStacked(f, Glue(part, [Line(depth, comma)]), rest);
    assert Lead(f, v, k + 1, depth) == comma + NewLine(f, depth);
    Associates(Show(f, part), comma, NewLine(f, depth) + Show(f, rest));
    Associates(comma, NewLine(f, depth), Show(f, rest));
  }

  lemma {:induction false} PartsAreShown(f: Writer.Format, v: Value, k: nat, depth: nat)
    requires k < Parts(v)
    ensures RenderParts(f, v, k, depth) ==
            Lead(f, v, k, depth) + Show(f, if OneLine(f, v) then InRow(f, v, k, depth) else Stacked(f, v, k, depth))
    decreases v, 2, Parts(v) - k
  {
    hide Show, RenderPart, PartLines, Lead, RenderParts;
    PartsUnfold(f, v, k, depth);
    PartIsShown(f, v, k, depth);
    if k + 1 == Parts(v) {
      NoMoreParts(f, v, depth);
      assert RenderPart(f, v, k, depth) + [] == RenderPart(f, v, k, depth);
    } else {
      hide InRow, Stacked;
      PartsAreShown(f, v, k + 1, depth);
      if OneLine(f, v) {
        RowIsShown(f, v, k, depth);
      } else {
        StackIsShown(f, v, k, depth);
      }
    }
  }

  /** A container around its parts. */
  lemma RowInBrackets(f: Writer.Format, v: Value, depth: nat)
    requires Parts(v) > 0 && OneLine(f, v)
    ensures Show(f, LinesOf(f, v, depth)) == Opening(v) + (Show(f, InRow(f, v, 0, depth + 1)) + Closing(v))
  {
    hide Show, InRow, Glue;
    var first, last, row := [Line(depth, Opening(v))], [Line(depth, Closing(v))], InRow(f, v, 0, depth + 1);
    ShowOne(f, first[0]);
    ShowOne(f, last[0]);
    ShowGlued(f, first, row);
    ShowGlued(f, Glue(first, row), last);
  }

  lemma StackInBrackets(f: Writer.Format, v: Value, depth: nat)
    requires Parts(v) > 0 && !OneLine(f, v)
    ensures Show(f, LinesOf(f, v, depth)) ==
            Opening(v) + (NewLine(f, depth + 1) + Show(f, Stacked(f, v, 0, depth + 1)) + (NewLine(f, depth) + Closing(v)))
  {
    hide Show, Stacked, NewLine;
    var first, last, rows := [Line(depth, Opening(v))], [Line(depth, Closing(v))], Stacked(f, v, 0, depth + 1);
    ShowOne(f, first[0]);
    ShowOne(f, last[0]);
    ShowStacked(f, first, rows);
    ShowStacked(f, first + rows, last);
    Associates(Opening(v), NewLine(f, depth + 1) + Show(f, rows), NewLine(f, depth) + Closing(v));
  }

  lemma EmptyBrackets(f: Writer.Format, v: Value, depth: nat)
    requires (v.Object? || v.Array?) && Parts(v) == 0
    ensures Show(f, LinesOf(f, v, depth)) == Opening(v) + Closing(v)
  {
    ShowOne(f, Line(depth, Opening(v) + Closing(v)));
  }

  lemma {:induction false} WritesContainer(f: Writer.Format, v: Value, depth: nat)
    requires v.Object? || v.Array?
    ensures Writer.Render(f, v, depth) == Show(f, LinesOf(f, v, depth))
    decreases v, 3, 0
  {
    hide Show, NewLine, RenderParts, Writer.Render, InRow, Stacked, LinesOf, Opening, Closing;
    RenderedContainer(f, v, depth);
    if Parts(v) == 0 {
      NoMoreParts(f, v, depth + 1);
      EmptyBrackets(f, v, depth);
      assert [] + ([] + Closing(v)) == Closing(v);
    } else {
      PartsAreShown(f, v, 0, depth + 1);
      if OneLine(f, v) {
        RowInBrackets(f, v, depth);
        var row := Show(f, InRow(f, v, 0, depth + 1));
        assert [] + [] + row == row && [] + Closing(v) == Closing(v);
      } else {
        StackInBrackets(f, v, depth);
        assert [] + NewLine(f, depth + 1) == NewLine(f, depth + 1);
      }
    }
  }

  /** For every tree and format the text is that of its lines. */
  lemma {:induction false} WritesLines(f: Writer.Format, v: Value, depth: nat)
    ensures Writer.Render(f, v, depth) == Show(f, LinesOf(f, v, depth))
    decreases v, 4, 0
  {
    if v.Object? || v.Array? {
      WritesContainer(f, v, depth);
    } else {
      hide Show, Writer.IntegerText, Writer.TextOf;
      ShowOne(f, LinesOf(f, v, depth)[0]);
    }
  }

  lemma NoMoreParts(f: Writer.Format, v: Value, depth: nat)
    requires v.Object? || v.Array?
    ensures RenderParts(f, v, Parts(v), depth) == []
  {
  }
}
