/** Every wire form of an event is read alike: any line break, data with or without the
    space, comments and other fields in between (src/proxy/sse_framing.py:60-124). */
module WireForms {
  import opened Prelude
  import opened SseFraming

  /** A line, the break after it, and the data value it carries. */
  datatype WireLine = WireLine(line: string, end: string, value: Option<string>)

  /** A data line with the space, a data line without, a blank line, or anything else. */
  ghost predicate Carries(l: WireLine) {
    match l.value
    case Some(v) => l.line == "data: " + v || (l.line == "data:" + v && (v == "" || v[0] != ' '))
    case None => !("data:" <= l.line)
  }

  /** The breaks are CRLF, LF or CR, and no CR is followed by an LF of a blank line; the last
      line may lack its break. */
  ghost predicate WellCut(ls: seq<WireLine>) {
    forall i | 0 <= i < |ls| ::
      Carries(ls[i]) && '\n' !in ls[i].line && '\r' !in ls[i].line
      && (ls[i].end == "\r\n" || ls[i].end == "\n" || ls[i].end == "\r"
          || (ls[i].end == "" && ls[i].line != "" && i + 1 == |ls|))
      && (i + 1 < |ls| && ls[i].end == "\r" && ls[i + 1].line == "" ==> ls[i + 1].end != "\n")
  }

  function Written(ls: seq<WireLine>): string {
    if ls == [] then "" else ls[0].line + (ls[0].end + Written(ls[1..]))
  }

  function LinesOf(ls: seq<WireLine>): (r: seq<string>)
    ensures |r| == |ls|
  {
    seq(|ls|, i requires 0 <= i < |ls| => ls[i].line)
  }

  function ValuesOf(ls: seq<WireLine>): seq<string> {
    if ls == [] then []
    else (match ls[0].value case Some(v) => [v] case None => []) + ValuesOf(ls[1..])
  }

  /** Lines that are not blank, closed by a blank one. */
  datatype Block = Block(lines: seq<WireLine>, end: string) {
    function All(): seq<WireLine> {
      lines + [WireLine("", end, None)]
    }
  }

  function LinesIn(bs: seq<Block>): seq<WireLine> {
    if bs == [] then [] else bs[0].All() + LinesIn(bs[1..])
  }

  /** One event for each block with data: its values, a newline between each two. */
  function EventsIn(bs: seq<Block>): seq<string> {
    if bs == [] then []
    else
      var vs := ValuesOf(bs[0].lines);
      (if vs == [] then [] else [Join(vs)]) + EventsIn(bs[1..])
  }

  /** The values in order, with a newline between each two. */
  lemma JoinIs(a: seq<string>, b: seq<string>, v: string)
    requires a != [] && b != []
    ensures Join([v]) == v && Join(a + b) == Join(a) + "\n" + Join(b)
    decreases |a|
  {
    if |a| == 1 {
      assert (a + b)[1..] == b;
    } else {
      assert (a + b)[1..] == a[1..] + b;
      JoinIs(a[1..], b, v);
      assert a[0] + "\n" + (Join(a[1..]) + "\n" + Join(b)) == a[0] + "\n" + Join(a[1..]) + "\n" + Join(b);
    }
  }

  lemma ValueIs(l: WireLine)
    requires Carries(l)
    ensures DataValue(l.line) == l.value
  {
    if l.value.Some? {
      var v := l.value.value;
      if l.line == "data: " + v {
        assert l.line[..5] == "data:" && l.line[5] == ' ' && l.line[6..] == v;
      } else {
        assert l.line[..5] == "data:" && l.line[5..] == v && (v != "" ==> l.line[5] == v[0]);
      }
    }
  }

  lemma {:induction false} DataIsValues(ls: seq<WireLine>)
    requires forall l | l in ls :: Carries(l)
    ensures DataOf(LinesOf(ls)) == ValuesOf(ls)
  {
    hide Carries, DataValue;
    if ls != [] {
      DataIsValues(ls[1..]);
      assert ls[0] in ls;
      ValueIs(ls[0]);
      assert LinesOf(ls)[1..] == LinesOf(ls[1..]);
    }
  }

  /** What follows a CR does not begin with an LF. */
  lemma NextStarts(ls: seq<WireLine>)
    requires WellCut(ls) && ls != [] && ls[0].end == "\r"
    ensures var rest := Written(ls[1..]); rest == "" || rest[0] != '\n'
  {
    if |ls| > 1 {
      var l := ls[1];
      assert ls[1..][0] == l;
      if l.line != "" {
        assert l.line[0] in l.line;
      }
    }
  }

  lemma WellCutTail(ls: seq<WireLine>)
    requires WellCut(ls) && ls != []
    ensures WellCut(ls[1..])
  {
    hide Carries;
    var r := ls[1..];
    assert forall i | 0 <= i < |r| :: r[i] == ls[i + 1];
  }

  /** The text is cut where it was put together. */
  lemma {:induction false} SplitWritten(ls: seq<WireLine>)
    requires WellCut(ls)
    ensures SplitLines(Written(ls)) == LinesOf(ls)
  {
    hide SplitLines, FirstBreak, WellCut, NoBreak;
    if ls == [] {
      NoLines();
    } else if ls[0].end == "" {
      LastLine(ls);
    } else {
      WellCutTail(ls);
      SplitWritten(ls[1..]);
      BreakIs(ls);
      var t, w := ls[0].end + Written(ls[1..]), |ls[0].end|;
      assert t[w..] == Written(ls[1..]);
      SplitFirst(ls[0].line, t, w);
      assert LinesOf(ls) == [ls[0].line] + LinesOf(ls[1..]);
    }
  }

  lemma NoLines()
    ensures SplitLines(Written([])) == LinesOf([])
  {
    assert LinesOf([]) == [];
  }

  lemma LastLine(ls: seq<WireLine>)
    requires WellCut(ls) && ls != [] && ls[0].end == ""
    ensures SplitLines(Written(ls)) == LinesOf(ls)
  {
    hide SplitLines;
    var l := ls[0].line;
    assert |ls| == 1 && Written(ls[1..]) == "";
    assert Written(ls) == l;
    FreeOfBreaks(l);
    SplitNone(l);
  }

  lemma FreeOfBreaks(s: string)
    requires '\n' !in s && '\r' !in s
    ensures NoBreak(s)
  {
    forall i | 0 <= i < |s| ensures !IsBreak(s[i]) {
      assert s[i] in s;
    }
  }

  lemma BreakIs(ls: seq<WireLine>)
    requires WellCut(ls) && ls != [] && ls[0].end != ""
    ensures var t := ls[0].end + Written(ls[1..]);
      t != "" && IsBreak(t[0]) && BreakLength(t, 0) == |ls[0].end|
    ensures NoBreak(ls[0].line)
  {
    FreeOfBreaks(ls[0].line);
    var rest := Written(ls[1..]);
    if ls[0].end == "\r" {
      NextStarts(ls);
      assert rest != "" ==> ("\r" + rest)[1] == rest[0];
    }
  }

  ghost predicate Solid(bs: seq<Block>) {
    forall b | b in bs :: NoBlank(b.lines)
  }

  ghost predicate NoBlank(ls: seq<WireLine>) {
    forall l | l in ls :: l.line != ""
  }

  lemma {:induction false} BlockEvents(bs: seq<Block>, rest: seq<WireLine>)
    requires Solid(bs) && NoBlank(rest) && forall l | l in LinesIn(bs) + rest :: Carries(l)
    ensures Events(LinesOf(LinesIn(bs) + rest)) == EventsIn(bs) + Dispatched(ValuesOf(rest))
  {
    hide Carries, Events, Join, DataOf, LinesOf, NoBlank, Dispatched;
    if bs != [] {
      var b, more := bs[0], LinesIn(bs[1..]) + rest;
      assert b in bs;
      assert LinesIn(bs) + rest == b.All() + more;
      assert forall l | l in more :: l in LinesIn(bs) + rest;
      BlockEvents(bs[1..], rest);
      assert forall l | l in b.lines :: l in LinesIn(bs) + rest;
      DataIsValues(b.lines);
      BlockLines(b, more);
      EventsAtBlank(LinesOf(b.lines), LinesOf(more));
      OneBlock(bs, rest);
    } else {
      assert LinesIn(bs) + rest == rest;
      assert EventsIn(bs) + Dispatched(ValuesOf(rest)) == Dispatched(ValuesOf(rest));
      DataIsValues(rest);
      BlockLines(Block(rest, ""), []);
      EventsOfBlock(LinesOf(rest));
    }
  }

  lemma OneBlock(bs: seq<Block>, rest: seq<WireLine>)
    requires bs != []
    ensures EventsIn(bs) + Dispatched(ValuesOf(rest))
         == Dispatched(ValuesOf(bs[0].lines)) + (EventsIn(bs[1..]) + Dispatched(ValuesOf(rest)))
  {
    hide Join;
  }

  lemma BlockLines(b: Block, rest: seq<WireLine>)
    requires NoBlank(b.lines)
    ensures LinesOf(b.All() + rest) == LinesOf(b.lines) + ([""] + LinesOf(rest))
    ensures forall j | 0 <= j < |b.lines| :: LinesOf(b.lines)[j] != ""
  {
    forall j | 0 <= j < |b.lines| ensures LinesOf(b.lines)[j] != "" {
      assert b.lines[j] in b.lines;
    }
  }

  /** However the blocks are written and the text is fragmented, the parser yields for
      each block with data its values joined, and nothing for the others; lines left over
      at the end are a block too. */
  lemma AnyWireForm(chunks: seq<string>, bs: seq<Block>, rest: seq<WireLine>)
    requires Solid(bs) && NoBlank(rest) && WellCut(LinesIn(bs) + rest)
    requires Flatten(chunks) == Written(LinesIn(bs) + rest)
    ensures ParseAll(PARSER_START, chunks)
         == EventsIn(bs) + if ValuesOf(rest) == [] then [] else [Join(ValuesOf(rest))]
  {
    hide Carries, SplitLines, Events, Written, ValuesOf, Join;
    var ls := LinesIn(bs) + rest;
    ParserIsDeclarative(chunks);
    SplitWritten(ls);
    forall l | l in ls ensures Carries(l) {
      var i :| 0 <= i < |ls| && ls[i] == l;
    }
    BlockEvents(bs, rest);
  }
}
