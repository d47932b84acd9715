/** Incremental Server-Sent Events framing (src/proxy/sse_framing.py) and its declarative
    counterpart: the line and dispatch rules of sections 9.2.5 and 9.2.6 of the WHATWG
    HTML Standard for data fields, plus dispatch of a pending event at end of stream. */
module SseFraming {
  import opened Prelude

  // ---------------------------------------------------------- state machines

  /** The partial line, and whether the last character was a CR already taken as a break. */
  datatype LineState = LineState(buffer: string, pendingCr: bool)

  const LINE_START := LineState("", false)

  function AfterChar(st: LineState, ch: char): LineState {
    if st.pendingCr && ch == '\n' then st.(pendingCr := false)
    else if ch == '\r' then LineState("", true)
    else if ch == '\n' then LineState("", false)
    else LineState(st.buffer + [ch], false)
  }

  /** The lines one character completes: none, or the buffered one. */
  function CharLines(st: LineState, ch: char): seq<string> {
    if IsBreak(ch) && !(st.pendingCr && ch == '\n') then [st.buffer] else []
  }

  function AfterText(st: LineState, text: string): LineState
    decreases |text|
  {
    if text == "" then st else AfterText(AfterChar(st, text[0]), text[1..])
  }

  function FeedLines(st: LineState, text: string): seq<string>
    decreases |text|
  {
    if text == "" then []
    else CharLines(st, text[0]) + FeedLines(AfterChar(st, text[0]), text[1..])
  }

  function FlushLines(st: LineState): seq<string> {
    if st.buffer == "" then [] else [st.buffer]
  }

  /** The value of a data line, one leading space dropped; nothing for other lines. */
  function DataValue(line: string): Option<string> {
    if !("data:" <= line) then None
    else if |line| > 5 && line[5] == ' ' then Some(line[6..])
    else Some(line[5..])
  }

  function Join(values: seq<string>): string {
    if values == [] then ""
    else if |values| == 1 then values[0]
    else values[0] + "\n" + Join(values[1..])
  }

  /** The event, if any, that the accumulated data lines make. */
  function Dispatched(data: seq<string>): seq<string> {
    if data == [] then [] else [Join(data)]
  }

  function DataAfterLine(data: seq<string>, line: string): seq<string> {
    if line == "" then []
    else if ":" <= line then data
    else match DataValue(line)
      case Some(v) => data + [v]
      case None => data
  }

  function LineEvents(data: seq<string>, line: string): seq<string> {
    if line == "" then Dispatched(data) else []
  }

  function DataAfter(data: seq<string>, lines: seq<string>): seq<string>
    decreases |lines|
  {
    if lines == [] then data else DataAfter(DataAfterLine(data, lines[0]), lines[1..])
  }

  function HandleLines(data: seq<string>, lines: seq<string>): seq<string>
    decreases |lines|
  {
    if lines == [] then []
    else LineEvents(data, lines[0]) + HandleLines(DataAfterLine(data, lines[0]), lines[1..])
  }

  datatype ParserState = ParserState(lines: LineState, data: seq<string>)

  const PARSER_START := ParserState(LINE_START, [])

  function ParseAfter(st: ParserState, chunk: string): ParserState {
    ParserState(AfterText(st.lines, chunk), DataAfter(st.data, FeedLines(st.lines, chunk)))
  }

  function ParseFeed(st: ParserState, chunk: string): seq<string> {
    HandleLines(st.data, FeedLines(st.lines, chunk))
  }

  function ParseFlush(st: ParserState): seq<string> {
    HandleLines(st.data, FlushLines(st.lines)) + Dispatched(DataAfter(st.data, FlushLines(st.lines)))
  }

  // ---------------------------------------------------------------- classes

  class LineSplitter {
    var buffer: string
    var pendingCr: bool

    constructor ()
      ensures State() == LINE_START
    {
      buffer, pendingCr := "", false;
    }

    function State(): LineState
      reads this
    {
      LineState(buffer, pendingCr)
    }

    method Feed(chunk: string) returns (lines: seq<string>)
      modifies this
      ensures lines == FeedLines(old(State()), chunk) && State() == AfterText(old(State()), chunk)
    {
      lines := [];
      ghost var start := State();
      assert chunk[0..] == chunk;
      for i := 0 to |chunk|
        invariant FeedLines(start, chunk) == lines + FeedLines(State(), chunk[i..])
        invariant AfterText(start, chunk) == AfterText(State(), chunk[i..])
      {
        var ch := chunk[i];
        ghost var before, linesBefore := State(), lines;
        assert chunk[i..][0] == ch && chunk[i..][1..] == chunk[i + 1..];
        var completesPair := pendingCr && ch == '\n';
        pendingCr := false;
        if !completesPair {
          if ch == '\r' {
            lines := lines + [buffer];
            buffer := "";
            pendingCr := true;
          } else if ch == '\n' {
            lines := lines + [buffer];
            buffer := "";
          } else {
            buffer := buffer + [ch];
          }
        }
        assert State() == AfterChar(before, ch) && lines == linesBefore + CharLines(before, ch);
        Regroup(linesBefore, CharLines(before, ch), FeedLines(State(), chunk[i + 1..]));
      }
      assert chunk[|chunk|..] == "";
    }

    method Flush() returns (lines: seq<string>)
      modifies this
      ensures lines == FlushLines(old(State())) && State() == LINE_START
    {
      pendingCr := false;
      if buffer == "" {
        return [];
      }
      lines := [buffer];
      buffer := "";
    }
  }

  lemma Regroup(a: seq<string>, b: seq<string>, c: seq<string>)
    ensures a + (b + c) == a + b + c
  {
  }

  class SSEEventParser {
    const lines: LineSplitter
    var dataLines: seq<string>

    constructor ()
      ensures State() == PARSER_START && fresh(lines)
    {
      lines := new LineSplitter();
      dataLines := [];
    }

    function State(): ParserState
      reads this, lines
    {
      ParserState(lines.State(), dataLines)
    }

    method Feed(chunk: string) returns (events: seq<string>)
      modifies this, lines
      ensures events == ParseFeed(old(State()), chunk) && State() == ParseAfter(old(State()), chunk)
    {
      var complete := lines.Feed(chunk);
      events := Handle(complete);
    }

    method Flush() returns (events: seq<string>)
      modifies this, lines
      ensures events == ParseFlush(old(State())) && State() == PARSER_START
    {
      var complete := lines.Flush();
      events := Handle(complete);
      if dataLines != [] {
        events := events + [Join(dataLines)];
        dataLines := [];
      }
    }

    /** _handle_line over each complete line. */
    method Handle(complete: seq<string>) returns (events: seq<string>)
      modifies this
      ensures events == HandleLines(old(dataLines), complete)
      ensures dataLines == DataAfter(old(dataLines), complete)
    {
      events := [];
      assert complete[0..] == complete;
      for i := 0 to |complete|
        invariant HandleLines(old(dataLines), complete) == events + HandleLines(dataLines, complete[i..])
        invariant DataAfter(old(dataLines), complete) == DataAfter(dataLines, complete[i..])
      {
        var line := complete[i];
        ghost var before, eventsBefore := dataLines, events;
        assert complete[i..][0] == line && complete[i..][1..] == complete[i + 1..];
        if line == "" {
          if dataLines != [] {
            events := events + [Join(dataLines)];
            dataLines := [];
          }
        } else if !(":" <= line) {
          var value := DataValue(line);
          if value.Some? {
            dataLines := dataLines + [value.value];
          }
        }
        assert dataLines == DataAfterLine(before, line) && events == eventsBefore + LineEvents(before, line);
        Regroup(eventsBefore, LineEvents(before, line), HandleLines(dataLines, complete[i + 1..]));
      }
      assert complete[|complete|..] == [];
    }
  }

  // ------------------------------------------------------ chunk independence

  lemma {:induction false} FeedLinesSplit(st: LineState, a: string, b: string)
    ensures AfterText(st, a + b) == AfterText(AfterText(st, a), b)
    ensures FeedLines(st, a + b) == FeedLines(st, a) + FeedLines(AfterText(st, a), b)
    decreases |a|
  {
    if a == "" {
      assert a + b == b;
    } else {
      assert (a + b)[1..] == a[1..] + b;
      FeedLinesSplit(AfterChar(st, a[0]), a[1..], b);
    }
  }

  lemma {:induction false} HandleLinesSplit(data: seq<string>, a: seq<string>, b: seq<string>)
    ensures DataAfter(data, a + b) == DataAfter(DataAfter(data, a), b)
    ensures HandleLines(data, a + b) == HandleLines(data, a) + HandleLines(DataAfter(data, a), b)
    decreases |a|
  {
    if a == [] {
      assert a + b == b;
    } else {
      assert (a + b)[1..] == a[1..] + b;
      HandleLinesSplit(DataAfterLine(data, a[0]), a[1..], b);
    }
  }

  /** Feeding two fragments is feeding their concatenation. */
  lemma ParseFeedSplit(st: ParserState, a: string, b: string)
    ensures ParseAfter(st, a + b) == ParseAfter(ParseAfter(st, a), b)
    ensures ParseFeed(st, a + b) == ParseFeed(st, a) + ParseFeed(ParseAfter(st, a), b)
  {
    FeedLinesSplit(st.lines, a, b);
    HandleLinesSplit(st.data, FeedLines(st.lines, a), FeedLines(AfterText(st.lines, a), b));
  }

  // ------------------------------------------------- declarative counterpart

  predicate IsBreak(c: char) { c == '\r' || c == '\n' }

  predicate NoBreak(s: string) {
    forall i | 0 <= i < |s| :: !IsBreak(s[i])
  }

  /** Index of the first line break, or the length. */
  function FirstBreak(t: string): (i: nat)
    ensures i <= |t| && NoBreak(t[..i]) && (i < |t| ==> IsBreak(t[i]))
  {
    if t == "" || IsBreak(t[0]) then 0
    else
      var i := 1 + FirstBreak(t[1..]);
      assert t[..i] == [t[0]] + t[1..][..i - 1];
      i
  }

  /** Length of the break at position i: CRLF counts as one. */
  function BreakLength(t: string, i: nat): nat
    requires i < |t|
  {
    if t[i] == '\r' && i + 1 < |t| && t[i + 1] == '\n' then 2 else 1
  }

  /** The lines of a text: it is cut at each CRLF, LF or CR; a nonempty rest is a line. */
  function SplitLines(t: string): seq<string>
    decreases |t|
  {
    var i := FirstBreak(t);
    if i == |t| then (if t == "" then [] else [t])
    else [t[..i]] + SplitLines(t[i + BreakLength(t, i)..])
  }

  lemma {:induction false} FirstBreakAt(x: string, t: string)
    requires NoBreak(x) && t != "" && IsBreak(t[0])
    ensures FirstBreak(x + t) == |x|
  {
    if x == "" {
      assert x + t == t;
    } else {
      assert (x + t)[1..] == x[1..] + t;
      FirstBreakAt(x[1..], t);
    }
  }

  /** The next line of a text that starts with break-free x and then a break. */
  lemma SplitFirst(x: string, t: string, w: nat)
    requires NoBreak(x) && t != "" && IsBreak(t[0]) && w == BreakLength(t, 0)
    ensures w <= |t| && SplitLines(x + t) == [x] + SplitLines(t[w..])
  {
    hide FirstBreak, NoBreak;
    FirstBreakAt(x, t);
    var xt := x + t;
    assert xt[|x|] == t[0] && (|t| > 1 ==> xt[|x| + 1] == t[1]);
    assert BreakLength(xt, |x|) == w;
    assert xt[..|x|] == x && xt[|x| + w..] == t[w..];
  }

  /** Feeding a text and flushing yields exactly its lines. */
  lemma FeedAtBreak(x: string, t: string)
    requires NoBreak(x) && t != "" && IsBreak(t[0])
    requires var rest := t[BreakLength(t, 0)..];
      FeedLines(LineState("", false), rest) + FlushLines(AfterText(LineState("", false), rest)) == SplitLines(rest)
    ensures FeedLines(LineState(x, false), t) + FlushLines(AfterText(LineState(x, false), t)) == SplitLines(x + t)
  {
    hide FirstBreak, NoBreak, SplitLines;
    SplitFirst(x, t, BreakLength(t, 0));
    if BreakLength(t, 0) == 2 {
      PairConsumed(t);
    } else if t[0] == '\r' {
      PendingIrrelevant(t[1..]);
    }
    Regroup([x], FeedLines(AfterChar(LineState(x, false), t[0]), t[1..]),
            FlushLines(AfterText(LineState(x, false), t)));
  }

  lemma {:induction false} FeedIsSplit(x: string, t: string)
    requires NoBreak(x)
    ensures FeedLines(LineState(x, false), t) + FlushLines(AfterText(LineState(x, false), t))
         == SplitLines(x + t)
    decreases |t|
  {
    hide FirstBreak, NoBreak, SplitLines;
    if t == "" {
      assert x + t == x;
      SplitNone(x);
    } else if IsBreak(t[0]) {
      var n := BreakLength(t, 0);
      NoBreakEmpty();
      FeedIsSplit("", t[n..]);
      assert "" + t[n..] == t[n..];
      FeedAtBreak(x, t);
    } else {
      NoBreakAppend(x, t[0]);
      FeedIsSplit(x + [t[0]], t[1..]);
      assert x + [t[0]] + t[1..] == x + t;
    }
  }

  lemma SplitNone(x: string)
    requires NoBreak(x)
    ensures SplitLines(x) == FlushLines(LineState(x, false))
  {
    assert FirstBreak(x) == |x|;
  }

  lemma NoBreakEmpty()
    ensures NoBreak("")
  {
  }

  lemma NoBreakAppend(x: string, c: char)
    requires NoBreak(x) && !IsBreak(c)
    ensures NoBreak(x + [c])
  {
  }

  lemma PairConsumed(t: string)
    requires |t| >= 2 && t[1] == '\n'
    ensures FeedLines(LineState("", true), t[1..]) == FeedLines(LineState("", false), t[2..])
    ensures AfterText(LineState("", true), t[1..]) == AfterText(LineState("", false), t[2..])
  {
    assert t[1..][1..] == t[2..];
  }

  /** A held-back CR only matters when an LF follows. */
  lemma PendingIrrelevant(t: string)
    requires t == "" || t[0] != '\n'
    ensures FeedLines(LineState("", true), t) == FeedLines(LineState("", false), t)
    ensures FlushLines(AfterText(LineState("", true), t)) == FlushLines(AfterText(LineState("", false), t))
  {
  }

  /** Index of the first blank line, or the number of lines. */
  function FirstBlank(lines: seq<string>): (i: nat)
    ensures i <= |lines| && (i < |lines| ==> lines[i] == "")
    ensures forall j | 0 <= j < i :: lines[j] != ""
  {
    if lines == [] || lines[0] == "" then 0 else 1 + FirstBlank(lines[1..])
  }

  /** The data values among some lines, in order. */
  function DataOf(lines: seq<string>): seq<string> {
    if lines == [] then []
    else (match DataValue(lines[0]) case Some(v) => [v] case None => []) + DataOf(lines[1..])
  }

  /** Blank lines separate blocks; each block with a data value is one event. */
  function Events(lines: seq<string>): seq<string>
    decreases |lines|
  {
    if lines == [] then []
    else
      var i := FirstBlank(lines);
      Dispatched(DataOf(lines[..i])) + (if i < |lines| then Events(lines[i + 1..]) else [])
  }

  /** Lines without a blank one only accumulate data. */
  lemma {:induction false} HandleBlock(data: seq<string>, lines: seq<string>)
    requires forall j | 0 <= j < |lines| :: lines[j] != ""
    ensures HandleLines(data, lines) == [] && DataAfter(data, lines) == data + DataOf(lines)
    decreases |lines|
  {
    hide DataValue;
    if lines != [] {
      var line, rest := lines[0], lines[1..];
      CommentHasNoData(line);
      HandleBlock(DataAfterLine(data, line), rest);
      var now := if DataValue(line).Some? then [DataValue(line).value] else [];
      assert DataAfterLine(data, line) == data + now;
      Regroup(data, now, DataOf(rest));
    }
  }

  lemma CommentHasNoData(line: string)
    ensures ":" <= line ==> DataValue(line) == None
  {
    assert ":" <= line ==> line[..1] == ":";
    assert "data:" <= line ==> line[..1] == "d";
  }

  lemma EventsOfBlock(block: seq<string>)
    requires forall j | 0 <= j < |block| :: block[j] != ""
    ensures Events(block) == Dispatched(DataOf(block))
  {
    if block != [] {
      assert block[..|block|] == block;
      assert FirstBlank(block) == |block|;
    }
  }

  lemma FirstBlankAt(block: seq<string>, rest: seq<string>)
    requires forall j | 0 <= j < |block| :: block[j] != ""
    ensures FirstBlank(block + ([""] + rest)) == |block|
  {
    var lines := block + ([""] + rest);
    assert lines[|block|] == "";
    assert forall j | 0 <= j < |block| :: lines[j] == block[j];
  }

  lemma EventsAtBlank(block: seq<string>, rest: seq<string>)
    requires forall j | 0 <= j < |block| :: block[j] != ""
    ensures Events(block + ([""] + rest)) == Dispatched(DataOf(block)) + Events(rest)
  {
    hide DataOf, Dispatched, FirstBlank;
    var lines := block + ([""] + rest);
    FirstBlankAt(block, rest);
    assert lines[..|block|] == block && lines[|block| + 1..] == rest;
  }

  lemma {:induction false} HandleIsEvents(lines: seq<string>)
    ensures HandleLines([], lines) + Dispatched(DataAfter([], lines)) == Events(lines)
    decreases |lines|
  {
    hide DataOf, Dispatched, HandleLines, DataAfter, Events, FirstBlank;
    var i := FirstBlank(lines);
    var block, data := lines[..i], DataOf(lines[..i]);
    HandleBlock([], block);
    assert [] + data == data;
    if i < |lines| {
      var rest := lines[i + 1..];
      assert lines == block + ([""] + rest);
      HandleLinesSplit([], block, [""] + rest);
      BlankThen(data, rest);
      HandleIsEvents(rest);
      EventsAtBlank(block, rest);
      Regroup(Dispatched(data), HandleLines([], rest), Dispatched(DataAfter([], rest)));
    } else {
      assert block == lines;
      EventsOfBlock(lines);
    }
  }

  lemma BlankThen(data: seq<string>, rest: seq<string>)
    ensures HandleLines(data, [""] + rest) == Dispatched(data) + HandleLines([], rest)
    ensures DataAfter(data, [""] + rest) == DataAfter([], rest)
  {
    assert ([""] + rest)[1..] == rest;
  }

  /** Everything the parser produces from a list of fragments and a flush. */
  function ParseAll(st: ParserState, chunks: seq<string>): seq<string>
    decreases |chunks|
  {
    if chunks == [] then ParseFlush(st)
    else ParseFeed(st, chunks[0]) + ParseAll(ParseAfter(st, chunks[0]), chunks[1..])
  }

  lemma {:induction false} ParseAllWhole(st: ParserState, chunks: seq<string>)
    ensures ParseAll(st, chunks) == ParseFeed(st, Flatten(chunks)) + ParseFlush(ParseAfter(st, Flatten(chunks)))
    decreases |chunks|
  {
    hide ParseFlush;
    if chunks == [] {
      assert ParseAfter(st, "") == st && ParseFeed(st, "") == [];
    } else {
      var a, b := chunks[0], Flatten(chunks[1..]);
      ParseAllWhole(ParseAfter(st, a), chunks[1..]);
      ParseFeedSplit(st, a, b);
      Regroup(ParseFeed(st, a), ParseFeed(ParseAfter(st, a), b), ParseFlush(ParseAfter(st, a + b)));
    }
  }

  /** However the stream is fragmented, the events are those of the declarative reading
      of the whole text. */
  lemma ParserIsDeclarative(chunks: seq<string>)
    ensures ParseAll(PARSER_START, chunks) == Events(SplitLines(Flatten(chunks)))
  {
    hide HandleLines, DataAfter, FeedLines, AfterText, FlushLines, SplitLines, Dispatched;
    var t := Flatten(chunks);
    ParseAllWhole(PARSER_START, chunks);
    NoBreakEmpty();
    FeedIsSplit("", t);
    assert "" + t == t;
    var lines, last := FeedLines(LINE_START, t), FlushLines(AfterText(LINE_START, t));
    HandleLinesSplit([], lines, last);
    HandleIsEvents(SplitLines(t));
    Regroup(HandleLines([], lines), HandleLines(DataAfter([], lines), last),
            Dispatched(DataAfter([], lines + last)));
  }

  // ------------------------------------------------------------- round trip

  /** One event on the wire. */
  function WireEvent(d: string): string {
    "data: " + d + "\n\n"
  }

  function Wire(ds: seq<string>): string {
    if ds == [] then "" else WireEvent(ds[0]) + Wire(ds[1..])
  }

  lemma {:induction false} FeedPlain(x: string, t: string)
    requires NoBreak(t)
    ensures FeedLines(LineState(x, false), t) == []
    ensures AfterText(LineState(x, false), t) == LineState(x + t, false)
    decreases |t|
  {
    if t == "" {
      assert x + t == x;
    } else {
      FeedPlain(x + [t[0]], t[1..]);
      assert x + [t[0]] + t[1..] == x + t;
    }
  }

  lemma FeedBlankLine(line: string)
    ensures FeedLines(LineState(line, false), "\n\n") == [line, ""]
    ensures AfterText(LineState(line, false), "\n\n") == LINE_START
  {
    assert "\n\n"[1..] == "\n" && "\n"[1..] == "";
    assert FeedLines(LINE_START, "\n") == [""];
  }

  lemma HandleDataLine(d: string)
    ensures HandleLines([], ["data: " + d, ""]) == [d] && DataAfter([], ["data: " + d, ""]) == []
  {
    var line := "data: " + d;
    assert "data:" <= line && line[0] == 'd' && line[5] == ' ' && line[6..] == d;
    assert DataAfterLine([], line) == [d];
    assert [line, ""][1..] == [""] && [""][1..] == [];
  }

  lemma ParseOne(d: string)
    requires NoBreak(d)
    ensures ParseFeed(PARSER_START, WireEvent(d)) == [d]
    ensures ParseAfter(PARSER_START, WireEvent(d)) == PARSER_START
  {
    hide FeedLines, AfterText, HandleLines, DataAfter;
    var line := "data: " + d;
    assert WireEvent(d) == line + "\n\n";
    assert NoBreak(line);
    FeedPlain("", line);
    assert "" + line == line;
    FeedLinesSplit(LINE_START, line, "\n\n");
    FeedBlankLine(line);
    assert [] + [line, ""] == [line, ""];
    HandleDataLine(d);
  }

  /** Parsing the wire form of any list of break-free data gives the list back, and
      leaves the parser as it started. */
  lemma {:induction false} ParseWire(ds: seq<string>)
    requires forall i | 0 <= i < |ds| :: NoBreak(ds[i])
    ensures ParseFeed(PARSER_START, Wire(ds)) == ds && ParseAfter(PARSER_START, Wire(ds)) == PARSER_START
  {
    hide WireEvent;
    if ds != [] {
      hide ParseFeed, ParseAfter;
      ParseOne(ds[0]);
      ParseFeedSplit(PARSER_START, WireEvent(ds[0]), Wire(ds[1..]));
      ParseWire(ds[1..]);
      assert [ds[0]] + ds[1..] == ds;
    }
  }
}
