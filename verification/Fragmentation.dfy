/** When exactly the deltas the generator acts on are independent of how the network cuts
    the upstream text (src/proxy/routes.py:396-484, src/proxy/sse_framing.py:84-129). */
module Fragmentation {
  import opened Prelude
  import opened Json
  import opened ChatStream
  import opened SseFraming
  import opened GenerateSse

  // ------------------------------------------------------------ single characters

  /** A character completes at most one event: the one a flush would have dispatched
      instead; and then nothing is pending. */
  lemma CharCompletes(st: ParserState, ch: char)
    ensures ParseFeed(st, [ch]) == [] || (ParseFeed(st, [ch]) == ParseFlush(st) && |ParseFlush(st)| == 1)
    ensures ParseFeed(st, [ch]) != [] ==> ParseFlush(ParseAfter(st, [ch])) == []
  {
    hide HandleLines, DataAfter, FeedLines, AfterText, Join;
    OneChar(st.lines, ch);
    HandleFew(st.data, st.lines.buffer);
    HandleFew(DataAfterLine(st.data, st.lines.buffer), "");
  }

  lemma OneChar(st: LineState, ch: char)
    ensures FeedLines(st, [ch]) == CharLines(st, ch) && AfterText(st, [ch]) == AfterChar(st, ch)
  {
    hide CharLines, AfterChar;
    assert [ch][1..] == "" && [ch][0] == ch;
    assert FeedLines(AfterChar(st, ch), "") == [];
    assert CharLines(st, ch) + [] == CharLines(st, ch);
  }

  lemma HandleFew(data: seq<string>, line: string)
    ensures HandleLines(data, []) == [] && DataAfter(data, []) == data
    ensures HandleLines(data, [line]) == LineEvents(data, line) && DataAfter(data, [line]) == DataAfterLine(data, line)
  {
    hide LineEvents, DataAfterLine;
    assert [line][1..] == [] && [line][0] == line;
    assert HandleLines(DataAfterLine(data, line), []) == [];
    assert LineEvents(data, line) + [] == LineEvents(data, line);
  }

  lemma FlushOne(st: ParserState)
    ensures |ParseFlush(st)| <= 1
  {
    hide HandleLines, DataAfter, Join;
    HandleFew(st.data, st.lines.buffer);
  }

  /** The cut just before the character that completes event i: flushing there dispatches
      event i, and flushing after the character dispatches nothing. */
  lemma {:induction false} EventAt(st: ParserState, t: string, i: nat) returns (n: nat)
    requires i < |ParseFeed(st, t)|
    ensures n < |t| && |ParseFeed(st, t[..n])| == i && |ParseFeed(st, t[..n + 1])| == i + 1
    ensures ParseFlush(ParseAfter(st, t[..n])) == [ParseFeed(st, t)[i]]
    ensures ParseFlush(ParseAfter(st, t[..n + 1])) == []
    decreases |t|
  {
    hide ParseFeed, ParseAfter, ParseFlush;
    if t == "" {
      NothingFed(st);
    }
    var k := |t| - 1;
    var before, ch := t[..k], t[k];
    assert before + [ch] == t;
    ParseFeedSplit(st, before, [ch]);
    CharCompletes(ParseAfter(st, before), ch);
    if i < |ParseFeed(st, before)| {
      n := EventAt(st, before, i);
      assert before[..n] == t[..n] && before[..n + 1] == t[..n + 1];
    } else {
      n := k;
      assert t[..k + 1] == t;
    }
  }

  lemma NothingFed(st: ParserState)
    ensures ParseFeed(st, "") == [] && ParseAfter(st, "") == st
  {
  }

  // ----------------------------------------------------------- leading deltas

  lemma {:induction false} LeadingAppend(s: Stream, a: seq<string>, b: seq<string>)
    ensures s.Leading(a + b) == if |s.Leading(a)| < |a| then s.Leading(a) else s.Leading(a) + s.Leading(b)
    ensures |s.Leading(a)| < |a| ==> s.Broken(a + b) == s.Broken(a)
    decreases |a|
  {
    hide ParseEvent, Stream.Leading, Stream.Broken;
    if a == [] {
      s.LeadingNothing();
      assert a + b == b && [] + s.Leading(b) == s.Leading(b);
    } else {
      assert (a + b)[0] == a[0] && (a + b)[1..] == a[1..] + b;
      s.LeadingCons(a);
      s.LeadingCons(a + b);
      LeadingAppend(s, a[1..], b);
    }
  }

  lemma ConsumedCons(s: Stream, events: seq<string>, st: ParserState, rest: seq<string>)
    requires events != []
    ensures s.ConsumedEvents(events, st, rest) ==
      match ParseEvent(s.codec, events[0])
      case Ok(ContentDelta(e)) => [e] + s.ConsumedEvents(events[1..], st, rest)
      case Ok(DoneMarker) => []
      case Err(_) => s.Tail(ParseFlush(st))
  {
    hide ParseEvent, ParseFlush, Stream.Tail;
  }

  lemma TailOfOne(s: Stream, events: seq<string>)
    requires |events| <= 1
    ensures s.Tail(events) == s.Leading(events)
  {
    if events != [] {
      assert events[1..] == [];
    }
  }

  // ------------------------------------------------------------- malformed events

  /** A malformed event ends the fragment it is in; what the parser then holds is flushed. */
  lemma {:induction false} BrokenInEvents(s: Stream, events: seq<string>, st: ParserState, rest: seq<string>)
    requires s.Broken(events)
    ensures s.ConsumedEvents(events, st, rest) == s.Leading(events) + s.Tail(ParseFlush(st))
    decreases |events|
  {
    hide ParseEvent, ParseFlush, Stream.Leading, Stream.Broken, Stream.ConsumedEvents, Stream.Tail;
    if events == [] {
      s.LeadingNothing();
    } else {
      s.LeadingCons(events);
      ConsumedCons(s, events, st, rest);
      match ParseEvent(s.codec, events[0])
      case Ok(ContentDelta(e)) =>
        BrokenInEvents(s, events[1..], st, rest);
        Regrouped(e, s.Leading(events[1..]), s.Tail(ParseFlush(st)));
      case Err(_) =>
        assert [] + s.Tail(ParseFlush(st)) == s.Tail(ParseFlush(st));
    }
  }

  /** Whichever fragment that is, it ends somewhere after the malformed event. */
  lemma {:induction false} BrokenSomewhere(s: Stream, st: ParserState, rest: seq<string>) returns (n: nat)
    requires s.Broken(ParseFeed(st, Flatten(rest)))
    ensures var t := Flatten(rest);
      n <= |t| && |s.Leading(ParseFeed(st, t))| < |ParseFeed(st, t[..n])|
      && s.Consumed(st, rest) == s.Leading(ParseFeed(st, t)) + s.Tail(ParseFlush(ParseAfter(st, t[..n])))
    decreases |rest|
  {
    hide ParseEvent, ParseFeed, ParseAfter, ParseFlush;
    hide Stream.Leading, Stream.Broken, Stream.ConsumedEvents, Stream.Tail;
    if rest == [] {
      NothingFed(st);
      s.LeadingNothing();
    }
    var a, b := rest[0], Flatten(rest[1..]);
    var events, st1 := ParseFeed(st, a), ParseAfter(st, a);
    ParseFeedSplit(st, a, b);
    LeadingAppend(s, events, ParseFeed(st1, b));
    if |s.Leading(events)| < |events| {
      BrokenInEvents(s, events, st1, rest[1..]);
      n := |a|;
      assert (a + b)[..n] == a;
    } else {
      LeadingThenConsumed(s, events, st1, rest[1..]);
      BrokenLater(s, events, ParseFeed(st1, b));
      var k := BrokenSomewhere(s, st1, rest[1..]);
      n := |a| + k;
      assert (a + b)[..n] == a + b[..k];
      ParseFeedSplit(st, a, b[..k]);
    }
  }

  lemma BrokenLater(s: Stream, a: seq<string>, b: seq<string>)
    requires |s.Leading(a)| == |a| && s.Broken(a + b)
    ensures s.Broken(b)
  {
    hide ParseEvent, Stream.Leading;
    LeadingAppend(s, a, b);
    var n := |s.Leading(b)|;
    assert (a + b)[|a| + n] == b[n];
  }

  lemma {:induction false} LeadingThenConsumed(s: Stream, events: seq<string>, st: ParserState, rest: seq<string>)
    requires |s.Leading(events)| == |events|
    ensures s.ConsumedEvents(events, st, rest) == s.Leading(events) + s.Consumed(st, rest)
    decreases |events|
  {
    hide ParseEvent, Stream.Leading, Stream.Broken, Stream.Consumed, Stream.ConsumedEvents;
    if events == [] {
      s.LeadingNothing();
      assert [] + s.Consumed(st, rest) == s.Consumed(st, rest);
      NoEventsLeft(s, st, rest);
    } else {
      s.LeadingCons(events);
      ConsumedCons(s, events, st, rest);
      match ParseEvent(s.codec, events[0])
      case Ok(ContentDelta(e)) =>
        LeadingThenConsumed(s, events[1..], st, rest);
        Regrouped(e, s.Leading(events[1..]), s.Consumed(st, rest));
    }
  }

  lemma NoEventsLeft(s: Stream, st: ParserState, rest: seq<string>)
    ensures s.ConsumedEvents([], st, rest) == s.Consumed(st, rest)
  {
  }

  lemma Regrouped(e: Json, a: seq<Json>, b: seq<Json>)
    ensures [e] + (a + b) == ([e] + a) + b
  {
  }

  // ------------------------------------------------------- the value, and when

  /** What a text means: the deltas before the first [DONE] or malformed event, in the
      declarative reading of its lines. */
  function Meaning(s: Stream, t: string): seq<Json> {
    s.Leading(Events(SplitLines(t)))
  }

  lemma EventsOfText(t: string)
    ensures Events(SplitLines(t)) == ParseFeed(PARSER_START, t) + ParseFlush(ParseAfter(PARSER_START, t))
  {
    hide ParseFeed, ParseAfter, ParseFlush, Events, SplitLines, ParseAll;
    FlattenOne(t);
    ParserIsDeclarative([t]);
    ParseAllWhole(PARSER_START, [t]);
  }

  /** With no malformed event before [DONE], every fragmentation consumes what the text means. */
  lemma ConsumedMeaning(s: Stream, chunks: seq<string>)
    requires !s.Broken(ParseFeed(PARSER_START, Flatten(chunks)))
    ensures s.Consumed(PARSER_START, chunks) == Meaning(s, Flatten(chunks))
  {
    hide ParseFeed, ParseAfter, ParseFlush, Events, SplitLines, Stream.Leading, Stream.Broken, Stream.ConsumedEvents;
    hide Stream.Tail, Stream.Consumed, ParseEvent;
    var t := Flatten(chunks);
    var ds, flushed := ParseFeed(PARSER_START, t), ParseFlush(ParseAfter(PARSER_START, t));
    EventsOfText(t);
    LeadingAppend(s, ds, flushed);
    FlushOne(ParseAfter(PARSER_START, t));
    TailOfOne(s, flushed);
    assert [] + ds == ds;
    s.ConsumedUnbroken([], PARSER_START, chunks);
    NoEventsLeft(s, PARSER_START, chunks);
    assert s.Leading(ds) + [] == s.Leading(ds);
  }

  /** At no point after the first malformed event would a flush dispatch a delta. */
  ghost predicate NothingAfter(s: Stream, t: string) {
    forall n: nat | n <= |t| && |s.Leading(ParseFeed(PARSER_START, t))| < |ParseFeed(PARSER_START, t[..n])| ::
      s.Tail(ParseFlush(ParseAfter(PARSER_START, t[..n]))) == []
  }

  /** Then a malformed event does no harm either. */
  lemma BrokenMeaning(s: Stream, chunks: seq<string>)
    requires s.Broken(ParseFeed(PARSER_START, Flatten(chunks))) && NothingAfter(s, Flatten(chunks))
    ensures s.Consumed(PARSER_START, chunks) == Meaning(s, Flatten(chunks))
  {
    hide ParseFeed, ParseAfter, ParseFlush, Events, SplitLines, Stream.Leading, Stream.ConsumedEvents;
    hide Stream.Tail, Stream.Consumed, ParseEvent;
    var t := Flatten(chunks);
    var ds, flushed := ParseFeed(PARSER_START, t), ParseFlush(ParseAfter(PARSER_START, t));
    var n := BrokenSomewhere(s, PARSER_START, chunks);
    EventsOfText(t);
    LeadingAppend(s, ds, flushed);
    assert s.Leading(ds) + [] == s.Leading(ds);
  }

  /** Cutting once, anywhere after the malformed event, consumes also what is flushed there. */
  lemma CutAfter(s: Stream, t: string, n: nat)
    requires s.Broken(ParseFeed(PARSER_START, t))
    requires n <= |t| && |s.Leading(ParseFeed(PARSER_START, t))| < |ParseFeed(PARSER_START, t[..n])|
    ensures Flatten([t[..n], t[n..]]) == t
    ensures s.Consumed(PARSER_START, [t[..n], t[n..]])
         == Meaning(s, t) + s.Tail(ParseFlush(ParseAfter(PARSER_START, t[..n])))
  {
    hide ParseFeed, ParseAfter, ParseFlush, Events, SplitLines, Stream.Leading, Stream.Broken, Stream.ConsumedEvents;
    hide Stream.Tail, ParseEvent;
    var a, b := t[..n], t[n..];
    assert a + b == t && [a, b][1..] == [b];
    FlattenOne(b);
    var st := ParseAfter(PARSER_START, a);
    var events, more := ParseFeed(PARSER_START, a), ParseFeed(st, b);
    ParseFeedSplit(PARSER_START, a, b);
    LeadingAppend(s, events, more);
    EventsOfText(t);
    LeadingAppend(s, events + more, ParseFlush(ParseAfter(PARSER_START, t)));
    LeadingWithin(s, events, more);
    BrokenInEvents(s, events, st, [b]);
  }

  lemma LeadingWithin(s: Stream, a: seq<string>, b: seq<string>)
    requires s.Broken(a + b) && |s.Leading(a + b)| < |a|
    ensures |s.Leading(a)| < |a| && s.Broken(a)
  {
    hide ParseEvent, Stream.Leading, Stream.Broken;
    LeadingAppend(s, a, b);
  }

  /** The deltas consumed do not depend on the fragmentation of a text if and only if no
      malformed event precedes [DONE], or nothing after the malformed event could be
      flushed as a delta; and then they are what the text means. */
  lemma FragmentationIrrelevant(s: Stream, t: string)
    ensures (forall a, b | Flatten(a) == t && Flatten(b) == t ::
               s.Consumed(PARSER_START, a) == s.Consumed(PARSER_START, b))
            <==> !s.Broken(ParseFeed(PARSER_START, t)) || NothingAfter(s, t)
    ensures !s.Broken(ParseFeed(PARSER_START, t)) || NothingAfter(s, t) ==>
      forall a | Flatten(a) == t :: s.Consumed(PARSER_START, a) == Meaning(s, t)
  {
    hide ParseFeed, ParseAfter, ParseFlush, Stream.Leading, Stream.Broken, Stream.Consumed, Stream.Tail, Meaning;
    var ds := ParseFeed(PARSER_START, t);
    if !s.Broken(ds) || NothingAfter(s, t) {
      forall a | Flatten(a) == t ensures s.Consumed(PARSER_START, a) == Meaning(s, t) {
        if s.Broken(ds) {
          BrokenMeaning(s, a);
        } else {
          ConsumedMeaning(s, a);
        }
      }
    } else {
      var n: nat :| n <= |t| && |s.Leading(ds)| < |ParseFeed(PARSER_START, t[..n])|
        && s.Tail(ParseFlush(ParseAfter(PARSER_START, t[..n]))) != [];
      CutAfter(s, t, n);
      BrokenEvent(s, ds);
      var k := EventAt(PARSER_START, t, |s.Leading(ds)|);
      CutAfter(s, t, k + 1);
      TailOfOne(s, []);
      s.LeadingNothing();
    }
  }

  lemma BrokenEvent(s: Stream, ds: seq<string>)
    requires s.Broken(ds)
    ensures |s.Leading(ds)| < |ds|
  {
    hide ParseEvent, Stream.Leading;
  }

  /** In particular it depends on the fragmentation whenever a well-formed delta event
      follows the malformed one. */
  lemma DeltaAfterBroken(s: Stream, t: string, j: nat)
    requires s.Broken(ParseFeed(PARSER_START, t))
    requires |s.Leading(ParseFeed(PARSER_START, t))| < j < |ParseFeed(PARSER_START, t)|
    requires var r := ParseEvent(s.codec, ParseFeed(PARSER_START, t)[j]); r.Ok? && r.value.ContentDelta?
    ensures !NothingAfter(s, t)
  {
    hide ParseFeed, ParseAfter, ParseFlush, Stream.Leading, Stream.Broken, ParseEvent;
    var n := EventAt(PARSER_START, t, j);
    assert s.Tail([ParseFeed(PARSER_START, t)[j]]) != [];
  }

  /** Two fragmentations of the same text: one drops the delta after the malformed event,
      the other delivers it. */
  lemma MalformedThenDelta(s: Stream, x: string, d: string, e: Json)
    requires NoBreak(x) && NoBreak(d) && ParseEvent(s.codec, x).Err? && ParseEvent(s.codec, d) == Ok(ContentDelta(e))
    ensures var whole, cut := [WireEvent(x) + WireEvent(d)], [WireEvent(x) + "data: " + d, "\n\n"];
      Flatten(whole) == Flatten(cut)
      && s.Consumed(PARSER_START, whole) == [] && s.Consumed(PARSER_START, cut) == [e]
  {
    hide ParseFeed, ParseAfter, ParseFlush, ParseEvent, WireEvent, Stream.Tail, Stream.ConsumedEvents;
    var head, line := WireEvent(x), "data: " + d;
    WireEventIs(d);
    assert head + WireEvent(d) == head + "data: " + d + "\n\n" && head + "data: " + d == head + line;
    FlattenOne(head + WireEvent(d));
    TwoPieces(head + line, "\n\n");
    ParseOne(x);
    ParseOne(d);
    ParseFeedSplit(PARSER_START, head, WireEvent(d));
    BrokenNow(s, [x] + [d], PARSER_START, []);
    FlushStart();
    assert s.Tail([]) == [] by { TailOfOne(s, []); s.LeadingNothing(); }
    PendingLine(d);
    ParseFeedSplit(PARSER_START, head, line);
    assert [x] + [] == [x];
    BrokenNow(s, [x], ParseAfter(PARSER_START, line), ["\n\n"]);
    TailDelta(s, d, e);
  }

  lemma WireEventIs(d: string)
    ensures WireEvent(d) == "data: " + d + "\n\n"
  {
  }

  lemma TwoPieces(a: string, b: string)
    ensures Flatten([a, b]) == a + b
  {
    FlattenOne(b);
    assert [a, b][1..] == [b];
  }

  lemma BrokenNow(s: Stream, events: seq<string>, st: ParserState, rest: seq<string>)
    requires events != [] && ParseEvent(s.codec, events[0]).Err?
    ensures s.ConsumedEvents(events, st, rest) == s.Tail(ParseFlush(st))
  {
    hide ParseEvent, ParseFlush, Stream.Tail;
  }

  lemma FlushStart()
    ensures ParseFlush(PARSER_START) == []
  {
  }

  lemma PendingLine(d: string)
    requires NoBreak(d)
    ensures ParseFeed(PARSER_START, "data: " + d) == []
    ensures ParseFlush(ParseAfter(PARSER_START, "data: " + d)) == [d]
  {
    hide FeedLines, AfterText;
    var line := "data: " + d;
    assert NoBreak(line);
    FeedPlain("", line);
    assert "" + line == line;
    assert "data:" <= line && line[0] == 'd' && line[5] == ' ' && line[6..] == d;
    HandleFew([], line);
    assert DataAfterLine([], line) == [] + [d];
  }

  lemma TailDelta(s: Stream, d: string, e: Json)
    requires ParseEvent(s.codec, d) == Ok(ContentDelta(e))
    ensures s.Tail([d]) == [e]
  {
    hide ParseEvent;
    assert [d][1..] == [] && s.Tail([]) == [];
  }
}
