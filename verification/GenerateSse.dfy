/** The streaming response generator (src/proxy/routes.py:361-484): parser, window,
    deferred structural event and the termination paths. */
module GenerateSse {
  import opened Prelude
  import opened Json
  import opened ChatStream
  import opened SseFraming
  import opened Substitution
  import opened SlidingWindow

  /** One yielded event. */
  datatype Frame = Chunk(envelope: Json) | DoneFrame

  /** Window buffer and the generator's two variables. */
  datatype Gen = Gen(buffer: string, last: Option<Json>, pending: Option<Json>)

  const GEN_START := Gen("", None, None)

  /** How the events of a fragment leave the loop. */
  datatype Stop = Running | Dropped | Ended

  datatype Stream = Stream(codec: Codec, lookahead: nat, tf: Transform) {

    // ------------------------------------------------- which events are consumed

    /** The well-formed deltas among the events flushed after the loop. */
    function Tail(events: seq<string>): seq<Json> {
      if events == [] then []
      else match ParseEvent(codec, events[0])
        case Ok(ContentDelta(e)) => [e] + Tail(events[1..])
        case _ => Tail(events[1..])
    }

    /** The deltas the generator acts on, in order: up to the first [DONE]; up to the first
        malformed event or the end of the fragments, and then what the parser still holds. */
    function Consumed(st: ParserState, chunks: seq<string>): seq<Json>
      decreases |chunks|, 0
    {
      if chunks == [] then Tail(ParseFlush(st))
      else ConsumedEvents(ParseFeed(st, chunks[0]), ParseAfter(st, chunks[0]), chunks[1..])
    }

    function ConsumedEvents(events: seq<string>, st: ParserState, rest: seq<string>): seq<Json>
      decreases |rest|, 1 + |events|
    {
      if events == [] then Consumed(st, rest)
      else match ParseEvent(codec, events[0])
        case Err(_) => Tail(ParseFlush(st))
        case Ok(DoneMarker) => []
        case Ok(ContentDelta(e)) => [e] + ConsumedEvents(events[1..], st, rest)
    }

    // ------------------------------------------------------- what they produce

    function AfterDelta(g: Gen, e: Json): Gen {
      if HasContentSlot(e)
      then Gen(Retained(lookahead, tf, g.buffer + ExtractContent(e)), Some(e), g.pending)
      else g.(pending := Some(e))
    }

    function DeltaFrames(g: Gen, e: Json): seq<Frame> {
      if HasContentSlot(e) then Carrier(Some(e), Released(lookahead, tf, g.buffer + ExtractContent(e))) else []
    }

    /** Released text rides on a carrier envelope; empty text or no carrier yields nothing. */
    function Carrier(e: Option<Json>, text: string): seq<Frame> {
      if text != "" && e.Some? then [Chunk(WithContent(e.value, text))] else []
    }

    function After(deltas: seq<Json>): Gen {
      if deltas == [] then GEN_START
      else AfterDelta(After(deltas[..|deltas| - 1]), deltas[|deltas| - 1])
    }

    function Yielded(deltas: seq<Json>): seq<Frame> {
      if deltas == [] then []
      else Yielded(deltas[..|deltas| - 1]) + DeltaFrames(After(deltas[..|deltas| - 1]), deltas[|deltas| - 1])
    }

    /** Flush, then the deferred structural event, then [DONE]. */
    function Finish(g: Gen): seq<Frame> {
      Carrier(g.last, tf(g.buffer)) + Structural(g.pending) + [DoneFrame]
    }

    function Structural(pending: Option<Json>): seq<Frame> {
      match pending
      case Some(e) => [Chunk(WithContent(e, ExtractContent(e)))]
      case None => []
    }

    function Frames(deltas: seq<Json>): seq<Frame> {
      Yielded(deltas) + Finish(After(deltas))
    }

    lemma YieldedAppend(deltas: seq<Json>, e: Json)
      ensures After(deltas + [e]) == AfterDelta(After(deltas), e)
      ensures Yielded(deltas + [e]) == Yielded(deltas) + DeltaFrames(After(deltas), e)
      ensures FeedsOf(deltas + [e]) == FeedsOf(deltas) + Feeds(e)
    {
      assert (deltas + [e])[..|deltas|] == deltas;
    }

    // ------------------------------------------------------------ the generator

    /** What the window is fed for one delta, and for several. */
    function Feeds(e: Json): seq<Received> {
      if HasContentSlot(e) then [Fed(ExtractContent(e))] else []
    }

    function FeedsOf(deltas: seq<Json>): seq<Received> {
      if deltas == [] then [] else FeedsOf(deltas[..|deltas| - 1]) + Feeds(deltas[|deltas| - 1])
    }

    /** Handles one parsed delta; the window must be open. */
    method Handle(window: Window, e: Json, last: Option<Json>, pending: Option<Json>)
      returns (last': Option<Json>, pending': Option<Json>, frames: seq<Frame>)
      requires !window.flushed && window.lookahead == lookahead && window.transform == Some(tf)
      modifies window
      ensures !window.flushed && window.calls == old(window.calls) + Feeds(e)
      ensures Gen(window.buffer, last', pending') == AfterDelta(Gen(old(window.buffer), last, pending), e)
      ensures frames == DeltaFrames(Gen(old(window.buffer), last, pending), e)
    {
      last', pending', frames := last, pending, [];
      if HasContentSlot(e) {
        last' := Some(e);
        var released := window.Feed(ExtractContent(e));
        if released.value != "" {
          frames := [Chunk(WithContent(e, released.value))];
        }
      } else {
        pending' := Some(e);
      }
    }

    /** Closes the window and yields the final frames. */
    method Close(window: Window, last: Option<Json>, pending: Option<Json>) returns (frames: seq<Frame>)
      requires !window.flushed && window.transform == Some(tf)
      modifies window
      ensures window.flushed && window.calls == old(window.calls) + [Flushed]
      ensures frames == Finish(Gen(old(window.buffer), last, pending))
    {
      frames := [];
      var final := window.Flush();
      if final.value != "" && last.Some? {
        frames := frames + [Chunk(WithContent(last.value, final.value))];
      }
      if pending.Some? {
        frames := frames + [Chunk(WithContent(pending.value, ExtractContent(pending.value)))];
      }
      frames := frames + [DoneFrame];
    }

    /** Where the generator is after some deltas: window, variables, frames and feeds. */
    ghost predicate IsAfter(window: Window, last: Option<Json>, pending: Option<Json>, frames: seq<Frame>,
                            deltas: seq<Json>)
      reads window
    {
      !window.flushed && window.lookahead == lookahead && window.transform == Some(tf)
      && Gen(window.buffer, last, pending) == After(deltas) && frames == Yielded(deltas)
      && window.calls == FeedsOf(deltas)
    }

    /** One more delta. */
    method Deliver(window: Window, e: Json, last: Option<Json>, pending: Option<Json>, frames: seq<Frame>,
                   ghost deltas: seq<Json>)
      returns (last': Option<Json>, pending': Option<Json>, frames': seq<Frame>)
      requires IsAfter(window, last, pending, frames, deltas)
      modifies window
      ensures IsAfter(window, last', pending', frames', deltas + [e])
    {
      hide AfterDelta, DeltaFrames, Yielded, After, Feeds, FeedsOf;
      YieldedAppend(deltas, e);
      last', pending', frames' := Handle(window, e, last, pending);
      frames' := frames + frames';
    }

    /** The end, after all deltas. */
    method Finalize(window: Window, last: Option<Json>, pending: Option<Json>, frames: seq<Frame>,
                    ghost deltas: seq<Json>)
      returns (all: seq<Frame>)
      requires IsAfter(window, last, pending, frames, deltas)
      modifies window
      ensures all == Frames(deltas) && window.calls == FeedsOf(deltas) + [Flushed]
    {
      hide Yielded, After, Finish, FeedsOf;
      var rest := Close(window, last, pending);
      all := frames + rest;
    }

    /** The events of one fragment: all handled, or stopped by a malformed one, or by [DONE]
        and then everything is over. */
    method HandleEvents(window: Window, events: seq<string>, last: Option<Json>, pending: Option<Json>,
                        frames: seq<Frame>, ghost deltas: seq<Json>, ghost st: ParserState, ghost rest: seq<string>)
      returns (last': Option<Json>, pending': Option<Json>, frames': seq<Frame>, stop: Stop, ghost deltas': seq<Json>)
      requires IsAfter(window, last, pending, frames, deltas)
      modifies window
      ensures !stop.Ended? ==> IsAfter(window, last', pending', frames', deltas')
      ensures stop.Ended? ==> frames' == Frames(deltas') && window.calls == FeedsOf(deltas') + [Flushed]
      ensures deltas + ConsumedEvents(events, st, rest) == deltas' +
        match stop
        case Running => Consumed(st, rest)
        case Dropped => Tail(ParseFlush(st))
        case Ended => []
    {
      hide ParseFlush, ParseEvent, Frames, FeedsOf, Consumed, ConsumedEvents, Tail, IsAfter;
      last', pending', frames', stop, deltas' := last, pending, frames, Running, deltas;
      assert events[0..] == events;
      for j := 0 to |events|
        invariant IsAfter(window, last', pending', frames', deltas')
        invariant deltas + ConsumedEvents(events, st, rest) == deltas' + ConsumedEvents(events[j..], st, rest)
      {
        EventStep(events, j, st, rest);
        var parsed := ParseEvent(codec, events[j]);
        if parsed.Err? {
          return last', pending', frames', Dropped, deltas';
        } else if parsed.value.DoneMarker? {
          frames' := Finalize(window, last', pending', frames', deltas');
          return last', pending', frames', Ended, deltas';
        }
        var e := parsed.value.envelope;
        StepConsumed(deltas', e, ConsumedEvents(events[j + 1..], st, rest));
        last', pending', frames' := Deliver(window, e, last', pending', frames', deltas');
        deltas' := deltas' + [e];
      }
      NoMoreEvents(events, st, rest);
    }

    /** The events flushed at the end: malformed ones and [DONE] are skipped. */
    method HandleTail(window: Window, events: seq<string>, last: Option<Json>, pending: Option<Json>,
                      frames: seq<Frame>, ghost deltas: seq<Json>)
      returns (all: seq<Frame>)
      requires IsAfter(window, last, pending, frames, deltas)
      modifies window
      ensures all == Frames(deltas + Tail(events)) && window.calls == FeedsOf(deltas + Tail(events)) + [Flushed]
    {
      hide ParseEvent, Frames, FeedsOf, Tail, IsAfter;
      var last', pending', frames' := last, pending, frames;
      ghost var deltas' := deltas;
      assert events[0..] == events;
      for j := 0 to |events|
        invariant IsAfter(window, last', pending', frames', deltas')
        invariant deltas + Tail(events) == deltas' + Tail(events[j..])
      {
        TailStep(events, j);
        var parsed := ParseEvent(codec, events[j]);
        if parsed.Ok? && parsed.value.ContentDelta? {
          var e := parsed.value.envelope;
          StepConsumed(deltas', e, Tail(events[j + 1..]));
          last', pending', frames' := Deliver(window, e, last', pending', frames', deltas');
          deltas' := deltas' + [e];
        }
      }
      TailEnd(events);
      assert deltas' + [] == deltas';
      all := Finalize(window, last', pending', frames', deltas');
    }

    /** Everything yielded for a list of upstream fragments, however the stream then ends; and
        the window is fed the contents consumed, in order, and then flushed, once. */
    method Generate(chunks: seq<string>) returns (frames: seq<Frame>, window: Window)
      ensures fresh(window) && window.calls == FeedsOf(Consumed(PARSER_START, chunks)) + [Flushed]
      ensures frames == Frames(Consumed(PARSER_START, chunks))
    {
      hide ParseFeed, ParseAfter, ParseFlush, Frames, FeedsOf, Consumed, ConsumedEvents, Tail;
      StartState();
      var parser := new SSEEventParser();
      window := new Window(lookahead, Some(tf));
      var last: Option<Json>, pending: Option<Json> := None, None;
      frames := [];
      ghost var deltas: seq<Json> := [];
      assert IsAfter(window, last, pending, frames, deltas) by { NoDeltas(); }
      hide IsAfter;
      assert chunks[0..] == chunks && [] + Consumed(PARSER_START, chunks) == Consumed(PARSER_START, chunks);
      var i, stop := 0, Running;
      while i < |chunks| && stop.Running?
        invariant i <= |chunks| && !stop.Ended?
        invariant fresh(parser) && fresh(parser.lines) && fresh(window)
        invariant IsAfter(window, last, pending, frames, deltas)
        invariant Consumed(PARSER_START, chunks)
               == deltas + if stop.Dropped? then Tail(ParseFlush(parser.State()))
                           else Consumed(parser.State(), chunks[i..])
        decreases |chunks| - i, stop.Running?
      {
        FragmentStep(parser.State(), chunks, i);
        var events := parser.Feed(chunks[i]);
        i := i + 1;
        last, pending, frames, stop, deltas :=
          HandleEvents(window, events, last, pending, frames, deltas, parser.State(), chunks[i..]);
        if stop.Ended? {
          assert deltas + [] == deltas;
          return;
        }
      }
      if stop.Running? {
        NoMoreFragments(parser.State(), chunks);
      }
      var events := parser.Flush();
      frames := HandleTail(window, events, last, pending, frames, deltas);
    }

    lemma FragmentStep(st: ParserState, chunks: seq<string>, i: nat)
      requires i < |chunks|
      ensures Consumed(st, chunks[i..])
           == ConsumedEvents(ParseFeed(st, chunks[i]), ParseAfter(st, chunks[i]), chunks[i + 1..])
    {
      hide ParseFeed, ParseAfter, ConsumedEvents;
      assert chunks[i..][1..] == chunks[i + 1..];
    }

    lemma NoMoreFragments(st: ParserState, chunks: seq<string>)
      ensures Consumed(st, chunks[|chunks|..]) == Tail(ParseFlush(st))
    {
      hide ParseFlush, Tail;
    }

    lemma EventStep(events: seq<string>, j: nat, st: ParserState, rest: seq<string>)
      requires j < |events|
      ensures ConsumedEvents(events[j..], st, rest) ==
        match ParseEvent(codec, events[j])
        case Ok(ContentDelta(e)) => [e] + ConsumedEvents(events[j + 1..], st, rest)
        case Ok(DoneMarker) => []
        case Err(_) => Tail(ParseFlush(st))
    {
      hide ParseEvent, ParseFlush, Tail;
      assert events[j..][1..] == events[j + 1..];
    }

    lemma NoMoreEvents(events: seq<string>, st: ParserState, rest: seq<string>)
      ensures ConsumedEvents(events[|events|..], st, rest) == Consumed(st, rest)
    {
      hide Consumed;
    }

    lemma TailStep(events: seq<string>, j: nat)
      requires j < |events|
      ensures Tail(events[j..]) ==
        match ParseEvent(codec, events[j])
        case Ok(ContentDelta(e)) => [e] + Tail(events[j + 1..])
        case _ => Tail(events[j + 1..])
    {
      hide ParseEvent;
      assert events[j..][1..] == events[j + 1..];
    }

    lemma TailEnd(events: seq<string>)
      ensures Tail(events[|events|..]) == []
    {
    }

    lemma NoDeltas()
      ensures After([]) == GEN_START && Yielded([]) == [] && FeedsOf([]) == []
    {
    }

    lemma StartState()
      ensures After([]) == GEN_START && Yielded([]) == []
    {
    }

    lemma StepConsumed(deltas: seq<Json>, e: Json, rest: seq<Json>)
      ensures deltas + ([e] + rest) == deltas + [e] + rest
    {
    }

    // ----------------------------------------------------- properties of any run

    /** The texts fed to the window. */
    function SlotTexts(deltas: seq<Json>): seq<string> {
      if deltas == [] then []
      else
        var n := |deltas| - 1;
        SlotTexts(deltas[..n]) + if HasContentSlot(deltas[n]) then [ExtractContent(deltas[n])] else []
    }

    /** The most recent delta without a content slot. */
    function LastStructural(deltas: seq<Json>): Option<Json> {
      if deltas == [] then None
      else
        var n := |deltas| - 1;
        if HasContentSlot(deltas[n]) then LastStructural(deltas[..n]) else Some(deltas[n])
    }

    /** Every frame is a chunk whose envelope can hold text. */
    predicate AllContent(frames: seq<Frame>) {
      forall i | 0 <= i < |frames| :: frames[i].Chunk? && HasContentSlot(frames[i].envelope)
    }

    /** What a reader of the frames sees as content. */
    function Visible(frames: seq<Frame>): string {
      if frames == [] then ""
      else
        var n := |frames| - 1;
        Visible(frames[..n]) + if frames[n].Chunk? then ExtractContent(frames[n].envelope) else ""
    }

    lemma {:induction false} VisibleAppend(a: seq<Frame>, b: seq<Frame>)
      ensures Visible(a + b) == Visible(a) + Visible(b)
    {
      hide ExtractContent;
      if b == [] {
        assert a + b == a;
      } else {
        var n := |b| - 1;
        VisibleAppend(a, b[..n]);
        assert (a + b)[..|a| + n] == a + b[..n];
      }
    }

    lemma AllContentAppend(a: seq<Frame>, b: seq<Frame>)
      ensures AllContent([]) && (AllContent(a) && AllContent(b) ==> AllContent(a + b))
    {
    }

    lemma VisibleOne(f: Frame)
      ensures Visible([f]) == if f.Chunk? then ExtractContent(f.envelope) else ""
    {
      assert [f][..0] == [];
    }

    /** A carrier shows exactly the released text, in an envelope that can hold it. */
    lemma CarrierShows(e: Option<Json>, text: string)
      requires e.Some? ==> HasContentSlot(e.value)
      requires e.None? ==> text == ""
      ensures Visible(Carrier(e, text)) == text && AllContent(Carrier(e, text))
    {
      if text != "" {
        SlotRule(e.value, text);
        VisibleOne(Chunk(WithContent(e.value, text)));
      }
    }

    lemma {:induction false} AfterMatches(deltas: seq<Json>)
      ensures var g := After(deltas);
        g.buffer == Run(lookahead, tf, SlotTexts(deltas)).1
        && g.pending == LastStructural(deltas)
        && (g.pending.Some? ==> !HasContentSlot(g.pending.value))
        && (g.last.Some? ==> HasContentSlot(g.last.value))
        && (g.last.None? ==> SlotTexts(deltas) == [])
    {
      hide Released, Retained;
      if deltas != [] {
        var n := |deltas| - 1;
        AfterMatches(deltas[..n]);
        if HasContentSlot(deltas[n]) {
          RunAppend(lookahead, tf, SlotTexts(deltas[..n]), ExtractContent(deltas[n]));
        } else {
          assert SlotTexts(deltas[..n]) + [] == SlotTexts(deltas[..n]);
        }
      }
    }

    lemma {:induction false} FedShows(deltas: seq<Json>)
      ensures AllContent(Yielded(deltas))
      ensures Visible(Yielded(deltas)) == Run(lookahead, tf, SlotTexts(deltas)).0
    {
      hide Released, Retained, ExtractContent, HasContentSlot, WithContent, Visible, Carrier, AllContent, After;
      VisibleNone();
      AllContentAppend([], []);
      if deltas != [] {
        var n := |deltas| - 1;
        var before, e := deltas[..n], deltas[n];
        FedShows(before);
        AfterMatches(before);
        VisibleAppend(Yielded(before), DeltaFrames(After(before), e));
        AllContentAppend(Yielded(before), DeltaFrames(After(before), e));
        if HasContentSlot(e) {
          CarrierShows(Some(e), Released(lookahead, tf, After(before).buffer + ExtractContent(e)));
          RunAppend(lookahead, tf, SlotTexts(before), ExtractContent(e));
        } else {
          assert SlotTexts(before) + [] == SlotTexts(before);
        }
      }
    }

    /** Exactly one [DONE], last; before it at most one structural event, the latest one
        unchanged, after all content; every content frame has a slot for its text; and the
        text shown is everything the window released. */
    lemma FramesShape(deltas: seq<Json>)
      requires tf("") == ""
      ensures var contents := Yielded(deltas) + Carrier(After(deltas).last, tf(After(deltas).buffer));
        var structural := match LastStructural(deltas) case Some(e) => [Chunk(e)] case None => [];
        AllContent(contents) && Frames(deltas) == contents + structural + [DoneFrame]
      ensures Visible(Frames(deltas)) == Output(lookahead, tf, SlotTexts(deltas))
    {
      hide Run, Yielded, After, Visible, Carrier, Structural, HasContentSlot, ExtractContent, WithContent;
      FedShows(deltas);
      AfterMatches(deltas);
      var g := After(deltas);
      var carried, tail := Carrier(g.last, tf(g.buffer)), Structural(g.pending);
      if g.last.None? {
        RunNothing(lookahead, tf);
      }
      CarrierShows(g.last, tf(g.buffer));
      StructuralShows(g.pending);
      assert Frames(deltas) == Yielded(deltas) + carried + tail + [DoneFrame];
      VisibleAppend(Yielded(deltas) + carried + tail, [DoneFrame]);
      VisibleAppend(Yielded(deltas) + carried, tail);
      VisibleAppend(Yielded(deltas), carried);
      VisibleOne(DoneFrame);
    }

    lemma VisibleNone()
      ensures Visible([]) == ""
    {
    }

    /** A structural event is relayed unchanged and shows no text. */
    lemma StructuralShows(pending: Option<Json>)
      requires pending.Some? ==> !HasContentSlot(pending.value)
      ensures Structural(pending) == match pending case Some(e) => [Chunk(e)] case None => []
      ensures Visible(Structural(pending)) == ""
    {
      if pending.Some? {
        SlotRule(pending.value, "");
        VisibleOne(Chunk(pending.value));
      }
    }

    // --------------------------------------------------- well-formed upstream streams

    /** Envelopes a provider sends: objects with a choices key. */
    predicate IsEnvelope(e: Json) {
      e.Obj? && Proper(e) && Get(e.fields, "choices").Some?
    }

    predicate AllEnvelopes(es: seq<Json>) {
      forall i | 0 <= i < |es| :: IsEnvelope(es[i])
    }

    /** What is assumed of json.loads: dictionaries have distinct keys; and of json.dumps on
        objects: it parses back, has no line break, and is not the [DONE] sentinel. */
    ghost predicate FaithfulCodec() {
      (forall s :: codec.loads(s).Some? ==> Proper(codec.loads(s).value))
      && forall e: Json | e.Obj? && Proper(e) ::
        codec.loads(codec.dumps(e)) == Some(e) && NoBreak(codec.dumps(e)) && codec.dumps(e) != DONE_SENTINEL
    }

    /** The event data of a [DONE]-terminated stream. */
    function DataOfStream(es: seq<Json>): (ds: seq<string>)
      ensures |ds| == |es| + 1
    {
      if es == [] then [DONE_SENTINEL] else [codec.dumps(es[0])] + DataOfStream(es[1..])
    }

    lemma {:induction false} DataNoBreak(es: seq<Json>)
      requires FaithfulCodec() && AllEnvelopes(es)
      ensures forall i | 0 <= i < |DataOfStream(es)| :: NoBreak(DataOfStream(es)[i])
    {
      if es != [] {
        assert IsEnvelope(es[0]);
        DataNoBreak(es[1..]);
      }
    }

    lemma ParseOwnEnvelope(e: Json)
      requires FaithfulCodec() && IsEnvelope(e)
      ensures ParseEvent(codec, codec.dumps(e)) == Ok(ContentDelta(e))
    {
    }

    // ---------------------------------------------------- what is consumed of a text

    /** The deltas before the first [DONE] or malformed event. */
    function Leading(ds: seq<string>): (es: seq<Json>)
      ensures |es| <= |ds|
      ensures forall i | 0 <= i < |es| :: ParseEvent(codec, ds[i]) == Ok(ContentDelta(es[i]))
      ensures |es| < |ds| ==> ParseEvent(codec, ds[|es|]).Err? || ParseEvent(codec, ds[|es|]).value.DoneMarker?
    {
      if ds == [] then []
      else match ParseEvent(codec, ds[0])
        case Ok(ContentDelta(e)) =>
          var rest := Leading(ds[1..]);
          assert forall i | 0 <= i < |rest| :: ds[1..][i] == ds[i + 1];
          [e] + rest
        case _ => []
    }

    /** A malformed event comes before any [DONE]. */
    predicate Broken(ds: seq<string>) {
      var n := |Leading(ds)|;
      n < |ds| && ParseEvent(codec, ds[n]).Err?
    }

    lemma LeadingCons(ds: seq<string>)
      requires ds != []
      ensures match ParseEvent(codec, ds[0])
        case Ok(ContentDelta(e)) =>
          Leading(ds) == [e] + Leading(ds[1..]) && Broken(ds) == Broken(ds[1..])
          && (|Leading(ds)| < |ds| <==> |Leading(ds[1..])| < |ds[1..]|)
        case Ok(DoneMarker) => Leading(ds) == [] && !Broken(ds)
        case Err(_) => Leading(ds) == [] && Broken(ds)
    {
      hide ParseEvent;
    }

    lemma {:induction false} LeadingIs(ds: seq<string>, es: seq<Json>)
      requires |es| < |ds| && forall i | 0 <= i < |es| :: ParseEvent(codec, ds[i]) == Ok(ContentDelta(es[i]))
      requires ParseEvent(codec, ds[|es|]).Err? || ParseEvent(codec, ds[|es|]).value.DoneMarker?
      ensures Leading(ds) == es
    {
      if es != [] {
        LeadingIs(ds[1..], es[1..]);
        assert [es[0]] + es[1..] == es;
      }
    }

    lemma LeadingNothing()
      ensures Leading([]) == [] && !Broken([])
    {
    }

    /** With no malformed event, however the events are spread over fragments, the deltas
        before [DONE] are consumed; without [DONE], also what the parser holds at the end. */
    lemma {:induction false} ConsumedUnbroken(events: seq<string>, st: ParserState, rest: seq<string>)
      requires !Broken(events + ParseFeed(st, Flatten(rest)))
      ensures var ds := events + ParseFeed(st, Flatten(rest));
        ConsumedEvents(events, st, rest)
        == Leading(ds)
           + if |Leading(ds)| < |ds| then [] else Tail(ParseFlush(ParseAfter(st, Flatten(rest))))
      decreases |rest|, |events|
    {
      hide ParseFeed, ParseAfter, ParseFlush, ParseEvent, Leading, Broken, Tail;
      var ds := events + ParseFeed(st, Flatten(rest));
      if events == [] {
        if rest == [] {
          FeedNothing(st);
          LeadingNothing();
          assert [] + Tail(ParseFlush(st)) == Tail(ParseFlush(st));
        } else {
          ParseFeedSplit(st, rest[0], Flatten(rest[1..]));
          assert ds == ParseFeed(st, rest[0]) + ParseFeed(ParseAfter(st, rest[0]), Flatten(rest[1..]));
          ConsumedUnbroken(ParseFeed(st, rest[0]), ParseAfter(st, rest[0]), rest[1..]);
        }
      } else {
        assert ds[0] == events[0] && ds[1..] == events[1..] + ParseFeed(st, Flatten(rest));
        LeadingCons(ds);
        match ParseEvent(codec, events[0])
        case Ok(ContentDelta(e)) =>
          ConsumedUnbroken(events[1..], st, rest);
          var more := if |Leading(ds[1..])| < |ds[1..]| then [] else Tail(ParseFlush(ParseAfter(st, Flatten(rest))));
          assert [e] + (Leading(ds[1..]) + more) == [e] + Leading(ds[1..]) + more;
        case _ =>
      }
    }

    lemma FeedNothing(st: ParserState)
      ensures ParseFeed(st, "") == [] && ParseAfter(st, "") == st
    {
    }

    /** The events of a text begin with ones that carry these deltas, and then [DONE]. */
    predicate Carries(text: string, es: seq<Json>) {
      var ds := ParseFeed(PARSER_START, text);
      |ds| > |es| && ds[|es|] == DONE_SENTINEL
      && forall i | 0 <= i < |es| :: ParseEvent(codec, ds[i]) == Ok(ContentDelta(es[i]))
    }

    /** From any upstream text whose events carry deltas and then [DONE], exactly these
        deltas are consumed, however it is fragmented and whatever follows. */
    lemma ConsumedWire(chunks: seq<string>, es: seq<Json>)
      requires Carries(Flatten(chunks), es)
      ensures Consumed(PARSER_START, chunks) == es
    {
      hide ParseFeed, ParseAfter;
      var ds := ParseFeed(PARSER_START, Flatten(chunks));
      LeadingIs(ds, es);
      assert [] + ds == ds;
      ConsumedUnbroken([], PARSER_START, chunks);
    }

    /** In particular from what this proxy itself prints. */
    lemma ConsumedOwn(chunks: seq<string>, es: seq<Json>)
      requires FaithfulCodec() && AllEnvelopes(es)
      requires Flatten(chunks) == Wire(DataOfStream(es))
      ensures Consumed(PARSER_START, chunks) == es
    {
      hide FaithfulCodec, ParseFeed, ParseAfter, ParseEvent, DataOfStream;
      DataNoBreak(es);
      ParseWire(DataOfStream(es));
      OwnEvents(es);
      ConsumedWire(chunks, es);
    }

    lemma {:induction false} OwnEvents(es: seq<Json>)
      requires FaithfulCodec() && AllEnvelopes(es)
      ensures var ds := DataOfStream(es);
        ds[|es|] == DONE_SENTINEL
        && forall i | 0 <= i < |es| :: ParseEvent(codec, ds[i]) == Ok(ContentDelta(es[i]))
    {
      hide FaithfulCodec, ParseEvent;
      if es != [] {
        assert IsEnvelope(es[0]);
        ParseOwnEnvelope(es[0]);
        OwnEvents(es[1..]);
        var ds, rest := DataOfStream(es), DataOfStream(es[1..]);
        assert forall i | 1 <= i < |ds| :: ds[i] == rest[i - 1];
        forall i | 0 <= i < |es| ensures ParseEvent(codec, ds[i]) == Ok(ContentDelta(es[i])) {
          assert i > 0 ==> es[i] == es[1..][i - 1];
        }
      }
    }

    /** Everything consumed is an envelope. */
    lemma ParsedIsEnvelope(d: string)
      requires FaithfulCodec()
      ensures var r := ParseEvent(codec, d); r.Ok? && r.value.ContentDelta? ==> IsEnvelope(r.value.envelope)
    {
    }

    lemma {:induction false} TailEnvelopes(events: seq<string>)
      requires FaithfulCodec()
      ensures AllEnvelopes(Tail(events))
    {
      hide FaithfulCodec, ParseEvent, IsEnvelope;
      if events != [] {
        ParsedIsEnvelope(events[0]);
        TailEnvelopes(events[1..]);
      }
    }

    lemma {:induction false} ConsumedEnvelopes(events: seq<string>, st: ParserState, rest: seq<string>)
      requires FaithfulCodec()
      ensures AllEnvelopes(ConsumedEvents(events, st, rest))
      decreases |rest|, |events|
    {
      hide FaithfulCodec, ParseEvent, IsEnvelope, ParseFeed, ParseAfter, ParseFlush;
      if events != [] {
        ParsedIsEnvelope(events[0]);
        TailEnvelopes(ParseFlush(st));
        ConsumedEnvelopes(events[1..], st, rest);
      } else if rest != [] {
        ConsumedEnvelopes(ParseFeed(st, rest[0]), ParseAfter(st, rest[0]), rest[1..]);
      } else {
        TailEnvelopes(ParseFlush(st));
      }
    }

    // --------------------------------------------------------------- end to end

    /** The text of the response body for a list of frames. */
    function Body(frames: seq<Frame>): string {
      if frames == [] then ""
      else WireEvent(if frames[0].Chunk? then codec.dumps(frames[0].envelope) else DONE_SENTINEL) + Body(frames[1..])
    }

    /** The envelopes of a run of chunks. */
    function Envelopes(frames: seq<Frame>): (es: seq<Json>)
      requires forall i | 0 <= i < |frames| :: frames[i].Chunk?
      ensures |es| == |frames| && forall i | 0 <= i < |frames| :: es[i] == frames[i].envelope
    {
      seq(|frames|, i requires 0 <= i < |frames| => frames[i].envelope)
    }

    lemma {:induction false} BodyIsWire(chunks: seq<Frame>)
      requires forall i | 0 <= i < |chunks| :: chunks[i].Chunk?
      ensures Body(chunks + [DoneFrame]) == Wire(DataOfStream(Envelopes(chunks)))
    {
      hide WireEvent;
      var all := chunks + [DoneFrame];
      if chunks != [] {
        BodyIsWire(chunks[1..]);
        assert all[1..] == chunks[1..] + [DoneFrame];
        assert Envelopes(chunks)[1..] == Envelopes(chunks[1..]);
        var ds := DataOfStream(Envelopes(chunks));
        assert ds[1..] == DataOfStream(Envelopes(chunks)[1..]);
      } else {
        assert all[1..] == [] && Envelopes(chunks) == [];
        assert Wire([DONE_SENTINEL]) == WireEvent(DONE_SENTINEL) + Wire([DONE_SENTINEL][1..]);
      }
    }

    lemma NoSlotNoText(e: Json)
      requires !HasContentSlot(e)
      ensures ExtractContent(e) == ""
    {
    }

    /** Text of a list of deltas. */
    function Text(es: seq<Json>): string {
      Flatten(SlotTexts(es))
    }

    lemma {:induction false} VisibleIsText(frames: seq<Frame>)
      requires forall i | 0 <= i < |frames| :: frames[i].Chunk?
      ensures Visible(frames) == Text(Envelopes(frames))
    {
      hide ExtractContent, HasContentSlot;
      var es := Envelopes(frames);
      if frames != [] {
        var n := |frames| - 1;
        VisibleIsText(frames[..n]);
        assert es[..n] == Envelopes(frames[..n]);
        var texts := SlotTexts(es[..n]);
        if HasContentSlot(es[n]) {
          FlattenAppend(texts, [ExtractContent(es[n])]);
          FlattenOne(ExtractContent(es[n]));
        } else {
          NoSlotNoText(es[n]);
          assert texts + [] == texts;
        }
      }
    }

    /** Frames are built from the envelopes received. */
    lemma {:induction false} FedEnvelopes(deltas: seq<Json>)
      requires AllEnvelopes(deltas)
      ensures forall i | 0 <= i < |Yielded(deltas)| ::
        Yielded(deltas)[i].Chunk? && IsEnvelope(Yielded(deltas)[i].envelope)
      ensures After(deltas).last.Some? ==> IsEnvelope(After(deltas).last.value)
      ensures LastStructural(deltas).Some? ==> IsEnvelope(LastStructural(deltas).value)
    {
      hide Released, Retained, ExtractContent, HasContentSlot, Carrier, IsEnvelope;
      if deltas != [] {
        var n := |deltas| - 1;
        assert IsEnvelope(deltas[n]);
        FedEnvelopes(deltas[..n]);
        var fed := After(deltas[..n]).buffer + ExtractContent(deltas[n]);
        CarrierEnvelopes(Some(deltas[n]), Released(lookahead, tf, fed));
      }
    }

    /** The chunks of the response, before [DONE]. */
    function ResponseChunks(es: seq<Json>): seq<Frame> {
      Yielded(es) + Carrier(After(es).last, tf(After(es).buffer)) + Structural(After(es).pending)
    }

    lemma ResponseEnvelopes(es: seq<Json>)
      requires AllEnvelopes(es)
      ensures var all := ResponseChunks(es);
        forall i | 0 <= i < |all| :: all[i].Chunk? && IsEnvelope(all[i].envelope)
    {
      hide Yielded, After, Carrier, Structural, IsEnvelope;
      AfterMatches(es);
      StructuralShows(After(es).pending);
      FedEnvelopes(es);
      CarrierEnvelopes(After(es).last, tf(After(es).buffer));
    }

    lemma ResponseShape(es: seq<Json>)
      requires AllEnvelopes(es) && tf("") == ""
      ensures var all := ResponseChunks(es);
        Frames(es) == all + [DoneFrame]
        && (forall i | 0 <= i < |all| :: all[i].Chunk?)
        && AllEnvelopes(Envelopes(all))
        && Text(Envelopes(all)) == Output(lookahead, tf, SlotTexts(es))
    {
      hide Yielded, After, Carrier, Structural, IsEnvelope, Output, SlotTexts, Visible;
      var all := ResponseChunks(es);
      ResponseEnvelopes(es);
      FramesShape(es);
      VisibleAppend(all, [DoneFrame]);
      VisibleOne(DoneFrame);
      VisibleIsText(all);
      assert Frames(es) == all + [DoneFrame];
    }

    /** End to end, for any upstream fragments whatever, dropped, malformed or without
        [DONE]: a client reading the response, in any fragmentation, gets one substitution of
        the whole text of the deltas consumed. */
    lemma EndToEnd(m: Table, chunks: seq<string>, received: seq<string>)
      requires FaithfulCodec()
      requires tf == Substitute(m) && OverlapFree(m, lookahead) && Covers(lookahead, m)
      requires Flatten(received) == Body(Frames(Consumed(PARSER_START, chunks)))
      ensures Text(Consumed(PARSER_START, received)) == Sub(m, Text(Consumed(PARSER_START, chunks)))
    {
      hide FaithfulCodec, OverlapFree, Covers, Sub, Frames, Consumed, Output, DataOfStream, Body, SlotTexts;
      hide ResponseChunks, AllEnvelopes;
      var es := Consumed(PARSER_START, chunks);
      ConsumedFromStart(chunks);
      TransformOfNothing(m);
      ResponseShape(es);
      var all := ResponseChunks(es);
      BodyIsWire(all);
      ConsumedOwn(received, Envelopes(all));
      WindowRefinesSubstitution(m, lookahead, SlotTexts(es));
    }

    lemma ConsumedFromStart(chunks: seq<string>)
      requires FaithfulCodec()
      ensures AllEnvelopes(Consumed(PARSER_START, chunks))
    {
      hide FaithfulCodec, AllEnvelopes;
      ConsumedEnvelopes([], PARSER_START, chunks);
    }

    /** So for an upstream whose events carry deltas and then [DONE], of all their text. */
    lemma EndToEndDone(m: Table, chunks: seq<string>, es: seq<Json>, received: seq<string>)
      requires FaithfulCodec()
      requires tf == Substitute(m) && OverlapFree(m, lookahead) && Covers(lookahead, m)
      requires Carries(Flatten(chunks), es)
      requires Flatten(received) == Body(Frames(Consumed(PARSER_START, chunks)))
      ensures Text(Consumed(PARSER_START, received)) == Sub(m, Text(es))
    {
      hide *;
      ConsumedWire(chunks, es);
      EndToEnd(m, chunks, received);
    }

    lemma TransformOfNothing(m: Table)
      requires tf == Substitute(m)
      ensures tf("") == ""
    {
    }

    lemma CarrierEnvelopes(e: Option<Json>, text: string)
      requires e.Some? ==> IsEnvelope(e.value)
      ensures forall i | 0 <= i < |Carrier(e, text)| ::
        Carrier(e, text)[i].Chunk? && IsEnvelope(Carrier(e, text)[i].envelope)
    {
      if e.Some? {
        WithContentProper(e.value, text);
      }
    }
  }
}
