/** Which envelope carries which text, frame by frame (src/proxy/routes.py:410-484). */
module StreamFrames {
  import opened Prelude
  import opened Json
  import opened ChatStream
  import opened SseFraming
  import opened SlidingWindow
  import opened GenerateSse

  /** Delta i is the last one with a content slot, or the last one without. */
  predicate LastWith(deltas: seq<Json>, i: int) {
    0 <= i < |deltas| && HasContentSlot(deltas[i]) && forall j | i < j < |deltas| :: !HasContentSlot(deltas[j])
  }

  predicate LastWithout(deltas: seq<Json>, i: int) {
    0 <= i < |deltas| && !HasContentSlot(deltas[i]) && forall j | i < j < |deltas| :: HasContentSlot(deltas[j])
  }

  /** The frame is delta e, except for its content, and that content is text. */
  predicate CarriedBy(f: Frame, e: Json, text: string) {
    f.Chunk? && HasContentSlot(e) && WithContent(f.envelope, "") == WithContent(e, "")
    && ExtractContent(f.envelope) == text && text != ""
  }

  function Joined(groups: seq<seq<Frame>>): seq<Frame> {
    if groups == [] then [] else Joined(groups[..|groups| - 1]) + groups[|groups| - 1]
  }

  /** What the window has released, and what it still holds, after the first i deltas. */
  function ReleasedBy(s: Stream, deltas: seq<Json>, i: nat): string
    requires i <= |deltas|
  {
    SlidingWindow.Run(s.lookahead, s.tf, s.SlotTexts(deltas[..i])).0
  }

  function HeldAfter(s: Stream, deltas: seq<Json>): string {
    SlidingWindow.Run(s.lookahead, s.tf, s.SlotTexts(deltas)).1
  }

  /** The frames yielded for delta i: the text released when it was fed, if any, carried by
      that very delta. */
  ghost predicate GroupOf(s: Stream, deltas: seq<Json>, i: nat, group: seq<Frame>)
    requires i < |deltas|
  {
    exists text :: ReleasedBy(s, deltas, i + 1) == ReleasedBy(s, deltas, i) + text
      && if text == "" then group == [] else |group| == 1 && CarriedBy(group[0], deltas[i], text)
  }

  /** The frames of the flush: the substituted rest, if any, carried by the last delta that
      has a content slot. */
  ghost predicate FlushOf(s: Stream, deltas: seq<Json>, group: seq<Frame>) {
    var text := s.tf(HeldAfter(s, deltas));
    if text == "" then group == []
    else |group| == 1 && exists i :: LastWith(deltas, i) && CarriedBy(group[0], deltas[i], text)
  }

  /** The deferred structural event: the last delta without a slot, as it came. */
  ghost predicate StructuralOf(deltas: seq<Json>, group: seq<Frame>) {
    if exists i :: LastWithout(deltas, i) then exists i :: LastWithout(deltas, i) && group == [Chunk(deltas[i])]
    else group == []
  }

  ghost predicate IsFrames(s: Stream, deltas: seq<Json>, frames: seq<Frame>,
                           groups: seq<seq<Frame>>, flushed: seq<Frame>, structural: seq<Frame>) {
    |groups| == |deltas| && (forall i: nat | i < |deltas| :: GroupOf(s, deltas, i, groups[i]))
    && FlushOf(s, deltas, flushed) && StructuralOf(deltas, structural)
    && frames == Joined(groups) + flushed + structural + [DoneFrame]
  }

  // ----------------------------------------------------------------- it is so

  function Groups(s: Stream, deltas: seq<Json>): (gs: seq<seq<Frame>>)
    ensures |gs| == |deltas| && forall i | 0 <= i < |gs| :: gs[i] == s.DeltaFrames(s.After(deltas[..i]), deltas[i])
  {
    seq(|deltas|, i requires 0 <= i < |deltas| => s.DeltaFrames(s.After(deltas[..i]), deltas[i]))
  }

  lemma {:induction false} GroupsAreYielded(s: Stream, deltas: seq<Json>)
    ensures Joined(Groups(s, deltas)) == s.Yielded(deltas)
  {
    hide Stream.DeltaFrames, Stream.After;
    if deltas != [] {
      var n := |deltas| - 1;
      GroupsAreYielded(s, deltas[..n]);
      assert forall i | 0 <= i < n :: deltas[..n][..i] == deltas[..i];
      assert Groups(s, deltas)[..n] == Groups(s, deltas[..n]);
    }
  }

  lemma SlotTextsNext(s: Stream, deltas: seq<Json>, i: nat)
    requires i < |deltas|
    ensures s.SlotTexts(deltas[..i + 1])
         == s.SlotTexts(deltas[..i]) + if HasContentSlot(deltas[i]) then [ExtractContent(deltas[i])] else []
  {
    hide HasContentSlot, ExtractContent;
    assert deltas[..i + 1][..i] == deltas[..i];
  }

  lemma GroupIs(s: Stream, deltas: seq<Json>, i: nat)
    requires i < |deltas|
    ensures GroupOf(s, deltas, i, s.DeltaFrames(s.After(deltas[..i]), deltas[i]))
  {
    hide HasContentSlot, ExtractContent, WithContent, Released, Retained, SlidingWindow.Run;
    hide Stream.After, Stream.SlotTexts;
    var e, g := deltas[i], s.After(deltas[..i]);
    s.AfterMatches(deltas[..i]);
    SlotTextsNext(s, deltas, i);
    if HasContentSlot(e) {
      var text := Released(s.lookahead, s.tf, g.buffer + ExtractContent(e));
      RunAppend(s.lookahead, s.tf, s.SlotTexts(deltas[..i]), ExtractContent(e));
      WithContentTwice(e, text, "");
      SlotRule(e, text);
      assert ReleasedBy(s, deltas, i + 1) == ReleasedBy(s, deltas, i) + text;
    } else {
      assert s.SlotTexts(deltas[..i]) + [] == s.SlotTexts(deltas[..i]);
      assert ReleasedBy(s, deltas, i + 1) == ReleasedBy(s, deltas, i) + "";
    }
  }

  lemma {:induction false} LastIs(s: Stream, deltas: seq<Json>)
    ensures s.After(deltas).last.Some? <==> exists i :: LastWith(deltas, i)
    ensures s.After(deltas).last.Some? ==> exists i :: LastWith(deltas, i) && s.After(deltas).last == Some(deltas[i])
    ensures s.After(deltas).pending.Some? <==> exists i :: LastWithout(deltas, i)
    ensures s.After(deltas).pending.Some? ==>
      exists i :: LastWithout(deltas, i) && s.After(deltas).pending == Some(deltas[i])
  {
    hide HasContentSlot, ExtractContent, Retained;
    if deltas != [] {
      var n := |deltas| - 1;
      var before := deltas[..n];
      LastIs(s, before);
      forall i ensures LastWith(before, i) && !HasContentSlot(deltas[n]) ==> LastWith(deltas, i) {
      }
      forall i ensures LastWithout(before, i) && HasContentSlot(deltas[n]) ==> LastWithout(deltas, i) {
      }
      forall i ensures LastWith(deltas, i) && i < n ==> LastWith(before, i) {
      }
      forall i ensures LastWithout(deltas, i) && i < n ==> LastWithout(before, i) {
      }
      assert HasContentSlot(deltas[n]) ==> LastWith(deltas, n);
      assert !HasContentSlot(deltas[n]) ==> LastWithout(deltas, n);
    }
  }

  lemma FlushIs(s: Stream, deltas: seq<Json>)
    requires s.tf("") == ""
    ensures FlushOf(s, deltas, s.Carrier(s.After(deltas).last, s.tf(s.After(deltas).buffer)))
  {
    hide HasContentSlot, ExtractContent, WithContent, SlidingWindow.Run, Stream.After, Stream.SlotTexts, LastWith;
    var g := s.After(deltas);
    var text := s.tf(g.buffer);
    s.AfterMatches(deltas);
    LastIs(s, deltas);
    if g.last.None? {
      RunNothing(s.lookahead, s.tf);
    } else {
      WithContentTwice(g.last.value, text, "");
      SlotRule(g.last.value, text);
    }
  }

  lemma StructuralIs(s: Stream, deltas: seq<Json>)
    ensures StructuralOf(deltas, s.Structural(s.After(deltas).pending))
  {
    hide HasContentSlot, ExtractContent, WithContent, Stream.After, LastWithout;
    s.AfterMatches(deltas);
    LastIs(s, deltas);
    s.StructuralShows(s.After(deltas).pending);
  }

  /** Before the flush each delta yields at most one frame: itself with the text released
      when it was fed. The flush yields the last content delta with the rest of the text;
      then come the structural event as it arrived, and [DONE]. */
  lemma FramesAre(s: Stream, deltas: seq<Json>)
    requires s.tf("") == ""
    ensures exists groups, flushed, structural :: IsFrames(s, deltas, s.Frames(deltas), groups, flushed, structural)
  {
    hide Stream.Yielded, Stream.After, Stream.Carrier, Stream.Structural, Stream.DeltaFrames;
    hide GroupOf, FlushOf, StructuralOf;
    var g := s.After(deltas);
    var groups := Groups(s, deltas);
    GroupsAreYielded(s, deltas);
    forall i: nat | i < |deltas| ensures GroupOf(s, deltas, i, groups[i]) {
      GroupIs(s, deltas, i);
    }
    FlushIs(s, deltas);
    StructuralIs(s, deltas);
    var flushed, structural := s.Carrier(g.last, s.tf(g.buffer)), s.Structural(g.pending);
    assert s.Frames(deltas) == Joined(groups) + flushed + structural + [DoneFrame];
    assert IsFrames(s, deltas, s.Frames(deltas), groups, flushed, structural);
  }
}
