/** The two-tier detection cascade with its failure mode and ingress marking
    (src/detect/cascade.py, src/core/fail_mode.py). Detector output is a parameter. */
module Cascade {
  import opened Prelude
  import opened StableSort
  import opened Precedence
  import opened Session

  datatype FailMode = Open | Closed

  datatype ResolvedSpan = ResolvedSpan(span: Span, isIngressSurrogate: bool)

  predicate InBounds(text: string, spans: seq<Span>) {
    forall s | s in spans :: s.start < s.end <= |text|
  }

  function Mark(text: string, st: State, spans: seq<Span>): (r: seq<ResolvedSpan>)
    requires InBounds(text, spans)
    ensures |r| == |spans|
    ensures forall i | 0 <= i < |r| ::
      r[i].span == spans[i] && r[i].isIngressSurrogate == (text[spans[i].start..spans[i].end] in st.known)
  {
    seq(|spans|, i requires 0 <= i < |spans| =>
      ResolvedSpan(spans[i], text[spans[i].start..spans[i].end] in st.known))
  }

  /** Tier-1 output, and Tier-2 output or its failure. */
  datatype Detected = Detected(tier1: seq<seq<Span>>, tier2: Option<seq<seq<Span>>>) {
    predicate Valid(text: string) {
      (forall d | d in tier1 :: AllValid(d) && InBounds(text, d) && forall s | s in d :: s.tier == 1)
      && (tier2.Some? ==>
            forall d | d in tier2.value :: AllValid(d) && InBounds(text, d) && forall s | s in d :: s.tier == 2)
    }

    function All(): seq<seq<Span>> {
      tier1 + if tier2.Some? then tier2.value else []
    }
  }

  lemma ResolvedInBounds(text: string, d: Detected)
    requires d.Valid(text)
    ensures InBounds(text, Resolve(d.All())) && AllValid(Resolve(d.All()))
    ensures var r := Resolve(d.All()); forall i, j | 0 <= i < j < |r| :: r[i].end <= r[j].start
  {
    ResolveDisjointSorted(d.All());
    forall s | s in Resolve(d.All()) ensures s.start < s.end <= |text| {
      var k :| 0 <= k < |d.All()| && s in d.All()[k];
      assert d.All()[k] in d.tier1 || d.All()[k] in d.tier2.value;
    }
  }

  function Detect(text: string, st: State, d: Detected, mode: FailMode): Result<seq<ResolvedSpan>>
    requires d.Valid(text)
  {
    if d.tier2.None? && mode == Closed then Err(FailClosedError)
    else
      ResolvedInBounds(text, d);
      Ok(Mark(text, st, Resolve(d.All())))
  }

  /** Detector d, Tier-1 detectors before Tier-2 ones, reported s. */
  predicate Reported(found: Detected, d: nat, s: Span) {
    var n := |found.tier1|;
    if d < n then s in found.tier1[d]
    else found.tier2.Some? && d - n < |found.tier2.value| && s in found.tier2.value[d - n]
  }

  /** A marked span in the text, reported, and marked when its text is a known surrogate. */
  ghost predicate IsFinding(text: string, st: State, found: Detected, r: ResolvedSpan) {
    r.span.start < r.span.end <= |text| && (exists d :: Reported(found, d, r.span))
    && (r.isIngressSurrogate <==> text[r.span.start..r.span.end] in st.known)
  }

  /** Span s of detector d is among them, or is beaten by one of them. */
  ghost predicate Settled(found: Detected, r: seq<ResolvedSpan>, d: nat, s: Span) {
    exists i, e | 0 <= i < |r| && Reported(found, e, r[i].span) :: r[i].span == s || Beats(r[i].span, e, s, d)
  }

  /** The cascade fails exactly when Tier 2 failed and the mode is closed. Else it finds
      spans in order, each reported by some detector of either tier and marked when its very
      text is a known surrogate; and every reported span is found or beaten by a found one. */
  lemma DetectFinds(text: string, st: State, found: Detected, mode: FailMode)
    requires found.Valid(text)
    ensures var out := Detect(text, st, found, mode);
      if found.tier2.None? && mode == Closed then out == Err(FailClosedError) else
        out.Ok?
        && (forall i, j | 0 <= i < j < |out.value| :: out.value[i].span.end <= out.value[j].span.start)
        && (forall r | r in out.value :: IsFinding(text, st, found, r))
        && forall d, s | Reported(found, d, s) :: Settled(found, out.value, d, s)
  {
    hide Resolve, Settled, IsFinding, Reported, Beats, InBounds;
    if !(found.tier2.None? && mode == Closed) {
      ResolvedInBounds(text, found);
      var r := Detect(text, st, found, mode).value;
      forall x | x in r ensures IsFinding(text, st, found, x) {
        var i :| 0 <= i < |r| && r[i] == x;
        DetectedIs(text, st, found, r, i);
      }
      forall d, s | Reported(found, d, s) ensures Settled(found, r, d, s) {
        DetectSettles(text, st, found, r, d, s);
      }
    }
  }

  lemma DetectedIs(text: string, st: State, found: Detected, r: seq<ResolvedSpan>, i: nat)
    requires found.Valid(text) && InBounds(text, Resolve(found.All())) && r == Mark(text, st, Resolve(found.All()))
    requires i < |r|
    ensures IsFinding(text, st, found, r[i])
  {
    hide Resolve;
    var all := found.All();
    var s := Resolve(all)[i];
    assert s in Resolve(all) && r[i].span == s;
    ResolveFrom(all, s);
    var d :| 0 <= d < |all| && s in all[d];
    assert Reported(found, d, s);
  }

  lemma DetectSettles(text: string, st: State, found: Detected, r: seq<ResolvedSpan>, d: nat, s: Span)
    requires InBounds(text, Resolve(found.All())) && r == Mark(text, st, Resolve(found.All()))
    requires Reported(found, d, s)
    ensures Settled(found, r, d, s)
  {
    hide Resolve, Beats, Reported;
    var spans := Resolve(found.All());
    FoundOrBeaten(found, d, s);
    var e, k :| Reported(found, e, k) && k in spans && (k == s || Beats(k, e, s, d));
    var i :| 0 <= i < |spans| && spans[i] == k;
    assert r[i].span == k;
  }

  lemma FoundOrBeaten(found: Detected, d: nat, s: Span)
    requires Reported(found, d, s)
    ensures exists e, k | Reported(found, e, k) :: k in Resolve(found.All()) && (k == s || Beats(k, e, s, d))
  {
    hide Resolve, Beats;
    var all := found.All();
    assert s in all[d];
    DroppedForBetter(all, d, s);
    if s !in Resolve(all) {
      var e, k :| 0 <= e < |all| && k in all[e] && k in Resolve(all) && Beats(k, e, s, d);
      assert Reported(found, e, k);
    }
  }

  predicate AllEmpty(ds: seq<seq<Span>>) {
    forall i | 0 <= i < |ds| :: |ds[i]| == 0
  }

  lemma {:induction false} ItemsNothing(ds: seq<seq<Span>>, from: nat)
    requires AllEmpty(ds)
    ensures Items(ds, from) == []
  {
    if ds != [] {
      ItemsNothing(ds[1..], from + 1);
      assert Tag(ds[0], from) == [];
    }
  }

  lemma {:induction false} ItemsAppend(a: seq<seq<Span>>, b: seq<seq<Span>>, from: nat)
    ensures Items(a + b, from) == Items(a, from) + Items(b, from + |a|)
  {
    if a == [] {
      assert a + b == b;
    } else {
      assert (a + b)[1..] == a[1..] + b;
      ItemsAppend(a[1..], b, from + 1);
    }
  }

  lemma {:induction false} FilterNone<T(!new)>(p: T -> bool, xs: seq<T>)
    requires forall x | x in xs :: !p(x)
    ensures Filter(p, xs) == []
  {
    if xs != [] {
      FilterNone(p, xs[1..]);
    }
  }

  lemma TierOfParts(text: string, tier1: seq<seq<Span>>, tier2: seq<seq<Span>>)
    requires Detected(tier1, Some(tier2)).Valid(text)
    ensures forall d | d in tier1 + tier2 :: AllValid(d)
    ensures Tier1Only(tier1 + tier2)[..|tier1|] == tier1
    ensures AllEmpty(Tier1Only(tier1 + tier2)[|tier1|..])
  {
    var full, reduced := tier1 + tier2, Tier1Only(tier1 + tier2);
    forall i | 0 <= i < |tier1| ensures reduced[i] == tier1[i] {
      assert full[i] == tier1[i] && tier1[i] in tier1;
      FilterAll(TIER1, tier1[i]);
    }
    var tail := reduced[|tier1|..];
    forall i | 0 <= i < |tail| ensures |tail[i]| == 0 {
      assert tail[i] == Filter(TIER1, full[|tier1| + i]);
      assert full[|tier1| + i] == tier2[i] && tier2[i] in tier2;
      FilterNone(TIER1, tier2[i]);
    }
  }

  /** With FAIL_MODE open, a Tier-2 failure yields exactly the Tier-1 part of what the full
      cascade would have found; with closed it raises. */
  lemma FailOpenIsTierOnePart(text: string, st: State, tier1: seq<seq<Span>>, tier2: seq<seq<Span>>)
    requires Detected(tier1, Some(tier2)).Valid(text)
    ensures var failed := Detected(tier1, None);
      failed.Valid(text) && Detect(text, st, failed, Closed) == Err(FailClosedError)
      && Detect(text, st, failed, Open).Ok?
      && Resolve(failed.All()) == Filter(TIER1, Resolve(Detected(tier1, Some(tier2)).All()))
  {
    hide Resolve, Tier1Only, Filter, Items, AllEmpty;
    TierOfParts(text, tier1, tier2);
    var full, reduced := tier1 + tier2, Tier1Only(tier1 + tier2);
    TierOneIndependent(full);
    assert reduced == tier1 + reduced[|tier1|..];
    ItemsAppend(tier1, reduced[|tier1|..], 0);
    ItemsNothing(reduced[|tier1|..], |tier1|);
    assert tier1 + [] == tier1;
    assert Items(tier1, 0) + [] == Items(tier1, 0);
    SameItemsSameResult(reduced, tier1);
  }

  lemma SameItemsSameResult(a: seq<seq<Span>>, b: seq<seq<Span>>)
    requires Items(a, 0) == Items(b, 0)
    ensures Resolve(a) == Resolve(b)
  {
  }
}
