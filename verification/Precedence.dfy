/** Overlap resolution by priority (src/detect/precedence.py). */
module Precedence {
  import opened StableSort
  import opened Engine

  /** A half-open range of characters with its type and tier. */
  datatype Span = Span(start: nat, end: nat, entityType: EntityType, tier: nat) {
    /** Checked by the source when a span is built. */
    predicate Valid() { start < end && (tier == 1 || tier == 2) }
  }

  predicate AllValid(spans: seq<Span>) {
    forall s | s in spans :: s.Valid()
  }

  predicate Overlap(a: Span, b: Span) {
    a.start < b.end && b.start < a.end
  }

  /** A span with the registration index of its detector. */
  datatype Item = Item(span: Span, detector: nat)

  /** The priority key (tier, -length, detector), compared lexicographically. */
  predicate Higher(a: Item, b: Item) {
    var la, lb := a.span.end - a.span.start, b.span.end - b.span.start;
    a.span.tier < b.span.tier
    || (a.span.tier == b.span.tier && la > lb)
    || (a.span.tier == b.span.tier && la == lb && a.detector < b.detector)
  }

  const BY_PRIORITY: (Item, Item) -> bool := (a: Item, b: Item) => Higher(a, b)
  const BY_START: (Span, Span) -> bool := (a: Span, b: Span) => a.start < b.start

  lemma OrdersAreWeak()
    ensures StrictWeak(BY_PRIORITY) && StrictWeak(BY_START)
  {
  }

  function Tag(spans: seq<Span>, detector: nat): (r: seq<Item>)
    ensures |r| == |spans|
  {
    seq(|spans|, i requires 0 <= i < |spans| => Item(spans[i], detector))
  }

  /** All spans in registration order, starting at a given detector index. */
  function Items(perDetector: seq<seq<Span>>, from: nat): seq<Item> {
    if perDetector == [] then [] else Tag(perDetector[0], from) + Items(perDetector[1..], from + 1)
  }

  predicate Clashes(x: Item, kept: seq<Item>) {
    exists k | k in kept :: Overlap(x.span, k.span)
  }

  /** Best first; a span is accepted unless it overlaps one accepted before. */
  function Greedy(ranked: seq<Item>): (r: seq<Item>)
    ensures forall k | k in r :: k in ranked
  {
    if ranked == [] then []
    else
      var n := |ranked| - 1;
      var kept := Greedy(ranked[..n]);
      if Clashes(ranked[n], kept) then kept else kept + [ranked[n]]
  }

  function Spans(items: seq<Item>): (r: seq<Span>)
    ensures |r| == |items| && forall i | 0 <= i < |r| :: r[i] == items[i].span
  {
    seq(|items|, i requires 0 <= i < |items| => items[i].span)
  }

  /** The accepted spans with their detectors, best first. */
  function Accepted(perDetector: seq<seq<Span>>): seq<Item> {
    Greedy(Sort(BY_PRIORITY, Items(perDetector, 0)))
  }

  function Resolve(perDetector: seq<seq<Span>>): seq<Span> {
    Sort(BY_START, Spans(Accepted(perDetector)))
  }

  // ------------------------------------------------------------ disjointness

  predicate Disjoint(spans: seq<Span>) {
    forall i, j | 0 <= i < j < |spans| :: !Overlap(spans[i], spans[j])
  }

  lemma {:induction false} GreedyDisjoint(ranked: seq<Item>)
    ensures Disjoint(Spans(Greedy(ranked)))
  {
    if ranked != [] {
      var n := |ranked| - 1;
      GreedyDisjoint(ranked[..n]);
      var kept := Greedy(ranked[..n]);
      if !Clashes(ranked[n], kept) {
        forall y | y in Spans(kept) ensures !Overlap(ranked[n].span, y) {
          var i :| 0 <= i < |kept| && kept[i].span == y;
          assert kept[i] in kept;
        }
        DisjointAppend(Spans(kept), ranked[n].span);
        assert Spans(kept + [ranked[n]]) == Spans(kept) + [ranked[n].span];
      }
    }
  }

  lemma DisjointAppend(ys: seq<Span>, x: Span)
    requires Disjoint(ys) && forall y | y in ys :: !Overlap(x, y)
    ensures Disjoint(ys + [x])
  {
    var r := ys + [x];
    forall i, j | 0 <= i < j < |r| ensures !Overlap(r[i], r[j]) {
      if j < |ys| {
        assert !Overlap(ys[i], ys[j]);
      } else {
        assert ys[i] in ys && !Overlap(x, ys[i]);
      }
    }
  }

  lemma DisjointCons(x: Span, ys: seq<Span>)
    requires Disjoint(ys) && forall y | y in ys :: !Overlap(x, y)
    ensures Disjoint([x] + ys)
  {
  }

  /** Sorting disjoint nonempty spans by start makes each end before the next starts. */
  lemma {:induction false} InsertDisjoint(x: Span, ys: seq<Span>)
    requires forall y | y in ys :: !Overlap(x, y)
    requires Disjoint(ys)
    ensures Disjoint(Insert(BY_START, x, ys))
  {
    if ys == [] || BY_START(x, ys[0]) {
      DisjointCons(x, ys);
    } else {
      var rest := ys[1..];
      InsertDisjoint(x, rest);
      forall y | y in Insert(BY_START, x, rest) ensures !Overlap(ys[0], y) {
        if y in rest {
          var m :| 0 <= m < |rest| && rest[m] == y;
          assert !Overlap(ys[0], ys[m + 1]);
        } else {
          assert !Overlap(x, ys[0]);
        }
      }
      DisjointCons(ys[0], Insert(BY_START, x, rest));
    }
  }

  lemma {:induction false} SortDisjoint(xs: seq<Span>)
    requires Disjoint(xs)
    ensures Disjoint(Sort(BY_START, xs))
  {
    if xs != [] {
      var n := |xs| - 1;
      SortDisjoint(xs[..n]);
      InsertDisjoint(xs[n], Sort(BY_START, xs[..n]));
    }
  }

  lemma {:induction false} ItemsFrom(perDetector: seq<seq<Span>>, from: nat)
    ensures forall x | x in Items(perDetector, from) ::
      from <= x.detector < from + |perDetector| && x.span in perDetector[x.detector - from]
  {
    if perDetector != [] {
      ItemsFrom(perDetector[1..], from + 1);
    }
  }

  /** Every resolved span comes from some detector. */
  lemma ResolveFrom(perDetector: seq<seq<Span>>, s: Span)
    requires s in Resolve(perDetector)
    ensures exists d | 0 <= d < |perDetector| :: s in perDetector[d]
  {
    var accepted := Accepted(perDetector);
    ItemsFrom(perDetector, 0);
    var k :| 0 <= k < |accepted| && accepted[k].span == s;
    assert accepted[k] in accepted;
    assert s in perDetector[accepted[k].detector];
  }

  /** The result consists of input spans, each ending no later than the next starts. */
  lemma ResolveDisjointSorted(perDetector: seq<seq<Span>>)
    requires forall d | d in perDetector :: AllValid(d)
    ensures var r := Resolve(perDetector);
      forall i, j | 0 <= i < j < |r| :: r[i].end <= r[j].start
    ensures forall s | s in Resolve(perDetector) ::
      s.Valid() && exists d | 0 <= d < |perDetector| :: s in perDetector[d]
  {
    hide Greedy, Sort, Items;
    var spans, r := Spans(Accepted(perDetector)), Resolve(perDetector);
    forall s | s in r ensures s.Valid() && exists d | 0 <= d < |perDetector| :: s in perDetector[d] {
      ResolveFrom(perDetector, s);
      var d :| 0 <= d < |perDetector| && s in perDetector[d];
      assert AllValid(perDetector[d]);
    }
    GreedyDisjoint(Sort(BY_PRIORITY, Items(perDetector, 0)));
    SortDisjoint(spans);
    OrdersAreWeak();
    SortSorted(BY_START, spans);
    forall i, j | 0 <= i < j < |r| ensures r[i].end <= r[j].start {
      assert r[i] in r && r[j] in r && !Overlap(r[i], r[j]) && !BY_START(r[j], r[i]);
    }
  }

  // ------------------------------------------------------------- maximality

  lemma {:induction false} GreedyDrops(ranked: seq<Item>, p: nat)
    requires p < |ranked|
    ensures ranked[p] in Greedy(ranked)
            || exists q | 0 <= q < p :: ranked[q] in Greedy(ranked) && Overlap(ranked[p].span, ranked[q].span)
  {
    var n := |ranked| - 1;
    var kept := Greedy(ranked[..n]);
    if p < n {
      GreedyDrops(ranked[..n], p);
    } else if Clashes(ranked[n], kept) {
      var k :| k in kept && Overlap(ranked[n].span, k.span);
      assert k in ranked[..n];
      var q :| 0 <= q < n && ranked[q] == k;
    }
  }

  lemma {:induction false} ItemsHave(perDetector: seq<seq<Span>>, from: nat, d: nat, s: Span)
    requires d < |perDetector| && s in perDetector[d]
    ensures Item(s, from + d) in Items(perDetector, from)
  {
    if d > 0 {
      ItemsHave(perDetector[1..], from + 1, d - 1, s);
    } else {
      var i :| 0 <= i < |perDetector[0]| && perDetector[0][i] == s;
      assert Tag(perDetector[0], from)[i] == Item(s, from);
    }
  }

  lemma DroppedItem(perDetector: seq<seq<Span>>, x: Item)
    requires x in Items(perDetector, 0)
    ensures x in Accepted(perDetector)
            || exists k | k in Accepted(perDetector) :: Overlap(x.span, k.span) && !Higher(x, k)
  {
    var ranked := Sort(BY_PRIORITY, Items(perDetector, 0));
    OrdersAreWeak();
    SortSorted(BY_PRIORITY, Items(perDetector, 0));
    var p :| 0 <= p < |ranked| && ranked[p] == x;
    GreedyDrops(ranked, p);
    if x !in Greedy(ranked) {
      var q :| 0 <= q < p && ranked[q] in Greedy(ranked) && Overlap(x.span, ranked[q].span);
      assert !BY_PRIORITY(ranked[p], ranked[q]);
    }
  }

  lemma AcceptedResolved(perDetector: seq<seq<Span>>, x: Item)
    requires x in Accepted(perDetector)
    ensures x.span in Resolve(perDetector)
    ensures x.detector < |perDetector| && x.span in perDetector[x.detector]
  {
    hide Sort, Greedy, Items;
    ItemsFrom(perDetector, 0);
    var accepted := Accepted(perDetector);
    var i :| 0 <= i < |accepted| && accepted[i] == x;
    assert Spans(accepted)[i] == x.span;
    assert x in Items(perDetector, 0) by {
      AcceptedFrom(perDetector, x);
    }
  }

  lemma AcceptedFrom(perDetector: seq<seq<Span>>, x: Item)
    requires x in Accepted(perDetector)
    ensures x in Items(perDetector, 0)
  {
  }

  /** Span k beats span s: they share a character, and k has the lower tier number, or the
      same and more characters, or as many and its detector comes no later. */
  predicate Beats(k: Span, e: nat, s: Span, d: nat) {
    k.start < s.end && s.start < k.end
    && (k.tier < s.tier
        || (k.tier == s.tier && k.end - k.start > s.end - s.start)
        || (k.tier == s.tier && k.end - k.start == s.end - s.start && e <= d))
  }

  /** Every detected span is kept or beaten by a kept one. */
  lemma DroppedForBetter(perDetector: seq<seq<Span>>, d: nat, s: Span)
    requires d < |perDetector| && s in perDetector[d]
    ensures s in Resolve(perDetector)
      || exists e, k | 0 <= e < |perDetector| && k in perDetector[e] ::
           k in Resolve(perDetector) && Beats(k, e, s, d)
  {
    hide Accepted, Resolve, Items;
    var x := Item(s, d);
    ItemsHave(perDetector, 0, d, s);
    DroppedItem(perDetector, x);
    if x in Accepted(perDetector) {
      AcceptedResolved(perDetector, x);
    } else {
      var k :| k in Accepted(perDetector) && Overlap(x.span, k.span) && !Higher(x, k);
      AcceptedResolved(perDetector, k);
    }
  }

  /** A selection in which a span is chosen exactly when no better-ranked chosen span
      overlaps it. */
  ghost predicate IsKernel(ranked: seq<Item>, chosen: seq<bool>) {
    |chosen| == |ranked|
    && forall i | 0 <= i < |ranked| ::
         chosen[i] <==> !exists j | 0 <= j < i :: chosen[j] && Overlap(ranked[i].span, ranked[j].span)
  }

  function Select(ranked: seq<Item>, chosen: seq<bool>): (r: seq<Item>)
    requires |chosen| == |ranked|
    ensures forall k :: k in r <==> exists i | 0 <= i < |ranked| :: chosen[i] && ranked[i] == k
  {
    if ranked == [] then []
    else
      var n := |ranked| - 1;
      Select(ranked[..n], chosen[..n]) + if chosen[n] then [ranked[n]] else []
  }

  lemma ClashesSelected(ranked: seq<Item>, chosen: seq<bool>, x: Item)
    requires |chosen| == |ranked|
    ensures Clashes(x, Select(ranked, chosen))
            <==> exists j | 0 <= j < |ranked| :: chosen[j] && Overlap(x.span, ranked[j].span)
  {
    var kept := Select(ranked, chosen);
    forall j | 0 <= j < |ranked| && chosen[j] && Overlap(x.span, ranked[j].span) ensures Clashes(x, kept) {
      assert ranked[j] in kept;
    }
    if Clashes(x, kept) {
      var k :| k in kept && Overlap(x.span, k.span);
      var j :| 0 <= j < |ranked| && chosen[j] && ranked[j] == k;
      assert chosen[j] && Overlap(x.span, ranked[j].span);
    }
  }

  lemma KernelPrefix(ranked: seq<Item>, chosen: seq<bool>, n: nat)
    requires IsKernel(ranked, chosen) && n <= |ranked|
    ensures IsKernel(ranked[..n], chosen[..n])
  {
    var r, c := ranked[..n], chosen[..n];
    forall i | 0 <= i < n
      ensures c[i] <==> !exists j | 0 <= j < i :: c[j] && Overlap(r[i].span, r[j].span)
    {
      assert chosen[i] <==> !exists j | 0 <= j < i :: chosen[j] && Overlap(ranked[i].span, ranked[j].span);
      assert forall j | 0 <= j < i :: c[j] == chosen[j] && r[j] == ranked[j];
    }
  }

  /** There is only one such selection, and the greedy pass computes it. */
  lemma {:induction false} GreedyIsTheKernel(ranked: seq<Item>, chosen: seq<bool>)
    requires IsKernel(ranked, chosen)
    ensures Greedy(ranked) == Select(ranked, chosen)
  {
    if ranked != [] {
      var n := |ranked| - 1;
      KernelPrefix(ranked, chosen, n);
      GreedyIsTheKernel(ranked[..n], chosen[..n]);
      ClashesSelected(ranked[..n], chosen[..n], ranked[n]);
      KernelLast(ranked, chosen);
      hide IsKernel, Clashes;
    }
  }

  lemma KernelLast(ranked: seq<Item>, chosen: seq<bool>)
    requires IsKernel(ranked, chosen) && ranked != []
    ensures var n := |ranked| - 1;
      chosen[n] <==> !exists j | 0 <= j < n :: chosen[..n][j] && Overlap(ranked[n].span, ranked[..n][j].span)
  {
    var n := |ranked| - 1;
    assert chosen[n] <==> !exists j | 0 <= j < n :: chosen[j] && Overlap(ranked[n].span, ranked[j].span);
    assert forall j | 0 <= j < n :: chosen[..n][j] == chosen[j] && ranked[..n][j] == ranked[j];
  }

  // ---------------------------------------------------------- tier independence

  const TIER1_ITEM: Item -> bool := (x: Item) => x.span.tier == 1
  const TIER1: Span -> bool := (s: Span) => s.tier == 1

  /** Each detector's own output reduced to its Tier-1 spans. */
  function Tier1Only(perDetector: seq<seq<Span>>): (r: seq<seq<Span>>)
    ensures |r| == |perDetector|
  {
    seq(|perDetector|, i requires 0 <= i < |perDetector| => Filter(TIER1, perDetector[i]))
  }

  lemma {:induction false} FilterTag(spans: seq<Span>, detector: nat)
    ensures Filter(TIER1_ITEM, Tag(spans, detector)) == Tag(Filter(TIER1, spans), detector)
  {
    if spans != [] {
      FilterTag(spans[1..], detector);
      assert Tag(spans, detector)[1..] == Tag(spans[1..], detector);
    }
  }

  lemma {:induction false} FilterItems(perDetector: seq<seq<Span>>, from: nat)
    ensures Filter(TIER1_ITEM, Items(perDetector, from)) == Items(Tier1Only(perDetector), from)
  {
    if perDetector != [] {
      FilterAppend(TIER1_ITEM, Tag(perDetector[0], from), Items(perDetector[1..], from + 1));
      FilterTag(perDetector[0], from);
      FilterItems(perDetector[1..], from + 1);
      assert Tier1Only(perDetector)[1..] == Tier1Only(perDetector[1..]);
    }
  }

  lemma {:induction false} FilterAll<T(!new)>(p: T -> bool, xs: seq<T>)
    requires forall x | x in xs :: p(x)
    ensures Filter(p, xs) == xs
  {
    if xs != [] {
      FilterAll(p, xs[1..]);
    }
  }

  /** Tier-1 spans rank before all others, so what comes after cannot disturb them. */
  lemma {:induction false} FilterGreedy(ranked: seq<Item>)
    requires Sorted(BY_PRIORITY, ranked) && forall x | x in ranked :: x.span.Valid()
    ensures Filter(TIER1_ITEM, Greedy(ranked)) == Greedy(Filter(TIER1_ITEM, ranked))
  {
    if ranked != [] {
      var n := |ranked| - 1;
      var x, before := ranked[n], ranked[..n];
      assert ranked == before + [x];
      if x.span.tier == 1 {
        forall y | y in ranked ensures TIER1_ITEM(y) {
          var i :| 0 <= i < |ranked| && ranked[i] == y;
          assert y.span.Valid();
          if i < n {
            assert !BY_PRIORITY(ranked[n], ranked[i]);
          }
        }
        FilterAll(TIER1_ITEM, ranked);
        FilterAll(TIER1_ITEM, Greedy(ranked));
      } else {
        FilterGreedy(before);
        FilterAppend(TIER1_ITEM, before, [x]);
        FilterAppend(TIER1_ITEM, Greedy(before), [x]);
        FilterOne(TIER1_ITEM, x);
        assert Filter(TIER1_ITEM, before) + [] == Filter(TIER1_ITEM, before);
        assert Filter(TIER1_ITEM, Greedy(before)) + [] == Filter(TIER1_ITEM, Greedy(before));
      }
    }
  }

  lemma {:induction false} FilterSpans(items: seq<Item>)
    ensures Filter(TIER1, Spans(items)) == Spans(Filter(TIER1_ITEM, items))
  {
    if items != [] {
      FilterSpans(items[1..]);
      assert Spans(items)[1..] == Spans(items[1..]);
    }
  }

  /** The Tier-1 part of the result is the result for the Tier-1 output alone. */
  lemma TierOneIndependent(perDetector: seq<seq<Span>>)
    requires forall d | d in perDetector :: AllValid(d)
    ensures Filter(TIER1, Resolve(perDetector)) == Resolve(Tier1Only(perDetector))
  {
    var items := Items(perDetector, 0);
    var ranked := Sort(BY_PRIORITY, items);
    OrdersAreWeak();
    SortSorted(BY_PRIORITY, items);
    FilterSort(BY_START, TIER1, Spans(Greedy(ranked)));
    FilterSpans(Greedy(ranked));
    ItemsFrom(perDetector, 0);
    forall x | x in ranked ensures x.span.Valid() {
      assert perDetector[x.detector] in perDetector;
    }
    FilterGreedy(ranked);
    FilterSort(BY_PRIORITY, TIER1_ITEM, items);
    FilterItems(perDetector, 0);
  }

  // -------------------------------------------------------------------- the code

  /** resolve: index, rank, accept in a loop, sort by start. */
  method ResolveLoop(perDetector: seq<seq<Span>>) returns (r: seq<Span>)
    ensures r == Resolve(perDetector)
  {
    var ranked := Sort(BY_PRIORITY, Items(perDetector, 0));
    var accepted: seq<Item> := [];
    for i := 0 to |ranked|
      invariant accepted == Greedy(ranked[..i])
    {
      var clash := false;
      for k := 0 to |accepted|
        invariant clash <==> Clashes(ranked[i], accepted[..k])
      {
        clash := clash || Overlap(ranked[i].span, accepted[k].span);
        assert accepted[..k + 1] == accepted[..k] + [accepted[k]];
      }
      assert accepted[..|accepted|] == accepted;
      if !clash {
        accepted := accepted + [ranked[i]];
      }
      assert ranked[..i + 1][..i] == ranked[..i];
    }
    assert ranked[..|ranked|] == ranked;
    r := Sort(BY_START, Spans(accepted));
  }
}
