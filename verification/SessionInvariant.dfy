/** What a session keeps over every sanitize call
    (src/pipeline/sanitize.py:142-181 with src/session/session.py). */
module SessionInvariant {
  import opened Prelude
  import opened Substitution
  import opened SlidingWindow
  import opened Engine
  import opened Session
  import opened Precedence
  import opened Cascade
  import opened Sanitize
  import opened Rehydration
  import Ff1

  // ------------------------------------------------------ session invariant

  /** Every known surrogate is nonempty, fits the window, and resolves. */
  ghost predicate Minted(ciph: Ff1.Cipher, lookahead: nat, st: State) {
    Bijective(st) && NamesResolve(st)
    && (forall s | s in st.known :: 0 < |s| <= lookahead)
    && forall s | s in st.known && st.known[s].entityType !in NAME_MAP_ENTITY_TYPES ::
         Decrypt(ciph, st.known[s].entityType, s).Ok?
  }

  lemma MintedResolves(ciph: Ff1.Cipher, lookahead: nat, st: State)
    requires Minted(ciph, lookahead, st)
    ensures AllResolve(ciph, st) && "" !in TableOf(ciph, st) && Covers(lookahead, TableOf(ciph, st))
  {
    hide Decrypt;
    forall s | s in st.known ensures ResolveRealValue(ciph, st, s).Ok? {
    }
    var m := TableOf(ciph, st);
    assert forall s | s in m :: s in m.Keys;
  }

  /** The surrogate of a value: an FF1 output, or the name the reverse map sends back. */
  ghost predicate Backed(ciph: Ff1.Cipher, st: State, e: EntityType, value: string, s: string) {
    s in st.known
    && if e in NAME_MAP_ENTITY_TYPES then s in st.nameReverse && st.nameReverse[s] == value
       else Encrypt(ciph, e, value) == Ok(s)
  }

  /** Later session states know at least as much. */
  ghost predicate Grows(a: State, b: State) {
    Extends(a.nameForward, b.nameForward) && Extends(a.nameReverse, b.nameReverse) && a.known.Keys <= b.known.Keys
  }

  lemma PoolBound(pools: Pools, e: EntityType, c: string)
    requires pools.Valid() && e in NAME_MAP_ENTITY_TYPES && c in pools.Candidates(e)
    ensures 0 < |c| <= RequiredLookahead(pools)
  {
    assert c in pools.person + pools.org + pools.address;
  }

  /** Only the candidate allocated now is new to the registry. */
  lemma AllocatedKeeps(ciph: Ff1.Cipher, lookahead: nat, st: State, value: string, e: EntityType,
                       shuffled: seq<string>, now: int)
    requires Minted(ciph, lookahead, st) && e in NAME_MAP_ENTITY_TYPES
    requires forall c | c in shuffled :: 0 < |c| <= lookahead
    ensures var a := Allocated(st, value, e, shuffled, now);
      a.Ok? ==> Minted(ciph, lookahead, a.value.0) && Grows(st, a.value.0)
                && Backed(ciph, a.value.0, e, value, a.value.1)
  {
    hide Decrypt, Encrypt, FirstFree, Bijective, NamesResolve;
    StepKeeps(st, Allocate(value, e, shuffled, now));
    var a := Allocated(st, value, e, shuffled, now);
    if a.Ok? && value !in st.nameForward {
      assert a.value.1 in shuffled by { assert FirstFree(shuffled, st.nameReverse).Some?; }
    }
  }

  lemma MintNameKeeps(ctx: Context, st: State, e: EntityType, value: string, at: nat)
    requires ctx.Valid() && Minted(ctx.ciph, RequiredLookahead(ctx.pools), st) && e in NAME_MAP_ENTITY_TYPES
    ensures var (st', s) := ctx.Mint(st, e, value, at);
      Minted(ctx.ciph, RequiredLookahead(ctx.pools), st') && Grows(st, st')
      && (s.Ok? ==> Backed(ctx.ciph, st', e, value, s.value))
  {
    hide Minted, Grows, Backed, Allocated, RequiredLookahead;
    var pool := ctx.pools.Candidates(e);
    var shuffled := ctx.rng(at, pool);
    forall c | c in shuffled ensures 0 < |c| <= RequiredLookahead(ctx.pools) {
      assert c in multiset(shuffled) && c in multiset(pool);
      PoolBound(ctx.pools, e, c);
    }
    GrowsSelf(st);
    AllocatedKeeps(ctx.ciph, RequiredLookahead(ctx.pools), st, value, e, shuffled, ctx.now);
  }

  lemma MintStructuredKeeps(ctx: Context, st: State, e: EntityType, value: string, at: nat)
    requires ctx.Valid() && Minted(ctx.ciph, RequiredLookahead(ctx.pools), st) && e !in NAME_MAP_ENTITY_TYPES
    ensures var (st', s) := ctx.Mint(st, e, value, at);
      Minted(ctx.ciph, RequiredLookahead(ctx.pools), st') && Grows(st, st')
      && (s.Ok? ==> Backed(ctx.ciph, st', e, value, s.value))
  {
    hide Decrypt, Encrypt;
    var encrypted := Encrypt(ctx.ciph, e, value);
    if encrypted.Ok? {
      Engine.RoundTrip(ctx.ciph, e, value);
      StepKeeps(st, Record(encrypted.value, e, ctx.now));
    }
  }

  lemma MintSpanKeeps(ctx: Context, st: State, text: string, r: ResolvedSpan)
    requires ctx.Valid() && Minted(ctx.ciph, RequiredLookahead(ctx.pools), st)
    requires r.span.start < r.span.end <= |text|
    ensures var (st', s) := ctx.MintSpan(st, text, r);
      Minted(ctx.ciph, RequiredLookahead(ctx.pools), st') && Grows(st, st')
      && (s.Ok? ==> SpanDone(ctx.ciph, st', text, r, s.value))
  {
    hide Minted, Backed, Grows, RequiredLookahead, Context.Mint, Context.Valid;
    GrowsSelf(st);
    var value := text[r.span.start..r.span.end];
    if !r.isIngressSurrogate {
      if r.span.entityType in NAME_MAP_ENTITY_TYPES {
        MintNameKeeps(ctx, st, r.span.entityType, value, r.span.start);
      } else {
        MintStructuredKeeps(ctx, st, r.span.entityType, value, r.span.start);
      }
    }
  }

  /** What a span's surrogate is good for. */
  ghost predicate SpanDone(ciph: Ff1.Cipher, st: State, text: string, r: ResolvedSpan, s: string)
    requires r.span.start < r.span.end <= |text|
  {
    var value := text[r.span.start..r.span.end];
    if r.isIngressSurrogate then s == value else Backed(ciph, st, r.span.entityType, value, s)
  }

  lemma DoneStays(ciph: Ff1.Cipher, a: State, b: State, text: string, r: ResolvedSpan, s: string)
    requires r.span.start < r.span.end <= |text| && SpanDone(ciph, a, text, r, s) && Grows(a, b)
    ensures SpanDone(ciph, b, text, r, s)
  {
    hide Encrypt;
  }

  lemma GrowsTrans(a: State, b: State, c: State)
    requires Grows(a, b) && Grows(b, c)
    ensures Grows(a, c)
  {
  }

  /** Whatever a sanitize call detects, and even when it fails half way, the session keeps
      its invariant and only learns; on success every span has its surrogate. */
  lemma {:induction false} MintAllKeeps(ctx: Context, st: State, text: string, spans: seq<ResolvedSpan>)
    requires ctx.Valid() && Minted(ctx.ciph, RequiredLookahead(ctx.pools), st) && InOrder(text, spans)
    ensures var (st', ss) := ctx.MintAll(st, text, spans);
      Minted(ctx.ciph, RequiredLookahead(ctx.pools), st') && Grows(st, st')
      && (ss.Ok? ==> forall i | 0 <= i < |spans| :: SpanDone(ctx.ciph, st', text, spans[i], ss.value[i]))
    decreases |spans|
  {
    hide Minted, Grows, SpanDone, Context.MintSpan;
    if spans == [] {
      GrowsSelf(st);
    } else {
      var n := |spans| - 1;
      InOrderSlice(text, spans, 0, n);
      assert spans[0..n] == spans[..n];
      MintSpanKeeps(ctx, st, text, spans[n]);
      var (st1, s) := ctx.MintSpan(st, text, spans[n]);
      if s.Ok? {
        MintAllKeeps(ctx, st1, text, spans[..n]);
        var (st2, rest) := ctx.MintAll(st1, text, spans[..n]);
        GrowsTrans(st, st1, st2);
        DoneStays(ctx.ciph, st1, st2, text, spans[n], s.value);
      }
    }
  }

  lemma GrowsSelf(st: State)
    ensures Grows(st, st)
  {
  }

  /** One request region after another, on one session, each with its own context. */
  datatype Call = Call(ctx: Context, text: string, spans: seq<ResolvedSpan>)

  ghost predicate LegalCall(ciph: Ff1.Cipher, pools: Pools, c: Call) {
    c.ctx.ciph == ciph && c.ctx.pools == pools && c.ctx.Valid() && InOrder(c.text, c.spans)
  }

  ghost predicate LegalCalls(ciph: Ff1.Cipher, pools: Pools, calls: seq<Call>) {
    forall c | c in calls :: LegalCall(ciph, pools, c)
  }

  ghost function AfterCalls(ciph: Ff1.Cipher, pools: Pools, st: State, calls: seq<Call>): State
    requires LegalCalls(ciph, pools, calls)
  {
    if calls == [] then st
    else
      var c := calls[|calls| - 1];
      assert c in calls;
      c.ctx.MintAll(AfterCalls(ciph, pools, st, calls[..|calls| - 1]), c.text, c.spans).0
  }

  /** Whatever is sanitized, the session keeps its invariant and only learns. */
  lemma {:induction false} AfterCallsKeeps(ciph: Ff1.Cipher, pools: Pools, st: State, calls: seq<Call>)
    requires LegalCalls(ciph, pools, calls) && Minted(ciph, RequiredLookahead(pools), st)
    ensures Minted(ciph, RequiredLookahead(pools), AfterCalls(ciph, pools, st, calls))
    ensures Grows(st, AfterCalls(ciph, pools, st, calls))
  {
    hide Minted, Grows, SpanDone, Context.MintAll, RequiredLookahead;
    GrowsSelf(st);
    if calls != [] {
      var n := |calls| - 1;
      var c := calls[n];
      assert c in calls;
      AfterCallsKeeps(ciph, pools, st, calls[..n]);
      var before := AfterCalls(ciph, pools, st, calls[..n]);
      MintAllKeeps(c.ctx, before, c.text, c.spans);
      GrowsTrans(st, before, AfterCalls(ciph, pools, st, calls));
    }
  }

  lemma NewMinted(ciph: Ff1.Cipher, lookahead: nat, createdAt: int)
    ensures Minted(ciph, lookahead, New(createdAt))
  {
    hide Decrypt;
  }

  /** In every session state reachable from a fresh session by sanitizing, no rehydration
      raises, and every known surrogate fits the window's lookahead. */
  lemma ReachableMinted(ciph: Ff1.Cipher, pools: Pools, createdAt: int, calls: seq<Call>)
    requires LegalCalls(ciph, pools, calls)
    ensures var st := AfterCalls(ciph, pools, New(createdAt), calls);
      AllResolve(ciph, st) && Covers(RequiredLookahead(pools), TableOf(ciph, st))
      && forall text :: Rehydrate(ciph, st, text) == Ok(Sub(TableOf(ciph, st), text))
  {
    hide AllResolve, Covers, Rehydrate, Sub, ResolveRealValue, AfterCalls, Minted;
    var st := AfterCalls(ciph, pools, New(createdAt), calls);
    NewMinted(ciph, RequiredLookahead(pools), createdAt);
    AfterCallsKeeps(ciph, pools, New(createdAt), calls);
    MintedResolves(ciph, RequiredLookahead(pools), st);
    forall text ensures Rehydrate(ciph, st, text) == Ok(Sub(TableOf(ciph, st), text)) {
      RehydrateIsSub(ciph, st, text);
    }
  }
}
