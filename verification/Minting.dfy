/** What every surrogate of a region comes from, step by step from the last span to the
    first (src/pipeline/sanitize.py:142-181, src/session/session.py:101-163,
    src/session/candidates.py:25-29). */
module Minting {
  import opened Prelude
  import opened Engine
  import opened Session
  import opened Precedence
  import opened Cascade
  import opened Sanitize

  /** Surrogate s is the first in shuffled order that stands for no value yet. */
  ghost predicate IsFirstFree(shuffled: seq<string>, taken: map<string, string>, s: string) {
    exists i | 0 <= i < |shuffled| ::
      shuffled[i] == s && s !in taken && forall j | 0 <= j < i :: shuffled[j] in taken
  }

  /** From state a, the value at r gets surrogate s, which leads to state b. A known
      surrogate stays; a name keeps its surrogate or takes the first free one of the
      shuffled pool of its own type; anything else is encrypted. */
  ghost predicate Mints(ctx: Context, a: State, r: ResolvedSpan, value: string, s: string, b: State) {
    var e := r.span.entityType;
    if r.isIngressSurrogate then s == value && b == a
    else if e == Person || e == Org || e == Address then
      if value in a.nameForward then s == a.nameForward[value] && b == a
      else
        var pool := if e == Person then ctx.pools.person else if e == Org then ctx.pools.org else ctx.pools.address;
        IsFirstFree(ctx.rng(r.span.start, pool), a.nameReverse, s)
        && b == State(a.lastAccessedAt, a.known[s := KnownSurrogate(e, ctx.now)],
                      a.nameForward[value := s], a.nameReverse[s := value])
    else
      Encrypt(ctx.ciph, e, value) == Ok(s)
      && b == State(a.lastAccessedAt, a.known[s := KnownSurrogate(e, ctx.now)], a.nameForward, a.nameReverse)
  }

  /** From state a the value at r gets none: its pool is exhausted, or it is not of the
      domain it was taken for. */
  ghost predicate Fails(ctx: Context, a: State, r: ResolvedSpan, value: string, error: Error) {
    var e := r.span.entityType;
    !r.isIngressSurrogate
    && if e == Person || e == Org || e == Address then
         var pool := if e == Person then ctx.pools.person else if e == Org then ctx.pools.org else ctx.pools.address;
         value !in a.nameForward && error == NameListExhaustedError
         && forall c | c in ctx.rng(r.span.start, pool) :: c in a.nameReverse
       else Encrypt(ctx.ciph, e, value) == Err(error)
  }

  lemma {:induction false} FirstFreeIs(shuffled: seq<string>, taken: map<string, string>)
    ensures FirstFree(shuffled, taken).Some? ==> IsFirstFree(shuffled, taken, FirstFree(shuffled, taken).value)
  {
    if shuffled != [] && shuffled[0] in taken {
      FirstFreeIs(shuffled[1..], taken);
      var r := FirstFree(shuffled[1..], taken);
      if r.Some? {
        var i :| 0 <= i < |shuffled[1..]| && shuffled[1..][i] == r.value
                 && forall j | 0 <= j < i :: shuffled[1..][j] in taken;
        assert shuffled[i + 1] == r.value;
        forall j | 0 <= j < i + 1 ensures shuffled[j] in taken {
          assert j > 0 ==> shuffled[1..][j - 1] == shuffled[j];
        }
      }
    }
  }

  lemma MintSpanIs(ctx: Context, a: State, text: string, r: ResolvedSpan)
    requires r.span.start < r.span.end <= |text|
    ensures var (b, s) := ctx.MintSpan(a, text, r);
      var value := text[r.span.start..r.span.end];
      if s.Ok? then Mints(ctx, a, r, value, s.value, b) else b == a && Fails(ctx, a, r, value, s.error)
  {
    hide Encrypt, IsFirstFree;
    var e := r.span.entityType;
    if e in NAME_MAP_ENTITY_TYPES {
      FirstFreeIs(ctx.rng(r.span.start, ctx.pools.Candidates(e)), a.nameReverse);
    }
  }

  /** States and surrogates of a loop over the spans from the last to the first. */
  ghost predicate Steps(ctx: Context, text: string, spans: seq<ResolvedSpan>, ss: seq<string>, states: seq<State>)
    requires InOrder(text, spans)
  {
    |ss| == |spans| && |states| == |spans| + 1
    && forall k | 0 <= k < |spans| ::
         Mints(ctx, states[k + 1], spans[k], text[spans[k].span.start..spans[k].span.end], ss[k], states[k])
  }

  ghost predicate Between(ctx: Context, text: string, spans: seq<ResolvedSpan>, ss: seq<string>, a: State, b: State)
    requires InOrder(text, spans)
  {
    exists states :: Steps(ctx, text, spans, ss, states) && states[|spans|] == a && states[0] == b
  }

  ghost predicate Reaches(ctx: Context, text: string, spans: seq<ResolvedSpan>, a: State, b: State) {
    InOrder(text, spans) && exists ss :: Between(ctx, text, spans, ss, a, b)
  }

  /** The loop stops with this error at span k, all later spans having got their surrogates. */
  ghost predicate StopsAt(ctx: Context, text: string, spans: seq<ResolvedSpan>, k: nat,
                          a: State, b: State, error: Error)
    requires InOrder(text, spans)
  {
    k < |spans| && Reaches(ctx, text, spans[k + 1..], a, b)
    && Fails(ctx, b, spans[k], text[spans[k].span.start..spans[k].span.end], error)
  }

  lemma StepsLast(ctx: Context, text: string, spans: seq<ResolvedSpan>, n: nat, ss: seq<string>, s: string,
                  a: State, mid: State, b: State)
    requires InOrder(text, spans) && |spans| == n + 1 && InOrder(text, spans[..n])
    requires Mints(ctx, a, spans[n], text[spans[n].span.start..spans[n].span.end], s, mid)
    requires Between(ctx, text, spans[..n], ss, mid, b)
    ensures Between(ctx, text, spans, ss + [s], a, b)
  {
    hide Mints;
    var states :| Steps(ctx, text, spans[..n], ss, states) && states[n] == mid && states[0] == b;
    var all := states + [a];
    forall k | 0 <= k < |spans|
      ensures Mints(ctx, all[k + 1], spans[k], text[spans[k].span.start..spans[k].span.end], (ss + [s])[k], all[k])
    {
      if k < n {
        assert spans[..n][k] == spans[k];
      }
    }
    assert Steps(ctx, text, spans, ss + [s], all);
  }

  lemma StepsNone(ctx: Context, text: string, a: State)
    ensures InOrder(text, []) && Between(ctx, text, [], [], a, a)
  {
    assert Steps(ctx, text, [], [], [a]);
  }

  lemma StopsLater(ctx: Context, text: string, spans: seq<ResolvedSpan>, n: nat, k: nat, s: string,
                   a: State, mid: State, b: State, error: Error)
    requires InOrder(text, spans) && |spans| == n + 1 && InOrder(text, spans[..n])
    requires Mints(ctx, a, spans[n], text[spans[n].span.start..spans[n].span.end], s, mid)
    requires StopsAt(ctx, text, spans[..n], k, mid, b, error)
    ensures StopsAt(ctx, text, spans, k, a, b, error)
  {
    hide Mints, InOrder, Between, Fails;
    Slices(text, spans);
    var tail := spans[k + 1..];
    var m := |tail| - 1;
    assert spans[..n][k + 1..] == tail[..m] && tail[m] == spans[n];
    var ss :| Between(ctx, text, spans[..n][k + 1..], ss, mid, b);
    StepsLast(ctx, text, tail, m, ss, s, a, mid, b);
  }

  /** All surrogates of a region are minted so, one state after the other; and when one
      cannot be, the session is left as the later spans made it. */
  lemma {:induction false} RegionMints(ctx: Context, st: State, text: string, spans: seq<ResolvedSpan>)
    requires InOrder(text, spans)
    ensures var (after, out) := ctx.MintAll(st, text, spans);
      if out.Ok? then Between(ctx, text, spans, out.value, st, after)
      else exists k :: StopsAt(ctx, text, spans, k, st, after, out.error)
    decreases |spans|
  {
    hide Mints, Fails, Between, StopsAt, Context.MintSpan, InOrder;
    if spans == [] {
      StepsNone(ctx, text, st);
    } else {
      var n := |spans| - 1;
      InOrderSlice(text, spans, 0, n);
      assert spans[0..n] == spans[..n];
      SpanAt(text, spans, n);
      MintSpanIs(ctx, st, text, spans[n]);
      var (mid, s) := ctx.MintSpan(st, text, spans[n]);
      if s.Ok? {
        RegionMints(ctx, mid, text, spans[..n]);
        var (after, out) := ctx.MintAll(mid, text, spans[..n]);
        if out.Ok? {
          StepsLast(ctx, text, spans, n, out.value, s.value, st, mid, after);
        } else {
          var k :| StopsAt(ctx, text, spans[..n], k, mid, after, out.error);
          StopsLater(ctx, text, spans, n, k, s.value, st, mid, after, out.error);
        }
      } else {
        StopsFirst(ctx, text, spans, n, st, s.error);
      }
    }
  }

  lemma StopsFirst(ctx: Context, text: string, spans: seq<ResolvedSpan>, n: nat, a: State, error: Error)
    requires InOrder(text, spans) && |spans| == n + 1
    requires Fails(ctx, a, spans[n], text[spans[n].span.start..spans[n].span.end], error)
    ensures StopsAt(ctx, text, spans, n, a, a, error)
  {
    hide Fails;
    StepsNone(ctx, text, a);
    assert spans[n + 1..] == [];
  }
}
