/** The request path for one text region: mint surrogates, splice them in from right to
    left (src/pipeline/sanitize.py:114-181, src/session/candidates.py). */
module Sanitize {
  import opened Prelude
  import opened Engine
  import opened Session
  import opened Precedence
  import opened Cascade
  import Ff1

  /** The candidate pools of the three name-map types. */
  datatype Pools = Pools(person: seq<string>, org: seq<string>, address: seq<string>) {
    function Candidates(e: EntityType): seq<string>
      requires e in NAME_MAP_ENTITY_TYPES
    {
      if e == Person then person else if e == Org then org else address
    }

    /** No pool offers the empty string. */
    predicate Valid() {
      "" !in person && "" !in org && "" !in address
    }

    function MaxCandidateLength(): nat {
      Longest(person + org + address)
    }
  }

  function Longest(ss: seq<string>): (n: nat)
    ensures forall s | s in ss :: |s| <= n
    ensures n == 0 || exists s :: s in ss && |s| == n
  {
    if ss == [] then 0
    else
      var rest := Longest(ss[1..]);
      assert ss == [ss[0]] + ss[1..];
      if |ss[0]| > rest then |ss[0]| else rest
  }

  /** REQUIRED_WINDOW_LOOKAHEAD. */
  function RequiredLookahead(pools: Pools): nat {
    var n := pools.MaxCandidateLength();
    if MAX_REGISTERED_SURROGATE_LENGTH > n then MAX_REGISTERED_SURROGATE_LENGTH else n
  }

  /** The lookahead is the longest of all surrogates there can be, and no longer. */
  lemma RequiredLookaheadIs(pools: Pools)
    ensures RequiredLookahead(pools) >= 19
    ensures forall c | c in pools.person || c in pools.org || c in pools.address :: |c| <= RequiredLookahead(pools)
    ensures var n := RequiredLookahead(pools);
      n == 19 || exists c :: (c in pools.person || c in pools.org || c in pools.address) && |c| == n
  {
    var all := pools.person + pools.org + pools.address;
    assert forall c :: c in all <==> c in pools.person || c in pools.org || c in pools.address;
  }

  /** What a call is given: key, pools, random generator, time. */
  datatype Context = Context(ciph: Ff1.Cipher, pools: Pools, rng: (nat, seq<string>) -> seq<string>, now: int) {
    /** The generator only permutes. */
    ghost predicate Valid() {
      pools.Valid() && forall k, s :: multiset(rng(k, s)) == multiset(s)
    }

    /** A surrogate for one newly detected value, recorded in the session. */
    function Mint(st: State, e: EntityType, value: string, at: nat): (State, Result<string>) {
      if e in NAME_MAP_ENTITY_TYPES then
        match Allocated(st, value, e, rng(at, pools.Candidates(e)), now)
        case Ok((st', s)) => (st', Ok(s))
        case Err(error) => (st, Err(error))
      else
        match Encrypt(ciph, e, value)
        case Ok(s) => (Recorded(st, s, e, now), Ok(s))
        case Err(error) => (st, Err(error))
    }

    /** An ingress surrogate stands for itself. */
    function MintSpan(st: State, text: string, r: ResolvedSpan): (State, Result<string>)
      requires r.span.start < r.span.end <= |text|
    {
      var value := text[r.span.start..r.span.end];
      if r.isIngressSurrogate then (st, Ok(value)) else Mint(st, r.span.entityType, value, r.span.start)
    }

    /** Surrogates for all spans, the last span first; the first failure stops the loop. */
    function MintAll(st: State, text: string, spans: seq<ResolvedSpan>): (r: (State, Result<seq<string>>))
      requires InOrder(text, spans)
      ensures r.1.Ok? ==> |r.1.value| == |spans|
      decreases |spans|
    {
      if spans == [] then (st, Ok([]))
      else
        var n := |spans| - 1;
        InOrderSlice(text, spans, 0, n);
        var (st1, s) := MintSpan(st, text, spans[n]);
        if s.Err? then (st1, Err(s.error))
        else
          var (st2, rest) := MintAll(st1, text, spans[..n]);
          (st2, if rest.Ok? then Ok(rest.value + [s.value]) else rest)
    }

    /** The session calls made for one newly detected span. */
    method MintOne(session: Session, e: EntityType, value: string, at: nat) returns (r: Result<string>)
      modifies session
      ensures (session.Value(), r) == Mint(old(session.Value()), e, value, at)
    {
      if e in NAME_MAP_ENTITY_TYPES {
        r := session.AllocateOrLookupName(value, e, pools.Candidates(e), s => rng(at, s), now);
      } else {
        r := Encrypt(ciph, e, value);
        if r.Ok? {
          session.RecordSurrogate(r.value, e, now);
        }
      }
    }

    /** One turn of the loop, on the specification. */
    lemma MintAllStep(st: State, text: string, spans: seq<ResolvedSpan>, k: nat, minted: seq<string>)
      requires InOrder(text, spans) && k < |spans| && InOrder(text, spans[..k]) && InOrder(text, spans[..k + 1])
      ensures var (st1, s) := MintSpan(st, text, spans[k]);
        var whole := MintAll(st, text, spans[..k + 1]);
        if s.Err? then whole == (st1, Err(s.error))
        else var (st2, rest) := MintAll(st1, text, spans[..k]);
          whole.0 == st2
          && Then(whole.1, minted) == Then(rest, [s.value] + minted)
    {
      hide MintSpan;
      assert spans[..k + 1][..k] == spans[..k];
      var (st1, s) := MintSpan(st, text, spans[k]);
      if s.Ok? {
        var rest := MintAll(st1, text, spans[..k]).1;
        if rest.Ok? {
          assert rest.value + [s.value] + minted == rest.value + ([s.value] + minted);
        }
      }
    }

    /** The loop of _sanitize_region. */
    method SanitizeRegion(session: Session, text: string, spans: seq<ResolvedSpan>) returns (r: Result<Option<string>>)
      requires InOrder(text, spans)
      modifies session
      ensures var (st', surrogates) := MintAll(old(session.Value()), text, spans);
        session.Value() == st'
        && r == (match surrogates
                 case Ok(ss) => Ok(if Changed(spans) then Some(Splice(text, spans, ss, 0)) else None)
                 case Err(e) => Err(e))
    {
      hide *;
      var newText, changed := text, false;
      ghost var minted: seq<string> := [];
      ghost var start := session.Value();
      Slices(text, spans);
      SpliceNothing(text, spans);
      ThenNothing(MintAll(start, text, spans).1);
      for k := |spans| downto 0
        invariant |minted| == |spans| - k
        invariant InOrder(text, spans[k..]) && newText == Splice(text, spans[k..], minted, 0)
        invariant changed == Changed(spans[k..])
        invariant InOrder(text, spans[..k])
        invariant MintAll(start, text, spans).0 == MintAll(session.Value(), text, spans[..k]).0
        invariant MintAll(start, text, spans).1 == Then(MintAll(session.Value(), text, spans[..k]).1, minted)
      {
        ghost var before := session.Value();
        Slices(text, spans);
        MintAllStep(before, text, spans, k, minted);
        SpanAt(text, spans, k);
        MintSpanIs(before, text, spans[k]);
        ChangedCons(spans, k);
        var span := spans[k].span;
        var surrogate := text[span.start..span.end];
        if !spans[k].isIngressSurrogate {
          var one := MintOne(session, span.entityType, surrogate, span.start);
          if one.Err? {
            ThenErr(one.error, minted);
            return Err(one.error);
          }
          surrogate := one.value;
          SpliceStep(text, spans, k, surrogate, minted);
          newText := newText[..span.start] + surrogate + newText[span.end..];
          changed := true;
        } else {
          SpliceIngress(text, spans, k, minted);
        }
        minted := [surrogate] + minted;
      }
      assert spans[0..] == spans && spans[..0] == [];
      ThenOk(minted);
      MintNothing(session.Value(), text);
      r := Ok(if changed then Some(newText) else None);
    }

    lemma MintNothing(st: State, text: string)
      ensures InOrder(text, []) && MintAll(st, text, []) == (st, Ok([]))
    {
    }

    lemma MintSpanIs(st: State, text: string, r: ResolvedSpan)
      requires r.span.start < r.span.end <= |text|
      ensures var value := text[r.span.start..r.span.end];
        MintSpan(st, text, r) ==
          if r.isIngressSurrogate then (st, Ok(value)) else Mint(st, r.span.entityType, value, r.span.start)
    {
    }
  }

  /** The surrogates minted later in text order, appended. */
  function Then(first: Result<seq<string>>, later: seq<string>): Result<seq<string>> {
    if first.Ok? then Ok(first.value + later) else first
  }

  lemma ThenNothing(first: Result<seq<string>>)
    ensures Then(first, []) == first
  {
    if first.Ok? {
      assert first.value + [] == first.value;
    }
  }

  lemma ThenErr(e: Error, later: seq<string>)
    ensures Then(Err(e), later) == Err(e)
  {
  }

  lemma ThenOk(later: seq<string>)
    ensures Then(Ok([]), later) == Ok(later)
  {
    assert [] + later == later;
  }

  /** Nonempty, in bounds, each ending no later than the next starts. */
  predicate InOrder(text: string, spans: seq<ResolvedSpan>) {
    (forall i | 0 <= i < |spans| :: spans[i].span.start < spans[i].span.end <= |text|)
    && forall i, j | 0 <= i < j < |spans| :: spans[i].span.end <= spans[j].span.start
  }

  predicate Changed(spans: seq<ResolvedSpan>) {
    exists i | 0 <= i < |spans| :: !spans[i].isIngressSurrogate
  }

  /** gap, surrogate, gap, surrogate, ..., gap: the text from a position on, in text order. */
  function Splice(text: string, spans: seq<ResolvedSpan>, surrogates: seq<string>, from: nat): string
    requires InOrder(text, spans) && |surrogates| == |spans|
    requires from <= |text| && (spans != [] ==> from <= spans[0].span.start)
  {
    if spans == [] then text[from..]
    else text[from..spans[0].span.start] + surrogates[0] + Splice(text, spans[1..], surrogates[1..], spans[0].span.end)
  }

  lemma InOrderSlice(text: string, spans: seq<ResolvedSpan>, i: nat, j: nat)
    requires InOrder(text, spans) && i <= j <= |spans|
    ensures InOrder(text, spans[i..j])
  {
    var r := spans[i..j];
    assert forall k | 0 <= k < |r| :: r[k] == spans[i + k];
  }

  lemma Slices(text: string, spans: seq<ResolvedSpan>)
    requires InOrder(text, spans)
    ensures forall k | 0 <= k <= |spans| :: InOrder(text, spans[k..]) && InOrder(text, spans[..k])
  {
    forall k | 0 <= k <= |spans| ensures InOrder(text, spans[k..]) && InOrder(text, spans[..k]) {
      InOrderSlice(text, spans, k, |spans|);
      InOrderSlice(text, spans, 0, k);
      assert spans[k..|spans|] == spans[k..] && spans[0..k] == spans[..k];
    }
  }

  lemma SpanAt(text: string, spans: seq<ResolvedSpan>, k: nat)
    requires InOrder(text, spans) && k < |spans|
    ensures spans[k].span.start < spans[k].span.end <= |text|
    ensures spans[k + 1..] != [] ==> spans[k].span.end <= spans[k + 1..][0].span.start
  {
  }

  lemma SpliceNothing(text: string, spans: seq<ResolvedSpan>)
    ensures spans[|spans|..] == [] && Splice(text, [], [], 0) == text && spans[..|spans|] == spans
    ensures !Changed(spans[|spans|..])
  {
  }

  lemma ChangedCons(spans: seq<ResolvedSpan>, k: nat)
    requires k < |spans|
    ensures Changed(spans[k..]) == (!spans[k].isIngressSurrogate || Changed(spans[k + 1..]))
  {
    var a, b := spans[k..], spans[k + 1..];
    assert a[0] == spans[k] && forall i | 0 <= i < |b| :: b[i] == a[i + 1];
    assert forall i | 1 <= i < |a| :: a[i] == b[i - 1];
  }

  lemma SpliceFrom(text: string, spans: seq<ResolvedSpan>, surrogates: seq<string>, from: nat, to: nat)
    requires InOrder(text, spans) && |surrogates| == |spans|
    requires from <= to <= |text| && (spans != [] ==> to <= spans[0].span.start)
    ensures Splice(text, spans, surrogates, from) == text[from..to] + Splice(text, spans, surrogates, to)
  {
    if spans != [] {
      hide InOrder, Splice;
      var s := spans[0].span.start;
      FirstInside(text, spans);
      SpliceToSpan(text, spans, surrogates, from);
      SpliceToSpan(text, spans, surrogates, to);
      CutTwice(text, from, to, s, Splice(text, spans, surrogates, s));
    } else {
      assert text[from..] == text[from..to] + text[to..];
    }
  }

  lemma CutTwice(text: string, from: nat, to: nat, s: nat, rest: string)
    requires from <= to <= s <= |text|
    ensures text[from..s] + rest == text[from..to] + (text[to..s] + rest)
  {
    assert text[from..s] == text[from..to] + text[to..s];
  }

  lemma FirstInside(text: string, spans: seq<ResolvedSpan>)
    requires InOrder(text, spans) && spans != []
    ensures spans[0].span.start < spans[0].span.end <= |text|
  {
  }

  lemma SpliceToSpan(text: string, spans: seq<ResolvedSpan>, surrogates: seq<string>, from: nat)
    requires InOrder(text, spans) && |surrogates| == |spans| && spans != []
    requires from <= spans[0].span.start <= |text|
    ensures Splice(text, spans, surrogates, from)
         == text[from..spans[0].span.start] + Splice(text, spans, surrogates, spans[0].span.start)
  {
    var s := spans[0].span.start;
    assert text[s..s] == "" && "" + surrogates[0] == surrogates[0];
  }

  /** One span further to the left: the spliced text in terms of the part after the span. */
  lemma SpliceCons(text: string, spans: seq<ResolvedSpan>, k: nat, surrogate: string, minted: seq<string>)
    requires InOrder(text, spans) && k < |spans| && |minted| == |spans| - k - 1
    requires InOrder(text, spans[k..]) && InOrder(text, spans[k + 1..])
    ensures var sp := spans[k].span;
      Splice(text, spans[k..], [surrogate] + minted, 0)
      == text[..sp.start] + surrogate + Splice(text, spans[k + 1..], minted, sp.end)
  {
    SpanAt(text, spans, k);
    assert spans[k..][1..] == spans[k + 1..] && ([surrogate] + minted)[1..] == minted;
    assert text[0..spans[k].span.start] == text[..spans[k].span.start];
  }

  /** Cutting the text spliced so far around span k and inserting there is the splice one
      span further to the left: nothing to the left of a cut has moved yet. */
  lemma SpliceStep(text: string, spans: seq<ResolvedSpan>, k: nat, surrogate: string, minted: seq<string>)
    requires InOrder(text, spans) && k < |spans| && |minted| == |spans| - k - 1
    requires InOrder(text, spans[k..]) && InOrder(text, spans[k + 1..])
    ensures var sp, done := spans[k].span, Splice(text, spans[k + 1..], minted, 0);
      sp.end <= |done|
      && done[..sp.start] + surrogate + done[sp.end..] == Splice(text, spans[k..], [surrogate] + minted, 0)
  {
    hide Splice, InOrder;
    var sp := spans[k].span;
    SpanAt(text, spans, k);
    SpliceFrom(text, spans[k + 1..], minted, 0, sp.end);
    SpliceCons(text, spans, k, surrogate, minted);
    assert text[0..sp.end][..sp.start] == text[..sp.start];
  }

  /** Leaving a span alone is splicing its own text. */
  lemma SpliceIngress(text: string, spans: seq<ResolvedSpan>, k: nat, minted: seq<string>)
    requires InOrder(text, spans) && k < |spans| && |minted| == |spans| - k - 1
    requires InOrder(text, spans[k..]) && InOrder(text, spans[k + 1..])
    requires spans[k].span.start < spans[k].span.end <= |text|
    ensures Splice(text, spans[k + 1..], minted, 0)
         == Splice(text, spans[k..], [text[spans[k].span.start..spans[k].span.end]] + minted, 0)
  {
    hide Splice, InOrder;
    var sp := spans[k].span;
    SpanAt(text, spans, k);
    SpliceFrom(text, spans[k + 1..], minted, 0, sp.end);
    SpliceCons(text, spans, k, text[sp.start..sp.end], minted);
    assert text[0..sp.end] == text[..sp.start] + text[sp.start..sp.end];
  }
}
