/** Rehydrating a sanitized text restores it (src/pipeline/sanitize.py:142-181 with
    src/pipeline/rehydrate.py:107-131). */
module SanitizeRoundTrip {
  import opened Prelude
  import opened Substitution
  import opened SlidingWindow
  import opened RoundTrip
  import opened Engine
  import opened Session
  import opened Precedence
  import opened Cascade
  import opened Sanitize
  import opened SessionInvariant
  import opened Rehydration
  import opened Json
  import opened GenerateSse
  import opened SseFraming
  import Ff1

  // ------------------------------------------------- the spliced text as pieces

  /** The splice of a text from a position on, character by character. */
  function Pieces(text: string, spans: seq<ResolvedSpan>, ss: seq<string>, from: nat): seq<Piece>
    requires InOrder(text, spans) && |ss| == |spans|
    requires from <= |text| && (spans != [] ==> from <= spans[0].span.start)
    decreases |text| - from, |spans|
  {
    if from == |text| then []
    else if spans != [] && spans[0].span.start == from then
      var sp := spans[0].span;
      Rest(text, spans);
      if spans[0].isIngressSurrogate then Pieces(text, spans[1..], ss[1..], from)
      else [Rep(text[from..sp.end], ss[0])] + Pieces(text, spans[1..], ss[1..], sp.end)
    else [Lit(text[from])] + Pieces(text, spans, ss, from + 1)
  }

  lemma Rest(text: string, spans: seq<ResolvedSpan>)
    requires InOrder(text, spans) && spans != []
    ensures InOrder(text, spans[1..])
    ensures spans[1..] != [] ==> spans[0].span.end <= spans[1..][0].span.start
  {
  }

  /** Ingress surrogates are left as they are. */
  predicate IngressKept(text: string, spans: seq<ResolvedSpan>, ss: seq<string>)
    requires InOrder(text, spans) && |ss| == |spans|
  {
    forall i | 0 <= i < |spans| && spans[i].isIngressSurrogate :: ss[i] == text[spans[i].span.start..spans[i].span.end]
  }

  lemma {:induction false} PiecesOriginal(text: string, spans: seq<ResolvedSpan>, ss: seq<string>, from: nat)
    requires InOrder(text, spans) && |ss| == |spans|
    requires from <= |text| && (spans != [] ==> from <= spans[0].span.start)
    ensures Original(Pieces(text, spans, ss, from)) == text[from..]
    decreases |text| - from, |spans|
  {
    hide InOrder;
    if from == |text| {
    } else if spans != [] && spans[0].span.start == from {
      Rest(text, spans);
      FirstSpan(text, spans);
      var end := spans[0].span.end;
      if spans[0].isIngressSurrogate {
        PiecesOriginal(text, spans[1..], ss[1..], from);
      } else {
        PiecesOriginal(text, spans[1..], ss[1..], end);
        assert text[from..end] + text[end..] == text[from..];
      }
    } else {
      PiecesOriginal(text, spans, ss, from + 1);
      assert [text[from]] + text[from + 1..] == text[from..];
    }
  }

  lemma FirstSpan(text: string, spans: seq<ResolvedSpan>)
    requires InOrder(text, spans) && spans != []
    ensures spans[0].span.start < spans[0].span.end <= |text|
  {
  }

  lemma {:induction false} PiecesReplaced(text: string, spans: seq<ResolvedSpan>, ss: seq<string>, from: nat)
    requires InOrder(text, spans) && |ss| == |spans| && IngressKept(text, spans, ss)
    requires from <= |text| && (spans != [] ==> from <= spans[0].span.start)
    ensures Replaced(Pieces(text, spans, ss, from)) == Splice(text, spans, ss, from)
    decreases |text| - from, |spans|
  {
    hide InOrder, Splice, IngressKept;
    if from == |text| {
      SpliceAtEnd(text, spans, ss);
    } else if spans != [] && spans[0].span.start == from {
      Rest(text, spans);
      FirstSpan(text, spans);
      IngressRest(text, spans, ss);
      SpliceHead(text, spans, ss);
      var end := spans[0].span.end;
      if spans[0].isIngressSurrogate {
        PiecesReplaced(text, spans[1..], ss[1..], from);
        SpliceDrop(text, spans, ss);
      } else {
        PiecesReplaced(text, spans[1..], ss[1..], end);
      }
    } else {
      PiecesReplaced(text, spans, ss, from + 1);
      SpliceLit(text, spans, ss, from);
    }
  }

  lemma SpliceLit(text: string, spans: seq<ResolvedSpan>, ss: seq<string>, from: nat)
    requires InOrder(text, spans) && |ss| == |spans|
    requires from < |text| && (spans != [] ==> from < spans[0].span.start)
    ensures Splice(text, spans, ss, from) == [text[from]] + Splice(text, spans, ss, from + 1)
  {
    hide InOrder, Splice;
    SpliceFrom(text, spans, ss, from, from + 1);
    assert text[from..from + 1] == [text[from]];
  }

  /** A span whose surrogate is its own text can be left out. */
  lemma SpliceDrop(text: string, spans: seq<ResolvedSpan>, ss: seq<string>)
    requires InOrder(text, spans) && |ss| == |spans| && spans != []
    requires InOrder(text, spans[1..]) && spans[0].span.start < spans[0].span.end <= |text|
    requires spans[1..] != [] ==> spans[0].span.end <= spans[1..][0].span.start
    requires ss[0] == text[spans[0].span.start..spans[0].span.end]
    ensures Splice(text, spans, ss, spans[0].span.start) == Splice(text, spans[1..], ss[1..], spans[0].span.start)
  {
    hide InOrder, Splice;
    SpliceHead(text, spans, ss);
    SpliceFrom(text, spans[1..], ss[1..], spans[0].span.start, spans[0].span.end);
  }

  lemma SpliceAtEnd(text: string, spans: seq<ResolvedSpan>, ss: seq<string>)
    requires InOrder(text, spans) && |ss| == |spans|
    requires spans != [] ==> |text| <= spans[0].span.start
    ensures Splice(text, spans, ss, |text|) == ""
  {
  }

  lemma IngressRest(text: string, spans: seq<ResolvedSpan>, ss: seq<string>)
    requires InOrder(text, spans) && spans != [] && InOrder(text, spans[1..])
    requires |ss| == |spans| && IngressKept(text, spans, ss)
    ensures IngressKept(text, spans[1..], ss[1..])
    ensures spans[0].isIngressSurrogate ==> ss[0] == text[spans[0].span.start..spans[0].span.end]
  {
  }

  lemma SpliceHead(text: string, spans: seq<ResolvedSpan>, ss: seq<string>)
    requires InOrder(text, spans) && |ss| == |spans| && spans != []
    ensures InOrder(text, spans[1..])
      && (spans[1..] != [] ==> spans[0].span.end <= spans[1..][0].span.start)
      && Splice(text, spans, ss, spans[0].span.start) == ss[0] + Splice(text, spans[1..], ss[1..], spans[0].span.end)
  {
    var from := spans[0].span.start;
    assert text[from..from] == "";
  }

  /** Each replaced span's surrogate is mapped to the text it replaced. */
  ghost predicate Restores(m: Table, text: string, spans: seq<ResolvedSpan>, ss: seq<string>)
    requires InOrder(text, spans) && |ss| == |spans|
  {
    forall i | 0 <= i < |spans| && !spans[i].isIngressSurrogate ::
      ss[i] in m && m[ss[i]] == text[spans[i].span.start..spans[i].span.end]
  }

  lemma {:induction false} PiecesMapped(m: Table, text: string, spans: seq<ResolvedSpan>, ss: seq<string>, from: nat)
    requires InOrder(text, spans) && |ss| == |spans| && Restores(m, text, spans, ss)
    requires from <= |text| && (spans != [] ==> from <= spans[0].span.start)
    ensures Mapped(m, Pieces(text, spans, ss, from))
    decreases |text| - from, |spans|
  {
    hide InOrder;
    if from == |text| {
    } else if spans != [] && spans[0].span.start == from {
      Rest(text, spans);
      FirstSpan(text, spans);
      assert Restores(m, text, spans[1..], ss[1..]);
      PiecesMapped(m, text, spans[1..], ss[1..], if spans[0].isIngressSurrogate then from else spans[0].span.end);
    } else {
      PiecesMapped(m, text, spans, ss, from + 1);
    }
  }

  /** Key k occurs in text at position p. */
  predicate At(k: string, text: string, p: nat) {
    p <= |text| && k <= text[p..]
  }

  /** No key occurring in the text meets a span that is replaced. */
  ghost predicate NoMeeting(m: Table, text: string, spans: seq<ResolvedSpan>) {
    forall k, p: nat, i | k in m && At(k, text, p) && 0 <= i < |spans| && !spans[i].isIngressSurrogate ::
      p + |k| <= spans[i].span.start || spans[i].span.end <= p
  }

  /** Up to the next replaced span, all pieces are untouched characters. */
  lemma {:induction false} PiecesLit(text: string, spans: seq<ResolvedSpan>, ss: seq<string>, from: nat, n: nat)
    requires InOrder(text, spans) && |ss| == |spans|
    requires from + n <= |text| && (spans != [] ==> from <= spans[0].span.start)
    requires forall i | 0 <= i < |spans| && !spans[i].isIngressSurrogate :: from + n <= spans[i].span.start
    ensures LitRun(Pieces(text, spans, ss, from), n)
    decreases n, |spans|
  {
    hide InOrder;
    if n == 0 {
    } else if spans != [] && spans[0].span.start == from {
      Rest(text, spans);
      FirstSpan(text, spans);
      PiecesLit(text, spans[1..], ss[1..], from, n);
    } else {
      PiecesLit(text, spans, ss, from + 1, n - 1);
    }
  }

  /** A key at the current position lies in untouched characters. */
  lemma KeysLit(m: Table, text: string, spans: seq<ResolvedSpan>, ss: seq<string>, from: nat)
    requires InOrder(text, spans) && |ss| == |spans| && NoMeeting(m, text, spans)
    requires from <= |text| && (spans != [] ==> from <= spans[0].span.start)
    ensures forall k | k in m && k <= text[from..] :: LitRun(Pieces(text, spans, ss, from), |k|)
  {
    hide InOrder, NoMeeting, Pieces, LitRun;
    forall k | k in m && k <= text[from..] ensures LitRun(Pieces(text, spans, ss, from), |k|) {
      LaterSpans(m, text, spans, from, k);
      PiecesLit(text, spans, ss, from, |k|);
    }
  }

  lemma NoMeetingRest(m: Table, text: string, spans: seq<ResolvedSpan>)
    requires spans != [] && NoMeeting(m, text, spans)
    ensures NoMeeting(m, text, spans[1..])
  {
  }

  lemma {:induction false} PiecesClean(m: Table, text: string, spans: seq<ResolvedSpan>, ss: seq<string>, from: nat)
    requires InOrder(text, spans) && |ss| == |spans| && NoMeeting(m, text, spans) && "" !in m
    requires from <= |text| && (spans != [] ==> from <= spans[0].span.start)
    ensures Clean(m, Pieces(text, spans, ss, from))
    decreases |text| - from, |spans|
  {
    hide InOrder, KeyFreeTo, LitRun, NoMeeting;
    PiecesOriginal(text, spans, ss, from);
    if from == |text| {
    } else if spans != [] && spans[0].span.start == from {
      Rest(text, spans);
      FirstSpan(text, spans);
      NoMeetingRest(m, text, spans);
      if spans[0].isIngressSurrogate {
        PiecesClean(m, text, spans[1..], ss[1..], from);
      } else {
        PiecesClean(m, text, spans[1..], ss[1..], spans[0].span.end);
        SpanKeyFree(m, text, spans);
      }
    } else {
      PiecesClean(m, text, spans, ss, from + 1);
      KeysLit(m, text, spans, ss, from);
    }
  }

  lemma SpanKeyFree(m: Table, text: string, spans: seq<ResolvedSpan>)
    requires InOrder(text, spans) && spans != [] && !spans[0].isIngressSurrogate
    requires NoMeeting(m, text, spans) && "" !in m
    ensures KeyFreeTo(m, text[spans[0].span.start..], spans[0].span.end - spans[0].span.start)
  {
    hide LongestAt;
    var sp := spans[0].span;
    var t := text[sp.start..];
    forall j: nat | j < sp.end - sp.start ensures KeyFree(m, t, j) {
      assert t[j..] == text[sp.start + j..];
      if LongestAt(m, text[sp.start + j..]).Some? {
        FoundAt(m, text, sp.start + j);
      }
    }
  }

  lemma FoundAt(m: Table, text: string, p: nat)
    requires p <= |text| && LongestAt(m, text[p..]).Some?
    ensures exists k :: k in m && k != "" && At(k, text, p)
  {
    FoundKey(m, text[p..]);
    assert At(LongestAt(m, text[p..]).value, text, p);
  }

  lemma LaterSpans(m: Table, text: string, spans: seq<ResolvedSpan>, from: nat, k: string)
    requires InOrder(text, spans) && NoMeeting(m, text, spans) && k in m && At(k, text, from)
    requires spans != [] ==> from <= spans[0].span.start
    ensures from + |k| <= |text|
    ensures forall i | 0 <= i < |spans| && !spans[i].isIngressSurrogate :: from + |k| <= spans[i].span.start
  {
    assert forall i | 0 < i < |spans| :: spans[0].span.end <= spans[i].span.start;
  }

  /** In the text sent, every minted surrogate is matched as such: none starting with it
      is longer, and none starting in untouched text before it reaches into it. */
  ghost predicate MatchedExactly(m: Table, text: string, spans: seq<ResolvedSpan>, ss: seq<string>)
    requires InOrder(text, spans) && |ss| == |spans|
  {
    Exact(m, Pieces(text, spans, ss, 0))
  }

  /** That holds of any text when no surrogate of the session overlaps another. */
  lemma ApartIsMatched(m: Table, text: string, spans: seq<ResolvedSpan>, ss: seq<string>)
    requires InOrder(text, spans) && |ss| == |spans| && KeysApart(m) && Restores(m, text, spans, ss)
    ensures MatchedExactly(m, text, spans, ss)
  {
    hide KeysApart, Restores, InOrder;
    PiecesMapped(m, text, spans, ss, 0);
    ApartIsExact(m, Pieces(text, spans, ss, 0));
  }

  /** Substituting in the spliced text is substituting in the original. */
  lemma SpliceSub(m: Table, text: string, spans: seq<ResolvedSpan>, ss: seq<string>)
    requires InOrder(text, spans) && |ss| == |spans| && IngressKept(text, spans, ss) && "" !in m
    requires MatchedExactly(m, text, spans, ss) && Restores(m, text, spans, ss) && NoMeeting(m, text, spans)
    ensures Sub(m, Splice(text, spans, ss, 0)) == Sub(m, text)
  {
    hide InOrder, IngressKept, Restores, NoMeeting, Splice, Sub, Mapped, Clean, Exact;
    PiecesOriginal(text, spans, ss, 0);
    PiecesReplaced(text, spans, ss, 0);
    PiecesMapped(m, text, spans, ss, 0);
    PiecesClean(m, text, spans, ss, 0);
    SubReplaced(m, Pieces(text, spans, ss, 0));
    assert text[0..] == text;
  }

  // ------------------------------------------------------------ the round trip

  /** Surrogate s is still registered under the mechanism that minted it: the name map, or
      the domain of its own type. */
  predicate MechanismKept(st: State, e: EntityType, s: string) {
    s in st.known
    && var k := st.known[s].entityType;
       if e in NAME_MAP_ENTITY_TYPES then k in NAME_MAP_ENTITY_TYPES else k == e
  }

  /** A surrogate whose mechanism is kept stands for the value it was minted for, unless
      that value has a wrong check digit or a trailing newline. */
  lemma SurrogateRestores(ciph: Ff1.Cipher, lookahead: nat, st: State, e: EntityType, value: string, s: string)
    requires Minted(ciph, lookahead, st) && Backed(ciph, st, e, value, s) && MechanismKept(st, e, s)
    ensures TableOf(ciph, st)[s] == value <==> (e in NAME_MAP_ENTITY_TYPES || Canonical(e, value))
  {
    hide Encrypt, Decrypt, Canonical, Bijective, NamesResolve;
    MintedResolves(ciph, lookahead, st);
    if e !in NAME_MAP_ENTITY_TYPES {
      Engine.RoundTrip(ciph, e, value);
    }
  }

  /** What the spans of a call must satisfy in a later session state. */
  predicate SpansKept(st: State, text: string, spans: seq<ResolvedSpan>, ss: seq<string>)
    requires InOrder(text, spans) && |ss| == |spans|
  {
    forall i | 0 <= i < |spans| && !spans[i].isIngressSurrogate ::
      var e, value := spans[i].span.entityType, text[spans[i].span.start..spans[i].span.end];
      MechanismKept(st, e, ss[i]) && (e in NAME_MAP_ENTITY_TYPES || Canonical(e, value))
  }

  lemma DoneRestores(ciph: Ff1.Cipher, lookahead: nat, st: State, text: string, spans: seq<ResolvedSpan>,
                     ss: seq<string>)
    requires Minted(ciph, lookahead, st) && InOrder(text, spans) && |ss| == |spans|
    requires forall i | 0 <= i < |spans| :: SpanDone(ciph, st, text, spans[i], ss[i])
    requires SpansKept(st, text, spans, ss)
    ensures IngressKept(text, spans, ss) && Restores(TableOf(ciph, st), text, spans, ss)
  {
    hide Minted, Backed, Canonical, MechanismKept;
    forall i | 0 <= i < |spans| && !spans[i].isIngressSurrogate
      ensures ss[i] in TableOf(ciph, st) && TableOf(ciph, st)[ss[i]] == text[spans[i].span.start..spans[i].span.end]
    {
      var e, value := spans[i].span.entityType, text[spans[i].span.start..spans[i].span.end];
      SurrogateKnown(ciph, st, e, value, ss[i]);
      SurrogateRestores(ciph, lookahead, st, e, value, ss[i]);
    }
  }

  lemma SurrogateKnown(ciph: Ff1.Cipher, st: State, e: EntityType, value: string, s: string)
    requires Backed(ciph, st, e, value, s)
    ensures s in TableOf(ciph, st)
  {
    assert s in st.known.Keys;
  }

  /** The text a call sends upstream for a region it could sanitize. */
  function Sent(ctx: Context, st: State, text: string, spans: seq<ResolvedSpan>): string
    requires InOrder(text, spans) && ctx.MintAll(st, text, spans).1.Ok?
  {
    Splice(text, spans, ctx.MintAll(st, text, spans).1.value, 0)
  }

  /** In any later state of the session, rehydrating what was sent gives what rehydrating
      the original gives. */
  lemma SplicedBack(ctx: Context, st: State, text: string, spans: seq<ResolvedSpan>, later: State)
    requires ctx.Valid() && Minted(ctx.ciph, RequiredLookahead(ctx.pools), st) && InOrder(text, spans)
    requires var (st', ss) := ctx.MintAll(st, text, spans);
      ss.Ok? && Grows(st', later) && SpansKept(later, text, spans, ss.value)
      && MatchedExactly(TableOf(ctx.ciph, later), text, spans, ss.value)
    requires Minted(ctx.ciph, RequiredLookahead(ctx.pools), later)
    requires NoMeeting(TableOf(ctx.ciph, later), text, spans)
    ensures Rehydrate(ctx.ciph, later, Sent(ctx, st, text, spans)) == Ok(Sub(TableOf(ctx.ciph, later), text))
    ensures Rehydrate(ctx.ciph, later, text) == Ok(Sub(TableOf(ctx.ciph, later), text))
  {
    hide Minted, AllResolve, MatchedExactly, NoMeeting, SpansKept, Restores, IngressKept, Rehydrate, Sub, Splice;
    hide Context.MintAll, SpanDone, Grows, RequiredLookahead;
    MintAllKeeps(ctx, st, text, spans);
    var (st', ss) := ctx.MintAll(st, text, spans);
    forall i | 0 <= i < |spans| ensures SpanDone(ctx.ciph, later, text, spans[i], ss.value[i]) {
      DoneStays(ctx.ciph, st', later, text, spans[i], ss.value[i]);
    }
    MintedResolves(ctx.ciph, RequiredLookahead(ctx.pools), later);
    RehydrateIsSub(ctx.ciph, later, Splice(text, spans, ss.value, 0));
    RehydrateIsSub(ctx.ciph, later, text);
    DoneRestores(ctx.ciph, RequiredLookahead(ctx.pools), later, text, spans, ss.value);
    SpliceSub(TableOf(ctx.ciph, later), text, spans, ss.value);
  }

  /** No surrogate known to the session occurs in the text. */
  ghost predicate Unseen(st: State, text: string) {
    forall k, p: nat | k in st.known :: !At(k, text, p)
  }

  lemma UnseenFree(ciph: Ff1.Cipher, st: State, text: string, spans: seq<ResolvedSpan>)
    requires Unseen(st, text)
    ensures NoMeeting(TableOf(ciph, st), text, spans) && KeyFreeTo(TableOf(ciph, st), text, |text|)
  {
    hide ResolveRealValue, LongestAt, At;
    var m := TableOf(ciph, st);
    assert forall k :: k in m <==> k in m.Keys;
    forall j: nat | j < |text| ensures KeyFree(m, text, j) {
      if LongestAt(m, text[j..]).Some? {
        FoundAt(m, text, j);
      }
    }
  }

  /** A sanitize call, and the session calls made since. */
  datatype Exchange = Exchange(ciph: Ff1.Cipher, pools: Pools, createdAt: int,
                               earlier: seq<Call>, call: Call, since: seq<Call>) {
    /** The session a call finds, and the one rehydration finds later. */
    ghost predicate Legal() {
      LegalCalls(ciph, pools, earlier) && LegalCall(ciph, pools, call) && LegalCalls(ciph, pools, since)
    }

    ghost function Before(): State
      requires Legal()
    {
      AfterCalls(ciph, pools, New(createdAt), earlier)
    }

    ghost function Later(): State
      requires Legal()
    {
      AfterCalls(ciph, pools, call.ctx.MintAll(Before(), call.text, call.spans).0, since)
    }

    ghost predicate Succeeds()
      requires Legal()
    {
      call.ctx.MintAll(Before(), call.text, call.spans).1.Ok?
    }

    ghost function Upstream(): string
      requires Legal() && Succeeds()
    {
      Sent(call.ctx, Before(), call.text, call.spans)
    }

    /** The surrogates minted for the spans of the call. */
    ghost function MintedHere(): (ss: seq<string>)
      requires Legal() && Succeeds()
      ensures |ss| == |call.spans|
    {
      call.ctx.MintAll(Before(), call.text, call.spans).1.value
    }

    /** Every span's surrogate still stands for its value and is matched in the text sent. */
    ghost predicate Kept()
      requires Legal() && Succeeds()
    {
      SpansKept(Later(), call.text, call.spans, MintedHere())
      && MatchedExactly(TableOf(ciph, Later()), call.text, call.spans, MintedHere())
    }

    /** And no known surrogate occurring in the original meets a replaced span. */
    ghost predicate Apart()
      requires Legal() && Succeeds()
    {
      Kept() && NoMeeting(TableOf(ciph, Later()), call.text, call.spans)
    }

    lemma Reached()
      requires Legal()
      ensures Minted(ciph, RequiredLookahead(pools), Before()) && Minted(ciph, RequiredLookahead(pools), Later())
      ensures Grows(call.ctx.MintAll(Before(), call.text, call.spans).0, Later())
    {
      hide Minted, Grows, SpanDone, RequiredLookahead, AfterCalls, Context.MintAll;
      NewMinted(ciph, RequiredLookahead(pools), createdAt);
      AfterCallsKeeps(ciph, pools, New(createdAt), earlier);
      MintAllKeeps(call.ctx, Before(), call.text, call.spans);
      AfterCallsKeeps(ciph, pools, call.ctx.MintAll(Before(), call.text, call.spans).0, since);
    }

    /** In every reachable session, for name-map and structured spans mixed, ingress
        surrogates and later requests included: rehydrating what was sent gives what
        rehydrating the original gives. */
    lemma SentIsRehydrated()
      requires Legal() && Succeeds() && Apart()
      ensures Rehydrate(ciph, Later(), Upstream()) == Rehydrate(ciph, Later(), call.text)
      ensures Rehydrate(ciph, Later(), Upstream()) == Ok(Sub(TableOf(ciph, Later()), call.text))
    {
      hide Minted, Grows, MatchedExactly, NoMeeting, SpansKept, Rehydrate, Sub, Sent, AfterCalls, Context.MintAll;
      Reached();
      SplicedBack(call.ctx, Before(), call.text, call.spans, Later());
    }

    /** rehydrate(sanitize(text)) == text. */
    lemma RoundTrip()
      requires Legal() && Succeeds() && Kept() && Unseen(Later(), call.text)
      ensures Apart() && Rehydrate(ciph, Later(), Upstream()) == Ok(call.text)
    {
      hide Unseen, Kept, NoMeeting, Rehydrate, Sub, AfterCalls, Context.MintAll, KeyFreeTo;
      UnseenFree(ciph, Later(), call.text, call.spans);
      SentIsRehydrated();
      SubClean(TableOf(ciph, Later()), call.text);
    }

    lemma FreeIsUnseen()
      requires Legal() && Succeeds() && KeyFreeTo(TableOf(ciph, Later()), call.text, |call.text|)
      ensures Unseen(Later(), call.text)
    {
      hide ResolveRealValue, LongestAt, AfterCalls, Context.MintAll, Grows, Bijective, NamesResolve;
      Reached();
      var m := TableOf(ciph, Later());
      forall k, p: nat | k in Later().known ensures !At(k, call.text, p) {
        assert k in m.Keys && k != "";
        if At(k, call.text, p) {
          assert KeyFree(m, call.text, p);
          NotFound(m, call.text[p..], k);
        }
      }
    }

    /** Exactly when: with surrogates matched in the text sent, and none comparable with what
        it stands for, the original text comes back if and only if it holds no surrogate. */
    lemma RoundTripExactly()
      requires Legal() && Succeeds() && Apart() && OwnApart(TableOf(ciph, Later()))
      ensures Rehydrate(ciph, Later(), Upstream()) == Ok(call.text) <==> Unseen(Later(), call.text)
    {
      hide *;
      SentIsRehydrated();
      ApartIs();
      if Rehydrate(ciph, Later(), Upstream()) == Ok(call.text) {
        UnchangedIsFree(TableOf(ciph, Later()), call.text);
        FreeIsUnseen();
      }
      if Unseen(Later(), call.text) {
        RoundTrip();
      }
    }

    lemma ApartIs()
      requires Legal() && Succeeds() && Apart()
      ensures Kept()
    {
      hide Kept;
    }

    /** An upstream whose events carry the sanitized text back, cut into events and fragments
        in any way, makes the client read the original text. */
    lemma EchoRoundTrip(stream: Stream, chunks: seq<string>, received: seq<string>)
      requires Legal() && Succeeds() && Kept() && Unseen(Later(), call.text)
      requires OverlapFree(TableOf(ciph, Later()), RequiredLookahead(pools))
      requires stream.FaithfulCodec() && stream.lookahead == RequiredLookahead(pools)
      requires stream.tf == Substitute(TableOf(ciph, Later()))
      requires stream.Text(stream.Consumed(PARSER_START, chunks)) == Upstream()
      requires Flatten(received) == stream.Body(stream.Frames(stream.Consumed(PARSER_START, chunks)))
      ensures stream.Text(stream.Consumed(PARSER_START, received)) == call.text
    {
      hide *;
      Reached();
      MintedResolves(ciph, RequiredLookahead(pools), Later());
      RoundTrip();
      SentIsRehydrated();
      RehydrateIsSub(ciph, Later(), Upstream());
      stream.EndToEnd(TableOf(ciph, Later()), chunks, received);
    }
  }

  // ---------------------------------------------- the hypotheses can be met together

  const BOB_SPAN := ResolvedSpan(Span(3, 6, Person, 2), false)
  const ZED_POOLS := Pools(["Zed"], [], [])
  const ZED_STATE := State(0, map["Zed" := KnownSurrogate(Person, 0)], map["Bob" := "Zed"], map["Zed" := "Bob"])

  function BobContext(ciph: Ff1.Cipher): Context {
    Context(ciph, ZED_POOLS, (k, s) => s, 0)
  }

  lemma BobIsMinted(ciph: Ff1.Cipher)
    ensures BobContext(ciph).Valid() && InOrder("Hi Bob", [BOB_SPAN])
    ensures BobContext(ciph).MintAll(New(0), "Hi Bob", [BOB_SPAN]) == (ZED_STATE, Ok(["Zed"]))
  {
    hide Encrypt;
    assert "Hi Bob"[3..6] == "Bob" && [BOB_SPAN][..0] == [];
    assert FirstFree(["Zed"], map[]) == Some("Zed");
    assert [] + ["Zed"] == ["Zed"];
  }

  lemma ZedIsApart(ciph: Ff1.Cipher)
    ensures TableOf(ciph, ZED_STATE) == map["Zed" := "Bob"]
    ensures forall n: nat :: OverlapFree(map["Zed" := "Bob"], n)
    ensures OwnApart(map["Zed" := "Bob"])
    ensures KeysApart(map["Zed" := "Bob"]) && Unseen(ZED_STATE, "Hi Bob")
  {
    hide Decrypt;
    assert TableOf(ciph, ZED_STATE).Keys == {"Zed"};
    assert ResolveRealValue(ciph, ZED_STATE, "Zed") == Ok("Bob");
    var m := map["Zed" := "Bob"];
    assert "Zed"[0] != "Bob"[0];
    forall k: nat ensures Agree("Zed", "Zed", k) ==> k == 0 {
      assert k == 1 || k == 2 ==> "Zed"[k] != "Zed"[0];
    }
    forall k: nat ensures !Agree("Zed", "Bob", k) && !Agree("Bob", "Zed", k) {
      assert k < 3 ==> "Zed"[k] != "Bob"[0] && "Bob"[k] != "Zed"[0];
    }
    forall p: nat ensures !At("Zed", "Hi Bob", p) {
      assert p < 6 ==> "Hi Bob"[p] != 'Z';
    }
  }

  /** An instance, for any cipher: "Hi Bob" is sent as "Hi Zed" and comes back, so what the
      round trip asks of session, surrogates and text can be met together. */
  lemma BobComesBack(ciph: Ff1.Cipher)
    ensures var x := Exchange(ciph, ZED_POOLS, 0, [], Call(BobContext(ciph), "Hi Bob", [BOB_SPAN]), []);
      x.Legal() && x.Succeeds() && x.Apart() && OverlapFree(TableOf(ciph, x.Later()), RequiredLookahead(ZED_POOLS))
      && x.Upstream() == "Hi Zed" && Rehydrate(ciph, x.Later(), x.Upstream()) == Ok("Hi Bob")
  {
    hide Context.MintAll, OverlapFree, KeysApart, Unseen, Rehydrate, TableOf, NoMeeting, MatchedExactly;
    var x := Exchange(ciph, ZED_POOLS, 0, [], Call(BobContext(ciph), "Hi Bob", [BOB_SPAN]), []);
    BobIsMinted(ciph);
    ZedIsApart(ciph);
    assert x.Before() == New(0) && x.Later() == ZED_STATE;
    ApartIsMatched(map["Zed" := "Bob"], "Hi Bob", [BOB_SPAN], ["Zed"]);
    assert "Hi Bob"[0..3] == "Hi " && "Hi Bob"[6..] == "" && [BOB_SPAN][1..] == [] && ["Zed"][1..] == [];
    assert Splice("Hi Bob", [], [], 6) == "";
    assert "Hi " + "Zed" + "" == "Hi Zed";
    x.RoundTrip();
  }
}
