/** Sanitizing a request body and rehydrating a response body, field by field
    (src/pipeline/sanitize.py:47-111, src/pipeline/rehydrate.py:134-167,
    src/pipeline/protocol_fields.py). */
module RequestBody {
  import opened Prelude
  import opened Json
  import opened FieldWalker
  import opened Rewalk
  import opened Session
  import opened Engine
  import opened StableSort
  import opened Precedence
  import opened Cascade
  import opened Sanitize
  import opened Substitution
  import opened RoundTrip
  import opened SessionInvariant
  import opened Rehydration
  import opened SanitizeRoundTrip
  import Ff1

  /** messages[i].role holding one of its legal values. */
  predicate IsProtocolEnumValue(r: Region) {
    |r.path| == 3 && r.path[0] == Key("messages") && r.path[1].Idx? && r.path[2] == Key("role")
    && r.text in {"system", "user", "assistant", "tool", "function"}
  }

  /** What one region meets: key, generator and time, and what the detectors find. */
  datatype Input = Input(ctx: Context, found: Detected)

  predicate Ready(regions: seq<Region>, inputs: seq<Input>) {
    |inputs| == |regions| && forall i | 0 <= i < |inputs| :: inputs[i].found.Valid(regions[i].text)
  }

  lemma DetectInOrder(text: string, st: State, found: Detected, mode: FailMode)
    requires found.Valid(text) && Detect(text, st, found, mode).Ok?
    ensures InOrder(text, Detect(text, st, found, mode).value)
  {
    hide Resolve;
    ResolvedInBounds(text, found);
    var resolved := Resolve(found.All());
    assert forall i | 0 <= i < |resolved| :: resolved[i] in resolved;
  }

  /** The new text of a region, or None when it is unchanged. */
  function SanitizedRegion(st: State, text: string, i: Input, mode: FailMode): (State, Result<Option<string>>)
    requires i.found.Valid(text)
  {
    match Detect(text, st, i.found, mode)
    case Err(e) => (st, Err(e))
    case Ok(spans) =>
      DetectInOrder(text, st, i.found, mode);
      match i.ctx.MintAll(st, text, spans)
      case (st', Ok(ss)) => (st', Ok(if Changed(spans) then Some(Splice(text, spans, ss, 0)) else None))
      case (st', Err(e)) => (st', Err(e))
  }

  /** One region's effect on the session and on the substitutions so far. */
  function Next(st: State, subs: Substitutions, r: Region, i: Input, mode: FailMode): (State, Result<Substitutions>)
    requires i.found.Valid(r.text)
  {
    if IsProtocolEnumValue(r) then (st, Ok(subs))
    else match SanitizedRegion(st, r.text, i, mode)
      case (st', Err(e)) => (st', Err(e))
      case (st', Ok(None)) => (st', Ok(subs))
      case (st', Ok(Some(text))) => (st', Ok(subs[r.path := text]))
  }

  /** All regions in order; the first failure ends it. */
  function Sanitized(st: State, subs: Substitutions, regions: seq<Region>, inputs: seq<Input>, mode: FailMode)
    : (State, Result<Substitutions>)
    requires Ready(regions, inputs)
    decreases |regions|
  {
    if regions == [] then (st, Ok(subs))
    else match Next(st, subs, regions[0], inputs[0], mode)
      case (st', Err(e)) => (st', Err(e))
      case (st', Ok(subs')) => Sanitized(st', subs', regions[1..], inputs[1..], mode)
  }

  lemma SanitizedStep(st: State, subs: Substitutions, regions: seq<Region>, inputs: seq<Input>, k: nat, mode: FailMode)
    requires Ready(regions, inputs) && k < |regions|
    ensures Ready(regions[k..], inputs[k..]) && Ready(regions[k + 1..], inputs[k + 1..])
    ensures inputs[k].found.Valid(regions[k].text)
    ensures var (st', next) := Next(st, subs, regions[k], inputs[k], mode);
      Sanitized(st, subs, regions[k..], inputs[k..], mode)
      == if next.Err? then (st', next) else Sanitized(st', next.value, regions[k + 1..], inputs[k + 1..], mode)
  {
    hide Next, Detected.Valid;
    assert regions[k..][1..] == regions[k + 1..] && inputs[k..][1..] == inputs[k + 1..];
  }

  lemma SanitizedEnd(st: State, subs: Substitutions, regions: seq<Region>, inputs: seq<Input>, mode: FailMode)
    requires Ready(regions, inputs)
    ensures regions[|regions|..] == [] && inputs[|regions|..] == []
    ensures Ready([], []) && Sanitized(st, subs, [], [], mode) == (st, Ok(subs))
    ensures regions[0..] == regions && inputs[0..] == inputs && |inputs| == |regions|
  {
  }

  /** One turn of the loop over regions. */
  method SanitizeOne(session: Session, subs: Substitutions, r: Region, i: Input, mode: FailMode)
    returns (next: Result<Substitutions>)
    requires i.found.Valid(r.text)
    modifies session
    ensures (session.Value(), next) == Next(old(session.Value()), subs, r, i, mode)
  {
    hide Detected.Valid, Detect, InOrder, Splice, Context.MintAll, Changed;
    if IsProtocolEnumValue(r) {
      return Ok(subs);
    }
    var before := session.Value();
    var detected := Detect(r.text, before, i.found, mode);
    if detected.Err? {
      return Err(detected.error);
    }
    DetectInOrder(r.text, before, i.found, mode);
    var text := i.ctx.SanitizeRegion(session, r.text, detected.value);
    if text.Err? {
      return Err(text.error);
    }
    next := Ok(if text.value.Some? then subs[r.path := text.value.value] else subs);
  }

  /** sanitize: either a whole new body, or an error and no body. */
  method SanitizeBody(codec: SizedCodec, session: Session, body: Json, inputs: seq<Input>, mode: FailMode)
    returns (r: Result<Json>)
    requires Ready(Walk(codec, body, []), inputs)
    modifies session
    ensures var (st', subs) := Sanitized(old(session.Value()), map[], Walk(codec, body, []), inputs, mode);
      session.Value() == st'
      && r == (if subs.Ok? then Ok(Rebuild(codec, body, [], subs.value)) else Err(subs.error))
  {
    hide *;
    var regions := Walk(codec, body, []);
    var subs: Substitutions := map[];
    ghost var start := session.Value();
    SanitizedEnd(start, subs, regions, inputs, mode);
    for k := 0 to |regions|
      invariant |inputs| == |regions| && Ready(regions[k..], inputs[k..])
      invariant Sanitized(start, map[], regions, inputs, mode)
             == Sanitized(session.Value(), subs, regions[k..], inputs[k..], mode)
    {
      SanitizedStep(session.Value(), subs, regions, inputs, k, mode);
      var next := SanitizeOne(session, subs, regions[k], inputs[k], mode);
      if next.Err? {
        return Err(next.error);
      }
      subs := next.value;
    }
    SanitizedEnd(session.Value(), subs, regions, inputs, mode);
    var rebuilt, applied := RebuildLoop(codec, body, [], subs, {});
    r := Ok(rebuilt);
  }

  // ------------------------------------------------------------- rehydrate_body

  /** New texts for the regions a rehydration changes; the first that raises ends it. */
  function Rehydrated(ciph: Ff1.Cipher, st: State, subs: Substitutions, regions: seq<Region>): Result<Substitutions>
    decreases |regions|
  {
    if regions == [] then Ok(subs)
    else
      var text :- Rehydrate(ciph, st, regions[0].text);
      Rehydrated(ciph, st, if text != regions[0].text then subs[regions[0].path := text] else subs, regions[1..])
  }

  method RehydrateBody(codec: SizedCodec, ciph: Ff1.Cipher, session: Session, body: Json) returns (r: Result<Json>)
    ensures var subs := Rehydrated(ciph, session.Value(), map[], Walk(codec, body, []));
      r == (if subs.Ok? then Ok(Rebuild(codec, body, [], subs.value)) else Err(subs.error))
  {
    hide Walk, Rebuild, Rehydrate;
    var regions := Walk(codec, body, []);
    var subs: Substitutions := map[];
    var st := session.Value();
    assert regions[0..] == regions;
    for k := 0 to |regions|
      invariant Rehydrated(ciph, st, map[], regions) == Rehydrated(ciph, st, subs, regions[k..])
    {
      assert regions[k..][1..] == regions[k + 1..];
      var text := Rehydrate(ciph, st, regions[k].text);
      if text.Err? {
        return Err(text.error);
      }
      if text.value != regions[k].text {
        subs := subs[regions[k].path := text.value];
      }
    }
    assert regions[|regions|..] == [];
    var rebuilt, applied := RebuildLoop(codec, body, [], subs, {});
    r := Ok(rebuilt);
  }

  // ------------------------------------------------------------- whole bodies

  ghost predicate Legal(ciph: Ff1.Cipher, pools: Pools, inputs: seq<Input>) {
    forall i | 0 <= i < |inputs| :: inputs[i].ctx.ciph == ciph && inputs[i].ctx.pools == pools && inputs[i].ctx.Valid()
  }

  /** What one region's spans must satisfy in a later session state. */
  ghost predicate RegionKept(later: State, st: State, r: Region, i: Input, mode: FailMode)
    requires i.found.Valid(r.text)
  {
    match Detect(r.text, st, i.found, mode)
    case Err(_) => true
    case Ok(spans) =>
      DetectInOrder(r.text, st, i.found, mode);
      var ss := i.ctx.MintAll(st, r.text, spans).1;
      ss.Ok? ==> SpansKept(later, r.text, spans, ss.value)
                 && MatchedExactly(TableOf(i.ctx.ciph, later), r.text, spans, ss.value)
  }

  ghost predicate RegionsKept(later: State, st: State, regions: seq<Region>, inputs: seq<Input>, mode: FailMode)
    requires Ready(regions, inputs)
    decreases |regions|
  {
    regions == []
    || (RegionKept(later, st, regions[0], inputs[0], mode)
        && RegionsKept(later, Next(st, map[], regions[0], inputs[0], mode).0, regions[1..], inputs[1..], mode))
  }

  /** b differs from a at most at one path. */
  ghost predicate SameBut(a: Substitutions, b: Substitutions, path: Path) {
    (forall k | k in b && k != path :: k in a)
    && forall k | k in a :: k in b && (k != path ==> b[k] == a[k])
  }

  lemma NextKeeps(st: State, subs: Substitutions, r: Region, i: Input, mode: FailMode)
    requires i.found.Valid(r.text) && i.ctx.Valid() && Minted(i.ctx.ciph, RequiredLookahead(i.ctx.pools), st)
    ensures var (st', next) := Next(st, subs, r, i, mode);
      Minted(i.ctx.ciph, RequiredLookahead(i.ctx.pools), st') && Grows(st, st')
      && st' == Next(st, map[], r, i, mode).0
      && (next.Ok? ==> SameBut(subs, next.value, r.path))
  {
    hide Minted, Grows, Detect, Context.MintAll, RequiredLookahead, Splice, InOrder, SpanDone, Detected.Valid;
    GrowsSelf(st);
    if Detect(r.text, st, i.found, mode).Ok? {
      DetectInOrder(r.text, st, i.found, mode);
      MintAllKeeps(i.ctx, st, r.text, Detect(r.text, st, i.found, mode).value);
    }
  }

  /** Whatever the detectors find, and even when a region fails, the session keeps its
      invariant and only learns. */
  lemma {:induction false} SanitizedKeeps(ciph: Ff1.Cipher, pools: Pools, st: State, subs: Substitutions,
                                          regions: seq<Region>, inputs: seq<Input>, mode: FailMode)
    requires Ready(regions, inputs) && Legal(ciph, pools, inputs) && Minted(ciph, RequiredLookahead(pools), st)
    ensures var (st', final) := Sanitized(st, subs, regions, inputs, mode);
      Minted(ciph, RequiredLookahead(pools), st') && Grows(st, st')
      && (final.Ok? ==> forall k | k !in subs && k in final.value :: exists r :: r in regions && r.path == k)
      && (final.Ok? ==> forall k | k in subs && (forall r | r in regions :: r.path != k) ::
            k in final.value && final.value[k] == subs[k])
    decreases |regions|
  {
    hide Minted, Grows, Next, RequiredLookahead, Detected.Valid, Context.Valid;
    GrowsSelf(st);
    if regions != [] {
      NextKeeps(st, subs, regions[0], inputs[0], mode);
      var (st1, next) := Next(st, subs, regions[0], inputs[0], mode);
      if next.Ok? {
        SanitizedKeeps(ciph, pools, st1, next.value, regions[1..], inputs[1..], mode);
        GrowsTrans(st, st1, Sanitized(st1, next.value, regions[1..], inputs[1..], mode).0);
        assert regions[0] in regions;
      }
    }
  }

  /** The text sent for one region rehydrates, in any later state, to the text it had. */
  lemma RegionBack(st: State, subs: Substitutions, r: Region, i: Input, mode: FailMode, later: State)
    requires i.found.Valid(r.text) && i.ctx.Valid() && r.path !in subs
    requires Minted(i.ctx.ciph, RequiredLookahead(i.ctx.pools), st)
    requires Minted(i.ctx.ciph, RequiredLookahead(i.ctx.pools), later)
    requires Next(st, subs, r, i, mode).1.Ok? && Grows(Next(st, subs, r, i, mode).0, later)
    requires Unseen(later, r.text) && RegionKept(later, st, r, i, mode)
    ensures Rehydrate(i.ctx.ciph, later, NewText(r, Next(st, subs, r, i, mode).1.value)) == Ok(r.text)
  {
    hide Minted, Grows, Detect, Context.MintAll, RequiredLookahead, Splice, InOrder, Detected.Valid, Context.Valid;
    hide AllResolve, MatchedExactly, Unseen, SpansKept, Rehydrate, Sub, KeyFreeTo, NoMeeting, Changed;
    MintedResolves(i.ctx.ciph, RequiredLookahead(i.ctx.pools), later);
    RehydrateIsSub(i.ctx.ciph, later, r.text);
    UnseenFree(i.ctx.ciph, later, r.text, []);
    SubClean(TableOf(i.ctx.ciph, later), r.text);
    if r.path in Next(st, subs, r, i, mode).1.value {
      DetectInOrder(r.text, st, i.found, mode);
      var spans := Detect(r.text, st, i.found, mode).value;
      UnseenFree(i.ctx.ciph, later, r.text, spans);
      SplicedBack(i.ctx, st, r.text, spans, later);
    }
  }

  ghost predicate AllUnseen(later: State, regions: seq<Region>) {
    forall r | r in regions :: Unseen(later, r.text)
  }

  lemma {:induction false} RegionsBack(ciph: Ff1.Cipher, pools: Pools, st: State, subs: Substitutions,
                                       regions: seq<Region>, inputs: seq<Input>, mode: FailMode, later: State)
    requires Ready(regions, inputs) && Legal(ciph, pools, inputs) && Distinct(regions)
    requires forall r | r in regions :: r.path !in subs
    requires Minted(ciph, RequiredLookahead(pools), st) && Minted(ciph, RequiredLookahead(pools), later)
    requires var (st', final) := Sanitized(st, subs, regions, inputs, mode); final.Ok? && Grows(st', later)
    requires AllUnseen(later, regions)
    requires RegionsKept(later, st, regions, inputs, mode)
    ensures var final := Sanitized(st, subs, regions, inputs, mode).1.value;
      forall i | 0 <= i < |regions| :: Rehydrate(ciph, later, NewText(regions[i], final)) == Ok(regions[i].text)
    decreases |regions|
  {
    hide Minted, Grows, Next, RequiredLookahead, Detected.Valid, Context.Valid, Unseen, RegionKept, Rehydrate;
    if regions != [] {
      var r := regions[0];
      assert r in regions;
      NextKeeps(st, subs, r, inputs[0], mode);
      var (st1, next) := Next(st, subs, r, inputs[0], mode);
      SanitizedKeeps(ciph, pools, st1, next.value, regions[1..], inputs[1..], mode);
      GrowsTrans(st1, Sanitized(st1, next.value, regions[1..], inputs[1..], mode).0, later);
      RegionBack(st, subs, r, inputs[0], mode, later);
      HeadKept(regions, next.value, Sanitized(st1, next.value, regions[1..], inputs[1..], mode).1.value);
      RegionsBack(ciph, pools, st1, next.value, regions[1..], inputs[1..], mode, later);
    }
  }

  lemma HeadKept(regions: seq<Region>, next: Substitutions, final: Substitutions)
    requires regions != [] && Distinct(regions)
    requires forall k | k !in next && k in final :: exists r :: r in regions[1..] && r.path == k
    requires forall k | k in next && (forall r | r in regions[1..] :: r.path != k) :: k in final && final[k] == next[k]
    ensures NewText(regions[0], final) == NewText(regions[0], next)
    ensures forall r | r in regions[1..] :: r.path != regions[0].path
  {
    forall r | r in regions[1..] ensures r.path != regions[0].path {
      var j :| 0 <= j < |regions[1..]| && regions[1..][j] == r;
      assert regions[j + 1] == r;
    }
  }

  /** A rehydration pass over distinct paths gives each region its rehydrated text. */
  lemma {:induction false} RehydratedTexts(ciph: Ff1.Cipher, st: State, subs: Substitutions,
                                           regions: seq<Region>, want: seq<string>)
    requires Distinct(regions) && |want| == |regions| && forall r | r in regions :: r.path !in subs
    requires forall i | 0 <= i < |regions| :: Rehydrate(ciph, st, regions[i].text) == Ok(want[i])
    ensures var final := Rehydrated(ciph, st, subs, regions);
      final.Ok?
      && (forall i | 0 <= i < |regions| :: NewText(regions[i], final.value) == want[i])
      && (forall k | k in final.value && k !in subs ::
            exists i :: 0 <= i < |regions| && regions[i].path == k && final.value[k] == want[i])
      && (forall k | k in subs :: k in final.value && final.value[k] == subs[k])
    decreases |regions|
  {
    hide Rehydrate;
    if regions != [] {
      var r := regions[0];
      assert r in regions;
      var next := if want[0] != r.text then subs[r.path := want[0]] else subs;
      forall s | s in regions[1..] ensures s.path !in next {
        var j :| 0 <= j < |regions[1..]| && regions[1..][j] == s;
        assert regions[j + 1] == s && s in regions;
      }
      RehydratedTexts(ciph, st, next, regions[1..], want[1..]);
      var final := Rehydrated(ciph, st, next, regions[1..]).value;
      RehydratedMore(regions, want, subs, next, final);
    }
  }

  /** When every surrogate resolves, a pass raises nothing and touches its regions only. */
  lemma {:induction false} RehydratedWalked(ciph: Ff1.Cipher, st: State, subs: Substitutions, regions: seq<Region>)
    requires AllResolve(ciph, st)
    ensures var final := Rehydrated(ciph, st, subs, regions);
      final.Ok? && forall k | k in final.value && k !in subs :: exists r :: r in regions && r.path == k
    decreases |regions|
  {
    if regions != [] {
      hide Rehydrate, AllResolve, Rehydrated;
      var r := regions[0];
      RehydrateIsSub(ciph, st, r.text);
      var text := Rehydrate(ciph, st, r.text).value;
      var next := if text != r.text then subs[r.path := text] else subs;
      RehydratedCons(ciph, st, subs, regions);
      RehydratedWalked(ciph, st, next, regions[1..]);
      PathsMore(regions, subs, next, Rehydrated(ciph, st, next, regions[1..]).value);
    }
  }

  lemma RehydratedCons(ciph: Ff1.Cipher, st: State, subs: Substitutions, regions: seq<Region>)
    requires regions != [] && Rehydrate(ciph, st, regions[0].text).Ok?
    ensures var text := Rehydrate(ciph, st, regions[0].text).value;
      Rehydrated(ciph, st, subs, regions)
      == Rehydrated(ciph, st, if text != regions[0].text then subs[regions[0].path := text] else subs, regions[1..])
  {
    hide Rehydrate;
  }

  lemma PathsMore(regions: seq<Region>, subs: Substitutions, next: Substitutions, final: Substitutions)
    requires regions != [] && forall k | k in next && k !in subs :: k == regions[0].path
    requires forall k | k in final && k !in next :: exists q :: q in regions[1..] && q.path == k
    ensures forall k | k in final && k !in subs :: exists q :: q in regions && q.path == k
  {
    assert regions[0] in regions;
    forall k | k in final && k !in subs ensures exists q :: q in regions && q.path == k {
      if k !in next {
        var q :| q in regions[1..] && q.path == k;
        assert q in regions;
      }
    }
  }

  lemma RehydratedMore(regions: seq<Region>, want: seq<string>,
                       subs: Substitutions, next: Substitutions, final: Substitutions)
    requires regions != [] && |want| == |regions| && regions[0].path !in subs
    requires next == if want[0] != regions[0].text then subs[regions[0].path := want[0]] else subs
    requires forall r | r in regions[1..] :: r.path !in next
    requires Distinct(regions)
    requires forall i | 0 <= i < |regions[1..]| :: NewText(regions[1..][i], final) == want[1..][i]
    requires forall k | k in final && k !in next ::
      exists i :: 0 <= i < |regions[1..]| && regions[1..][i].path == k && final[k] == want[1..][i]
    requires forall k | k in next :: k in final && final[k] == next[k]
    ensures forall i | 0 <= i < |regions| :: NewText(regions[i], final) == want[i]
    ensures forall k | k in final && k !in subs ::
      exists i :: 0 <= i < |regions| && regions[i].path == k && final[k] == want[i]
  {
    forall i | 0 <= i < |regions| ensures NewText(regions[i], final) == want[i] {
      if i > 0 {
        assert regions[1..][i - 1] == regions[i] && want[1..][i - 1] == want[i];
      }
    }
    forall k | k in final && k !in subs
      ensures exists i :: 0 <= i < |regions| && regions[i].path == k && final[k] == want[i]
    {
      if k !in next {
        var i :| 0 <= i < |regions[1..]| && regions[1..][i].path == k && final[k] == want[1..][i];
        assert regions[i + 1].path == k && final[k] == want[i + 1];
      }
    }
  }

  /** Substituting and substituting back leaves every leaf as it was. */
  lemma RetextTwice(ls: seq<Leaf>, subs: Substitutions, back: Substitutions)
    requires forall i | 0 <= i < |Texts(ls)| ::
      NewText(Region(Texts(ls)[i].path, NewText(Texts(ls)[i], subs)), back) == Texts(ls)[i].text
    ensures RetextAll(RetextAll(ls, subs), back) == ls
  {
    forall l | l in ls ensures Retext(Retext(l, subs), back) == l {
      if l.value.Str? {
        TextsHold(ls, l);
        var r := Region(l.path, l.value.text);
        var i :| 0 <= i < |Texts(ls)| && Texts(ls)[i] == r;
        assert Retext(l, subs) == Leaf(l.path, Str(NewText(r, subs)));
      }
    }
    assert forall i | 0 <= i < |ls| :: ls[i] in ls;
  }

  lemma {:induction false} TextsHold(ls: seq<Leaf>, l: Leaf)
    requires l in ls && l.value.Str?
    ensures Region(l.path, l.value.text) in Texts(ls)
  {
    if ls[0] != l {
      TextsHold(ls[1..], l);
    }
  }

  /** A sanitized body and what rehydration makes of it later in the session. */
  datatype BodyExchange = BodyExchange(codec: SizedCodec, ciph: Ff1.Cipher, pools: Pools, st: State,
                                       body: Json, inputs: seq<Input>, mode: FailMode, later: State) {
    function Regions(): seq<Region> {
      Walk(codec, body, [])
    }

    ghost predicate Succeeds() {
      Reparses(codec) && Proper(body) && Ready(Regions(), inputs) && Legal(ciph, pools, inputs)
      && Minted(ciph, RequiredLookahead(pools), st) && Minted(ciph, RequiredLookahead(pools), later)
      && var (st', subs) := Sanitized(st, map[], Regions(), inputs, mode);
         subs.Ok? && Grows(st', later)
    }

    /** No surrogate known later occurs in the original texts, and every one minted still
        stands for its value and is matched in the text sent. */
    ghost predicate Apart()
      requires Succeeds()
    {
      AllUnseen(later, Regions()) && RegionsKept(later, st, Regions(), inputs, mode)
    }

    function Subs(): Substitutions
      requires Ready(Regions(), inputs) && Sanitized(st, map[], Regions(), inputs, mode).1.Ok?
    {
      Sanitized(st, map[], Regions(), inputs, mode).1.value
    }

    function SentBody(): Json
      requires Ready(Regions(), inputs) && Sanitized(st, map[], Regions(), inputs, mode).1.Ok?
    {
      Rebuild(codec, body, [], Subs())
    }

    /** Sanitizing substitutes only in walked regions; and a walk of the sent body meets the
        same paths if and only if no new text is unwrapped. */
    lemma SentRewalks()
      requires Succeeds()
      ensures Proper(SentBody()) && Walked(codec, body, Subs())
      ensures Leaves(codec, SentBody(), []) == ExpandAll(codec, Leaves(codec, body, []), Subs())
      ensures Walk(codec, SentBody(), []) == Resubstituted(Regions(), Subs()) <==> Opaque(codec, Subs())
      ensures Opaque(codec, Subs()) ==>
        Leaves(codec, SentBody(), []) == RetextAll(Leaves(codec, body, []), Subs())
    {
      hide Minted, Grows, Walk, Leaves, Rebuild, Applied, Sanitized, Opaque, Proper, RequiredLookahead;
      SanitizedKeeps(ciph, pools, st, map[], Regions(), inputs, mode);
      RebuildExpands(codec, body, Subs());
      RebuildRewalks(codec, body, Subs());
    }

    /** What rehydrating the sent body substitutes. */
    ghost function Back(): Result<Substitutions>
      requires Succeeds()
    {
      Rehydrated(ciph, later, map[], Walk(codec, SentBody(), []))
    }

    /** Rehydrating the sent body raises nothing; and it gives back the original body, leaf
        for leaf, numbers and empty containers included, if and only if no sanitized text is
        a JSON container where `arguments` would be unwrapped. */
    lemma RestoresBody()
      requires Succeeds() && Apart()
      ensures Back().Ok?
      ensures Leaves(codec, Rebuild(codec, SentBody(), [], Back().value), []) == Leaves(codec, body, [])
              <==> Opaque(codec, Subs())
    {
      hide Minted, Grows, Walk, Leaves, Rebuild, Sanitized, Proper, RequiredLookahead, Opaque, Back, Legal, Reparses;
      BackWalked();
      if Opaque(codec, Subs()) {
        OpaqueRestores();
      } else {
        UnwrappedIsNotRestored();
      }
    }

    lemma BackWalked()
      requires Succeeds()
      ensures Back().Ok? && Walked(codec, SentBody(), Back().value)
    {
      hide Minted, Grows, Walk, Leaves, Rebuild, Applied, Sanitized, Proper, RequiredLookahead, Rehydrate;
      hide AllResolve, Rehydrated, Legal, Reparses;
      MintedResolves(ciph, RequiredLookahead(pools), later);
      RehydratedWalked(ciph, later, map[], Walk(codec, SentBody(), []));
    }

    lemma OpaqueRestores()
      requires Succeeds() && Apart() && Opaque(codec, Subs())
      ensures Back().Ok?
      ensures Leaves(codec, Rebuild(codec, SentBody(), [], Back().value), []) == Leaves(codec, body, [])
    {
      hide Minted, Grows, Walk, Leaves, Rebuild, Applied, Sanitized, Opaque, Proper, RequiredLookahead, Rehydrate;
      hide AllUnseen, RegionsKept, Rehydrated, Texts, Legal, Reparses;
      BackTexts();
      SentRewalks();
      WantedOpaque(Walk(codec, SentBody(), []), Wanted(), Back().value);
      LeavesRestored(Back().value);
    }

    lemma UnwrappedIsNotRestored()
      requires Succeeds() && !Opaque(codec, Subs())
      ensures Back().Ok?
      ensures Leaves(codec, Rebuild(codec, SentBody(), [], Back().value), []) != Leaves(codec, body, [])
    {
      hide Minted, Grows, Walk, Leaves, Rebuild, Applied, Sanitized, Proper, RequiredLookahead, Rehydrate;
      hide Rehydrated, Texts, Legal, Reparses, Unwrap, Back;
      SentRewalks();
      BackWalked();
      RebuildExpands(codec, SentBody(), Back().value);
      var k :| k in Subs() && Unwrap(codec, k, Subs()[k]).Some?;
      var r :| r in Walk(codec, body, []) && r.path == k;
      WalkIsTexts(codec, body, []);
      TextsFrom(Leaves(codec, body, []), r);
      UnwrappedIsLost(codec, body, Subs(), Back().value, k);
    }

    /** The texts rehydration should find. */
    function Wanted(): (want: seq<string>)
      ensures |want| == |Regions()| && forall i | 0 <= i < |want| :: want[i] == Regions()[i].text
    {
      seq(|Regions()|, i requires 0 <= i < |Regions()| => Regions()[i].text)
    }

    lemma BackTexts()
      requires Succeeds() && Apart() && Opaque(codec, Subs())
      ensures var sent, back := Walk(codec, SentBody(), []), Back();
        |sent| == |Wanted()| && back.Ok?
        && (forall i | 0 <= i < |sent| :: NewText(sent[i], back.value) == Wanted()[i])
        && forall k | k in back.value ::
             exists i :: 0 <= i < |sent| && sent[i].path == k && back.value[k] == Wanted()[i]
    {
      hide Minted, Grows, Walk, Leaves, Rebuild, Applied, Sanitized, Opaque, Proper, RequiredLookahead, Rehydrate;
      hide AllUnseen, RegionsKept, Rehydrated, Texts, Legal, Reparses;
      SentRewalks();
      WalkDistinct(codec, body, []);
      RegionsBack(ciph, pools, st, map[], Regions(), inputs, mode, later);
      RehydratedTexts(ciph, later, map[], Walk(codec, SentBody(), []), Wanted());
    }

    lemma LeavesRestored(back: Substitutions)
      requires Succeeds() && Opaque(codec, Subs()) && Opaque(codec, back) && Walked(codec, SentBody(), back)
      requires var rs := Regions();
        forall i | 0 <= i < |rs| :: NewText(Region(rs[i].path, NewText(rs[i], Subs())), back) == rs[i].text
      ensures Leaves(codec, Rebuild(codec, SentBody(), [], back), []) == Leaves(codec, body, [])
    {
      hide Minted, Grows, Walk, Leaves, Rebuild, Applied, Sanitized, Opaque, Proper, RequiredLookahead, Texts;
      hide Legal, Reparses, Walked;
      SentRewalks();
      RebuildRewalks(codec, SentBody(), back);
      WalkIsTexts(codec, body, []);
      RetextTwice(Leaves(codec, body, []), Subs(), back);
    }

    lemma WantedOpaque(sent: seq<Region>, want: seq<string>, back: Substitutions)
      requires |sent| == |want| == |Regions()|
      requires forall i | 0 <= i < |sent| :: sent[i].path == Regions()[i].path && want[i] == Regions()[i].text
      requires forall k | k in back :: exists i :: 0 <= i < |sent| && sent[i].path == k && back[k] == want[i]
      ensures Opaque(codec, back)
      ensures forall k | k in back :: exists r :: r in sent && r.path == k
    {
      hide Walk, Unwrap;
      WalkedIsOpaque(codec, body, []);
      forall k | k in back ensures Unwrap(codec, k, back[k]).None? && exists r :: r in sent && r.path == k {
        var i :| 0 <= i < |sent| && sent[i].path == k && back[k] == want[i];
        assert Regions()[i] in Regions() && sent[i] in sent;
      }
    }
  }
}
