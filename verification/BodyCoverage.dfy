/** What happens to each region of a request body and of a response body
    (src/pipeline/sanitize.py:97-111, src/pipeline/protocol_fields.py:86-119,
    src/pipeline/rehydrate.py:134-164). */
module BodyCoverage {
  import opened Prelude
  import opened Json
  import opened FieldWalker
  import opened Rewalk
  import opened Session
  import opened Engine
  import opened Cascade
  import opened Sanitize
  import opened RequestBody
  import opened Rehydration
  import Ff1

  /** The role of a message, one of the five the protocol knows. */
  ghost predicate IsRole(r: Region) {
    (exists i :: r.path == [Key("messages"), Idx(i), Key("role")])
    && (r.text == "system" || r.text == "user" || r.text == "assistant" || r.text == "tool" || r.text == "function")
  }

  lemma RoleIs(r: Region)
    ensures IsProtocolEnumValue(r) <==> IsRole(r)
  {
    if IsProtocolEnumValue(r) {
      assert r.path == [Key("messages"), Idx(r.path[1].index), Key("role")];
    }
  }

  /** The session state in which region k is reached. */
  function StateAt(st: State, regions: seq<Region>, inputs: seq<Input>, mode: FailMode, k: nat): State
    requires Ready(regions, inputs) && k <= |regions|
  {
    ReadyPrefix(regions, inputs, k);
    Sanitized(st, map[], regions[..k], inputs[..k], mode).0
  }

  lemma ReadyPrefix(regions: seq<Region>, inputs: seq<Input>, k: nat)
    requires Ready(regions, inputs) && k <= |regions|
    ensures Ready(regions[..k], inputs[..k]) && Ready(regions[k..], inputs[k..])
  {
    hide Detected.Valid;
  }

  /** Region r, reached in state st, with new texts subs: a role is left alone; any other
      region is detected in, every span gets its surrogate, and if one of these is new the
      text is replaced by gaps and surrogates; else it is left alone too. */
  ghost predicate Covered(st: State, r: Region, i: Input, mode: FailMode, subs: Substitutions)
    requires i.found.Valid(r.text)
  {
    if IsRole(r) then r.path !in subs
    else
      Detect(r.text, st, i.found, mode).Ok?
      && var spans := Detect(r.text, st, i.found, mode).value;
         InOrder(r.text, spans) && i.ctx.MintAll(st, r.text, spans).1.Ok?
         && var ss := i.ctx.MintAll(st, r.text, spans).1.value;
            if exists j :: 0 <= j < |spans| && !spans[j].isIngressSurrogate
            then r.path in subs && subs[r.path] == Splice(r.text, spans, ss, 0)
            else r.path !in subs
  }

  lemma NextCovers(st: State, subs: Substitutions, r: Region, i: Input, mode: FailMode)
    requires i.found.Valid(r.text) && r.path !in subs && Next(st, subs, r, i, mode).1.Ok?
    ensures Covered(st, r, i, mode, Next(st, subs, r, i, mode).1.value)
    ensures SameBut(subs, Next(st, subs, r, i, mode).1.value, r.path)
  {
    hide Detect, Context.MintAll, Splice, InOrder, Detected.Valid, IsRole, IsProtocolEnumValue;
    RoleIs(r);
    if !IsRole(r) {
      DetectInOrder(r.text, st, i.found, mode);
    }
  }

  lemma CoveredStays(st: State, r: Region, i: Input, mode: FailMode, a: Substitutions, b: Substitutions)
    requires i.found.Valid(r.text) && Covered(st, r, i, mode, a)
    requires (r.path in a <==> r.path in b) && (r.path in a ==> b[r.path] == a[r.path])
    ensures Covered(st, r, i, mode, b)
  {
    hide Detect, Context.MintAll, Splice, InOrder, Detected.Valid, IsRole;
  }

  /** Once a region is done with, other regions do not touch its text. */
  lemma {:induction false} OthersKeep(st: State, subs: Substitutions, regions: seq<Region>, inputs: seq<Input>,
                                      mode: FailMode, path: Path)
    requires Ready(regions, inputs) && Sanitized(st, subs, regions, inputs, mode).1.Ok?
    requires forall r | r in regions :: r.path != path
    ensures var final := Sanitized(st, subs, regions, inputs, mode).1.value;
      (path in subs <==> path in final) && (path in subs ==> final[path] == subs[path])
    decreases |regions|
  {
    hide Next, Detected.Valid;
    if regions != [] {
      assert regions[0] in regions;
      NextSame(st, subs, regions[0], inputs[0], mode);
      var (st1, next) := Next(st, subs, regions[0], inputs[0], mode);
      OthersKeep(st1, next.value, regions[1..], inputs[1..], mode, path);
    }
  }

  lemma NextSame(st: State, subs: Substitutions, r: Region, i: Input, mode: FailMode)
    requires i.found.Valid(r.text) && Next(st, subs, r, i, mode).1.Ok?
    ensures SameBut(subs, Next(st, subs, r, i, mode).1.value, r.path)
  {
    hide Detect, Context.MintAll, Splice, InOrder, Detected.Valid, IsProtocolEnumValue;
  }

  /** The regions in order, cut at k. */
  lemma {:induction false} SanitizedSplit(st: State, subs: Substitutions, regions: seq<Region>, inputs: seq<Input>,
                                          mode: FailMode, k: nat)
    requires Ready(regions, inputs) && k <= |regions| && Sanitized(st, subs, regions, inputs, mode).1.Ok?
    ensures Ready(regions[..k], inputs[..k]) && Ready(regions[k..], inputs[k..])
    ensures var (st1, mid) := Sanitized(st, subs, regions[..k], inputs[..k], mode);
      mid.Ok?
      && Sanitized(st, subs, regions, inputs, mode) == Sanitized(st1, mid.value, regions[k..], inputs[k..], mode)
    decreases k
  {
    hide Next, Detected.Valid;
    ReadyPrefix(regions, inputs, k);
    if k == 0 {
      assert regions[..0] == [] && inputs[..0] == [] && regions[0..] == regions && inputs[0..] == inputs;
    } else {
      var (st1, next) := Next(st, subs, regions[0], inputs[0], mode);
      SanitizedSplit(st1, next.value, regions[1..], inputs[1..], mode, k - 1);
      assert regions[..k][0] == regions[0] && inputs[..k][0] == inputs[0];
      assert regions[..k][1..] == regions[1..][..k - 1] && inputs[..k][1..] == inputs[1..][..k - 1];
      assert regions[1..][k - 1..] == regions[k..] && inputs[1..][k - 1..] == inputs[k..];
    }
  }

  /** Every region of a sanitized body is covered, whichever they are: only roles, and
      regions in which nothing new is detected, are sent as they came. */
  lemma EveryRegionIsCovered(st: State, regions: seq<Region>, inputs: seq<Input>, mode: FailMode, k: nat)
    requires Ready(regions, inputs) && Distinct(regions) && k < |regions|
    requires Sanitized(st, map[], regions, inputs, mode).1.Ok?
    ensures inputs[k].found.Valid(regions[k].text)
    ensures Covered(StateAt(st, regions, inputs, mode, k), regions[k], inputs[k], mode,
                    Sanitized(st, map[], regions, inputs, mode).1.value)
  {
    hide Next, Covered, Detected.Valid;
    SanitizedSplit(st, map[], regions, inputs, mode, k);
    var (st1, mid) := Sanitized(st, map[], regions[..k], inputs[..k], mode);
    var r, i := regions[k], inputs[k];
    assert regions[k..][0] == r && inputs[k..][0] == i;
    assert regions[k..][1..] == regions[k + 1..] && inputs[k..][1..] == inputs[k + 1..];
    NotYet(st, regions, inputs, mode, k);
    var (st2, next) := Next(st1, mid.value, r, i, mode);
    NextCovers(st1, mid.value, r, i, mode);
    ReadyPrefix(regions, inputs, k + 1);
    forall q | q in regions[k + 1..] ensures q.path != r.path {
      var j :| 0 <= j < |regions[k + 1..]| && regions[k + 1..][j] == q;
      assert regions[k + 1 + j] == q;
    }
    OthersKeep(st2, next.value, regions[k + 1..], inputs[k + 1..], mode, r.path);
    CoveredStays(st1, r, i, mode, next.value, Sanitized(st, map[], regions, inputs, mode).1.value);
  }

  lemma NotYet(st: State, regions: seq<Region>, inputs: seq<Input>, mode: FailMode, k: nat)
    requires Ready(regions, inputs) && Distinct(regions) && k < |regions|
    requires Ready(regions[..k], inputs[..k]) && Sanitized(st, map[], regions[..k], inputs[..k], mode).1.Ok?
    ensures regions[k].path !in Sanitized(st, map[], regions[..k], inputs[..k], mode).1.value
  {
    hide Next, Detected.Valid;
    forall q | q in regions[..k] ensures q.path != regions[k].path {
      var j :| 0 <= j < k && regions[j] == q;
    }
    OthersKeep(st, map[], regions[..k], inputs[..k], mode, regions[k].path);
  }

  /** Region r, reached in state st, raises: it is no role, and detection fails, or one of
      its values cannot be given a surrogate. */
  ghost predicate Raises(st: State, r: Region, i: Input, mode: FailMode, e: Error, after: State)
    requires i.found.Valid(r.text)
  {
    !IsRole(r)
    && match Detect(r.text, st, i.found, mode)
       case Err(x) => x == e && after == st
       case Ok(spans) => InOrder(r.text, spans) && i.ctx.MintAll(st, r.text, spans) == (after, Err(e))
  }

  lemma NextRaises(st: State, subs: Substitutions, r: Region, i: Input, mode: FailMode)
    requires i.found.Valid(r.text) && Next(st, subs, r, i, mode).1.Err?
    ensures Raises(st, r, i, mode, Next(st, subs, r, i, mode).1.error, Next(st, subs, r, i, mode).0)
  {
    hide Detect, Context.MintAll, Splice, InOrder, Detected.Valid, IsRole, IsProtocolEnumValue;
    RoleIs(r);
    if Detect(r.text, st, i.found, mode).Ok? {
      DetectInOrder(r.text, st, i.found, mode);
    }
  }

  /** Sanitizing gets as far as region k, and that one raises. */
  ghost predicate RaisesAt(st: State, subs: Substitutions, regions: seq<Region>, inputs: seq<Input>, mode: FailMode,
                           k: nat, e: Error, after: State)
    requires Ready(regions, inputs)
  {
    k < |regions| && Ready(regions[..k], inputs[..k])
    && var (st', done) := Sanitized(st, subs, regions[..k], inputs[..k], mode);
       done.Ok? && Raises(st', regions[k], inputs[k], mode, e, after)
  }

  /** A body is refused only because some region raises; the session is left as that region
      left it. */
  lemma {:induction false} RefusedForARegion(st: State, subs: Substitutions, regions: seq<Region>, inputs: seq<Input>,
                                             mode: FailMode)
    requires Ready(regions, inputs) && Sanitized(st, subs, regions, inputs, mode).1.Err?
    ensures var (after, out) := Sanitized(st, subs, regions, inputs, mode);
      exists k :: RaisesAt(st, subs, regions, inputs, mode, k, out.error, after)
    decreases |regions|
  {
    hide Next, Raises, RaisesAt, Detected.Valid;
    var (after, out) := Sanitized(st, subs, regions, inputs, mode);
    var (st1, next) := Next(st, subs, regions[0], inputs[0], mode);
    if next.Err? {
      NextRaises(st, subs, regions[0], inputs[0], mode);
      RaisesFirst(st, subs, regions, inputs, mode, out.error, after);
    } else {
      ReadyPrefix(regions, inputs, 1);
      RefusedForARegion(st1, next.value, regions[1..], inputs[1..], mode);
      var k :| RaisesAt(st1, next.value, regions[1..], inputs[1..], mode, k, out.error, after);
      RaisesLater(st, subs, regions, inputs, mode, k, out.error, after);
    }
  }

  lemma RaisesFirst(st: State, subs: Substitutions, regions: seq<Region>, inputs: seq<Input>, mode: FailMode,
                    e: Error, after: State)
    requires Ready(regions, inputs) && regions != [] && Raises(st, regions[0], inputs[0], mode, e, after)
    ensures RaisesAt(st, subs, regions, inputs, mode, 0, e, after)
  {
    hide Raises;
    assert regions[..0] == [] && inputs[..0] == [];
  }

  lemma RaisesLater(st: State, subs: Substitutions, regions: seq<Region>, inputs: seq<Input>, mode: FailMode,
                    k: nat, e: Error, after: State)
    requires Ready(regions, inputs) && regions != [] && Ready(regions[1..], inputs[1..])
    requires Next(st, subs, regions[0], inputs[0], mode).1.Ok?
    requires var (st1, next) := Next(st, subs, regions[0], inputs[0], mode);
      RaisesAt(st1, next.value, regions[1..], inputs[1..], mode, k, e, after)
    ensures RaisesAt(st, subs, regions, inputs, mode, k + 1, e, after)
  {
    hide Raises, Next, Detected.Valid;
    ReadyPrefix(regions, inputs, k + 1);
    assert regions[..k + 1][0] == regions[0] && inputs[..k + 1][0] == inputs[0];
    assert regions[..k + 1][1..] == regions[1..][..k] && inputs[..k + 1][1..] == inputs[1..][..k];
  }

  /** Of a whole body: every walked region is covered, and the sent body's leaves are the
      original's with exactly the new texts in place. */
  lemma SentBodyIsCovered(x: BodyExchange, k: nat)
    requires x.Succeeds() && k < |x.Regions()|
    ensures Covered(StateAt(x.st, x.Regions(), x.inputs, x.mode, k), x.Regions()[k], x.inputs[k], x.mode, x.Subs())
    ensures Leaves(x.codec, x.SentBody(), []) == ExpandAll(x.codec, Leaves(x.codec, x.body, []), x.Subs())
  {
    hide Covered, Walk, Leaves, Rebuild, Sanitized;
    WalkDistinct(x.codec, x.body, []);
    EveryRegionIsCovered(x.st, x.Regions(), x.inputs, x.mode, k);
    x.SentRewalks();
  }

  // ------------------------------------------------------------------- the way back

  /** A region rehydrates, and its text is substituted exactly when that changes it. */
  ghost predicate BackCovered(ciph: Ff1.Cipher, st: State, r: Region, subs: Substitutions) {
    match Rehydrate(ciph, st, r.text)
    case Ok(text) => if text == r.text then r.path !in subs else r.path in subs && subs[r.path] == text
    case Err(_) => false
  }

  /** Region k is the first that raises, with this error. */
  ghost predicate BackRaises(ciph: Ff1.Cipher, st: State, regions: seq<Region>, k: nat, e: Error) {
    k < |regions| && Rehydrate(ciph, st, regions[k].text) == Err(e)
    && forall j | 0 <= j < k :: Rehydrate(ciph, st, regions[j].text).Ok?
  }

  ghost predicate IsPath(regions: seq<Region>, p: Path) {
    exists r | r in regions :: r.path == p
  }

  ghost predicate SameAt(a: Substitutions, b: Substitutions, p: Path) {
    (p in a <==> p in b) && (p in a ==> a[p] == b[p])
  }

  ghost predicate BackIs(ciph: Ff1.Cipher, st: State, subs: Substitutions, regions: seq<Region>,
                         out: Result<Substitutions>) {
    match out
    case Ok(final) =>
      (forall r | r in regions :: BackCovered(ciph, st, r, final))
      && forall p :: !IsPath(regions, p) ==> SameAt(subs, final, p)
    case Err(e) => exists k: nat :: BackRaises(ciph, st, regions, k, e)
  }

  lemma DistinctTail(regions: seq<Region>)
    requires Distinct(regions) && regions != []
    ensures Distinct(regions[1..]) && !IsPath(regions[1..], regions[0].path)
    ensures forall p :: IsPath(regions, p) <==> p == regions[0].path || IsPath(regions[1..], p)
  {
    var rest := regions[1..];
    forall r | r in rest ensures r.path != regions[0].path {
      var j :| 0 <= j < |rest| && rest[j] == r;
      assert regions[j + 1] == r;
    }
    assert regions[0] in regions;
    forall p ensures IsPath(regions, p) <==> p == regions[0].path || IsPath(rest, p) {
      if IsPath(rest, p) {
        var r :| r in rest && r.path == p;
        assert r in regions;
      }
      if IsPath(regions, p) {
        var r :| r in regions && r.path == p;
        assert r == regions[0] || r in rest;
      }
    }
  }

  lemma {:induction false} RehydratedIs(ciph: Ff1.Cipher, st: State, subs: Substitutions, regions: seq<Region>)
    requires Distinct(regions) && forall p | p in subs :: !IsPath(regions, p)
    ensures BackIs(ciph, st, subs, regions, Rehydrated(ciph, st, subs, regions))
    decreases |regions|
  {
    hide Rehydrate, IsPath, Distinct;
    if regions != [] {
      var r, rest := regions[0], regions[1..];
      DistinctTail(regions);
      var text := Rehydrate(ciph, st, r.text);
      if text.Err? {
        assert BackRaises(ciph, st, regions, 0, text.error);
      } else {
        var next := if text.value != r.text then subs[r.path := text.value] else subs;
        RehydratedIs(ciph, st, next, rest);
        BackLater(ciph, st, subs, regions, next, Rehydrated(ciph, st, next, rest));
      }
    }
  }

  lemma BackLater(ciph: Ff1.Cipher, st: State, subs: Substitutions, regions: seq<Region>, next: Substitutions,
                  out: Result<Substitutions>)
    requires regions != [] && Distinct(regions) && forall p | p in subs :: !IsPath(regions, p)
    requires Rehydrate(ciph, st, regions[0].text).Ok?
    requires var text := Rehydrate(ciph, st, regions[0].text).value;
      next == if text != regions[0].text then subs[regions[0].path := text] else subs
    requires BackIs(ciph, st, next, regions[1..], out)
    ensures BackIs(ciph, st, subs, regions, out)
  {
    hide Rehydrate, IsPath, Distinct;
    var r, rest := regions[0], regions[1..];
    DistinctTail(regions);
    if out.Ok? {
      assert SameAt(next, out.value, r.path);
      assert BackCovered(ciph, st, r, out.value);
      forall q | q in regions ensures BackCovered(ciph, st, q, out.value) {
        assert q == r || q in rest;
      }
      forall p | !IsPath(regions, p) ensures SameAt(subs, out.value, p) {
        assert SameAt(next, out.value, p);
      }
    } else {
      var k: nat :| BackRaises(ciph, st, rest, k, out.error);
      assert BackRaises(ciph, st, regions, k + 1, out.error) by {
        assert rest[k] == regions[k + 1];
        forall j | 0 <= j < k + 1 ensures Rehydrate(ciph, st, regions[j].text).Ok? {
          assert j > 0 ==> rest[j - 1] == regions[j];
        }
      }
    }
  }

  /** Every region of a response body is rehydrated in walk order: the new texts are those of
      the regions that change, and of nothing else; the first region that raises ends it. */
  lemma EveryRegionIsRehydrated(codec: SizedCodec, ciph: Ff1.Cipher, st: State, body: Json)
    requires Proper(body)
    ensures var regions := Walk(codec, body, []);
      match Rehydrated(ciph, st, map[], regions)
      case Ok(subs) =>
        (forall r | r in regions :: BackCovered(ciph, st, r, subs)) && forall p | p in subs :: IsPath(regions, p)
      case Err(e) => exists k: nat :: BackRaises(ciph, st, regions, k, e)
  {
    hide Rehydrate, IsPath, Distinct, BackCovered, BackRaises;
    WalkDistinct(codec, body, []);
    var regions := Walk(codec, body, []);
    RehydratedIs(ciph, st, map[], regions);
    var out := Rehydrated(ciph, st, map[], regions);
    if out.Ok? {
      forall p | p in out.value ensures IsPath(regions, p) {
        assert !IsPath(regions, p) ==> SameAt(map[], out.value, p);
      }
    }
  }
}
