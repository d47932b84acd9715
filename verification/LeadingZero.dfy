/** A number that is lost: an Aadhaar with a leading zero in a JSON list of `arguments`
    (src/pipeline/sanitize.py:97-111, src/pipeline/field_walker.py:90-96). */
module LeadingZero {
  import opened Prelude
  import opened Json
  import opened FieldWalker
  import opened Rewalk
  import opened Session
  import opened Engine
  import opened StableSort
  import opened Precedence
  import opened Cascade
  import opened Sanitize
  import opened Substitution
  import opened RoundTrip
  import opened SessionInvariant
  import opened Rehydration
  import opened SanitizeRoundTrip
  import Ff1
  import opened RequestBody
  import opened DigitStrings
  import opened DigitDomains
  import opened Checksum
  import opened Feistel
  import opened ConstantCipher

  lemma ResolveOne(s: Span)
    ensures Resolve([[s]] + []) == [s]
  {
    var x := Item(s, 0);
    assert [[s]] + [] == [[s]] && [[s]][1..] == [] && [s][1..] == [];
    assert Items([[s]], 0) == [x];
    assert [x][1..] == [] && Sort(BY_PRIORITY, [x]) == [x];
    assert [x][..0] == [] && Greedy([x]) == [x];
    assert Spans([x]) == [s] && Sort(BY_START, [s]) == [s];
  }

  const LISTED := Span(1, 13, Aadhaar, 1)

  function Listed(v: string): string {
    "[" + v + "]"
  }

  function ListBody(text: string): Json {
    Obj([("arguments", Str(text))])
  }

  const LISTED_FOUND := Detected([[LISTED]], Some([]))
  const LISTED_SPAN := ResolvedSpan(LISTED, false)

  lemma ListedDetected(v: string, mode: FailMode)
    requires |v| == 12
    ensures LISTED_FOUND.Valid(Listed(v)) && Detect(Listed(v), New(0), LISTED_FOUND, mode) == Ok([LISTED_SPAN])
  {
    hide Resolve;
    var text := Listed(v);
    ResolveOne(LISTED);
    ResolvedInBounds(text, LISTED_FOUND);
    assert LISTED_FOUND.All() == [[LISTED]] + [];
    var r := Mark(text, New(0), Resolve(LISTED_FOUND.All()));
    assert |r| == 1 && r[0] == LISTED_SPAN && r == [LISTED_SPAN];
  }

  lemma ListedMinted(ctx: Context, v: string, s: string)
    requires |v| == 12 && Encrypt(ctx.ciph, Aadhaar, v) == Ok(s)
    ensures InOrder(Listed(v), [LISTED_SPAN]) && Changed([LISTED_SPAN])
    ensures ctx.MintAll(New(0), Listed(v), [LISTED_SPAN]) == (Recorded(New(0), s, Aadhaar, ctx.now), Ok([s]))
    ensures Splice(Listed(v), [LISTED_SPAN], [s], 0) == Listed(s)
  {
    hide Encrypt;
    var text := Listed(v);
    assert text[1..13] == v && text[13..] == "]" && text[0..1] == "[";
    assert [LISTED_SPAN][0] == LISTED_SPAN && [LISTED_SPAN][..0] == [] && [LISTED_SPAN][1..] == [];
    var st := Recorded(New(0), s, Aadhaar, ctx.now);
    assert ctx.MintSpan(New(0), text, LISTED_SPAN) == (st, Ok(s));
    assert ctx.MintAll(st, text, []) == (st, Ok([]));
    assert [] + [s] == [s] && [s][1..] == [];
    assert Splice(text, [], [], 13) == "]";
  }

  lemma ListedRegion(ctx: Context, v: string, s: string, mode: FailMode)
    requires |v| == 12 && Encrypt(ctx.ciph, Aadhaar, v) == Ok(s)
    ensures LISTED_FOUND.Valid(Listed(v))
    ensures SanitizedRegion(New(0), Listed(v), Input(ctx, LISTED_FOUND), mode)
         == (Recorded(New(0), s, Aadhaar, ctx.now), Ok(Some(Listed(s))))
  {
    hide Encrypt, Detect, Context.MintAll, Splice, Changed, Listed, Recorded, Detected.Valid;
    ListedDetected(v, mode);
    ListedMinted(ctx, v, s);
  }

  /** An Aadhaar number with a leading zero in an `arguments` list: as a number it is not
      JSON, so the text is sanitized as text; its surrogate, with another first digit, makes
      a JSON list, and no later rehydration finds it. */
  lemma LeadingZeroIsLost(codec: SizedCodec, ctx: Context, v: string, s: string, n: nat,
                          mode: FailMode, later: State)
    requires |v| == 12 && Encrypt(ctx.ciph, Aadhaar, v) == Ok(s)
    requires codec.loads(Listed(v)) == None && codec.loads(Listed(s)) == Some(Arr([Number(n)]))
    ensures var regions, inputs := Walk(codec, ListBody(Listed(v)), []), [Input(ctx, LISTED_FOUND)];
      Ready(regions, inputs)
      && var subs := Sanitized(New(0), map[], regions, inputs, mode).1;
         subs.Ok? && Rebuild(codec, ListBody(Listed(v)), [], subs.value) == ListBody(Listed(s))
    ensures Walk(codec, ListBody(Listed(s)), []) == [] && Rehydrated(ctx.ciph, later, map[], []) == Ok(map[])
    ensures Rebuild(codec, ListBody(Listed(s)), [], map[]) == ListBody(Listed(s))
  {
    hide Encrypt, SanitizedRegion, Rehydrate, Detected.Valid, Walk, Rebuild;
    var i := Input(ctx, LISTED_FOUND);
    var r := Region([ARGUMENTS], Listed(v));
    var subs: Substitutions := map[[ARGUMENTS] := Listed(s)];
    ListedRegion(ctx, v, s, mode);
    ListWalks(codec, v, s, n);
    assert [r][1..] == [] && [i][1..] == [];
    assert Next(New(0), map[], r, i, mode) == (Recorded(New(0), s, Aadhaar, ctx.now), Ok(subs));
    OneField(codec, Str(Listed(v)), subs);
    ArgumentsReplaced(codec, Listed(v), subs);
    UntouchedIsIdentical(codec, ListBody(Listed(s)), [], map[]);
  }

  lemma ArgumentsReplaced(codec: SizedCodec, text: string, subs: Substitutions)
    requires [ARGUMENTS] in subs
    ensures Rebuild(codec, Str(text), [ARGUMENTS], subs) == Str(subs[[ARGUMENTS]])
  {
  }

  lemma ListWalks(codec: SizedCodec, v: string, s: string, n: nat)
    requires codec.loads(Listed(v)) == None && codec.loads(Listed(s)) == Some(Arr([Number(n)]))
    ensures Walk(codec, ListBody(Listed(v)), []) == [Region([ARGUMENTS], Listed(v))]
    ensures Walk(codec, ListBody(Listed(s)), []) == []
  {
    hide Listed, Walk;
    OneField(codec, Str(Listed(v)), map[]);
    OneField(codec, Str(Listed(s)), map[]);
    WalkString(codec, Listed(v), [ARGUMENTS]);
    WalkString(codec, Listed(s), [ARGUMENTS]);
    NumberHasNoText(codec, n, [ARGUMENTS]);
  }

  lemma WalkString(codec: SizedCodec, text: string, path: Path)
    ensures Walk(codec, Str(text), path) ==
      match Unwrap(codec, path, text)
      case Some(inner) => Walk(codec, inner, path)
      case None => [Region(path, text)]
  {
    hide Unwrap;
  }

  lemma NumberHasNoText(codec: SizedCodec, n: nat, path: Path)
    ensures Walk(codec, Arr([Number(n)]), path) == []
  {
    WalkOfContainer(codec, Arr([Number(n)]), path);
    assert Children(Arr([Number(n)])) == [(Idx(0), Number(n))] && [(Idx(0), Number(n))][1..] == [];
    assert Walk(codec, Number(n), path + [Idx(0)]) == [];
    assert WalkAll(codec, [], path) == [];
  }

  // ------------------------------------------------------------- one such number

  const PAYLOAD := "01234567890"

  /** Five times this carries into the leading zero. */
  const Y := 2000

  lemma LegalTen()
    ensures Y < Pow(256, 8) && Ff1.Legal(10, 11, |AADHAAR.tweak|) && Ff1.FeistelParams(10, 11).d == 8
  {
    hide Ff1.CeilLog2;
    Powers();
    CeilLog2Is(1000000, 20);
  }

  lemma FiveDigits(d: seq<nat>)
    requires |d| == 5 && Digits(d, 10)
    ensures Num(d, 10) == d[0] * 10000 + Num(d[1..], 10) && Num(d[1..], 10) < 10000
  {
    hide Num;
    Powers();
    assert Pow(10, 4) == 10000 && Pow(10, 1) == 10;
    assert d == [d[0]] + d[1..];
    NumAppend([d[0]], d[1..], 10);
    NumLast([d[0]], 10);
    NumNone(10);
    assert [d[0]][..0] == [];
    NumBelow(d[1..], 10);
  }

  lemma PayloadNumber()
    ensures DigitChars(PAYLOAD) && Num(Values(PAYLOAD)[..5], 10) == 1234
  {
    hide Num;
    var d := Values(PAYLOAD)[..5];
    assert d[..4][..3] == d[..3] && d[..3][..2] == d[..2] && d[..2][..1] == d[..1] && d[..1][..0] == [];
    NumNone(10);
    NumLast(d[..1], 10);
    NumLast(d[..2], 10);
    NumLast(d[..3], 10);
    NumLast(d[..4], 10);
    NumLast(d, 10);
  }

  /** Under the constant cipher the first digit of the permuted payload is a one. */
  lemma PermutedPayload()
    ensures Y < Pow(256, 8) && DigitChars(PAYLOAD)
    ensures var p := Permute(Constant(Y), AADHAAR.tweak, PAYLOAD);
      p.Ok? && |p.value| == 11 && DigitChars(p.value) && p.value[0] == '1'
  {
    hide Num, Ff1.Encrypt, Ff1.FF1Network, Ff1.FeistelParams, Constant, Added;
    Powers();
    LegalTen();
    PayloadNumber();
    var d := Values(PAYLOAD);
    FF1Adds(Y, AADHAAR.tweak, 10, d);
    var e := Ff1.Encrypt(Constant(Y), AADHAAR.tweak, 10, d).value;
    HalvesAdded(Ff1.FF1Network(Constant(Y), AADHAAR.tweak, 10, 11), Y, Halves(d[..5], d[5..]), Halves(e[..5], e[5..]),
                100000, 1000000, 10000);
    FiveDigits(e[..5]);
    assert e[0] == e[..5][0] == 1;
  }

  /** An Aadhaar number, valid check digit included, with a leading zero and a surrogate
      without one. */
  lemma AadhaarExample() returns (v: string, s: string)
    ensures |v| == |s| == 12 && AllDigits(v) && AllDigits(s) && v[0] == '0' && s[0] == '1'
    ensures VerhoeffIsValid(v) && Y < Pow(256, 8) && Encrypt(Constant(Y), Aadhaar, v) == Ok(s)
  {
    hide Constant, Permute, VerhoeffIsValid, VerhoeffCheckDigit;
    PermutedPayload();
    var p := Permute(Constant(Y), AADHAAR.tweak, PAYLOAD).value;
    AADHAAR.CheckDigitUnique(PAYLOAD, '0');
    AADHAAR.CheckDigitUnique(p, '0');
    var c := VerhoeffCheckDigit(PAYLOAD).value;
    v := PAYLOAD + [c];
    AADHAAR.CheckDigitUnique(PAYLOAD, c);
    assert v[..11] == PAYLOAD;
    s := p + [VerhoeffCheckDigit(p).value];
  }

  /** Lists of one number of twelve digits: JSON unless it has a leading zero. */
  ghost predicate ReadsNumbers(codec: SizedCodec) {
    forall d: string | |d| == 12 && AllDigits(d) ::
      if d[0] == '0' then codec.loads(Listed(d)) == None
      else exists n :: codec.loads(Listed(d)) == Some(Arr([Number(n)]))
  }

  /** So whatever codec reads such lists as JSON does loses a valid Aadhaar number. */
  lemma ValidNumberIsLost(codec: SizedCodec, ctx: Context, mode: FailMode, later: State) returns (v: string, s: string)
    requires ReadsNumbers(codec) && Y < Pow(256, 8) && ctx.ciph == Constant(Y)
    ensures |v| == 12 && VerhoeffIsValid(v) && v != s
    ensures var regions, inputs := Walk(codec, ListBody(Listed(v)), []), [Input(ctx, LISTED_FOUND)];
      Ready(regions, inputs)
      && var subs := Sanitized(New(0), map[], regions, inputs, mode).1;
         subs.Ok? && Rebuild(codec, ListBody(Listed(v)), [], subs.value) == ListBody(Listed(s))
    ensures Rehydrated(ctx.ciph, later, map[], Walk(codec, ListBody(Listed(s)), [])) == Ok(map[])
  {
    hide Constant, Encrypt, VerhoeffIsValid, Sanitized, Rebuild, Walk, Rehydrated, Detected.Valid, Listed;
    v, s := AadhaarExample();
    var n :| codec.loads(Listed(s)) == Some(Arr([Number(n)]));
    LeadingZeroIsLost(codec, ctx, v, s, n, mode, later);
  }
}
