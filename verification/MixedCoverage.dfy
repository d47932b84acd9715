/** PAN, IFSC and vehicle marks through the engine, with shapes, positions and radixes
    written out (src/surrogate/domains/pan.py, ifsc.py, vehicle_registration.py). */
module MixedCoverage {
  import opened Prelude
  import opened MixedRadix
  import opened MixedRadixFf1
  import opened Alphabet
  import opened Layouts
  import opened MixedDomains
  import opened Engine
  import opened EngineCoverage
  import Ff1

  // -------------------------------------------------------------- surrogates by walk

  /** Symbols e are where the walk under this tweak, encrypting or decrypting, leads. */
  ghost predicate Walked(ciph: Ff1.Cipher, encrypting: bool, tweak: string,
                         symbols: seq<nat>, radixes: seq<nat>, e: seq<nat>)
    requires |symbols| == |radixes| && IsAscii(tweak)
  {
    exists bits: nat ::
      WalksTo(if encrypting then EncryptStep(ciph, Ascii(tweak), bits) else DecryptStep(ciph, Ascii(tweak), bits),
              bits, symbols, radixes, e)
  }

  lemma {:induction false} SizeBound(radixes: seq<nat>)
    requires forall i | 0 <= i < |radixes| :: 0 < radixes[i] <= 64
    ensures 0 < DomainSize(radixes) <= Pow(2, 6 * |radixes|)
  {
    if radixes != [] {
      var n := |radixes| - 1;
      SizeBound(radixes[..n]);
      assert Pow(2, 6) == 64;
      PowAdd(2, 6 * n, 6);
      MulMono(DomainSize(radixes[..n]), Pow(2, 6 * n), radixes[n]);
      MulMono(radixes[n], 64, Pow(2, 6 * n));
    }
  }

  lemma BitsBound(radixes: seq<nat>)
    requires (forall i | 0 <= i < |radixes| :: 0 < radixes[i] <= 64) && 0 < |radixes| < 100
    ensures DomainSize(radixes) > 0 && CoveringBits(DomainSize(radixes)) <= 6 * |radixes|
  {
    SizeBound(radixes);
    var size := DomainSize(radixes);
    var k := Ff1.CeilLog2(size);
    if k > 6 * |radixes| {
      PowMono(2, 6 * |radixes|, k - 1);
    }
  }

  lemma WidthUnique(size: nat, bits: nat)
    requires size > 0 && bits >= 2 && Pow(2, bits - 1) < size <= Pow(2, bits)
    ensures bits == CoveringBits(size)
  {
    CoveringTight(size);
    CoveringLeast(size);
    var k := CoveringBits(size);
    if bits < k {
      PowMono(2, bits, k - 1);
    } else if k < bits {
      PowMono(2, k, bits - 1);
    }
  }

  lemma CombinedWalked(ciph: Ff1.Cipher, tweak: string, symbols: seq<nat>, radixes: seq<nat>)
    requires InRange(symbols, radixes) && IsAscii(tweak) && |tweak| < 100 && 0 < |radixes| < 100
    requires forall i | 0 <= i < |radixes| :: 0 < radixes[i] <= 64
    ensures var r := EncryptCombined(ciph, Ascii(tweak), symbols, radixes);
      if r.Ok? then Walked(ciph, true, tweak, symbols, radixes, r.value)
      else r == Err(SurrogateDomainError) && forall e :: !Walked(ciph, true, tweak, symbols, radixes, e)
    ensures var r := DecryptCombined(ciph, Ascii(tweak), symbols, radixes);
      if r.Ok? then Walked(ciph, false, tweak, symbols, radixes, r.value)
      else r == Err(SurrogateDomainError) && forall e :: !Walked(ciph, false, tweak, symbols, radixes, e)
  {
    hide WalksTo, EncryptStep, DecryptStep, EncryptCombined, DecryptCombined, CoveringBits, Ascii, DomainSize;
    BitsBound(radixes);
    var own := CoveringBits(DomainSize(radixes));
    CombinedIs(ciph, Ascii(tweak), symbols, radixes, own);
    forall step: nat -> nat, bits: nat, e | WalksTo(step, bits, symbols, radixes, e) ensures bits == own {
      WalksWidth(step, bits, symbols, radixes, e);
      WidthUnique(DomainSize(radixes), bits);
    }
  }

  lemma WalksWidth(step: nat -> nat, bits: nat, symbols: seq<nat>, radixes: seq<nat>, e: seq<nat>)
    requires |symbols| == |radixes| && WalksTo(step, bits, symbols, radixes, e)
    ensures bits >= 2 && Pow(2, bits - 1) < DomainSize(radixes) <= Pow(2, bits)
  {
  }

  lemma ExtractInRange(l: Layout, v: string)
    requires l.WellFormed() && l.Fits(v)
    ensures InRange(l.Extract(v), l.radixes)
  {
  }

  /** A layout's surrogates in terms of the walk on its symbols. */
  ghost predicate IsLayoutWalk(l: Layout, ciph: Ff1.Cipher, encrypting: bool, tweak: string,
                               value: string, r: Result<string>)
    requires l.WellFormed() && l.Fits(value) && IsAscii(tweak)
  {
    match r
    case Ok(s) =>
      l.Fits(s) && l.SameFrozen(s, value)
      && Walked(ciph, encrypting, tweak, l.Extract(value), l.radixes, l.Extract(s))
    case Err(x) =>
      x == SurrogateDomainError && forall e :: !Walked(ciph, encrypting, tweak, l.Extract(value), l.radixes, e)
  }

  lemma LayoutWalks(l: Layout, ciph: Ff1.Cipher, tweak: string, value: string)
    requires l.WellFormed() && l.Fits(value) && IsAscii(tweak) && |tweak| < 100 && l.tweak == Ascii(tweak)
    requires 0 < |l.radixes| < 100
    ensures IsLayoutWalk(l, ciph, true, tweak, value, l.Encrypt(ciph, value))
    ensures IsLayoutWalk(l, ciph, false, tweak, value, l.Decrypt(ciph, value))
  {
    hide Walked, Layout.Encrypt, Layout.Decrypt, Layout.Extract, EncryptCombined, DecryptCombined, Ascii;
    ExtractInRange(l, value);
    LayoutIs(l, ciph, value);
    assert forall i | 0 <= i < |l.radixes| :: IsRadix(l.radixes[i]) by {
      assert |l.radixes| == |l.positions|;
    }
    CombinedWalked(ciph, tweak, l.Extract(value), l.radixes);
  }

  // ---------------------------------------------------------------------- PAN

  const PAN_RADIXES: seq<nat> := [26, 26, 26, 26, 26, 10, 10, 10, 10]

  /** The PAN of the same category letter whose other characters are where the walk leads; or
      an error when it leads nowhere. */
  ghost predicate PanResult(ciph: Ff1.Cipher, encrypting: bool, value: string, r: Result<string>)
    requires IsPan(value)
  {
    match r
    case Ok(s) =>
      IsPan(s) && s[3] == value[3]
      && Walked(ciph, encrypting, "PAN", PanSymbols(value), PAN_RADIXES, PanSymbols(s))
    case Err(x) =>
      x == SurrogateDomainError && forall e :: !Walked(ciph, encrypting, "PAN", PanSymbols(value), PAN_RADIXES, e)
  }

  /** PANs, and nothing else, are encrypted and decrypted so. */
  lemma PanIs(ciph: Ff1.Cipher, value: string)
    ensures var s, v := Encrypt(ciph, Pan, value), Decrypt(ciph, Pan, value);
      if IsPan(value) then PanResult(ciph, true, value, s) && PanResult(ciph, false, value, v)
      else s == v == Err(SurrogateDomainError)
  {
    hide Layout.Fits, Layout.Extract, Layout.WellFormed, Layout.Encrypt, Layout.Decrypt, Ascii, Walked, PanSymbols;
    Tweaks();
    PanLayout(value);
    if IsPan(value) {
      LayoutWalks(PAN, ciph, "PAN", value);
      PanOf(PAN, ciph, true, value, PAN.Encrypt(ciph, value));
      PanOf(PAN, ciph, false, value, PAN.Decrypt(ciph, value));
    }
  }

  lemma PanOf(l: Layout, ciph: Ff1.Cipher, encrypting: bool, value: string, r: Result<string>)
    requires l.WellFormed() && PanShaped(l) && l.Fits(value) && IsPan(value) && IsAscii("PAN")
    requires IsLayoutWalk(l, ciph, encrypting, "PAN", value, r)
    ensures PanResult(ciph, encrypting, value, r)
  {
    hide Layout.Fits, Layout.Extract, Layout.WellFormed, Walked, PanSymbols, IsPan, IsAscii;
    PanForward(l, value);
    if r.Ok? {
      PanForward(l, r.value);
      assert 3 in l.frozen;
    }
  }

  // --------------------------------------------------------------------- IFSC

  /** Eleven characters: four letters, a zero, six letters or digits. */
  predicate IsIfsc(v: string) {
    |v| == 11 && Letter(v[0]) && Letter(v[1]) && Letter(v[2]) && Letter(v[3]) && v[4] == '0'
    && forall i | 5 <= i < 11 :: Letter(v[i]) || Digit(v[i])
  }

  function IfscSymbols(v: string): seq<nat>
    requires IsIfsc(v)
  {
    [L(v[0]), L(v[1]), L(v[2]), L(v[3]), X(v[5]), X(v[6]), X(v[7]), X(v[8]), X(v[9]), X(v[10])]
  }

  const IFSC_RADIXES: seq<nat> := [26, 26, 26, 26, 36, 36, 36, 36, 36, 36]

  predicate IfscShaped(l: Layout) {
    l.length == 11 && |l.positions| == |l.radixes| == 10 && l.frozen == map[4 := "0"]
    && l.positions == [0, 1, 2, 3, 5, 6, 7, 8, 9, 10] && l.radixes == IFSC_RADIXES
  }

  lemma Alphabets()
    ensures forall c: char :: InAlphabet(10, c) == Digit(c)
    ensures forall c: char :: InAlphabet(26, c) == Letter(c)
    ensures forall c: char :: InAlphabet(36, c) == (Digit(c) || Letter(c))
    ensures forall c: char | Digit(c) :: CharValue(10, c) == D(c)
    ensures forall c: char | Letter(c) :: CharValue(26, c) == L(c)
    ensures forall c: char | Digit(c) || Letter(c) :: CharValue(36, c) == X(c)
  {
  }

  lemma IfscForward(l: Layout, v: string)
    requires l.WellFormed() && IfscShaped(l) && l.Fits(v)
    ensures IsIfsc(v) && l.Extract(v) == IfscSymbols(v)
  {
    hide Layout.WellFormed, InAlphabet, CharValue, Layout.Extract;
    ExtractLength(l, v);
    Alphabets();
    FitsAt(l, v, 0, 0, 26);
    FitsAt(l, v, 1, 1, 26);
    FitsAt(l, v, 2, 2, 26);
    FitsAt(l, v, 3, 3, 26);
    FitsAt(l, v, 4, 5, 36);
    FitsAt(l, v, 5, 6, 36);
    FitsAt(l, v, 6, 7, 36);
    FitsAt(l, v, 7, 8, 36);
    FitsAt(l, v, 8, 9, 36);
    FitsAt(l, v, 9, 10, 36);
    assert 4 in l.frozen && v[4] in l.frozen[4];
  }

  lemma IfscBackward(l: Layout, v: string)
    requires l.WellFormed() && IfscShaped(l) && IsIfsc(v)
    ensures l.Fits(v)
  {
    hide Layout.WellFormed, InAlphabet;
    Alphabets();
    forall k | 0 <= k < 10 ensures InAlphabet(l.radixes[k], v[l.positions[k]]) {
    }
  }

  lemma IfscLayout(v: string)
    ensures IFSC.WellFormed() && IfscShaped(IFSC)
    ensures IFSC.Fits(v) <==> IsIfsc(v)
    ensures IsIfsc(v) ==> IFSC.Extract(v) == IfscSymbols(v)
  {
    LayoutsWellFormed();
    hide Layout.WellFormed, Layout.Fits, Layout.Extract, IsIfsc;
    if IFSC.Fits(v) {
      IfscForward(IFSC, v);
    }
    if IsIfsc(v) {
      IfscBackward(IFSC, v);
      IfscForward(IFSC, v);
    }
  }

  ghost predicate IfscResult(ciph: Ff1.Cipher, encrypting: bool, value: string, r: Result<string>)
    requires IsIfsc(value)
  {
    match r
    case Ok(s) => IsIfsc(s) && Walked(ciph, encrypting, "IFSC", IfscSymbols(value), IFSC_RADIXES, IfscSymbols(s))
    case Err(x) =>
      x == SurrogateDomainError && forall e :: !Walked(ciph, encrypting, "IFSC", IfscSymbols(value), IFSC_RADIXES, e)
  }

  /** IFSCs, and nothing else, are encrypted and decrypted so. */
  lemma IfscIs(ciph: Ff1.Cipher, value: string)
    ensures var s, v := Encrypt(ciph, Ifsc, value), Decrypt(ciph, Ifsc, value);
      if IsIfsc(value) then IfscResult(ciph, true, value, s) && IfscResult(ciph, false, value, v)
      else s == v == Err(SurrogateDomainError)
  {
    hide Layout.Fits, Layout.Extract, Layout.WellFormed, Layout.Encrypt, Layout.Decrypt;
    hide Ascii, Walked, IfscSymbols, IsIfsc;
    Tweaks();
    IfscLayout(value);
    if IsIfsc(value) {
      LayoutWalks(IFSC, ciph, "IFSC", value);
      IfscOf(IFSC, ciph, true, value, IFSC.Encrypt(ciph, value));
      IfscOf(IFSC, ciph, false, value, IFSC.Decrypt(ciph, value));
    }
  }

  lemma IfscOf(l: Layout, ciph: Ff1.Cipher, encrypting: bool, value: string, r: Result<string>)
    requires l.WellFormed() && IfscShaped(l) && l.Fits(value) && IsIfsc(value) && IsAscii("IFSC")
    requires IsLayoutWalk(l, ciph, encrypting, "IFSC", value, r)
    ensures IfscResult(ciph, encrypting, value, r)
  {
    hide Layout.Fits, Layout.Extract, Layout.WellFormed, Walked, IfscSymbols, IsIfsc, IsAscii;
    IfscForward(l, value);
    if r.Ok? {
      IfscForward(l, r.value);
    }
  }

  // ------------------------------------------------------------- vehicle marks

  /** Two letters, one or two digits, one to three letters, four digits. */
  predicate IsState(v: string, district: nat, series: nat) {
    1 <= district <= 2 && 1 <= series <= 3 && |v| == 6 + district + series
    && forall i | 0 <= i < |v| ::
      if i < 2 || 2 + district <= i < 2 + district + series then Letter(v[i]) else Digit(v[i])
  }

  /** Two digits, BH, four digits, one or two letters. */
  predicate IsBharat(v: string, suffix: nat) {
    1 <= suffix <= 2 && |v| == 8 + suffix && v[2] == 'B' && v[3] == 'H'
    && (forall i | 0 <= i < 8 && i != 2 && i != 3 :: Digit(v[i])) && forall i | 8 <= i < |v| :: Letter(v[i])
  }

  /** The value without the newline its pattern tolerates. */
  function Trimmed(v: string): string {
    if v != "" && v[|v| - 1] == '\n' then v[..|v| - 1] else v
  }

  predicate LettersAndDigits(s: string) {
    forall i | 0 <= i < |s| :: Letter(s[i]) || Digit(s[i])
  }

  /** Letters and digits as symbols, with their radixes. */
  function SymbolsOf(s: string): (d: seq<nat>)
    requires LettersAndDigits(s)
    ensures |d| == |s|
  {
    seq(|s|, i requires 0 <= i < |s| => if Letter(s[i]) then L(s[i]) else D(s[i]))
  }

  function RadixesOf(s: string): (r: seq<nat>)
    ensures |r| == |s|
  {
    seq(|s|, i requires 0 <= i < |s| => if Letter(s[i]) then 26 else 10)
  }

  /** The free characters of a mark: all, or all but the BH. */
  function Free(v: string, bharat: bool): string
    requires bharat ==> |v| >= 4
  {
    if bharat then v[..2] + v[4..] else v
  }

  lemma StateShape(v: string, district: nat, series: nat)
    requires 1 <= district <= 2 && 1 <= series <= 3
    ensures StateLayout(district, series).Fits(v) <==> IsState(v, district, series)
    ensures IsState(v, district, series) ==>
      LettersAndDigits(v) && StateLayout(district, series).Extract(v) == SymbolsOf(v)
      && StateLayout(district, series).radixes == RadixesOf(v)
  {
    hide Layout.WellFormed;
    Alphabets();
    var l := StateLayout(district, series);
    if l.Fits(v) {
      FitsState(district, series, v);
    }
    if IsState(v, district, series) {
      forall k | 0 <= k < |l.positions| ensures InAlphabet(l.radixes[k], v[l.positions[k]]) {
      }
    }
  }

  lemma BharatShape(v: string, suffix: nat)
    requires 1 <= suffix <= 2
    ensures BharatLayout(suffix).Fits(v) <==> IsBharat(v, suffix)
    ensures IsBharat(v, suffix) ==>
      LettersAndDigits(Free(v, true)) && BharatLayout(suffix).Extract(v) == SymbolsOf(Free(v, true))
      && BharatLayout(suffix).radixes == RadixesOf(Free(v, true))
  {
    hide Layout.WellFormed;
    Alphabets();
    var l := BharatLayout(suffix);
    if l.Fits(v) {
      assert 2 in l.frozen && 3 in l.frozen;
      forall i | 0 <= i < |v| && i != 2 && i != 3
        ensures if i < 8 then Digit(v[i]) else Letter(v[i])
      {
        var k := if i < 2 then i else i - 2;
        assert l.positions[k] == i && InAlphabet(l.radixes[k], v[l.positions[k]]);
      }
    }
    if IsBharat(v, suffix) {
      forall k | 0 <= k < |l.positions| ensures InAlphabet(l.radixes[k], v[l.positions[k]]) {
      }
    }
  }

  lemma TrimmedIs(v: string)
    ensures Core(v) == Trimmed(v)
  {
  }

  /** The mark of the same shape whose free characters are where the walk leads. */
  ghost predicate MarkResult(ciph: Ff1.Cipher, encrypting: bool, core: string, bharat: bool, r: Result<string>)
    requires |core| >= 4 && LettersAndDigits(Free(core, bharat))
  {
    var free := Free(core, bharat);
    match r
    case Ok(s) =>
      |s| == |core| && LettersAndDigits(Free(s, bharat))
      && Walked(ciph, encrypting, "VEHICLE_REG", SymbolsOf(free), RadixesOf(free), SymbolsOf(Free(s, bharat)))
    case Err(x) =>
      x == SurrogateDomainError
      && forall e :: !Walked(ciph, encrypting, "VEHICLE_REG", SymbolsOf(free), RadixesOf(free), e)
  }

  lemma ParseIs(m: Mark, value: string)
    requires m.Legal() && m.Of().Fits(Trimmed(value))
    ensures Parse(value) == Some(m)
  {
    hide Mark.Of, Layout.Fits, FirstMark;
    TrimmedIs(value);
    FirstMarkFits(MARKS, Trimmed(value));
    LegalMark(m);
  }

  lemma LegalMark(m: Mark)
    requires m.Legal()
    ensures m in MARKS
  {
    assert MARKS[0] == State(2, 3) && MARKS[1] == State(2, 2) && MARKS[2] == State(2, 1) && MARKS[3] == State(1, 3);
    assert MARKS[4] == State(1, 2) && MARKS[5] == State(1, 1) && MARKS[6] == Bharat(2) && MARKS[7] == Bharat(1);
  }

  lemma MarkWalks(m: Mark, l: Layout, ciph: Ff1.Cipher, value: string)
    requires m.Legal() && l == m.Of() && l.Fits(Trimmed(value))
    ensures IsLayoutWalk(l, ciph, true, "VEHICLE_REG", Trimmed(value), Encrypt(ciph, VehicleReg, value))
    ensures IsLayoutWalk(l, ciph, false, "VEHICLE_REG", Trimmed(value), Decrypt(ciph, VehicleReg, value))
  {
    hide Mark.Of, Layout.Fits, Layout.Encrypt, Layout.Decrypt, Parse, IsLayoutWalk, Ascii, Layout.WellFormed;
    Tweaks();
    TrimmedIs(value);
    ParseIs(m, value);
    MarkTweak(m);
    LayoutWalks(l, ciph, "VEHICLE_REG", Trimmed(value));
  }

  lemma MarkTweak(m: Mark)
    requires m.Legal()
    ensures m.Of().tweak == VEHICLE_TWEAK && 0 < |m.Of().radixes| < 100
  {
  }

  /** State-code marks keep district and series lengths. */
  lemma StateIs(ciph: Ff1.Cipher, value: string, district: nat, series: nat)
    requires IsState(Trimmed(value), district, series)
    ensures LettersAndDigits(Trimmed(value))
    ensures MarkResult(ciph, true, Trimmed(value), false, Encrypt(ciph, VehicleReg, value))
    ensures MarkResult(ciph, false, Trimmed(value), false, Decrypt(ciph, VehicleReg, value))
    ensures Encrypt(ciph, VehicleReg, value).Ok? ==> IsState(Encrypt(ciph, VehicleReg, value).value, district, series)
    ensures Decrypt(ciph, VehicleReg, value).Ok? ==> IsState(Decrypt(ciph, VehicleReg, value).value, district, series)
  {
    hide Layout.Fits, Layout.Extract, Layout.WellFormed, Walked, IsState, SymbolsOf, RadixesOf, LettersAndDigits;
    hide Encrypt, Decrypt, StateLayout;
    var core := Trimmed(value);
    StateLength(core, district, series);
    StateShape(core, district, series);
    MarkWalks(State(district, series), StateLayout(district, series), ciph, value);
    forall s: string
      ensures StateLayout(district, series).Fits(s) <==> IsState(s, district, series)
      ensures IsState(s, district, series) ==> |s| == |core| && LettersAndDigits(s) && Free(s, false) == s
      ensures IsState(s, district, series) ==> StateLayout(district, series).Extract(s) == SymbolsOf(s)
    {
      StateShape(s, district, series);
      if IsState(s, district, series) {
        StateLength(s, district, series);
      }
    }
  }

  lemma StateLength(v: string, district: nat, series: nat)
    requires IsState(v, district, series)
    ensures |v| == 6 + district + series && 1 <= district <= 2 && 1 <= series <= 3
  {
  }

  /** BH marks keep the BH and the suffix length. */
  lemma BharatIs(ciph: Ff1.Cipher, value: string, suffix: nat)
    requires IsBharat(Trimmed(value), suffix)
    ensures LettersAndDigits(Free(Trimmed(value), true))
    ensures MarkResult(ciph, true, Trimmed(value), true, Encrypt(ciph, VehicleReg, value))
    ensures MarkResult(ciph, false, Trimmed(value), true, Decrypt(ciph, VehicleReg, value))
    ensures Encrypt(ciph, VehicleReg, value).Ok? ==> IsBharat(Encrypt(ciph, VehicleReg, value).value, suffix)
    ensures Decrypt(ciph, VehicleReg, value).Ok? ==> IsBharat(Decrypt(ciph, VehicleReg, value).value, suffix)
  {
    hide Layout.Fits, Layout.Extract, Layout.WellFormed, Walked, IsBharat, SymbolsOf, RadixesOf, LettersAndDigits;
    hide Encrypt, Decrypt, BharatLayout;
    var core := Trimmed(value);
    BharatLength(core, suffix);
    BharatShape(core, suffix);
    MarkWalks(Bharat(suffix), BharatLayout(suffix), ciph, value);
    forall s: string
      ensures BharatLayout(suffix).Fits(s) <==> IsBharat(s, suffix)
      ensures IsBharat(s, suffix) ==> |s| == |core| && LettersAndDigits(Free(s, true))
      ensures IsBharat(s, suffix) ==> BharatLayout(suffix).Extract(s) == SymbolsOf(Free(s, true))
    {
      BharatShape(s, suffix);
      if IsBharat(s, suffix) {
        BharatLength(s, suffix);
      }
    }
  }

  lemma BharatLength(v: string, suffix: nat)
    requires IsBharat(v, suffix)
    ensures |v| == 8 + suffix && 1 <= suffix <= 2
  {
  }

  /** Nothing else is a mark. */
  lemma NoMark(ciph: Ff1.Cipher, value: string)
    requires forall d, s :: !IsState(Trimmed(value), d, s)
    requires forall x :: !IsBharat(Trimmed(value), x)
    ensures Encrypt(ciph, VehicleReg, value) == Err(SurrogateDomainError)
    ensures Decrypt(ciph, VehicleReg, value) == Err(SurrogateDomainError)
  {
    hide Layout.Fits, StateLayout, BharatLayout, IsState, IsBharat, FirstMark;
    TrimmedIs(value);
    ParseFits(value);
    if Parse(value).Some? {
      MarkIsShaped(Parse(value).value, Trimmed(value));
    }
  }

  lemma MarkIsShaped(m: Mark, v: string)
    requires m.Legal() && m.Of().Fits(v)
    ensures (exists d, s :: IsState(v, d, s)) || exists x :: IsBharat(v, x)
  {
    hide Layout.Fits, StateLayout, BharatLayout, IsState, IsBharat;
    if m.State? {
      StateShape(v, m.district, m.series);
    } else {
      BharatShape(v, m.suffix);
    }
  }
}
