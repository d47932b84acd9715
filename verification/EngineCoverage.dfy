/** When each entity type is given a surrogate, and which one, with lengths, shapes, tweaks
    and positions written out (src/surrogate/engine.py:23-30, src/surrogate/registry.py:28-53,
    src/surrogate/domains). */
module EngineCoverage {
  import opened Prelude
  import opened MixedRadix
  import opened MixedRadixFf1
  import opened Feistel
  import opened CycleWalk
  import opened DigitStrings
  import opened Alphabet
  import opened Checksum
  import opened DigitDomains
  import opened Layouts
  import opened MixedDomains
  import opened Engine
  import Ff1

  // --------------------------------------------------------------- characters

  predicate IsAscii(s: string) {
    forall i | 0 <= i < |s| :: s[i] as int < 128
  }

  /** The bytes of a bytes literal. */
  function Ascii(s: string): (b: Ff1.Bytes)
    requires IsAscii(s)
    ensures |b| == |s| && forall i | 0 <= i < |b| :: b[i] == s[i] as nat
  {
    seq(|s|, i requires 0 <= i < |s| => s[i] as nat as Ff1.Byte)
  }

  predicate Digit(c: char) { '0' <= c <= '9' }

  predicate Letter(c: char) { 'A' <= c <= 'Z' }

  predicate AreDigits(s: string) {
    forall i | 0 <= i < |s| :: Digit(s[i])
  }

  /** Symbols of digits, letters and either. */
  function D(c: char): nat
    requires Digit(c)
  {
    (c as int - '0' as int) as nat
  }

  function L(c: char): nat
    requires Letter(c)
  {
    (c as int - 'A' as int) as nat
  }

  function X(c: char): nat
    requires Digit(c) || Letter(c)
  {
    if Digit(c) then D(c) else L(c) + 10
  }

  function NumbersOf(s: string): (d: seq<nat>)
    requires AreDigits(s)
    ensures |d| == |s| && forall i | 0 <= i < |d| :: d[i] == D(s[i]) < 10
  {
    seq(|s|, i requires 0 <= i < |s| => D(s[i]))
  }

  // ---------------------------------------------------- digits permuted by FF1

  /** b is a, as digits, under FF1 in radix ten with this tweak. */
  predicate Permuted(ciph: Ff1.Cipher, tweak: string, a: string, b: string) {
    IsAscii(tweak) && |a| == |b| && AreDigits(a) && AreDigits(b)
    && Ff1.Encrypt(ciph, Ascii(tweak), 10, NumbersOf(a)) == Ok(NumbersOf(b))
  }

  lemma SameNumbers(s: string)
    requires AreDigits(s)
    ensures DigitChars(s) && NumbersOf(s) == Values(s)
  {
  }

  lemma PermuteIs(ciph: Ff1.Cipher, tweak: string, payload: string)
    requires IsAscii(tweak) && |tweak| < 100 && AreDigits(payload) && 2 <= |payload| < 100
    ensures DigitChars(payload) && Permute(ciph, Ascii(tweak), payload).Ok?
    ensures Permuted(ciph, tweak, payload, Permute(ciph, Ascii(tweak), payload).value)
    ensures Unpermute(ciph, Ascii(tweak), payload).Ok?
    ensures Permuted(ciph, tweak, Unpermute(ciph, Ascii(tweak), payload).value, payload)
  {
    hide Ff1.Encrypt, Ff1.Decrypt;
    SameNumbers(payload);
    PermuteInverse(ciph, Ascii(tweak), payload);
    var d := Values(payload);
    Ff1.Permutation(ciph, Ascii(tweak), 10, d);
    var e, c := Ff1.Encrypt(ciph, Ascii(tweak), 10, d).value, Ff1.Decrypt(ciph, Ascii(tweak), 10, d).value;
    ValuesRender(e);
    ValuesRender(c);
    SameNumbers(Render(e));
    SameNumbers(Render(c));
  }

  lemma CheckedIs(d: CheckedDomain, tweak: string, ciph: Ff1.Cipher, value: string)
    requires d.WellFormed() && IsAscii(tweak) && d.tweak == Ascii(tweak)
    ensures var s := d.Encrypt(ciph, value);
      if d.minLength <= |value| <= d.maxLength && AreDigits(value)
      then s.Ok? && |s.value| == |value| && AreDigits(s.value) && d.scheme.IsValid(s.value)
           && Permuted(ciph, tweak, value[..|value| - 1], s.value[..|value| - 1])
      else s == Err(SurrogateDomainError)
    ensures var v := d.Decrypt(ciph, value);
      if d.minLength <= |value| <= d.maxLength && AreDigits(value)
      then v.Ok? && |v.value| == |value| && AreDigits(v.value) && d.scheme.IsValid(v.value)
           && Permuted(ciph, tweak, v.value[..|value| - 1], value[..|value| - 1])
      else v == Err(SurrogateDomainError)
  {
    hide Permute, Unpermute, Permuted, Ascii, Scheme.CheckDigit, Scheme.IsValid;
    if d.minLength <= |value| <= d.maxLength && AreDigits(value) {
      var payload := value[..|value| - 1];
      PermuteIs(ciph, tweak, payload);
      var p, q := Permute(ciph, d.tweak, payload).value, Unpermute(ciph, d.tweak, payload).value;
      PermutedDigits(ciph, tweak, payload, p);
      PermutedDigits(ciph, tweak, q, payload);
      d.CheckDigitUnique(p, '0');
      d.CheckDigitUnique(q, '0');
      d.CheckDigitUnique(p, d.scheme.CheckDigit(p).value);
      d.CheckDigitUnique(q, d.scheme.CheckDigit(q).value);
      assert (p + [d.scheme.CheckDigit(p).value])[..|value| - 1] == p;
      assert (q + [d.scheme.CheckDigit(q).value])[..|value| - 1] == q;
    }
  }

  lemma PermutedDigits(ciph: Ff1.Cipher, tweak: string, a: string, b: string)
    requires Permuted(ciph, tweak, a, b) && (|a| > 0 || |b| > 0)
    ensures |b| == |a| && AllDigits(a) && AllDigits(b) && AreDigits(a) && AreDigits(b)
  {
  }

  lemma Tweaks()
    ensures AADHAAR.tweak == Ascii("AADHAAR") && CARD.tweak == Ascii("CARD") && PHONE_TWEAK == Ascii("PHONE")
    ensures PAN.tweak == Ascii("PAN") && IFSC.tweak == Ascii("IFSC") && VEHICLE_TWEAK == Ascii("VEHICLE_REG")
  {
  }

  /** Twelve digits, and nothing else, get an Aadhaar surrogate: the first eleven permuted
      under "AADHAAR", and the Verhoeff digit of the result; and so back. */
  lemma AadhaarIs(ciph: Ff1.Cipher, value: string)
    ensures var s := Encrypt(ciph, Aadhaar, value);
      if |value| == 12 && AreDigits(value)
      then s.Ok? && |s.value| == 12 && AreDigits(s.value) && VerhoeffIsValid(s.value)
           && Permuted(ciph, "AADHAAR", value[..11], s.value[..11])
      else s == Err(SurrogateDomainError)
    ensures var v := Decrypt(ciph, Aadhaar, value);
      if |value| == 12 && AreDigits(value)
      then v.Ok? && |v.value| == 12 && AreDigits(v.value) && VerhoeffIsValid(v.value)
           && Permuted(ciph, "AADHAAR", v.value[..11], value[..11])
      else v == Err(SurrogateDomainError)
  {
    hide Permuted, VerhoeffIsValid, CheckedDomain.Encrypt, CheckedDomain.Decrypt, Ascii;
    Tweaks();
    CheckedIs(AADHAAR, "AADHAAR", ciph, value);
  }

  /** Twelve to nineteen digits get a card surrogate, all but the last permuted under "CARD",
      and the Luhn digit of the result; and so back. */
  lemma CardIs(ciph: Ff1.Cipher, value: string)
    ensures var s := Encrypt(ciph, Card, value);
      if 12 <= |value| <= 19 && AreDigits(value)
      then s.Ok? && |s.value| == |value| && AreDigits(s.value) && LuhnIsValid(s.value)
           && Permuted(ciph, "CARD", value[..|value| - 1], s.value[..|value| - 1])
      else s == Err(SurrogateDomainError)
    ensures var v := Decrypt(ciph, Card, value);
      if 12 <= |value| <= 19 && AreDigits(value)
      then v.Ok? && |v.value| == |value| && AreDigits(v.value) && LuhnIsValid(v.value)
           && Permuted(ciph, "CARD", v.value[..|value| - 1], value[..|value| - 1])
      else v == Err(SurrogateDomainError)
  {
    hide Permuted, LuhnIsValid, CheckedDomain.Encrypt, CheckedDomain.Decrypt, Ascii;
    Tweaks();
    CheckedIs(CARD, "CARD", ciph, value);
  }

  // -------------------------------------------------------------------- phone

  /** One of the four prefixes, told by the length, and ten digits from 6 to 9 on. */
  predicate IsPhone(v: string) {
    ((|v| == 13 && v[..3] == "+91") || (|v| == 12 && v[..2] == "91") || (|v| == 11 && v[..1] == "0") || |v| == 10)
    && '6' <= v[|v| - 10] <= '9' && AreDigits(v[|v| - 10..])
  }

  lemma SplitIs(v: string)
    ensures SplitPrefix(v) ==
      if IsPhone(v) then Ok((v[..|v| - 10], v[|v| - 10..])) else Err(SurrogateDomainError)
  {
    if |v| == 13 {
      assert "+91" <= v <==> v[..3] == "+91";
    } else if |v| == 12 {
      assert "91" <= v <==> v[..2] == "91";
    } else if |v| == 11 {
      assert "0" <= v <==> v[..1] == "0";
    } else if |v| == 10 {
      assert v[0..] == v && v[..0] == "";
    }
    if |v| >= 10 {
      LeadingDigit(v[|v| - 10..]);
    }
  }

  lemma LeadingDigit(core: string)
    requires |core| == 10
    ensures AllDigits(core) && core[0] in "6789" <==> AreDigits(core) && '6' <= core[0] <= '9'
  {
    assert "6789"[0] == '6' && "6789"[1] == '7' && "6789"[2] == '8' && "6789"[3] == '9';
    if core[0] in "6789" {
      var i :| 0 <= i < 4 && "6789"[i] == core[0];
    }
  }

  /** Phone numbers, and nothing else, get a phone surrogate: prefix and leading digit as they
      are, the last nine digits permuted under "PHONE"; and so back. */
  lemma PhoneIs(ciph: Ff1.Cipher, value: string)
    ensures var s, k := Encrypt(ciph, Phone, value), |value| - 9;
      if IsPhone(value)
      then s.Ok? && |s.value| == |value| && s.value[..k] == value[..k]
           && Permuted(ciph, "PHONE", value[k..], s.value[k..])
      else s == Err(SurrogateDomainError)
    ensures var v, k := Decrypt(ciph, Phone, value), |value| - 9;
      if IsPhone(value)
      then v.Ok? && |v.value| == |value| && v.value[..k] == value[..k]
           && Permuted(ciph, "PHONE", v.value[k..], value[k..])
      else v == Err(SurrogateDomainError)
  {
    hide Permuted, Ascii, Permute, Unpermute, SplitPrefix;
    Tweaks();
    SplitIs(value);
    if IsPhone(value) {
      var prefix, core := value[..|value| - 10], value[|value| - 10..];
      var rest := core[1..];
      assert rest == value[|value| - 9..] && AreDigits(rest);
      PermuteIs(ciph, "PHONE", rest);
      var p, q := Permute(ciph, PHONE_TWEAK, rest).value, Unpermute(ciph, PHONE_TWEAK, rest).value;
      PermutedDigits(ciph, "PHONE", rest, p);
      PermutedDigits(ciph, "PHONE", q, rest);
      assert prefix + [core[0]] == value[..|value| - 9];
      assert (prefix + [core[0]] + p)[|value| - 9..] == p && (prefix + [core[0]] + q)[|value| - 9..] == q;
    }
  }

  /** No other type has a domain. */
  lemma OthersHaveNone(ciph: Ff1.Cipher, value: string)
    ensures forall e | e in {Upi, Email, Person, Org, Address} ::
      Encrypt(ciph, e, value) == Err(SurrogateDomainError) && Decrypt(ciph, e, value) == Err(SurrogateDomainError)
  {
  }

  // ------------------------------------------------------------ the walk on symbols

  /** One step of a walk is FF1 in radix two on so many bits. */
  lemma StepIsFF1(ciph: Ff1.Cipher, tweak: Ff1.Bytes, bits: nat, x: nat)
    requires 2 <= bits < 4294967296 && |tweak| <= 4294967295 && x < Pow(2, bits)
    ensures var e := Ff1.Encrypt(ciph, tweak, 2, Str(x, 2, bits));
      e.Ok? && Num(Str(x, 2, bits), 2) == x && |e.value| == bits && Digits(e.value, 2)
      && EncryptStep(ciph, tweak, bits)(x) == Num(e.value, 2)
    ensures var d := Ff1.Decrypt(ciph, tweak, 2, Str(x, 2, bits));
      d.Ok? && |d.value| == bits && Digits(d.value, 2) && DecryptStep(ciph, tweak, bits)(x) == Num(d.value, 2)
  {
    hide Ff1.Encrypt, Ff1.Decrypt, Num, Str;
    Ff1.Permutation(ciph, tweak, 2, Str(x, 2, bits));
    NumStr(x, 2, bits);
  }

  /** Symbols e, of the same radixes, are where the walk from these symbols first comes back
      below the size of their domain, within a thousand steps; bits is the least width that
      covers it. */
  ghost predicate WalksTo(step: nat -> nat, bits: nat, symbols: seq<nat>, radixes: seq<nat>, e: seq<nat>)
    requires |symbols| == |radixes|
  {
    var x, size := Encode(symbols, radixes), DomainSize(radixes);
    bits >= 2 && Pow(2, bits - 1) < size <= Pow(2, bits) && InRange(e, radixes)
    && exists k: nat | 0 < k <= 1000 ::
         Iterate(step, k, x) == Encode(e, radixes) && forall j: nat | 0 < j < k :: Iterate(step, j, x) >= size
  }

  /** Encryption of symbols is that walk; it fails when there is none. */
  lemma CombinedIs(ciph: Ff1.Cipher, tweak: Ff1.Bytes, symbols: seq<nat>, radixes: seq<nat>, bits: nat)
    requires InRange(symbols, radixes) && |tweak| <= 4294967295
    requires bits == CoveringBits(DomainSize(radixes)) < 4294967296
    ensures var r := EncryptCombined(ciph, tweak, symbols, radixes);
      (r.Ok? ==> WalksTo(EncryptStep(ciph, tweak, bits), bits, symbols, radixes, r.value))
      && (forall e | WalksTo(EncryptStep(ciph, tweak, bits), bits, symbols, radixes, e) :: r == Ok(e))
      && (r.Err? ==> r == Err(SurrogateDomainError))
    ensures var r := DecryptCombined(ciph, tweak, symbols, radixes);
      (r.Ok? ==> WalksTo(DecryptStep(ciph, tweak, bits), bits, symbols, radixes, r.value))
      && (forall e | WalksTo(DecryptStep(ciph, tweak, bits), bits, symbols, radixes, e) :: r == Ok(e))
      && (r.Err? ==> r == Err(SurrogateDomainError))
  {
    hide WalksTo, EncryptStep, DecryptStep, CoveringBits;
    WalkIs(EncryptStep(ciph, tweak, bits), |tweak|, symbols, radixes, bits);
    WalkIs(DecryptStep(ciph, tweak, bits), |tweak|, symbols, radixes, bits);
  }

  lemma WalkIs(step: nat -> nat, t: nat, symbols: seq<nat>, radixes: seq<nat>, bits: nat)
    requires InRange(symbols, radixes) && t <= 4294967295 && bits == CoveringBits(DomainSize(radixes)) < 4294967296
    ensures var r := WalkCombined(step, Ff1.Check(2, bits, t), symbols, radixes);
      (r.Ok? ==> WalksTo(step, bits, symbols, radixes, r.value))
      && (forall e | WalksTo(step, bits, symbols, radixes, e) :: r == Ok(e))
      && (r.Err? ==> r == Err(SurrogateDomainError))
  {
    hide Encode, DomainSize, Decode, CoveringBits, Walk;
    var x, size := Encode(symbols, radixes), DomainSize(radixes);
    var w := Walk(step, 1000, x, size);
    CoveringTight(size);
    CoveringLeast(size);
    if w.Some? {
      var k := WalkReturns(step, 1000, x, size);
      WalkLands(step, 1000, x, size, k);
      DecodeInRange(w.value, radixes);
      EncodeDecode(w.value, radixes);
      assert bits >= 2 ==> WalksTo(step, bits, symbols, radixes, Decode(w.value, radixes));
    }
    forall e | WalksTo(step, bits, symbols, radixes, e)
      ensures w == Some(Encode(e, radixes)) && Decode(Encode(e, radixes), radixes) == e
    {
      var k: nat :| 0 < k <= 1000 && Iterate(step, k, x) == Encode(e, radixes)
        && forall j: nat | 0 < j < k :: Iterate(step, j, x) >= size;
      EncodeBelowSize(e, radixes);
      WalkLands(step, 1000, x, size, k);
      DecodeEncode(e, radixes);
    }
  }

  lemma CoveringLeast(size: nat)
    requires size > 0
    ensures CoveringBits(size) >= 2 ==> Pow(2, CoveringBits(size) - 1) < size <= Pow(2, CoveringBits(size))
  {
  }

  // ------------------------------------------------------------------- layouts

  lemma LayoutIs(l: Layout, ciph: Ff1.Cipher, value: string)
    requires l.WellFormed() && l.Fits(value)
    ensures var e := EncryptCombined(ciph, l.tweak, l.Extract(value), l.radixes);
      if e.Ok? then l.Encrypt(ciph, value).Ok?
        && var s := l.Encrypt(ciph, value).value; l.Fits(s) && l.SameFrozen(s, value) && l.Extract(s) == e.value
      else l.Encrypt(ciph, value) == Err(e.error)
    ensures var d := DecryptCombined(ciph, l.tweak, l.Extract(value), l.radixes);
      if d.Ok? then l.Decrypt(ciph, value).Ok?
        && var v := l.Decrypt(ciph, value).value; l.Fits(v) && l.SameFrozen(v, value) && l.Extract(v) == d.value
      else l.Decrypt(ciph, value) == Err(d.error)
  {
    hide EncryptCombined, DecryptCombined, Layout.Rebuild, Layout.Extract;
    CombinedInverse(ciph, l.tweak, l.Extract(value), l.radixes);
    var e := EncryptCombined(ciph, l.tweak, l.Extract(value), l.radixes);
    var d := DecryptCombined(ciph, l.tweak, l.Extract(value), l.radixes);
    if e.Ok? {
      l.ExtractRebuild(e.value, value);
    }
    if d.Ok? {
      l.ExtractRebuild(d.value, value);
    }
  }

  /** Ten characters: five letters, four digits, a letter. */
  predicate IsPan(v: string) {
    |v| == 10 && Letter(v[0]) && Letter(v[1]) && Letter(v[2]) && Letter(v[3]) && Letter(v[4])
    && Digit(v[5]) && Digit(v[6]) && Digit(v[7]) && Digit(v[8]) && Letter(v[9])
  }

  function PanSymbols(v: string): seq<nat>
    requires IsPan(v)
  {
    [L(v[0]), L(v[1]), L(v[2]), L(v[4]), L(v[9]), D(v[5]), D(v[6]), D(v[7]), D(v[8])]
  }

  /** A character of an alphabet, and its symbol. */
  lemma AlphabetIs(radix: nat, c: char)
    ensures InAlphabet(10, c) <==> Digit(c)
    ensures InAlphabet(26, c) <==> Letter(c)
    ensures InAlphabet(36, c) <==> Digit(c) || Letter(c)
    ensures Digit(c) ==> CharValue(10, c) == D(c)
    ensures Letter(c) ==> CharValue(26, c) == L(c)
    ensures Digit(c) || Letter(c) ==> CharValue(36, c) == X(c)
  {
  }

  predicate SymbolAt(l: Layout, v: string, k: nat, p: nat, radix: nat)
    requires |l.positions| == |l.radixes|
  {
    k < |l.positions| && l.positions[k] == p && l.radixes[k] == radix && IsRadix(radix)
  }

  lemma FitsAt(l: Layout, v: string, k: nat, p: nat, radix: nat)
    requires l.WellFormed() && SymbolAt(l, v, k, p, radix) && l.Fits(v)
    ensures p < |v| && InAlphabet(radix, v[p]) && l.Extract(v)[k] == CharValue(radix, v[p])
  {
  }

  predicate PanShaped(l: Layout) {
    l.length == 10 && |l.positions| == |l.radixes| == 9 && l.frozen == map[3 := LETTERS]
    && l.positions == [0, 1, 2, 4, 9, 5, 6, 7, 8] && l.radixes == [26, 26, 26, 26, 26, 10, 10, 10, 10]
  }

  lemma PanForward(l: Layout, v: string)
    requires l.WellFormed() && PanShaped(l) && l.Fits(v)
    ensures IsPan(v) && l.Extract(v) == PanSymbols(v)
  {
    hide Layout.WellFormed, InAlphabet, CharValue, Layout.Extract;
    ExtractLength(l, v);
    forall c: char ensures InAlphabet(10, c) == Digit(c) && InAlphabet(26, c) == Letter(c)
      && (Digit(c) ==> CharValue(10, c) == D(c)) && (Letter(c) ==> CharValue(26, c) == L(c)) {
      AlphabetIs(10, c);
    }
    FitsAt(l, v, 0, 0, 26);
    FitsAt(l, v, 1, 1, 26);
    FitsAt(l, v, 2, 2, 26);
    FitsAt(l, v, 3, 4, 26);
    FitsAt(l, v, 4, 9, 26);
    FitsAt(l, v, 5, 5, 10);
    FitsAt(l, v, 6, 6, 10);
    FitsAt(l, v, 7, 7, 10);
    FitsAt(l, v, 8, 8, 10);
    LettersAre();
    assert 3 in l.frozen && v[3] in l.frozen[3];
  }

  lemma ExtractLength(l: Layout, v: string)
    requires l.WellFormed() && l.Fits(v)
    ensures |v| == l.length && |l.Extract(v)| == |l.positions|
  {
  }

  lemma PanBackward(l: Layout, v: string)
    requires l.WellFormed() && PanShaped(l) && IsPan(v)
    ensures l.Fits(v)
  {
    hide Layout.WellFormed;
    LettersAre();
    forall k | 0 <= k < 9 ensures InAlphabet(l.radixes[k], v[l.positions[k]]) {
    }
  }

  lemma PanLayout(v: string)
    ensures PAN.WellFormed() && PanShaped(PAN)
    ensures PAN.Fits(v) <==> IsPan(v)
    ensures IsPan(v) ==> PAN.Extract(v) == PanSymbols(v)
  {
    LayoutsWellFormed();
    hide Layout.WellFormed, Layout.Fits, Layout.Extract;
    if PAN.Fits(v) {
      PanForward(PAN, v);
    }
    if IsPan(v) {
      PanBackward(PAN, v);
      PanForward(PAN, v);
    }
  }

  lemma LettersAre()
    ensures forall c: char :: c in LETTERS <==> Letter(c)
  {
    assert |LETTERS| == 26;
    forall c: char | Letter(c) ensures c in LETTERS {
      assert LETTERS[c as int - 'A' as int] == c;
    }
  }
}
