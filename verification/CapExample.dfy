/** The cap of the cycle-walk is a real limit: over one particular block function, FF1
    walks a legal PAN through 1000 steps without coming back to a PAN
    (src/surrogate/mixed_radix_ff1.py:40-45 and 82-101, src/surrogate/domains/pan.py:41-45). */
module CapExample {
  import opened Prelude
  import opened MixedRadix
  import opened Feistel
  import opened CycleWalk
  import opened MixedRadixFf1
  import opened ConstantCipher
  import opened Alphabet
  import opened Layouts
  import opened MixedDomains
  import opened Engine
  import Ff1

  const BITS := 37
  const U := 262144
  const V := 524288

  /** Five times this is one modulo U and modulo V. */
  const Y := 314573

  lemma Legal(tweak: Ff1.Bytes)
    requires |tweak| <= Ff1.MAX_TWEAK_LENGTH
    ensures Y < Pow(256, 8) && Ff1.Legal(2, BITS, |tweak|) && Ff1.FeistelParams(2, BITS).d == 8
  {
    hide Ff1.CeilLog2;
    Powers();
    CeilLog2Is(V, 19);
  }

  lemma AddOne(a: nat, m: nat)
    requires (m == U || m == V) && a < m
    ensures (a + 5 * Y) % m == (a + 1) % m
  {
  }

  /** A number of BITS bits by its two halves. */
  lemma Halved(a: nat, b: nat)
    requires a < U && b < V
    ensures var d := Str(a * V + b, 2, BITS); Num(d[..18], 2) == a && Num(d[18..], 2) == b
  {
    hide Num, Str;
    Powers();
    var x := a * V + b;
    var d := Str(x, 2, BITS);
    NumStr(x, 2, BITS);
    assert d == d[..18] + d[18..];
    NumAppend(d[..18], d[18..], 2);
    NumBelow(d[18..], 2);
    DivModUnique(Num(d[..18], 2), Num(d[18..], 2), V);
    DivModUnique(a, b, V);
  }

  /** One step of the walk adds one to both halves. */
  lemma StepIs(tweak: Ff1.Bytes, a: nat, b: nat)
    requires |tweak| <= Ff1.MAX_TWEAK_LENGTH && a < U && b < V
    ensures Y < Pow(256, 8)
    ensures EncryptBits(Constant(Y), tweak, BITS, a * V + b) == (a + 1) % U * V + (b + 1) % V
  {
    hide Num, Str, Ff1.FF1Network, Ff1.Encrypt, Ff1.FeistelParams, Constant, Added;
    Powers();
    Legal(tweak);
    var d := Str(a * V + b, 2, BITS);
    Halved(a, b);
    FF1Adds(Y, tweak, 2, d);
    var e := Ff1.Encrypt(Constant(Y), tweak, 2, d).value;
    HalvesAdded(Ff1.FF1Network(Constant(Y), tweak, 2, BITS), Y, Halves(d[..18], d[18..]), Halves(e[..18], e[18..]),
                U, V, 5 * Y);
    AddOne(a, U);
    AddOne(b, V);
    assert e == e[..18] + e[18..];
    NumAppend(e[..18], e[18..], 2);
  }

  const START := 226619 * V

  lemma {:induction false} Orbit(tweak: Ff1.Bytes, k: nat)
    requires |tweak| <= Ff1.MAX_TWEAK_LENGTH && k <= MAX_CYCLE_WALK_ATTEMPTS
    ensures Y < Pow(256, 8)
    ensures Iterate(EncryptStep(Constant(Y), tweak, BITS), k, START) == (226619 + k) * V + k
  {
    hide EncryptBits, Constant;
    Powers();
    if k > 0 {
      Orbit(tweak, k - 1);
      StepIs(tweak, 226618 + k, k - 1);
      ModSmall(226619 + k, U);
      ModSmall(k, V);
    }
  }

  // ------------------------------------------------------------------- as a PAN

  const SYMBOLS: seq<nat> := [25, 25, 25, 25, 12, 2, 2, 7, 2]
  const SIZE := 118813760000

  lemma EncodeNext(symbols: seq<nat>, radixes: seq<nat>, k: nat)
    requires k < |symbols| == |radixes|
    ensures Encode(symbols[..k + 1], radixes[..k + 1]) == Encode(symbols[..k], radixes[..k]) * radixes[k] + symbols[k]
    ensures DomainSize(radixes[..k + 1]) == DomainSize(radixes[..k]) * radixes[k]
  {
    assert symbols[..k + 1][..k] == symbols[..k] && radixes[..k + 1][..k] == radixes[..k];
  }

  lemma PanNumber()
    ensures InRange(SYMBOLS, PAN.radixes) && Encode(SYMBOLS, PAN.radixes) == START && DomainSize(PAN.radixes) == SIZE
  {
    hide Encode, DomainSize;
    var s, r := SYMBOLS, PAN.radixes;
    NoSymbols();
    assert s[..0] == [] && r[..0] == [];
    EncodeNext(s, r, 0);
    EncodeNext(s, r, 1);
    EncodeNext(s, r, 2);
    EncodeNext(s, r, 3);
    EncodeNext(s, r, 4);
    EncodeNext(s, r, 5);
    EncodeNext(s, r, 6);
    EncodeNext(s, r, 7);
    EncodeNext(s, r, 8);
    assert s[..9] == s && r[..9] == r;
  }

  lemma NoSymbols()
    ensures Encode([], []) == 0 && DomainSize([]) == 1
  {
  }

  lemma CoveringIs()
    ensures CoveringBits(SIZE) == BITS
  {
    hide Ff1.CeilLog2;
    Powers();
    CeilLog2Is(SIZE, BITS);
  }

  /** The walk from this PAN's number does not land within the cap. */
  lemma WalkFails(tweak: Ff1.Bytes)
    requires |tweak| <= Ff1.MAX_TWEAK_LENGTH
    ensures Y < Pow(256, 8) && InRange(SYMBOLS, PAN.radixes) && Ff1.Check(2, BITS, |tweak|).Ok?
    ensures EncryptCombined(Constant(Y), tweak, SYMBOLS, PAN.radixes) == Err(SurrogateDomainError)
  {
    hide EncryptStep, Constant, Encode, DomainSize, CoveringBits;
    Powers();
    CoveringIs();
    PanNumber();
    var f := EncryptStep(Constant(Y), tweak, BITS);
    if LandsWithin(f, MAX_CYCLE_WALK_ATTEMPTS, START, SIZE) {
      var k: nat :| k <= MAX_CYCLE_WALK_ATTEMPTS && Lands(f, START, SIZE, k);
      Orbit(tweak, k);
    }
    WalkSucceeds(f, MAX_CYCLE_WALK_ATTEMPTS, START, SIZE);
  }

  const VALUE := "ZZZPZ2272M"

  lemma PanFits()
    ensures PAN.WellFormed() && PAN.Fits(VALUE)
  {
    LayoutsWellFormed();
    hide Layout.WellFormed;
    assert LETTERS[15] == 'P';
  }

  lemma PanSymbols()
    ensures PAN.WellFormed() && PAN.Fits(VALUE) && PAN.Extract(VALUE) == SYMBOLS
  {
    PanFits();
    hide Layout.WellFormed, Layout.Fits;
    var e := PAN.Extract(VALUE);
    forall k | 0 <= k < 9 ensures e[k] == SYMBOLS[k] {
    }
  }

  /** A legal PAN that cannot be encrypted: the domain raises after 1000 steps. */
  lemma CapCanBeHit()
    ensures Y < Pow(256, 8) && PAN.WellFormed() && PAN.Fits(VALUE)
    ensures Engine.Encrypt(Constant(Y), Pan, VALUE) == Err(SurrogateDomainError)
  {
    hide Layout.WellFormed, Layout.Fits, Layout.Extract, Constant, EncryptCombined;
    PanSymbols();
    WalkFails(PAN.tweak);
  }
}
