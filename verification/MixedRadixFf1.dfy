/** FF1 on mixed-radix domains: a binary covering domain and a capped cycle-walk
    (src/surrogate/mixed_radix_ff1.py). */
module MixedRadixFf1 {
  import opened Prelude
  import opened MixedRadix
  import opened Feistel
  import opened CycleWalk
  import Ff1

  const MAX_CYCLE_WALK_ATTEMPTS := 1000

  /** max((true_size - 1).bit_length(), 1). */
  function CoveringBits(trueSize: nat): (bits: nat)
    requires trueSize > 0
    ensures bits >= 1
  {
    var k := Ff1.CeilLog2(trueSize);
    if k > 1 then k else 1
  }

  /** The covering domain is at least the true one and less than twice as large. */
  lemma CoveringTight(trueSize: nat)
    requires trueSize > 0
    ensures trueSize <= Pow(2, CoveringBits(trueSize))
    ensures trueSize >= 2 ==> Pow(2, CoveringBits(trueSize)) < 2 * trueSize
  {
    var k := Ff1.CeilLog2(trueSize);
    assert Pow(2, 1) == 2;
    if k > 1 {
      assert Pow(2, k) == Pow(2, k - 1) * 2;
    }
  }

  /** One permutation of the covering domain through its bit list. */
  function EncryptBits(ciph: Ff1.Cipher, tweak: Ff1.Bytes, bits: nat, x: nat): nat {
    var d := Ff1.Encrypt(ciph, tweak, 2, Str(x, 2, bits));
    if d.Ok? then Num(d.value, 2) else x
  }

  function DecryptBits(ciph: Ff1.Cipher, tweak: Ff1.Bytes, bits: nat, x: nat): nat {
    var d := Ff1.Decrypt(ciph, tweak, 2, Str(x, 2, bits));
    if d.Ok? then Num(d.value, 2) else x
  }

  function EncryptStep(ciph: Ff1.Cipher, tweak: Ff1.Bytes, bits: nat): Step {
    x => EncryptBits(ciph, tweak, bits, x)
  }

  function DecryptStep(ciph: Ff1.Cipher, tweak: Ff1.Bytes, bits: nat): Step {
    x => DecryptBits(ciph, tweak, bits, x)
  }

  lemma StepInverse(ciph: Ff1.Cipher, tweak: Ff1.Bytes, bits: nat, x: nat)
    requires Ff1.Legal(2, bits, |tweak|) && x < Pow(2, bits)
    ensures EncryptBits(ciph, tweak, bits, x) < Pow(2, bits)
    ensures DecryptBits(ciph, tweak, bits, x) < Pow(2, bits)
    ensures DecryptBits(ciph, tweak, bits, EncryptBits(ciph, tweak, bits, x)) == x
    ensures EncryptBits(ciph, tweak, bits, DecryptBits(ciph, tweak, bits, x)) == x
  {
    var d := Str(x, 2, bits);
    Ff1.Permutation(ciph, tweak, 2, d);
    var e, c := Ff1.Encrypt(ciph, tweak, 2, d).value, Ff1.Decrypt(ciph, tweak, 2, d).value;
    NumBelow(e, 2);
    NumBelow(c, 2);
    StrNum(e, 2);
    StrNum(c, 2);
    NumStr(x, 2, bits);
  }

  lemma StepsInverse(ciph: Ff1.Cipher, tweak: Ff1.Bytes, bits: nat)
    requires Ff1.Legal(2, bits, |tweak|)
    ensures Inverse(EncryptStep(ciph, tweak, bits), DecryptStep(ciph, tweak, bits), Pow(2, bits))
    ensures Inverse(DecryptStep(ciph, tweak, bits), EncryptStep(ciph, tweak, bits), Pow(2, bits))
  {
    forall x: nat | x < Pow(2, bits)
      ensures EncryptBits(ciph, tweak, bits, x) < Pow(2, bits)
      ensures DecryptBits(ciph, tweak, bits, x) < Pow(2, bits)
      ensures DecryptBits(ciph, tweak, bits, EncryptBits(ciph, tweak, bits, x)) == x
      ensures EncryptBits(ciph, tweak, bits, DecryptBits(ciph, tweak, bits, x)) == x
    {
      StepInverse(ciph, tweak, bits, x);
    }
  }

  /** The first FF1 call of the walk raises unless these parameters are legal. */
  function WalkCombined(step: Step, legal: Result<()>, symbols: seq<nat>, radixes: seq<nat>): Result<seq<nat>>
    requires InRange(symbols, radixes)
  {
    var _ :- legal;
    match Walk(step, MAX_CYCLE_WALK_ATTEMPTS, Encode(symbols, radixes), DomainSize(radixes))
    case None => Err(SurrogateDomainError)
    case Some(v) => Ok(Decode(v, radixes))
  }

  function EncryptCombined(ciph: Ff1.Cipher, tweak: Ff1.Bytes, symbols: seq<nat>, radixes: seq<nat>): Result<seq<nat>>
    requires InRange(symbols, radixes)
  {
    var bits := CoveringBits(DomainSize(radixes));
    WalkCombined(EncryptStep(ciph, tweak, bits), Ff1.Check(2, bits, |tweak|), symbols, radixes)
  }

  function DecryptCombined(ciph: Ff1.Cipher, tweak: Ff1.Bytes, symbols: seq<nat>, radixes: seq<nat>): Result<seq<nat>>
    requires InRange(symbols, radixes)
  {
    var bits := CoveringBits(DomainSize(radixes));
    WalkCombined(DecryptStep(ciph, tweak, bits), Ff1.Check(2, bits, |tweak|), symbols, radixes)
  }

  /** The walks over any inverse pair of steps undo each other on symbol lists. */
  lemma WalkCombinedInverse(f: Step, g: Step, legal: Result<()>, symbols: seq<nat>, radixes: seq<nat>, n: nat)
    requires InRange(symbols, radixes) && DomainSize(radixes) <= n
    requires legal.Ok? ==> Inverse(f, g, n)
    ensures var e := WalkCombined(f, legal, symbols, radixes);
      e.Ok? ==> InRange(e.value, radixes) && WalkCombined(g, legal, e.value, radixes) == Ok(symbols)
  {
    var start, size := Encode(symbols, radixes), DomainSize(radixes);
    var e := WalkCombined(f, legal, symbols, radixes);
    if e.Ok? {
      EncodeBelowSize(symbols, radixes);
      WalkInverse(f, g, n, MAX_CYCLE_WALK_ATTEMPTS, start, size);
      var v := Walk(f, MAX_CYCLE_WALK_ATTEMPTS, start, size).value;
      DecodeInRange(v, radixes);
      EncodeDecode(v, radixes);
      DecodeEncode(symbols, radixes);
    }
  }

  /** Whenever encryption returns, decryption of the result returns the input, and
      conversely; both keep every symbol inside its radix. */
  lemma CombinedInverse(ciph: Ff1.Cipher, tweak: Ff1.Bytes, symbols: seq<nat>, radixes: seq<nat>)
    requires InRange(symbols, radixes)
    ensures var e := EncryptCombined(ciph, tweak, symbols, radixes);
      e.Ok? ==> InRange(e.value, radixes) && DecryptCombined(ciph, tweak, e.value, radixes) == Ok(symbols)
    ensures var d := DecryptCombined(ciph, tweak, symbols, radixes);
      d.Ok? ==> InRange(d.value, radixes) && EncryptCombined(ciph, tweak, d.value, radixes) == Ok(symbols)
  {
    var bits := CoveringBits(DomainSize(radixes));
    var legal := Ff1.Check(2, bits, |tweak|);
    var f, g := EncryptStep(ciph, tweak, bits), DecryptStep(ciph, tweak, bits);
    CoveringTight(DomainSize(radixes));
    if legal.Ok? {
      StepsInverse(ciph, tweak, bits);
    }
    WalkCombinedInverse(f, g, legal, symbols, radixes, Pow(2, bits));
    WalkCombinedInverse(g, f, legal, symbols, radixes, Pow(2, bits));
  }

  /** Encryption returns exactly when FF1 accepts the bit width and the walk lands
      within the cap. */
  lemma CombinedConverges(ciph: Ff1.Cipher, tweak: Ff1.Bytes, symbols: seq<nat>, radixes: seq<nat>)
    requires InRange(symbols, radixes)
    ensures var size := DomainSize(radixes);
      EncryptCombined(ciph, tweak, symbols, radixes).Ok?
      <==> Ff1.Legal(2, CoveringBits(size), |tweak|)
           && LandsWithin(EncryptStep(ciph, tweak, CoveringBits(size)), MAX_CYCLE_WALK_ATTEMPTS,
                          Encode(symbols, radixes), size)
  {
    var start, size := Encode(symbols, radixes), DomainSize(radixes);
    WalkSucceeds(EncryptStep(ciph, tweak, CoveringBits(size)), MAX_CYCLE_WALK_ATTEMPTS, start, size);
  }

  /** A gap below the cap between the covering and the true domain rules failure out. */
  lemma SmallGapConverges(ciph: Ff1.Cipher, tweak: Ff1.Bytes, symbols: seq<nat>, radixes: seq<nat>)
    requires InRange(symbols, radixes)
    requires var bits := CoveringBits(DomainSize(radixes));
      Ff1.Legal(2, bits, |tweak|) && Pow(2, bits) - DomainSize(radixes) < MAX_CYCLE_WALK_ATTEMPTS
    ensures EncryptCombined(ciph, tweak, symbols, radixes).Ok?
  {
    var size := DomainSize(radixes);
    var bits := CoveringBits(size);
    EncodeBelowSize(symbols, radixes);
    CoveringTight(size);
    StepsInverse(ciph, tweak, bits);
    WalkConverges(EncryptStep(ciph, tweak, bits), DecryptStep(ciph, tweak, bits), Pow(2, bits),
                  MAX_CYCLE_WALK_ATTEMPTS, Encode(symbols, radixes), size);
  }

  /** A domain of at most two values is covered by one bit, and FF1 refuses one digit. */
  lemma TinyDomainRefused(ciph: Ff1.Cipher, tweak: Ff1.Bytes, symbols: seq<nat>, radixes: seq<nat>)
    requires InRange(symbols, radixes)
    ensures CoveringBits(DomainSize(radixes)) < Ff1.MIN_LENGTH <==> DomainSize(radixes) <= 2
    ensures DomainSize(radixes) <= 2 ==>
      EncryptCombined(ciph, tweak, symbols, radixes).Err? && DecryptCombined(ciph, tweak, symbols, radixes).Err?
  {
    CoveringTight(DomainSize(radixes));
  }
}
