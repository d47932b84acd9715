/** Identifiers whose free positions have several radixes and whose other characters are
    frozen: the shared mechanics of src/surrogate/domains/pan.py, ifsc.py and
    vehicle_registration.py. */
module Layouts {
  import opened Prelude
  import opened MixedRadix
  import opened Alphabet
  import Ff1
  import MixedRadixFf1

  /** Free positions in symbol order with their radixes; every other index is frozen
      and lists the characters it may hold. */
  datatype Layout =
    Layout(length: nat, positions: seq<nat>, radixes: seq<nat>, frozen: map<nat, string>, tweak: Ff1.Bytes) {

    /** The positions are distinct and, with the frozen ones, cover the whole value. */
    predicate WellFormed() {
      |positions| == |radixes|
      && (forall i | i in frozen :: i < length && i !in positions)
      && (forall k | 0 <= k < |positions| :: positions[k] < length && IsRadix(radixes[k]))
      && (forall j, k | 0 <= j < k < |positions| :: positions[j] != positions[k])
      && (forall i | 0 <= i < length && i !in frozen :: i in positions)
    }

    /** The right length, every free position in its alphabet, every frozen one allowed. */
    predicate Fits(value: string)
      requires WellFormed()
    {
      |value| == length
      && (forall k | 0 <= k < |positions| :: InAlphabet(radixes[k], value[positions[k]]))
      && forall i | i in frozen :: value[i] in frozen[i]
    }

    predicate SameFrozen(a: string, b: string)
      requires WellFormed() && |a| == |b| == length
    {
      forall i | i in frozen :: a[i] == b[i]
    }

    function Extract(value: string): (symbols: seq<nat>)
      requires WellFormed() && Fits(value)
      ensures InRange(symbols, radixes)
    {
      seq(|positions|, k requires 0 <= k < |positions| => CharValue(radixes[k], value[positions[k]]))
    }

    /** What the character list holds once the loops have filled it. */
    ghost predicate IsRebuilt(symbols: seq<nat>, template: string, value: string)
      requires WellFormed() && InRange(symbols, radixes) && |template| == length
    {
      |value| == length && SameFrozen(value, template)
      && forall k | 0 <= k < |positions| :: value[positions[k]] == ValueChar(radixes[k], symbols[k])
    }

    function Rebuild(symbols: seq<nat>, template: string): (value: string)
      requires WellFormed() && InRange(symbols, radixes) && |template| == length
      ensures IsRebuilt(symbols, template, value)
    {
      FillIsRebuilt(symbols, template, |positions|);
      Fill(symbols, template, |positions|)
    }

    function Fill(symbols: seq<nat>, template: string, k: nat): (value: string)
      requires WellFormed() && InRange(symbols, radixes) && |template| == length && k <= |positions|
      ensures |value| == length
    {
      if k == 0 then template
      else Fill(symbols, template, k - 1)[positions[k - 1] := ValueChar(radixes[k - 1], symbols[k - 1])]
    }

    lemma {:induction false} FillIsRebuilt(symbols: seq<nat>, template: string, k: nat)
      requires WellFormed() && InRange(symbols, radixes) && |template| == length && k <= |positions|
      ensures var value := Fill(symbols, template, k);
        SameFrozen(value, template)
        && forall j | 0 <= j < k :: value[positions[j]] == ValueChar(radixes[j], symbols[j])
    {
      if k > 0 {
        FillIsRebuilt(symbols, template, k - 1);
        assert positions[k - 1] in positions;
      }
    }

    /** Extracting what was rebuilt, and rebuilding what was extracted. */
    lemma ExtractRebuild(symbols: seq<nat>, template: string)
      requires WellFormed() && InRange(symbols, radixes) && |template| == length
      requires forall i | i in frozen :: template[i] in frozen[i]
      ensures Fits(Rebuild(symbols, template)) && Extract(Rebuild(symbols, template)) == symbols
    {
    }

    /** The filled list is determined by the symbols and the frozen characters. */
    lemma RebuiltUnique(symbols: seq<nat>, s: string, t: string, a: string, b: string)
      requires WellFormed() && InRange(symbols, radixes) && |s| == |t| == length && SameFrozen(s, t)
      requires IsRebuilt(symbols, s, a) && IsRebuilt(symbols, t, b)
      ensures a == b
    {
      forall i | 0 <= i < length ensures a[i] == b[i] {
        if i !in frozen {
          assert i in positions;
          var k :| 0 <= k < |positions| && positions[k] == i;
        }
      }
    }

    lemma RebuildExtract(value: string, template: string)
      requires WellFormed() && Fits(value) && |template| == length && SameFrozen(value, template)
      ensures Rebuild(Extract(value), template) == value
    {
      hide Fill;
      forall k | 0 <= k < |positions|
        ensures ValueChar(radixes[k], CharValue(radixes[k], value[positions[k]])) == value[positions[k]]
      {
        ValueCharOfCharValue(radixes[k], value[positions[k]]);
      }
      RebuiltUnique(Extract(value), template, value, Rebuild(Extract(value), template), value);
    }

    function Encrypt(ciph: Ff1.Cipher, value: string): Result<string>
      requires WellFormed() && Fits(value)
    {
      var permuted :- MixedRadixFf1.EncryptCombined(ciph, tweak, Extract(value), radixes);
      MixedRadixFf1.CombinedInverse(ciph, tweak, Extract(value), radixes);
      Ok(Rebuild(permuted, value))
    }

    function Decrypt(ciph: Ff1.Cipher, surrogate: string): Result<string>
      requires WellFormed() && Fits(surrogate)
    {
      var original :- MixedRadixFf1.DecryptCombined(ciph, tweak, Extract(surrogate), radixes);
      MixedRadixFf1.CombinedInverse(ciph, tweak, Extract(surrogate), radixes);
      Ok(Rebuild(original, surrogate))
    }

    /** Whenever the walk converges, the surrogate has the layout and frozen characters
        of the value, and decrypts to it. */
    lemma RoundTrip(ciph: Ff1.Cipher, value: string)
      requires WellFormed() && Fits(value)
      ensures var s := Encrypt(ciph, value);
        s.Ok? ==> Fits(s.value) && SameFrozen(s.value, value) && Decrypt(ciph, s.value) == Ok(value)
    {
      hide MixedRadixFf1.EncryptCombined, MixedRadixFf1.DecryptCombined, Rebuild;
      var symbols := Extract(value);
      MixedRadixFf1.CombinedInverse(ciph, tweak, symbols, radixes);
      var e := MixedRadixFf1.EncryptCombined(ciph, tweak, symbols, radixes);
      if e.Ok? {
        ExtractRebuild(e.value, value);
        var s := Rebuild(e.value, value);
        RebuildExtract(value, s);
      }
    }

    /** The character list, blank at first, filled position by position, frozen ones too. */
    method RebuildLoop(symbols: seq<nat>, template: string) returns (value: string)
      requires WellFormed() && InRange(symbols, radixes) && |template| == length
      ensures value == Rebuild(symbols, template)
    {
      hide Fill;
      var chars := new char[length](i => ' ');
      for k := 0 to |positions|
        invariant forall j | 0 <= j < k :: chars[positions[j]] == ValueChar(radixes[j], symbols[j])
      {
        chars[positions[k]] := ValueChar(radixes[k], symbols[k]);
      }
      for i := 0 to length
        invariant forall j | 0 <= j < |positions| :: chars[positions[j]] == ValueChar(radixes[j], symbols[j])
        invariant forall j | 0 <= j < i && j in frozen :: chars[j] == template[j]
      {
        if i in frozen {
          chars[i] := template[i];
        }
      }
      value := chars[..];
      IsTheRebuild(symbols, template, value);
    }

    /** A value with these symbols and frozen characters is what rebuilding gives. */
    lemma IsTheRebuild(symbols: seq<nat>, template: string, value: string)
      requires WellFormed() && InRange(symbols, radixes) && |template| == length
      requires IsRebuilt(symbols, template, value)
      ensures value == Rebuild(symbols, template)
    {
      hide Fill;
      RebuiltUnique(symbols, template, template, value, Rebuild(symbols, template));
    }
  }
}
