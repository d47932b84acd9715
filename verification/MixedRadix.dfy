/** Mixed-radix positional numerals, most significant position first
    (src/surrogate/mixed_radix.py). */
module MixedRadix {
  import opened Prelude

  /** Every symbol lies below the radix of its position. */
  predicate InRange(symbols: seq<nat>, radixes: seq<nat>) {
    |symbols| == |radixes| && forall i | 0 <= i < |symbols| :: symbols[i] < radixes[i]
  }

  predicate Positive(radixes: seq<nat>) {
    forall i | 0 <= i < |radixes| :: radixes[i] > 0
  }

  function DomainSize(radixes: seq<nat>): (size: nat)
    ensures Positive(radixes) ==> size > 0
  {
    if radixes == [] then 1
    else
      var n := |radixes| - 1;
      DomainSize(radixes[..n]) * radixes[n]
  }

  function Encode(symbols: seq<nat>, radixes: seq<nat>): nat
    requires |symbols| == |radixes|
  {
    if symbols == [] then 0
    else
      var n := |symbols| - 1;
      Encode(symbols[..n], radixes[..n]) * radixes[n] + symbols[n]
  }

  function Decode(value: nat, radixes: seq<nat>): (symbols: seq<nat>)
    requires Positive(radixes)
    ensures |symbols| == |radixes|
    decreases radixes
  {
    if radixes == [] then []
    else
      var n := |radixes| - 1;
      Decode(value / radixes[n], radixes[..n]) + [value % radixes[n]]
  }

  lemma {:induction false} EncodeBelowSize(symbols: seq<nat>, radixes: seq<nat>)
    requires InRange(symbols, radixes)
    ensures Encode(symbols, radixes) < DomainSize(radixes)
  {
    if symbols != [] {
      var n := |symbols| - 1;
      EncodeBelowSize(symbols[..n], radixes[..n]);
      var e, size := Encode(symbols[..n], radixes[..n]), DomainSize(radixes[..n]);
      MulMono(e + 1, size, radixes[n]);
      assert (e + 1) * radixes[n] == e * radixes[n] + radixes[n];
    }
  }

  lemma {:induction false} DecodeInRange(value: nat, radixes: seq<nat>)
    requires Positive(radixes)
    ensures InRange(Decode(value, radixes), radixes)
    decreases radixes
  {
    if radixes != [] {
      var n := |radixes| - 1;
      DecodeInRange(value / radixes[n], radixes[..n]);
    }
  }

  lemma {:induction false} DecodeEncode(symbols: seq<nat>, radixes: seq<nat>)
    requires InRange(symbols, radixes)
    ensures Positive(radixes)
    ensures Decode(Encode(symbols, radixes), radixes) == symbols
  {
    assert Positive(radixes);
    if symbols != [] {
      var n := |symbols| - 1;
      DecodeEncode(symbols[..n], radixes[..n]);
      DivModUnique(Encode(symbols[..n], radixes[..n]), symbols[n], radixes[n]);
      assert symbols == symbols[..n] + [symbols[n]];
    }
  }

  /** Arithmetic core of EncodeDecodeMod: reducing digit by digit is reducing once. */
  lemma ModStep(value: nat, radix: nat, size: nat)
    requires radix > 0 && size > 0
    ensures size * radix > 0
    ensures value / radix % size * radix + value % radix == value % (size * radix)
  {
    var q, r := value / radix, value % radix;
    var k, t := q / size, q % size;
    MulMono(1, size, radix);
    MulMono(t + 1, size, radix);
    calc {
      value;
      q * radix + r;
      (k * size + t) * radix + r;
      k * size * radix + t * radix + r;
      k * (size * radix) + (t * radix + r);
    }
    DivModUnique(k, t * radix + r, size * radix);
  }

  /** Decoding keeps a value exactly modulo the domain size. */
  lemma {:induction false} EncodeDecodeMod(value: nat, radixes: seq<nat>)
    requires Positive(radixes)
    ensures Encode(Decode(value, radixes), radixes) == value % DomainSize(radixes)
    decreases radixes
  {
    if radixes != [] {
      var n := |radixes| - 1;
      var d := Decode(value, radixes);
      assert d[..n] == Decode(value / radixes[n], radixes[..n]);
      EncodeDecodeMod(value / radixes[n], radixes[..n]);
      ModStep(value, radixes[n], DomainSize(radixes[..n]));
    }
  }

  /** The documented precondition of decode is exact: a value comes back from
      decode-then-encode if and only if it is below the domain size. */
  lemma EncodeDecode(value: nat, radixes: seq<nat>)
    requires Positive(radixes)
    ensures Encode(Decode(value, radixes), radixes) == value <==> value < DomainSize(radixes)
  {
    EncodeDecodeMod(value, radixes);
    ModSmall(value, DomainSize(radixes));
  }

  function Uniform(radix: nat, n: nat): (r: seq<nat>)
    ensures |r| == n
  {
    seq(n, _ => radix)
  }

  lemma {:induction false} UniformSize(radix: nat, n: nat)
    ensures DomainSize(Uniform(radix, n)) == Pow(radix, n)
  {
    if n > 0 {
      UniformSize(radix, n - 1);
      assert Uniform(radix, n)[..n - 1] == Uniform(radix, n - 1);
    }
  }

  /** encode: one left-to-right pass; unequal lengths raise ValueError. */
  method EncodeLoop(symbols: seq<nat>, radixes: seq<nat>) returns (r: Result<nat>)
    ensures |symbols| != |radixes| ==> r == Err(ValueError)
    ensures |symbols| == |radixes| ==> r == Ok(Encode(symbols, radixes))
  {
    if |symbols| != |radixes| {
      return Err(ValueError);
    }
    var value := 0;
    for i := 0 to |symbols|
      invariant value == Encode(symbols[..i], radixes[..i])
    {
      value := value * radixes[i] + symbols[i];
      assert symbols[..i + 1][..i] == symbols[..i] && radixes[..i + 1][..i] == radixes[..i];
    }
    assert symbols[..|symbols|] == symbols && radixes[..|symbols|] == radixes;
    r := Ok(value);
  }

  lemma DecodeLast(value: nat, radixes: seq<nat>)
    requires Positive(radixes) && radixes != []
    ensures var n := |radixes| - 1;
      Decode(value, radixes) == Decode(value / radixes[n], radixes[..n]) + [value % radixes[n]]
  {
  }

  /** decode: fills the symbol array from the last position down, dividing in place. */
  method DecodeLoop(value: nat, radixes: seq<nat>) returns (symbols: seq<nat>)
    requires Positive(radixes)
    ensures symbols == Decode(value, radixes)
    ensures value < DomainSize(radixes) ==> Encode(symbols, radixes) == value
  {
    hide Decode;
    var a := new nat[|radixes|](_ => 0);
    var rest, i := value, |radixes|;
    assert radixes[..i] == radixes && a[i..] == [];
    while i > 0
      invariant 0 <= i <= |radixes| && rest >= 0
      invariant Decode(value, radixes) == Decode(rest, radixes[..i]) + a[i..]
    {
      i := i - 1;
      ghost var before, tail := rest, a[i + 1..];
      a[i] := rest % radixes[i];
      rest := rest / radixes[i];
      assert radixes[..i + 1][..i] == radixes[..i];
      DecodeLast(before, radixes[..i + 1]);
      assert a[i..] == [before % radixes[i]] + tail;
    }
    assert Decode(rest, radixes[..0]) == [];
    symbols := a[..];
    EncodeDecode(value, radixes);
  }

  method DomainSizeLoop(radixes: seq<nat>) returns (size: nat)
    ensures size == DomainSize(radixes)
  {
    size := 1;
    for i := 0 to |radixes|
      invariant size == DomainSize(radixes[..i])
    {
      size := size * radixes[i];
      assert radixes[..i + 1][..i] == radixes[..i];
    }
    assert radixes[..|radixes|] == radixes;
  }
}
