/** The alternating-length Feistel network of FF1 (NIST SP 800-38G section 5.1)
    over an arbitrary round function; src/surrogate/ff1.py:56-67 and 89-100. */
module Feistel {
  import opened Prelude
  import opened MixedRadix

  predicate Digits(d: seq<nat>, radix: nat) {
    forall i | 0 <= i < |d| :: d[i] < radix
  }

  /** NUM_radix(X) of SP 800-38G. */
  function Num(d: seq<nat>, radix: nat): nat {
    Encode(d, Uniform(radix, |d|))
  }

  /** STR^m_radix(x) of SP 800-38G. */
  function Str(x: nat, radix: nat, m: nat): (d: seq<nat>)
    requires radix > 0
    ensures |d| == m && Digits(d, radix)
  {
    DecodeInRange(x, Uniform(radix, m));
    Decode(x, Uniform(radix, m))
  }

  lemma NumBelow(d: seq<nat>, radix: nat)
    requires Digits(d, radix)
    ensures Num(d, radix) < Pow(radix, |d|)
  {
    EncodeBelowSize(d, Uniform(radix, |d|));
    UniformSize(radix, |d|);
  }

  lemma StrNum(d: seq<nat>, radix: nat)
    requires radix > 0 && Digits(d, radix)
    ensures Str(Num(d, radix), radix, |d|) == d
  {
    DecodeEncode(d, Uniform(radix, |d|));
  }

  lemma NumStr(x: nat, radix: nat, m: nat)
    requires radix > 0 && x < Pow(radix, m)
    ensures Num(Str(x, radix, m), radix) == x
  {
    UniformSize(radix, m);
    EncodeDecode(x, Uniform(radix, m));
  }

  // ------------------------------------------------------ numbers, digit by digit

  lemma {:induction false} NumAppend(a: seq<nat>, b: seq<nat>, radix: nat)
    ensures Num(a + b, radix) == Num(a, radix) * Pow(radix, |b|) + Num(b, radix)
    decreases |b|
  {
    if b == [] {
      assert a + b == a;
    } else {
      var n := |b| - 1;
      assert (a + b)[..|a| + n] == a + b[..n];
      NumAppend(a, b[..n], radix);
      NumLast(a + b, radix);
      NumLast(b, radix);
      Distribute(Num(a, radix), Pow(radix, n), Num(b[..n], radix), radix);
    }
  }

  lemma Distribute(x: int, p: int, y: int, r: int)
    ensures (x * p + y) * r == x * (p * r) + y * r
  {
  }

  lemma NumLast(d: seq<nat>, radix: nat)
    requires d != []
    ensures Num(d, radix) == Num(d[..|d| - 1], radix) * radix + d[|d| - 1]
  {
    var n := |d| - 1;
    assert Uniform(radix, |d|)[..n] == Uniform(radix, n);
  }

  lemma NumNone(radix: nat)
    ensures Num([], radix) == 0
  {
  }

  /** The round function: round index and half to the integer y. */
  type RoundFn = (nat, seq<nat>) -> nat

  datatype Halves = Halves(a: seq<nat>, b: seq<nat>)

  datatype Network = Network(f: RoundFn, radix: nat, u: nat, v: nat) {

    /** Width of the half rewritten in round i. */
    function Width(i: nat): nat {
      if i % 2 == 0 then u else v
    }

    /** What holds of the halves before round i. */
    predicate Shape(i: nat, h: Halves) {
      |h.a| == Width(i) && |h.b| == Width(i + 1) && Digits(h.a, radix) && Digits(h.b, radix)
    }

    function Round(i: nat, h: Halves): Halves
      requires radix > 0
    {
      Halves(h.b, Str((Num(h.a, radix) + f(i, h.b)) % Pow(radix, Width(i)), radix, Width(i)))
    }

    function Unround(i: nat, h: Halves): Halves
      requires radix > 0
    {
      Halves(Str((Num(h.b, radix) - f(i, h.a)) % Pow(radix, Width(i)), radix, Width(i)), h.a)
    }

    /** Rounds 0 .. k-1 in order. */
    function Forward(k: nat, h: Halves): (r: Halves)
      requires radix > 0
    {
      if k == 0 then h else Round(k - 1, Forward(k - 1, h))
    }

    /** The inverse rounds k-1 .. 0 in order. */
    function Backward(k: nat, h: Halves): (r: Halves)
      requires radix > 0
      decreases k
    {
      if k == 0 then h else Backward(k - 1, Unround(k - 1, h))
    }

    lemma {:induction false} ForwardShape(k: nat, h: Halves)
      requires radix > 0 && Shape(0, h)
      ensures Shape(k, Forward(k, h))
    {
      if k > 0 {
        ForwardShape(k - 1, h);
      }
    }

    lemma {:induction false} BackwardShape(k: nat, h: Halves)
      requires radix > 0 && Shape(k, h)
      ensures Shape(0, Backward(k, h))
      decreases k
    {
      if k > 0 {
        BackwardShape(k - 1, Unround(k - 1, h));
      }
    }

    lemma UnroundRound(i: nat, h: Halves)
      requires radix > 0 && Shape(i, h)
      ensures Unround(i, Round(i, h)) == h
    {
      var x, y, size := Num(h.a, radix), f(i, h.b), Pow(radix, Width(i));
      NumBelow(h.a, radix);
      SubAdd(x, y, size);
      NumStr((x + y) % size, radix, Width(i));
      StrNum(h.a, radix);
    }

    lemma RoundUnround(i: nat, h: Halves)
      requires radix > 0 && Shape(i + 1, h)
      ensures Round(i, Unround(i, h)) == h
    {
      var x, y, size := Num(h.b, radix), f(i, h.a), Pow(radix, Width(i));
      NumBelow(h.b, radix);
      var d: int := x as int - y as int;
      SubAdd(x, d - x, size);
      NumStr(d % size, radix, Width(i));
      StrNum(h.b, radix);
    }

    /** Any number of rounds is undone by the same number of inverse rounds. */
    lemma {:induction false} BackwardForward(k: nat, h: Halves)
      requires radix > 0 && Shape(0, h)
      ensures Backward(k, Forward(k, h)) == h
    {
      if k > 0 {
        ForwardShape(k - 1, h);
        UnroundRound(k - 1, Forward(k - 1, h));
        BackwardForward(k - 1, h);
      }
    }

    /** ... and the other way round. */
    lemma {:induction false} ForwardBackward(k: nat, h: Halves)
      requires radix > 0 && Shape(k, h)
      ensures Forward(k, Backward(k, h)) == h
      decreases k
    {
      if k > 0 {
        ForwardBackward(k - 1, Unround(k - 1, h));
        RoundUnround(k - 1, h);
      }
    }

    /** k rounds on a whole digit list, split at u. */
    function Run(k: nat, digits: seq<nat>): seq<nat>
      requires radix > 0 && u <= |digits|
    {
      var h := Forward(k, Halves(digits[..u], digits[u..]));
      h.a + h.b
    }

    function RunBack(k: nat, digits: seq<nat>): seq<nat>
      requires radix > 0 && u <= |digits|
    {
      var h := Backward(k, Halves(digits[..u], digits[u..]));
      h.a + h.b
    }

    /** After an even number of rounds the first half is u long again, so the
        whole-list runs are mutually inverse. */
    lemma RunInverse(k: nat, digits: seq<nat>)
      requires radix > 0 && |digits| == u + v && Digits(digits, radix) && k % 2 == 0
      ensures |Run(k, digits)| == |digits| && Digits(Run(k, digits), radix)
      ensures |RunBack(k, digits)| == |digits| && Digits(RunBack(k, digits), radix)
      ensures RunBack(k, Run(k, digits)) == digits
      ensures Run(k, RunBack(k, digits)) == digits
    {
      hide Forward, Backward;
      var h := Halves(digits[..u], digits[u..]);
      ForwardShape(k, h);
      BackwardShape(k, h);
      BackwardForward(k, h);
      ForwardBackward(k, h);
      var e, d := Run(k, digits), RunBack(k, digits);
      assert Halves(e[..u], e[u..]) == Forward(k, h);
      assert Halves(d[..u], d[u..]) == Backward(k, h);
    }
  }

  /** Subtracting what was added, modulo a size above the operand. */
  lemma SubAdd(x: nat, y: int, size: nat)
    requires x < size
    ensures 0 <= (x + y) % size < size
    ensures ((x + y) % size - y) % size == x
  {
    var q := (x + y) / size;
    var e := (x + y) % size;
    assert e == x + y - q * size;
    DivModUnique(-q, x, size);
    assert e - y == -q * size + x;
  }

  /** _num_radix: one pass, most significant digit first. */
  method NumRadix(digits: seq<nat>, radix: nat) returns (value: nat)
    ensures value == Num(digits, radix)
  {
    value := 0;
    for i := 0 to |digits|
      invariant value == Num(digits[..i], radix)
    {
      value := value * radix + digits[i];
      assert digits[..i + 1][..i] == digits[..i];
      assert Uniform(radix, i + 1)[..i] == Uniform(radix, i);
    }
    assert digits[..|digits|] == digits;
  }

  /** _str_m_radix: digits written in place from the last one down. */
  method StrMRadix(value: nat, radix: nat, length: nat) returns (digits: seq<nat>)
    requires radix > 0
    ensures digits == Str(value, radix, length)
  {
    digits := DecodeLoop(value, Uniform(radix, length));
  }

  method RoundStep(w: Network, i: nat, a: seq<nat>, b: seq<nat>) returns (c: seq<nat>)
    requires w.radix > 0
    ensures Halves(b, c) == w.Round(i, Halves(a, b))
  {
    var m := if i % 2 == 0 then w.u else w.v;
    var value := NumRadix(a, w.radix);
    c := StrMRadix((value + w.f(i, b)) % Pow(w.radix, m), w.radix, m);
  }

  method UnroundStep(w: Network, i: nat, a: seq<nat>, b: seq<nat>) returns (c: seq<nat>)
    requires w.radix > 0
    ensures Halves(c, a) == w.Unround(i, Halves(a, b))
  {
    var m := if i % 2 == 0 then w.u else w.v;
    var value := NumRadix(b, w.radix);
    c := StrMRadix((value as int - w.f(i, a)) % Pow(w.radix, m), w.radix, m);
  }

  /** The round loop of ff1_encrypt: the halves swap, the old left half is replaced. */
  method RunRounds(w: Network, rounds: nat, digits: seq<nat>) returns (out: seq<nat>)
    requires w.radix > 0 && |digits| == w.u + w.v && Digits(digits, w.radix)
    ensures out == w.Run(rounds, digits)
  {
    hide Network.Round, Network.Unround;
    var a, b := digits[..w.u], digits[w.u..];
    ghost var h := Halves(a, b);
    for i := 0 to rounds
      invariant Halves(a, b) == w.Forward(i, h)
    {
      var c := RoundStep(w, i, a, b);
      a, b := b, c;
    }
    out := a + b;
  }

  /** The round loop of ff1_decrypt, counted down, subtracting instead of adding. */
  method RunRoundsBack(w: Network, rounds: nat, digits: seq<nat>) returns (out: seq<nat>)
    requires w.radix > 0 && |digits| == w.u + w.v && Digits(digits, w.radix)
    ensures out == w.RunBack(rounds, digits)
  {
    hide Network.Round, Network.Unround;
    var a, b := digits[..w.u], digits[w.u..];
    ghost var h := Halves(a, b);
    for i := rounds downto 0
      invariant w.Backward(rounds, h) == w.Backward(i, Halves(a, b))
    {
      var c := UnroundStep(w, i, a, b);
      b, a := a, c;
    }
    out := a + b;
  }
}
