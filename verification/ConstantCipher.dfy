/** FF1 over a block function that enciphers every block alike: ten rounds add the same
    number to both halves. One particular instance on which walks and surrogates can be
    followed by hand (src/surrogate/ff1.py:44-67 and 174-194). */
module ConstantCipher {
  import opened Prelude
  import opened MixedRadix
  import opened Feistel
  import Ff1

  /** The first eight bytes of every enciphered block make y. */
  function Block(y: nat): Ff1.Block
    requires y < Pow(256, 8)
  {
    Ff1.ToBytes(y, 8) + Ff1.Zeros(8)
  }

  function Constant(y: nat): Ff1.Cipher
    requires y < Pow(256, 8)
  {
    var block := Block(y);
    x => block
  }

  lemma {:induction false} MacIsConstant(y: nat, iv: Ff1.Block, data: Ff1.Bytes)
    requires y < Pow(256, 8) && |data| % 16 == 0 && data != []
    ensures Ff1.CbcMac(Constant(y), iv, data) == Block(y)
    decreases |data|
  {
    hide Block;
    var next := Constant(y)(Ff1.Xor(iv, data[..16]));
    assert next == Block(y);
    if data[16..] == [] {
      assert Ff1.CbcMac(Constant(y), next, []) == next;
    } else {
      MacIsConstant(y, next, data[16..]);
    }
  }

  lemma RoundIsConstant(y: nat, tweak: Ff1.Bytes, radix: nat, n: nat, i: nat, half: seq<nat>)
    requires y < Pow(256, 8) && Ff1.Legal(radix, n, |tweak|) && Ff1.FeistelParams(radix, n).d == 8
    requires i < Ff1.ROUNDS && Digits(half, radix) && |half| <= n - n / 2
    ensures Ff1.FF1Network(Constant(y), tweak, radix, n).f(i, half) == y
  {
    hide Ff1.MacInput, Ff1.CbcMac, Num, Constant;
    Ff1.StreamLengthBound(radix, n, |tweak|);
    var data := Ff1.MacInput(tweak, radix, n, i, half);
    MacIsConstant(y, Ff1.Zeros(16), data);
    var r := Ff1.Prf(Constant(y), data);
    assert Ff1.ExtraBlocks(8) == 0 && Ff1.Stream(Constant(y), r, 0) == r;
    assert r[..8] == Ff1.ToBytes(y, 8);
  }

  // ------------------------------------------------------------------ ten rounds

  /** The round function is the constant y on the halves that occur. */
  ghost predicate IsConstant(w: Network, y: nat) {
    w.radix > 0
    && forall i: nat, half | i < 10 && Digits(half, w.radix) && (|half| == w.u || |half| == w.v) :: w.f(i, half) == y
  }

  lemma RoundAdds(w: Network, y: nat, i: nat, h: Halves)
    requires IsConstant(w, y) && w.Shape(i, h) && i < 10
    ensures Pow(w.radix, w.Width(i)) > 0
    ensures var g := w.Round(i, h);
      w.Shape(i + 1, g) && g.a == h.b && Num(g.b, w.radix) == (Num(h.a, w.radix) + y) % Pow(w.radix, w.Width(i))
  {
    hide Num, Str;
    NumStr((Num(h.a, w.radix) + y) % Pow(w.radix, w.Width(i)), w.radix, w.Width(i));
  }

  /** An even round and the odd one after it: y added to each half. */
  lemma DoubleRound(w: Network, y: nat, i: nat, h: Halves)
    requires w.radix > 0 && IsConstant(w, y) && w.Shape(0, h) && i < 9 && i % 2 == 0
    ensures Pow(w.radix, w.u) > 0 && Pow(w.radix, w.v) > 0
    ensures var g := w.Round(i + 1, w.Round(i, h));
      w.Shape(0, g)
      && Num(g.a, w.radix) == (Num(h.a, w.radix) + y) % Pow(w.radix, w.u)
      && Num(g.b, w.radix) == (Num(h.b, w.radix) + y) % Pow(w.radix, w.v)
  {
    hide Num, Network.Round, IsConstant, Digits;
    RoundAdds(w, y, i, h);
    RoundAdds(w, y, i + 1, w.Round(i, h));
  }

  /** g is h with j times y added to each half, modulo its own size. */
  ghost predicate Added(w: Network, y: nat, h: Halves, j: nat, g: Halves) {
    w.radix > 0 && Pow(w.radix, w.u) > 0 && Pow(w.radix, w.v) > 0 && w.Shape(0, g)
    && Num(g.a, w.radix) == (Num(h.a, w.radix) + j * y) % Pow(w.radix, w.u)
    && Num(g.b, w.radix) == (Num(h.b, w.radix) + j * y) % Pow(w.radix, w.v)
  }

  lemma AddedNone(w: Network, y: nat, h: Halves)
    requires w.radix > 0 && w.Shape(0, h)
    ensures Added(w, y, h, 0, h)
  {
    hide Num, Network.Shape;
    ShapeBelow(w, h);
    assert 0 * y == 0;
    ModSmall(Num(h.a, w.radix), Pow(w.radix, w.u));
    ModSmall(Num(h.b, w.radix), Pow(w.radix, w.v));
  }

  lemma AddedMore(w: Network, y: nat, h: Halves, j: nat, g: Halves, i: nat)
    requires IsConstant(w, y) && Added(w, y, h, j, g) && i < 9 && i % 2 == 0
    ensures w.radix > 0 && Added(w, y, h, j + 1, w.Round(i + 1, w.Round(i, g)))
  {
    hide Num, Network.Round, IsConstant, Network.Shape;
    DoubleRound(w, y, i, g);
    OneMore(j, y);
    AddAgain(Num(h.a, w.radix), j * y, (j + 1) * y, y, Pow(w.radix, w.u));
    AddAgain(Num(h.b, w.radix), j * y, (j + 1) * y, y, Pow(w.radix, w.v));
  }

  lemma {:induction false} TwoRounds(w: Network, y: nat, h: Halves, j: nat)
    requires IsConstant(w, y) && w.Shape(0, h) && j <= 5
    ensures w.radix > 0 && Added(w, y, h, j, w.Forward(2 * j, h))
  {
    hide Network.Forward, Network.Round, IsConstant, Added;
    if j == 0 {
      ForwardNone(w, y, h);
      AddedNone(w, y, h);
    } else {
      TwoRounds(w, y, h, j - 1);
      ForwardTwo(w, y, h, j);
      AddedMore(w, y, h, j - 1, w.Forward(2 * (j - 1), h), 2 * j - 2);
    }
  }

  lemma ShapeBelow(w: Network, h: Halves)
    requires w.radix > 0 && w.Shape(0, h)
    ensures Num(h.a, w.radix) < Pow(w.radix, w.u) && Num(h.b, w.radix) < Pow(w.radix, w.v)
  {
    NumBelow(h.a, w.radix);
    NumBelow(h.b, w.radix);
  }

  lemma AddAgain(a: nat, p: nat, q: nat, y: nat, m: nat)
    requires m > 0 && q == p + y
    ensures ((a + p) % m + y) % m == (a + q) % m
  {
    ModAdd(a + p, y, m);
  }

  lemma OneMore(j: nat, y: nat)
    ensures (j + 1) * y == j * y + y
  {
  }

  lemma ModAdd(x: nat, y: nat, m: nat)
    requires m > 0
    ensures (x % m + y) % m == (x + y) % m
  {
    var q, r := x / m, x % m;
    var q', r' := (r + y) / m, (r + y) % m;
    assert x + y == (q + q') * m + r';
    DivModUnique(q + q', r', m);
  }

  lemma ForwardNone(w: Network, y: nat, h: Halves)
    requires IsConstant(w, y)
    ensures w.radix > 0 && w.Forward(0, h) == h
  {
  }

  lemma ForwardTwo(w: Network, y: nat, h: Halves, j: nat)
    requires IsConstant(w, y) && j > 0
    ensures w.radix > 0
    ensures w.Forward(2 * j, h) == w.Round(2 * j - 2 + 1, w.Round(2 * j - 2, w.Forward(2 * (j - 1), h)))
  {
    hide Network.Round;
    assert w.Forward(2 * j - 1, h) == w.Round(2 * j - 2, w.Forward(2 * j - 2, h));
  }

  /** On whole digit lists. */
  lemma RunAdds(w: Network, y: nat, digits: seq<nat>)
    requires w.radix > 0 && IsConstant(w, y) && |digits| == w.u + w.v && Digits(digits, w.radix)
    ensures var e := w.Run(10, digits);
      |e| == |digits| && Digits(e, w.radix)
      && Added(w, y, Halves(digits[..w.u], digits[w.u..]), 5, Halves(e[..w.u], e[w.u..]))
  {
    hide Num, Network.Forward, IsConstant, Added;
    var h := Halves(digits[..w.u], digits[w.u..]);
    TwoRounds(w, y, h, 5);
    var g := w.Forward(10, h);
    w.ForwardShape(10, h);
    var e := w.Run(10, digits);
    assert Halves(e[..w.u], e[w.u..]) == g;
  }

  /** What FF1 over the constant cipher does to the two halves of a digit list. */
  lemma FF1Adds(y: nat, tweak: Ff1.Bytes, radix: nat, digits: seq<nat>)
    requires y < Pow(256, 8) && Digits(digits, radix) && Ff1.Legal(radix, |digits|, |tweak|)
    requires Ff1.FeistelParams(radix, |digits|).d == 8
    ensures var u, e := |digits| / 2, Ff1.Encrypt(Constant(y), tweak, radix, digits);
      e.Ok? && |e.value| == |digits| && Digits(e.value, radix)
      && Added(Ff1.FF1Network(Constant(y), tweak, radix, |digits|), y,
               Halves(digits[..u], digits[u..]), 5, Halves(e.value[..u], e.value[u..]))
  {
    hide Num, Ff1.FF1Network, Ff1.FeistelParams, Network.Run, Constant, IsConstant, Added;
    NetworkIsConstant(y, tweak, radix, |digits|);
    RunAdds(Ff1.FF1Network(Constant(y), tweak, radix, |digits|), y, digits);
  }

  /** The numbers of the halves, modulo their sizes. */
  lemma HalvesAdded(w: Network, y: nat, h: Halves, g: Halves, p: nat, q: nat, z: nat)
    requires Added(w, y, h, 5, g) && p == Pow(w.radix, w.u) && q == Pow(w.radix, w.v) && z == 5 * y
    ensures p > 0 && q > 0
    ensures Num(g.a, w.radix) == (Num(h.a, w.radix) + z) % p && Num(g.b, w.radix) == (Num(h.b, w.radix) + z) % q
  {
    hide Num, Network.Shape;
  }

  lemma NetworkIsConstant(y: nat, tweak: Ff1.Bytes, radix: nat, n: nat)
    requires y < Pow(256, 8) && Ff1.Legal(radix, n, |tweak|) && Ff1.FeistelParams(radix, n).d == 8
    ensures IsConstant(Ff1.FF1Network(Constant(y), tweak, radix, n), y)
  {
    hide Ff1.FF1Network, Ff1.FeistelParams, Constant;
    var w := Ff1.FF1Network(Constant(y), tweak, radix, n);
    forall i: nat, half | i < 10 && Digits(half, radix) && (|half| == w.u || |half| == w.v) ensures w.f(i, half) == y {
      RoundIsConstant(y, tweak, radix, n, i, half);
    }
  }

  lemma CeilLog2Is(x: nat, k: nat)
    requires 0 < k && Pow(2, k - 1) < x <= Pow(2, k)
    ensures Ff1.CeilLog2(x) == k
  {
    var c := Ff1.CeilLog2(x);
    if c > k {
      PowMono(2, k, c - 1);
    } else if c < k {
      PowMono(2, c, k - 1);
    }
  }

  lemma Powers()
    ensures Pow(2, 11) == 2048 && Pow(2, 18) == 262144 && Pow(2, 19) == 524288 && Pow(2, 20) == 1048576
    ensures Pow(2, 36) == 68719476736 && Pow(2, 37) == 137438953472
    ensures Pow(10, 5) == 100000 && Pow(10, 6) == 1000000
    ensures Pow(256, 8) > 1000000
  {
    assert Pow(2, 5) == 32 && Pow(2, 2) == 4 && Pow(10, 3) == 1000 && Pow(10, 2) == 100;
    PowAdd(2, 5, 5);
    PowAdd(2, 10, 1);
    PowAdd(2, 10, 5);
    PowAdd(2, 15, 3);
    PowAdd(2, 18, 1);
    PowAdd(2, 19, 1);
    PowAdd(2, 18, 18);
    PowAdd(2, 36, 1);
    PowAdd(10, 3, 2);
    PowAdd(10, 3, 3);
    assert Pow(256, 3) == 16777216;
    PowMono(256, 3, 8);
  }
}
