/** FF1 of NIST SP 800-38G as src/surrogate/ff1.py implements it: byte layout,
    PRF input, key-stream extension and the ten rounds. The block cipher under
    the session key is an arbitrary function on 16-byte blocks. */
module Ff1 {
  import opened Prelude
  import opened Feistel

  const ROUNDS := 10
  const MIN_RADIX := 2
  const MAX_RADIX := 0x1_0000
  const MIN_LENGTH := 2
  const MAX_TWEAK_LENGTH := 0xFFFF_FFFF
  const TWO_32 := 0x1_0000_0000

  type Byte = b: nat | b < 256
  type Bytes = seq<Byte>
  type Block = b: Bytes | |b| == 16 witness seq(16, _ => 0)
  type Cipher = Block -> Block

  /** int.to_bytes(width, "big"): the precondition is the absence of OverflowError. */
  function ToBytes(x: nat, width: nat): (s: Bytes)
    requires x < Pow(256, width)
    ensures |s| == width && Num(s, 256) == x
  {
    NumStr(x, 256, width);
    Str(x, 256, width)
  }

  function Zeros(n: nat): (s: Bytes)
    ensures |s| == n
  {
    seq(n, _ => 0)
  }

  function Xor(x: Block, y: Block): Block {
    seq(16, i requires 0 <= i < 16 => XorByte(x[i], y[i]))
  }

  function XorByte(x: Byte, y: Byte): Byte {
    (x as bv8 ^ y as bv8) as Byte
  }

  /** The least k with 2^k >= x: the exact value of ceil(log2(x)), and of
      (x - 1).bit_length(). */
  function CeilLog2(x: nat): (k: nat)
    requires x > 0
    ensures x <= Pow(2, k)
    ensures k > 0 ==> Pow(2, k - 1) < x
  {
    if x == 1 then 0
    else
      var k := CeilLog2((x + 1) / 2);
      assert k > 0 ==> Pow(2, k) == Pow(2, k - 1) * 2;
      k + 1
  }

  /** Half lengths, byte width b of a half's value, and key-stream length d. */
  datatype Params = Params(u: nat, v: nat, b: nat, d: nat)

  function FeistelParams(radix: nat, n: nat): (p: Params)
    requires radix >= MIN_RADIX
    ensures p.u + p.v == n && p.u <= p.v <= p.u + 1
    ensures p.d >= p.b + 4
  {
    var u := n / 2;
    var v := n - u;
    var b := (CeilLog2(Pow(radix, v)) + 7) / 8;
    Params(u, v, b, 4 * ((b + 3) / 4) + 4)
  }

  predicate Legal(radix: nat, n: nat, tweakLength: nat) {
    MIN_RADIX <= radix <= MAX_RADIX && MIN_LENGTH <= n < TWO_32 && tweakLength <= MAX_TWEAK_LENGTH
  }

  lemma Powers()
    ensures Pow(2, 8) == 256 && Pow(2, 16) == MAX_RADIX && Pow(256, 2) == 0x1_0000
    ensures Pow(256, 3) == 0x100_0000 && Pow(256, 4) == TWO_32
  {
    assert Pow(2, 4) == 16;
    PowAdd(2, 4, 4);
    PowAdd(2, 8, 8);
    assert Pow(256, 1) == 256;
    PowAdd(256, 1, 1);
    PowAdd(256, 2, 1);
    PowAdd(256, 2, 2);
  }

  /** b bytes hold any value of either half: to_bytes(b) cannot overflow. */
  lemma HalfFits(radix: nat, n: nat, half: seq<nat>)
    requires radix >= MIN_RADIX && Digits(half, radix) && |half| <= FeistelParams(radix, n).v
    ensures Num(half, radix) < Pow(256, FeistelParams(radix, n).b)
  {
    var p := FeistelParams(radix, n);
    var k := CeilLog2(Pow(radix, p.v));
    NumBelow(half, radix);
    PowMono(radix, |half|, p.v);
    PowMono(2, k, 8 * p.b);
    Powers();
    PowPow(2, 8, p.b);
  }

  /** The key stream is at least 32 bits wider than the modulus of any round. */
  lemma StreamWidth(radix: nat, n: nat, m: nat)
    requires radix >= MIN_RADIX && m <= FeistelParams(radix, n).v
    ensures TWO_32 * Pow(radix, m) <= Pow(256, FeistelParams(radix, n).d)
  {
    var p := FeistelParams(radix, n);
    var k := CeilLog2(Pow(radix, p.v));
    PowMono(radix, m, p.v);
    PowMono(2, k, 8 * p.b);
    Powers();
    PowPow(2, 8, p.b);
    assert Pow(radix, m) <= Pow(256, p.b);
    PowAdd(256, 4, p.b);
    MulMono(Pow(radix, m), Pow(256, p.b), TWO_32);
    PowMono(256, p.b + 4, p.d);
  }

  /** For legal parameters d is small, so the block counter fits 16 bytes. */
  lemma StreamLengthBound(radix: nat, n: nat, t: nat)
    requires Legal(radix, n, t)
    ensures FeistelParams(radix, n).d < 5 * TWO_32
  {
    var p := FeistelParams(radix, n);
    var k := CeilLog2(Pow(radix, p.v));
    assert Pow(radix, p.v) <= Pow(2, 16 * p.v) by {
      Powers();
      PowBaseMono(radix, MAX_RADIX, p.v);
      PowPow(2, 16, p.v);
    }
    if k > 16 * p.v {
      PowMono(2, 16 * p.v, k - 1);
    }
  }

  function BuildP(radix: nat, u: nat, n: nat, t: nat): (p: Bytes)
    requires Legal(radix, n, t)
    ensures |p| == 16
  {
    Powers();
    [1, 2, 1] + ToBytes(radix, 3) + [ROUNDS] + [u % 256] + ToBytes(n, 4) + ToBytes(t, 4)
  }

  /** Zero bytes that bring a suffix of the given length to a 16-byte boundary. */
  function PadLength(length: int): (pad: nat)
    ensures (length + pad) % 16 == 0 && pad < 16
  {
    (0 - length) % 16
  }

  function BuildQ(tweak: Bytes, b: nat, i: nat, half: seq<nat>, radix: nat): (q: Bytes)
    requires i < ROUNDS && Num(half, radix) < Pow(256, b)
    ensures |q| % 16 == 0 && |q| >= 16
  {
    tweak + Zeros(PadLength(|tweak| + b + 1)) + [i] + ToBytes(Num(half, radix), b)
  }

  /** CBC-MAC with a zero IV: the last ciphertext block. */
  function CbcMac(ciph: Cipher, iv: Block, data: Bytes): Block
    requires |data| % 16 == 0
    decreases |data|
  {
    if data == [] then iv else CbcMac(ciph, ciph(Xor(iv, data[..16])), data[16..])
  }

  function Prf(ciph: Cipher, data: Bytes): Block
    requires |data| % 16 == 0
  {
    CbcMac(ciph, Zeros(16), data)
  }

  function StreamBlock(ciph: Cipher, r: Block, counter: nat): Block
    requires counter < Pow(256, 16)
  {
    ciph(Xor(r, ToBytes(counter, 16)))
  }

  lemma CounterFits(counter: nat)
    requires counter < 5 * TWO_32
    ensures counter < Pow(256, 16)
  {
    Powers();
    PowAdd(256, 4, 1);
    PowMono(256, 5, 16);
  }

  /** R followed by blocks 1 .. k of the key stream. */
  function Stream(ciph: Cipher, r: Block, k: nat): (s: Bytes)
    requires k < 5 * TWO_32
    ensures |s| == 16 * (k + 1)
  {
    if k == 0 then r
    else
      CounterFits(k);
      Stream(ciph, r, k - 1) + StreamBlock(ciph, r, k)
  }

  /** Number of extra blocks needed to reach d bytes. */
  function ExtraBlocks(d: nat): nat {
    if d <= 16 then 0 else (d - 1) / 16
  }

  /** S: exactly d bytes of the key stream. */
  function S(ciph: Cipher, r: Block, d: nat): (s: Bytes)
    requires d < 5 * TWO_32
    ensures |s| == d
  {
    Stream(ciph, r, ExtraBlocks(d))[..d]
  }

  method GenerateS(ciph: Cipher, r: Block, d: nat) returns (s: Bytes)
    requires d < 5 * TWO_32
    ensures |s| == d && s == S(ciph, r, d)
  {
    s := r;
    var counter := 1;
    while |s| < d
      invariant 1 <= counter <= ExtraBlocks(d) + 1
      invariant s == Stream(ciph, r, counter - 1)
      decreases d - |s|
    {
      CounterFits(counter);
      s := s + StreamBlock(ciph, r, counter);
      counter := counter + 1;
    }
    s := s[..d];
  }

  function Join(p: Bytes, q: Bytes): (data: Bytes)
    requires |p| == 16 && |q| >= 16 && |q| % 16 == 0
    ensures |data| % 16 == 0 && |data| >= 32
  {
    p + q
  }

  /** P || Q of round i, a whole number of blocks. */
  function MacInput(tweak: Bytes, radix: nat, n: nat, i: nat, half: seq<nat>): (data: Bytes)
    requires Legal(radix, n, |tweak|) && i < ROUNDS
    requires Digits(half, radix) && |half| <= FeistelParams(radix, n).v
    ensures |data| % 16 == 0 && |data| >= 32
  {
    hide *;
    HalfFits(radix, n, half);
    Join(BuildP(radix, FeistelParams(radix, n).u, n, |tweak|),
         BuildQ(tweak, FeistelParams(radix, n).b, i, half, radix))
  }

  lemma PrefixInjective(r1: nat, n1: nat, t1: nat, r2: nat, n2: nat, t2: nat)
    requires Legal(r1, n1, t1) && Legal(r2, n2, t2)
    requires BuildP(r1, n1 / 2, n1, t1) == BuildP(r2, n2 / 2, n2, t2)
    ensures r1 == r2 && n1 == n2 && t1 == t2
  {
    Powers();
    hide BuildP;
    PrefixParts(r1, n1 / 2, n1, t1);
    PrefixParts(r2, n2 / 2, n2, t2);
  }

  lemma PrefixParts(radix: nat, u: nat, n: nat, t: nat)
    requires Legal(radix, n, t) && radix < Pow(256, 3) && n < Pow(256, 4) && t < Pow(256, 4)
    ensures var p := BuildP(radix, u, n, t);
      p[3..6] == ToBytes(radix, 3) && p[8..12] == ToBytes(n, 4) && p[12..16] == ToBytes(t, 4)
  {
    hide ToBytes, Pow;
    var a, b, c := ToBytes(radix, 3), ToBytes(n, 4), ToBytes(t, 4);
    assert BuildP(radix, u, n, t) == [1, 2, 1] + a + [ROUNDS] + [u % 256] + b + c;
  }

  lemma SuffixInjective(w1: Bytes, i1: nat, h1: seq<nat>, w2: Bytes, i2: nat, h2: seq<nat>, b: nat, radix: nat)
    requires i1 < ROUNDS && Num(h1, radix) < Pow(256, b) && i2 < ROUNDS && Num(h2, radix) < Pow(256, b)
    requires |w1| == |w2| && BuildQ(w1, b, i1, h1, radix) == BuildQ(w2, b, i2, h2, radix)
    ensures w1 == w2 && i1 == i2 && Num(h1, radix) == Num(h2, radix)
  {
    var p, q := BuildQ(w1, b, i1, h1, radix), BuildQ(w2, b, i2, h2, radix);
    var at := |w1| + PadLength(|w1| + b + 1);
    assert p[..|w1|] == w1 && q[..|w1|] == w2;
    assert p[at] == i1 && q[at] == i2;
    assert p[at + 1..] == ToBytes(Num(h1, radix), b) && q[at + 1..] == ToBytes(Num(h2, radix), b);
  }

  /** The half a round reads: v digits in even rounds, u in odd ones. */
  predicate ReadHalf(radix: nat, n: nat, i: nat, half: seq<nat>) {
    radix >= MIN_RADIX && i < ROUNDS && Digits(half, radix)
    && |half| == (if i % 2 == 0 then FeistelParams(radix, n).v else FeistelParams(radix, n).u)
  }

  /** Domain separation: two PRF inputs are equal only for the same radix, length,
      tweak, round and half. */
  lemma MacInputInjective(w1: Bytes, r1: nat, n1: nat, i1: nat, h1: seq<nat>,
                          w2: Bytes, r2: nat, n2: nat, i2: nat, h2: seq<nat>)
    requires Legal(r1, n1, |w1|) && ReadHalf(r1, n1, i1, h1)
    requires Legal(r2, n2, |w2|) && ReadHalf(r2, n2, i2, h2)
    requires MacInput(w1, r1, n1, i1, h1) == MacInput(w2, r2, n2, i2, h2)
    ensures w1 == w2 && r1 == r2 && n1 == n2 && i1 == i2 && h1 == h2
  {
    var p, q := MacInput(w1, r1, n1, i1, h1), MacInput(w2, r2, n2, i2, h2);
    assert BuildP(r1, n1 / 2, n1, |w1|) == BuildP(r2, n2 / 2, n2, |w2|) by {
      assert p[..16] == BuildP(r1, n1 / 2, n1, |w1|) && q[..16] == BuildP(r2, n2 / 2, n2, |w2|);
    }
    PrefixInjective(r1, n1, |w1|, r2, n2, |w2|);
    var b := FeistelParams(r1, n1).b;
    HalfFits(r1, n1, h1);
    HalfFits(r1, n1, h2);
    assert p[16..] == BuildQ(w1, b, i1, h1, r1) && q[16..] == BuildQ(w2, b, i2, h2, r1);
    SuffixInjective(w1, i1, h1, w2, i2, h2, b, r1);
    StrNum(h1, r1);
    StrNum(h2, r1);
  }

  /** The integer y of round i: NUM(S) for PRF input P || Q. */
  function RoundValue(ciph: Cipher, tweak: Bytes, radix: nat, n: nat, i: nat, half: seq<nat>): nat
    requires Legal(radix, n, |tweak|) && i < ROUNDS
    requires Digits(half, radix) && |half| <= FeistelParams(radix, n).v
  {
    StreamLengthBound(radix, n, |tweak|);
    Num(S(ciph, Prf(ciph, MacInput(tweak, radix, n, i, half)), FeistelParams(radix, n).d), 256)
  }

  /** The network FF1 runs; the round function is only ever applied inside its guard. */
  function FF1Network(ciph: Cipher, tweak: Bytes, radix: nat, n: nat): (w: Network)
    requires Legal(radix, n, |tweak|)
    ensures w.radix == radix && w.u == n / 2 && w.v == n - n / 2
  {
    var p := FeistelParams(radix, n);
    Network(
      (i: nat, half: seq<nat>) =>
        if i < ROUNDS && |half| <= p.v && Digits(half, radix)
        then RoundValue(ciph, tweak, radix, n, i, half) else 0,
      radix, p.u, p.v)
  }

  /** _validate, followed by the OverflowError of n.to_bytes(4) in _build_p. */
  function Check(radix: nat, n: nat, tweakLength: nat): (r: Result<()>)
    ensures r.Ok? <==> Legal(radix, n, tweakLength)
  {
    if !(MIN_RADIX <= radix <= MAX_RADIX) then Err(SurrogateDomainError)
    else if n < MIN_LENGTH then Err(SurrogateDomainError)
    else if tweakLength > MAX_TWEAK_LENGTH then Err(SurrogateDomainError)
    else if n >= TWO_32 then Err(OverflowError)
    else Ok(())
  }

  function Encrypt(ciph: Cipher, tweak: Bytes, radix: nat, digits: seq<nat>): Result<seq<nat>>
    requires Digits(digits, radix)
  {
    var _ :- Check(radix, |digits|, |tweak|);
    Ok(FF1Network(ciph, tweak, radix, |digits|).Run(ROUNDS, digits))
  }

  function Decrypt(ciph: Cipher, tweak: Bytes, radix: nat, digits: seq<nat>): Result<seq<nat>>
    requires Digits(digits, radix)
  {
    var _ :- Check(radix, |digits|, |tweak|);
    Ok(FF1Network(ciph, tweak, radix, |digits|).RunBack(ROUNDS, digits))
  }

  /** FF1 is a permutation of the digit lists of each length: both calls succeed
      exactly on legal parameters, keep length and digit range, and undo each other. */
  lemma Permutation(ciph: Cipher, tweak: Bytes, radix: nat, digits: seq<nat>)
    requires Digits(digits, radix)
    ensures Encrypt(ciph, tweak, radix, digits).Ok? <==> Legal(radix, |digits|, |tweak|)
    ensures Decrypt(ciph, tweak, radix, digits).Ok? <==> Legal(radix, |digits|, |tweak|)
    ensures var e := Encrypt(ciph, tweak, radix, digits);
      e.Ok? ==> |e.value| == |digits| && Digits(e.value, radix)
                && Decrypt(ciph, tweak, radix, e.value) == Ok(digits)
    ensures var d := Decrypt(ciph, tweak, radix, digits);
      d.Ok? ==> |d.value| == |digits| && Digits(d.value, radix)
                && Encrypt(ciph, tweak, radix, d.value) == Ok(digits)
  {
    hide FF1Network, Network.Run, Network.RunBack;
    if Legal(radix, |digits|, |tweak|) {
      FF1Network(ciph, tweak, radix, |digits|).RunInverse(ROUNDS, digits);
    }
  }

  method FF1Encrypt(ciph: Cipher, tweak: Bytes, radix: nat, digits: seq<nat>) returns (r: Result<seq<nat>>)
    requires Digits(digits, radix)
    ensures r == Encrypt(ciph, tweak, radix, digits)
  {
    var _ :- Check(radix, |digits|, |tweak|);
    var out := RunRounds(FF1Network(ciph, tweak, radix, |digits|), ROUNDS, digits);
    r := Ok(out);
  }

  method FF1Decrypt(ciph: Cipher, tweak: Bytes, radix: nat, digits: seq<nat>) returns (r: Result<seq<nat>>)
    requires Digits(digits, radix)
    ensures r == Decrypt(ciph, tweak, radix, digits)
  {
    var _ :- Check(radix, |digits|, |tweak|);
    var out := RunRoundsBack(FF1Network(ciph, tweak, radix, |digits|), ROUNDS, digits);
    r := Ok(out);
  }
}
