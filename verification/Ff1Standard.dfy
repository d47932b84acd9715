/** FF1 as section 5.1 of NIST SP 800-38G writes it, byte by byte and round by round: what
    src/surrogate/ff1.py computes, said without its helper functions. */
module Ff1Standard {
  import opened Prelude
  import opened Feistel
  import opened Ff1

  // ------------------------------------------------------------ the pieces of a round

  /** z is the bitwise exclusive or of two blocks. */
  predicate IsXor(z: Block, x: Block, y: Block) {
    forall p | 0 <= p < 16 :: z[p] == (x[p] as bv8 ^ y[p] as bv8) as nat
  }

  /** b is the least number of bytes that holds every value of v digits. */
  predicate IsWidth(b: nat, radix: nat, v: nat) {
    Pow(radix, v) <= Pow(256, b) && (b > 0 ==> Pow(256, b - 1) < Pow(radix, v))
  }

  /** P followed by Q for round i: fixed bytes, radix, rounds, u, n, t; tweak, zeros up to a
      multiple of sixteen bytes, round number, value of the half. */
  predicate IsInput(data: Bytes, tweak: Bytes, radix: nat, n: nat, i: nat, half: seq<nat>, b: nat) {
    var t := |tweak|;
    var pad := |data| - 17 - t - b;
    |data| % 16 == 0 && 0 <= pad < 16
    && data[0] == 1 && data[1] == 2 && data[2] == 1
    && Num(data[3..6], 256) == radix && data[6] == 10 && data[7] == n / 2 % 256
    && Num(data[8..12], 256) == n && Num(data[12..16], 256) == t
    && data[16..16 + t] == tweak && (forall k | 16 + t <= k < 16 + t + pad :: data[k] == 0)
    && data[16 + t + pad] == i && Num(data[17 + t + pad..], 256) == Num(half, radix)
  }

  /** Chained encipherment of the blocks of data, from the zero block on. */
  ghost predicate IsChain(ciph: Cipher, data: Bytes, xs: seq<Block>) {
    |data| % 16 == 0 && |xs| == |data| / 16 + 1 && (forall p | 0 <= p < 16 :: xs[0][p] == 0)
    && forall j, z: Block | 0 <= j < |data| / 16 && IsXor(z, xs[j], data[16 * j..16 * j + 16]) :: xs[j + 1] == ciph(z)
  }

  /** R, then CIPH(R xor [1]), CIPH(R xor [2]), ... byte by byte. */
  ghost predicate IsStream(ciph: Cipher, r: Block, s: Bytes) {
    forall q | 0 <= q < |s| ::
      if q < 16 then s[q] == r[q]
      else forall c: Block, z: Block | Num(c, 256) == q / 16 && IsXor(z, r, c) :: s[q] == ciph(z)[q % 16]
  }

  /** What is computed in one round. */
  datatype Trace = Trace(b: nat, data: Bytes, chain: seq<Block>, stream: Bytes) {
    /** The number y the round adds. */
    function Y(): nat {
      Num(stream, 256)
    }

    ghost predicate Follows(ciph: Cipher, tweak: Bytes, radix: nat, n: nat, i: nat, half: seq<nat>) {
      IsWidth(b, radix, n - n / 2) && IsInput(data, tweak, radix, n, i, half, b)
      && IsChain(ciph, data, chain)
      && |stream| == 4 * ((b + 3) / 4) + 4 && IsStream(ciph, chain[|data| / 16], stream)
    }
  }

  // ---------------------------------------------------------------- each piece is so

  lemma XorIs(z: Block, x: Block, y: Block)
    ensures IsXor(z, x, y) <==> z == Xor(x, y)
  {
    assert z == Xor(x, y) <==> forall p | 0 <= p < 16 :: z[p] == Xor(x, y)[p];
  }

  /** The pseudorandom function is the last block of the chain, whatever the blocks. */
  lemma {:induction false} PrfIsChain(ciph: Cipher, data: Bytes, xs: seq<Block>)
    requires IsChain(ciph, data, xs)
    ensures Prf(ciph, data) == xs[|data| / 16]
  {
    assert xs[0] == Zeros(16);
    ChainEnds(ciph, data, xs);
  }

  lemma {:induction false} ChainEnds(ciph: Cipher, data: Bytes, xs: seq<Block>)
    requires |data| % 16 == 0 && |xs| == |data| / 16 + 1
    requires forall j, z: Block | 0 <= j < |data| / 16 && IsXor(z, xs[j], data[16 * j..16 * j + 16]) ::
      xs[j + 1] == ciph(z)
    ensures CbcMac(ciph, xs[0], data) == xs[|data| / 16]
    decreases |data|
  {
    hide IsXor;
    if data != [] {
      var z := Xor(xs[0], data[..16]);
      XorIs(z, xs[0], data[..16]);
      assert data[16 * 0..16 * 0 + 16] == data[..16];
      assert xs[0 + 1] == ciph(z);
      var rest := data[16..];
      forall j, z: Block | 0 <= j < |rest| / 16 && IsXor(z, xs[1..][j], rest[16 * j..16 * j + 16])
        ensures xs[1..][j + 1] == ciph(z)
      {
        assert rest[16 * j..16 * j + 16] == data[16 * (j + 1)..16 * (j + 1) + 16];
        assert xs[(j + 1) + 1] == ciph(z);
      }
      ChainEnds(ciph, rest, xs[1..]);
    }
  }

  lemma StreamAt(ciph: Cipher, r: Block, k: nat, q: nat)
    requires k < 5 * TWO_32 && q < 16 * (k + 1)
    ensures q / 16 < Pow(256, 16)
    ensures Stream(ciph, r, k)[q] == if q < 16 then r[q] else StreamBlock(ciph, r, q / 16)[q % 16]
  {
    hide StreamBlock;
    CounterFits(q / 16);
    if k > 0 && q < 16 * k {
      StreamAt(ciph, r, k - 1, q);
    }
  }

  lemma StreamIs(ciph: Cipher, r: Block, s: Bytes)
    requires IsStream(ciph, r, s) && |s| < 5 * TWO_32
    ensures s == S(ciph, r, |s|)
  {
    var k := ExtraBlocks(|s|);
    forall q | 0 <= q < |s| ensures s[q] == S(ciph, r, |s|)[q] {
      StreamAt(ciph, r, k, q);
      if q >= 16 {
        StreamByte(ciph, r, s, q);
      }
    }
  }

  lemma StreamByte(ciph: Cipher, r: Block, s: Bytes, q: nat)
    requires IsStream(ciph, r, s) && 16 <= q < |s| && q / 16 < Pow(256, 16)
    ensures s[q] == StreamBlock(ciph, r, q / 16)[q % 16]
  {
    hide Num;
    var c := ToBytes(q / 16, 16);
    var z := Xor(r, c);
    XorIs(z, r, c);
    assert Num(c, 256) == q / 16 && IsXor(z, r, c);
  }

  lemma WidthIs(b: nat, radix: nat, n: nat)
    requires radix >= 2 && n >= 2
    ensures IsWidth(b, radix, n - n / 2) <==> b == FeistelParams(radix, n).b
  {
    hide FeistelParams;
    OwnWidth(radix, n);
    var own := FeistelParams(radix, n).b;
    if IsWidth(b, radix, n - n / 2) {
      if b < own {
        PowMono(256, b, own - 1);
      } else if own < b {
        PowMono(256, own, b - 1);
      }
    }
  }

  lemma OwnWidth(radix: nat, n: nat)
    requires radix >= 2 && n >= 2
    ensures IsWidth(FeistelParams(radix, n).b, radix, n - n / 2)
  {
    var v, x := n - n / 2, Pow(radix, n - n / 2);
    var k, b := CeilLog2(x), FeistelParams(radix, n).b;
    assert b == (k + 7) / 8;
    assert Pow(2, 8) == 256 by { Powers(); }
    PowMono(2, k, 8 * b);
    PowPow(2, 8, b);
    if b > 0 {
      PowMono(2, 8 * (b - 1), k - 1);
      PowPow(2, 8, b - 1);
    }
  }

  lemma BytesAre(s: Bytes, x: nat, width: nat)
    requires |s| == width && Num(s, 256) == x
    ensures x < Pow(256, width) && s == ToBytes(x, width)
  {
    NumBelow(s, 256);
    StrNum(s, 256);
  }

  lemma InputIs(data: Bytes, tweak: Bytes, radix: nat, n: nat, i: nat, half: seq<nat>)
    requires Ff1.Legal(radix, n, |tweak|) && i < 10 && Digits(half, radix) && |half| <= n - n / 2
    requires IsInput(data, tweak, radix, n, i, half, FeistelParams(radix, n).b)
    ensures data == MacInput(tweak, radix, n, i, half)
  {
    hide Num, ToBytes, FeistelParams, Pow;
    var t, b := |tweak|, FeistelParams(radix, n).b;
    Powers();
    HalfFits(radix, n, half);
    var pad := |data| - 17 - t - b;
    BytesAre(data[3..6], radix, 3);
    BytesAre(data[8..12], n, 4);
    BytesAre(data[12..16], t, 4);
    BytesAre(data[17 + t + pad..], Num(half, radix), b);
    PadIs(t + b + 1, pad);
    assert data[..16] == BuildP(radix, n / 2, n, t) by {
      assert data[..16] == data[..3] + data[3..6] + [data[6]] + [data[7]] + data[8..12] + data[12..16];
    }
    assert data[16..] == BuildQ(tweak, b, i, half, radix) by {
      assert data[16..] == data[16..16 + t] + data[16 + t..16 + t + pad] + [data[16 + t + pad]] + data[17 + t + pad..];
      assert data[16 + t..16 + t + pad] == Zeros(pad);
    }
    InputParts(tweak, radix, n, i, half);
    assert data == data[..16] + data[16..];
  }

  lemma InputParts(tweak: Bytes, radix: nat, n: nat, i: nat, half: seq<nat>)
    requires Ff1.Legal(radix, n, |tweak|) && i < 10 && Digits(half, radix) && |half| <= n - n / 2
    ensures Num(half, radix) < Pow(256, FeistelParams(radix, n).b)
    ensures MacInput(tweak, radix, n, i, half)
         == BuildP(radix, n / 2, n, |tweak|) + BuildQ(tweak, FeistelParams(radix, n).b, i, half, radix)
  {
    hide BuildP, BuildQ, Num, Pow;
    HalfFits(radix, n, half);
  }

  lemma PadIs(length: nat, pad: nat)
    requires (16 + length + pad) % 16 == 0 && pad < 16
    ensures pad == PadLength(length)
  {
  }

  /** The round function adds the number of the trace. */
  lemma TraceIs(ciph: Cipher, tweak: Bytes, radix: nat, n: nat, i: nat, half: seq<nat>, tr: Trace)
    requires Ff1.Legal(radix, n, |tweak|) && i < 10 && Digits(half, radix) && |half| <= n - n / 2
    requires tr.Follows(ciph, tweak, radix, n, i, half)
    ensures FF1Network(ciph, tweak, radix, n).f(i, half) == tr.Y()
  {
    hide Num, IsInput, IsXor, IsStream, IsWidth, MacInput, Prf, S;
    WidthIs(tr.b, radix, n);
    InputIs(tr.data, tweak, radix, n, i, half);
    PrfIsChain(ciph, tr.data, tr.chain);
    StreamLengthBound(radix, n, |tweak|);
    StreamIs(ciph, tr.chain[|tr.data| / 16], tr.stream);
  }

  // -------------------------------------------------------------------- ten rounds

  /** Round i puts B first and, after it, A plus y, modulo radix to the width of A, in as many
      digits; the widths are n/2 in even rounds and n - n/2 in odd ones. */
  ghost predicate OneRound(ciph: Cipher, tweak: Bytes, radix: nat, n: nat, i: nat, h: Halves, g: Halves, tr: Trace) {
    var m := if i % 2 == 0 then n / 2 else n - n / 2;
    tr.Follows(ciph, tweak, radix, n, i, h.b)
    && g.a == h.b && |g.b| == m && Digits(g.b, radix) && Pow(radix, m) > 0
    && Num(g.b, radix) == (Num(h.a, radix) + tr.Y()) % Pow(radix, m)
  }

  /** The halves before each round and after the last, and what each round computed. */
  datatype Run = Run(hs: seq<Halves>, traces: seq<Trace>) {
    ghost predicate Of(ciph: Cipher, tweak: Bytes, radix: nat, digits: seq<nat>) {
      var n := |digits|;
      |hs| == 11 && |traces| == 10 && hs[0] == Halves(digits[..n / 2], digits[n / 2..])
      && forall i: nat | i < 10 :: OneRound(ciph, tweak, radix, n, i, hs[i], hs[i + 1], traces[i])
    }
  }

  /** What the source demands, written out. */
  predicate IsLegal(radix: nat, n: nat, t: nat) {
    2 <= radix <= 65536 && 2 <= n < 4294967296 && t <= 4294967295
  }

  lemma {:induction false} RunsForward(r: Run, ciph: Cipher, tweak: Bytes, radix: nat, digits: seq<nat>, k: nat)
    requires IsLegal(radix, |digits|, |tweak|) && Digits(digits, radix) && r.Of(ciph, tweak, radix, digits) && k <= 10
    ensures var w := FF1Network(ciph, tweak, radix, |digits|);
      r.hs[k] == w.Forward(k, r.hs[0]) && w.Shape(k, r.hs[k])
  {
    hide Num, Network.Round, FF1Network, Trace.Follows;
    var w := FF1Network(ciph, tweak, radix, |digits|);
    if k > 0 {
      RunsForward(r, ciph, tweak, radix, digits, k - 1);
      assert OneRound(ciph, tweak, radix, |digits|, k - 1, r.hs[k - 1], r.hs[k], r.traces[k - 1]);
      StepIsRound(ciph, tweak, radix, |digits|, k - 1, r.hs[k - 1], r.hs[k], r.traces[k - 1]);
    }
  }

  lemma StepIsRound(ciph: Cipher, tweak: Bytes, radix: nat, n: nat, i: nat, h: Halves, g: Halves, tr: Trace)
    requires IsLegal(radix, n, |tweak|) && i < 10 && FF1Network(ciph, tweak, radix, n).Shape(i, h)
    requires OneRound(ciph, tweak, radix, n, i, h, g, tr)
    ensures var w := FF1Network(ciph, tweak, radix, n); g == w.Round(i, h) && w.Shape(i + 1, g)
  {
    hide Num, Str, FF1Network, Trace.Follows;
    TraceIs(ciph, tweak, radix, n, i, h.b, tr);
    StrNum(g.b, radix);
  }

  /** Encryption is what ten such rounds make of the digits; on illegal parameters it fails. */
  lemma EncryptIsFF1(ciph: Cipher, tweak: Bytes, radix: nat, digits: seq<nat>)
    requires Digits(digits, radix)
    ensures Encrypt(ciph, tweak, radix, digits).Ok? <==> IsLegal(radix, |digits|, |tweak|)
    ensures IsLegal(radix, |digits|, |tweak|) ==>
      (exists r: Run :: r.Of(ciph, tweak, radix, digits))
      && forall r: Run | r.Of(ciph, tweak, radix, digits) ::
           Encrypt(ciph, tweak, radix, digits) == Ok(r.hs[10].a + r.hs[10].b)
  {
    hide Run.Of, FF1Network, Network.Forward;
    if IsLegal(radix, |digits|, |tweak|) {
      var own := OwnRun(ciph, tweak, radix, digits);
      forall r: Run | r.Of(ciph, tweak, radix, digits)
        ensures |r.hs| == 11 && Encrypt(ciph, tweak, radix, digits) == Ok(r.hs[10].a + r.hs[10].b)
      {
        RunShape(r, ciph, tweak, radix, digits);
        RunsForward(r, ciph, tweak, radix, digits, 10);
      }
    }
  }

  lemma RunShape(r: Run, ciph: Cipher, tweak: Bytes, radix: nat, digits: seq<nat>)
    requires r.Of(ciph, tweak, radix, digits)
    ensures |r.hs| == 11 && r.hs[0] == Halves(digits[..|digits| / 2], digits[|digits| / 2..])
  {
    hide OneRound;
  }

  // ------------------------------------------------------------------ one such run

  lemma {:induction false} OwnChain(ciph: Cipher, iv: Block, data: Bytes) returns (xs: seq<Block>)
    requires |data| % 16 == 0
    ensures |xs| == |data| / 16 + 1 && xs[0] == iv
    ensures forall j | 0 <= j < |data| / 16 :: xs[j + 1] == ciph(Xor(xs[j], data[16 * j..16 * j + 16]))
    decreases |data|
  {
    if data == [] {
      xs := [iv];
    } else {
      var rest := OwnChain(ciph, ciph(Xor(iv, data[..16])), data[16..]);
      xs := [iv] + rest;
      forall j | 0 <= j < |data| / 16 ensures xs[j + 1] == ciph(Xor(xs[j], data[16 * j..16 * j + 16])) {
        if j > 0 {
          assert rest[j - 1 + 1] == ciph(Xor(rest[j - 1], data[16..][16 * (j - 1)..16 * (j - 1) + 16]));
          assert data[16..][16 * (j - 1)..16 * (j - 1) + 16] == data[16 * j..16 * j + 16];
        } else {
          assert data[16 * 0..16 * 0 + 16] == data[..16];
        }
      }
    }
  }

  lemma OwnChainIs(ciph: Cipher, data: Bytes) returns (xs: seq<Block>)
    requires |data| % 16 == 0
    ensures IsChain(ciph, data, xs)
  {
    hide IsXor;
    xs := OwnChain(ciph, Zeros(16), data);
    forall j, z: Block | 0 <= j < |data| / 16 && IsXor(z, xs[j], data[16 * j..16 * j + 16])
      ensures xs[j + 1] == ciph(z)
    {
      XorIs(z, xs[j], data[16 * j..16 * j + 16]);
    }
  }

  lemma OwnStream(ciph: Cipher, r: Block, d: nat)
    requires d < 5 * TWO_32
    ensures IsStream(ciph, r, S(ciph, r, d))
  {
    hide IsXor, Num;
    var s := S(ciph, r, d);
    forall q | 0 <= q < d && q < 16 ensures s[q] == r[q] {
      StreamAt(ciph, r, ExtraBlocks(d), q);
    }
    forall q, c: Block, z: Block | 16 <= q < d && Num(c, 256) == q / 16 && IsXor(z, r, c)
      ensures s[q] == ciph(z)[q % 16]
    {
      OwnStreamByte(ciph, r, d, q, c, z);
    }
  }

  lemma OwnStreamByte(ciph: Cipher, r: Block, d: nat, q: nat, c: Block, z: Block)
    requires 16 <= q < d < 5 * TWO_32 && Num(c, 256) == q / 16 && IsXor(z, r, c)
    ensures S(ciph, r, d)[q] == ciph(z)[q % 16]
  {
    hide IsXor, Num;
    StreamAt(ciph, r, ExtraBlocks(d), q);
    BytesAre(c, q / 16, 16);
    XorIs(z, r, c);
  }

  lemma OwnInput(tweak: Bytes, radix: nat, n: nat, i: nat, half: seq<nat>)
    requires Ff1.Legal(radix, n, |tweak|) && i < 10 && Digits(half, radix) && |half| <= n - n / 2
    ensures IsInput(MacInput(tweak, radix, n, i, half), tweak, radix, n, i, half, FeistelParams(radix, n).b)
  {
    hide Num, ToBytes, FeistelParams, Pow, MacInput;
    Powers();
    HalfFits(radix, n, half);
    InputParts(tweak, radix, n, i, half);
    var t, b := |tweak|, FeistelParams(radix, n).b;
    var pad := PadLength(t + b + 1);
    var p, q := BuildP(radix, n / 2, n, t), BuildQ(tweak, b, i, half, radix);
    var data := p + q;
    OwnP(radix, n, t);
    assert data[..16] == p && data[16..] == q;
    assert data[3..6] == p[3..6] && data[8..12] == p[8..12] && data[12..16] == p[12..16];
    assert data[16..16 + t] == q[..t] == tweak;
    assert data[17 + t + pad..] == q[t + pad + 1..] == ToBytes(Num(half, radix), b);
  }

  lemma OwnP(radix: nat, n: nat, t: nat)
    requires Ff1.Legal(radix, n, t)
    ensures var p := BuildP(radix, n / 2, n, t);
      p[0] == 1 && p[1] == 2 && p[2] == 1 && p[6] == 10 && p[7] == n / 2 % 256
      && Num(p[3..6], 256) == radix && Num(p[8..12], 256) == n && Num(p[12..16], 256) == t
  {
    hide Num, ToBytes, Pow;
    Powers();
    PrefixParts(radix, n / 2, n, t);
  }

  lemma OwnTrace(ciph: Cipher, tweak: Bytes, radix: nat, n: nat, i: nat, half: seq<nat>) returns (tr: Trace)
    requires Ff1.Legal(radix, n, |tweak|) && i < 10 && Digits(half, radix) && |half| <= n - n / 2
    ensures tr.Follows(ciph, tweak, radix, n, i, half)
  {
    hide IsInput, IsStream, IsWidth, IsXor, MacInput, S, Num;
    var p := FeistelParams(radix, n);
    var data := MacInput(tweak, radix, n, i, half);
    var xs := OwnChainIs(ciph, data);
    StreamLengthBound(radix, n, |tweak|);
    OwnStream(ciph, xs[|data| / 16], p.d);
    OwnInput(tweak, radix, n, i, half);
    OwnWidth(radix, n);
    tr := Trace(p.b, data, xs, S(ciph, xs[|data| / 16], p.d));
  }

  lemma {:induction false} OwnRounds(ciph: Cipher, tweak: Bytes, radix: nat, n: nat, h: Halves, k: nat)
    returns (hs: seq<Halves>, traces: seq<Trace>)
    requires IsLegal(radix, n, |tweak|) && FF1Network(ciph, tweak, radix, n).Shape(0, h) && k <= 10
    ensures |hs| == k + 1 && |traces| == k && hs[0] == h && FF1Network(ciph, tweak, radix, n).Shape(k, hs[k])
    ensures forall i: nat | i < k :: OneRound(ciph, tweak, radix, n, i, hs[i], hs[i + 1], traces[i])
  {
    hide FF1Network, OneRound;
    if k == 0 {
      hs, traces := [h], [];
    } else {
      var before, done := OwnRounds(ciph, tweak, radix, n, h, k - 1);
      var g, tr := OwnRound(ciph, tweak, radix, n, k - 1, before[k - 1]);
      hs, traces := before + [g], done + [tr];
    }
  }

  lemma OwnRound(ciph: Cipher, tweak: Bytes, radix: nat, n: nat, i: nat, h: Halves) returns (g: Halves, tr: Trace)
    requires IsLegal(radix, n, |tweak|) && i < 10 && FF1Network(ciph, tweak, radix, n).Shape(i, h)
    ensures OneRound(ciph, tweak, radix, n, i, h, g, tr) && FF1Network(ciph, tweak, radix, n).Shape(i + 1, g)
  {
    hide Num, Str, FF1Network, Trace.Follows;
    var m := if i % 2 == 0 then n / 2 else n - n / 2;
    tr := OwnTrace(ciph, tweak, radix, n, i, h.b);
    PowMono(radix, 0, m);
    var x := (Num(h.a, radix) + tr.Y()) % Pow(radix, m);
    NumStr(x, radix, m);
    g := Halves(h.b, Str(x, radix, m));
  }

  lemma OwnRun(ciph: Cipher, tweak: Bytes, radix: nat, digits: seq<nat>) returns (r: Run)
    requires IsLegal(radix, |digits|, |tweak|) && Digits(digits, radix)
    ensures r.Of(ciph, tweak, radix, digits)
  {
    hide FF1Network, OneRound;
    var n := |digits|;
    var hs, traces := OwnRounds(ciph, tweak, radix, n, Halves(digits[..n / 2], digits[n / 2..]), 10);
    r := Run(hs, traces);
  }
}
