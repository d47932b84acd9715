/** Verhoeff and Luhn check digits (src/detect/tier1/checksum.py). */
module Checksum {
  import opened Prelude
  import opened DigitStrings

  // ---------------------------------------------------------------- Verhoeff

  const D_TABLE: seq<seq<Digit>> := [
    [0, 1, 2, 3, 4, 5, 6, 7, 8, 9],
    [1, 2, 3, 4, 0, 6, 7, 8, 9, 5],
    [2, 3, 4, 0, 1, 7, 8, 9, 5, 6],
    [3, 4, 0, 1, 2, 8, 9, 5, 6, 7],
    [4, 0, 1, 2, 3, 9, 5, 6, 7, 8],
    [5, 9, 8, 7, 6, 0, 4, 3, 2, 1],
    [6, 5, 9, 8, 7, 1, 0, 4, 3, 2],
    [7, 6, 5, 9, 8, 2, 1, 0, 4, 3],
    [8, 7, 6, 5, 9, 3, 2, 1, 0, 4],
    [9, 8, 7, 6, 5, 4, 3, 2, 1, 0]]

  const P_TABLE: seq<seq<Digit>> := [
    [0, 1, 2, 3, 4, 5, 6, 7, 8, 9],
    [1, 5, 7, 6, 2, 8, 3, 0, 9, 4],
    [5, 8, 0, 3, 7, 9, 6, 1, 4, 2],
    [8, 9, 1, 6, 0, 4, 3, 5, 2, 7],
    [9, 4, 5, 3, 1, 2, 6, 8, 7, 0],
    [4, 2, 8, 6, 5, 7, 3, 9, 0, 1],
    [2, 7, 9, 3, 8, 0, 6, 4, 1, 5],
    [7, 0, 4, 6, 9, 1, 3, 2, 5, 8]]

  const INV_TABLE: seq<Digit> := [0, 4, 3, 2, 1, 5, 6, 7, 8, 9]

  /** k mod 5 for -5 <= k < 10. */
  function Mod5(k: int): (r: nat)
    requires -5 <= k < 10
    ensures r < 5 && (r == k || r == k + 5 || r == k - 5)
  {
    if k < 0 then k + 5 else if k < 5 then k else k - 5
  }

  /** The product of the dihedral group D5: rotations 0-4, reflections 5-9. */
  function Dihedral(x: Digit, y: Digit): Digit {
    if x < 5 then
      if y < 5 then Mod5(x + y) else 5 + Mod5(x + y - 5)
    else
      if y < 5 then 5 + Mod5(x - y - 5) else Mod5(x - y)
  }

  lemma TableIsDihedral(x: Digit, y: Digit)
    ensures |D_TABLE| == 10 && |D_TABLE[x]| == 10
    ensures D_TABLE[x][y] == Dihedral(x, y)
  {
    var row := D_TABLE[x];
    if x == 0 { assert row == [0, 1, 2, 3, 4, 5, 6, 7, 8, 9]; }
    else if x == 1 { assert row == [1, 2, 3, 4, 0, 6, 7, 8, 9, 5]; }
    else if x == 2 { assert row == [2, 3, 4, 0, 1, 7, 8, 9, 5, 6]; }
    else if x == 3 { assert row == [3, 4, 0, 1, 2, 8, 9, 5, 6, 7]; }
    else if x == 4 { assert row == [4, 0, 1, 2, 3, 9, 5, 6, 7, 8]; }
    else if x == 5 { assert row == [5, 9, 8, 7, 6, 0, 4, 3, 2, 1]; }
    else if x == 6 { assert row == [6, 5, 9, 8, 7, 1, 0, 4, 3, 2]; }
    else if x == 7 { assert row == [7, 6, 5, 9, 8, 2, 1, 0, 4, 3]; }
    else if x == 8 { assert row == [8, 7, 6, 5, 9, 3, 2, 1, 0, 4]; }
    else { assert row == [9, 8, 7, 6, 5, 4, 3, 2, 1, 0]; }
  }

  lemma Associative(x: Digit, y: Digit, z: Digit)
    ensures Dihedral(Dihedral(x, y), z) == Dihedral(x, Dihedral(y, z))
  {
  }

  lemma Identity(x: Digit)
    ensures Dihedral(x, 0) == x && Dihedral(0, x) == x
  {
  }

  lemma Cancels(c: Digit, x: Digit, y: Digit)
    requires x != y
    ensures Dihedral(c, x) != Dihedral(c, y) && Dihedral(x, c) != Dihedral(y, c)
  {
  }

  /** Verhoeff's base permutation (0 1 5 8 9 4 2 7)(3 6); the rows of the table are
      its powers. */
  function Base(x: Digit): Digit {
    match x
    case 0 => 1 case 1 => 5 case 5 => 8 case 8 => 9 case 9 => 4
    case 4 => 2 case 2 => 7 case 7 => 0 case 3 => 6 case 6 => 3
  }

  function Power(i: nat, x: Digit): Digit {
    if i == 0 then x else Base(Power(i - 1, x))
  }

  lemma PowerZero(x: Digit)
    ensures Power(0, x) == x
  {
  }

  lemma RowStep(k: nat, x: Digit)
    requires k < 8
    ensures P_TABLE[if k == 7 then 0 else k + 1][x] == Base(P_TABLE[k][x])
  {
    if k == 0 { assert P_TABLE[k] == [0, 1, 2, 3, 4, 5, 6, 7, 8, 9]; }
    else if k == 1 { assert P_TABLE[k] == [1, 5, 7, 6, 2, 8, 3, 0, 9, 4]; }
    else if k == 2 { assert P_TABLE[k] == [5, 8, 0, 3, 7, 9, 6, 1, 4, 2]; }
    else if k == 3 { assert P_TABLE[k] == [8, 9, 1, 6, 0, 4, 3, 5, 2, 7]; }
    else if k == 4 { assert P_TABLE[k] == [9, 4, 5, 3, 1, 2, 6, 8, 7, 0]; }
    else if k == 5 { assert P_TABLE[k] == [4, 2, 8, 6, 5, 7, 3, 9, 0, 1]; }
    else if k == 6 { assert P_TABLE[k] == [2, 7, 9, 3, 8, 0, 6, 4, 1, 5]; }
    else { assert P_TABLE[k] == [7, 0, 4, 6, 9, 1, 3, 2, 5, 8]; }
  }

  /** Row i mod 8 of the table is the i-th power of the base permutation. */
  lemma {:induction false} TableIsPower(i: nat, x: Digit)
    ensures P_TABLE[i % 8][x] == Power(i, x)
  {
    if i > 0 {
      TableIsPower(i - 1, x);
      NextRow(i - 1);
      RowStep((i - 1) % 8, x);
    }
  }

  lemma NextRow(i: nat)
    ensures (i + 1) % 8 == if i % 8 == 7 then 0 else i % 8 + 1
  {
  }

  lemma BaseInjective(x: Digit, y: Digit)
    requires x != y
    ensures Base(x) != Base(y)
  {
  }

  lemma {:induction false} PowerInjective(i: nat, x: Digit, y: Digit)
    requires x != y
    ensures Power(i, x) != Power(i, y)
  {
    if i > 0 {
      PowerInjective(i - 1, x, y);
      BaseInjective(Power(i - 1, x), Power(i - 1, y));
    }
  }

  /** The property that makes the scheme catch swapped neighbours. */
  lemma AntiSymmetric(x: Digit, y: Digit)
    requires x != y
    ensures Dihedral(x, Base(y)) != Dihedral(y, Base(x))
  {
  }

  /** The checksum register after the digits of r (rightmost digit first), the first of
      them at position off, starting from register c. */
  function Register(r: seq<Digit>, off: nat, c: Digit): Digit {
    if r == [] then c
    else
      var n := |r| - 1;
      Dihedral(Register(r[..n], off, c), Power(off + n, r[n]))
  }

  lemma {:induction false} RegisterSplit(a: seq<Digit>, b: seq<Digit>, off: nat, c: Digit)
    ensures Register(a + b, off, c) == Register(b, off + |a|, Register(a, off, c))
  {
    hide Dihedral, Power;
    if b == [] {
      assert a + b == a;
    } else {
      var n := |b| - 1;
      RegisterSplit(a, b[..n], off, c);
      assert (a + b)[..|a| + n] == a + b[..n];
    }
  }

  lemma {:induction false} RegisterInjective(r: seq<Digit>, off: nat, c: Digit, d: Digit)
    requires c != d
    ensures Register(r, off, c) != Register(r, off, d)
  {
    hide Dihedral, Power;
    if r != [] {
      var n := |r| - 1;
      RegisterInjective(r[..n], off, c, d);
      Cancels(Power(off + n, r[n]), Register(r[..n], off, c), Register(r[..n], off, d));
    }
  }

  /** A starting register is a left factor of the result. */
  lemma {:induction false} RegisterFactor(r: seq<Digit>, off: nat, c: Digit)
    ensures Register(r, off, c) == Dihedral(c, Register(r, off, 0))
  {
    hide Dihedral, Power;
    if r == [] {
      Identity(c);
    } else {
      var n := |r| - 1;
      RegisterFactor(r[..n], off, c);
      Associative(c, Register(r[..n], off, 0), Power(off + n, r[n]));
    }
  }

  function VerhoeffChecksum(number: string): Digit
    requires DigitChars(number)
  {
    Register(Reversed(number), 0, 0)
  }

  predicate VerhoeffIsValid(number: string) {
    AllDigits(number) && VerhoeffChecksum(number) == 0
  }

  function Inverse(x: Digit): Digit {
    INV_TABLE[x]
  }

  lemma InverseUnique(x: Digit, c: Digit)
    ensures Dihedral(c, x) == 0 <==> c == Inverse(x)
  {
  }

  function VerhoeffCheckDigit(payload: string): Result<char> {
    if !AllDigits(payload) then Err(ValueError)
    else Ok(DigitChar(Inverse(Register(Reversed(payload), 1, 0))))
  }

  /** Exactly one check digit validates a payload, and it is the generated one. */
  lemma VerhoeffCheckDigitUnique(payload: string, c: char)
    requires AllDigits(payload)
    ensures VerhoeffIsValid(payload + [c]) <==> VerhoeffCheckDigit(payload) == Ok(c)
  {
    hide Dihedral, Power;
    if IsDigit(c) {
      var r := Reversed(payload);
      assert Reversed(payload + [c]) == [Val(c)] + r;
      RegisterSplit([Val(c)], r, 0, 0);
      assert Register([Val(c)], 0, 0) == Val(c) by {
        RegisterOne([Val(c)], 0, 0);
        Identity(Val(c));
        PowerZero(Val(c));
      }
      RegisterFactor(r, 1, Val(c));
      InverseUnique(Register(r, 1, 0), Val(c));
    } else {
      assert (payload + [c])[|payload|] == c;
    }
  }

  /** Every single-digit substitution in a valid number is rejected. */
  lemma VerhoeffCatchesSubstitution(number: string, j: nat, c: char)
    requires VerhoeffIsValid(number) && j < |number| && c != number[j]
    ensures !VerhoeffIsValid(number[j := c])
  {
    if IsDigit(c) {
      var n := |number| - 1 - j;
      var r := Reversed(number);
      var before, after := r[..n], r[n + 1..];
      assert r == before + [r[n]] + after;
      assert Reversed(number[j := c]) == before + [Val(c)] + after;
      ValInjective(c, number[j]);
      RegisterDiffers(before, [r[n]], [Val(c)], after, 0);
    } else {
      assert number[j := c][j] == c;
    }
  }

  /** Two different middles that move the register apart keep the checksums apart. */
  lemma RegisterDiffers(a: seq<Digit>, x: seq<Digit>, y: seq<Digit>, b: seq<Digit>, c: Digit)
    requires |x| == |y| && (|x| == 1 || |x| == 2) && x[0] != y[0]
    requires |x| == 2 ==> y == [x[1], x[0]]
    ensures Register(a + x + b, 0, c) != Register(a + y + b, 0, c)
  {
    hide Dihedral, Power;
    RegisterSplit(a + x, b, 0, c);
    RegisterSplit(a + y, b, 0, c);
    RegisterSplit(a, x, 0, c);
    RegisterSplit(a, y, 0, c);
    var m, k := Register(a, 0, c), |a|;
    if |x| == 1 {
      PowerInjective(k, x[0], y[0]);
      RegisterOne(x, k, m);
      RegisterOne(y, k, m);
      Cancels(m, Power(k, x[0]), Power(k, y[0]));
    } else {
      var p, q := Power(k, x[0]), Power(k, x[1]);
      RegisterTwo(x, k, m);
      RegisterTwo(y, k, m);
      PowerInjective(k, x[0], x[1]);
      AntiSymmetric(p, q);
      Cancels(m, Dihedral(p, Base(q)), Dihedral(q, Base(p)));
    }
    RegisterInjective(b, k + |x|, Register(x, k, m), Register(y, k, m));
  }

  lemma RegisterOne(x: seq<Digit>, k: nat, c: Digit)
    requires |x| == 1
    ensures Register(x, k, c) == Dihedral(c, Power(k, x[0]))
  {
    assert x[..0] == [];
  }

  lemma RegisterTwo(x: seq<Digit>, k: nat, c: Digit)
    requires |x| == 2
    ensures Register(x, k, c) == Dihedral(c, Dihedral(Power(k, x[0]), Base(Power(k, x[1]))))
  {
    RegisterOne(x[..1], k, c);
    Associative(c, Power(k, x[0]), Base(Power(k, x[1])));
  }

  /** Every swap of two different neighbours in a valid number is rejected. */
  lemma VerhoeffCatchesTransposition(number: string, j: nat)
    requires VerhoeffIsValid(number) && j + 1 < |number| && number[j] != number[j + 1]
    ensures !VerhoeffIsValid(number[j := number[j + 1]][j + 1 := number[j]])
  {
    var n := |number| - 2 - j;
    var r := Reversed(number);
    var before, x, after := r[..n], [r[n], r[n + 1]], r[n + 2..];
    var y := [r[n + 1], r[n]];
    assert r == before + x + after;
    var swapped := number[j := number[j + 1]][j + 1 := number[j]];
    assert Reversed(swapped) == before + y + after;
    ValInjective(number[j], number[j + 1]);
    RegisterDiffers(before, x, y, after, 0);
  }

  /** The double table lookup of the loop body. */
  function Lookup(c: Digit, i: nat, d: Digit): Digit {
    D_TABLE[c][P_TABLE[i % 8][d]]
  }

  lemma LookupIsProduct(c: Digit, i: nat, d: Digit)
    ensures Lookup(c, i, d) == Dihedral(c, Power(i, d))
  {
    hide Dihedral, Power;
    TableIsPower(i, d);
    TableIsDihedral(c, P_TABLE[i % 8][d]);
  }

  lemma RegisterNone(off: nat)
    ensures Register([], off, 0) == 0
  {
  }

  lemma RegisterNext(r: seq<Digit>, i: nat, off: nat)
    requires i < |r|
    ensures Register(r[..i + 1], off, 0) == Dihedral(Register(r[..i], off, 0), Power(i + off, r[i]))
  {
    hide Dihedral, Power;
    assert r[..i + 1][..i] == r[..i];
  }

  /** The checksum loop over the reversed digits: tables indexed by position. */
  method ChecksumLoop(r: seq<Digit>, off: nat) returns (checksum: Digit)
    ensures checksum == Register(r, off, 0)
  {
    hide *;
    checksum := 0;
    RegisterNone(off);
    assert r[..0] == [];
    for i := 0 to |r|
      invariant checksum == Register(r[..i], off, 0)
    {
      LookupIsProduct(checksum, i + off, r[i]);
      RegisterNext(r, i, off);
      checksum := Lookup(checksum, i + off, r[i]);
    }
    assert r[..|r|] == r;
  }

  method VerhoeffIsValidLoop(number: string) returns (valid: bool)
    ensures valid == VerhoeffIsValid(number)
  {
    if !AllDigits(number) {
      return false;
    }
    var checksum := ChecksumLoop(Reversed(number), 0);
    valid := checksum == 0;
  }

  method VerhoeffGenerate(payload: string) returns (r: Result<char>)
    ensures r == VerhoeffCheckDigit(payload)
    ensures r.Ok? ==> VerhoeffIsValid(payload + [r.value])
  {
    if !AllDigits(payload) {
      return Err(ValueError);
    }
    var checksum := ChecksumLoop(Reversed(payload), 1);
    r := Ok(DigitChar(INV_TABLE[checksum]));
    VerhoeffCheckDigitUnique(payload, r.value);
  }

  // -------------------------------------------------------------------- Luhn

  /** The contribution of a doubled digit. */
  function Doubled(d: Digit): Digit {
    if 2 * d > 9 then 2 * d - 9 else 2 * d
  }

  function Weight(i: nat, d: Digit): Digit {
    if i % 2 == 1 then Doubled(d) else d
  }

  /** The Luhn total of r (rightmost digit first), its first digit at position off. */
  function Total(r: seq<Digit>, off: nat): nat {
    if r == [] then 0 else Total(r[..|r| - 1], off) + Weight(off + |r| - 1, r[|r| - 1])
  }

  lemma {:induction false} TotalSplit(a: seq<Digit>, b: seq<Digit>, off: nat)
    ensures Total(a + b, off) == Total(a, off) + Total(b, off + |a|)
  {
    if b == [] {
      assert a + b == a;
    } else {
      TotalSplit(a, b[..|b| - 1], off);
      assert (a + b)[..|a| + |b| - 1] == a + b[..|b| - 1];
    }
  }

  predicate LuhnIsValid(number: string) {
    AllDigits(number) && |number| >= 2 && Total(Reversed(number), 0) % 10 == 0
  }

  function LuhnCheckDigit(payload: string): Result<char> {
    if !AllDigits(payload) then Err(ValueError)
    else Ok(DigitChar((10 - Total(Reversed(payload), 1) % 10) % 10))
  }

  lemma TotalOne(d: Digit, off: nat)
    ensures Total([d], off) == Weight(off, d)
  {
    assert [d][..0] == [];
  }

  /** Exactly one check digit validates a payload, and it is the generated one. */
  lemma LuhnCheckDigitUnique(payload: string, c: char)
    requires AllDigits(payload)
    ensures LuhnIsValid(payload + [c]) <==> LuhnCheckDigit(payload) == Ok(c)
  {
    hide Total;
    if IsDigit(c) {
      assert Reversed(payload + [c]) == [Val(c)] + Reversed(payload);
      TotalSplit([Val(c)], Reversed(payload), 0);
      TotalOne(Val(c), 0);
    } else {
      assert (payload + [c])[|payload|] == c;
    }
  }

  /** Every single-digit substitution in a valid number is rejected. */
  lemma LuhnCatchesSubstitution(number: string, j: nat, c: char)
    requires LuhnIsValid(number) && j < |number| && c != number[j]
    ensures !LuhnIsValid(number[j := c])
  {
    hide Total;
    if IsDigit(c) {
      var n := |number| - 1 - j;
      var r := Reversed(number);
      assert r == r[..n] + [r[n]] + r[n + 1..];
      assert Reversed(number[j := c]) == r[..n] + [Val(c)] + r[n + 1..];
      TotalThree(r[..n], r[n], r[n + 1..]);
      TotalThree(r[..n], Val(c), r[n + 1..]);
      ValInjective(c, number[j]);
      WeightChanges(n, r[n], Val(c), Total(r[..n], 0) + Total(r[n + 1..], n + 1));
    } else {
      assert number[j := c][j] == c;
    }
  }

  lemma WeightChanges(n: nat, x: Digit, y: Digit, rest: nat)
    requires x != y
    ensures (rest + Weight(n, x)) % 10 != (rest + Weight(n, y)) % 10
  {
  }

  lemma TotalThree(a: seq<Digit>, d: Digit, b: seq<Digit>)
    ensures Total(a + [d] + b, 0) == Total(a, 0) + Weight(|a|, d) + Total(b, |a| + 1)
  {
    TotalSplit(a + [d], b, 0);
    TotalSplit(a, [d], 0);
    TotalOne(d, |a|);
  }

  /** A swap of two different neighbours goes unnoticed exactly for 0 and 9. */
  lemma LuhnTransposition(number: string, j: nat)
    requires LuhnIsValid(number) && j + 1 < |number| && number[j] != number[j + 1]
    ensures LuhnIsValid(number[j := number[j + 1]][j + 1 := number[j]])
            <==> (number[j] == '0' && number[j + 1] == '9') || (number[j] == '9' && number[j + 1] == '0')
  {
    hide Total;
    var n := |number| - 2 - j;
    var r := Reversed(number);
    var a, x, y, b := r[..n], r[n], r[n + 1], r[n + 2..];
    assert r == a + [x] + ([y] + b);
    var swapped := number[j := number[j + 1]][j + 1 := number[j]];
    assert Reversed(swapped) == a + [y] + ([x] + b);
    TotalThree(a, x, [y] + b);
    TotalThree(a, y, [x] + b);
    TotalSplit([y], b, n + 1);
    TotalSplit([x], b, n + 1);
    TotalOne(x, n + 1);
    TotalOne(y, n + 1);
    ValInjective(number[j], number[j + 1]);
    SwapWeights(n, x, y, Total(a, 0) + Total(b, n + 2));
    ValInjective(number[j], '0');
    ValInjective(number[j], '9');
    ValInjective(number[j + 1], '0');
    ValInjective(number[j + 1], '9');
  }

  lemma SwapWeights(n: nat, x: Digit, y: Digit, rest: int)
    requires x != y && (rest + Weight(n, x) + Weight(n + 1, y)) % 10 == 0
    ensures (rest + Weight(n, y) + Weight(n + 1, x)) % 10 == 0
            <==> (x == 0 && y == 9) || (x == 9 && y == 0)
  {
    if n % 2 == 0 {
      assert Weight(n, x) == x && Weight(n + 1, y) == Doubled(y);
    } else {
      assert Weight(n, x) == Doubled(x) && Weight(n + 1, y) == y;
    }
  }

  /** The Luhn loop over the reversed digits; parity says which positions are doubled. */
  method TotalLoop(r: seq<Digit>, off: nat) returns (total: nat)
    ensures total == Total(r, off)
  {
    total := 0;
    for i := 0 to |r|
      invariant total == Total(r[..i], off)
    {
      var digit: nat := r[i];
      if (i + off) % 2 == 1 {
        digit := digit * 2;
        if digit > 9 {
          digit := digit - 9;
        }
      }
      total := total + digit;
      assert r[..i + 1][..i] == r[..i];
    }
    assert r[..|r|] == r;
  }

  method LuhnIsValidLoop(number: string) returns (valid: bool)
    ensures valid == LuhnIsValid(number)
  {
    if !AllDigits(number) || |number| < 2 {
      return false;
    }
    var total := TotalLoop(Reversed(number), 0);
    valid := total % 10 == 0;
  }

  method LuhnGenerate(payload: string) returns (r: Result<char>)
    ensures r == LuhnCheckDigit(payload)
    ensures r.Ok? ==> LuhnIsValid(payload + [r.value])
  {
    if !AllDigits(payload) {
      return Err(ValueError);
    }
    var total := TotalLoop(Reversed(payload), 1);
    r := Ok(DigitChar((10 - total % 10) % 10));
    LuhnCheckDigitUnique(payload, r.value);
  }
}
