/** The two check sums read from the left, and the numbers the program is known to accept
    and to reject (src/detect/tier1/checksum.py, tests/unit/test_checksum.py). */
module CheckDigits {
  import opened DigitStrings
  import opened Checksum

  ghost predicate OnlyDigits(s: string) {
    forall c | c in s :: '0' <= c <= '9'
  }

  /** The table product of the first digit, at its distance from the right, after that of
      the others. */
  function VerhoeffOf(s: string): Digit
    requires DigitChars(s)
  {
    if s == "" then 0
    else D_TABLE[VerhoeffOf(s[1..])][P_TABLE[(|s| - 1) % 8][s[0] as int - '0' as int]]
  }

  /** What a digit adds: itself, or the digit sum of its double at odd distance from the
      right. */
  function Adds(c: char, distance: nat): nat
    requires '0' <= c <= '9'
  {
    var d := c as int - '0' as int;
    if distance % 2 == 1 then 2 * d / 10 + 2 * d % 10 else d
  }

  function LuhnOf(s: string): nat
    requires DigitChars(s)
  {
    if s == "" then 0 else Adds(s[0], |s| - 1) + LuhnOf(s[1..])
  }

  lemma DigitsAre(s: string)
    ensures OnlyDigits(s) <==> DigitChars(s)
    ensures AllDigits(s) <==> s != "" && OnlyDigits(s)
  {
    assert forall i | 0 <= i < |s| :: s[i] in s;
  }

  lemma ValIs(c: char)
    requires IsDigit(c)
    ensures Val(c) as int == c as int - '0' as int
  {
  }

  lemma ReversedCons(s: string)
    requires DigitChars(s) && s != ""
    ensures DigitChars(s[1..])
    ensures var r := Reversed(s); r[..|r| - 1] == Reversed(s[1..]) && r[|r| - 1] as int == s[0] as int - '0' as int
  {
    ValIs(s[0]);
  }

  lemma VerhoeffCons(s: string)
    requires DigitChars(s) && s != ""
    ensures VerhoeffOf(s) == Lookup(VerhoeffOf(s[1..]), |s| - 1, Val(s[0]))
  {
    ValIs(s[0]);
  }

  lemma {:induction false} VerhoeffFromLeft(s: string)
    requires DigitChars(s)
    ensures VerhoeffOf(s) == Register(Reversed(s), 0, 0)
  {
    hide Dihedral, Power, Lookup, VerhoeffOf, Reversed, DigitChars;
    if s == "" {
      NoDigits();
    } else {
      ReversedCons(s);
      VerhoeffFromLeft(s[1..]);
      VerhoeffCons(s);
      LookupIsProduct(VerhoeffOf(s[1..]), |s| - 1, Val(s[0]));
    }
  }

  lemma AddsIsWeight(c: char, distance: nat)
    requires IsDigit(c)
    ensures Adds(c, distance) == Weight(distance, Val(c))
  {
  }

  lemma {:induction false} LuhnFromLeft(s: string)
    requires DigitChars(s)
    ensures LuhnOf(s) == Total(Reversed(s), 0)
  {
    if s != "" {
      ReversedCons(s);
      LuhnFromLeft(s[1..]);
      AddsIsWeight(s[0], |s| - 1);
      hide Weight, Adds, DigitChars;
    }
  }

  /** Both checks are what their sums from the left say, on every string. */
  lemma ValidIs(s: string)
    ensures OnlyDigits(s) <==> DigitChars(s)
    ensures VerhoeffIsValid(s) <==> s != "" && OnlyDigits(s) && VerhoeffOf(s) == 0
    ensures LuhnIsValid(s) <==> |s| >= 2 && OnlyDigits(s) && LuhnOf(s) % 10 == 0
  {
    hide OnlyDigits, VerhoeffOf, LuhnOf, Register, Total, DigitChars;
    DigitsAre(s);
    if DigitChars(s) {
      VerhoeffFromLeft(s);
      LuhnFromLeft(s);
    }
  }

  /** A digit more on the left. */
  lemma Next(t: string, s: string, d: nat)
    requires t != "" && s == t[1..] && DigitChars(s) && t[0] as int - '0' as int == d < 10
    ensures DigitChars(t)
    ensures VerhoeffOf(t) == Lookup(VerhoeffOf(s), |s|, d)
    ensures LuhnOf(t) == LuhnOf(s) + if |s| % 2 == 1 then 2 * d / 10 + 2 * d % 10 else d
  {
    hide Lookup, VerhoeffOf;
    forall i | 0 <= i < |t| ensures IsDigit(t[i]) {
      assert i > 0 ==> t[i] == s[i - 1];
    }
    ValIs(t[0]);
    VerhoeffCons(t);
  }

  lemma KnownVerhoeff()
    ensures VerhoeffIsValid("2363") && !VerhoeffIsValid("2336") && !VerhoeffIsValid("236A") && !VerhoeffIsValid("")
  {
    hide VerhoeffOf, Lookup, VerhoeffIsValid, OnlyDigits, DigitChars;
    NoDigits();
    Next("3", "", 3);
    Next("63", "3", 6);
    Next("363", "63", 3);
    Next("2363", "363", 2);
    Lookups();
    ValidIs("2363");
    ValidIs("");
    ValidIs("236A");
    VerhoeffCatchesTransposition("2363", 2);
    assert "2363"[2 := '3'][3 := '6'] == "2336";
  }

  lemma NoDigits()
    ensures DigitChars("") && VerhoeffOf("") == 0 && LuhnOf("") == 0 && Reversed("") == []
    ensures !OnlyDigits("236A")
  {
    assert 'A' in "236A" by {
      assert "236A"[3] == 'A';
    }
  }

  lemma Lookups()
    ensures Lookup(0, 0, 3) == 3 && Lookup(3, 1, 6) == 1 && Lookup(1, 2, 3) == 4 && Lookup(4, 3, 2) == 0
  {
    var p := P_TABLE;
    assert p[0] == [0, 1, 2, 3, 4, 5, 6, 7, 8, 9] && p[1] == [1, 5, 7, 6, 2, 8, 3, 0, 9, 4];
    assert p[2] == [5, 8, 0, 3, 7, 9, 6, 1, 4, 2] && p[3] == [8, 9, 1, 6, 0, 4, 3, 5, 2, 7];
    hide Dihedral;
    TableIsDihedral(0, 3);
    TableIsDihedral(3, 3);
    TableIsDihedral(1, 3);
    TableIsDihedral(4, 1);
    Products();
  }

  lemma Products()
    ensures Dihedral(0, 3) == 3 && Dihedral(3, 3) == 1 && Dihedral(1, 3) == 4 && Dihedral(4, 1) == 0
  {
  }

  lemma KnownLuhn()
    ensures LuhnIsValid("79927398713") && !LuhnIsValid("7") && !LuhnIsValid("")
  {
    hide LuhnOf, LuhnIsValid, OnlyDigits, DigitChars;
    LastDigits();
    NextLuhn("7398713", "398713", 7, 41);
    NextLuhn("27398713", "7398713", 2, 45);
    NextLuhn("927398713", "27398713", 9, 54);
    NextLuhn("9927398713", "927398713", 9, 63);
    NextLuhn("79927398713", "9927398713", 7, 70);
    ValidIs("79927398713");
    ValidIs("7");
    ValidIs("");
  }

  lemma LastDigits()
    ensures DigitChars("398713") && LuhnOf("398713") == 34
  {
    hide LuhnOf, DigitChars;
    NoDigits();
    NextLuhn("3", "", 3, 3);
    NextLuhn("13", "3", 1, 5);
    NextLuhn("713", "13", 7, 12);
    NextLuhn("8713", "713", 8, 19);
    NextLuhn("98713", "8713", 9, 28);
    NextLuhn("398713", "98713", 3, 34);
  }

  lemma NextLuhn(t: string, s: string, d: nat, sum: nat)
    requires t != "" && s == t[1..] && DigitChars(s) && t[0] as int - '0' as int == d < 10
    requires sum == LuhnOf(s) + if |s| % 2 == 1 then 2 * d / 10 + 2 * d % 10 else d
    ensures DigitChars(t) && LuhnOf(t) == sum
  {
    Next(t, s, d);
  }
}
