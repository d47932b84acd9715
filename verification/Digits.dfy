/** ASCII digits and letters, and digit strings as lists of values. */
module DigitStrings {
  type Digit = d: nat | d < 10

  predicate IsDigit(c: char) { '0' <= c <= '9' }

  predicate IsUpper(c: char) { 'A' <= c <= 'Z' }

  /** str.isdigit() restricted to ASCII: false on the empty string. */
  predicate AllDigits(s: string) {
    s != [] && DigitChars(s)
  }

  predicate DigitChars(s: string) {
    forall i | 0 <= i < |s| :: IsDigit(s[i])
  }

  function Val(c: char): Digit
    requires IsDigit(c)
  {
    (c as int - '0' as int) as nat
  }

  function DigitChar(d: Digit): (c: char)
    ensures IsDigit(c) && Val(c) == d
  {
    ('0' as int + d) as char
  }

  lemma ValInjective(c: char, d: char)
    requires IsDigit(c) && IsDigit(d)
    ensures Val(c) == Val(d) <==> c == d
  {
    assert c as int == Val(c) + '0' as int && d as int == Val(d) + '0' as int;
  }

  /** [int(c) for c in s]. */
  function Values(s: string): (d: seq<nat>)
    requires DigitChars(s)
    ensures |d| == |s| && forall i | 0 <= i < |d| :: d[i] < 10
  {
    seq(|s|, i requires 0 <= i < |s| => Val(s[i]) as nat)
  }

  /** "".join(str(x) for x in d). */
  function Render(d: seq<nat>): (s: string)
    requires forall i | 0 <= i < |d| :: d[i] < 10
    ensures |s| == |d| && DigitChars(s)
  {
    seq(|d|, i requires 0 <= i < |d| => DigitChar(d[i]))
  }

  lemma RenderValues(s: string)
    requires DigitChars(s)
    ensures Render(Values(s)) == s
  {
  }

  lemma ValuesRender(d: seq<nat>)
    requires forall i | 0 <= i < |d| :: d[i] < 10
    ensures Values(Render(d)) == d
  {
  }

  /** The digits in the order the checksum loops visit them: rightmost first. */
  function Reversed(s: string): (r: seq<Digit>)
    requires DigitChars(s)
    ensures |r| == |s|
  {
    seq(|s|, i requires 0 <= i < |s| => Val(s[|s| - 1 - i]))
  }
}
