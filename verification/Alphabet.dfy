/** Characters of the free positions of structured identifiers, by radix: 10 digits,
    26 upper-case letters, 36 digits then letters. */
module Alphabet {
  import opened DigitStrings

  predicate IsRadix(radix: nat) { radix == 10 || radix == 26 || radix == 36 }

  predicate InAlphabet(radix: nat, c: char) {
    if radix == 10 then IsDigit(c)
    else if radix == 26 then IsUpper(c)
    else radix == 36 && (IsDigit(c) || IsUpper(c))
  }

  function CharValue(radix: nat, c: char): (v: nat)
    requires IsRadix(radix) && InAlphabet(radix, c)
    ensures v < radix
  {
    if radix == 26 then c as int - 'A' as int
    else if IsDigit(c) then c as int - '0' as int
    else c as int - 'A' as int + 10
  }

  function ValueChar(radix: nat, v: nat): (c: char)
    requires IsRadix(radix) && v < radix
    ensures InAlphabet(radix, c) && CharValue(radix, c) == v
  {
    if radix == 26 then ('A' as int + v) as char
    else if v < 10 then ('0' as int + v) as char
    else ('A' as int + v - 10) as char
  }

  lemma ValueCharOfCharValue(radix: nat, c: char)
    requires IsRadix(radix) && InAlphabet(radix, c)
    ensures ValueChar(radix, CharValue(radix, c)) == c
  {
  }
}
