/** Surrogate domains that permute a run of decimal digits directly: Aadhaar, payment
    card and phone (src/surrogate/domains/aadhaar.py, card.py, phone.py). */
module DigitDomains {
  import opened Prelude
  import opened DigitStrings
  import opened Checksum
  import Ff1

  /** FF1 in radix 10 on the digits of a string. */
  function Permute(ciph: Ff1.Cipher, tweak: Ff1.Bytes, payload: string): Result<string>
    requires DigitChars(payload)
  {
    var e := Ff1.Encrypt(ciph, tweak, 10, Values(payload));
    Ff1.Permutation(ciph, tweak, 10, Values(payload));
    if e.Ok? then Ok(Render(e.value)) else Err(e.error)
  }

  function Unpermute(ciph: Ff1.Cipher, tweak: Ff1.Bytes, payload: string): Result<string>
    requires DigitChars(payload)
  {
    var e := Ff1.Decrypt(ciph, tweak, 10, Values(payload));
    Ff1.Permutation(ciph, tweak, 10, Values(payload));
    if e.Ok? then Ok(Render(e.value)) else Err(e.error)
  }

  /** A digit run of a legal length is permuted to one of the same length, and back. */
  lemma PermuteInverse(ciph: Ff1.Cipher, tweak: Ff1.Bytes, payload: string)
    requires DigitChars(payload) && 2 <= |payload| < 100 && |tweak| < 100
    ensures var e := Permute(ciph, tweak, payload);
      e.Ok? && |e.value| == |payload| && DigitChars(e.value)
      && Unpermute(ciph, tweak, e.value) == Ok(payload)
    ensures var d := Unpermute(ciph, tweak, payload);
      d.Ok? && |d.value| == |payload| && DigitChars(d.value)
      && Permute(ciph, tweak, d.value) == Ok(payload)
  {
    hide Ff1.Encrypt, Ff1.Decrypt;
    var v := Values(payload);
    Ff1.Permutation(ciph, tweak, 10, v);
    RenderValues(payload);
    ValuesRender(Ff1.Encrypt(ciph, tweak, 10, v).value);
    ValuesRender(Ff1.Decrypt(ciph, tweak, 10, v).value);
  }

  // ------------------------------------------------- payload + check digit

  datatype Scheme = Verhoeff | Luhn {
    function CheckDigit(payload: string): Result<char> {
      if this == Verhoeff then VerhoeffCheckDigit(payload) else LuhnCheckDigit(payload)
    }

    predicate IsValid(number: string) {
      if this == Verhoeff then VerhoeffIsValid(number) else LuhnIsValid(number)
    }
  }

  /** A number of minLength .. maxLength digits whose last is a check digit. */
  datatype CheckedDomain =
    CheckedDomain(tweak: Ff1.Bytes, minLength: nat, maxLength: nat, scheme: Scheme) {

    predicate WellFormed() { 3 <= minLength <= maxLength < 100 && |tweak| < 100 }

    predicate Accepts(value: string) {
      minLength <= |value| <= maxLength && AllDigits(value)
    }

    function Encrypt(ciph: Ff1.Cipher, value: string): Result<string> {
      if !Accepts(value) then Err(SurrogateDomainError)
      else
        var payload :- Permute(ciph, tweak, value[..|value| - 1]);
        var check :- scheme.CheckDigit(payload);
        Ok(payload + [check])
    }

    function Decrypt(ciph: Ff1.Cipher, surrogate: string): Result<string> {
      if !Accepts(surrogate) then Err(SurrogateDomainError)
      else
        var payload :- Unpermute(ciph, tweak, surrogate[..|surrogate| - 1]);
        var check :- scheme.CheckDigit(payload);
        Ok(payload + [check])
    }

    lemma CheckDigitUnique(payload: string, c: char)
      requires AllDigits(payload)
      ensures scheme.IsValid(payload + [c]) <==> scheme.CheckDigit(payload) == Ok(c)
      ensures scheme.CheckDigit(payload).Ok? && IsDigit(scheme.CheckDigit(payload).value)
    {
      hide VerhoeffIsValid, LuhnIsValid;
      VerhoeffCheckDigitUnique(payload, c);
      LuhnCheckDigitUnique(payload, c);
    }

    /** Every accepted value gets a surrogate of its own length with a valid check digit;
        decrypting that gives the value back exactly when its own check digit is valid,
        and otherwise differs from it in the check digit only. */
    lemma RoundTrip(ciph: Ff1.Cipher, value: string)
      requires WellFormed() && Accepts(value)
      ensures var s := Encrypt(ciph, value);
        s.Ok? && |s.value| == |value| && Accepts(s.value) && scheme.IsValid(s.value)
      ensures var d := Decrypt(ciph, Encrypt(ciph, value).value);
        d.Ok? && |d.value| == |value| && d.value[..|value| - 1] == value[..|value| - 1]
        && (d == Ok(value) <==> scheme.IsValid(value))
    {
      hide Permute, Unpermute, Scheme.CheckDigit, Scheme.IsValid;
      var n := |value| - 1;
      var payload := value[..n];
      PermuteInverse(ciph, tweak, payload);
      var p := Permute(ciph, tweak, payload).value;
      CheckDigitUnique(p, '0');
      var c := scheme.CheckDigit(p).value;
      CheckDigitUnique(p, c);
      assert (p + [c])[..n] == p;
      CheckDigitUnique(payload, value[n]);
      assert payload + [value[n]] == value;
      assert Decrypt(ciph, p + [c]) == Ok(payload + [scheme.CheckDigit(payload).value]);
      assert (payload + [scheme.CheckDigit(payload).value])[n] == scheme.CheckDigit(payload).value;
    }
  }

  /** The twelve-digit Aadhaar number with its Verhoeff digit. */
  const AADHAAR := CheckedDomain([65, 65, 68, 72, 65, 65, 82], 12, 12, Verhoeff)

  /** A payment card number of twelve to nineteen digits with its Luhn digit. */
  const CARD := CheckedDomain([67, 65, 82, 68], 12, 19, Luhn)

  // ------------------------------------------------------------------- phone

  const PHONE_TWEAK: Ff1.Bytes := [80, 72, 79, 78, 69]

  function SplitPrefix(value: string): Result<(string, string)> {
    var (prefix, core) :-
      if "+91" <= value && |value| == 13 then Ok(("+91", value[3..]))
      else if "91" <= value && |value| == 12 then Ok(("91", value[2..]))
      else if "0" <= value && |value| == 11 then Ok(("0", value[1..]))
      else if |value| == 10 then Ok(("", value))
      else Err(SurrogateDomainError);
    if !AllDigits(core) || core[0] !in "6789" then Err(SurrogateDomainError)
    else Ok((prefix, core))
  }

  function PhoneEncrypt(ciph: Ff1.Cipher, value: string): Result<string> {
    var (prefix, core) :- SplitPrefix(value);
    var permuted :- Permute(ciph, PHONE_TWEAK, core[1..]);
    Ok(prefix + [core[0]] + permuted)
  }

  function PhoneDecrypt(ciph: Ff1.Cipher, surrogate: string): Result<string> {
    var (prefix, core) :- SplitPrefix(surrogate);
    var original :- Unpermute(ciph, PHONE_TWEAK, core[1..]);
    Ok(prefix + [core[0]] + original)
  }

  lemma SplitPrefixJoin(value: string, digits: string)
    requires SplitPrefix(value).Ok? && |digits| == 9 && DigitChars(digits)
    ensures var (prefix, core) := SplitPrefix(value).value;
      value == prefix + core && |core| == 10
      && SplitPrefix(prefix + [core[0]] + digits) == Ok((prefix, [core[0]] + digits))
  {
    var (prefix, core) := SplitPrefix(value).value;
    var v := prefix + [core[0]] + digits;
    assert AllDigits([core[0]] + digits);
    assert v[|prefix|..] == [core[0]] + digits && v[..|prefix|] == prefix;
    if |prefix| == 3 {
      assert "+91" <= v;
    } else if |prefix| == 2 {
      assert "91" <= v;
    } else if |prefix| == 1 {
      assert "0" <= v;
    }
  }

  /** Every accepted phone number keeps its prefix and leading digit, and comes back. */
  lemma PhoneRoundTrip(ciph: Ff1.Cipher, value: string)
    requires SplitPrefix(value).Ok?
    ensures var s := PhoneEncrypt(ciph, value);
      var (prefix, core) := SplitPrefix(value).value;
      s.Ok? && |s.value| == |value| <= 13
      && SplitPrefix(s.value).Ok? && SplitPrefix(s.value).value.0 == prefix
      && SplitPrefix(s.value).value.1[0] == core[0]
      && PhoneDecrypt(ciph, s.value) == Ok(value)
  {
    hide Permute, Unpermute;
    var (prefix, core) := SplitPrefix(value).value;
    PermuteInverse(ciph, PHONE_TWEAK, core[1..]);
    var p := Permute(ciph, PHONE_TWEAK, core[1..]).value;
    SplitPrefixJoin(value, p);
    hide SplitPrefix;
    assert ([core[0]] + p)[1..] == p;
    assert prefix + [core[0]] + core[1..] == value;
  }
}
