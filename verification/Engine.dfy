/** Entity types, the registry of surrogate domains and the stateless engine
    (src/core/types.py, src/surrogate/registry.py, src/surrogate/engine.py). */
module Engine {
  import opened Prelude
  import opened Checksum
  import opened DigitDomains
  import opened Layouts
  import opened MixedDomains
  import Ff1

  datatype EntityType =
    Aadhaar | Pan | Ifsc | Upi | VehicleReg | Card | Email | Phone | Person | Org | Address

  /** The types routed through the session's name map. */
  const NAME_MAP_ENTITY_TYPES := {Person, Org, Address}

  /** The types with a registered domain. */
  const REGISTERED := {Aadhaar, Pan, Card, Ifsc, Phone, VehicleReg}

  /** The longest surrogate any registered domain produces. */
  const MAX_REGISTERED_SURROGATE_LENGTH := 19

  function MaxSurrogateLength(e: EntityType): nat
    requires e in REGISTERED
  {
    match e
    case Aadhaar => 12 case Pan => 10 case Card => 19
    case Ifsc => 11 case Phone => 13 case VehicleReg => 11
  }

  lemma MaxRegisteredIsMaximum()
    ensures forall e | e in REGISTERED :: MaxSurrogateLength(e) <= MAX_REGISTERED_SURROGATE_LENGTH
    ensures exists e :: e in REGISTERED && MaxSurrogateLength(e) == MAX_REGISTERED_SURROGATE_LENGTH
  {
    assert Card in REGISTERED && MaxSurrogateLength(Card) == 19;
  }

  function LayoutEncrypt(l: Layout, ciph: Ff1.Cipher, value: string): Result<string>
    requires l.WellFormed()
  {
    if l.Fits(value) then l.Encrypt(ciph, value) else Err(SurrogateDomainError)
  }

  function LayoutDecrypt(l: Layout, ciph: Ff1.Cipher, surrogate: string): Result<string>
    requires l.WellFormed()
  {
    if l.Fits(surrogate) then l.Decrypt(ciph, surrogate) else Err(SurrogateDomainError)
  }

  function Encrypt(ciph: Ff1.Cipher, e: EntityType, value: string): Result<string> {
    LayoutsWellFormed();
    match e
    case Aadhaar => AADHAAR.Encrypt(ciph, value)
    case Card => CARD.Encrypt(ciph, value)
    case Phone => PhoneEncrypt(ciph, value)
    case Pan => LayoutEncrypt(PAN, ciph, value)
    case Ifsc => LayoutEncrypt(IFSC, ciph, value)
    case VehicleReg => VehicleEncrypt(ciph, value)
    case _ => Err(SurrogateDomainError)
  }

  function Decrypt(ciph: Ff1.Cipher, e: EntityType, surrogate: string): Result<string> {
    LayoutsWellFormed();
    match e
    case Aadhaar => AADHAAR.Decrypt(ciph, surrogate)
    case Card => CARD.Decrypt(ciph, surrogate)
    case Phone => PhoneDecrypt(ciph, surrogate)
    case Pan => LayoutDecrypt(PAN, ciph, surrogate)
    case Ifsc => LayoutDecrypt(IFSC, ciph, surrogate)
    case VehicleReg => VehicleDecrypt(ciph, surrogate)
    case _ => Err(SurrogateDomainError)
  }

  /** The values a domain can give back: check digits must be right, and a vehicle mark
      must not carry the newline its pattern tolerates. */
  predicate Canonical(e: EntityType, value: string) {
    match e
    case Aadhaar => VerhoeffIsValid(value)
    case Card => LuhnIsValid(value)
    case VehicleReg => value != "" && value[|value| - 1] != '\n'
    case _ => true
  }

  /** Whenever encryption returns, the surrogate is nonempty and within its type's length
      bound, it decrypts, and it decrypts to the value exactly when that is canonical. */
  lemma RoundTrip(ciph: Ff1.Cipher, e: EntityType, value: string)
    requires Encrypt(ciph, e, value).Ok?
    ensures e in REGISTERED
    ensures 0 < |Encrypt(ciph, e, value).value| <= MaxSurrogateLength(e)
    ensures Decrypt(ciph, e, Encrypt(ciph, e, value).value).Ok?
    ensures Decrypt(ciph, e, Encrypt(ciph, e, value).value) == Ok(value) <==> Canonical(e, value)
  {
    hide CheckedDomain.Encrypt, CheckedDomain.Decrypt, PhoneEncrypt, PhoneDecrypt, VehicleEncrypt, VehicleDecrypt;
    hide Layout.Encrypt, Layout.Decrypt, Layout.Fits, Layout.WellFormed, VerhoeffIsValid, LuhnIsValid;
    LayoutsWellFormed();
    match e
    case Aadhaar => CheckedRoundTrip(AADHAAR, ciph, value);
    case Card => CheckedRoundTrip(CARD, ciph, value);
    case Phone => PhoneCase(ciph, value);
    case Pan => LayoutCase(PAN, ciph, value);
    case Ifsc => LayoutCase(IFSC, ciph, value);
    case VehicleReg => VehicleCase(ciph, value);
  }

  lemma CheckedRoundTrip(d: CheckedDomain, ciph: Ff1.Cipher, value: string)
    requires d.WellFormed() && d.Encrypt(ciph, value).Ok?
    ensures var s := d.Encrypt(ciph, value).value;
      0 < |s| <= d.maxLength && d.Decrypt(ciph, s).Ok?
      && (d.Decrypt(ciph, s) == Ok(value) <==> d.scheme.IsValid(value))
  {
    d.RoundTrip(ciph, value);
  }

  lemma PhoneCase(ciph: Ff1.Cipher, value: string)
    requires PhoneEncrypt(ciph, value).Ok?
    ensures 0 < |PhoneEncrypt(ciph, value).value| <= 13
    ensures PhoneDecrypt(ciph, PhoneEncrypt(ciph, value).value) == Ok(value)
  {
    PhoneRoundTrip(ciph, value);
  }

  lemma LayoutCase(l: Layout, ciph: Ff1.Cipher, value: string)
    requires l.WellFormed() && l.length > 0 && LayoutEncrypt(l, ciph, value).Ok?
    ensures var s := LayoutEncrypt(l, ciph, value).value;
      |s| == l.length && LayoutDecrypt(l, ciph, s) == Ok(value)
  {
    hide Layout.Encrypt, Layout.Decrypt;
    l.RoundTrip(ciph, value);
  }

  lemma VehicleCase(ciph: Ff1.Cipher, value: string)
    requires VehicleEncrypt(ciph, value).Ok?
    ensures var s := VehicleEncrypt(ciph, value).value;
      0 < |s| <= 11 && VehicleDecrypt(ciph, s).Ok?
      && (VehicleDecrypt(ciph, s) == Ok(value) <==> (value != "" && value[|value| - 1] != '\n'))
  {
    hide VehicleEncrypt, VehicleDecrypt, Parse;
    VehicleRoundTrip(ciph, value);
  }
}
