/** `Detector::scan` and the `Validator` dispatch of the rule engine: the five detectors
    and the five checks, by name. The phone-number library is a parameter. */
module Detectors {
  import opened Utf8
  import CreditCard
  import Email
  import EmailDetector
  import Iban
  import IbanDetector
  import Luhn
  import Phone
  import Ssn

  datatype Detector = CreditCardDetector | EmailDetector | IbanDetector | PhoneDetector | SsnDetector

  datatype Validator = LuhnCheck | SsnCheck | PhoneCheck | EmailCheck | IbanCheck

  /** The texts that a detector reports. */
  function Reports(d: Detector, v: bytes, phone: bytes -> bool): seq<bytes>
  {
    match d
    case CreditCardDetector => Texts(v, CreditCard.Spans(v, 0))
    case EmailDetector => Texts(v, EmailDetector.Spans(v, 0))
    case IbanDetector => Texts(v, IbanDetector.Spans(IbanDetector.Registered, v, 0))
    case PhoneDetector => Texts(v, Phone.Spans(v, 0, phone))
    case SsnDetector => Texts(v, Ssn.Spans(v, 0))
  }

  method Scan(d: Detector, value: bytes, phone: bytes -> bool) returns (r: seq<bytes>)
    requires ValidUtf8(value)
    ensures r == Reports(d, value, phone)
  {
    match d
    case CreditCardDetector => r := CreditCard.Scan(value);
    case EmailDetector => r := EmailDetector.Scan(value);
    case IbanDetector => r := IbanDetector.Scan(IbanDetector.Registered, value);
    case PhoneDetector => r := Phone.Scan(value, phone);
    case SsnDetector => r := Ssn.Scan(value);
  }

  predicate Valid(v: Validator, text: bytes, phone: bytes -> bool)
  {
    match v
    case LuhnCheck => Luhn.Accepts(text)
    case SsnCheck => Ssn.Accepts(text)
    case PhoneCheck => phone(text)
    case EmailCheck => Email.Accepts(text)
    case IbanCheck => Iban.Accepts(text)
  }

  method Validate(v: Validator, text: bytes, phone: bytes -> bool) returns (ok: bool)
    requires ValidUtf8(text)
    ensures ok == Valid(v, text, phone)
  {
    match v
    case LuhnCheck => ok := Luhn.Check(text);
    case SsnCheck => ok := Ssn.Check(text);
    case PhoneCheck => ok := phone(text);
    case EmailCheck => ok := Email.Check(text);
    case IbanCheck => ok := Iban.Check(text);
  }
}
