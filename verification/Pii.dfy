/** The PII taxonomy and the match record shared by the scanners (pii_types.rs, scanner.rs). */
module Pii {
  import opened Text

  datatype PiiType =
    | CreditCard | Ssn | PhoneNumber | Email | ApiKey | Ipv4Address | Ipv6Address | GpsCoordinate
    | MacAddress | HealthKeyword | ChildKeyword | Person | Location | Organization | Iban
  {
    predicate FpeEligible() {
      !(HealthKeyword? || ChildKeyword? || Person? || Location? || Organization?)
    }

    function HashTokenPrefix(): (p: string)
      ensures |p| == 3
    {
      match this
      case Ipv4Address => "IP4"
      case Ipv6Address => "IP6"
      case GpsCoordinate => "GPS"
      case MacAddress => "MAC"
      case HealthKeyword => "HLT"
      case ChildKeyword => "CHL"
      case Person => "PER"
      case Location => "LOC"
      case Organization => "ORG"
      case Iban => "IBN"
      case _ => "RED"
    }

    function DisplayName(): string {
      match this
      case CreditCard => "credit_card"
      case Ssn => "ssn"
      case PhoneNumber => "phone"
      case Email => "email"
      case ApiKey => "api_key"
      case Ipv4Address => "ipv4_address"
      case Ipv6Address => "ipv6_address"
      case GpsCoordinate => "gps_coordinate"
      case MacAddress => "mac_address"
      case HealthKeyword => "health_keyword"
      case ChildKeyword => "child_keyword"
      case Person => "person"
      case Location => "location"
      case Organization => "organization"
      case Iban => "iban"
    }
  }

  /** A detected span: byte offsets into the scanned text, the text itself, and where it was found. */
  datatype PiiMatch = PiiMatch(
    piiType: PiiType, start: nat, end: nat, rawValue: string, jsonPath: Option<string>, confidence: real)

  predicate InSpan(m: PiiMatch, q: nat) {
    m.start <= q < m.end
  }

  ghost predicate ShareByte(a: PiiMatch, b: PiiMatch) {
    exists q: nat :: InSpan(a, q) && InSpan(b, q)
  }
}
