/** The values that pass between the stages of the pipeline. */
module Models {
  datatype Option<+T> = None | Some(value: T) {
    function GetOr(default: T): T {
      match this
      case Some(v) => v
      case None => default
    }
  }

  predicate Separate<T(==)>(s: seq<T>) {
    forall i, j :: 0 <= i < j < |s| ==> s[i] != s[j]
  }

  datatype PiiType =
    | FullName | BirthDate | BirthPlace | Passport | Citizenship | PassportIssuer
    | DepartmentCode | PassportIssueDate | DriverLicense | Address | Email | Phone
    | Inn | CardNumber | Cvv | Pin | Cardholder

  /** A span found by some detector, before any privacy decision. */
  datatype Candidate = Candidate(kind: PiiType, value: string, start: nat, end: nat, confidence: real)

  datatype Verdict = Mask | Keep | Uncertain

  datatype Decision = Decision(candidate: Candidate, verdict: Verdict)

  datatype Mode = Partial | Token | Synthetic

  /** What demasking needs to know about one entity. */
  datatype Mapping = Mapping(entityId: string, original: string, token: string, synthetic: string)

  /** One masked span, with its coordinates in the original and in the masked text. */
  datatype Occurrence = Occurrence(
    entityId: string,
    originalStart: nat, originalEnd: nat,
    maskedStart: nat, maskedEnd: nat,
    original: string, masked: string)

  datatype Transform = Transform(text: string, mappings: seq<Mapping>, occurrences: seq<Occurrence>)
}
