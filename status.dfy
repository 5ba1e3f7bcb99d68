/**
 * The lifecycle status of a catalogued API and its string form, which is how
 * the status is stored in the database and read back from it.
 */
module ApiStatus {

  datatype Status = VALIDATED | DEPRECATED | RETIRED | NONE

  /** `Status::as_str`: the variant's own name. */
  function AsStr(s: Status): (r: string)
    ensures r in {"VALIDATED", "DEPRECATED", "RETIRED", "NONE"}
    ensures s != NONE <==> r != "NONE"
  {
    match s
    case VALIDATED => "VALIDATED"
    case DEPRECATED => "DEPRECATED"
    case RETIRED => "RETIRED"
    case NONE => "NONE"
  }

  /** `Status::from_str`: the three named literals, and NONE for every other string. */
  function FromStr(val: string): (s: Status)
    ensures s != NONE ==> AsStr(s) == val
    ensures val !in {"VALIDATED", "DEPRECATED", "RETIRED"} ==> s == NONE
  {
    match val
    case "VALIDATED" => VALIDATED
    case "DEPRECATED" => DEPRECATED
    case "RETIRED" => RETIRED
    case _ => NONE
  }

  /** Storing a status and reading it back gives the same status. */
  lemma FromStrAsStr(s: Status)
    ensures FromStr(AsStr(s)) == s
  {
  }

  /** Distinct statuses are stored as distinct strings. */
  lemma AsStrInjective(s: Status, t: Status)
    ensures AsStr(s) == AsStr(t) ==> s == t
  {
    FromStrAsStr(s);
    FromStrAsStr(t);
  }

  /** A string survives decoding and re-encoding exactly when it is one of the four names. */
  lemma AsStrFromStr(val: string)
    ensures AsStr(FromStr(val)) == val <==> val in {"VALIDATED", "DEPRECATED", "RETIRED", "NONE"}
  {
  }
}
