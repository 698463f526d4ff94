/**
 * The four-value request status enumeration and its string values, the
 * strings a client sends and the store keeps.
 */
module RequestStatus {
  import opened Outcomes

  datatype Status = Pending | Approved | Completed | Rejected

  /** The string value of each enumeration member. */
  function ToString(st: Status): string {
    match st
    case Pending => "pending"
    case Approved => "approved"
    case Completed => "completed"
    case Rejected => "rejected"
  }

  /** `Object.values(RequestStatus)`, in declaration order. */
  const Values: seq<string> := [ToString(Pending), ToString(Approved), ToString(Completed), ToString(Rejected)]

  /** The member whose string value is `s`, if any. */
  function FromString(s: string): (r: Option<Status>)
    ensures r.Some? <==> s in Values
    ensures r.Some? ==> ToString(r.value) == s
    ensures r.None? ==> forall st: Status :: ToString(st) != s
  {
    if s == "pending" then Some(Pending)
    else if s == "approved" then Some(Approved)
    else if s == "completed" then Some(Completed)
    else if s == "rejected" then Some(Rejected)
    else None
  }

  /** Every member's string value parses back to that member, so the string values are pairwise distinct. */
  lemma FromStringRoundTrip(st: Status)
    ensures FromString(ToString(st)) == Some(st)
    ensures ToString(st) in Values
  {
  }
}
