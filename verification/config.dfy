/** The domain constants of the desk-service core. */
module Config {

  /** Page size every `list` call uses when the caller gives no limit. */
  const DefaultPageSize: int := 100

  /** The order statuses, case-sensitive. */
  const ValidStatuses: seq<string> := ["Pending", "Assigned", "In Progress", "Completed", "Canceled"]

  /** The kinds of job an order may be. */
  const ServiceTypes: seq<string> := ["Repair", "Tuning", "Installation"]

  /** The status every new order starts in. */
  const InitialStatus: string := "Pending"

  /** The status assignment of a technician advances a pending order to. */
  const AssignedStatus: string := "Assigned"

  predicate IsStatus(s: string) {
    s in ValidStatuses
  }

  predicate IsServiceType(s: string) {
    s in ServiceTypes
  }

  /** Five distinct statuses; membership is exact, so a different
      capitalisation is not a status. */
  lemma StatusEnumeration()
    ensures |ValidStatuses| == 5
    ensures forall i, j :: 0 <= i < j < |ValidStatuses| ==> ValidStatuses[i] != ValidStatuses[j]
    ensures IsStatus(InitialStatus) && IsStatus(AssignedStatus)
    ensures !IsStatus("pending") && !IsStatus("Cancelled") && !IsStatus("")
  {
  }

  /** Three distinct service types. */
  lemma ServiceTypeEnumeration()
    ensures |ServiceTypes| == 3
    ensures forall i, j :: 0 <= i < j < |ServiceTypes| ==> ServiceTypes[i] != ServiceTypes[j]
    ensures !IsServiceType("repair") && !IsServiceType("")
  {
  }
}
