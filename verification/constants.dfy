/** The fixed tables of the system: request sources, the source-to-priority
    table, and the token status names. */
module Constants {
  import opened Outcome

  /** `TOKEN_SOURCES`: symbolic name to the source label a request carries. */
  const TOKEN_SOURCES: map<string, string> := map[
    "EMERGENCY" := "Emergency",
    "PAID" := "Paid",
    "FOLLOW_UP" := "Follow-up",
    "ONLINE" := "Online",
    "WALK_IN" := "Walk-in"
  ]

  /** `PRIORITY`: source label to priority value; a lower value is more urgent. */
  const PRIORITY: map<string, int> := map[
    "Emergency" := 1,
    "Paid" := 2,
    "Follow-up" := 3,
    "Online" := 4,
    "Walk-in" := 5
  ]

  /** The lifecycle states of a token. */
  datatype Status = Pending | Allocated | Completed | Cancelled | Waitlisted

  /** `TOKEN_STATUS`: symbolic name to the status string stored on a token. */
  const TOKEN_STATUS: map<string, string> := map[
    "PENDING" := "Pending",
    "ALLOCATED" := "Allocated",
    "COMPLETED" := "Completed",
    "CANCELLED" := "Cancelled",
    "WAITLISTED" := "Waitlisted"
  ]

  /** The string a status is stored as. */
  function StatusName(s: Status): string {
    match s
    case Pending => TOKEN_STATUS["PENDING"]
    case Allocated => TOKEN_STATUS["ALLOCATED"]
    case Completed => TOKEN_STATUS["COMPLETED"]
    case Cancelled => TOKEN_STATUS["CANCELLED"]
    case Waitlisted => TOKEN_STATUS["WAITLISTED"]
  }

  /** The priority lookup `PRIORITY[source]` followed by the truthiness test that
      rejects a source: absent keys (and a zero value, were there one) fail. */
  function PriorityFor(source: string): (r: Option<int>)
    ensures r.Some? <==> source in TOKEN_SOURCES.Values
    ensures r.Some? ==> 1 <= r.value <= 5
    ensures source == "Emergency" ==> r == Some(1)
    ensures source == "Paid" ==> r == Some(2)
    ensures source == "Follow-up" ==> r == Some(3)
    ensures source == "Online" ==> r == Some(4)
    ensures source == "Walk-in" ==> r == Some(5)
  {
    assert TOKEN_SOURCES["EMERGENCY"] == "Emergency" && TOKEN_SOURCES["PAID"] == "Paid";
    assert TOKEN_SOURCES["FOLLOW_UP"] == "Follow-up" && TOKEN_SOURCES["ONLINE"] == "Online";
    assert TOKEN_SOURCES["WALK_IN"] == "Walk-in";
    if source in PRIORITY && PRIORITY[source] != 0 then Some(PRIORITY[source]) else None
  }

  /** Different accepted sources never share a priority value. */
  lemma PriorityInjective(a: string, b: string)
    requires PriorityFor(a).Some?
    requires PriorityFor(a) == PriorityFor(b)
    ensures a == b
  {
  }

  /** The labels listed in `TOKEN_SOURCES` are exactly the keys of `PRIORITY`. */
  lemma SourcesAreThePriorityKeys()
    ensures TOKEN_SOURCES.Values == PRIORITY.Keys
  {
    assert TOKEN_SOURCES["EMERGENCY"] == "Emergency" && TOKEN_SOURCES["PAID"] == "Paid";
    assert TOKEN_SOURCES["FOLLOW_UP"] == "Follow-up" && TOKEN_SOURCES["ONLINE"] == "Online";
    assert TOKEN_SOURCES["WALK_IN"] == "Walk-in";
  }

  /** The five statuses are stored as five pairwise distinct strings, and these are
      exactly the values of `TOKEN_STATUS`. */
  lemma StatusNamesDistinct()
    ensures forall a: Status, b: Status :: StatusName(a) == StatusName(b) ==> a == b
    ensures forall v :: v in TOKEN_STATUS.Values <==> exists s: Status :: StatusName(s) == v
  {
    assert StatusName(Pending) == "Pending";
    assert StatusName(Allocated) == "Allocated";
    assert StatusName(Completed) == "Completed";
    assert StatusName(Cancelled) == "Cancelled";
    assert StatusName(Waitlisted) == "Waitlisted";
  }
}
