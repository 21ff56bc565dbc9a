/**
  The status-transition guard that tracker/detectors/status_workflow.py and
  tracker/detectors/change_workflow.py both implement, each with its own
  transition table and its own status class. It is registered on the "set"
  hook only, so it never sees a creation.
*/
module Workflow {
  import opened Tracker

  /** current status id -> the status ids it may move to */
  type Table = map<string, seq<string>>

  /** `VALID_TRANSITIONS.get(current_status_id, [])`: a current status that
      is not a key of the table (or is `None`) allows nothing. */
  function Allowed(table: Table, current: Value): seq<string>
  {
    if current.Str? && current.s in table then table[current.s] else []
  }

  /** The `ValueError` of a refused move, naming both statuses. */
  datatype TransitionError = InvalidTransition(from: string, to: string)

  /** Its text. */
  function Message(e: TransitionError): string
  {
    "Invalid status transition: " + e.from + " -> " + e.to
  }

  /** The guard for the node `nodeid` (None on creation), given the stored
      status of every node, the rows of the status class and the proposed
      `newvalues`. A move that is not allowed raises `ValueError` naming both
      statuses; when one of the two ids is not a row of the status class, the
      name lookup itself raises. */
  function CheckTransition(table: Table, statuses: seq<StatusRow>, stored: map<string, Value>,
                           nodeid: Option<string>, newvalues: Delta): Verdict<TransitionError>
  {
    if nodeid.None? then Accepted
    else if "status" !in newvalues then Accepted
    else if nodeid.value !in stored then Raised(LookupError)
    else
      var cur, next := stored[nodeid.value], newvalues["status"];
      if cur == next then Accepted
      else if next.Str? && next.s in Allowed(table, cur) then Accepted
      else
        var from, to := NameOf(statuses, cur), NameOf(statuses, next);
        if from.Some? && to.Some? then Rejected(InvalidTransition(from.value, to.value))
        else Raised(LookupError)
  }

  /** A status is terminal when the table allows no move out of it. */
  predicate Terminal(table: Table, s: string)
  {
    Allowed(table, Str(s)) == []
  }
}
