/**
  tracker/detectors/status_workflow.py: the Issue lifecycle
  new (1) -> in-progress (2) -> resolved (3) -> closed (4), with
  resolved -> in-progress as the reopen move.
*/
module StatusWorkflow {
  import opened Tracker
  import Workflow

  /** `VALID_TRANSITIONS`, keyed by the ids of the `status` class. */
  const Transitions: Workflow.Table :=
    map["1" := ["2"], "2" := ["3"], "3" := ["2", "4"], "4" := []]

  /** The legal moves, listed one by one. */
  predicate Move(from: string, to: string)
  {
    || (from == "1" && to == "2")
    || (from == "2" && to == "3")
    || (from == "3" && to == "2")
    || (from == "3" && to == "4")
  }

  /** `check_status_transition(db, cl, nodeid, newvalues)`, where `stored`
      maps each issue id to its stored status and `statuses` is the
      `status` class. */
  function CheckStatusTransition(statuses: seq<StatusRow>, stored: map<string, Value>,
                                 nodeid: Option<string>, newvalues: Delta): (r: Verdict<Workflow.TransitionError>)
    ensures nodeid.None? ==> r == Accepted
    ensures "status" !in newvalues ==> r == Accepted
    ensures nodeid.Some? && "status" in newvalues && nodeid.value !in stored ==> r == Raised(LookupError)
    ensures nodeid.Some? && "status" in newvalues && nodeid.value in stored ==>
              var cur, next := stored[nodeid.value], newvalues["status"];
              && (r.Accepted? <==> cur == next || (cur.Str? && next.Str? && Move(cur.s, next.s)))
              && (!r.Accepted? && NameOf(statuses, cur).Some? && NameOf(statuses, next).Some? ==>
                    r == Rejected(Workflow.InvalidTransition(NameOf(statuses, cur).value, NameOf(statuses, next).value)))
              && (!r.Accepted? && (NameOf(statuses, cur).None? || NameOf(statuses, next).None?) ==>
                    r == Raised(LookupError))
  {
    Workflow.CheckTransition(Transitions, statuses, stored, nodeid, newvalues)
  }

  /** closed is terminal: no change away from it gets through. */
  lemma ClosedIsTerminal(statuses: seq<StatusRow>, stored: map<string, Value>, id: string, newvalues: Delta)
    requires id in stored && stored[id] == Str("4")
    requires "status" in newvalues && newvalues["status"] != Str("4")
    ensures !CheckStatusTransition(statuses, stored, Some(id), newvalues).Accepted?
  {
  }

  /** A current status the table does not know (a status added to the
      `status` class later, or `None`) blocks every real change. With the
      seeded status rows, an unknown but existing status is a plain
      rejection naming both statuses. */
  lemma UnknownStatusBlocks(statuses: seq<StatusRow>, stored: map<string, Value>, id: string, newvalues: Delta)
    requires id in stored && (stored[id].Null? || stored[id].s !in Transitions)
    requires "status" in newvalues && newvalues["status"] != stored[id]
    ensures !CheckStatusTransition(statuses, stored, Some(id), newvalues).Accepted?
  {
  }

  /** Walking new -> in-progress -> resolved -> closed one `set` at a time
      is accepted at every step, and so is the reopen resolved -> in-progress. */
  lemma ForwardLifecycle(id: string)
    ensures CheckStatusTransition(IssueStatuses, map[id := Str("1")], Some(id), map["status" := Str("2")]) == Accepted
    ensures CheckStatusTransition(IssueStatuses, map[id := Str("2")], Some(id), map["status" := Str("3")]) == Accepted
    ensures CheckStatusTransition(IssueStatuses, map[id := Str("3")], Some(id), map["status" := Str("4")]) == Accepted
    ensures CheckStatusTransition(IssueStatuses, map[id := Str("3")], Some(id), map["status" := Str("2")]) == Accepted
  {
  }

  /** new -> closed directly is rejected, with the message naming both
      statuses as the seeded `status` class spells them. */
  lemma NewToClosedRejected(id: string)
    ensures CheckStatusTransition(IssueStatuses, map[id := Str("1")], Some(id), map["status" := Str("4")])
            == Rejected(Workflow.InvalidTransition("new", "closed"))
  {
    IssueStatusNames();
  }

  /** The table and the relation `Move` agree. */
  lemma TableIsMove(from: string, to: string)
    ensures to in Workflow.Allowed(Transitions, Str(from)) <==> Move(from, to)
  {
  }

  ghost predicate MovePath(p: seq<string>)
  {
    forall i :: 0 <= i < |p| - 1 ==> Move(p[i], p[i + 1])
  }

  /** From every status of the table some sequence of legal moves ends in
      closed. */
  lemma EveryStatusCanClose(s: string)
    requires s in Transitions
    ensures exists p :: |p| >= 1 && p[0] == s && p[|p| - 1] == "4" && MovePath(p)
  {
    var p := if s == "1" then ["1", "2", "3", "4"]
             else if s == "2" then ["2", "3", "4"]
             else if s == "3" then ["3", "4"]
             else ["4"];
    assert MovePath(p);
  }
}
