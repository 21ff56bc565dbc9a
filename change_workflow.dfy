/**
  tracker/detectors/change_workflow.py: the Change lifecycle
  planning (1) -> approved (2) -> implementing (3) -> completed (4), and
  cancelled (5) from each of planning, approved and implementing.
*/
module ChangeWorkflow {
  import opened Tracker
  import Workflow

  /** `VALID_TRANSITIONS`, keyed by the ids of the `changestatus` class. */
  const Transitions: Workflow.Table :=
    map["1" := ["2", "5"], "2" := ["3", "5"], "3" := ["4", "5"], "4" := [], "5" := []]

  /** The statuses from which the change can still move. */
  predicate Open(s: string)
  {
    s == "1" || s == "2" || s == "3"
  }

  /** The legal moves: one stage forward, or cancel from an open status. */
  predicate Move(from: string, to: string)
  {
    || (from == "1" && to == "2")
    || (from == "2" && to == "3")
    || (from == "3" && to == "4")
    || (Open(from) && to == "5")
  }

  /** `check_change_status_transition(db, cl, nodeid, newvalues)`, where
      `stored` maps each change id to its stored status and `statuses` is the
      `changestatus` class. */
  function CheckChangeStatusTransition(statuses: seq<StatusRow>, stored: map<string, Value>,
                                       nodeid: Option<string>, newvalues: Delta): (r: Verdict<Workflow.TransitionError>)
    ensures nodeid.None? ==> r == Accepted
    ensures "status" !in newvalues ==> r == Accepted
    ensures nodeid.Some? && "status" in newvalues && nodeid.value !in stored ==> r == Raised(LookupError)
    ensures nodeid.Some? && "status" in newvalues && nodeid.value in stored ==>
              var cur, next := stored[nodeid.value], newvalues["status"];
              && (r.Accepted? <==> cur == next || (cur.Str? && next.Str? && Move(cur.s, next.s)))
              && (!r.Accepted? && NameOf(statuses, cur).Some? && NameOf(statuses, next).Some? ==>
                    r == Rejected(Workflow.InvalidTransition(NameOf(statuses, cur).value, NameOf(statuses, next).value)))
              && (!r.Accepted? && (NameOf(statuses, cur).None? || NameOf(statuses, next).None?) ==>
                    r == Raised(LookupError))
  {
    Workflow.CheckTransition(Transitions, statuses, stored, nodeid, newvalues)
  }

  /** cancelled is reachable in one `set` from every open status. */
  lemma CancelFromAnyOpenStatus(statuses: seq<StatusRow>, stored: map<string, Value>, id: string)
    requires id in stored && stored[id].Str? && Open(stored[id].s)
    ensures CheckChangeStatusTransition(statuses, stored, Some(id), map["status" := Str("5")]) == Accepted
  {
  }

  /** completed and cancelled are terminal. */
  lemma CompletedAndCancelledAreTerminal(statuses: seq<StatusRow>, stored: map<string, Value>, id: string, newvalues: Delta)
    requires id in stored && (stored[id] == Str("4") || stored[id] == Str("5"))
    requires "status" in newvalues && newvalues["status"] != stored[id]
    ensures !CheckChangeStatusTransition(statuses, stored, Some(id), newvalues).Accepted?
  {
  }

  /** Skipping a stage is not a move: planning -> implementing,
      planning -> completed and approved -> completed are all refused. */
  lemma NoSkippedStage(statuses: seq<StatusRow>, stored: map<string, Value>, id: string, to: string)
    requires id in stored
    requires (stored[id] == Str("1") && (to == "3" || to == "4")) || (stored[id] == Str("2") && to == "4")
    ensures !CheckChangeStatusTransition(statuses, stored, Some(id), map["status" := Str(to)]).Accepted?
  {
  }

  /** With the seeded `changestatus` rows, planning -> completed is
      rejected with the message naming both statuses. */
  lemma PlanningToCompletedRejected(id: string)
    ensures CheckChangeStatusTransition(ChangeStatuses, map[id := Str("1")], Some(id), map["status" := Str("4")])
            == Rejected(Workflow.InvalidTransition("planning", "completed"))
  {
    ChangeStatusNames();
  }

  /** The table and the relation `Move` agree. */
  lemma TableIsMove(from: string, to: string)
    ensures to in Workflow.Allowed(Transitions, Str(from)) <==> Move(from, to)
  {
  }

  ghost predicate MovePath(p: seq<string>)
  {
    forall i :: 0 <= i < |p| - 1 ==> Move(p[i], p[i + 1])
  }

  /** From every status some sequence of legal moves ends in a terminal one,
      and the terminal statuses are exactly those the table gives no move. */
  lemma EveryStatusCanFinish(s: string)
    requires s in Transitions
    ensures Workflow.Terminal(Transitions, s) <==> !Open(s)
    ensures exists p :: |p| >= 1 && p[0] == s && !Open(p[|p| - 1]) && MovePath(p)
  {
    var p := if Open(s) then [s, "5"] else [s];
    assert MovePath(p);
  }
}
