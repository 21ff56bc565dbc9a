/**
  tracker/detectors/issue_defaults.py: the auditor registered on the
  "create" hook of `issue` that gives a new issue the status named "new" when
  it comes without one. It writes into the `newvalues` dictionary it is
  handed, so the dictionary is an object here and the auditor a method that
  modifies it.
*/
module IssueDefaults {
  import opened Tracker

  /** The `newvalues` dictionary Roundup passes to its auditors, shared
      between the caller and the hook. */
  class NewValues {
    var entries: Delta

    constructor(d: Delta)
      ensures entries == d
    {
      entries := d;
    }
  }

  /** The dictionary after the hook: on a create without a status (absent,
      or `None`), the status is the id of the row named "new" when that row
      exists; everything else stays as it was. */
  function WithIssueDefaults(statuses: seq<StatusRow>, nodeid: Option<string>, d: Delta): Delta
  {
    if nodeid.Some? then d
    else if "status" in d && d["status"] != Null then d
    else match IdOf(statuses, "new")
      case None => d
      case Some(id) => d["status" := Str(id)]
  }

  /** `set_issue_defaults(db, cl, nodeid, newvalues)`. A failed lookup of
      "new" is caught and logged, and leaves the dictionary alone. */
  method SetIssueDefaults(statuses: seq<StatusRow>, nodeid: Option<string>, newvalues: NewValues)
    modifies newvalues
    ensures newvalues.entries == WithIssueDefaults(statuses, nodeid, old(newvalues.entries))
  {
    if nodeid.Some? {
      return;
    }
    if "status" !in newvalues.entries || newvalues.entries["status"] == Null {
      var found := IdOf(statuses, "new");
      if found.Some? {
        newvalues.entries := newvalues.entries["status" := Str(found.value)];
      }
    }
  }

  /** An edit leaves the dictionary as it was. */
  lemma EditUnchanged(statuses: seq<StatusRow>, id: string, d: Delta)
    ensures WithIssueDefaults(statuses, Some(id), d) == d
  {
  }

  /** Only `status` is ever written: every other key keeps its presence
      and its value. */
  lemma OnlyStatusWritten(statuses: seq<StatusRow>, nodeid: Option<string>, d: Delta, k: string)
    requires k != "status"
    ensures k in WithIssueDefaults(statuses, nodeid, d) <==> k in d
    ensures k in d ==> WithIssueDefaults(statuses, nodeid, d)[k] == d[k]
  {
  }

  /** An explicit status on a create is kept. */
  lemma ExplicitStatusKept(statuses: seq<StatusRow>, d: Delta)
    requires "status" in d && d["status"] != Null
    ensures WithIssueDefaults(statuses, None, d) == d
  {
  }

  /** On a create without a status, the status becomes the id of a row
      named "new"; when there is no such row nothing changes. */
  lemma {:induction false} DefaultIsNew(statuses: seq<StatusRow>, d: Delta)
    requires "status" !in d || d["status"] == Null
    ensures (exists i :: 0 <= i < |statuses| && statuses[i].name == "new") ==>
              var r := WithIssueDefaults(statuses, None, d);
              "status" in r && exists i :: 0 <= i < |statuses| && statuses[i].name == "new" && r["status"] == Str(statuses[i].id)
    ensures (forall i :: 0 <= i < |statuses| ==> statuses[i].name != "new") ==>
              WithIssueDefaults(statuses, None, d) == d
  {
    IdOfFinds(statuses, "new");
  }

  /** With the seeded `status` rows, a new issue without a status gets
      status 1. */
  lemma SeededDefault(d: Delta)
    requires "status" !in d
    ensures WithIssueDefaults(IssueStatuses, None, d) == d["status" := Str("1")]
  {
  }

  /** Running the hook a second time changes nothing. */
  lemma Idempotent(statuses: seq<StatusRow>, nodeid: Option<string>, d: Delta)
    ensures WithIssueDefaults(statuses, nodeid, WithIssueDefaults(statuses, nodeid, d))
            == WithIssueDefaults(statuses, nodeid, d)
  {
  }
}
