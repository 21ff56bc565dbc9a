/**
  tracker/detectors/ci_auditor.py: the required-field auditor of the `ci`
  class, registered on both the "create" and the "set" hook. A create needs a
  non-blank name, a type and a status, checked in that order; an edit is
  checked only when it carries a name.
*/
module CiAuditor {
  import opened Tracker

  /** The three `ValueError`s the auditor raises. */
  datatype Refusal = NameRequired | TypeRequired | StatusRequired

  /** The text of each `ValueError`. */
  function Message(e: Refusal): string
  {
    match e
    case NameRequired => "Name is required"
    case TypeRequired => "Type is required"
    case StatusRequired => "Status is required"
  }

  /** `newvalues.get("name", "").strip()`: the stripped name, or `None`
      when the delta holds `name=None`, which has no `strip`. */
  function StrippedName(newvalues: Delta): Option<string>
  {
    match Get(newvalues, "name", Str(""))
    case Null => None
    case Str(s) => Some(Strip(s))
  }

  /** The delta carries a name that is not all whitespace; a missing name
      counts as `""`. */
  predicate NameGiven(newvalues: Delta)
  {
    Get(newvalues, "name", Str("")).Str? && !Blank(Get(newvalues, "name", Str("")).s)
  }

  /** The name check shared by both branches. */
  function CheckName(newvalues: Delta): (r: Verdict<Refusal>)
    ensures Get(newvalues, "name", Str("")).Null? ==> r == Raised(AttributeError)
    ensures Get(newvalues, "name", Str("")).Str? ==>
              (r == Accepted <==> !Blank(Get(newvalues, "name", Str("")).s)) &&
              (r != Accepted ==> r == Rejected(NameRequired))
  {
    match StrippedName(newvalues)
    case None => Raised(AttributeError)
    case Some(name) =>
      StripEmptyIffBlank(Get(newvalues, "name", Str("")).s);
      if name == "" then Rejected(NameRequired) else Accepted
  }

  /** `audit_ci_required_fields(db, cl, nodeid, newvalues)`. */
  function AuditCiRequiredFields(nodeid: Option<string>, newvalues: Delta): (r: Verdict<Refusal>)
    // A create: the name first, ...
    ensures nodeid.None? && Get(newvalues, "name", Str("")).Null? ==> r == Raised(AttributeError)
    ensures nodeid.None? && Get(newvalues, "name", Str("")).Str? && !NameGiven(newvalues) ==> r == Rejected(NameRequired)
    // ... then the type, ...
    ensures nodeid.None? && NameGiven(newvalues) && !Truthy(Get(newvalues, "type", Null)) ==> r == Rejected(TypeRequired)
    // ... then the status; a create gets through exactly when all three are there.
    ensures (nodeid.None? && NameGiven(newvalues) && Truthy(Get(newvalues, "type", Null)) &&
             !Truthy(Get(newvalues, "status", Null))) ==> r == Rejected(StatusRequired)
    ensures nodeid.None? ==>
              (r == Accepted <==>
                 NameGiven(newvalues) && Truthy(Get(newvalues, "type", Null)) && Truthy(Get(newvalues, "status", Null)))
    // An edit is checked only when it carries a name, and then only the name.
    ensures nodeid.Some? && "name" !in newvalues ==> r == Accepted
    ensures nodeid.Some? && "name" in newvalues && newvalues["name"].Null? ==> r == Raised(AttributeError)
    ensures nodeid.Some? && "name" in newvalues && newvalues["name"].Str? ==>
              r == (if Blank(newvalues["name"].s) then Rejected(NameRequired) else Accepted)
  {
    if nodeid.None? then
      var name := CheckName(newvalues);
      if name != Accepted then name
      else if "type" !in newvalues || !Truthy(Get(newvalues, "type", Null)) then Rejected(TypeRequired)
      else if "status" !in newvalues || !Truthy(Get(newvalues, "status", Null)) then Rejected(StatusRequired)
      else Accepted
    else if "name" in newvalues then CheckName(newvalues)
    else Accepted
  }

  /** The create check is the stricter one: a delta a create accepts is
      accepted on an edit too. */
  lemma CreateStricterThanEdit(newvalues: Delta, id: string)
    requires AuditCiRequiredFields(None, newvalues) == Accepted
    ensures AuditCiRequiredFields(Some(id), newvalues) == Accepted
  {
  }

  /** An edit that clears the type or the status, and leaves the name out,
      is not refused. */
  lemma EditMayClearTypeAndStatus(id: string)
    ensures AuditCiRequiredFields(Some(id), map["type" := Null, "status" := Null]) == Accepted
  {
  }

  /** A name of blanks is refused on a create even when type and status are
      given: the name is checked first. */
  lemma BlankNameReportedFirst(name: string, ty: string, st: string)
    requires Blank(name)
    ensures AuditCiRequiredFields(None, map["name" := Str(name), "type" := Str(ty), "status" := Str(st)])
            == Rejected(NameRequired)
  {
  }
}
