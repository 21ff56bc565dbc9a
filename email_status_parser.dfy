/**
  tracker/detectors/email_status_parser.py: the reactor registered on the
  "create" hook of `msg`. It looks in the new message's summary for a
  directive `[status=NAME]` or `[status:NAME]` and moves every linked issue to
  that status. Each move is an ordinary `set` of the issue, so it passes
  through the Issue workflow guard; a move the guard refuses (or any other
  failure) is logged and skipped, and the loop goes on with the next issue.
*/
module EmailStatusParser {
  import opened Tracker
  import Workflow
  import StatusWorkflow

  // ----- The directive: `\[status[=:]([a-z][a-z\-]*)\]`, ignoring case -----

  predicate IsNameChar(c: char)
  {
    IsLetter(c) || c == '-'
  }

  /** The length of the longest run of name characters starting at `k`:
      the greedy `[a-z\-]*`. */
  function RunLength(s: string, k: nat): (n: nat)
    requires k <= |s|
    ensures k + n <= |s|
    ensures forall j :: k <= j < k + n ==> IsNameChar(s[j])
    ensures k + n == |s| || !IsNameChar(s[k + n])
    decreases |s| - k
  {
    if k < |s| && IsNameChar(s[k]) then 1 + RunLength(s, k + 1) else 0
  }

  /** What the pattern captures when a match starts at index `i`. */
  function MatchAt(s: string, i: nat): Option<string>
  {
    if i + 8 <= |s| && Lower(s[i..i + 7]) == "[status" && (s[i + 7] == '=' || s[i + 7] == ':') then
      var n := RunLength(s, i + 8);
      if n >= 1 && IsLetter(s[i + 8]) && i + 8 + n < |s| && s[i + 8 + n] == ']' then Some(s[i + 8..i + 8 + n])
      else None
    else None
  }

  /** The pattern, read declaratively: at `i` stands `[status` in any case,
      then `=` or `:`, then `g` (a letter followed by letters and hyphens),
      then `]`. */
  ghost predicate DirectiveAt(s: string, i: nat, g: string)
  {
    && i + 9 + |g| <= |s|
    && Lower(s[i..i + 7]) == "[status"
    && (s[i + 7] == '=' || s[i + 7] == ':')
    && |g| >= 1 && IsLetter(g[0])
    && (forall j :: 0 <= j < |g| ==> IsNameChar(g[j]))
    && s[i + 8..i + 8 + |g|] == g
    && s[i + 8 + |g|] == ']'
  }

  lemma {:induction false} RunLengthExact(s: string, k: nat, m: nat)
    requires k + m < |s|
    requires forall j :: k <= j < k + m ==> IsNameChar(s[j])
    requires !IsNameChar(s[k + m])
    ensures RunLength(s, k) == m
    decreases m
  {
    if m > 0 {
      RunLengthExact(s, k + 1, m - 1);
    }
  }

  /** The matcher and the declarative reading agree. */
  lemma MatchAtIff(s: string, i: nat, g: string)
    ensures MatchAt(s, i) == Some(g) <==> DirectiveAt(s, i, g)
  {
    if DirectiveAt(s, i, g) {
      forall j | i + 8 <= j < i + 8 + |g| ensures IsNameChar(s[j]) {
        assert s[j] == s[i + 8..i + 8 + |g|][j - i - 8];
      }
      assert s[i + 8] == g[0] by {
        assert s[i + 8] == s[i + 8..i + 8 + |g|][0];
      }
      RunLengthExact(s, i + 8, |g|);
    }
    if MatchAt(s, i) == Some(g) {
      var n := RunLength(s, i + 8);
      assert g == s[i + 8..i + 8 + n];
      forall j | 0 <= j < |g| ensures IsNameChar(g[j]) {
        assert g[j] == s[i + 8 + j];
      }
    }
  }

  /** `re.search`: the capture of the leftmost match at or after `i`. */
  function Search(s: string, i: nat): (r: Option<string>)
    requires i <= |s|
    ensures r.Some? ==> exists j :: i <= j <= |s| && MatchAt(s, j) == r && forall k :: i <= k < j ==> MatchAt(s, k).None?
    ensures r.None? ==> forall j :: i <= j <= |s| ==> MatchAt(s, j).None?
    decreases |s| - i
  {
    if MatchAt(s, i).Some? then MatchAt(s, i)
    else if i == |s| then None
    else Search(s, i + 1)
  }

  /** `match.group(1).lower()`, or `None` when the summary holds no
      directive. */
  function ParseDirective(summary: string): Option<string>
  {
    match Search(summary, 0)
    case None => None
    case Some(g) => Some(Lower(g))
  }

  lemma MatchNeedsRoom(s: string, i: nat)
    requires MatchAt(s, i).Some?
    ensures i <= |s|
  {
  }

  /** The directive found is the lower-cased capture of the leftmost match,
      and none is found exactly when the summary holds none. */
  lemma ParseDirectiveMeans(s: string)
    ensures ParseDirective(s).None? <==> forall i: nat, g :: !DirectiveAt(s, i, g)
    ensures ParseDirective(s).Some? ==>
              exists i: nat, g :: DirectiveAt(s, i, g) && ParseDirective(s).value == Lower(g) &&
                                  forall j: nat, h :: j < i ==> !DirectiveAt(s, j, h)
  {
    var r := Search(s, 0);
    if r.None? {
      forall i: nat, g ensures !DirectiveAt(s, i, g) {
        MatchAtIff(s, i, g);
        if DirectiveAt(s, i, g) {
          MatchNeedsRoom(s, i);
        }
      }
    } else {
      var i :| 0 <= i <= |s| && MatchAt(s, i) == r && forall k :: 0 <= k < i ==> MatchAt(s, k).None?;
      MatchAtIff(s, i, r.value);
      forall j: nat, h | j < i ensures !DirectiveAt(s, j, h) {
        MatchAtIff(s, j, h);
      }
    }
  }

  /** The keyword may be spelled in any case and anything may come before
      it: `[STATUS:name]`, `[Status=name]` and so on all match. */
  lemma DirectiveAnyCase(pre: string, keyword: string, sep: char, g: string)
    requires |keyword| == 7 && Lower(keyword) == "[status"
    requires sep == '=' || sep == ':'
    requires |g| >= 1 && IsLetter(g[0]) && forall j :: 0 <= j < |g| ==> IsNameChar(g[j])
    ensures DirectiveAt(pre + keyword + [sep] + g + "]", |pre|, g)
    ensures MatchAt(pre + keyword + [sep] + g + "]", |pre|) == Some(g)
  {
    var s := pre + keyword + [sep] + g + "]";
    var i := |pre|;
    assert s[i..i + 7] == keyword;
    assert s[i + 8..i + 8 + |g|] == g;
    MatchAtIff(s, i, g);
  }

  // ----- The issue updates -----

  /** The `issue` class: the stored status of each issue. */
  class IssueStore {
    var status: map<string, Value>

    constructor(initial: map<string, Value>)
      ensures status == initial
    {
      status := initial;
    }

    /** `issue_class.set(id, status=target)`: the "set" auditors run first,
        and the workflow guard is the one that bears on `status`; only an
        accepted change is stored. */
    method Set(statuses: seq<StatusRow>, id: string, target: string) returns (r: Verdict<Workflow.TransitionError>)
      modifies this
      ensures r == StatusWorkflow.CheckStatusTransition(statuses, old(status), Some(id), map["status" := Str(target)])
      ensures status == if r.Accepted? then old(status)[id := Str(target)] else old(status)
    {
      r := StatusWorkflow.CheckStatusTransition(statuses, status, Some(id), map["status" := Str(target)]);
      if r.Accepted? {
        status := status[id := Str(target)];
      }
    }
  }

  /** The workflow lets an issue at `cur` move to `target`. */
  predicate Legal(cur: Value, target: string)
  {
    cur.Str? && StatusWorkflow.Move(cur.s, target)
  }

  /** One turn of the loop: read the issue's status (a missing issue raises
      and is skipped), and set it when it differs from the target. */
  function Step(statuses: seq<StatusRow>, stored: map<string, Value>, target: string, id: string): map<string, Value>
  {
    if id !in stored || stored[id] == Str(target) then stored
    else if StatusWorkflow.CheckStatusTransition(statuses, stored, Some(id), map["status" := Str(target)]).Accepted?
    then stored[id := Str(target)]
    else stored
  }

  /** The loop over `issue_ids`, one turn per id. */
  function Applied(statuses: seq<StatusRow>, stored: map<string, Value>, target: string, ids: seq<string>): map<string, Value>
  {
    if ids == [] then stored
    else Step(statuses, Applied(statuses, stored, target, ids[..|ids| - 1]), target, ids[|ids| - 1])
  }

  /** The loop in closed form: the issues are independent of each other.
      An issue listed (once or more) whose move the workflow allows ends at
      the target; every other issue keeps its status, whatever happened to
      the issues before it. */
  lemma {:induction false} AppliedClosedForm(statuses: seq<StatusRow>, stored: map<string, Value>, target: string, ids: seq<string>)
    ensures Applied(statuses, stored, target, ids).Keys == stored.Keys
    ensures forall id :: id in stored ==>
              Applied(statuses, stored, target, ids)[id] ==
                if id in ids && Legal(stored[id], target) then Str(target) else stored[id]
  {
    if ids != [] {
      var init := ids[..|ids| - 1];
      var last := ids[|ids| - 1];
      AppliedClosedForm(statuses, stored, target, init);
      assert ids == init + [last];
      forall id | id in stored
        ensures Applied(statuses, stored, target, ids)[id] ==
                  if id in ids && Legal(stored[id], target) then Str(target) else stored[id]
      {
        var mid := Applied(statuses, stored, target, init);
        if id == last && mid[id] != Str(target) {
          assert mid[id] == stored[id];
        }
      }
    }
  }

  /** What the reactor does to the issues, given the message's `oldvalues`,
      its summary (`None` when it cannot be read), its linked issues (`None`
      when the message has no `issues` property) and the `status` rows. */
  function Effect(statuses: seq<StatusRow>, stored: map<string, Value>, oldvalues: map<string, Value>,
                  summary: Option<Value>, issues: Option<seq<string>>): map<string, Value>
  {
    if oldvalues != map[] || summary.None? || !Truthy(summary.value) then stored
    else match ParseDirective(summary.value.s)
      case None => stored
      case Some(name) =>
        if issues.None? || issues.value == [] then stored
        else match IdOf(statuses, name)
          case None => stored
          case Some(target) => Applied(statuses, stored, target, issues.value)
  }

  /** `parse_status_from_subject(db, cl, nodeid, oldvalues)`. */
  method ParseStatusFromSubject(store: IssueStore, statuses: seq<StatusRow>, oldvalues: map<string, Value>,
                                summary: Option<Value>, issues: Option<seq<string>>)
    modifies store
    ensures store.status == Effect(statuses, old(store.status), oldvalues, summary, issues)
  {
    if oldvalues != map[] || summary.None? || !Truthy(summary.value) {
      return;
    }
    var name := ParseDirective(summary.value.s);
    if name.None? || issues.None? || issues.value == [] {
      return;
    }
    var target := IdOf(statuses, name.value);
    if target.None? {
      return;
    }
    var ids := issues.value;
    var k := 0;
    while k < |ids|
      invariant 0 <= k <= |ids|
      invariant store.status == Applied(statuses, old(store.status), target.value, ids[..k])
    {
      var id := ids[k];
      assert ids[..k + 1][..k] == ids[..k];
      if id in store.status && store.status[id] != Str(target.value) {
        var _ := store.Set(statuses, id, target.value);
      }
      k := k + 1;
    }
    assert ids[..|ids|] == ids;
  }

  /** The reactor's effect in closed form: no issue appears or
      disappears, and an issue changes only when the message is new, its
      summary holds a directive naming a status that exists, the issue is
      linked, and the workflow allows the move. */
  lemma EffectClosedForm(statuses: seq<StatusRow>, stored: map<string, Value>, oldvalues: map<string, Value>,
                         summary: Option<Value>, issues: Option<seq<string>>, id: string)
    requires id in stored
    ensures Effect(statuses, stored, oldvalues, summary, issues).Keys == stored.Keys
    ensures Effect(statuses, stored, oldvalues, summary, issues)[id] != stored[id] ==>
              && oldvalues == map[] && summary.Some? && Truthy(summary.value)
              && ParseDirective(summary.value.s).Some?
              && issues.Some? && id in issues.value
              && IdOf(statuses, ParseDirective(summary.value.s).value).Some?
              && Legal(stored[id], IdOf(statuses, ParseDirective(summary.value.s).value).value)
              && Effect(statuses, stored, oldvalues, summary, issues)[id]
                 == Str(IdOf(statuses, ParseDirective(summary.value.s).value).value)
  {
    if oldvalues == map[] && summary.Some? && Truthy(summary.value) {
      var name := ParseDirective(summary.value.s);
      if name.Some? && issues.Some? && issues.value != [] {
        var target := IdOf(statuses, name.value);
        if target.Some? {
          AppliedClosedForm(statuses, stored, target.value, issues.value);
        }
      }
    }
  }

  /** With the seeded statuses, a directive naming in-progress moves a
      new issue to in-progress ... */
  lemma SeededInProgress(stored: map<string, Value>, s: string)
    requires stored == map["7" := Str("1")]
    requires ParseDirective(s) == Some("in-progress")
    ensures Effect(IssueStatuses, stored, map[], Some(Str(s)), Some(["7"])) == map["7" := Str("2")]
  {
    assert IdOf(IssueStatuses, "in-progress") == Some("2");
    AppliedClosedForm(IssueStatuses, stored, "2", ["7"]);
  }

  /** ... while one naming closed leaves it new: the workflow refuses
      new -> closed and the failure is swallowed. */
  lemma SeededClosedRefused(stored: map<string, Value>, s: string)
    requires stored == map["7" := Str("1")]
    requires ParseDirective(s) == Some("closed")
    ensures Effect(IssueStatuses, stored, map[], Some(Str(s)), Some(["7"])) == stored
  {
    assert IdOf(IssueStatuses, "closed") == Some("4");
    AppliedClosedForm(IssueStatuses, stored, "4", ["7"]);
  }
}
