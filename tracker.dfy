/**
  Shared vocabulary of the tracker's auditors and reactors: the values a hook
  reads from `newvalues` or from the database, the verdict a hook returns in
  place of raising, the rows of the key classes (`status`, `changestatus`)
  and the ASCII text helpers that stand in for Python's `str.lower` and
  `str.strip`.
*/
module Tracker {

  datatype Option<T> = None | Some(value: T)

  /** A property value as a hook sees it: Python `None`, or a string
      (the ids held by Link properties are strings too). */
  datatype Value = Null | Str(s: string)

  /** Python truthiness of a value: `None` and `""` are falsy. */
  predicate Truthy(v: Value)
  {
    v.Str? && v.s != ""
  }

  /** The `newvalues` dictionary handed to an auditor. */
  type Delta = map<string, Value>

  /** `d.get(key, default)` */
  function Get(d: Delta, key: string, default: Value): Value
  {
    if key in d then d[key] else default
  }

  /** An exception other than `ValueError` that escapes a hook: a database
      lookup of a node or key that does not exist (Roundup raises
      `IndexError` or `KeyError`), or `.strip()` called on `None`. */
  datatype PyError = LookupError | AttributeError

  /** What a hook does with a proposed change. `Rejected(m)` stands for
      `raise ValueError(...)` with the message that `m` names; `Raised(e)`
      for another exception. Both abort the create or set; only `Accepted`
      lets it through. */
  datatype Verdict<M> = Accepted | Rejected(msg: M) | Raised(error: PyError)

  /** A node of a key class such as `status`: its id and its key `name`. */
  datatype StatusRow = StatusRow(id: string, name: string)

  /** `status_class.get(id, "name")`: the name of the first row with that id. */
  function NameOf(rows: seq<StatusRow>, id: Value): Option<string>
  {
    if rows == [] then None
    else if Str(rows[0].id) == id then Some(rows[0].name)
    else NameOf(rows[1..], id)
  }

  /** The lookup fails exactly when no row has the id, and otherwise
      yields the name of a row with it. */
  lemma {:induction false} NameOfFinds(rows: seq<StatusRow>, id: Value)
    ensures NameOf(rows, id).Some? <==> exists i :: 0 <= i < |rows| && Str(rows[i].id) == id
    ensures NameOf(rows, id).Some? ==> exists i :: 0 <= i < |rows| && Str(rows[i].id) == id && rows[i].name == NameOf(rows, id).value
  {
    if rows != [] && Str(rows[0].id) != id {
      NameOfFinds(rows[1..], id);
      assert forall i :: 0 <= i < |rows| - 1 ==> rows[1..][i] == rows[i + 1];
    }
  }

  /** `status_class.lookup(name)`: the id of the first row with that name. */
  function IdOf(rows: seq<StatusRow>, name: string): Option<string>
  {
    if rows == [] then None
    else if rows[0].name == name then Some(rows[0].id)
    else IdOf(rows[1..], name)
  }

  /** The lookup fails exactly when no row has the name, and otherwise
      yields the id of a row with it. */
  lemma {:induction false} IdOfFinds(rows: seq<StatusRow>, name: string)
    ensures IdOf(rows, name).Some? <==> exists i :: 0 <= i < |rows| && rows[i].name == name
    ensures IdOf(rows, name).Some? ==> exists i :: 0 <= i < |rows| && rows[i].name == name && rows[i].id == IdOf(rows, name).value
  {
    if rows != [] && rows[0].name != name {
      IdOfFinds(rows[1..], name);
      assert forall i :: 0 <= i < |rows| - 1 ==> rows[1..][i] == rows[i + 1];
    }
  }

  /** The `status` rows seeded by tracker/initial_data.py. */
  const IssueStatuses: seq<StatusRow> :=
    [StatusRow("1", "new"), StatusRow("2", "in-progress"),
     StatusRow("3", "resolved"), StatusRow("4", "closed")]

  /** The `changestatus` rows seeded by tracker/initial_data.py. */
  const ChangeStatuses: seq<StatusRow> :=
    [StatusRow("1", "planning"), StatusRow("2", "approved"),
     StatusRow("3", "implementing"), StatusRow("4", "completed"),
     StatusRow("5", "cancelled")]

  /** The name lookups on the seeded `status` rows. */
  lemma IssueStatusNames()
    ensures NameOf(IssueStatuses, Str("1")) == Some("new")
    ensures NameOf(IssueStatuses, Str("2")) == Some("in-progress")
    ensures NameOf(IssueStatuses, Str("3")) == Some("resolved")
    ensures NameOf(IssueStatuses, Str("4")) == Some("closed")
  {
  }

  /** The name lookups on the seeded `changestatus` rows. */
  lemma ChangeStatusNames()
    ensures NameOf(ChangeStatuses, Str("1")) == Some("planning")
    ensures NameOf(ChangeStatuses, Str("2")) == Some("approved")
    ensures NameOf(ChangeStatuses, Str("3")) == Some("implementing")
    ensures NameOf(ChangeStatuses, Str("4")) == Some("completed")
    ensures NameOf(ChangeStatuses, Str("5")) == Some("cancelled")
  {
  }

  // ASCII text helpers. Python's `lower` and `strip` also act on non-ASCII
  // characters; the model only covers ASCII.

  predicate IsUpper(c: char) { 'A' <= c <= 'Z' }

  predicate IsLetter(c: char) { 'a' <= c <= 'z' || 'A' <= c <= 'Z' }

  /** The characters below 128 for which Python's `str.isspace` holds. */
  predicate IsSpace(c: char)
  {
    c == ' ' || c == '\t' || c == '\n' || c == '\r' ||
    c == '\U{B}' || c == '\U{C}' ||
    c == '\U{1C}' || c == '\U{1D}' || c == '\U{1E}' || c == '\U{1F}'
  }

  function LowerChar(c: char): (r: char)
    ensures !IsUpper(r)
    ensures IsUpper(c) ==> r as int == c as int + 32
    ensures !IsUpper(c) ==> r == c
  {
    if IsUpper(c) then (c as int + 32) as char else c
  }

  /** `s.lower()` */
  function Lower(s: string): (r: string)
    ensures |r| == |s|
    ensures forall i :: 0 <= i < |s| ==> r[i] == LowerChar(s[i])
  {
    if s == [] then [] else [LowerChar(s[0])] + Lower(s[1..])
  }

  lemma LowerIdempotent(s: string)
    ensures Lower(Lower(s)) == Lower(s)
  {
  }

  /** `s.strip()`: drops leading and trailing whitespace. */
  function Strip(s: string): (r: string)
  {
    StripRight(StripLeft(s))
  }

  function StripLeft(s: string): (r: string)
    ensures |r| <= |s| && r == s[|s| - |r|..]
    ensures r != [] ==> !IsSpace(r[0])
    ensures forall i :: 0 <= i < |s| - |r| ==> IsSpace(s[i])
  {
    if s != [] && IsSpace(s[0]) then StripLeft(s[1..]) else s
  }

  function StripRight(s: string): (r: string)
    ensures |r| <= |s| && r == s[..|r|]
    ensures r != [] ==> !IsSpace(r[|r| - 1])
    ensures forall i :: |r| <= i < |s| ==> IsSpace(s[i])
  {
    if s != [] && IsSpace(s[|s| - 1]) then StripRight(s[..|s| - 1]) else s
  }

  /** A string is blank when every character is whitespace. */
  predicate Blank(s: string)
  {
    forall i :: 0 <= i < |s| ==> IsSpace(s[i])
  }

  /** `not s.strip()` holds exactly for blank strings. */
  lemma {:induction false} StripEmptyIffBlank(s: string)
    ensures Strip(s) == "" <==> Blank(s)
  {
    var l := StripLeft(s);
    if l == "" {
      assert Blank(s);
    } else {
      assert !IsSpace(l[0]);
      assert StripRight(l) != "";
      assert !IsSpace(s[|s| - |l|]);
    }
  }
}
