/**
  tracker/detectors/ci_relationship_validator.py: the auditor that guards
  the CI dependency graph. It runs on both the "create" and the "set" hook
  of `cirelationship`, and checks, in this order: the three relationship
  fields are present, the relationship is not a self-reference, it does not
  close a cycle (a depth-first search from the target back to the source),
  and it does not duplicate an existing relationship.
*/
module CiRelationshipValidator {
  import opened Tracker

  /** A stored `cirelationship` node. */
  datatype Relationship = Relationship(id: string, source: string, rtype: string, target: string)

  /** The `cirelationship` nodes the database holds, in id order. */
  type Graph = seq<Relationship>

  /** Some relationship, of any type, goes from `a` to `b`. */
  ghost predicate Edge(g: Graph, a: string, b: string)
  {
    exists k :: 0 <= k < |g| && g[k].source == a && g[k].target == b
  }

  /** Every CI that is the source or the target of a relationship. */
  function Nodes(g: Graph): set<string>
  {
    (set k | 0 <= k < |g| :: g[k].source) + (set k | 0 <= k < |g| :: g[k].target)
  }

  /** `db.cirelationship.filter(None, {"source_ci": n})`, followed to the
      `target_ci` of each hit, in id order. */
  function Successors(g: Graph, n: string): (r: seq<string>)
    ensures forall x :: x in r ==> x in Nodes(g) && Edge(g, n, x)
    ensures forall k :: 0 <= k < |g| && g[k].source == n ==> g[k].target in r
  {
    if g == [] then []
    else
      var rest := Successors(g[1..], n);
      assert forall k :: 0 <= k < |g| - 1 ==> g[1..][k] == g[k + 1];
      assert forall x :: x in rest ==> x in Nodes(g) && Edge(g, n, x) by {
        forall x | x in rest ensures x in Nodes(g) && Edge(g, n, x) {
          var k :| 0 <= k < |g[1..]| && g[1..][k].source == n && g[1..][k].target == x;
          assert g[k + 1].source == n && g[k + 1].target == x;
        }
      }
      assert g[0].target in Nodes(g);
      (if g[0].source == n then [g[0].target] else []) + rest
  }

  /** Marking `t` visited leaves one node fewer to visit; this is the
      termination argument of the search. */
  lemma VisitShrinks(g: Graph, t: string, visited: set<string>)
    requires t !in visited
    ensures |Nodes(g) - (visited + {t})| + 1 == |Nodes(g) + {t} - visited|
  {
    var todo := Nodes(g) + {t} - visited;
    assert Nodes(g) - (visited + {t}) == todo - {t};
    assert t in todo;
  }

  /** `has_circular_dependency(db, source, target, visited)`. The set
      `visited` holds the CIs on the current search path: each recursive
      call receives its own copy, so siblings do not see each other's
      visits. */
  function HasCircularDependency(g: Graph, source: string, target: string, visited: set<string>): bool
    decreases |Nodes(g) + {target} - visited|, 1, 0
  {
    if source == target then true
    else if target in visited then true
    else
      VisitShrinks(g, target, visited);
      AnyCircular(g, source, Successors(g, target), visited + {target})
  }

  /** The `for rel_id in relationships` loop, which returns as soon as one
      recursive call finds a cycle. */
  function AnyCircular(g: Graph, source: string, next: seq<string>, visited: set<string>): bool
    requires forall x :: x in next ==> x in Nodes(g)
    decreases |Nodes(g) - visited| + 1, 0, |next|
  {
    if next == [] then false
    else
      assert Nodes(g) + {next[0]} == Nodes(g);
      HasCircularDependency(g, source, next[0], visited) || AnyCircular(g, source, next[1..], visited)
  }

  /** The call the validator makes, with `visited=None`. */
  function HasCircular(g: Graph, source: string, target: string): bool
  {
    HasCircularDependency(g, source, target, {})
  }

  /** One turn of the loop over the successors: the search from the `k`-th,
      then the rest. Each successor is a CI of the graph, so it leaves as
      many CIs to visit as the graph has outside `seen`. */
  lemma AnyCircularStep(g: Graph, source: string, next: seq<string>, k: nat, seen: set<string>)
    requires forall x :: x in next ==> x in Nodes(g)
    requires k < |next|
    ensures Nodes(g) + {next[k]} - seen == Nodes(g) - seen
    ensures AnyCircular(g, source, next[k..], seen) ==
              (HasCircularDependency(g, source, next[k], seen) || AnyCircular(g, source, next[k + 1..], seen))
  {
    assert next[k..][1..] == next[k + 1..];
    assert Nodes(g) + {next[k]} == Nodes(g);
  }

  /** The search as the source runs it: mark `target` visited, then try
      each successor in turn, each with its own copy of the visited set,
      and stop at the first that finds a cycle. */
  method SearchCircular(g: Graph, source: string, target: string, visited: set<string>) returns (found: bool)
    ensures found == HasCircularDependency(g, source, target, visited)
    decreases |Nodes(g) + {target} - visited|, 1
  {
    if source == target || target in visited {
      return true;
    }
    VisitShrinks(g, target, visited);
    var seen := visited + {target};
    var next := Successors(g, target);
    var k := 0;
    while k < |next|
      invariant 0 <= k <= |next|
      invariant AnyCircular(g, source, next, seen) == AnyCircular(g, source, next[k..], seen)
    {
      AnyCircularStep(g, source, next, k, seen);
      var hit := SearchCircular(g, source, next[k], seen);
      if hit {
        return true;
      }
      k := k + 1;
    }
    return false;
  }

  // ----- What the search decides, in terms of walks through the graph -----

  /** A non-empty sequence of CIs, each related to the next. */
  ghost predicate IsWalk(g: Graph, w: seq<string>)
  {
    |w| >= 1 && forall i :: 0 <= i < |w| - 1 ==> Edge(g, w[i], w[i + 1])
  }

  /** The walk ends at `source`, at a node of `visited`, or at a node it
      passed earlier: the three ways a search path returns true. */
  ghost predicate Stops(source: string, visited: set<string>, w: seq<string>)
    requires |w| >= 1
  {
    w[|w| - 1] == source || w[|w| - 1] in visited || w[|w| - 1] in w[..|w| - 1]
  }

  /** `t` reaches `s` following relationships forward. */
  ghost predicate Reaches(g: Graph, t: string, s: string)
  {
    exists w :: IsWalk(g, w) && w[0] == t && w[|w| - 1] == s
  }

  /** Some walk from `t` comes back to a node it has passed: a cycle lies
      below `t`. */
  ghost predicate CycleBelow(g: Graph, t: string)
  {
    exists w :: IsWalk(g, w) && w[0] == t && w[|w| - 1] in w[..|w| - 1]
  }

  /** No walk of one or more steps returns to where it started. */
  ghost predicate Acyclic(g: Graph)
  {
    forall w :: IsWalk(g, w) && |w| >= 2 ==> w[0] != w[|w| - 1]
  }

  lemma SuccessorOfEdge(g: Graph, a: string, b: string)
    requires Edge(g, a, b)
    ensures b in Successors(g, a)
  {
    var k :| 0 <= k < |g| && g[k].source == a && g[k].target == b;
  }

  lemma {:induction false} AnyFinds(g: Graph, s: string, next: seq<string>, visited: set<string>, x: string)
    requires forall y :: y in next ==> y in Nodes(g)
    requires x in next && HasCircularDependency(g, s, x, visited)
    ensures AnyCircular(g, s, next, visited)
    decreases |next|
  {
    if next[0] != x {
      AnyFinds(g, s, next[1..], visited, x);
    }
  }

  lemma {:induction false} AnyWitness(g: Graph, s: string, next: seq<string>, visited: set<string>) returns (x: string)
    requires forall y :: y in next ==> y in Nodes(g)
    requires AnyCircular(g, s, next, visited)
    ensures x in next && HasCircularDependency(g, s, x, visited)
    decreases |next|
  {
    if HasCircularDependency(g, s, next[0], visited) {
      x := next[0];
    } else {
      x := AnyWitness(g, s, next[1..], visited);
    }
  }

  /** Completeness: every walk that stops makes the search from its first
      node return true. */
  lemma {:induction false} WalkDetected(g: Graph, s: string, w: seq<string>, visited: set<string>)
    requires IsWalk(g, w) && Stops(s, visited, w)
    ensures HasCircularDependency(g, s, w[0], visited)
    decreases |w|
  {
    if w[0] != s && w[0] !in visited {
      assert |w| >= 2;
      var visited' := visited + {w[0]};
      var w' := w[1..];
      assert IsWalk(g, w') by {
        forall i | 0 <= i < |w'| - 1 ensures Edge(g, w'[i], w'[i + 1]) {
          assert w'[i] == w[i + 1] && w'[i + 1] == w[i + 2];
        }
      }
      assert w'[|w'| - 1] == w[|w| - 1];
      assert w[..|w| - 1] == [w[0]] + w'[..|w'| - 1];
      assert Stops(s, visited', w');
      WalkDetected(g, s, w', visited');
      SuccessorOfEdge(g, w[0], w[1]);
      AnyFinds(g, s, Successors(g, w[0]), visited', w[1]);
    }
  }

  /** Soundness: when the search returns true, a walk that stops exists. */
  lemma {:induction false} DetectedWalk(g: Graph, s: string, t: string, visited: set<string>) returns (w: seq<string>)
    requires HasCircularDependency(g, s, t, visited)
    ensures IsWalk(g, w) && w[0] == t && Stops(s, visited, w)
    decreases |Nodes(g) + {t} - visited|, 1, 0
  {
    if s == t || t in visited {
      w := [t];
    } else {
      VisitShrinks(g, t, visited);
      var visited' := visited + {t};
      var x := AnyWitness(g, s, Successors(g, t), visited');
      assert Nodes(g) + {x} == Nodes(g);
      var w' := DetectedWalk(g, s, x, visited');
      w := [t] + w';
      assert IsWalk(g, w) by {
        forall i | 0 <= i < |w| - 1 ensures Edge(g, w[i], w[i + 1]) {
          if i > 0 {
            assert w[i] == w'[i - 1] && w[i + 1] == w'[i];
          }
        }
      }
      assert w[|w| - 1] == w'[|w'| - 1];
      assert w[..|w| - 1] == [t] + w'[..|w'| - 1];
    }
  }

  /** What `has_circular_dependency(db, s, t)` decides: `t` reaches `s`, or
      a cycle that already exists lies below `t`. */
  lemma HasCircularIff(g: Graph, s: string, t: string)
    ensures HasCircular(g, s, t) <==> Reaches(g, t, s) || CycleBelow(g, t)
  {
    if HasCircular(g, s, t) {
      var w := DetectedWalk(g, s, t, {});
      assert Reaches(g, t, s) || CycleBelow(g, t);
    }
    if Reaches(g, t, s) {
      var w :| IsWalk(g, w) && w[0] == t && w[|w| - 1] == s;
      WalkDetected(g, s, w, {});
    }
    if CycleBelow(g, t) {
      var w :| IsWalk(g, w) && w[0] == t && w[|w| - 1] in w[..|w| - 1];
      WalkDetected(g, s, w, {});
    }
  }

  /** In an acyclic graph no cycle lies below any CI, so the search answers
      exactly whether `t` reaches `s`. */
  lemma AcyclicSearchIsReachability(g: Graph, s: string, t: string)
    requires Acyclic(g)
    ensures HasCircular(g, s, t) <==> Reaches(g, t, s)
  {
    HasCircularIff(g, s, t);
    if CycleBelow(g, t) {
      var w :| IsWalk(g, w) && w[0] == t && w[|w| - 1] in w[..|w| - 1];
      var j :| 0 <= j < |w| - 1 && w[j] == w[|w| - 1];
      SubWalk(g, w, j);
      assert false;
    }
  }

  lemma SubWalk(g: Graph, w: seq<string>, j: nat)
    requires IsWalk(g, w) && j < |w|
    ensures IsWalk(g, w[j..])
  {
    var c := w[j..];
    forall i | 0 <= i < |c| - 1 ensures Edge(g, c[i], c[i + 1]) {
      assert c[i] == w[j + i] && c[i + 1] == w[j + i + 1];
    }
  }

  lemma ConcatWalk(g: Graph, p: seq<string>, q: seq<string>)
    requires IsWalk(g, p) && IsWalk(g, q) && p[|p| - 1] == q[0]
    ensures IsWalk(g, p + q[1..]) && (p + q[1..])[0] == p[0] && (p + q[1..])[|p + q[1..]| - 1] == q[|q| - 1]
  {
    var r := p + q[1..];
    forall i | 0 <= i < |r| - 1 ensures Edge(g, r[i], r[i + 1]) {
      if i < |p| - 1 {
        assert r[i] == p[i] && r[i + 1] == p[i + 1];
      } else {
        assert r[i] == q[i - |p| + 1] && r[i + 1] == q[i - |p| + 2];
      }
    }
  }

  /** Every relationship of `h` is an edge of `g`, or goes from `a` to `b`. */
  ghost predicate EdgesWithin(h: Graph, g: Graph, a: string, b: string)
  {
    forall k :: 0 <= k < |h| ==> Edge(g, h[k].source, h[k].target) || (h[k].source == a && h[k].target == b)
  }

  /** A walk of `h` either is a walk of `g`, or can be cut at a step from
      `a` to `b` into a walk of `g` up to `a` and a walk of `g` from `b`. */
  lemma {:induction false} SplitWalk(g: Graph, h: Graph, a: string, b: string, w: seq<string>)
    returns (inG: bool, p: seq<string>, q: seq<string>)
    requires EdgesWithin(h, g, a, b) && IsWalk(h, w)
    ensures inG ==> IsWalk(g, w)
    ensures !inG ==> IsWalk(g, p) && p[0] == w[0] && p[|p| - 1] == a
    ensures !inG ==> IsWalk(g, q) && q[0] == b && q[|q| - 1] == w[|w| - 1]
    decreases |w|
  {
    p, q := w, w;
    if |w| == 1 {
      inG := true;
    } else {
      var w' := w[1..];
      assert IsWalk(h, w') by {
        forall i | 0 <= i < |w'| - 1 ensures Edge(h, w'[i], w'[i + 1]) {
          assert w'[i] == w[i + 1] && w'[i + 1] == w[i + 2];
        }
      }
      var inG', p', q' := SplitWalk(g, h, a, b, w');
      assert Edge(h, w[0], w[1]);
      var k :| 0 <= k < |h| && h[k].source == w[0] && h[k].target == w[1];
      if Edge(g, w[0], w[1]) {
        if inG' {
          inG := true;
          assert IsWalk(g, w) by {
            forall i | 0 <= i < |w| - 1 ensures Edge(g, w[i], w[i + 1]) {
              if i > 0 {
                assert w[i] == w'[i - 1] && w[i + 1] == w'[i];
              }
            }
          }
        } else {
          inG, p, q := false, [w[0]] + p', q';
          assert IsWalk(g, p) by {
            forall i | 0 <= i < |p| - 1 ensures Edge(g, p[i], p[i + 1]) {
              if i > 0 {
                assert p[i] == p'[i - 1] && p[i + 1] == p'[i];
              }
            }
          }
        }
      } else {
        assert w[0] == a && w[1] == b;
        inG, p := false, [w[0]];
        q := if inG' then w' else q';
      }
    }
  }

  /** Adding an edge from `a` to `b` that the search did not flag, to a
      graph without cycles, and keeping only edges the old graph had,
      gives a graph without cycles. */
  lemma UndetectedEdgeKeepsAcyclic(g: Graph, h: Graph, a: string, b: string)
    requires Acyclic(g) && EdgesWithin(h, g, a, b)
    requires !HasCircular(g, a, b)
    ensures Acyclic(h)
  {
    forall w | IsWalk(h, w) && |w| >= 2 ensures w[0] != w[|w| - 1] {
      if w[0] == w[|w| - 1] {
        var inG, p, q := SplitWalk(g, h, a, b, w);
        if !inG {
          ConcatWalk(g, q, p);
          var r := q + p[1..];
          assert Stops(a, {}, r);
          WalkDetected(g, a, r, {});
        }
      }
    }
  }

  // ----- The validator -----

  /** The four `ValueError`s the validator raises. */
  datatype Refusal = MissingField | SelfReference | Circular | Duplicate

  /** The text of each `ValueError`. */
  function Message(e: Refusal): string
  {
    match e
    case MissingField => "source_ci, target_ci, and relationship_type are required fields"
    case SelfReference => "A CI cannot have a relationship with itself"
    case Circular => "Circular dependency detected. This relationship would create a cycle in the dependency graph."
    case Duplicate => "A relationship with the same source, target, and type already exists"
  }

  /** `cl.get(nodeid, ...)`: the stored relationship with that id. */
  function Find(g: Graph, id: string): (r: Option<Relationship>)
    ensures r.Some? ==> r.value in g && r.value.id == id
    ensures r.None? ==> forall k :: 0 <= k < |g| ==> g[k].id != id
  {
    if g == [] then None
    else if g[0].id == id then Some(g[0])
    else
      var r := Find(g[1..], id);
      assert forall k :: 0 <= k < |g| - 1 ==> g[1..][k] == g[k + 1];
      r
  }

  /** True when one of the three relationship-defining fields is in the delta. */
  predicate Touches(newvalues: Delta)
  {
    "source_ci" in newvalues || "target_ci" in newvalues || "relationship_type" in newvalues
  }

  /** The three fields the validator works on. */
  datatype Proposal = Proposal(source: Value, target: Value, rtype: Value)

  /** On an edit, a field absent from the delta keeps its stored value; on
      a create, only the delta counts. */
  function Proposed(stored: Option<Relationship>, newvalues: Delta): Proposal
  {
    match stored
    case Some(rel) =>
      Proposal(Get(newvalues, "source_ci", Str(rel.source)),
               Get(newvalues, "target_ci", Str(rel.target)),
               Get(newvalues, "relationship_type", Str(rel.rtype)))
    case None =>
      Proposal(Get(newvalues, "source_ci", Null),
               Get(newvalues, "target_ci", Null),
               Get(newvalues, "relationship_type", Null))
  }

  predicate Complete(p: Proposal)
  {
    Truthy(p.source) && Truthy(p.target) && Truthy(p.rtype)
  }

  predicate SameTriple(rel: Relationship, s: string, t: string, ty: string)
  {
    rel.source == s && rel.target == t && rel.rtype == ty
  }

  /** The duplicate query: the ids of relationships with the same source,
      target and type, leaving out the edited relationship itself. */
  function Duplicates(g: Graph, s: string, t: string, ty: string, nodeid: Option<string>): (r: seq<string>)
    ensures r != [] <==> exists k :: 0 <= k < |g| && SameTriple(g[k], s, t, ty) && nodeid != Some(g[k].id)
  {
    if g == [] then []
    else
      var rest := Duplicates(g[1..], s, t, ty, nodeid);
      assert forall k :: 0 <= k < |g| - 1 ==> g[1..][k] == g[k + 1];
      assert (exists k :: 0 <= k < |g| - 1 && SameTriple(g[1..][k], s, t, ty) && nodeid != Some(g[1..][k].id))
          ==> (exists k :: 0 <= k < |g| && SameTriple(g[k], s, t, ty) && nodeid != Some(g[k].id));
      (if SameTriple(g[0], s, t, ty) && nodeid != Some(g[0].id) then [g[0].id] else []) + rest
  }

  /** The verdict the validator is meant to reach on a proposal, stated
      over walks through the graph instead of the search: a missing field,
      then a self-reference, then a cycle the new relationship would close or
      one already below its target, then a relationship with the same
      triple other than the edited one. */
  ghost function Expected(g: Graph, nodeid: Option<string>, p: Proposal): Verdict<Refusal>
  {
    if !Complete(p) then Rejected(MissingField)
    else if p.source == p.target then Rejected(SelfReference)
    else if Reaches(g, p.target.s, p.source.s) || CycleBelow(g, p.target.s) then Rejected(Circular)
    else if exists k :: 0 <= k < |g| && SameTriple(g[k], p.source.s, p.target.s, p.rtype.s) && nodeid != Some(g[k].id)
    then Rejected(Duplicate)
    else Accepted
  }

  /** `validate_ci_relationship(db, cl, nodeid, newvalues)`, with `g` the
      relationships stored before the change. */
  function ValidateCiRelationship(g: Graph, nodeid: Option<string>, newvalues: Delta): (r: Verdict<Refusal>)
    // An edit that leaves the three fields alone is not checked at all.
    ensures nodeid.Some? && !Touches(newvalues) ==> r == Accepted
    // The stored record is read on every checked edit, even when the delta holds all three fields.
    ensures nodeid.Some? && Touches(newvalues) && Find(g, nodeid.value).None? ==> r == Raised(LookupError)
    ensures nodeid.None? ==> r == Expected(g, nodeid, Proposed(None, newvalues))
    ensures nodeid.Some? && Touches(newvalues) && Find(g, nodeid.value).Some? ==>
              r == Expected(g, nodeid, Proposed(Find(g, nodeid.value), newvalues))
  {
    if nodeid.Some? && !Touches(newvalues) then Accepted
    else
      var stored := if nodeid.None? then None else Find(g, nodeid.value);
      if nodeid.Some? && stored.None? then Raised(LookupError)
      else
        var p := Proposed(stored, newvalues);
        if !Complete(p) then Rejected(MissingField)
        else if p.source == p.target then Rejected(SelfReference)
        else
          HasCircularIff(g, p.source.s, p.target.s);
          if HasCircular(g, p.source.s, p.target.s) then Rejected(Circular)
          else if Duplicates(g, p.source.s, p.target.s, p.rtype.s, nodeid) != [] then Rejected(Duplicate)
          else Accepted
  }

  // ----- The invariants an accepted change keeps -----

  ghost predicate UniqueIds(g: Graph)
  {
    forall i, j :: 0 <= i < j < |g| ==> g[i].id != g[j].id
  }

  /** All three fields set and distinct source and target. */
  ghost predicate ProperFields(g: Graph)
  {
    forall k :: 0 <= k < |g| ==> g[k].source != "" && g[k].target != "" && g[k].rtype != "" && g[k].source != g[k].target
  }

  ghost predicate NoDuplicates(g: Graph)
  {
    forall i, j :: 0 <= i < j < |g| ==> !SameTriple(g[j], g[i].source, g[i].target, g[i].rtype)
  }

  /** What holds of the stored relationships when every one of them went
      through the validator: distinct ids, all three fields set, no
      self-reference, no two relationships with the same source, target and
      type, and no cycle. */
  ghost predicate WellFormed(g: Graph)
  {
    UniqueIds(g) && ProperFields(g) && NoDuplicates(g) && Acyclic(g)
  }

  /** The relationship node a committed proposal becomes. */
  function Record(id: string, p: Proposal): Relationship
    requires Complete(p)
  {
    Relationship(id, p.source.s, p.rtype.s, p.target.s)
  }

  /** The stored relationships after a set of node `id` is committed. */
  function Replace(g: Graph, id: string, rel: Relationship): Graph
  {
    seq(|g|, k requires 0 <= k < |g| => if g[k].id == id then rel else g[k])
  }

  lemma EdgeOf(g: Graph, k: nat)
    requires k < |g|
    ensures Edge(g, g[k].source, g[k].target)
  {
  }

  /** What an accepted verdict establishes about the proposal. */
  lemma AcceptedMeans(g: Graph, nodeid: Option<string>, p: Proposal)
    requires Expected(g, nodeid, p) == Accepted
    ensures Complete(p) && p.source != p.target
    ensures !HasCircular(g, p.source.s, p.target.s)
    ensures forall k :: 0 <= k < |g| && SameTriple(g[k], p.source.s, p.target.s, p.rtype.s) ==> nodeid == Some(g[k].id)
  {
    HasCircularIff(g, p.source.s, p.target.s);
  }

  /** Appending a relationship with a fresh id and set, distinct fields,
      that the search does not flag and that duplicates nothing, keeps the
      graph well formed. */
  lemma AppendKeepsWellFormed(g: Graph, e: Relationship)
    requires WellFormed(g)
    requires forall k :: 0 <= k < |g| ==> g[k].id != e.id
    requires e.source != "" && e.target != "" && e.rtype != "" && e.source != e.target
    requires !HasCircular(g, e.source, e.target)
    requires forall k :: 0 <= k < |g| ==> !SameTriple(g[k], e.source, e.target, e.rtype)
    ensures WellFormed(g + [e])
  {
    var h := g + [e];
    assert UniqueIds(h) by {
      forall i, j | 0 <= i < j < |h| ensures h[i].id != h[j].id {
        assert h[i] == g[i];
      }
    }
    assert ProperFields(h) by {
      forall k | 0 <= k < |h| ensures h[k].source != "" && h[k].target != "" && h[k].rtype != "" && h[k].source != h[k].target {
        if k < |g| {
          assert h[k] == g[k];
        }
      }
    }
    assert NoDuplicates(h) by {
      forall i, j | 0 <= i < j < |h| ensures !SameTriple(h[j], h[i].source, h[i].target, h[i].rtype) {
        assert h[i] == g[i];
      }
    }
    AppendAcyclic(g, e);
  }

  lemma AppendAcyclic(g: Graph, e: Relationship)
    requires Acyclic(g) && !HasCircular(g, e.source, e.target)
    ensures Acyclic(g + [e])
  {
    var h := g + [e];
    forall k | 0 <= k < |h|
      ensures Edge(g, h[k].source, h[k].target) || (h[k].source == e.source && h[k].target == e.target)
    {
      if k < |g| {
        EdgeOf(g, k);
      }
    }
    UndetectedEdgeKeepsAcyclic(g, h, e.source, e.target);
  }

  /** Replacing the relationship at `m` by one with the same id and set,
      distinct fields, that the search does not flag and that duplicates no
      other relationship, keeps the graph well formed. */
  lemma ReplaceKeepsWellFormed(g: Graph, m: nat, e: Relationship)
    requires WellFormed(g) && m < |g| && e.id == g[m].id
    requires e.source != "" && e.target != "" && e.rtype != "" && e.source != e.target
    requires !HasCircular(g, e.source, e.target)
    requires forall k :: 0 <= k < |g| && k != m ==> !SameTriple(g[k], e.source, e.target, e.rtype)
    ensures WellFormed(Replace(g, e.id, e))
  {
    var h := Replace(g, e.id, e);
    ReplaceAt(g, m, e);
    assert UniqueIds(h) by {
      forall i, j | 0 <= i < j < |h| ensures h[i].id != h[j].id {
        assert h[i].id == g[i].id && h[j].id == g[j].id;
      }
    }
    assert ProperFields(h) by {
      forall k | 0 <= k < |h| ensures h[k].source != "" && h[k].target != "" && h[k].rtype != "" && h[k].source != h[k].target {
        if k != m {
          assert h[k] == g[k];
        }
      }
    }
    assert NoDuplicates(h) by {
      forall i, j | 0 <= i < j < |h| ensures !SameTriple(h[j], h[i].source, h[i].target, h[i].rtype) {
        if i != m && j != m {
          assert h[i] == g[i] && h[j] == g[j];
        }
      }
    }
    ReplaceAcyclic(g, m, e);
  }

  /** With unique ids, `Replace` changes exactly the relationship at `m`. */
  lemma ReplaceAt(g: Graph, m: nat, e: Relationship)
    requires UniqueIds(g) && m < |g| && e.id == g[m].id
    ensures |Replace(g, e.id, e)| == |g|
    ensures forall k :: 0 <= k < |g| ==> Replace(g, e.id, e)[k] == if k == m then e else g[k]
  {
    forall k | 0 <= k < |g| ensures Replace(g, e.id, e)[k] == if k == m then e else g[k] {
      if k < m {
        assert g[k].id != g[m].id;
      } else if k > m {
        assert g[m].id != g[k].id;
      }
    }
  }

  lemma ReplaceAcyclic(g: Graph, m: nat, e: Relationship)
    requires UniqueIds(g) && m < |g| && e.id == g[m].id
    requires Acyclic(g) && !HasCircular(g, e.source, e.target)
    ensures Acyclic(Replace(g, e.id, e))
  {
    var h := Replace(g, e.id, e);
    ReplaceAt(g, m, e);
    forall k | 0 <= k < |h|
      ensures Edge(g, h[k].source, h[k].target) || (h[k].source == e.source && h[k].target == e.target)
    {
      if k != m {
        EdgeOf(g, k);
      }
    }
    UndetectedEdgeKeepsAcyclic(g, h, e.source, e.target);
  }

  /** A create the validator accepts, committed with a fresh id, keeps the
      graph well formed; in particular it stays acyclic. */
  lemma CreateKeepsWellFormed(g: Graph, newvalues: Delta, newid: string)
    requires WellFormed(g)
    requires forall k :: 0 <= k < |g| ==> g[k].id != newid
    requires ValidateCiRelationship(g, None, newvalues) == Accepted
    ensures Complete(Proposed(None, newvalues))
    ensures WellFormed(g + [Record(newid, Proposed(None, newvalues))])
  {
    AcceptedMeans(g, None, Proposed(None, newvalues));
    AppendKeepsWellFormed(g, Record(newid, Proposed(None, newvalues)));
  }

  /** A set the validator accepts, committed, keeps the graph well formed.
      Roundup calls the "set" hook only for a node that exists. */
  lemma UpdateKeepsWellFormed(g: Graph, id: string, newvalues: Delta)
    requires WellFormed(g)
    requires exists k :: 0 <= k < |g| && g[k].id == id
    requires ValidateCiRelationship(g, Some(id), newvalues) == Accepted
    ensures Find(g, id).Some? && Complete(Proposed(Find(g, id), newvalues))
    ensures WellFormed(Replace(g, id, Record(id, Proposed(Find(g, id), newvalues))))
  {
    var stored := Find(g, id);
    var m :| 0 <= m < |g| && g[m] == stored.value;
    assert forall k :: 0 <= k < |g| ==> (g[k].id == id <==> k == m);
    var p := Proposed(stored, newvalues);
    if !Touches(newvalues) {
      assert Record(id, p) == g[m];
      assert Replace(g, id, Record(id, p)) == g;
    } else {
      AcceptedMeans(g, Some(id), p);
      ReplaceKeepsWellFormed(g, m, Record(id, p));
    }
  }

  /** A CI that is the source of no relationship reaches nothing but
      itself, and no cycle lies below it. */
  lemma NoOutgoing(g: Graph, t: string)
    requires forall k :: 0 <= k < |g| ==> g[k].source != t
    ensures forall s :: s != t ==> !Reaches(g, t, s)
    ensures !CycleBelow(g, t)
  {
    forall w | IsWalk(g, w) && w[0] == t ensures |w| == 1 {
      if |w| > 1 {
        NoEdgeFrom(g, t, w[1]);
        assert false;
      }
    }
  }

  lemma NoEdgeFrom(g: Graph, t: string, b: string)
    requires forall k :: 0 <= k < |g| ==> g[k].source != t
    ensures !Edge(g, t, b)
  {
  }

  // ----- Worked cases -----

  /** The delta of a create, or of an edit, that gives all three fields. */
  function FullDelta(s: string, t: string, ty: string): Delta
  {
    map["source_ci" := Str(s), "target_ci" := Str(t), "relationship_type" := Str(ty)]
  }

  lemma FullDeltaProposes(stored: Option<Relationship>, s: string, t: string, ty: string)
    ensures Touches(FullDelta(s, t, ty))
    ensures Proposed(stored, FullDelta(s, t, ty)) == Proposal(Str(s), Str(t), Str(ty))
  {
  }

  /** The delta of an edit that moves both ends and keeps the type. */
  function EndsDelta(s: string, t: string): Delta
  {
    map["source_ci" := Str(s), "target_ci" := Str(t)]
  }

  lemma EndsDeltaProposes(rel: Relationship, s: string, t: string)
    ensures Touches(EndsDelta(s, t))
    ensures Proposed(Some(rel), EndsDelta(s, t)) == Proposal(Str(s), Str(t), Str(rel.rtype))
  {
  }


  /** CI 2 runs on CI 1; relating CI 1 back to CI 2 closes a cycle of
      length two and is rejected. */
  lemma TwoCycleRejected(g: Graph)
    requires g == [Relationship("1", "2", "1", "1")]
    ensures ValidateCiRelationship(g, None, FullDelta("1", "2", "1")) == Rejected(Circular)
  {
    FullDeltaProposes(None, "1", "2", "1");
    assert IsWalk(g, ["2", "1"]) by { EdgeOf(g, 0); }
    assert Reaches(g, "2", "1");
  }

  /** A depends on B and B on C: C -> A is rejected as circular ... */
  lemma ChainClosingRejected(g: Graph)
    requires g == [Relationship("1", "A", "3", "B"), Relationship("2", "B", "3", "C")]
    ensures ValidateCiRelationship(g, None, FullDelta("C", "A", "3")) == Rejected(Circular)
  {
    FullDeltaProposes(None, "C", "A", "3");
    assert IsWalk(g, ["A", "B", "C"]) by { EdgeOf(g, 0); EdgeOf(g, 1); }
    assert Reaches(g, "A", "C");
  }

  /** ... while C -> D, to a CI that is the source of nothing, is accepted. */
  lemma ChainExtendingAccepted(g: Graph)
    requires g == [Relationship("1", "A", "3", "B"), Relationship("2", "B", "3", "C")]
    ensures ValidateCiRelationship(g, None, FullDelta("C", "D", "3")) == Accepted
  {
    FullDeltaProposes(None, "C", "D", "3");
    NoOutgoing(g, "D");
  }

  /** Re-submitting a relationship's own fields on an edit is not a
      duplicate of itself, while creating the same triple again is. */
  lemma DuplicateExcludesEditedNode(g: Graph)
    requires g == [Relationship("7", "A", "1", "B")]
    ensures ValidateCiRelationship(g, Some("7"), FullDelta("A", "B", "1")) == Accepted
    ensures ValidateCiRelationship(g, None, FullDelta("A", "B", "1")) == Rejected(Duplicate)
  {
    FullDeltaProposes(None, "A", "B", "1");
    FullDeltaProposes(Some(g[0]), "A", "B", "1");
    assert Find(g, "7") == Some(g[0]);
    NoOutgoing(g, "B");
    assert SameTriple(g[0], "A", "B", "1");
  }

  /** The search runs over the relationships as stored, the edited one
      included: turning A -> B around into B -> A is rejected as circular ... */
  lemma ReversingAnEdgeIsRejected(g: Graph)
    requires g == [Relationship("7", "A", "1", "B")]
    ensures ValidateCiRelationship(g, Some("7"), EndsDelta("B", "A")) == Rejected(Circular)
  {
    EndsDeltaProposes(g[0], "B", "A");
    assert Find(g, "7") == Some(g[0]);
    assert IsWalk(g, ["A", "B"]) by { EdgeOf(g, 0); }
    assert Reaches(g, "A", "B");
  }

  /** ... although the graph after the edit would hold only B -> A, which
      has no cycle. */
  lemma ReversedEdgeIsAcyclic(g: Graph)
    requires g == [Relationship("7", "A", "1", "B")]
    ensures Acyclic(Replace(g, "7", Relationship("7", "B", "1", "A")))
  {
    var h := Replace(g, "7", Relationship("7", "B", "1", "A"));
    assert h == [Relationship("7", "B", "1", "A")];
    NoOutgoing(h, "A");
    forall w | IsWalk(h, w) && |w| >= 2 ensures w[0] != w[|w| - 1] {
      assert Edge(h, w[0], w[1]);
      assert w[0] == "B" && w[1] == "A";
      SubWalk(h, w, 1);
      var rest := w[1..];
      assert rest[0] == "A" && rest[|rest| - 1] == w[|w| - 1];
      assert !Reaches(h, "A", "B");
    }
  }
}
