# Pasture tracker customisation layer in Dafny

The pasture management system is a Roundup tracker. This project models
the code the tracker adds on top of Roundup:

- the auditors and reactors under `tracker/detectors/`:
  - the Issue and Change status workflows;
  - the CI required-field auditor;
  - the CI relationship validator, with its depth-first cycle search;
  - the default status of a new issue;
  - the e-mail `[status=...]` directive;
- the two list helpers of `tracker/extensions/template_helpers.py`, which
  sort and filter CIs;
- the permissions the "User" role gets on `user` and `query` in
  `tracker/schema.py`.

Each hook is a function or method that is called explicitly. Its verdict is
one of three values:

- `Accepted`;
- `Rejected(m)`, for the `ValueError` the hook raises, where `m` names the
  message and each module's `Message` gives the text;
- `Raised(e)`, for another exception escaping the hook.

The Roundup database is abstracted into plain values:

- the stored status of every issue or change, as a map;
- the rows of the `status` and `changestatus` classes, as a sequence of
  (id, name) pairs;
- the stored `cirelationship` nodes, as a sequence;
- the `newvalues` delta, as a map.

The form follows the source. Code that changes state is a Dafny method:

- `set_issue_defaults` writes into the delta it is handed, so it is a method
  on a `NewValues` object;
- the e-mail reactor loops over issues and sets each one, so it is a method
  over an `IssueStore` object;
- the sort and the filter build lists in loops;
- the cycle search visits successors in a loop.

Each method is proved against a function that states its result. The
properties are lemmas about those functions.

Modules, one per source file:

| module | file |
|---|---|
| `Tracker` | shared vocabulary: values, verdicts, status rows, and the ASCII `lower` and `strip` |
| `Workflow` | the status guard the two workflow files share |
| `StatusWorkflow` | `tracker/detectors/status_workflow.py` |
| `ChangeWorkflow` | `tracker/detectors/change_workflow.py` |
| `CiRelationshipValidator` | `tracker/detectors/ci_relationship_validator.py` |
| `CiAuditor` | `tracker/detectors/ci_auditor.py` |
| `IssueDefaults` | `tracker/detectors/issue_defaults.py` |
| `EmailStatusParser` | `tracker/detectors/email_status_parser.py` |
| `TemplateHelpers` | `tracker/extensions/template_helpers.py` |
| `Schema` | `tracker/schema.py` |

Notes on the model:

- **Which hook runs each check.** The status and change workflows audit
  only "set", so a creation is never checked. Issue defaults run on
  "create". The CI auditor and the relationship validator run on both. The
  e-mail parser reacts to "create" of `msg`. Each model takes `nodeid` as
  an `Option` (`None` for a create). For the workflows, the lemmas show that
  `None` is always accepted.
- **Cycle search.** It is modelled twice:
  - as the recursive functions `HasCircularDependency` and `AnyCircular`, which
    terminate on the number of CIs not yet visited;
  - as the method `SearchCircular`, which has the source's loop and early
    return and is proved equal to the functions.

  `HasCircularIff` states what the search decides in terms of walks
  through the graph.
- **The `issues` property.** In `tracker/schema.py:106-116` the `msg` class
  declares no `issues` property, so in this tracker the reactor's
  `cl.get(nodeid, "issues")` fails and it returns. The model takes the
  linked issues as an `Option`, so this case and the case of a message that
  has linked issues are both covered.
- **The TypeError of the sort.** The sort raises `TypeError` exactly when a
  rank and a text key are both present. A correct comparison sort must
  compare the two elements that end up adjacent at the boundary between
  ranks and texts, so it cannot avoid comparing a rank with a text.

## Model

| member | source | states |
|---|---|---|
| `Tracker.NameOfFinds` | tracker/detectors/status_workflow.py:60-62 | `status_class.get(id, "name")` fails exactly when no row has the id, and otherwise gives that row's name |
| `Tracker.IdOfFinds` | tracker/detectors/issue_defaults.py:34-35 | `lookup(name)` fails exactly when no row has the name, and otherwise gives that row's id |
| `Tracker.IssueStatusNames` | tracker/initial_data.py:13-16 | the seeded `status` rows name ids 1-4 new, in-progress, resolved, closed |
| `Tracker.ChangeStatusNames` | tracker/initial_data.py:34-38 | the seeded `changestatus` rows name ids 1-5 planning, approved, implementing, completed, cancelled |
| `Tracker.Lower` | tracker/detectors/email_status_parser.py:55 | `lower()` keeps the length, maps each upper-case ASCII letter to lower case and keeps every other character |
| `Tracker.LowerIdempotent` | tracker/extensions/template_helpers.py:134 | lower-casing twice is lower-casing once |
| `Tracker.StripEmptyIffBlank` | tracker/detectors/ci_auditor.py:18-19 | `strip()` gives `""` exactly when the string is all whitespace |
| `StatusWorkflow.CheckStatusTransition` | tracker/detectors/status_workflow.py:31-66 | a create, or a delta without `status`, is accepted; a missing issue raises; otherwise a change is accepted iff the status is unchanged or the move is 1→2, 2→3, 3→2 or 3→4; a refusal is the `ValueError` naming both statuses, or a lookup error when a name is missing |
| `StatusWorkflow.TableIsMove` | tracker/detectors/status_workflow.py:48-56 | the transition table with its `.get(..., [])` default allows exactly the four moves |
| `StatusWorkflow.ClosedIsTerminal` | tracker/detectors/status_workflow.py:52 | no change away from closed is accepted |
| `StatusWorkflow.UnknownStatusBlocks` | tracker/detectors/status_workflow.py:56-59 | a current status outside the table, or `None`, blocks every real change |
| `StatusWorkflow.ForwardLifecycle` | tracker/detectors/status_workflow.py:48-53 | new→in-progress→resolved→closed and the resolved→in-progress reopen are accepted one `set` at a time |
| `StatusWorkflow.NewToClosedRejected` | tracker/detectors/status_workflow.py:58-66 | new→closed is refused with "Invalid status transition: new -> closed" |
| `StatusWorkflow.EveryStatusCanClose` | tracker/detectors/status_workflow.py:48-53 | from every status of the table a path of legal moves reaches closed |
| `ChangeWorkflow.CheckChangeStatusTransition` | tracker/detectors/change_workflow.py:31-65 | as for issues, with exactly 1→2, 2→3, 3→4 and 1/2/3→5 accepted |
| `ChangeWorkflow.TableIsMove` | tracker/detectors/change_workflow.py:48-57 | the table with its default allows exactly those moves |
| `ChangeWorkflow.CancelFromAnyOpenStatus` | tracker/detectors/change_workflow.py:49-51 | cancelled is accepted from planning, approved and implementing |
| `ChangeWorkflow.CompletedAndCancelledAreTerminal` | tracker/detectors/change_workflow.py:52-53 | no change away from completed or cancelled is accepted |
| `ChangeWorkflow.NoSkippedStage` | tracker/detectors/change_workflow.py:48-51 | planning→implementing, planning→completed and approved→completed are refused |
| `ChangeWorkflow.PlanningToCompletedRejected` | tracker/detectors/change_workflow.py:59-65 | planning→completed is refused with "Invalid status transition: planning -> completed" |
| `ChangeWorkflow.EveryStatusCanFinish` | tracker/detectors/change_workflow.py:48-54 | the terminal statuses are exactly those that are not open, and every status reaches one by legal moves |
| `CiRelationshipValidator.Successors` | tracker/detectors/ci_relationship_validator.py:41-45 | the targets followed from CI `n` are exactly the targets of relationships whose source is `n` |
| `CiRelationshipValidator.SearchCircular` | tracker/detectors/ci_relationship_validator.py:12-51 | the loop with early return and a copied visited set computes the recursive search |
| `CiRelationshipValidator.WalkDetected` | tracker/detectors/ci_relationship_validator.py:29-49 | the search finds every walk that ends at the source, at a visited CI or at a CI it passed before |
| `CiRelationshipValidator.DetectedWalk` | tracker/detectors/ci_relationship_validator.py:29-49 | when the search returns true, such a walk exists |
| `CiRelationshipValidator.HasCircularIff` | tracker/detectors/ci_relationship_validator.py:12-51 | `has_circular_dependency(s, t)` holds iff `t` reaches `s` along relationships of any type, or a cycle already lies below `t` |
| `CiRelationshipValidator.AcyclicSearchIsReachability` | tracker/detectors/ci_relationship_validator.py:33-49 | on a graph without cycles the search is exactly reachability from `t` to `s` |
| `CiRelationshipValidator.SplitWalk` | tracker/detectors/ci_relationship_validator.py:96-100 | a walk through the graph with one added edge is an old walk, or two old walks joined by the new edge |
| `CiRelationshipValidator.UndetectedEdgeKeepsAcyclic` | tracker/detectors/ci_relationship_validator.py:5-8 | adding an edge the search does not flag to a graph without cycles leaves it without cycles |
| `CiRelationshipValidator.Find` | tracker/detectors/ci_relationship_validator.py:78-80 | the stored relationship with the id, or none when no relationship has it |
| `CiRelationshipValidator.Duplicates` | tracker/detectors/ci_relationship_validator.py:103-110 | non-empty iff a relationship other than the edited one has the same source, target and type |
| `CiRelationshipValidator.ValidateCiRelationship` | tracker/detectors/ci_relationship_validator.py:70-113 | an edit touching none of the three fields is accepted; a checked edit of a missing node raises; otherwise the verdict is, in order, required fields, self-reference, cycle (reachability or an existing cycle below the target), duplicate other than the edited node, with absent fields of an edit taken from the stored node |
| `CiRelationshipValidator.AcceptedMeans` | tracker/detectors/ci_relationship_validator.py:88-113 | an accepted proposal has all three fields, distinct ends, no cycle, and duplicates nothing but the edited node |
| `CiRelationshipValidator.AppendKeepsWellFormed` | tracker/detectors/ci_relationship_validator.py:88-113 | appending a relationship that passes every check keeps ids distinct, fields set, no self-reference, no duplicate and no cycle |
| `CiRelationshipValidator.ReplaceKeepsWellFormed` | tracker/detectors/ci_relationship_validator.py:88-113 | the same for replacing a stored relationship in place |
| `CiRelationshipValidator.CreateKeepsWellFormed` | tracker/detectors/ci_relationship_validator.py:81-118 | a create the validator accepts keeps the stored graph well formed, in particular acyclic |
| `CiRelationshipValidator.UpdateKeepsWellFormed` | tracker/detectors/ci_relationship_validator.py:76-119 | a set the validator accepts keeps the stored graph well formed |
| `CiRelationshipValidator.TwoCycleRejected` | tracker/detectors/ci_relationship_validator.py:96-100 | relating 1 to 2 when 2 already relates to 1 is refused as circular |
| `CiRelationshipValidator.ChainClosingRejected` | tracker/detectors/ci_relationship_validator.py:96-100 | with A→B→C, C→A is refused as circular |
| `CiRelationshipValidator.ChainExtendingAccepted` | tracker/detectors/ci_relationship_validator.py:96-113 | with A→B→C, C→D is accepted |
| `CiRelationshipValidator.DuplicateExcludesEditedNode` | tracker/detectors/ci_relationship_validator.py:103-113 | re-submitting a relationship's own fields on edit is accepted; creating the same triple again is refused as duplicate |
| `CiRelationshipValidator.ReversingAnEdgeIsRejected` | tracker/detectors/ci_relationship_validator.py:76-100 | turning A→B into B→A on edit is refused as circular, because the search runs over the stored graph |
| `CiRelationshipValidator.ReversedEdgeIsAcyclic` | tracker/detectors/ci_relationship_validator.py:76-100 | although the graph after that edit has no cycle |
| `CiAuditor.CheckName` | tracker/detectors/ci_auditor.py:18-20 | `name=None` raises; otherwise the name is accepted iff it is not all whitespace |
| `CiAuditor.AuditCiRequiredFields` | tracker/detectors/ci_auditor.py:15-34 | on create, name, then type, then status, the first failure reported, accepted iff all three are given; on edit, only a name in the delta is checked |
| `CiAuditor.CreateStricterThanEdit` | tracker/detectors/ci_auditor.py:15-34 | a delta a create accepts is accepted on an edit |
| `CiAuditor.EditMayClearTypeAndStatus` | tracker/detectors/ci_auditor.py:29-34 | an edit without a name that clears type and status is accepted |
| `CiAuditor.BlankNameReportedFirst` | tracker/detectors/ci_auditor.py:17-28 | a blank name is reported even when type and status are given |
| `IssueDefaults.SetIssueDefaults` | tracker/detectors/issue_defaults.py:28-42 | the delta after the hook is `WithIssueDefaults` of the delta before |
| `IssueDefaults.EditUnchanged` | tracker/detectors/issue_defaults.py:28-29 | an edit leaves the delta as it was |
| `IssueDefaults.OnlyStatusWritten` | tracker/detectors/issue_defaults.py:36 | every key other than `status` keeps its presence and value |
| `IssueDefaults.ExplicitStatusKept` | tracker/detectors/issue_defaults.py:32 | a create with a non-`None` status is unchanged |
| `IssueDefaults.DefaultIsNew` | tracker/detectors/issue_defaults.py:32-42 | a create without a status gets the id of the row named "new", and is unchanged when there is no such row |
| `IssueDefaults.SeededDefault` | tracker/detectors/issue_defaults.py:32-36 | with the seeded rows that id is 1 |
| `IssueDefaults.Idempotent` | tracker/detectors/issue_defaults.py:32-36 | applying the hook twice is applying it once |
| `EmailStatusParser.RunLength` | tracker/detectors/email_status_parser.py:49 | the greedy `[a-z\-]*` run: all name characters, ended by the string's end or another character |
| `EmailStatusParser.MatchAtIff` | tracker/detectors/email_status_parser.py:49-50 | the matcher at an index agrees with the pattern read declaratively: `[status` in any case, `=` or `:`, a letter, letters or hyphens, `]` |
| `EmailStatusParser.Search` | tracker/detectors/email_status_parser.py:50 | `re.search` gives the capture of the leftmost match, and none when no index matches |
| `EmailStatusParser.ParseDirectiveMeans` | tracker/detectors/email_status_parser.py:49-55 | no directive is found iff none occurs; otherwise the result is the lower-cased capture of the leftmost one |
| `EmailStatusParser.DirectiveAnyCase` | tracker/detectors/email_status_parser.py:50 | the keyword matches in any case, after any prefix |
| `EmailStatusParser.IssueStore.Set` | tracker/detectors/email_status_parser.py:93 | `issue_class.set` runs the workflow guard, and stores the new status only if the guard accepts |
| `EmailStatusParser.AppliedClosedForm` | tracker/detectors/email_status_parser.py:89-110 | after the loop no issue appears or disappears, a listed issue whose move is legal is at the target, and every other issue keeps its status |
| `EmailStatusParser.ParseStatusFromSubject` | tracker/detectors/email_status_parser.py:35-110 | the issue statuses after the reactor are `Effect` of those before |
| `EmailStatusParser.EffectClosedForm` | tracker/detectors/email_status_parser.py:35-110 | an issue changes only when the message is new, its summary holds a directive naming an existing status, the issue is linked and the move is legal, and it then ends at that status |
| `EmailStatusParser.SeededInProgress` | tracker/detectors/email_status_parser.py:77-93 | a directive naming in-progress moves a new issue to in-progress |
| `EmailStatusParser.SeededClosedRefused` | tracker/detectors/email_status_parser.py:102-110 | a directive naming closed leaves a new issue new, because the workflow refusal is swallowed |
| `TemplateHelpers.StrLtTotal` | tracker/extensions/template_helpers.py:113 | Python's string `<` is a strict total order, with `StrLtIrreflexive` and `StrLtTransitive` |
| `TemplateHelpers.PrecedesOrder` | tracker/extensions/template_helpers.py:113 | the tuple order, reversed or not, is irreflexive, transitive and total up to equal keys |
| `TemplateHelpers.SortCorrect` | tracker/extensions/template_helpers.py:113 | the list sort returns a permutation of its input, in order |
| `TemplateHelpers.SortStable` | tracker/extensions/template_helpers.py:113 | entries with equal keys keep their input order, also with `reverse` |
| `TemplateHelpers.DigitsIffDecimal` | tracker/extensions/template_helpers.py:38 | an id parses as a number exactly when it is all decimal digits |
| `TemplateHelpers.KeyCases` | tracker/extensions/template_helpers.py:85-105 | a missing or empty value has key `"~"`, a mapped label its rank, any other text is lower-cased |
| `TemplateHelpers.SortCiIds` | tracker/extensions/template_helpers.py:25-116 | the method, its loop building the tuples, returns `SortResult` |
| `TemplateHelpers.FieldSortRaises` | tracker/extensions/template_helpers.py:98-113 | a sort on a field raises `TypeError` exactly when ranks and texts are both present |
| `TemplateHelpers.FieldSortPermutes` | tracker/extensions/template_helpers.py:53-116 | otherwise the result is a permutation of the CIs |
| `TemplateHelpers.FieldSortOrdered` | tracker/extensions/template_helpers.py:41-42 | in order of key and id, descending with a leading `-` |
| `TemplateHelpers.FieldSortStable` | tracker/extensions/template_helpers.py:113 | CIs with equal key and id keep their input order |
| `TemplateHelpers.FieldSortMissingLast` | tracker/extensions/template_helpers.py:98-99 | in ascending order a CI with a missing or empty value comes after every CI whose text key starts below `~` |
| `TemplateHelpers.NameKeyIgnoresCase` | tracker/extensions/template_helpers.py:100-101 | lower-casing a CI's name does not change its key |
| `TemplateHelpers.IdSortRaises` | tracker/extensions/template_helpers.py:36-46 | with no parameter, `id` or `-id`, the sort raises `ValueError` exactly when some id is not a number, and fails in no other way |
| `TemplateHelpers.IdSortPermutes` | tracker/extensions/template_helpers.py:36-46 | otherwise the result is a permutation of the CIs |
| `TemplateHelpers.IdSortOrdered` | tracker/extensions/template_helpers.py:36-46 | in order of numeric id, descending for `-id` |
| `TemplateHelpers.MissingCriticalityRaises` | tracker/extensions/template_helpers.py:98-113 | a CI at "High" and one with no criticality make the sort by criticality raise `TypeError` |
| `TemplateHelpers.TotalSortAgrees` | tracker/extensions/template_helpers.py:98-113 | the corrected sort never raises `TypeError` and agrees with the written one whenever that succeeds |
| `TemplateHelpers.TotalSortRanksFirst` | tracker/extensions/template_helpers.py:98-99 | in ascending order the corrected sort puts every ranked CI before every CI with a missing or unranked value |
| `TemplateHelpers.FilterCiIdsBySearch` | tracker/extensions/template_helpers.py:131-163 | the method, its loop appending each match, returns `FilterResult` |
| `TemplateHelpers.FilterMeans` | tracker/extensions/template_helpers.py:131-157 | no term or `""` keeps every CI in order; a term keeps exactly the CIs whose lower-cased name or location contains the lower-cased term, each as often as in the input |
| `TemplateHelpers.FilteredAppend` | tracker/extensions/template_helpers.py:137-158 | the filter preserves order: filtering a concatenation filters each part |
| `TemplateHelpers.FilterIgnoresTermCase` | tracker/extensions/template_helpers.py:134 | the term's case does not matter |
| `TemplateHelpers.NameHitKept` | tracker/extensions/template_helpers.py:141-158 | a CI whose name contains the term in any mix of case is kept |
| `Schema.OwnDetailsEditable` | tracker/schema.py:250-279 | the "User" role may edit a user property iff the record is the user's own and the property is one of the nine listed |
| `Schema.RolesNotSelfEditable` | tracker/schema.py:266-276 | no user may edit `roles`, not even their own |
| `Schema.UserViewable` | tracker/schema.py:240-261 | a user property is viewable iff the record is one's own or the property is public |
| `Schema.QueryViewable` | tracker/schema.py:285-302 | a query is viewable iff it is private for no one or private for the viewer |
| `Schema.QueryOwnerOnly` | tracker/schema.py:292-325 | only a query's creator may edit, retire or restore it |
| `Schema.QuerySearchAndCreateOpen` | tracker/schema.py:303-329 | every user may search and create queries |

## Left out

- Unicode: `lower()`, `strip()` and `re.IGNORECASE` are modelled on ASCII only; non-ASCII letters and whitespace are not covered.
- Logging: every `logger` call is left out. Logging does not change state.
- Hook registration: the `init()` functions and `tracker/interfaces.py` are left out. Only the hook each check runs on is kept.
- The Roundup database: it is abstracted into maps and sequences. Roundup's own permission engine is not part of this model. `Schema.Grants` reads a permission list in the usual way: some permission of the role matches the action, the class and the property, and its check passes.
- The class-wide permissions: the View, Edit and Create permissions at `tracker/schema.py:221-236`, and the anonymous and admin roles, are not modelled.
- `Schema.QueryViewable`: it requires the query to exist. A query view that raises inside `db.query.get` is not modelled.
- The rest of `tracker/schema.py`: the class declarations are not modelled.
- `tracker/initial_data.py`: it is used only as the table of status ids and names.
- The other tracker files: `tracker/extensions/ci_actions.py`, `tracker/extensions/cirelationship_actions.py`, the test harness and the BDD steps are not part of this model.
- `EmailStatusParser.ParseStatusFromSubject`: a failed read of the summary is the `None` case of its argument. An issue whose `set` raises for a reason other than the workflow guard (other auditors of `issue`, a database failure) is not modelled; the guard is the only reason a set fails.
- `EmailStatusParser.IssueStore.Set`: the auditors of `issue` other than the status workflow are not modelled. They leave the status alone.
- `TemplateHelpers.SortCiIds`: `int()` is modelled on non-empty decimal digits only. Python also accepts a sign, surrounding whitespace and underscores.
- `TemplateHelpers.SortCiIds`: a bare id string has no properties in the model. In Python, `getattr` on a string returns its methods for names such as `upper`.
- `TemplateHelpers.SortCiIds`: the `except (AttributeError, KeyError)` fallback key at `tracker/extensions/template_helpers.py:108-110` is not modelled. It needs an item whose attribute access raises.
- `TemplateHelpers.SortCiIds`: two CIs with equal key and equal id string would have Python compare the item objects themselves. The model keeps them in input order.
- `TemplateHelpers.SortCiIds`: the in-place `list.sort` is modelled as a stable insertion sort on a sequence.
- `TemplateHelpers.IdSortOrdered`: no stability lemma is stated for the id branches. It is stated for the field branch only.
- `TemplateHelpers.FilterCiIdsBySearch`: the `except Exception` skip is not modelled. The model has no property access that fails.
- `TemplateHelpers.FilterCiIdsBySearch`: an `HTMLProperty` is treated as truthy exactly when its text is non-empty.
- Integer width: none of the modelled code depends on it, and ranks and ids are unbounded integers.

## Findings

| source | as written | input that shows it | evidently intended | confidence | as-written member | corrected member |
|---|---|---|---|---|---|---|
| tracker/extensions/template_helpers.py:98-113 | a CI with a ranked label gets an `int` key, while a CI with a missing value gets the key `"~"`; `sort_tuples.sort` then compares `int` with `str` and raises `TypeError` | `sort_param="criticality"`, one CI at "High" and one CI without a criticality | the comment at line 99 says missing values sort last, so the sort should succeed and put the ranked CIs first | not executed | `TemplateHelpers.MissingCriticalityRaises` | `TemplateHelpers.TotalSortRanksFirst` |
