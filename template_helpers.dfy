/**
  tracker/extensions/template_helpers.py: the two helpers the CI list
  template calls, `sort_ci_ids` and `filter_ci_ids_by_search`.

  A CI is either a bare id string or an item wrapper holding its id and its
  properties. `sort_ci_ids` orders them by a numeric id or by a
  per-CI key built in a loop: a rank for the mapped labels of `criticality`,
  `status` and `type`, the lower-cased text otherwise, and `"~"` for a
  missing or empty value, with the id string as tie-break. The list sort
  is stable and honours `reverse`, and it raises `TypeError` when it has to
  compare a rank with a text.
*/
module TemplateHelpers {
  import opened Tracker

  /** A property of an item wrapper: one with `plain()`, or another value
      rendered by `str()`. */
  datatype Field = Prop(plain: string) | Other(text: string)

  /** A bare id string, or an item wrapper; a property missing from
      `fields` is what `getattr(..., None)` turns into `None`. */
  datatype CiItem = Bare(id: string) | Item(id: string, fields: map<string, Field>)

  /** The first component of a sort key: a rank (or a parsed id), or a
      text. */
  datatype SortKey = Num(n: int) | Text(s: string)

  /** One of the `(sort_key, ci_id)` tuples; `tie` is the id string of the
      key, `""` where the key is the id alone. */
  datatype Entry = Entry(key: SortKey, tie: string, item: CiItem)

  /** The exceptions the sort lets escape. */
  datatype SortError = ValueError | TypeError

  datatype Outcome = Ok(items: seq<CiItem>) | Fails(error: SortError)

  // ---------------------------------------------------------------------
  // Orders

  /** Python's `<` on two strings: by code point, a proper prefix first. */
  predicate StrLt(a: string, b: string)
  {
    if |a| == 0 then |b| > 0
    else if |b| == 0 then false
    else if a[0] != b[0] then a[0] < b[0]
    else StrLt(a[1..], b[1..])
  }

  lemma {:induction false} StrLtIrreflexive(a: string)
    ensures !StrLt(a, a)
  {
    if |a| > 0 {
      StrLtIrreflexive(a[1..]);
    }
  }

  lemma {:induction false} StrLtTransitive(a: string, b: string, c: string)
    requires StrLt(a, b) && StrLt(b, c)
    ensures StrLt(a, c)
  {
    if |a| > 0 && |b| > 0 && |c| > 0 && a[0] == b[0] && b[0] == c[0] {
      StrLtTransitive(a[1..], b[1..], c[1..]);
    }
  }

  lemma {:induction false} StrLtTotal(a: string, b: string)
    ensures a == b || StrLt(a, b) || StrLt(b, a)
  {
    if |a| > 0 && |b| > 0 && a[0] == b[0] {
      StrLtTotal(a[1..], b[1..]);
      if a[1..] == b[1..] {
        assert a == [a[0]] + a[1..] && b == [b[0]] + b[1..];
      }
    }
  }

  /** The order on keys of one kind; a rank is placed before any text so
      that the order is total (the as-written sort raises instead of
      comparing the two kinds). */
  predicate KeyLt(a: SortKey, b: SortKey)
  {
    match (a, b)
    case (Num(m), Num(n)) => m < n
    case (Num(_), Text(_)) => true
    case (Text(_), Num(_)) => false
    case (Text(s), Text(t)) => StrLt(s, t)
  }

  /** Two entries compare equal: same key and same tie-break. */
  predicate Same(a: Entry, b: Entry)
  {
    a.key == b.key && a.tie == b.tie
  }

  /** Tuple comparison: the key first, then the tie-break. */
  predicate Before(a: Entry, b: Entry)
  {
    KeyLt(a.key, b.key) || (a.key == b.key && StrLt(a.tie, b.tie))
  }

  /** `a` must come before `b` in the output: ascending, or with
      `reverse=True` descending. */
  predicate Precedes(a: Entry, b: Entry, desc: bool)
  {
    if desc then Before(b, a) else Before(a, b)
  }

  lemma BeforeIrreflexive(a: Entry)
    ensures !Before(a, a)
  {
    StrLtIrreflexive(a.tie);
    if a.key.Text? {
      StrLtIrreflexive(a.key.s);
    }
  }

  lemma BeforeTransitive(a: Entry, b: Entry, c: Entry)
    requires Before(a, b) && Before(b, c)
    ensures Before(a, c)
  {
    if a.key.Text? && b.key.Text? && c.key.Text? && StrLt(a.key.s, b.key.s) && StrLt(b.key.s, c.key.s) {
      StrLtTransitive(a.key.s, b.key.s, c.key.s);
    }
    if a.key == b.key && b.key == c.key && StrLt(a.tie, b.tie) && StrLt(b.tie, c.tie) {
      StrLtTransitive(a.tie, b.tie, c.tie);
    }
  }

  lemma BeforeTotal(a: Entry, b: Entry)
    ensures Same(a, b) || Before(a, b) || Before(b, a)
  {
    StrLtTotal(a.tie, b.tie);
    if a.key.Text? && b.key.Text? {
      StrLtTotal(a.key.s, b.key.s);
    }
  }

  /** `Precedes` is a strict order in both directions, and entries not
      ordered by it compare equal. */
  lemma PrecedesOrder(a: Entry, b: Entry, c: Entry, desc: bool)
    ensures !Precedes(a, a, desc)
    ensures Precedes(a, b, desc) && Precedes(b, c, desc) ==> Precedes(a, c, desc)
    ensures Same(a, b) || Precedes(a, b, desc) || Precedes(b, a, desc)
  {
    BeforeIrreflexive(a);
    BeforeTotal(a, b);
    if Precedes(a, b, desc) && Precedes(b, c, desc) {
      if desc { BeforeTransitive(c, b, a); } else { BeforeTransitive(a, b, c); }
    }
  }

  lemma PrecedesAsymmetric(a: Entry, b: Entry, desc: bool)
    requires Precedes(a, b, desc)
    ensures !Precedes(b, a, desc)
  {
    PrecedesOrder(a, b, a, desc);
  }

  // ---------------------------------------------------------------------
  // The stable sort

  /** Insert `x` after every entry that does not come strictly after it. */
  function Insert(x: Entry, s: seq<Entry>, desc: bool): seq<Entry>
  {
    if s == [] then [x]
    else if Precedes(x, s[0], desc) then [x] + s
    else [s[0]] + Insert(x, s[1..], desc)
  }

  /** `list.sort(reverse=desc)` on the tuples, as insertion from the front
      of the list: each entry goes after the equal ones before it. */
  function Sort(es: seq<Entry>, desc: bool): seq<Entry>
  {
    if es == [] then [] else Insert(es[|es| - 1], Sort(es[..|es| - 1], desc), desc)
  }

  /** No entry comes strictly before an entry to its left. */
  predicate Ordered(s: seq<Entry>, desc: bool)
  {
    forall i, j :: 0 <= i < j < |s| ==> !Precedes(s[j], s[i], desc)
  }

  lemma {:induction false} InsertPermutes(x: Entry, s: seq<Entry>, desc: bool)
    ensures multiset(Insert(x, s, desc)) == multiset(s) + multiset{x}
  {
    if s != [] && !Precedes(x, s[0], desc) {
      InsertPermutes(x, s[1..], desc);
      assert s == [s[0]] + s[1..];
      calc {
        multiset(Insert(x, s, desc));
        multiset([s[0]] + Insert(x, s[1..], desc));
        multiset([s[0]]) + multiset(Insert(x, s[1..], desc));
        multiset([s[0]]) + multiset(s[1..]) + multiset{x};
      }
    }
  }

  /** `x` placed in front of an ordered list it precedes keeps it ordered. */
  lemma ConsOrdered(x: Entry, s: seq<Entry>, desc: bool)
    requires Ordered(s, desc) && s != [] && Precedes(x, s[0], desc)
    ensures Ordered([x] + s, desc)
  {
    forall j | 0 <= j < |s|
      ensures !Precedes(s[j], x, desc)
    {
      PrecedesAsymmetric(x, s[0], desc);
      if j > 0 && Precedes(s[j], x, desc) {
        PrecedesOrder(s[j], x, s[0], desc);
      }
    }
    var r := [x] + s;
    assert forall j :: 1 <= j < |r| ==> r[j] == s[j - 1];
  }

  /** `y` placed in front of an ordered list none of whose entries precedes
      it keeps it ordered. */
  lemma ConsAfterOrdered(y: Entry, t: seq<Entry>, desc: bool)
    requires Ordered(t, desc) && forall z :: z in t ==> !Precedes(z, y, desc)
    ensures Ordered([y] + t, desc)
  {
    var r := [y] + t;
    assert forall j :: 1 <= j < |r| ==> r[j] == t[j - 1];
  }

  lemma {:induction false} InsertOrdered(x: Entry, s: seq<Entry>, desc: bool)
    requires Ordered(s, desc)
    ensures Ordered(Insert(x, s, desc), desc)
  {
    if s == [] {
    } else if Precedes(x, s[0], desc) {
      ConsOrdered(x, s, desc);
    } else {
      var t := Insert(x, s[1..], desc);
      InsertOrdered(x, s[1..], desc);
      InsertPermutes(x, s[1..], desc);
      forall y | y in t
        ensures !Precedes(y, s[0], desc)
      {
        assert y in multiset(t);
        if y != x {
          assert y in multiset(s[1..]);
          var j :| 0 <= j < |s[1..]| && s[1..][j] == y;
          assert s[j + 1] == y;
        }
      }
      ConsAfterOrdered(s[0], t, desc);
    }
  }

  /** The sort returns the entries it was given, in order. */
  lemma SortCorrect(es: seq<Entry>, desc: bool)
    ensures multiset(Sort(es, desc)) == multiset(es)
    ensures Ordered(Sort(es, desc), desc)
  {
    SortPermutes(es, desc);
    SortOrdered(es, desc);
  }

  lemma {:induction false} SortPermutes(es: seq<Entry>, desc: bool)
    ensures multiset(Sort(es, desc)) == multiset(es)
  {
    if es != [] {
      var front, last := es[..|es| - 1], es[|es| - 1];
      SortPermutes(front, desc);
      InsertPermutes(last, Sort(front, desc), desc);
      assert es == front + [last];
    }
  }

  lemma {:induction false} SortOrdered(es: seq<Entry>, desc: bool)
    ensures Ordered(Sort(es, desc), desc)
  {
    if es != [] {
      SortOrdered(es[..|es| - 1], desc);
      InsertOrdered(es[|es| - 1], Sort(es[..|es| - 1], desc), desc);
    }
  }

  /** The entries that compare equal to `a`, in list order. */
  function Pick(s: seq<Entry>, a: Entry): seq<Entry>
  {
    if s == [] then []
    else (if Same(s[0], a) then [s[0]] else []) + Pick(s[1..], a)
  }

  lemma {:induction false} PickAppend(s: seq<Entry>, t: seq<Entry>, a: Entry)
    ensures Pick(s + t, a) == Pick(s, a) + Pick(t, a)
  {
    if s != [] {
      assert (s + t)[1..] == s[1..] + t;
      PickAppend(s[1..], t, a);
      var head := if Same(s[0], a) then [s[0]] else [];
      calc {
        Pick(s + t, a);
        head + Pick(s[1..] + t, a);
        head + (Pick(s[1..], a) + Pick(t, a));
        (head + Pick(s[1..], a)) + Pick(t, a);
      }
    } else {
      assert s + t == t;
    }
  }

  lemma {:induction false} PickNone(s: seq<Entry>, a: Entry)
    requires forall i :: 0 <= i < |s| ==> !Same(s[i], a)
    ensures Pick(s, a) == []
  {
    if s != [] {
      PickNone(s[1..], a);
    }
  }

  lemma {:induction false} InsertPick(x: Entry, s: seq<Entry>, desc: bool, a: Entry)
    requires Ordered(s, desc)
    ensures Pick(Insert(x, s, desc), a) == Pick(s, a) + Pick([x], a)
  {
    if s == [] {
      assert Pick([x], a) == (if Same(x, a) then [x] else []) + Pick([], a);
    } else if Precedes(x, s[0], desc) {
      InsertPickFront(x, s, desc, a);
    } else {
      assert Ordered(s[1..], desc);
      InsertPick(x, s[1..], desc, a);
      InsertPickLater(x, s, desc, a);
    }
  }

  lemma InsertPickFront(x: Entry, s: seq<Entry>, desc: bool, a: Entry)
    requires Ordered(s, desc) && s != [] && Precedes(x, s[0], desc)
    ensures Pick(Insert(x, s, desc), a) == Pick(s, a) + Pick([x], a)
  {
    assert Pick([x], a) == (if Same(x, a) then [x] else []) + Pick([], a);
    assert ([x] + s)[1..] == s;
    if Same(x, a) {
      PrecededNotSame(x, s, desc, a);
      PickNone(s, a);
    }
  }

  lemma InsertPickLater(x: Entry, s: seq<Entry>, desc: bool, a: Entry)
    requires s != [] && !Precedes(x, s[0], desc)
    requires Pick(Insert(x, s[1..], desc), a) == Pick(s[1..], a) + Pick([x], a)
    ensures Pick(Insert(x, s, desc), a) == Pick(s, a) + Pick([x], a)
  {
    var head := if Same(s[0], a) then [s[0]] else [];
    var rest := Insert(x, s[1..], desc);
    assert ([s[0]] + rest)[1..] == rest;
    calc {
      Pick(Insert(x, s, desc), a);
      head + Pick(rest, a);
      head + (Pick(s[1..], a) + Pick([x], a));
      (head + Pick(s[1..], a)) + Pick([x], a);
      Pick(s, a) + Pick([x], a);
    }
  }

  /** When `x` is inserted in front of an ordered list, no entry of the list
      compares equal to it. */
  lemma PrecededNotSame(x: Entry, s: seq<Entry>, desc: bool, a: Entry)
    requires Ordered(s, desc) && s != [] && Precedes(x, s[0], desc) && Same(x, a)
    ensures forall i :: 0 <= i < |s| ==> !Same(s[i], a)
  {
    forall i | 0 <= i < |s|
      ensures !Same(s[i], a)
    {
      if i > 0 {
        PrecedesOrder(s[i], s[0], x, desc);
        PrecedesOrder(s[0], s[i], x, desc);
      }
      PrecedesOrder(x, s[0], s[i], desc);
      PrecedesAsymmetric(x, s[0], desc);
    }
  }

  /** Stability: entries that compare equal keep their input order. */
  lemma {:induction false} SortStable(es: seq<Entry>, desc: bool, a: Entry)
    ensures Pick(Sort(es, desc), a) == Pick(es, a)
  {
    if es != [] {
      var front, last := es[..|es| - 1], es[|es| - 1];
      SortStable(front, desc, a);
      SortCorrect(front, desc);
      InsertPick(last, Sort(front, desc), desc, a);
      assert es == front + [last];
      PickAppend(front, [last], a);
    }
  }

  // ---------------------------------------------------------------------
  // Sort keys

  /** `int(s)` on an id made of decimal digits; anything else raises
      `ValueError`. */
  function ParseInt(s: string): Option<nat>
  {
    if s == [] then None else Digits(s)
  }

  function Digits(s: string): Option<nat>
  {
    if s == [] then Some(0)
    else if !('0' <= s[|s| - 1] <= '9') then None
    else match Digits(s[..|s| - 1])
      case None => None
      case Some(n) => Some(10 * n + (s[|s| - 1] as int - '0' as int))
  }

  lemma {:induction false} DigitsIffDecimal(s: string)
    ensures Digits(s).Some? <==> forall i :: 0 <= i < |s| ==> '0' <= s[i] <= '9'
  {
    if s != [] {
      DigitsIffDecimal(s[..|s| - 1]);
      assert forall i :: 0 <= i < |s| - 1 ==> s[..|s| - 1][i] == s[i];
    }
  }

  /** The key of the id branches, `int(get_id_str(x))`. */
  function IdEntry(item: CiItem): Option<Entry>
  {
    match ParseInt(item.id)
    case None => None
    case Some(n) => Some(Entry(Num(n), "", item))
  }

  /** The keys of the whole list; `None` when one id does not parse. */
  function IdEntries(items: seq<CiItem>): Option<seq<Entry>>
  {
    if items == [] then Some([])
    else match (IdEntries(items[..|items| - 1]), IdEntry(items[|items| - 1]))
      case (Some(es), Some(e)) => Some(es + [e])
      case _ => None
  }

  /** `order_mappings`: the ranks of the labels of the three ordered
      fields. */
  const OrderMappings: map<string, map<string, int>> := map[
    "criticality" := map["Very Low" := 1, "Low" := 2, "Medium" := 3, "High" := 4, "Very High" := 5],
    "status" := map["Planning" := 1, "Ordered" := 2, "In Stock" := 3, "Deployed" := 4,
                    "Active" := 5, "Maintenance" := 6, "Retired" := 7],
    "type" := map["Server" := 1, "Network Device" := 2, "Storage" := 3, "Software" := 4,
                  "Service" := 5, "Virtual Machine" := 6]
  ]

  /** `getattr(ci_id, field_name, None)`. */
  function FieldOf(item: CiItem, field: string): Option<Field>
  {
    match item
    case Bare(_) => None
    case Item(_, fields) => if field in fields then Some(fields[field]) else None
  }

  /** The rank of a label of a mapped field, if it has one. */
  function Rank(field: string, name: string): Option<int>
  {
    if field in OrderMappings && name in OrderMappings[field] then Some(OrderMappings[field][name])
    else None
  }

  /** The `(sort_key, ci_id)` tuple of one CI for field `field`. */
  function KeyOf(item: CiItem, field: string): (e: Entry)
    ensures e.item == item && e.tie == item.id
  {
    var text :=
      match FieldOf(item, field)
      case None => ""
      case Some(Other(t)) => t
      case Some(Prop(p)) => p;
    if FieldOf(item, field).Some? && FieldOf(item, field).value.Prop? && Rank(field, text).Some? then
      Entry(Num(Rank(field, text).value), item.id, item)
    else if text == "" then Entry(Text("~"), item.id, item)
    else Entry(Text(Lower(text)), item.id, item)
  }

  /** The tuples the loop builds, one per CI in list order. */
  function FieldEntries(items: seq<CiItem>, field: string): (es: seq<Entry>)
    ensures |es| == |items|
  {
    if items == [] then []
    else FieldEntries(items[..|items| - 1], field) + [KeyOf(items[|items| - 1], field)]
  }

  /** Both kinds of key occur, so the sort has to compare a rank with a
      text somewhere. */
  predicate Mixed(es: seq<Entry>)
  {
    (exists i :: 0 <= i < |es| && es[i].key.Num?) && (exists j :: 0 <= j < |es| && es[j].key.Text?)
  }

  /** The CIs of the sorted tuples, `[ci_id for _, ci_id in sort_tuples]`. */
  function ItemsOf(es: seq<Entry>): (r: seq<CiItem>)
    ensures |r| == |es|
  {
    if es == [] then [] else [es[0].item] + ItemsOf(es[1..])
  }

  lemma {:induction false} ItemsOfIndex(es: seq<Entry>)
    ensures forall i :: 0 <= i < |es| ==> ItemsOf(es)[i] == es[i].item
  {
    if es != [] {
      ItemsOfIndex(es[1..]);
    }
  }

  /** Whether the parameter asks for descending order, and the field it
      names. */
  function Descending(sortParam: string): bool
  {
    |sortParam| > 0 && sortParam[0] == '-'
  }

  function FieldName(sortParam: string): string
  {
    if Descending(sortParam) then sortParam[1..] else sortParam
  }

  /** What `sort_ci_ids(db, ci_ids, sort_param)` returns or raises. */
  function SortResult(items: seq<CiItem>, sortParam: Option<string>): Outcome
  {
    if items == [] then Ok([])
    else if sortParam.None? || sortParam.value == "" then
      match IdEntries(items)
      case None => Fails(ValueError)
      case Some(es) => Ok(ItemsOf(Sort(es, false)))
    else if FieldName(sortParam.value) == "id" then
      match IdEntries(items)
      case None => Fails(ValueError)
      case Some(es) => Ok(ItemsOf(Sort(es, Descending(sortParam.value))))
    else
      var es := FieldEntries(items, FieldName(sortParam.value));
      if Mixed(es) then Fails(TypeError) else Ok(ItemsOf(Sort(es, Descending(sortParam.value))))
  }

  /** `sort_ci_ids`: the id branches sort on the parsed id; the field
      branch builds its tuples in a loop and sorts them. */
  method SortCiIds(items: seq<CiItem>, sortParam: Option<string>) returns (r: Outcome)
    ensures r == SortResult(items, sortParam)
  {
    if items == [] {
      return Ok([]);
    }
    if sortParam.None? || sortParam.value == "" || FieldName(sortParam.value) == "id" {
      var desc := sortParam.Some? && sortParam.value != "" && Descending(sortParam.value);
      var keys := IdEntries(items);
      if keys.None? {
        return Fails(ValueError);
      }
      return Ok(ItemsOf(Sort(keys.value, desc)));
    }
    var desc := Descending(sortParam.value);
    var field := FieldName(sortParam.value);
    var tuples: seq<Entry> := [];
    var k := 0;
    while k < |items|
      invariant 0 <= k <= |items|
      invariant tuples == FieldEntries(items[..k], field)
    {
      assert items[..k + 1][..k] == items[..k];
      tuples := tuples + [KeyOf(items[k], field)];
      k := k + 1;
    }
    assert items[..k] == items;
    if Mixed(tuples) {
      return Fails(TypeError);
    }
    return Ok(ItemsOf(Sort(tuples, desc)));
  }

  // ---------------------------------------------------------------------
  // What the sort promises

  lemma {:induction false} FieldEntriesKeyed(items: seq<CiItem>, field: string)
    ensures forall i :: 0 <= i < |items| ==> FieldEntries(items, field)[i] == KeyOf(items[i], field)
  {
    if items != [] {
      FieldEntriesKeyed(items[..|items| - 1], field);
    }
  }

  lemma {:induction false} IdEntriesKeyed(items: seq<CiItem>)
    ensures IdEntries(items).Some? <==> forall i :: 0 <= i < |items| ==> IdEntry(items[i]).Some?
    ensures IdEntries(items).Some? ==>
              |IdEntries(items).value| == |items| &&
              forall i :: 0 <= i < |items| ==> IdEntries(items).value[i] == IdEntry(items[i]).value
  {
    if items != [] {
      IdEntriesKeyed(items[..|items| - 1]);
    }
  }

  lemma {:induction false} InsertItems(x: Entry, s: seq<Entry>, desc: bool)
    ensures multiset(ItemsOf(Insert(x, s, desc))) == multiset(ItemsOf(s)) + multiset{x.item}
  {
    if s != [] && !Precedes(x, s[0], desc) {
      InsertItems(x, s[1..], desc);
      calc {
        multiset(ItemsOf(Insert(x, s, desc)));
        multiset([s[0].item] + ItemsOf(Insert(x, s[1..], desc)));
        multiset([s[0].item]) + multiset(ItemsOf(Insert(x, s[1..], desc)));
        multiset([s[0].item]) + multiset(ItemsOf(s[1..])) + multiset{x.item};
        multiset([s[0].item] + ItemsOf(s[1..])) + multiset{x.item};
      }
    }
  }

  lemma {:induction false} ItemsOfAppend(s: seq<Entry>, t: seq<Entry>)
    ensures ItemsOf(s + t) == ItemsOf(s) + ItemsOf(t)
  {
    if s != [] {
      assert (s + t)[1..] == s[1..] + t;
      ItemsOfAppend(s[1..], t);
      calc {
        ItemsOf(s + t);
        [s[0].item] + ItemsOf(s[1..] + t);
        [s[0].item] + (ItemsOf(s[1..]) + ItemsOf(t));
        ([s[0].item] + ItemsOf(s[1..])) + ItemsOf(t);
      }
    } else {
      assert s + t == t;
    }
  }

  lemma ItemsOfSnoc(s: seq<Entry>, e: Entry)
    ensures ItemsOf(s + [e]) == ItemsOf(s) + [e.item]
  {
    ItemsOfAppend(s, [e]);
    assert ItemsOf([e]) == [e.item] + ItemsOf([]);
  }

  lemma ItemsOfFront(es: seq<Entry>)
    requires es != []
    ensures ItemsOf(es) == ItemsOf(es[..|es| - 1]) + [es[|es| - 1].item]
  {
    assert es == es[..|es| - 1] + [es[|es| - 1]];
    ItemsOfSnoc(es[..|es| - 1], es[|es| - 1]);
  }

  /** The sorted entries carry the items they were given. */
  lemma {:induction false} SortItems(es: seq<Entry>, desc: bool)
    ensures multiset(ItemsOf(Sort(es, desc))) == multiset(ItemsOf(es))
  {
    if es != [] {
      var front, last := es[..|es| - 1], es[|es| - 1];
      SortItems(front, desc);
      InsertItems(last, Sort(front, desc), desc);
      ItemsOfFront(es);
      calc {
        multiset(ItemsOf(Sort(es, desc)));
        multiset(ItemsOf(Insert(last, Sort(front, desc), desc)));
        multiset(ItemsOf(Sort(front, desc))) + multiset{last.item};
        multiset(ItemsOf(front)) + multiset{last.item};
        multiset(ItemsOf(front) + [last.item]);
      }
    }
  }

  /** Every entry of a keyed list is the key of its own item, before and
      after the sort. */
  predicate KeyedBy(es: seq<Entry>, field: string)
  {
    forall i :: 0 <= i < |es| ==> es[i] == KeyOf(es[i].item, field)
  }

  lemma SortKeepsKeyed(es: seq<Entry>, desc: bool, field: string)
    requires KeyedBy(es, field)
    ensures KeyedBy(Sort(es, desc), field)
  {
    SortCorrect(es, desc);
    var s := Sort(es, desc);
    forall i | 0 <= i < |s|
      ensures s[i] == KeyOf(s[i].item, field)
    {
      assert s[i] in multiset(es);
    }
  }

  /** The id key of every CI that has one, before and after the sort. */
  predicate IdKeyed(es: seq<Entry>)
  {
    forall i :: 0 <= i < |es| ==> IdEntry(es[i].item) == Some(es[i])
  }

  lemma SortKeepsIdKeyed(es: seq<Entry>, desc: bool)
    requires IdKeyed(es)
    ensures IdKeyed(Sort(es, desc))
  {
    SortCorrect(es, desc);
    var s := Sort(es, desc);
    forall i | 0 <= i < |s|
      ensures IdEntry(s[i].item) == Some(s[i])
    {
      assert s[i] in multiset(es);
    }
  }

  /** The CIs whose key compares equal to `k`, in list order. */
  function WithKey(items: seq<CiItem>, field: string, k: Entry): seq<CiItem>
  {
    if items == [] then []
    else (if Same(KeyOf(items[0], field), k) then [items[0]] else []) + WithKey(items[1..], field, k)
  }

  lemma {:induction false} WithKeyPick(es: seq<Entry>, field: string, k: Entry)
    requires KeyedBy(es, field)
    ensures WithKey(ItemsOf(es), field, k) == ItemsOf(Pick(es, k))
  {
    if es != [] {
      WithKeyPick(es[1..], field, k);
      assert ItemsOf(es)[1..] == ItemsOf(es[1..]);
      var head := if Same(es[0], k) then [es[0]] else [];
      ItemsOfAppend(head, Pick(es[1..], k));
    }
  }

  /** The tuples of a field sort, keyed by their own CIs. */
  lemma FieldEntriesAreKeyed(items: seq<CiItem>, field: string)
    ensures KeyedBy(FieldEntries(items, field), field)
    ensures ItemsOf(FieldEntries(items, field)) == items
  {
    var es := FieldEntries(items, field);
    FieldEntriesKeyed(items, field);
    ItemsOfIndex(es);
  }

  /** A sort on a field raises `TypeError` exactly when some CI has a rank
      and another a text. */
  lemma FieldSortRaises(items: seq<CiItem>, sortParam: string)
    requires items != [] && sortParam != "" && FieldName(sortParam) != "id"
    ensures SortResult(items, Some(sortParam)) == Fails(TypeError) <==>
              (exists i :: 0 <= i < |items| && KeyOf(items[i], FieldName(sortParam)).key.Num?) &&
              (exists j :: 0 <= j < |items| && KeyOf(items[j], FieldName(sortParam)).key.Text?)
  {
    FieldEntriesKeyed(items, FieldName(sortParam));
  }

  /** Otherwise the CIs come out as a permutation of the input, ... */
  lemma FieldSortPermutes(items: seq<CiItem>, sortParam: string)
    requires items != [] && sortParam != "" && FieldName(sortParam) != "id"
    ensures SortResult(items, Some(sortParam)).Ok? ==>
              multiset(SortResult(items, Some(sortParam)).items) == multiset(items)
  {
    var es := FieldEntries(items, FieldName(sortParam));
    FieldEntriesAreKeyed(items, FieldName(sortParam));
    SortItems(es, Descending(sortParam));
  }

  /** ... ordered by key, descending with a leading '-', ... */
  lemma FieldSortOrdered(items: seq<CiItem>, sortParam: string)
    requires items != [] && sortParam != "" && FieldName(sortParam) != "id"
    ensures var r := SortResult(items, Some(sortParam));
            r.Ok? ==> KeysInOrder(r.items, FieldName(sortParam), Descending(sortParam))
  {
    var field, desc := FieldName(sortParam), Descending(sortParam);
    var es := FieldEntries(items, field);
    FieldEntriesAreKeyed(items, field);
    var s := Sort(es, desc);
    SortOrdered(es, desc);
    SortKeepsKeyed(es, desc, field);
    OrderedKeys(s, field, desc);
    assert !Mixed(es) ==> SortResult(items, Some(sortParam)) == Ok(ItemsOf(s));
  }

  /** No CI's key comes strictly before the key of a CI to its left. */
  predicate KeysInOrder(r: seq<CiItem>, field: string, desc: bool)
  {
    forall i, j :: 0 <= i < j < |r| ==> !Precedes(KeyOf(r[j], field), KeyOf(r[i], field), desc)
  }

  lemma OrderedKeys(s: seq<Entry>, field: string, desc: bool)
    requires KeyedBy(s, field) && Ordered(s, desc)
    ensures KeysInOrder(ItemsOf(s), field, desc)
  {
    ItemsOfIndex(s);
  }

  /** ... and CIs with equal keys in input order. */
  lemma FieldSortStable(items: seq<CiItem>, sortParam: string, k: Entry)
    requires items != [] && sortParam != "" && FieldName(sortParam) != "id"
    ensures var r, field := SortResult(items, Some(sortParam)), FieldName(sortParam);
            r.Ok? ==> WithKey(r.items, field, k) == WithKey(items, field, k)
  {
    var field, desc := FieldName(sortParam), Descending(sortParam);
    var es := FieldEntries(items, field);
    FieldEntriesAreKeyed(items, field);
    var s := Sort(es, desc);
    SortStable(es, desc, k);
    SortKeepsKeyed(es, desc, field);
    WithKeyPick(s, field, k);
    WithKeyPick(es, field, k);
  }

  /** The id branches (no parameter, "id", "-id"): `ValueError` exactly
      when some id is not a decimal number, ... */
  lemma IdSortRaises(items: seq<CiItem>, sortParam: Option<string>)
    requires items != []
    requires sortParam.None? || sortParam.value == "" || FieldName(sortParam.value) == "id"
    ensures SortResult(items, sortParam) == Fails(ValueError) <==>
              exists i :: 0 <= i < |items| && ParseInt(items[i].id).None?
    ensures SortResult(items, sortParam).Ok? || SortResult(items, sortParam) == Fails(ValueError)
  {
    IdEntriesKeyed(items);
  }

  /** ... otherwise a permutation of the input ... */
  lemma IdSortPermutes(items: seq<CiItem>, sortParam: Option<string>)
    requires items != []
    requires sortParam.None? || sortParam.value == "" || FieldName(sortParam.value) == "id"
    ensures SortResult(items, sortParam).Ok? ==> multiset(SortResult(items, sortParam).items) == multiset(items)
  {
    IdEntriesKeyed(items);
    if IdEntries(items).Some? {
      var es := IdEntries(items).value;
      SortItems(es, sortParam.Some? && sortParam.value != "" && Descending(sortParam.value));
      ItemsOfIndex(es);
      assert ItemsOf(es) == items;
    }
  }

  /** ... ordered by the number, descending for "-id". */
  lemma IdSortOrdered(items: seq<CiItem>, sortParam: Option<string>)
    requires items != []
    requires sortParam.None? || sortParam.value == "" || FieldName(sortParam.value) == "id"
    ensures var r := SortResult(items, sortParam);
            r.Ok? ==> IdsInOrder(r.items, sortParam.Some? && sortParam.value != "" && Descending(sortParam.value))
  {
    var desc := sortParam.Some? && sortParam.value != "" && Descending(sortParam.value);
    IdEntriesKeyed(items);
    if IdEntries(items).Some? {
      var es := IdEntries(items).value;
      var s := Sort(es, desc);
      SortCorrect(es, desc);
      SortKeepsIdKeyed(es, desc);
      assert SortResult(items, sortParam) == Ok(ItemsOf(s));
      OrderedIds(s, desc);
    }
  }

  /** Every id is a number, and the numbers never decrease (never
      increase when `desc`). */
  predicate IdsInOrder(r: seq<CiItem>, desc: bool)
  {
    forall i, j :: 0 <= i < j < |r| ==>
      && ParseInt(r[i].id).Some? && ParseInt(r[j].id).Some?
      && if desc then ParseInt(r[i].id).value >= ParseInt(r[j].id).value
         else ParseInt(r[i].id).value <= ParseInt(r[j].id).value
  }

  lemma OrderedIds(s: seq<Entry>, desc: bool)
    requires IdKeyed(s) && Ordered(s, desc)
    ensures IdsInOrder(ItemsOf(s), desc)
  {
    ItemsOfIndex(s);
    var r := ItemsOf(s);
    forall i, j | 0 <= i < j < |r|
      ensures ParseInt(r[i].id).Some? && ParseInt(r[j].id).Some?
      ensures if desc then ParseInt(r[i].id).value >= ParseInt(r[j].id).value
              else ParseInt(r[i].id).value <= ParseInt(r[j].id).value
    {
      assert IdEntry(r[i]) == Some(s[i]) && IdEntry(r[j]) == Some(s[j]);
      assert !Precedes(s[j], s[i], desc);
    }
  }

  /** A text key starting below `'~'`, as every lower-cased ASCII letter
      and digit does. */
  predicate BelowTilde(t: string)
  {
    |t| > 0 && t[0] < '~'
  }

  lemma TildeAfter(b: Entry, a: Entry)
    ensures a.key == Text("~") && b.key.Text? && BelowTilde(b.key.s) ==> Before(b, a)
  {
  }

  /** In an ascending sort on a field, a CI with a missing or empty value
      comes after every CI whose text key starts below `'~'`. */
  lemma FieldSortMissingLast(items: seq<CiItem>, field: string)
    requires items != [] && field != "" && field[0] != '-' && field != "id"
    ensures var r := SortResult(items, Some(field));
            r.Ok? ==>
              forall i, j :: 0 <= i < j < |r.items| ==>
                !(KeyOf(r.items[i], field).key == Text("~") &&
                  KeyOf(r.items[j], field).key.Text? && BelowTilde(KeyOf(r.items[j], field).key.s))
  {
    FieldSortOrdered(items, field);
    assert FieldName(field) == field && !Descending(field);
    var r := SortResult(items, Some(field));
    if r.Ok? {
      forall i, j | 0 <= i < j < |r.items|
        ensures !(KeyOf(r.items[i], field).key == Text("~") &&
                  KeyOf(r.items[j], field).key.Text? && BelowTilde(KeyOf(r.items[j], field).key.s))
      {
        TildeAfter(KeyOf(r.items[j], field), KeyOf(r.items[i], field));
      }
    }
  }

  /** Which CI keys are what: a missing or empty value is `"~"`, a mapped
      label its rank, any other text lower-cased; the tie-break is the id. */
  lemma KeyCases(item: CiItem, field: string)
    ensures FieldOf(item, field).None? ==> KeyOf(item, field).key == Text("~")
    ensures FieldOf(item, field).Some? && FieldOf(item, field).value.Prop? &&
            Rank(field, FieldOf(item, field).value.plain).Some? ==>
              KeyOf(item, field).key == Num(Rank(field, FieldOf(item, field).value.plain).value)
    ensures KeyOf(item, field).key.Num? ==> field in OrderMappings
    ensures KeyOf(item, field).key.Text? ==>
              forall i :: 0 <= i < |KeyOf(item, field).key.s| ==> !IsUpper(KeyOf(item, field).key.s[i])
  {
  }

  /** The key of a plain property of a field without ranks. */
  lemma UnrankedKey(item: CiItem, field: string, p: string)
    requires field !in OrderMappings && FieldOf(item, field) == Some(Prop(p))
    ensures KeyOf(item, field).key == if p == "" then Text("~") else Text(Lower(p))
  {
  }

  /** Sorting by name ignores case: a CI keeps its key when its name is
      lower-cased. */
  lemma NameKeyIgnoresCase(id: string, fields: map<string, Field>, name: string)
    ensures Same(KeyOf(Item(id, fields["name" := Prop(name)]), "name"),
                 KeyOf(Item(id, fields["name" := Prop(Lower(name))]), "name"))
  {
    LowerIdempotent(name);
    assert "name" !in OrderMappings;
    UnrankedKey(Item(id, fields["name" := Prop(name)]), "name", name);
    UnrankedKey(Item(id, fields["name" := Prop(Lower(name))]), "name", Lower(name));
    assert |Lower(name)| == |name|;
  }

  /** A CI without a criticality next to one with a ranked criticality
      makes the sort by criticality raise `TypeError`, although a missing
      value is meant to sort last. */
  lemma MissingCriticalityRaises(a: CiItem, b: CiItem)
    requires a == Item("1", map["criticality" := Prop("High")]) && b == Item("2", map[])
    ensures SortResult([a, b], Some("criticality")) == Fails(TypeError)
  {
    var es := FieldEntries([a, b], "criticality");
    FieldEntriesKeyed([a, b], "criticality");
    assert es[0].key.Num? && es[1].key.Text?;
  }

  /** The sort as evidently intended: ranks and texts compare by `KeyLt`
      (ranks first), so no `TypeError`; otherwise as `SortResult`. */
  function TotalSortResult(items: seq<CiItem>, sortParam: Option<string>): Outcome
  {
    if items == [] || sortParam.None? || sortParam.value == "" || FieldName(sortParam.value) == "id" then
      SortResult(items, sortParam)
    else
      Ok(ItemsOf(Sort(FieldEntries(items, FieldName(sortParam.value)), Descending(sortParam.value))))
  }

  /** The total sort never raises `TypeError`, and agrees with the
      written one whenever that does not raise. */
  lemma TotalSortAgrees(items: seq<CiItem>, sortParam: Option<string>)
    ensures TotalSortResult(items, sortParam) != Fails(TypeError)
    ensures SortResult(items, sortParam).Ok? ==> TotalSortResult(items, sortParam) == SortResult(items, sortParam)
  {
  }

  /** In ascending order the total sort puts every ranked CI before every
      CI whose value is missing or unranked. */
  lemma TotalSortRanksFirst(items: seq<CiItem>, field: string)
    requires items != [] && field != "" && field[0] != '-' && field != "id"
    ensures TotalSortResult(items, Some(field)).Ok?
    ensures var r := TotalSortResult(items, Some(field)).items;
            forall i, j :: 0 <= i < j < |r| ==> !(KeyOf(r[i], field).key.Text? && KeyOf(r[j], field).key.Num?)
  {
    var es := FieldEntries(items, field);
    FieldEntriesAreKeyed(items, field);
    var s := Sort(es, false);
    SortCorrect(es, false);
    SortKeepsKeyed(es, false, field);
    ItemsOfIndex(s);
    var r := ItemsOf(s);
    assert TotalSortResult(items, Some(field)) == Ok(r);
    forall i, j | 0 <= i < j < |r|
      ensures !(KeyOf(r[i], field).key.Text? && KeyOf(r[j], field).key.Num?)
    {
      assert KeyOf(r[i], field) == s[i] && KeyOf(r[j], field) == s[j];
      assert !Before(s[j], s[i]);
    }
  }

  // ---------------------------------------------------------------------
  // Filtering

  /** Python's `needle in hay` on strings. */
  predicate Contains(hay: string, needle: string)
  {
    exists i :: 0 <= i <= |hay| && OccursAt(hay, needle, i)
  }

  predicate OccursAt(hay: string, needle: string, i: int)
  {
    0 <= i && i + |needle| <= |hay| && hay[i..i + |needle|] == needle
  }

  /** The lower-cased name or location of a CI, `""` when it has none. */
  function TextOf(item: CiItem, field: string): string
  {
    match FieldOf(item, field)
    case None => ""
    case Some(Prop(p)) => Lower(p)
    case Some(Other(t)) => Lower(t)
  }

  /** The lower-cased term occurs in the lower-cased name or location. */
  predicate Matches(item: CiItem, needle: string)
  {
    Contains(TextOf(item, "name"), needle) || Contains(TextOf(item, "location"), needle)
  }

  /** The CIs that match, in list order. */
  function Filtered(items: seq<CiItem>, needle: string): seq<CiItem>
  {
    if items == [] then []
    else Filtered(items[..|items| - 1], needle) +
         (if Matches(items[|items| - 1], needle) then [items[|items| - 1]] else [])
  }

  /** What `filter_ci_ids_by_search(db, ci_ids, search_term)` returns. */
  function FilterResult(items: seq<CiItem>, searchTerm: Option<string>): seq<CiItem>
  {
    if searchTerm.None? || searchTerm.value == "" then items
    else Filtered(items, Lower(searchTerm.value))
  }

  /** `filter_ci_ids_by_search`, its loop appending each match. */
  method FilterCiIdsBySearch(items: seq<CiItem>, searchTerm: Option<string>) returns (result: seq<CiItem>)
    ensures result == FilterResult(items, searchTerm)
  {
    if searchTerm.None? || searchTerm.value == "" {
      return items;
    }
    var needle := Lower(searchTerm.value);
    result := [];
    var k := 0;
    while k < |items|
      invariant 0 <= k <= |items|
      invariant result == Filtered(items[..k], needle)
    {
      assert items[..k + 1][..k] == items[..k];
      if Matches(items[k], needle) {
        result := result + [items[k]];
      }
      k := k + 1;
    }
    assert items[..k] == items;
  }

  /** A filtered list keeps exactly the matching CIs, each as often as in
      the input. */
  lemma {:induction false} FilteredCounts(items: seq<CiItem>, needle: string, x: CiItem)
    ensures multiset(Filtered(items, needle))[x] == if Matches(x, needle) then multiset(items)[x] else 0
  {
    if items != [] {
      var front, last := items[..|items| - 1], items[|items| - 1];
      var tail := if Matches(last, needle) then [last] else [];
      FilteredCounts(front, needle, x);
      assert items == front + [last];
      assert multiset(items) == multiset(front) + multiset{last};
      assert Filtered(items, needle) == Filtered(front, needle) + tail;
      assert multiset(Filtered(items, needle)) == multiset(Filtered(front, needle)) + multiset(tail);
    }
  }

  /** Filtering a concatenation filters each part: the input order is
      kept. */
  lemma {:induction false} FilteredAppend(s: seq<CiItem>, t: seq<CiItem>, needle: string)
    ensures Filtered(s + t, needle) == Filtered(s, needle) + Filtered(t, needle)
  {
    if t != [] {
      var front, last := t[..|t| - 1], t[|t| - 1];
      assert (s + t)[..|s + t| - 1] == s + front;
      assert (s + t)[|s + t| - 1] == last;
      FilteredAppend(s, front, needle);
      var tail := if Matches(last, needle) then [last] else [];
      calc {
        Filtered(s + t, needle);
        Filtered(s + front, needle) + tail;
        (Filtered(s, needle) + Filtered(front, needle)) + tail;
        Filtered(s, needle) + (Filtered(front, needle) + tail);
      }
    } else {
      assert s + t == s;
    }
  }

  /** No term keeps every CI; a term keeps exactly the CIs whose name or
      location contains it, ignoring case. */
  lemma FilterMeans(items: seq<CiItem>, searchTerm: Option<string>, x: CiItem)
    ensures searchTerm.None? || searchTerm.value == "" ==> FilterResult(items, searchTerm) == items
    ensures searchTerm.Some? && searchTerm.value != "" ==>
              multiset(FilterResult(items, searchTerm))[x] ==
              if Matches(x, Lower(searchTerm.value)) then multiset(items)[x] else 0
  {
    if searchTerm.Some? && searchTerm.value != "" {
      FilteredCounts(items, Lower(searchTerm.value), x);
    }
  }

  /** The search ignores the case of the term. */
  lemma FilterIgnoresTermCase(items: seq<CiItem>, term: string)
    ensures FilterResult(items, Some(term)) == FilterResult(items, Some(Lower(term)))
  {
    LowerIdempotent(term);
  }

  /** A CI whose name contains the term, in any mix of case, is kept. */
  lemma NameHitKept(id: string, name: string, pre: string, term: string, post: string)
    requires term != "" && Lower(name) == pre + Lower(term) + post
    ensures FilterResult([Item(id, map["name" := Prop(name)])], Some(term)) == [Item(id, map["name" := Prop(name)])]
  {
    var hay := Lower(name);
    var needle := Lower(term);
    var item := Item(id, map["name" := Prop(name)]);
    assert hay[|pre|..|pre| + |needle|] == needle;
    assert OccursAt(hay, needle, |pre|);
    assert TextOf(item, "name") == hay;
    assert Matches(item, needle);
    assert [item][..0] == [];
    assert Filtered([item], needle) == Filtered([], needle) + [item];
  }
}
