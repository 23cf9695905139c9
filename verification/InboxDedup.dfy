/**
 * One inbox row per issue (apps/mobile/lib/inbox-display.ts).
 *
 * Timestamps are already parsed: `createdAt` is the time a valid date stands for.
 */
module InboxDedup {

  import opened Common
  import opened StableSort

  /** The fields the algorithm only copies. */
  type Payload(==, !new)

  datatype Item = Item(id: string, issueId: Option<string>, archived: bool, createdAt: int,
                       details: Option<map<string, string>>, other: Payload)

  const COMMENT_ID := "comment_id"

  /** Rows without an issue stand for themselves. */
  function Key(item: Item): string {
    if item.issueId.Some? then item.issueId.value else item.id
  }

  function Anchor(item: Item): Option<string> {
    if item.details.Some? && COMMENT_ID in item.details.value then Some(item.details.value[COMMENT_ID]) else None
  }

  function WithAnchor(item: Item, anchor: string): (r: Item)
    ensures Anchor(r) == Some(anchor)
  {
    var details := if item.details.Some? then item.details.value else map[];
    item.(details := Some(details[COMMENT_ID := anchor]))
  }

  predicate HasAnchor(item: Item) {
    Truthy(Anchor(item))
  }

  predicate Any(item: Item) {
    true
  }

  /** Sorting by this puts the newest first. */
  function Age(item: Item): int {
    -item.createdAt
  }

  // ---- Grouping

  function Active(items: seq<Item>): seq<Item> {
    if items == [] then []
    else if items[|items| - 1].archived then Active(items[..|items| - 1])
    else Active(items[..|items| - 1]) + [items[|items| - 1]]
  }

  /** The rows of one key, in order. */
  function GroupOf(items: seq<Item>, key: string): seq<Item> {
    if items == [] then []
    else if Key(items[|items| - 1]) == key then GroupOf(items[..|items| - 1], key) + [items[|items| - 1]]
    else GroupOf(items[..|items| - 1], key)
  }

  /** The keys in the order in which they first occur. */
  function KeyOrder(items: seq<Item>): seq<string> {
    if items == [] then []
    else
      var before := KeyOrder(items[..|items| - 1]);
      if Key(items[|items| - 1]) in before then before else before + [Key(items[|items| - 1])]
  }

  /** The row that stands for a group: the newest, with the newest anchor if it has none of its own. */
  function MergeGroup(group: seq<Item>): Item
    requires group != []
  {
    var sorted := Sort(group, Age);
    SortPermutes(group, Age);
    var newest := sorted[0];
    var anchor :=
      if Anchor(newest).Some? then Anchor(newest)
      else
        match Find(sorted, HasAnchor)
        case Some(x) => Anchor(x)
        case None => None;
    if Truthy(anchor) && Anchor(newest) != anchor then WithAnchor(newest, anchor.value) else newest
  }

  lemma {:induction false} GroupHas(items: seq<Item>, key: string, item: Item)
    ensures item in GroupOf(items, key) <==> item in items && Key(item) == key
  {
    if items != [] {
      GroupHas(items[..|items| - 1], key, item);
      assert items == items[..|items| - 1] + [items[|items| - 1]];
    }
  }

  lemma {:induction false} KeyOrderHas(items: seq<Item>, key: string)
    ensures key in KeyOrder(items) <==> exists i :: 0 <= i < |items| && Key(items[i]) == key
  {
    if items != [] {
      var init, last := items[..|items| - 1], items[|items| - 1];
      KeyOrderHas(init, key);
      assert items == init + [last];
      if key in KeyOrder(init) {
        var i :| 0 <= i < |init| && Key(init[i]) == key;
        assert Key(items[i]) == key;
      }
      if i :| 0 <= i < |items| && Key(items[i]) == key {
        assert i < |init| ==> Key(init[i]) == key;
      }
    }
  }

  lemma {:induction false} KeyOrderDistinct(items: seq<Item>)
    ensures Distinct(KeyOrder(items))
  {
    if items != [] {
      KeyOrderDistinct(items[..|items| - 1]);
    }
  }

  lemma GroupNotEmpty(items: seq<Item>, key: string)
    requires key in KeyOrder(items)
    ensures GroupOf(items, key) != []
  {
    KeyOrderHas(items, key);
    var i :| 0 <= i < |items| && Key(items[i]) == key;
    GroupHas(items, key, items[i]);
  }

  /** The rows of the first `n` keys. */
  function MergedUpto(items: seq<Item>, keys: seq<string>, n: nat): (r: seq<Item>)
    requires n <= |keys|
    requires forall k :: k in keys ==> k in KeyOrder(items)
    ensures |r| == n
  {
    if n == 0 then []
    else
      assert keys[n - 1] in keys;
      GroupNotEmpty(items, keys[n - 1]);
      MergedUpto(items, keys, n - 1) + [MergeGroup(GroupOf(items, keys[n - 1]))]
  }

  function Merged(items: seq<Item>): seq<Item> {
    MergedUpto(items, KeyOrder(items), |KeyOrder(items)|)
  }

  function Deduplicated(items: seq<Item>): seq<Item> {
    Sort(Merged(Active(items)), Age)
  }

  // ---- The loops as written

  lemma GroupPush(items: seq<Item>, item: Item, key: string)
    ensures GroupOf(items + [item], key) ==
            if Key(item) == key then GroupOf(items, key) + [item] else GroupOf(items, key)
  {
    assert (items + [item])[..|items|] == items;
  }

  lemma KeyOrderPush(items: seq<Item>, item: Item)
    ensures KeyOrder(items + [item]) ==
            if Key(item) in KeyOrder(items) then KeyOrder(items) else KeyOrder(items) + [Key(item)]
  {
    assert (items + [item])[..|items|] == items;
  }

  ghost predicate Grouped(items: seq<Item>, order: seq<string>, groups: map<string, seq<Item>>) {
    && order == KeyOrder(items)
    && forall k :: (k in groups <==> k in order) && (k in groups ==> groups[k] == GroupOf(items, k))
  }

  lemma {:induction false} NoGroup(items: seq<Item>, key: string)
    requires key !in KeyOrder(items)
    ensures GroupOf(items, key) == []
  {
    if items != [] {
      NoGroup(items[..|items| - 1], key);
    }
  }

  /** The map, with the insertion order it keeps, after one more item is filed. */
  function Filed(order: seq<string>, groups: map<string, seq<Item>>, item: Item): (seq<string>,
                 map<string, seq<Item>>) {
    if Key(item) in groups then (order, groups[Key(item) := groups[Key(item)] + [item]])
    else (order + [Key(item)], groups[Key(item) := [item]])
  }

  lemma FiledStep(items: seq<Item>, item: Item, order: seq<string>, groups: map<string, seq<Item>>)
    requires Grouped(items, order, groups)
    ensures Grouped(items + [item], Filed(order, groups, item).0, Filed(order, groups, item).1)
  {
    KeyOrderPush(items, item);
    if Key(item) !in order {
      NoGroup(items, Key(item));
    }
    forall k {
      GroupPush(items, item, k);
    }
  }

  /** One turn of the grouping loop. */
  method FileItem(ghost filed: seq<Item>, order: seq<string>, groups: map<string, seq<Item>>, item: Item)
    returns (order': seq<string>, groups': map<string, seq<Item>>)
    requires Grouped(filed, order, groups)
    ensures Grouped(filed + [item], order', groups')
  {
    FiledStep(filed, item, order, groups);
    var key := Key(item);
    var group := if key in groups then groups[key] else [];
    order' := if key in groups then order else order + [key];
    groups' := groups[key := group + [item]];
    assert [] + [item] == [item];
  }

  /** The grouping loop; `order` is the insertion order that the map keeps. */
  method GroupItems(active: seq<Item>) returns (order: seq<string>, groups: map<string, seq<Item>>)
    ensures Grouped(active, order, groups)
  {
    order, groups := [], map[];
    ghost var filed: seq<Item> := [];
    for i := 0 to |active|
      invariant filed == active[..i] && Grouped(filed, order, groups)
    {
      order, groups := FileItem(filed, order, groups, active[i]);
      filed := filed + [active[i]];
    }
    assert active[..|active|] == active;
  }

  /** One turn of the merging loop. */
  method MergeOneGroup(group: seq<Item>) returns (row: Item)
    requires group != []
    ensures row == MergeGroup(group)
  {
    var sorted := Sort(group, Age);
    SortPermutes(group, Age);
    var newest := sorted[0];
    var anchor := Anchor(newest);
    if anchor == None {
      var found := Find(sorted, HasAnchor);
      if found.Some? {
        anchor := Anchor(found.value);
      }
    }
    if Truthy(anchor) && Anchor(newest) != anchor {
      return WithAnchor(newest, anchor.value);
    }
    return newest;
  }

  lemma GroupedAt(items: seq<Item>, order: seq<string>, groups: map<string, seq<Item>>, i: nat)
    requires Grouped(items, order, groups) && i < |order|
    ensures order[i] in groups && groups[order[i]] == GroupOf(items, order[i]) && groups[order[i]] != []
  {
    assert order[i] in order;
    GroupNotEmpty(items, order[i]);
  }

  lemma MergedMore(items: seq<Item>, keys: seq<string>, i: nat)
    requires i < |keys| && forall k :: k in keys ==> k in KeyOrder(items)
    ensures GroupOf(items, keys[i]) != []
    ensures MergedUpto(items, keys, i + 1) == MergedUpto(items, keys, i) + [MergeGroup(GroupOf(items, keys[i]))]
  {
    assert keys[i] in keys;
    GroupNotEmpty(items, keys[i]);
  }

  /** One more row for the `i`-th group. */
  method MergeNext(items: seq<Item>, order: seq<string>, groups: map<string, seq<Item>>, i: nat, merged: seq<Item>)
    returns (next: seq<Item>)
    requires Grouped(items, order, groups) && i < |order| && merged == MergedUpto(items, order, i)
    ensures next == MergedUpto(items, order, i + 1)
  {
    GroupedAt(items, order, groups, i);
    MergedMore(items, order, i);
    var row := MergeOneGroup(groups[order[i]]);
    next := merged + [row];
  }

  /** The merging loop over the groups. */
  method MergeGroups(items: seq<Item>, order: seq<string>, groups: map<string, seq<Item>>) returns (merged: seq<Item>)
    requires Grouped(items, order, groups)
    ensures merged == Merged(items)
  {
    merged := [];
    for i := 0 to |order|
      invariant merged == MergedUpto(items, order, i)
    {
      merged := MergeNext(items, order, groups, i, merged);
    }
  }

  method DeduplicateInboxItems(items: seq<Item>) returns (rows: seq<Item>)
    ensures rows == Deduplicated(items)
  {
    var active := Active(items);
    var order, groups := GroupItems(active);
    var merged := MergeGroups(active, order, groups);
    rows := Sort(merged, Age);
  }

  // ---- What the row of a group is

  lemma {:induction false} FindAny(s: seq<Item>)
    requires s != []
    ensures Find(s, Any) == Some(s[0])
  {
    if |s| > 1 {
      FindAny(s[..|s| - 1]);
    }
  }

  /** What the row of a group has to be, said without sorting: the winners of two single passes. */
  ghost predicate StandsFor(row: Item, group: seq<Item>) {
    var newest := Best(group, Age, Any);
    var anchored := Best(group, Age, HasAnchor);
    && newest.Some?
    && row.(details := newest.value.details) == newest.value
    && (Anchor(newest.value).Some? ==> row == newest.value)
    && (Anchor(newest.value) == None && anchored == None ==> row == newest.value)
    && (Anchor(newest.value) == None && anchored.Some? ==>
          HasAnchor(anchored.value) && row == WithAnchor(newest.value, Anchor(anchored.value).value))
  }

  lemma MergeGroupExactly(group: seq<Item>)
    requires group != []
    ensures StandsFor(MergeGroup(group), group)
  {
    var sorted := Sort(group, Age);
    SortPermutes(group, Age);
    FindAny(sorted);
    FindSorted(group, Age, Any);
    FindSorted(group, Age, HasAnchor);
    BestMeans(group, Age, HasAnchor);
  }

  /**
   * The row carries the anchor of the newest row that has one, except when the newest row has an
   * empty anchor while some other row has a real one: the empty string is not replaced.
   */
  lemma NewestAnchorExactly(group: seq<Item>)
    requires group != []
    ensures var row := MergeGroup(group);
            var newest := Best(group, Age, Any);
            var anchored := Best(group, Age, HasAnchor);
            && newest.Some?
            && ((if Truthy(Anchor(row)) then Anchor(row) else None)
                == (if anchored.Some? then Anchor(anchored.value) else None)
                <==> !(Anchor(newest.value) == Some("") && anchored.Some?))
  {
    MergeGroupExactly(group);
    BestMeans(group, Age, HasAnchor);
    BestMeans(group, Age, Any);
    AnchoredNewest(group);
  }

  /** An empty anchor on the newest of two rows: the real anchor of the older one is lost. */
  lemma EmptyAnchorHides(older: Item, newest: Item)
    requires HasAnchor(older) && Anchor(newest) == Some("") && older.createdAt < newest.createdAt
    ensures Anchor(MergeGroup([older, newest])) == Some("")
    ensures Best([older, newest], Age, HasAnchor) == Some(older)
  {
    BestOfTwo(older, newest, Any);
    BestOfTwo(older, newest, HasAnchor);
    MergeGroupExactly([older, newest]);
  }

  lemma BestOfTwo(x: Item, y: Item, p: Item -> bool)
    ensures Best([x, y], Age, p) == Better(Better(None, x, Age, p), y, Age, p)
  {
    BestPush([x], y, Age, p);
    BestPush([], x, Age, p);
    assert [x] + [y] == [x, y] && [] + [x] == [x];
  }

  /** When the newest row has an anchor, it is also the newest row that has one. */
  lemma {:induction false} AnchoredNewest(group: seq<Item>)
    ensures var newest := Best(group, Age, Any);
            newest.Some? && HasAnchor(newest.value) ==> Best(group, Age, HasAnchor) == newest
  {
    if group != [] {
      var init := group[..|group| - 1];
      AnchoredNewest(init);
      BestMeans(init, Age, Any);
      BestMeans(init, Age, HasAnchor);
    }
  }

  // ---- The whole result

  lemma {:induction false} MergedAt(items: seq<Item>, keys: seq<string>, n: nat, i: nat)
    requires i < n <= |keys|
    requires forall k :: k in keys ==> k in KeyOrder(items)
    ensures GroupOf(items, keys[i]) != []
    ensures MergedUpto(items, keys, n)[i] == MergeGroup(GroupOf(items, keys[i]))
  {
    assert keys[n - 1] in keys && keys[i] in keys;
    GroupNotEmpty(items, keys[n - 1]);
    if i < n - 1 {
      MergedAt(items, keys, n - 1, i);
    }
  }

  /** The row of a group belongs to the group's key, and copies an item of the group. */
  lemma RowOfGroup(items: seq<Item>, key: string)
    requires GroupOf(items, key) != []
    ensures var row := MergeGroup(GroupOf(items, key));
            && StandsFor(row, GroupOf(items, key)) && Key(row) == key
            && exists x :: x in items && row.(details := x.details) == x
  {
    var group := GroupOf(items, key);
    MergeGroupExactly(group);
    BestMeans(group, Age, Any);
    var newest := Best(group, Age, Any).value;
    GroupHas(items, key, newest);
    assert MergeGroup(group).(details := newest.details) == newest;
  }

  lemma {:induction false} ActiveHas(items: seq<Item>)
    ensures forall x :: x in Active(items) <==> x in items && !x.archived
  {
    if items != [] {
      ActiveHas(items[..|items| - 1]);
      assert items == items[..|items| - 1] + [items[|items| - 1]];
    }
  }

  ghost predicate UniqueRows(rows: seq<Item>) {
    && (forall i :: 0 <= i < |rows| ==> !rows[i].archived)
    && forall i, j :: 0 <= i < j < |rows| ==> Key(rows[i]) != Key(rows[j])
  }

  lemma MergedRow(active: seq<Item>, i: nat)
    requires i < |KeyOrder(active)|
    ensures var key := KeyOrder(active)[i];
            && Key(Merged(active)[i]) == key && StandsFor(Merged(active)[i], GroupOf(active, key))
            && exists x :: x in active && Merged(active)[i].(details := x.details) == x
  {
    MergedAt(active, KeyOrder(active), |KeyOrder(active)|, i);
    RowOfGroup(active, KeyOrder(active)[i]);
  }

  lemma MergedUnique(active: seq<Item>)
    requires forall x :: x in active ==> !x.archived
    ensures UniqueRows(Merged(active))
  {
    var keys, merged := KeyOrder(active), Merged(active);
    KeyOrderDistinct(active);
    forall i | 0 <= i < |keys| ensures Key(merged[i]) == keys[i] && !merged[i].archived {
      MergedRow(active, i);
      var x :| x in active && merged[i].(details := x.details) == x;
    }
  }

  lemma PermutedUnique(s: seq<Item>, t: seq<Item>)
    requires UniqueRows(s) && multiset(s) == multiset(t)
    ensures UniqueRows(t)
  {
    forall i | 0 <= i < |t| ensures !t[i].archived {
      assert t[i] in multiset(s);
    }
    forall i, j | 0 <= i < j < |t| ensures Key(t[i]) != Key(t[j]) {
      assert Distinct(s);
      PermutedDistinct(s, t);
      assert t[i] in multiset(s) && t[j] in multiset(s);
      var a :| 0 <= a < |s| && s[a] == t[i];
      var b :| 0 <= b < |s| && s[b] == t[j];
      assert a != b;
    }
  }

  lemma MergedForKey(active: seq<Item>, key: string)
    ensures (exists row :: row in Merged(active) && Key(row) == key) <==> key in KeyOrder(active)
  {
    var keys, merged := KeyOrder(active), Merged(active);
    if key in keys {
      var i :| 0 <= i < |keys| && keys[i] == key;
      MergedRow(active, i);
      assert merged[i] in merged;
    }
    if row :| row in merged && Key(row) == key {
      var i :| 0 <= i < |merged| && merged[i] == row;
      MergedRow(active, i);
      assert keys[i] in keys;
    }
  }

  /** A key has a row exactly when an unarchived item has it. */
  lemma RowForKey(items: seq<Item>, key: string)
    ensures (exists row :: row in Deduplicated(items) && Key(row) == key) <==> key in KeyOrder(Active(items))
  {
    var merged := Merged(Active(items));
    MergedForKey(Active(items), key);
    SortPermutes(merged, Age);
    if key in KeyOrder(Active(items)) {
      var row :| row in merged && Key(row) == key;
      assert row in Deduplicated(items);
    }
  }

  /** Every row of the result stands for all the unarchived items of its key. */
  lemma RowsStandForTheirGroups(items: seq<Item>, row: Item)
    requires row in Deduplicated(items)
    ensures StandsFor(row, GroupOf(Active(items), Key(row)))
  {
    var active := Active(items);
    var merged := Merged(active);
    SortPermutes(merged, Age);
    var i :| 0 <= i < |merged| && merged[i] == row;
    MergedRow(active, i);
  }

  /** One row for each key, none archived, newest first. */
  lemma OneRowPerIssue(items: seq<Item>)
    ensures UniqueRows(Deduplicated(items))
    ensures forall i, j :: 0 <= i < j < |Deduplicated(items)| ==>
              Deduplicated(items)[i].createdAt >= Deduplicated(items)[j].createdAt
  {
    var active := Active(items);
    var rows := Deduplicated(items);
    ActiveHas(items);
    MergedUnique(active);
    SortPermutes(Merged(active), Age);
    PermutedUnique(Merged(active), rows);
    SortAscends(Merged(active), Age);
    forall i, j | 0 <= i < j < |rows| ensures rows[i].createdAt >= rows[j].createdAt {
      assert Age(rows[i]) <= Age(rows[j]);
    }
  }

  /** No unarchived item is newer than the row of its key. */
  lemma NothingNewerIsHidden(items: seq<Item>, item: Item)
    requires item in items && !item.archived
    ensures exists row :: row in Deduplicated(items) && Key(row) == Key(item) && row.createdAt >= item.createdAt
  {
    ActiveHas(items);
    var active, key := Active(items), Key(item);
    GroupHas(active, key, item);
    var i :| 0 <= i < |active| && active[i] == item;
    KeyOrderHas(active, key);
    RowForKey(items, key);
    assert key in KeyOrder(active);
    var row :| row in Deduplicated(items) && Key(row) == key;
    RowsStandForTheirGroups(items, row);
    BestMeans(GroupOf(active, key), Age, Any);
    assert Any(item);
  }

  // ---- Idempotence

  lemma {:induction false} ActiveOfActive(rows: seq<Item>)
    requires forall x :: x in rows ==> !x.archived
    ensures Active(rows) == rows
  {
    if rows != [] {
      assert rows == rows[..|rows| - 1] + [rows[|rows| - 1]];
      ActiveOfActive(rows[..|rows| - 1]);
    }
  }

  lemma {:induction false} KeyOrderOfUnique(rows: seq<Item>)
    requires UniqueRows(rows)
    ensures |KeyOrder(rows)| == |rows|
    ensures forall i :: 0 <= i < |rows| ==> KeyOrder(rows)[i] == Key(rows[i])
  {
    if rows != [] {
      KeyOrderOfUnique(rows[..|rows| - 1]);
    }
  }

  lemma {:induction false} GroupOfUnique(rows: seq<Item>, i: nat)
    requires UniqueRows(rows) && i < |rows|
    ensures GroupOf(rows, Key(rows[i])) == [rows[i]]
  {
    var init := rows[..|rows| - 1];
    if i == |rows| - 1 {
      KeyOrderOfUnique(init);
      NoGroup(init, Key(rows[i]));
    } else {
      GroupOfUnique(init, i);
    }
  }

  /** A group of one is its own row. */
  lemma MergeOne(row: Item)
    ensures MergeGroup([row]) == row
  {
    MergeGroupExactly([row]);
    BestPush([], row, Age, Any);
    BestPush([], row, Age, HasAnchor);
    assert [] + [row] == [row];
  }

  lemma RowOfUnique(rows: seq<Item>, i: nat)
    requires UniqueRows(rows) && i < |rows|
    ensures i < |KeyOrder(rows)| && GroupOf(rows, KeyOrder(rows)[i]) != []
    ensures MergeGroup(GroupOf(rows, KeyOrder(rows)[i])) == rows[i]
  {
    KeyOrderOfUnique(rows);
    GroupOfUnique(rows, i);
    MergeOne(rows[i]);
  }

  lemma MergedOfUnique(rows: seq<Item>)
    requires UniqueRows(rows)
    ensures Merged(rows) == rows
  {
    KeyOrderOfUnique(rows);
    forall i | 0 <= i < |rows| ensures Merged(rows)[i] == rows[i] {
      MergedAt(rows, KeyOrder(rows), |rows|, i);
      RowOfUnique(rows, i);
    }
  }

  /** Deduplicating twice is deduplicating once. */
  lemma DedupIdempotent(items: seq<Item>)
    ensures Deduplicated(Deduplicated(items)) == Deduplicated(items)
  {
    var rows := Deduplicated(items);
    OneRowPerIssue(items);
    ActiveOfActive(rows);
    MergedOfUnique(rows);
    SortAscends(Merged(Active(items)), Age);
    SortOfSorted(rows, Age);
  }

  // ---- The order of the input does not matter

  /** No two unarchived items have the same time. */
  ghost predicate DistinctTimes(active: seq<Item>) {
    forall x, y :: x in active && y in active && x.createdAt == y.createdAt ==> x == y
  }

  /** With distinct times the best match depends only on which items there are. */
  lemma SameBest(g: seq<Item>, h: seq<Item>, p: Item -> bool)
    requires DistinctTimes(g)
    requires forall x :: x in g <==> x in h
    ensures Best(g, Age, p) == Best(h, Age, p)
  {
    BestMeans(g, Age, p);
    BestMeans(h, Age, p);
    var a, b := Best(g, Age, p), Best(h, Age, p);
    if a.Some? && b.Some? {
      assert Age(a.value) <= Age(b.value) && Age(b.value) <= Age(a.value);
    }
  }

  lemma SameRow(g: seq<Item>, h: seq<Item>, row: Item, row': Item)
    requires DistinctTimes(g)
    requires forall x :: x in g <==> x in h
    requires StandsFor(row, g) && StandsFor(row', h)
    ensures row == row'
  {
    SameBest(g, h, Any);
    SameBest(g, h, HasAnchor);
  }

  lemma RowsIncluded(items: seq<Item>, others: seq<Item>, row: Item)
    requires DistinctTimes(Active(items))
    requires forall x :: x in items <==> x in others
    requires row in Deduplicated(items)
    ensures row in Deduplicated(others)
  {
    var a, b, key := Active(items), Active(others), Key(row);
    ActiveHas(items);
    ActiveHas(others);
    forall x ensures x in GroupOf(a, key) <==> x in GroupOf(b, key) {
      GroupHas(a, key, x);
      GroupHas(b, key, x);
    }
    RowsStandForTheirGroups(items, row);
    BestMeans(GroupOf(a, key), Age, Any);
    var newest := Best(GroupOf(a, key), Age, Any).value;
    GroupHas(a, key, newest);
    var i :| 0 <= i < |b| && b[i] == newest;
    KeyOrderHas(b, key);
    RowForKey(others, key);
    var row' :| row' in Deduplicated(others) && Key(row') == key;
    RowsStandForTheirGroups(others, row');
    forall x | x in GroupOf(a, key) ensures x in a {
      GroupHas(a, key, x);
    }
    SameRow(GroupOf(a, key), GroupOf(b, key), row, row');
  }

  lemma RowTimesDiffer(items: seq<Item>, i: nat, j: nat)
    requires DistinctTimes(Active(items))
    requires i < j < |Deduplicated(items)|
    ensures Age(Deduplicated(items)[i]) < Age(Deduplicated(items)[j])
  {
    var rows, active := Deduplicated(items), Active(items);
    OneRowPerIssue(items);
    var x := NewestOf(items, rows[i]);
    var y := NewestOf(items, rows[j]);
  }

  lemma NewestOf(items: seq<Item>, row: Item) returns (newest: Item)
    requires row in Deduplicated(items)
    ensures newest in Active(items) && Key(newest) == Key(row) && newest.createdAt == row.createdAt
  {
    RowsStandForTheirGroups(items, row);
    var group := GroupOf(Active(items), Key(row));
    BestMeans(group, Age, Any);
    newest := Best(group, Age, Any).value;
    GroupHas(Active(items), Key(row), newest);
    assert row.(details := newest.details).createdAt == row.createdAt;
  }

  /** When no two unarchived items have the same time, the result is the same in whatever order they arrive. */
  lemma DedupIgnoresOrder(items: seq<Item>, others: seq<Item>)
    requires DistinctTimes(Active(items))
    requires forall x :: x in items <==> x in others
    ensures Deduplicated(items) == Deduplicated(others)
  {
    var r, s := Deduplicated(items), Deduplicated(others);
    ActiveHas(items);
    ActiveHas(others);
    forall row ensures row in r <==> row in s {
      if row in r { RowsIncluded(items, others, row); }
      if row in s { RowsIncluded(others, items, row); }
    }
    forall i, j | 0 <= i < j < |r| ensures Age(r[i]) < Age(r[j]) {
      RowTimesDiffer(items, i, j);
    }
    forall i, j | 0 <= i < j < |s| ensures Age(s[i]) < Age(s[j]) {
      RowTimesDiffer(others, i, j);
    }
    StrictSortUnique(r, s, Age);
  }
}
