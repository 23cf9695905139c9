/** What deduplication means for the fields of an item: one row for an issue, and what that row shows. */
module InboxIssues {
  import opened Common
  import opened StableSort
  import opened InboxDedup

  /** The item is about this issue; one without an issue stands under its own id. */
  predicate About(item: Item, id: string) {
    match item.issueId
    case Some(issue) => issue == id
    case None => item.id == id
  }

  /** Shown at all, and about this issue. */
  predicate Counts(items: seq<Item>, item: Item, id: string) {
    item in items && item.archived == false && About(item, id)
  }

  lemma KeyIsAbout(item: Item, id: string)
    ensures Key(item) == id <==> About(item, id)
  {
  }

  lemma CountsExactly(items: seq<Item>, item: Item, id: string)
    ensures Counts(items, item, id) <==> item in GroupOf(Active(items), id)
  {
    ActiveHas(items);
    GroupHas(Active(items), id, item);
    KeyIsAbout(item, id);
  }

  /** An issue has a row exactly when an unarchived item is about it, and never two. */
  lemma IssueHasOneRow(items: seq<Item>, id: string)
    ensures (exists i :: 0 <= i < |Deduplicated(items)| && About(Deduplicated(items)[i], id))
            <==> exists x :: Counts(items, x, id)
    ensures forall i, j :: 0 <= i < j < |Deduplicated(items)| ==>
              !(About(Deduplicated(items)[i], id) && About(Deduplicated(items)[j], id))
  {
    var rows := Deduplicated(items);
    OneRowPerIssue(items);
    if x :| Counts(items, x, id) {
      NothingNewerIsHidden(items, x);
      KeyIsAbout(x, id);
      var row :| row in rows && Key(row) == Key(x);
      var i :| 0 <= i < |rows| && rows[i] == row;
      KeyIsAbout(row, id);
      assert About(rows[i], id);
    }
    if i :| 0 <= i < |rows| && About(rows[i], id) {
      KeyIsAbout(rows[i], id);
      var x := NewestOf(items, rows[i]);
      ActiveHas(items);
      KeyIsAbout(x, id);
      assert Counts(items, x, id);
    }
    forall i, j | 0 <= i < j < |rows| ensures !(About(rows[i], id) && About(rows[j], id)) {
      KeyIsAbout(rows[i], id);
      KeyIsAbout(rows[j], id);
    }
  }

  /** No item without an issue has the id of this issue. */
  ghost predicate NoNamesake(items: seq<Item>, issue: string) {
    forall x :: x in items && !x.archived && x.issueId == None ==> x.id != issue
  }

  /** Unless an item without an issue bears its id, the row of an issue carries that issue. */
  lemma RowCarriesIssue(items: seq<Item>, issue: string, i: nat)
    requires NoNamesake(items, issue) && i < |Deduplicated(items)| && About(Deduplicated(items)[i], issue)
    ensures Deduplicated(items)[i].issueId == Some(issue)
  {
    var row := Deduplicated(items)[i];
    var x := RowShows(items, row, issue);
    assert x.issueId == row.issueId && x.id == row.id;
  }

  function Detail(item: Item, name: string): Option<string> {
    match item.details
    case None => None
    case Some(details) => if name in details then Some(details[name]) else None
  }

  /** The item named is the newest of those about the issue. */
  ghost predicate Newest(items: seq<Item>, x: Item, id: string) {
    Counts(items, x, id) && forall y :: Counts(items, y, id) ==> y.createdAt <= x.createdAt
  }

  lemma BestIsNewest(items: seq<Item>, id: string, newest: Item)
    requires Best(GroupOf(Active(items), id), Age, Any) == Some(newest)
    ensures Newest(items, newest, id)
  {
    var group := GroupOf(Active(items), id);
    BestMeans(group, Age, Any);
    forall y ensures Counts(items, y, id) <==> y in group {
      CountsExactly(items, y, id);
    }
    forall y | Counts(items, y, id) ensures y.createdAt <= newest.createdAt {
      assert Any(y) && Age(newest) <= Age(y);
    }
  }

  lemma DetailsShown(row: Item, group: seq<Item>, newest: Item)
    requires StandsFor(row, group) && Best(group, Age, Any) == Some(newest)
    ensures newest.(details := row.details) == row
    ensures forall name :: name != "comment_id" ==> Detail(row, name) == Detail(newest, name)
    ensures Detail(newest, "comment_id").Some? ==> Detail(row, "comment_id") == Detail(newest, "comment_id")
  {
  }

  /** A row is the newest item about its issue, in everything but the details. */
  lemma RowShows(items: seq<Item>, row: Item, id: string) returns (newest: Item)
    requires row in Deduplicated(items) && About(row, id)
    ensures Newest(items, newest, id) && newest.(details := row.details) == row
    ensures forall name :: name != "comment_id" ==> Detail(row, name) == Detail(newest, name)
    ensures Detail(newest, "comment_id").Some? ==> Detail(row, "comment_id") == Detail(newest, "comment_id")
    ensures Detail(newest, "comment_id").None? ==> CarriesAnchor(items, row, id)
  {
    KeyIsAbout(row, id);
    RowsStandForTheirGroups(items, row);
    var group := GroupOf(Active(items), id);
    newest := Best(group, Age, Any).value;
    BestIsNewest(items, id, newest);
    DetailsShown(row, group, newest);
    if Detail(newest, "comment_id").None? {
      AnchorCarried(items, row, id, newest);
    }
  }

  /** The anchor is that of the newest item about the issue that has one, not empty; without such an item there
    * is none. */
  ghost predicate CarriesAnchor(items: seq<Item>, row: Item, id: string) {
    match Detail(row, "comment_id")
    case None => forall y :: Counts(items, y, id) ==> Detail(y, "comment_id") in {None, Some("")}
    case Some(anchor) => anchor != "" && exists x :: AnchorOf(items, x, id, anchor)
  }

  ghost predicate AnchorOf(items: seq<Item>, x: Item, id: string, anchor: string) {
    && Counts(items, x, id) && Detail(x, "comment_id") == Some(anchor)
    && forall y :: Counts(items, y, id) && Detail(y, "comment_id") !in {None, Some("")} ==> y.createdAt <= x.createdAt
  }

  lemma AnchorCarried(items: seq<Item>, row: Item, id: string, newest: Item)
    requires StandsFor(row, GroupOf(Active(items), id)) && Best(GroupOf(Active(items), id), Age, Any) == Some(newest)
    requires Detail(newest, "comment_id").None?
    ensures CarriesAnchor(items, row, id)
  {
    var group := GroupOf(Active(items), id);
    BestMeans(group, Age, HasAnchor);
    forall y ensures Counts(items, y, id) <==> y in group {
      CountsExactly(items, y, id);
    }
    forall y: Item ensures HasAnchor(y) <==> Detail(y, "comment_id") !in {None, Some("")} {
    }
    var best := Best(group, Age, HasAnchor);
    if best.Some? {
      var x := best.value;
      forall y | Counts(items, y, id) && Detail(y, "comment_id") !in {None, Some("")}
        ensures y.createdAt <= x.createdAt
      {
        assert HasAnchor(y) && Age(x) <= Age(y);
      }
      assert AnchorOf(items, x, id, Detail(x, "comment_id").value);
    }
  }
}
