/** The rows of a threaded timeline: who is in them, where, and in what order. */
module TimelinePartition {
  import opened Common
  import opened TimelineThread

  /** The entries shown by the first n rows: each row's own entry, then its replies. */
  function Shown(rows: seq<Row>, n: nat): seq<Entry>
    requires n <= |rows|
  {
    if n == 0 then [] else Shown(rows, n - 1) + ([rows[n - 1].entry] + rows[n - 1].replies)
  }

  /** The chain of parents ends at a comment that is no reply. */
  ghost predicate Rooted(es: seq<Entry>, e: Entry) {
    exists r :: IsRoot(es, r) && Leads(es, e, r)
  }

  /** No comment is its own ancestor. */
  ghost predicate Acyclic(es: seq<Entry>) {
    forall e, k :: Here(es, e) && k > 0 ==> Ancestor(es, e, k) != Some(e)
  }

  // ----- Who is in a thread -----

  /** The chain of parents passes through r. */
  ghost predicate Leads(es: seq<Entry>, e: Entry, r: Entry) {
    exists d: nat :: Ancestor(es, e, d) == Some(r)
  }

  lemma LeadsWithin(es: seq<Entry>, e: Entry, root: Entry)
    requires UniqueComments(es) && IsRoot(es, root) && Here(es, e)
    ensures Leads(es, e, root) <==> Below(es, e, root, |es|)
  {
    if Leads(es, e, root) {
      var d: nat :| Ancestor(es, e, d) == Some(root);
      LevelMeans(es, root, d);
      if d > |es| {
        DepthBounded(es, root, d);
      }
    }
  }

  /** A thread holds exactly the replies whose chain of parents ends at its root, each once. */
  lemma DescendantsMeans(es: seq<Entry>, root: Entry)
    requires UniqueComments(es) && IsRoot(es, root)
    ensures Distinct(Descendants(es, root))
    ensures forall e :: e in Descendants(es, root) <==> Here(es, e) && IsReply(AllIds(es), e) && Leads(es, e, root)
  {
    var all := Upto(es, root, |es|);
    UptoMeans(es, root, |es|);
    assert all == [root] + all[1..];
    forall e ensures e in all[1..] <==> Here(es, e) && IsReply(AllIds(es), e) && Leads(es, e, root) {
      assert e in all <==> e == root || e in all[1..];
      if Here(es, e) {
        LeadsWithin(es, e, root);
      }
    }
  }

  lemma DepthInLevel(es: seq<Entry>, root: Entry, n: nat, e: Entry, d: nat)
    requires UniqueComments(es) && IsRoot(es, root) && e in Level(es, root, n) && Ancestor(es, e, d) == Some(root)
    ensures d == n
  {
    LevelMeans(es, root, n);
    DepthUnique(es, e, root, root, d, n);
  }

  lemma DepthInUpto(es: seq<Entry>, root: Entry, n: nat, e: Entry, d: nat)
    requires UniqueComments(es) && IsRoot(es, root) && e in Upto(es, root, n) && Ancestor(es, e, d) == Some(root)
    ensures d <= n
  {
    UptoMeans(es, root, n);
    var k: nat :| k <= n && Ancestor(es, e, k) == Some(root);
    DepthUnique(es, e, root, root, d, k);
  }

  /** Within a thread no entry stands before one that is closer to the root. */
  lemma {:induction false} DepthNeverDecreases(es: seq<Entry>, root: Entry, n: nat, i: nat, j: nat, c: nat, d: nat)
    requires UniqueComments(es) && IsRoot(es, root) && i < j < |Upto(es, root, n)|
    requires Ancestor(es, Upto(es, root, n)[i], c) == Some(root) && Ancestor(es, Upto(es, root, n)[j], d) == Some(root)
    ensures c <= d
  {
    if n > 0 {
      var size := |Upto(es, root, n - 1)|;
      if j < size {
        DepthNeverDecreases(es, root, n - 1, i, j, c, d);
      } else {
        DepthInLevel(es, root, n, Upto(es, root, n)[j], d);
        DepthInUpto(es, root, n, Upto(es, root, n)[i], c);
      }
    }
  }

  // ----- Siblings -----

  ghost predicate InInputOrder(es: seq<Entry>, x: Entry, y: Entry) {
    exists a, b :: 0 <= a < b < |es| && es[a] == x && es[b] == y
  }

  lemma {:induction false} ChildrenInOrder(ids: set<Id>, es: seq<Entry>, n: nat, id: Id)
    requires n <= |es|
    ensures forall i, j :: 0 <= i < j < |Children(ids, es, n, id)| ==>
              InInputOrder(es, Children(ids, es, n, id)[i], Children(ids, es, n, id)[j])
  {
    if n > 0 {
      ChildrenInOrder(ids, es, n - 1, id);
      ChildrenMeans(ids, es, n - 1, id);
      var before := Children(ids, es, n - 1, id);
      forall i | 0 <= i < |before| ensures InInputOrder(es, before[i], es[n - 1]) {
        assert before[i] in before;
        var a :| 0 <= a < n - 1 && es[a] == before[i];
      }
    }
  }

  lemma {:induction false} KidsInOrder(es: seq<Entry>, parents: seq<Entry>, n: nat, i: nat, j: nat)
    requires UniqueComments(es) && n <= |parents| && Distinct(parents) && forall p :: p in parents ==> Here(es, p)
    requires i < j < |Kids(es, parents, n)| && Kids(es, parents, n)[i].parentId == Kids(es, parents, n)[j].parentId
    ensures InInputOrder(es, Kids(es, parents, n)[i], Kids(es, parents, n)[j])
  {
    var a, b := Kids(es, parents, n - 1), Replies(es, parents[n - 1].id);
    if j < |a| {
      KidsInOrder(es, parents, n - 1, i, j);
    } else if i >= |a| {
      ChildrenInOrder(AllIds(es), es, |es|, parents[n - 1].id);
    } else {
      BlocksApart(es, parents, n, a[i], b[j - |a|]);
    }
  }

  /** A reply to an earlier parent does not answer this one. */
  lemma BlocksApart(es: seq<Entry>, parents: seq<Entry>, n: nat, x: Entry, y: Entry)
    requires UniqueComments(es) && 0 < n <= |parents| && Distinct(parents) && forall p :: p in parents ==> Here(es, p)
    requires x in Kids(es, parents, n - 1) && y in Replies(es, parents[n - 1].id)
    ensures x.parentId != y.parentId
  {
    KidsMeans(es, parents, n - 1);
    RepliesMeans(es, parents[n - 1].id);
    var k :| 0 <= k < n - 1 && x.parentId == Some(parents[k].id);
    assert parents[k] in parents && parents[n - 1] in parents && parents[k] != parents[n - 1];
    if parents[k].id == parents[n - 1].id {
      SameIdSameComment(es, parents[k], parents[n - 1]);
    }
  }

  /** Replies to one comment keep the order they had in the input. */
  lemma SiblingsKeepOrder(es: seq<Entry>, root: Entry, i: nat, j: nat)
    requires UniqueComments(es) && IsRoot(es, root) && i < j < |Descendants(es, root)|
    requires Descendants(es, root)[i].parentId == Descendants(es, root)[j].parentId
    ensures InInputOrder(es, Descendants(es, root)[i], Descendants(es, root)[j])
  {
    var all := Upto(es, root, |es|);
    DescendantsAreKids(es, root);
    UptoMeans(es, root, |es|);
    KidsInOrder(es, all, |all|, i, j);
  }

  lemma DescendantsAreKids(es: seq<Entry>, root: Entry)
    requires UniqueComments(es) && IsRoot(es, root)
    ensures var all := Upto(es, root, |es|); Descendants(es, root) == Kids(es, all, |all|)
  {
    UptoSettles(es, root);
    NextLevelFollows(es, root, |es|);
    FollowedByItself(es, root, Upto(es, root, |es|));
  }

  lemma UptoSettles(es: seq<Entry>, root: Entry)
    requires UniqueComments(es) && IsRoot(es, root)
    ensures Upto(es, root, |es| + 1) == Upto(es, root, |es|)
  {
    DepthBounded(es, root, |es| + 1);
  }

  lemma FollowedByItself(es: seq<Entry>, root: Entry, all: seq<Entry>)
    requires all != [] && Follows(es, root, all, all)
    ensures all[1..] == Kids(es, all, |all|)
  {
  }

  // ----- Every entry once -----

  /** The replies folded into the first n rows. */
  function Folded(rows: seq<Row>, n: nat): seq<Entry>
    requires n <= |rows|
  {
    if n == 0 then [] else Folded(rows, n - 1) + rows[n - 1].replies
  }

  /** The entries that head the first n rows. */
  function Heads(rows: seq<Row>, n: nat): seq<Entry>
    requires n <= |rows|
  {
    if n == 0 then [] else Heads(rows, n - 1) + [rows[n - 1].entry]
  }

  ghost predicate AreRowsOf(rows: seq<Row>, es: seq<Entry>, top: seq<Entry>) {
    |rows| == |top| && forall i :: 0 <= i < |rows| ==> rows[i] == RowOf(es, top[i])
  }

  ghost predicate LeadsToOneOf(es: seq<Entry>, e: Entry, top: seq<Entry>, n: nat)
    requires n <= |top|
  {
    exists i :: 0 <= i < n && top[i].isComment && Leads(es, e, top[i])
  }

  ghost predicate IsTop(es: seq<Entry>, top: seq<Entry>) {
    && (forall i :: 0 <= i < |top| ==> top[i] in es && !IsReply(AllIds(es), top[i]))
    && (forall i, j :: 0 <= i < j < |top| && top[i].isComment ==> top[i] != top[j])
  }

  lemma RepliesOfRow(es: seq<Entry>, top: seq<Entry>, n: nat, e: Entry)
    requires UniqueComments(es) && n < |top| && IsTop(es, top)
    ensures e in RowOf(es, top[n]).replies <==>
            Here(es, e) && IsReply(AllIds(es), e) && top[n].isComment && Leads(es, e, top[n])
  {
    if top[n].isComment {
      DescendantsMeans(es, top[n]);
    }
  }

  lemma FoldedMore(rows: seq<Row>, n: nat, e: Entry)
    requires n < |rows|
    ensures e in Folded(rows, n + 1) <==> e in Folded(rows, n) || e in rows[n].replies
  {
  }

  lemma {:induction false} InFolded(rows: seq<Row>, n: nat, e: Entry)
    requires n <= |rows|
    ensures e in Folded(rows, n) <==> exists i :: 0 <= i < n && e in rows[i].replies
  {
    if n > 0 {
      InFolded(rows, n - 1, e);
      FoldedMore(rows, n - 1, e);
    }
  }

  /** The folded replies are those that lead to one of the rows' comments. */
  lemma FoldedHas(es: seq<Entry>, top: seq<Entry>, rows: seq<Row>, n: nat, e: Entry)
    requires UniqueComments(es) && n <= |top| && IsTop(es, top) && AreRowsOf(rows, es, top)
    ensures e in Folded(rows, n) <==> Here(es, e) && IsReply(AllIds(es), e) && LeadsToOneOf(es, e, top, n)
  {
    InFolded(rows, n, e);
    forall i | 0 <= i < n
      ensures e in rows[i].replies <==>
              Here(es, e) && IsReply(AllIds(es), e) && top[i].isComment && Leads(es, e, top[i])
    {
      RepliesOfRow(es, top, i, e);
    }
  }

  /** What is folded into earlier rows is not folded into this one. */
  lemma RowApart(es: seq<Entry>, top: seq<Entry>, rows: seq<Row>, n: nat, before: seq<Entry>, replies: seq<Entry>)
    requires UniqueComments(es) && n < |top| && IsTop(es, top) && AreRowsOf(rows, es, top)
    requires before == Folded(rows, n) && replies == RowOf(es, top[n]).replies
    ensures forall e :: e in before ==> e !in replies
  {
    if top[n].isComment {
      ThreadsApart(es, top, n, top[n]);
    }
    forall e | e in before ensures e !in replies {
      FoldedHas(es, top, rows, n, e);
      RepliesOfRow(es, top, n, e);
    }
  }

  lemma RowDistinct(es: seq<Entry>, top: seq<Entry>, n: nat)
    requires UniqueComments(es) && n < |top| && IsTop(es, top)
    ensures Distinct(RowOf(es, top[n]).replies)
  {
    if top[n].isComment {
      DescendantsMeans(es, top[n]);
    }
  }

  /** Row k repeats no reply, neither within itself nor from the rows above it. */
  ghost predicate AddsNew(rows: seq<Row>, k: nat)
    requires k < |rows|
  {
    Distinct(rows[k].replies) && forall e :: e in Folded(rows, k) ==> e !in rows[k].replies
  }

  lemma RowAddsNew(es: seq<Entry>, top: seq<Entry>, rows: seq<Row>, k: nat)
    requires UniqueComments(es) && k < |top| && IsTop(es, top) && AreRowsOf(rows, es, top)
    ensures AddsNew(rows, k)
  {
    RowDistinct(es, top, k);
    RowApart(es, top, rows, k, Folded(rows, k), rows[k].replies);
  }

  lemma {:induction false} FoldedDistinct(rows: seq<Row>, n: nat)
    requires n <= |rows| && forall k: nat :: k < n ==> AddsNew(rows, k)
    ensures Distinct(Folded(rows, n))
  {
    if n > 0 {
      FoldedDistinct(rows, n - 1);
      assert AddsNew(rows, n - 1);
      ConcatDistinct(Folded(rows, n - 1), rows[n - 1].replies);
    }
  }

  lemma FoldedMeans(es: seq<Entry>, top: seq<Entry>, rows: seq<Row>, n: nat)
    requires UniqueComments(es) && n <= |top| && IsTop(es, top) && AreRowsOf(rows, es, top)
    ensures Distinct(Folded(rows, n))
    ensures forall e :: e in Folded(rows, n) <==> Here(es, e) && IsReply(AllIds(es), e) && LeadsToOneOf(es, e, top, n)
  {
    forall k: nat | k < n ensures AddsNew(rows, k) {
      RowAddsNew(es, top, rows, k);
    }
    FoldedDistinct(rows, n);
    forall e ensures e in Folded(rows, n) <==> Here(es, e) && IsReply(AllIds(es), e) && LeadsToOneOf(es, e, top, n) {
      FoldedHas(es, top, rows, n, e);
    }
  }

  /** No entry leads to two roots. */
  lemma ThreadsApart(es: seq<Entry>, top: seq<Entry>, n: nat, root: Entry)
    requires n < |top| && IsTop(es, top) && root == top[n] && root.isComment
    ensures forall e :: LeadsToOneOf(es, e, top, n) ==> !Leads(es, e, root)
  {
    forall e | LeadsToOneOf(es, e, top, n) ensures !Leads(es, e, root) {
      var i :| 0 <= i < n && top[i].isComment && Leads(es, e, top[i]);
      var d: nat :| Ancestor(es, e, d) == Some(top[i]);
      if c: nat :| Ancestor(es, e, c) == Some(root) {
        DepthUnique(es, e, top[i], root, d, c);
      }
    }
  }

  /** The replies among the first n entries. */
  function RepliesAmong(ids: set<Id>, es: seq<Entry>, n: nat): seq<Entry>
    requires n <= |es|
  {
    if n == 0 then []
    else if IsReply(ids, es[n - 1]) then RepliesAmong(ids, es, n - 1) + [es[n - 1]]
    else RepliesAmong(ids, es, n - 1)
  }

  lemma {:induction false} RepliesAmongMeans(ids: set<Id>, es: seq<Entry>, n: nat)
    requires n <= |es|
    ensures forall e :: e in RepliesAmong(ids, es, n) <==> Among(e, es, n) && IsReply(ids, e)
    ensures UniqueComments(es) ==> Distinct(RepliesAmong(ids, es, n))
  {
    if n > 0 {
      RepliesAmongMeans(ids, es, n - 1);
      forall e ensures Among(e, es, n) <==> Among(e, es, n - 1) || e == es[n - 1] {
      }
    }
  }

  lemma {:induction false} SplitInput(ids: set<Id>, es: seq<Entry>, n: nat)
    requires n <= |es|
    ensures multiset(es[..n]) == multiset(TopLevel(ids, es, n)) + multiset(RepliesAmong(ids, es, n))
  {
    if n > 0 {
      SplitInput(ids, es, n - 1);
      TakePush(es, n);
      OnePushed(es[..n - 1], TopLevel(ids, es, n - 1), RepliesAmong(ids, es, n - 1), es[n - 1]);
    }
  }

  lemma OnePushed(all: seq<Entry>, a: seq<Entry>, b: seq<Entry>, e: Entry)
    requires multiset(all) == multiset(a) + multiset(b)
    ensures multiset(all + [e]) == multiset(a + [e]) + multiset(b)
    ensures multiset(all + [e]) == multiset(a) + multiset(b + [e])
  {
  }

  lemma {:induction false} SplitShown(rows: seq<Row>, n: nat)
    requires n <= |rows|
    ensures multiset(Shown(rows, n)) == multiset(Heads(rows, n)) + multiset(Folded(rows, n))
  {
    if n > 0 {
      SplitShown(rows, n - 1);
      RowPushed(Shown(rows, n - 1), Heads(rows, n - 1), Folded(rows, n - 1), rows[n - 1].entry, rows[n - 1].replies);
    }
  }

  lemma {:induction false} HeadsAreTop(es: seq<Entry>, top: seq<Entry>, rows: seq<Row>, n: nat)
    requires n <= |rows| && AreRowsOf(rows, es, top)
    ensures Heads(rows, n) == top[..n]
  {
    if n > 0 {
      HeadsAreTop(es, top, rows, n - 1);
      TakePush(top, n);
      assert rows[n - 1] == RowOf(es, top[n - 1]);
    }
  }

  lemma TakePush(s: seq<Entry>, n: nat)
    requires 0 < n <= |s|
    ensures s[..n] == s[..n - 1] + [s[n - 1]]
  {
  }

  lemma RowPushed(shown: seq<Entry>, top: seq<Entry>, folded: seq<Entry>, e: Entry, replies: seq<Entry>)
    requires multiset(shown) == multiset(top) + multiset(folded)
    ensures multiset(shown + ([e] + replies)) == multiset(top + [e]) + multiset(folded + replies)
  {
  }

  lemma {:induction false} TopIsTop(es: seq<Entry>, n: nat)
    requires UniqueComments(es) && n <= |es|
    ensures IsTop(es, TopLevel(AllIds(es), es, n))
  {
    if n > 0 {
      TopIsTop(es, n - 1);
      TopLevelMeans(AllIds(es), es, n - 1);
      var before := TopLevel(AllIds(es), es, n - 1);
      forall i | 0 <= i < |before| && before[i].isComment ensures before[i] != es[n - 1] {
        assert before[i] in before;
        var a :| 0 <= a < n - 1 && es[a] == before[i];
      }
    }
  }

  lemma RootsAreTop(es: seq<Entry>, e: Entry)
    ensures var top := TopLevel(AllIds(es), es, |es|);
            LeadsToOneOf(es, e, top, |top|) <==> Rooted(es, e)
  {
    var top := TopLevel(AllIds(es), es, |es|);
    TopLevelIsRest(es);
    if LeadsToOneOf(es, e, top, |top|) {
      var i :| 0 <= i < |top| && top[i].isComment && Leads(es, e, top[i]);
      assert top[i] in top && IsRoot(es, top[i]);
    }
    if r :| IsRoot(es, r) && Leads(es, e, r) {
      assert r in top;
    }
  }

  /** The replies folded into the rows are exactly the rooted ones, once each. */
  lemma FoldedIsRooted(es: seq<Entry>)
    requires UniqueComments(es)
    ensures var replies := Folded(Rows(es), |Rows(es)|);
            Distinct(replies) && forall e :: e in replies <==> e in es && IsReply(AllIds(es), e) && Rooted(es, e)
  {
    var top := TopLevel(AllIds(es), es, |es|);
    TopIsTop(es, |es|);
    FoldedMeans(es, top, Rows(es), |top|);
    forall e ensures LeadsToOneOf(es, e, top, |top|) <==> Rooted(es, e) {
      RootsAreTop(es, e);
    }
  }

  /** The rows show every top-level entry as often as the input has it, and besides them exactly the rooted
    * replies, once each. */
  lemma ShownExactly(es: seq<Entry>) returns (replies: seq<Entry>)
    requires UniqueComments(es)
    ensures multiset(Shown(Rows(es), |Rows(es)|)) == multiset(TopLevel(AllIds(es), es, |es|)) + multiset(replies)
    ensures Distinct(replies)
    ensures forall e :: e in replies <==> e in es && IsReply(AllIds(es), e) && Rooted(es, e)
  {
    var top := TopLevel(AllIds(es), es, |es|);
    SplitShown(Rows(es), |top|);
    HeadsAreTop(es, top, Rows(es), |top|);
    assert top[..|top|] == top;
    FoldedIsRooted(es);
    replies := Folded(Rows(es), |top|);
  }

  lemma SameRestSameWhole(top: multiset<Entry>, x: multiset<Entry>, y: multiset<Entry>)
    ensures top + x == top + y <==> x == y
  {
    if top + x == top + y {
      forall e ensures x[e] == y[e] {
        assert (top + x)[e] == (top + y)[e];
      }
    }
  }

  /** Counts agree: the rows show exactly the input, entry for entry, if and only if no reply chain is a cycle. */
  lemma CountsAgreeExactly(es: seq<Entry>)
    requires UniqueComments(es)
    ensures multiset(Shown(Rows(es), |Rows(es)|)) == multiset(es) <==> Acyclic(es)
  {
    var replies := ShownExactly(es);
    var all := RepliesAmong(AllIds(es), es, |es|);
    SplitInput(AllIds(es), es, |es|);
    assert es[..|es|] == es;
    SameRestSameWhole(multiset(TopLevel(AllIds(es), es, |es|)), multiset(replies), multiset(all));
    AllRootedExactly(es, replies, all);
  }

  lemma AllRootedExactly(es: seq<Entry>, replies: seq<Entry>, all: seq<Entry>)
    requires UniqueComments(es) && Distinct(replies) && all == RepliesAmong(AllIds(es), es, |es|)
    requires forall e :: e in replies <==> e in es && IsReply(AllIds(es), e) && Rooted(es, e)
    ensures multiset(replies) == multiset(all) <==> Acyclic(es)
  {
    RepliesAmongMeans(AllIds(es), es, |es|);
    AcyclicIsRooted(es);
    if Acyclic(es) {
      SameElemsSameMultiset(replies, all);
    } else {
      var e :| Here(es, e) && IsReply(AllIds(es), e) && !Rooted(es, e);
      assert e in multiset(all) && e !in multiset(replies);
    }
  }

  // ----- Acyclic means every chain has an end -----

  lemma {:induction false} OnCycleNoEnd(es: seq<Entry>, e: Entry, k: nat, j: nat)
    requires k > 0 && Ancestor(es, e, k) == Some(e)
    ensures Ancestor(es, e, j).Some? && IsReply(AllIds(es), Ancestor(es, e, j).value)
    decreases j
  {
    if j < k {
      AncestorAdds(es, e, j, k - j);
    } else {
      AncestorAdds(es, e, k, j - k);
      OnCycleNoEnd(es, e, k, j - k);
    }
  }

  lemma {:induction false} NoRootNoEnd(es: seq<Entry>, e: Entry, j: nat)
    requires Here(es, e) && !Rooted(es, e)
    ensures Ancestor(es, e, j).Some?
  {
    if j > 0 {
      NoRootNoEnd(es, e, j - 1);
      var a := Ancestor(es, e, j - 1).value;
      assert Leads(es, e, a) && !IsRoot(es, a);
      AncestorAdds(es, e, j - 1, 1);
      assert Ancestor(es, a, 1) == Ancestor(es, Parent(es, a), 0);
    }
  }

  ghost function Chain(es: seq<Entry>, e: Entry, n: nat): (c: seq<Entry>)
    requires forall j :: 0 <= j <= n ==> Ancestor(es, e, j).Some?
    ensures |c| == n + 1 && forall j :: 0 <= j <= n ==> c[j] == Ancestor(es, e, j).value
  {
    seq(n + 1, j requires 0 <= j <= n => Ancestor(es, e, j).value)
  }

  /** A chain longer than the timeline repeats itself. */
  lemma EndlessIsCyclic(es: seq<Entry>, e: Entry)
    requires Here(es, e) && !Rooted(es, e)
    ensures !Acyclic(es)
  {
    forall j: nat ensures Ancestor(es, e, j).Some? {
      NoRootNoEnd(es, e, j);
    }
    var chain := Chain(es, e, |es|);
    forall x | x in chain ensures x in Elems(es) {
      var j :| 0 <= j < |chain| && chain[j] == x;
    }
    ElemsCard(es);
    if Distinct(chain) {
      DistinctFits(chain, Elems(es));
    } else {
      var i, j :| 0 <= i < j < |chain| && chain[i] == chain[j];
      AncestorAdds(es, e, i, j - i);
      assert Here(es, chain[i]);
    }
  }

  /** No cycles exactly when every reply is rooted. */
  lemma AcyclicIsRooted(es: seq<Entry>)
    ensures Acyclic(es) <==> forall e :: Here(es, e) && IsReply(AllIds(es), e) ==> Rooted(es, e)
  {
    if Acyclic(es) {
      forall e | Here(es, e) && IsReply(AllIds(es), e) ensures Rooted(es, e) {
        if !Rooted(es, e) {
          EndlessIsCyclic(es, e);
        }
      }
    } else {
      var e, k :| Here(es, e) && k > 0 && Ancestor(es, e, k) == Some(e);
      OnCycleNoEnd(es, e, k, 0);
      if Rooted(es, e) {
        var r :| IsRoot(es, r) && Leads(es, e, r);
        var d: nat :| Ancestor(es, e, d) == Some(r);
        OnCycleNoEnd(es, e, k, d);
      }
    }
  }

  /** Two comments that answer each other are shown in no row. */
  lemma CycleShowsNothing(e: Entry, f: Entry)
    requires e.isComment && f.isComment && e.id != f.id
    requires e.parentId == Some(f.id) && f.parentId == Some(e.id)
    ensures UniqueComments([e, f]) && !Acyclic([e, f]) && Rows([e, f]) == []
  {
    var es := [e, f];
    assert CommentIds(es, 0) == {} && CommentIds(es, 1) == {e.id};
    var ids := CommentIds(es, 2);
    assert ids == {e.id, f.id} && IsReply(ids, e) && IsReply(ids, f);
    assert TopLevel(ids, es, 0) == [];
    assert TopLevel(ids, es, 1) == [];
    assert TopLevel(ids, es, 2) == [];
    ShownNowhere(es);
  }

  lemma ShownNowhere(es: seq<Entry>)
    requires UniqueComments(es) && es != [] && Rows(es) == []
    ensures !Acyclic(es)
  {
    CountsAgreeExactly(es);
    assert |multiset(es)| == |es|;
  }

  // ----- Who heads a row -----

  /** The entry is a comment that answers a comment of the timeline. */
  ghost predicate AnswersHere(es: seq<Entry>, e: Entry) {
    e.isComment && exists p :: p in es && p.isComment && e.parentId == Some(p.id)
  }

  lemma ReplyExactly(es: seq<Entry>, e: Entry)
    ensures IsReply(AllIds(es), e) <==> AnswersHere(es, e)
  {
    CommentIdsMeans(es, |es|);
    if AnswersHere(es, e) {
      var p :| p in es && p.isComment && e.parentId == Some(p.id);
      var i :| 0 <= i < |es| && es[i] == p;
      assert es[i].isComment && es[i].id == e.parentId.value;
    }
  }

  /** These are the places of the entries among the first n that answer nobody. */
  ghost predicate TopPlaces(ids: set<Id>, es: seq<Entry>, n: nat, places: seq<nat>)
    requires n <= |es|
  {
    forall p :: p in places <==> 0 <= p < n && !IsReply(ids, es[p])
  }

  ghost predicate Ascending(places: seq<nat>, n: nat) {
    && (forall k :: 0 <= k < |places| ==> places[k] < n)
    && (forall i, j :: 0 <= i < j < |places| ==> places[i] < places[j])
  }

  lemma TopPlacesMore(ids: set<Id>, es: seq<Entry>, n: nat, places: seq<nat>)
    requires n < |es| && TopPlaces(ids, es, n, places)
    ensures TopPlaces(ids, es, n + 1, if IsReply(ids, es[n]) then places else places + [n])
  {
  }

  lemma AscendingMore(places: seq<nat>, n: nat)
    requires Ascending(places, n)
    ensures Ascending(places, n + 1) && Ascending(places + [n], n + 1)
  {
  }

  /** The entries stand at these places. */
  ghost predicate StandAt(es: seq<Entry>, n: nat, top: seq<Entry>, places: seq<nat>) {
    && n <= |es| && |places| == |top|
    && forall k :: 0 <= k < |places| ==> places[k] < n && es[places[k]] == top[k]
  }

  lemma StandAtMore(es: seq<Entry>, n: nat, top: seq<Entry>, places: seq<nat>)
    requires n < |es| && StandAt(es, n, top, places)
    ensures StandAt(es, n + 1, top, places) && StandAt(es, n + 1, top + [es[n]], places + [n])
  {
  }

  function PlacesOfTop(ids: set<Id>, es: seq<Entry>, n: nat): seq<nat>
    requires n <= |es|
  {
    if n == 0 then []
    else if IsReply(ids, es[n - 1]) then PlacesOfTop(ids, es, n - 1)
    else PlacesOfTop(ids, es, n - 1) + [n - 1]
  }

  lemma {:induction false} PlacesAreTop(ids: set<Id>, es: seq<Entry>, n: nat)
    requires n <= |es|
    ensures TopPlaces(ids, es, n, PlacesOfTop(ids, es, n))
  {
    if n > 0 {
      PlacesAreTop(ids, es, n - 1);
      TopPlacesMore(ids, es, n - 1, PlacesOfTop(ids, es, n - 1));
    }
  }

  lemma {:induction false} PlacesAscend(ids: set<Id>, es: seq<Entry>, n: nat)
    requires n <= |es|
    ensures Ascending(PlacesOfTop(ids, es, n), n)
  {
    if n > 0 {
      PlacesAscend(ids, es, n - 1);
      AscendingMore(PlacesOfTop(ids, es, n - 1), n - 1);
    }
  }

  lemma {:induction false} TopStandsThere(ids: set<Id>, es: seq<Entry>, n: nat)
    requires n <= |es|
    ensures StandAt(es, n, TopLevel(ids, es, n), PlacesOfTop(ids, es, n))
  {
    if n > 0 {
      TopStandsThere(ids, es, n - 1);
      StandAtMore(es, n - 1, TopLevel(ids, es, n - 1), PlacesOfTop(ids, es, n - 1));
    }
  }

  /** An entry heads a row exactly when it answers no comment of the timeline, and rows keep the input order. */
  lemma RowsHeadedExactly(es: seq<Entry>) returns (places: seq<nat>)
    ensures |places| == |Rows(es)|
    ensures forall k :: 0 <= k < |places| ==> places[k] < |es| && Rows(es)[k].entry == es[places[k]]
    ensures forall i, j :: 0 <= i < j < |places| ==> places[i] < places[j]
    ensures forall p :: p in places <==> 0 <= p < |es| && !AnswersHere(es, es[p])
  {
    places := PlacesOfTop(AllIds(es), es, |es|);
    PlacesAreTop(AllIds(es), es, |es|);
    PlacesAscend(AllIds(es), es, |es|);
    TopStandsThere(AllIds(es), es, |es|);
    forall p | 0 <= p < |es| ensures IsReply(AllIds(es), es[p]) <==> AnswersHere(es, es[p]) {
      ReplyExactly(es, es[p]);
    }
  }
}
