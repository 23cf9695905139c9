/** Grouping a timeline into reply threads: one row per top-level entry, its whole descendant chain folded in. */
module TimelineThread {
  import opened Common

  /** Entry ids, which are only compared, and all the fields the grouping does not look at. */
  type Id(==, !new)
  type Payload(==, !new)

  /** A timeline entry; an absent, null or empty parent id is None. */
  datatype Entry = Entry(isComment: bool, id: Id, parentId: Option<Id>, payload: Payload)

  datatype Row = Row(entry: Entry, replies: seq<Entry>)

  /** The ids of the comments among the first n entries. */
  function CommentIds(es: seq<Entry>, n: nat): set<Id>
    requires n <= |es|
  {
    if n == 0 then {} else CommentIds(es, n - 1) + (if es[n - 1].isComment then {es[n - 1].id} else {})
  }

  function AllIds(es: seq<Entry>): set<Id> {
    CommentIds(es, |es|)
  }

  /** A comment whose parent is among the loaded comments; an orphan is not a reply. */
  predicate IsReply(ids: set<Id>, e: Entry) {
    e.isComment && e.parentId.Some? && e.parentId.value in ids
  }

  predicate Answers(ids: set<Id>, e: Entry, id: Id) {
    IsReply(ids, e) && e.parentId == Some(id)
  }

  /** The entries that are no replies, among the first n. */
  function TopLevel(ids: set<Id>, es: seq<Entry>, n: nat): seq<Entry>
    requires n <= |es|
  {
    if n == 0 then []
    else if IsReply(ids, es[n - 1]) then TopLevel(ids, es, n - 1)
    else TopLevel(ids, es, n - 1) + [es[n - 1]]
  }

  /** The replies to a comment among the first n entries, in input order. */
  function Children(ids: set<Id>, es: seq<Entry>, n: nat, id: Id): seq<Entry>
    requires n <= |es|
  {
    if n == 0 then []
    else if Answers(ids, es[n - 1], id) then Children(ids, es, n - 1, id) + [es[n - 1]]
    else Children(ids, es, n - 1, id)
  }

  function Replies(es: seq<Entry>, id: Id): seq<Entry> {
    Children(AllIds(es), es, |es|, id)
  }

  /** The replies to each of the first n parents in turn. */
  function Kids(es: seq<Entry>, parents: seq<Entry>, n: nat): seq<Entry>
    requires n <= |parents|
  {
    if n == 0 then [] else Kids(es, parents, n - 1) + Replies(es, parents[n - 1].id)
  }

  /** The entries d replies below root. */
  function Level(es: seq<Entry>, root: Entry, d: nat): seq<Entry> {
    if d == 0 then [root]
    else
      var above := Level(es, root, d - 1);
      Kids(es, above, |above|)
  }

  /** root and everything at most n replies below it, level by level. */
  function Upto(es: seq<Entry>, root: Entry, n: nat): (r: seq<Entry>)
    ensures |r| > 0 && r[0] == root
  {
    if n == 0 then [root] else Upto(es, root, n - 1) + Level(es, root, n)
  }

  /** All descendants; no chain of replies is longer than the timeline. */
  function Descendants(es: seq<Entry>, root: Entry): seq<Entry> {
    Upto(es, root, |es|)[1..]
  }

  function RowOf(es: seq<Entry>, e: Entry): Row {
    Row(e, if e.isComment then Descendants(es, e) else [])
  }

  function Rows(es: seq<Entry>): (rows: seq<Row>)
    ensures |rows| == |TopLevel(AllIds(es), es, |es|)|
  {
    var top := TopLevel(AllIds(es), es, |es|);
    seq(|top|, i requires 0 <= i < |top| => RowOf(es, top[i]))
  }

  ghost predicate UniqueComments(es: seq<Entry>) {
    forall i, j :: 0 <= i < j < |es| && es[i].isComment && es[j].isComment ==> es[i].id != es[j].id
  }

  // ----- Members -----

  /** Entry e is one of the first n. */
  ghost predicate Among(e: Entry, es: seq<Entry>, n: nat)
    requires n <= |es|
  {
    exists i :: 0 <= i < n && es[i] == e
  }

  lemma {:induction false} CommentIdsMeans(es: seq<Entry>, n: nat)
    requires n <= |es|
    ensures forall id :: id in CommentIds(es, n) <==> exists i :: 0 <= i < n && es[i].isComment && es[i].id == id
  {
    if n > 0 {
      CommentIdsMeans(es, n - 1);
    }
  }

  lemma {:induction false} TopLevelMeans(ids: set<Id>, es: seq<Entry>, n: nat)
    requires n <= |es|
    ensures forall e :: e in TopLevel(ids, es, n) <==> Among(e, es, n) && !IsReply(ids, e)
  {
    if n > 0 {
      TopLevelMeans(ids, es, n - 1);
      forall e ensures Among(e, es, n) <==> Among(e, es, n - 1) || e == es[n - 1] {
      }
    }
  }

  lemma TopLevelIsRest(es: seq<Entry>)
    ensures forall e :: e in TopLevel(AllIds(es), es, |es|) <==> e in es && !IsReply(AllIds(es), e)
  {
    TopLevelMeans(AllIds(es), es, |es|);
  }

  lemma {:induction false} ChildrenMeans(ids: set<Id>, es: seq<Entry>, n: nat, id: Id)
    requires n <= |es|
    ensures forall e :: e in Children(ids, es, n, id) <==> Among(e, es, n) && Answers(ids, e, id)
    ensures UniqueComments(es) ==> Distinct(Children(ids, es, n, id))
  {
    if n > 0 {
      ChildrenMeans(ids, es, n - 1, id);
      forall e ensures Among(e, es, n) <==> Among(e, es, n - 1) || e == es[n - 1] {
      }
    }
  }

  lemma RepliesMeans(es: seq<Entry>, id: Id)
    ensures forall e :: e in Replies(es, id) <==> e in es && Answers(AllIds(es), e, id)
    ensures UniqueComments(es) ==> Distinct(Replies(es, id))
  {
    ChildrenMeans(AllIds(es), es, |es|, id);
  }

  /** One of the first n parents is answered by e. */
  ghost predicate AnswersOneOf(e: Entry, parents: seq<Entry>, n: nat)
    requires n <= |parents|
  {
    exists i :: 0 <= i < n && e.parentId == Some(parents[i].id)
  }

  lemma {:induction false} KidsMeans(es: seq<Entry>, parents: seq<Entry>, n: nat)
    requires n <= |parents|
    ensures forall e :: e in Kids(es, parents, n) <==> e in es && IsReply(AllIds(es), e) && AnswersOneOf(e, parents, n)
  {
    if n > 0 {
      KidsMeans(es, parents, n - 1);
      RepliesMeans(es, parents[n - 1].id);
      forall e ensures AnswersOneOf(e, parents, n) <==>
          AnswersOneOf(e, parents, n - 1) || e.parentId == Some(parents[n - 1].id)
      {
      }
    }
  }

  /** Only the first n parents matter. */
  lemma {:induction false} KidsAgree(es: seq<Entry>, a: seq<Entry>, b: seq<Entry>, n: nat)
    requires n <= |a| && n <= |b| && forall i :: 0 <= i < n ==> a[i] == b[i]
    ensures Kids(es, a, n) == Kids(es, b, n)
  {
    if n > 0 {
      KidsAgree(es, a, b, n - 1);
    }
  }

  lemma KidsStep(es: seq<Entry>, parents: seq<Entry>, n: nat, parent: Entry)
    requires n < |parents| && parents[n] == parent
    ensures Kids(es, parents, n + 1) == Kids(es, parents, n) + Replies(es, parent.id)
  {
  }

  lemma {:induction false} KidsConcat(es: seq<Entry>, a: seq<Entry>, b: seq<Entry>, n: nat)
    requires n <= |b|
    ensures Kids(es, a + b, |a| + n) == Kids(es, a, |a|) + Kids(es, b, n)
  {
    if n == 0 {
      KidsAgree(es, a + b, a, |a|);
    } else {
      KidsConcat(es, a, b, n - 1);
      KidsStep(es, a + b, |a| + n - 1, b[n - 1]);
      KidsStep(es, b, n - 1, b[n - 1]);
      Associative(Kids(es, a, |a|), Kids(es, b, n - 1), Replies(es, b[n - 1].id));
    }
  }

  lemma {:induction false} KidsGrow(es: seq<Entry>, parents: seq<Entry>, m: nat, n: nat)
    requires m <= n <= |parents|
    ensures Kids(es, parents, m) <= Kids(es, parents, n)
    decreases n
  {
    if m < n {
      KidsGrow(es, parents, m, n - 1);
    }
  }

  /** A comment that can head a row, or stand in a thread. */
  ghost predicate Here(es: seq<Entry>, e: Entry) {
    e in es && e.isComment
  }

  lemma SameIdSameComment(es: seq<Entry>, a: Entry, b: Entry)
    requires UniqueComments(es) && Here(es, a) && Here(es, b) && a.id == b.id
    ensures a == b
  {
    var i, j :| 0 <= i < |es| && 0 <= j < |es| && es[i] == a && es[j] == b;
    assert i == j;
  }

  lemma ConcatDistinct(a: seq<Entry>, b: seq<Entry>)
    requires Distinct(a) && Distinct(b) && forall e :: e in a ==> e !in b
    ensures Distinct(a + b)
  {
    forall i, j | 0 <= i < j < |a + b| ensures (a + b)[i] != (a + b)[j] {
      if i < |a| <= j {
        assert a[i] in a && b[j - |a|] in b;
      }
    }
  }

  /** Distinct parents have no reply in common, so their replies are distinct. */
  lemma {:induction false} KidsDistinct(es: seq<Entry>, parents: seq<Entry>, n: nat)
    requires n <= |parents|
    requires UniqueComments(es) && Distinct(parents) && forall p :: p in parents ==> Here(es, p)
    ensures Distinct(Kids(es, parents, n))
  {
    if n > 0 {
      var last := parents[n - 1];
      KidsDistinct(es, parents, n - 1);
      KidsMeans(es, parents, n - 1);
      RepliesMeans(es, last.id);
      forall e | e in Kids(es, parents, n - 1) ensures e !in Replies(es, last.id) {
        var i :| 0 <= i < n - 1 && e.parentId == Some(parents[i].id);
        assert parents[i] in parents && last in parents && parents[i] != last;
        if parents[i].id == last.id {
          SameIdSameComment(es, parents[i], last);
        }
      }
      ConcatDistinct(Kids(es, parents, n - 1), Replies(es, last.id));
    }
  }

  // ----- Ancestors -----

  /** The comment a reply answers. */
  ghost function Parent(es: seq<Entry>, e: Entry): (p: Entry)
    requires IsReply(AllIds(es), e)
    ensures Here(es, p) && e.parentId == Some(p.id)
  {
    CommentIdsMeans(es, |es|);
    var i :| 0 <= i < |es| && es[i].isComment && es[i].id == e.parentId.value;
    es[i]
  }

  /** k steps up the chain of parents, if there are that many. */
  ghost function Ancestor(es: seq<Entry>, e: Entry, k: nat): (a: Option<Entry>)
    ensures k > 0 && a.Some? ==> Here(es, a.value)
    decreases k
  {
    if k == 0 then Some(e)
    else if !IsReply(AllIds(es), e) then None
    else Ancestor(es, Parent(es, e), k - 1)
  }

  lemma {:induction false} AncestorAdds(es: seq<Entry>, e: Entry, j: nat, k: nat)
    ensures Ancestor(es, e, j + k) ==
            if Ancestor(es, e, j).None? then None else Ancestor(es, Ancestor(es, e, j).value, k)
    decreases j
  {
    if j > 0 && IsReply(AllIds(es), e) {
      AncestorAdds(es, Parent(es, e), j - 1, k);
    }
  }

  ghost predicate IsRoot(es: seq<Entry>, e: Entry) {
    Here(es, e) && !IsReply(AllIds(es), e)
  }

  /** Level d below a root holds exactly the entries whose d-th ancestor it is, each once. */
  lemma {:induction false} LevelMeans(es: seq<Entry>, root: Entry, d: nat)
    requires UniqueComments(es) && IsRoot(es, root)
    ensures Distinct(Level(es, root, d))
    ensures forall e :: e in Level(es, root, d) <==> Here(es, e) && Ancestor(es, e, d) == Some(root)
  {
    if d > 0 {
      var above := Level(es, root, d - 1);
      LevelMeans(es, root, d - 1);
      KidsDistinct(es, above, |above|);
      KidsMeans(es, above, |above|);
      forall e | IsReply(AllIds(es), e) ensures AnswersOneOf(e, above, |above|) <==> Parent(es, e) in above {
        var p := Parent(es, e);
        if i :| 0 <= i < |above| && e.parentId == Some(above[i].id) {
          SameIdSameComment(es, p, above[i]);
        }
      }
    }
  }

  /** An entry stands at one depth only, and under one root only. */
  lemma DepthUnique(es: seq<Entry>, e: Entry, r: Entry, s: Entry, c: nat, d: nat)
    requires IsRoot(es, r) && IsRoot(es, s) && Ancestor(es, e, c) == Some(r) && Ancestor(es, e, d) == Some(s)
    ensures c == d && r == s
  {
    if c < d {
      AncestorAdds(es, e, c, d - c);
    } else if d < c {
      AncestorAdds(es, e, d, c - d);
    }
  }

  ghost predicate Below(es: seq<Entry>, e: Entry, root: Entry, n: int) {
    exists d: nat :: d <= n && Ancestor(es, e, d) == Some(root)
  }

  lemma {:induction false} UptoMeans(es: seq<Entry>, root: Entry, n: nat)
    requires UniqueComments(es) && IsRoot(es, root)
    ensures Distinct(Upto(es, root, n))
    ensures forall e :: e in Upto(es, root, n) <==> Here(es, e) && Below(es, e, root, n)
  {
    LevelMeans(es, root, n);
    if n == 0 {
      assert Ancestor(es, root, 0) == Some(root);
    } else {
      UptoMeans(es, root, n - 1);
      UnionOfLevels(es, root, n, Upto(es, root, n - 1), Level(es, root, n));
    }
  }

  lemma UnionOfLevels(es: seq<Entry>, root: Entry, n: nat, a: seq<Entry>, b: seq<Entry>)
    requires IsRoot(es, root) && n > 0 && Distinct(a) && Distinct(b)
    requires forall e :: e in a <==> Here(es, e) && Below(es, e, root, n - 1)
    requires forall e :: e in b <==> Here(es, e) && Ancestor(es, e, n) == Some(root)
    ensures Distinct(a + b) && forall e :: e in a + b <==> Here(es, e) && Below(es, e, root, n)
  {
    forall e | e in a ensures e !in b {
      var d: nat :| d <= n - 1 && Ancestor(es, e, d) == Some(root);
      AncestorAdds(es, e, d, n - d);
    }
    ConcatDistinct(a, b);
    assert forall e :: Below(es, e, root, n) <==> Below(es, e, root, n - 1) || Ancestor(es, e, n) == Some(root);
  }

  /** The replies to everything up to depth n, after root, are everything up to depth n + 1. */
  ghost predicate Follows(es: seq<Entry>, root: Entry, a: seq<Entry>, b: seq<Entry>) {
    [root] + Kids(es, a, |a|) == b
  }

  lemma FollowsConcat(es: seq<Entry>, root: Entry, a: seq<Entry>, b: seq<Entry>)
    requires Follows(es, root, a, a + b)
    ensures Follows(es, root, a + b, (a + b) + Kids(es, b, |b|))
  {
    KidsConcat(es, a, b, |b|);
    assert [root] + (Kids(es, a, |a|) + Kids(es, b, |b|)) == ([root] + Kids(es, a, |a|)) + Kids(es, b, |b|);
  }

  lemma {:induction false} NextLevelFollows(es: seq<Entry>, root: Entry, n: nat)
    ensures Follows(es, root, Upto(es, root, n), Upto(es, root, n + 1))
  {
    if n == 0 {
      assert Level(es, root, 1) == Kids(es, [root], 1);
    } else {
      NextLevelFollows(es, root, n - 1);
      FollowsConcat(es, root, Upto(es, root, n - 1), Level(es, root, n));
    }
  }

  lemma {:induction false} EmptyStaysEmpty(es: seq<Entry>, root: Entry, d: nat, n: nat)
    requires d <= n && Level(es, root, d) == []
    ensures Level(es, root, n) == [] && (d > 0 ==> Upto(es, root, n) == Upto(es, root, d - 1))
    decreases n
  {
    if d < n {
      EmptyStaysEmpty(es, root, d, n - 1);
    }
  }

  lemma {:induction false} NonemptyCount(es: seq<Entry>, root: Entry, n: nat)
    requires forall d :: 0 <= d <= n ==> Level(es, root, d) != []
    ensures |Upto(es, root, n)| >= n + 1
  {
    if n > 0 {
      NonemptyCount(es, root, n - 1);
    }
  }

  lemma {:induction false} ElemsCard(es: seq<Entry>)
    ensures |Elems(es)| <= |es|
  {
    if es != [] {
      var n := |es| - 1;
      ElemsCard(es[..n]);
      assert es == es[..n] + [es[n]];
      assert Elems(es) == Elems(es[..n]) + {es[n]};
    }
  }

  lemma UptoFits(es: seq<Entry>, root: Entry, n: nat)
    requires UniqueComments(es) && IsRoot(es, root)
    ensures |Upto(es, root, n)| <= |es|
  {
    UptoMeans(es, root, n);
    DistinctFits(Upto(es, root, n), Elems(es));
    ElemsCard(es);
  }

  /** Past depth |es| nothing is left, so Descendants misses no one. */
  lemma DepthBounded(es: seq<Entry>, root: Entry, n: nat)
    requires UniqueComments(es) && IsRoot(es, root) && n >= |es|
    ensures Level(es, root, n) == [] && Upto(es, root, n) == Upto(es, root, |es|)
  {
    UptoFits(es, root, |es|);
    if forall d :: 0 <= d <= |es| ==> Level(es, root, d) != [] {
      NonemptyCount(es, root, |es|);
    } else {
      var d :| 0 <= d <= |es| && Level(es, root, d) == [];
      EmptyStaysEmpty(es, root, d, |es|);
      EmptyStaysEmpty(es, root, d, n);
    }
  }

  // ----- The breadth-first collection -----

  /** After k rounds the entries collected are root and the replies to the first k of them. */
  ghost predicate Reached(es: seq<Entry>, root: Entry, seen: seq<Entry>, k: nat) {
    k <= |seen| <= |es| && seen == [root] + Kids(es, seen, k) && seen <= Upto(es, root, k)
  }

  lemma NextRound(es: seq<Entry>, root: Entry, seen: seq<Entry>, k: nat)
    requires UniqueComments(es) && IsRoot(es, root) && Reached(es, root, seen, k) && k < |seen|
    ensures Reached(es, root, seen + Replies(es, seen[k].id), k + 1)
  {
    var next := seen + Replies(es, seen[k].id);
    NextKids(es, root, seen, k);
    NextWithin(es, root, next, seen, k + 1, k);
    UptoFits(es, root, k + 1);
  }

  lemma NextKids(es: seq<Entry>, root: Entry, seen: seq<Entry>, k: nat)
    requires k < |seen| && seen == [root] + Kids(es, seen, k)
    ensures var next := seen + Replies(es, seen[k].id);
            next == [root] + Kids(es, seen, k + 1) && next == [root] + Kids(es, next, k + 1)
  {
    KidsAgree(es, seen, seen + Replies(es, seen[k].id), k + 1);
    KidsStep(es, seen, k, seen[k]);
    Associative([root], Kids(es, seen, k), Replies(es, seen[k].id));
  }

  /** The replies to a prefix of the first levels lie within the next. */
  lemma NextWithin(es: seq<Entry>, root: Entry, next: seq<Entry>, seen: seq<Entry>, m: nat, k: nat)
    requires m <= |seen| && seen <= Upto(es, root, k) && next == [root] + Kids(es, seen, m)
    ensures next <= Upto(es, root, k + 1)
  {
    var all := Upto(es, root, k);
    KidsAgree(es, seen, all, m);
    KidsGrow(es, all, m, |all|);
    NextLevelFollows(es, root, k);
  }

  lemma NextInside(es: seq<Entry>, root: Entry, all: seq<Entry>, n: nat)
    requires all == [root] + Kids(es, all, |all|) && Upto(es, root, n) <= all
    ensures Upto(es, root, n + 1) <= all
  {
    NextLevelFollows(es, root, n);
    RootedKids(es, root, Upto(es, root, n), all);
  }

  lemma {:induction false} UptoInside(es: seq<Entry>, root: Entry, all: seq<Entry>, n: nat)
    requires all == [root] + Kids(es, all, |all|)
    ensures Upto(es, root, n) <= all
  {
    if n > 0 {
      UptoInside(es, root, all, n - 1);
      NextInside(es, root, all, n - 1);
    }
  }

  lemma RootedKids(es: seq<Entry>, root: Entry, a: seq<Entry>, b: seq<Entry>)
    requires a <= b
    ensures [root] + Kids(es, a, |a|) <= [root] + Kids(es, b, |b|)
  {
    KidsAgree(es, a, b, |a|);
    KidsGrow(es, b, |a|, |b|);
  }

  lemma {:induction false} UptoGrows(es: seq<Entry>, root: Entry, m: nat, n: nat)
    requires m <= n
    ensures Upto(es, root, m) <= Upto(es, root, n)
    decreases n
  {
    if m < n {
      UptoGrows(es, root, m, n - 1);
    }
  }

  /** What is collected when the queue runs empty is the thread. */
  lemma LastRound(es: seq<Entry>, root: Entry, all: seq<Entry>)
    requires UniqueComments(es) && IsRoot(es, root) && Reached(es, root, all, |all|)
    ensures all == Upto(es, root, |es|)
  {
    UptoInside(es, root, all, |es|);
    UptoGrows(es, root, |all|, |es|);
    PrefixesEqual(all, Upto(es, root, |all|), Upto(es, root, |es|));
  }

  lemma PrefixesEqual(a: seq<Entry>, b: seq<Entry>, c: seq<Entry>)
    requires a <= b && b <= c && c <= a
    ensures a == c
  {
  }

  function IdsOf(es: seq<Entry>): (ids: seq<Id>)
    ensures |ids| == |es| && forall i :: 0 <= i < |es| ==> ids[i] == es[i].id
  {
    seq(|es|, i requires 0 <= i < |es| => es[i].id)
  }

  /** The queue holds the ids of the entries seen but not yet expanded. */
  ghost predicate Awaits(queue: seq<Id>, seen: seq<Entry>, k: nat) {
    k <= |seen| && |queue| == |seen| - k && forall i :: k <= i < |seen| ==> queue[i - k] == seen[i].id
  }

  lemma AwaitsStep(queue: seq<Id>, seen: seq<Entry>, k: nat, kids: seq<Entry>)
    requires Awaits(queue, seen, k) && queue != []
    ensures queue[0] == seen[k].id && Awaits(queue[1..] + IdsOf(kids), seen + kids, k + 1)
  {
  }

  ghost predicate IsIndex(es: seq<Entry>, childrenByParent: map<Id, seq<Entry>>) {
    forall id :: Replies(es, id) == if id in childrenByParent then childrenByParent[id] else []
  }

  /** The loop invariant: the output is what was reached, and the queue holds what awaits expansion. */
  ghost predicate Collecting(es: seq<Entry>, root: Entry, seen: seq<Entry>, k: nat, out: seq<Entry>, queue: seq<Id>) {
    Reached(es, root, seen, k) && seen == [root] + out && Awaits(queue, seen, k)
  }

  lemma CollectStep(es: seq<Entry>, root: Entry, seen: seq<Entry>, k: nat, out: seq<Entry>,
                    queue: seq<Id>, kids: seq<Entry>)
    requires UniqueComments(es) && IsRoot(es, root) && Collecting(es, root, seen, k, out, queue) && queue != []
    requires kids == Replies(es, queue[0])
    ensures k < |es| && Collecting(es, root, seen + kids, k + 1, out + kids, queue[1..] + IdsOf(kids))
  {
    AwaitsStep(queue, seen, k, kids);
    NextRound(es, root, seen, k);
    Associative([root], out, kids);
  }

  lemma CollectStart(es: seq<Entry>, root: Entry)
    requires UniqueComments(es) && IsRoot(es, root)
    ensures Collecting(es, root, [root], 0, [], [root.id])
  {
    UptoFits(es, root, 0);
  }

  lemma CollectEnd(es: seq<Entry>, root: Entry, seen: seq<Entry>, k: nat, out: seq<Entry>)
    requires UniqueComments(es) && IsRoot(es, root) && Collecting(es, root, seen, k, out, [])
    ensures out == Descendants(es, root)
  {
    LastRound(es, root, seen);
  }

  method CollectDescendants(ghost es: seq<Entry>, childrenByParent: map<Id, seq<Entry>>,
                            ghost root: Entry, parentId: Id)
    returns (out: seq<Entry>)
    requires UniqueComments(es) && IsRoot(es, root) && parentId == root.id && IsIndex(es, childrenByParent)
    ensures out == Descendants(es, root)
  {
    out := [];
    var queue := [parentId];
    ghost var k, seen := 0, [root];
    CollectStart(es, root);
    while |queue| > 0
      invariant Collecting(es, root, seen, k, out, queue)
      decreases |es| - k
    {
      var pid := queue[0];
      var kids := if pid in childrenByParent then childrenByParent[pid] else [];
      CollectStep(es, root, seen, k, out, queue, kids);
      out, queue := PushAll(kids, out, queue[1..]);
      seen, k := seen + kids, k + 1;
    }
    CollectEnd(es, root, seen, k, out);
  }

  /** The inner loop: each child goes to the output, its id to the queue. */
  method PushAll(kids: seq<Entry>, pushed: seq<Entry>, waiting: seq<Id>) returns (out: seq<Entry>, queue: seq<Id>)
    ensures out == pushed + kids && queue == waiting + IdsOf(kids)
  {
    out, queue := pushed, waiting;
    for n := 0 to |kids|
      invariant out == pushed + kids[..n] && queue == waiting + IdsOf(kids)[..n]
    {
      out := out + [kids[n]];
      queue := queue + [kids[n].id];
    }
  }

  method BuildTimelineRows(es: seq<Entry>) returns (rows: seq<Row>)
    requires UniqueComments(es)
    ensures rows == Rows(es)
  {
    var commentIds: set<Id> := {};
    for n := 0 to |es|
      invariant commentIds == CommentIds(es, n)
    {
      if es[n].isComment {
        commentIds := commentIds + {es[n].id};
      }
    }
    var topLevel, childrenByParent := Partition(commentIds, es);
    rows := MapRows(es, childrenByParent, topLevel);
  }

  /** The final map over the top level. */
  method MapRows(ghost es: seq<Entry>, childrenByParent: map<Id, seq<Entry>>,
                 topLevel: seq<Entry>) returns (rows: seq<Row>)
    requires UniqueComments(es) && topLevel == TopLevel(AllIds(es), es, |es|) && IsIndex(es, childrenByParent)
    ensures rows == Rows(es)
  {
    TopLevelIsRest(es);
    rows := [];
    for n := 0 to |topLevel|
      invariant |rows| == n
      invariant forall i :: 0 <= i < n ==> rows[i] == RowOf(es, topLevel[i])
    {
      assert topLevel[n] in topLevel;
      var row := BuildRow(es, childrenByParent, topLevel[n]);
      rows := rows + [row];
    }
  }

  /** The second loop: replies are filed under their parents, everything else is top-level. */
  method Partition(commentIds: set<Id>, es: seq<Entry>) returns (topLevel: seq<Entry>,
                   childrenByParent: map<Id, seq<Entry>>)
    requires commentIds == AllIds(es)
    ensures topLevel == TopLevel(commentIds, es, |es|) && IsIndex(es, childrenByParent)
  {
    topLevel, childrenByParent := [], map[];
    for n := 0 to |es|
      invariant topLevel == TopLevel(commentIds, es, n)
      invariant forall id ::
        Children(commentIds, es, n, id) == if id in childrenByParent then childrenByParent[id] else []
    {
      var e := es[n];
      if e.isComment && e.parentId.Some? && e.parentId.value in commentIds {
        var list := if e.parentId.value in childrenByParent then childrenByParent[e.parentId.value] else [];
        childrenByParent := childrenByParent[e.parentId.value := list + [e]];
      } else {
        topLevel := topLevel + [e];
      }
    }
  }

  /** One row of the final map over the top level. */
  method BuildRow(ghost es: seq<Entry>, childrenByParent: map<Id, seq<Entry>>, entry: Entry) returns (row: Row)
    requires UniqueComments(es) && entry in es && !IsReply(AllIds(es), entry) && IsIndex(es, childrenByParent)
    ensures row == RowOf(es, entry)
  {
    var replies := [];
    if entry.isComment {
      replies := CollectDescendants(es, childrenByParent, entry, entry.id);
    }
    row := Row(entry, replies);
  }
}
