/** The order in which a cache shows its messages, and when it depends on the order of arrival. */
module MessageOrder {
  import opened Common
  import opened MessageCache
  import opened MessageCacheProofs
  import opened MessageConvergence

  function Ids(messages: seq<Message>): (r: seq<string>)
    ensures |r| == |messages| && forall i :: 0 <= i < |r| ==> r[i] == messages[i].id
  {
    seq(|messages|, i requires 0 <= i < |messages| => messages[i].id)
  }

  /** These ids, and behind them those of the messages that are new, in the order they first come. */
  function IdsAfter(ids: seq<string>, messages: seq<Message>): seq<string> {
    if messages == [] then ids
    else
      var before, id := IdsAfter(ids, messages[..|messages| - 1]), messages[|messages| - 1].id;
      if id in before then before else before + [id]
  }

  lemma IdsAfterMore(ids: seq<string>, messages: seq<Message>, m: Message)
    ensures var before := IdsAfter(ids, messages);
            IdsAfter(ids, messages + [m]) == if m.id in before then before else before + [m.id]
  {
    assert (messages + [m])[..|messages|] == messages;
  }

  lemma UpsertIds(messages: seq<Message>, m: Message)
    ensures Ids(UpsertIntoList(messages, m)) == if m.id in Ids(messages) then Ids(messages) else Ids(messages) + [m.id]
  {
    match FindIndex(messages, m.id)
    case None =>
    case Some(k) =>
      assert Ids(messages)[k] == m.id;
  }

  /** After any run the rows stand as they did, and behind them the new ones in the order of their first write. */
  lemma {:induction false} RunIds(list: Option<seq<Message>>, writes: seq<Write>)
    ensures RunList(list, writes).None? <==> list.None? && Taken(list, writes) == []
    ensures Ids(RowsOf(RunList(list, writes))) == IdsAfter(Ids(RowsOf(list)), Messages(Taken(list, writes)))
  {
    if writes == [] {
    } else {
      var n := |writes| - 1;
      var before := RunList(list, writes[..n]);
      RunIds(list, writes[..n]);
      if before.Some? || writes[n].seedIfMissing {
        UpsertIds(RowsOf(before), writes[n].message);
        MessagesMore(Taken(list, writes[..n]), writes[n]);
        IdsAfterMore(Ids(RowsOf(list)), Messages(Taken(list, writes[..n])), writes[n].message);
      }
    }
  }

  /** The first message with this id is the one at place i. */
  ghost predicate FirstAt(messages: seq<Message>, id: string, i: nat) {
    i < |messages| && messages[i].id == id && forall j :: 0 <= j < i ==> messages[j].id != id
  }

  /** What was there stays in front, and nothing is there but what was there or is written. */
  lemma {:induction false} IdsAfterKeeps(ids: seq<string>, messages: seq<Message>)
    ensures ids <= IdsAfter(ids, messages)
    ensures forall x :: x in IdsAfter(ids, messages) <==> x in ids || HasId(messages, x)
  {
    if messages == [] {
    } else {
      var n := |messages| - 1;
      IdsAfterKeeps(ids, messages[..n]);
      forall x ensures HasId(messages, x) <==> HasId(messages[..n], x) || x == messages[n].id {
        HasIdMore(messages[..n], messages[n], x);
        assert messages == messages[..n] + [messages[n]];
      }
    }
  }

  lemma HasIdMore(messages: seq<Message>, m: Message, x: string)
    ensures HasId(messages + [m], x) <==> HasId(messages, x) || x == m.id
  {
    assert (messages + [m])[|messages|] == m;
    if i :| 0 <= i < |messages| && messages[i].id == x {
      assert (messages + [m])[i].id == x;
    }
  }

  /** Of two new ids, the one that stands first was written first. */
  lemma {:induction false} NewIdsInOrder(ids: seq<string>, messages: seq<Message>, a: nat, b: nat, i: nat, j: nat)
    requires |ids| <= a < b < |IdsAfter(ids, messages)|
    requires FirstAt(messages, IdsAfter(ids, messages)[a], i) && FirstAt(messages, IdsAfter(ids, messages)[b], j)
    ensures i < j
  {
    if messages != [] {
      var n := |messages| - 1;
      var before := IdsAfter(ids, messages[..n]);
      if b < |before| {
        WrittenBefore(ids, messages, a);
        WrittenBefore(ids, messages, b);
        NewIdsInOrder(ids, messages[..n], a, b, i, j);
      } else {
        WrittenBefore(ids, messages, a);
        IdsAfterKeeps(ids, messages[..n]);
        assert j == n;
      }
    }
  }

  /** A new id that stands before the end was written before the last message. */
  lemma WrittenBefore(ids: seq<string>, messages: seq<Message>, a: nat)
    requires messages != [] && |ids| <= a < |IdsAfter(ids, messages[..|messages| - 1])|
    ensures IdsAfter(ids, messages)[a] == IdsAfter(ids, messages[..|messages| - 1])[a]
    ensures forall i: nat :: FirstAt(messages, IdsAfter(ids, messages)[a], i) ==>
              FirstAt(messages[..|messages| - 1], IdsAfter(ids, messages)[a], i)
  {
    var n := |messages| - 1;
    IdsAfterNew(ids, messages[..n], a);
    var id := IdsAfter(ids, messages[..n])[a];
    var k :| 0 <= k < n && messages[..n][k].id == id;
    assert messages[k].id == id;
  }

  lemma {:induction false} IdsAfterNew(ids: seq<string>, messages: seq<Message>, a: nat)
    requires |ids| <= a < |IdsAfter(ids, messages)|
    ensures HasId(messages, IdsAfter(ids, messages)[a])
  {
    if messages != [] {
      var n := |messages| - 1;
      var id := IdsAfter(ids, messages)[a];
      if a < |IdsAfter(ids, messages[..n])| {
        IdsAfterNew(ids, messages[..n], a);
      }
      HasIdMore(messages[..n], messages[n], id);
      assert messages == messages[..n] + [messages[n]];
    }
  }

  // ----- When the order does not depend on arrival -----

  ghost predicate SameTranscript(list: Option<seq<Message>>, p: seq<Write>, q: seq<Write>) {
    Ids(RowsOf(RunList(list, p))) == Ids(RowsOf(RunList(list, q)))
  }

  /** At most one id is new to the list. */
  ghost predicate OneNewId(ids: seq<string>, writes: seq<Write>) {
    forall a, b :: a in writes && b in writes && a.message.id !in ids && b.message.id !in ids ==>
      a.message.id == b.message.id
  }

  ghost predicate FixedOrder(list: Option<seq<Message>>, writes: seq<Write>) {
    (list.None? && NoneSeeds(writes)) || OneNewId(Ids(RowsOf(list)), writes)
  }

  /** The new id, if any, comes last. */
  lemma {:induction false} OnlyOneNew(ids: seq<string>, messages: seq<Message>, x: string)
    requires x !in ids && forall m :: m in messages ==> m.id in ids || m.id == x
    ensures IdsAfter(ids, messages) == if HasId(messages, x) then ids + [x] else ids
  {
    if messages == [] {
    } else {
      var n := |messages| - 1;
      assert messages == messages[..n] + [messages[n]];
      OnlyOneNew(ids, messages[..n], x);
      HasIdMore(messages[..n], messages[n], x);
    }
  }

  lemma {:induction false} NoneNew(ids: seq<string>, messages: seq<Message>)
    requires forall m :: m in messages ==> m.id in ids
    ensures IdsAfter(ids, messages) == ids
  {
    if messages != [] {
      NoneNew(ids, messages[..|messages| - 1]);
    }
  }

  lemma WrittenIds(writes: seq<Write>, x: string)
    ensures HasId(Messages(writes), x) <==> exists w :: w in writes && w.message.id == x
  {
    if i :| 0 <= i < |Messages(writes)| && Messages(writes)[i].id == x {
      assert writes[i] in writes;
    }
    if w :| w in writes && w.message.id == x {
      var i :| 0 <= i < |writes| && writes[i] == w;
      assert Messages(writes)[i].id == x;
    }
  }

  lemma TakenSame(list: Option<seq<Message>>, p: seq<Write>, q: seq<Write>, x: string)
    requires SameElements(p, q) && FixedOrder(list, p) && x !in Ids(RowsOf(list))
    requires forall w :: w in p ==> w.message.id in Ids(RowsOf(list)) || w.message.id == x
    ensures HasId(Messages(Taken(list, p)), x) <==> HasId(Messages(Taken(list, q)), x)
  {
    WrittenIds(Taken(list, p), x);
    WrittenIds(Taken(list, q), x);
    if list.Some? {
      PresentTakesAll(list, p);
      PresentTakesAll(list, q);
    } else {
      TakenIs(p);
      TakenIs(q);
      assert forall w :: w in p ==> w.message.id == x;
    }
  }

  lemma FixedStays(list: Option<seq<Message>>, p: seq<Write>, q: seq<Write>)
    requires SameElements(p, q) && FixedOrder(list, p)
    ensures SameTranscript(list, p, q)
  {
    var ids := Ids(RowsOf(list));
    RunIds(list, p);
    RunIds(list, q);
    TakenWithin(list, p);
    TakenWithin(list, q);
    if list.None? && NoneSeeds(p) {
      NoneTaken(p);
      NoneTaken(q);
    } else if w :| w in p && w.message.id !in ids {
      OnlyOneNew(ids, Messages(Taken(list, p)), w.message.id);
      OnlyOneNew(ids, Messages(Taken(list, q)), w.message.id);
      TakenSame(list, p, q, w.message.id);
    } else {
      NoneNew(ids, Messages(Taken(list, p)));
      NoneNew(ids, Messages(Taken(list, q)));
    }
  }

  lemma TakenWithin(list: Option<seq<Message>>, writes: seq<Write>)
    ensures forall m :: m in Messages(Taken(list, writes)) ==> exists w :: w in writes && w.message == m
  {
    if list.Some? {
      PresentTakesAll(list, writes);
    } else {
      TakenIs(writes);
    }
    forall m | m in Messages(Taken(list, writes)) ensures exists w :: w in writes && w.message == m {
      InMessages(Taken(list, writes), m);
    }
  }

  /** The first of the new ones stands right behind what was there. */
  lemma {:induction false} FirstNewStands(ids: seq<string>, messages: seq<Message>)
    requires messages != [] && messages[0].id !in ids
    ensures ids + [messages[0].id] <= IdsAfter(ids, messages)
  {
    var n := |messages| - 1;
    if n == 0 {
      assert messages[..0] == [];
    } else {
      FirstNewStands(ids, messages[..n]);
    }
  }

  /** Two new ids: whichever is taken first stands first. */
  lemma TwoNewDiffer(list: Option<seq<Message>>, p: seq<Write>, q: seq<Write>)
    requires p != [] && q != [] && Taken(list, p) == p && Taken(list, q) == q
    requires p[0].message.id !in Ids(RowsOf(list)) && q[0].message.id !in Ids(RowsOf(list))
    requires p[0].message.id != q[0].message.id
    ensures !SameTranscript(list, p, q)
  {
    var ids := Ids(RowsOf(list));
    RunIds(list, p);
    RunIds(list, q);
    FirstNewStands(ids, Messages(p));
    FirstNewStands(ids, Messages(q));
    assert IdsAfter(ids, Messages(p))[|ids|] == p[0].message.id;
    assert IdsAfter(ids, Messages(q))[|ids|] == q[0].message.id;
  }

  /** A new id that no seed has is lost in front of all seeds and stands behind one. */
  lemma LostIdDiffers(writes: seq<Write>, s: Write, n: Write) returns (lost: seq<Write>, kept: seq<Write>)
    requires s in writes && n in writes && s.seedIfMissing && !n.seedIfMissing && !SomeSeedHas(writes, n.message.id)
    ensures multiset(lost) == multiset(writes) && multiset(kept) == multiset(writes)
    ensures !SameTranscript(None, lost, kept)
  {
    lost, kept := MixedSeedsDiverge(writes, s, n);
    RowsHaveIds(lost, n.message.id);
    RowsHaveIds(kept, n.message.id);
  }

  lemma RowsHaveIds(writes: seq<Write>, id: string)
    ensures id in RowsById(RowsOf(RunList(None, writes))) <==> id in Ids(RowsOf(RunList(None, writes)))
  {
    RunListFills(None, writes);
    FillIds(map[], Messages(Taken(None, writes)));
    RunIds(None, writes);
    IdsAfterKeeps([], Messages(Taken(None, writes)));
  }

  lemma SeedsDiffer(writes: seq<Write>, s: Write, w: Write) returns (p: seq<Write>, q: seq<Write>)
    requires s in writes && w in writes && s.seedIfMissing && w.seedIfMissing && s.message.id != w.message.id
    ensures multiset(p) == multiset(writes) && multiset(q) == multiset(writes) && !SameTranscript(None, p, q)
  {
    var i :| 0 <= i < |writes| && writes[i] == s;
    var j :| 0 <= j < |writes| && writes[j] == w;
    p, q := Fronted(writes, i), Fronted(writes, j);
    SeedFirstTaken(writes, i);
    SeedFirstTaken(writes, j);
    TwoNewDiffer(None, p, q);
  }

  lemma AbsentOrderDiffers(writes: seq<Write>) returns (p: seq<Write>, q: seq<Write>)
    requires !FixedOrder(None, writes)
    ensures multiset(p) == multiset(writes) && multiset(q) == multiset(writes) && !SameTranscript(None, p, q)
  {
    var s :| s in writes && s.seedIfMissing;
    var a, b :| a in writes && b in writes && a.message.id != b.message.id;
    var w := if a.message.id != s.message.id then a else b;
    if t :| t in writes && t.seedIfMissing && t.message.id == w.message.id {
      p, q := SeedsDiffer(writes, s, t);
    } else {
      p, q := LostIdDiffers(writes, s, w);
    }
  }

  lemma PresentOrderDiffers(list: Option<seq<Message>>, writes: seq<Write>) returns (p: seq<Write>, q: seq<Write>)
    requires list.Some? && !FixedOrder(list, writes)
    ensures multiset(p) == multiset(writes) && multiset(q) == multiset(writes) && !SameTranscript(list, p, q)
  {
    var ids := Ids(RowsOf(list));
    var a, b :| && a in writes && b in writes && a.message.id !in ids && b.message.id !in ids
                && a.message.id != b.message.id;
    var i :| 0 <= i < |writes| && writes[i] == a;
    var j :| 0 <= j < |writes| && writes[j] == b;
    p, q := Fronted(writes, i), Fronted(writes, j);
    PresentTakesAll(list, p);
    PresentTakesAll(list, q);
    TwoNewDiffer(list, p, q);
  }

  /**
   * The rows stand in the same order whatever the order of the writes exactly when at most one message is
   * new to the cache, or the cache is absent and no write may seed it.
   */
  lemma TranscriptOrderExactly(list: Option<seq<Message>>, writes: seq<Write>)
    ensures (forall q :: multiset(q) == multiset(writes) ==> SameTranscript(list, writes, q))
            <==> FixedOrder(list, writes)
  {
    if FixedOrder(list, writes) {
      forall q | multiset(q) == multiset(writes) ensures SameTranscript(list, writes, q) {
        SameBag(writes, q);
        FixedStays(list, writes, q);
      }
    } else {
      var p, q;
      if list.Some? {
        p, q := PresentOrderDiffers(list, writes);
      } else {
        p, q := AbsentOrderDiffers(writes);
      }
      assert !SameTranscript(list, writes, p) || !SameTranscript(list, writes, q);
    }
  }
}
