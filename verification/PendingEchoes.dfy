/**
 * Late echoes: a follow-up that is delivered after the removal or the promotion it should have preceded.
 * When is the entry the same as if the events had come the other way round?
 */
module PendingEchoes {
  import opened Common
  import opened PendingQueue
  import opened PendingRuns
  import opened PendingConvergence

  function Sent(env: Env, s: Option<Pending>, task: QueuedTask): Option<Pending> {
    Some(Enqueue(env, s, task, Some(true)))
  }

  function Removed(s: Option<Pending>, id: string): Option<Pending> {
    Some(Remove(s, id))
  }

  /** A follow-up behind another head. */
  ghost predicate Follows(env: Env, s: Option<Pending>, task: QueuedTask) {
    Inv(s) && HasHead(s) && s.value.taskId != Some(task.taskId) && Comparable(env, Elems(Queue(s)) + {task})
  }

  // ----- Removal of a queued task -----

  ghost function WithoutSet(rows: set<QueuedTask>, id: string): set<QueuedTask> {
    set r | r in rows && r.taskId != id
  }

  lemma {:induction false} WithoutSorted(env: Env, rows: seq<QueuedTask>, id: string)
    requires StrictlySorted(env, rows)
    ensures StrictlySorted(env, Without(rows, id))
    ensures Elems(Without(rows, id)) == WithoutSet(Elems(rows), id)
  {
    if rows == [] {
    } else {
      TailSorted(env, rows);
      WithoutSorted(env, rows[1..], id);
      if rows[0].taskId != id {
        ConsSorted(env, rows[0], Without(rows[1..], id));
      }
      WithoutElems(rows, id);
    }
  }

  lemma WithoutElems(rows: seq<QueuedTask>, id: string)
    ensures Elems(Without(rows, id)) == WithoutSet(Elems(rows), id)
  {
  }

  lemma AbsorbWithout(rows: set<QueuedTask>, task: QueuedTask, id: string)
    requires task.taskId != id
    ensures AbsorbSet(WithoutSet(rows, id), task) == WithoutSet(AbsorbSet(rows, task), id)
  {
    assert (forall r :: r in WithoutSet(rows, id) ==> r.taskId != task.taskId)
           <==> (forall r :: r in rows ==> r.taskId != task.taskId);
  }

  lemma RemovesApart(env: Env, s: Option<Pending>, id: string, task: QueuedTask)
    requires Follows(env, s, task) && s.value.taskId != Some(id) && id != task.taskId
    ensures Removed(Sent(env, s, task), id) == Sent(env, Removed(s, id), task)
  {
    var tasks := Elems(Queue(s)) + {task};
    var p, q := Removed(Sent(env, s, task), id), Sent(env, Removed(s, id), task);
    EnqueueMeans(env, tasks, s, task);
    WithoutSorted(env, Queue(Sent(env, s, task)), id);
    RemoveKeepsInv(s, id);
    WithoutElems(Queue(s), id);
    EnqueueMeans(env, tasks, Removed(s, id), task);
    AbsorbWithout(Elems(Queue(s)), task, id);
    SameEntry(env, tasks, p, q);
  }

  /** A late echo brings its task back: it is queued after the echo, and not queued after the removal. */
  lemma EchoBringsBack(env: Env, s: Option<Pending>, task: QueuedTask)
    requires Follows(env, s, task)
    ensures Has(Queue(Sent(env, Removed(s, task.taskId), task)), task.taskId)
    ensures !Has(Queue(Removed(Sent(env, s, task), task.taskId)), task.taskId)
  {
    var tasks, rows := Elems(Queue(s)) + {task}, Without(Queue(s), task.taskId);
    RemoveKeepsInv(s, task.taskId);
    WithoutElems(Queue(s), task.taskId);
    EnqueueMeans(env, tasks, Removed(s, task.taskId), task);
    assert task in AbsorbSet(Elems(rows), task);
    assert task in Elems(Queue(Sent(env, Removed(s, task.taskId), task)));
  }

  /** Removing a queued task and a follow-up can be exchanged exactly when they are about different tasks. */
  lemma RemoveCommutesExactly(env: Env, s: Option<Pending>, id: string, task: QueuedTask)
    requires Follows(env, s, task) && s.value.taskId != Some(id)
    ensures Removed(Sent(env, s, task), id) == Sent(env, Removed(s, id), task) <==> id != task.taskId
  {
    if id == task.taskId {
      EchoBringsBack(env, s, task);
    } else {
      RemovesApart(env, s, id, task);
    }
  }

  // ----- Removal of the head -----

  lemma RowsOfHeads(a: QueuedTask, b: QueuedTask, support: Option<bool>, p: seq<QueuedTask>, q: seq<QueuedTask>)
    ensures AsHead(a, support, p) == AsHead(b, support, q) <==> a == b && p == q
  {
  }

  lemma HeadRemoved(s: Option<Pending>)
    requires Inv(s) && HasHead(s) && Queue(s) != []
    ensures Remove(s, s.value.taskId.value) == AsHead(Queue(s)[0], s.value.supportsQueue, Queue(s)[1..])
  {
    InvParts(s);
    WithoutDistinct(Queue(s), s.value.taskId.value);
    UniqueQueueIdentity(Queue(s));
  }

  /** Taking the first row off a queue and then absorbing another task. */
  lemma AbsorbBehindFirst(queue: seq<QueuedTask>, task: QueuedTask)
    requires DistinctIds(queue) && queue != [] && queue[0].taskId != task.taskId
    ensures AbsorbSet(Elems(queue[1..]), task) == WithoutSet(AbsorbSet(Elems(queue), task), queue[0].taskId)
  {
    assert queue == [queue[0]] + queue[1..];
    ConsDistinct(queue[0], queue[1..]);
    WithoutDistinct(queue[1..], queue[0].taskId);
    WithoutElems(queue, queue[0].taskId);
    AbsorbWithout(Elems(queue), task, queue[0].taskId);
  }

  /** The sorted queue behind a first row, against the rows behind the same first row sorted on their own. */
  lemma SameBehindFirst(env: Env, tasks: set<QueuedTask>, whole: seq<QueuedTask>, rest: seq<QueuedTask>)
    requires Comparable(env, tasks) && Elems(whole) <= tasks && whole != [] && DistinctIds(whole)
    requires StrictlySorted(env, whole) && StrictlySorted(env, rest)
    requires Elems(rest) == WithoutSet(Elems(whole), whole[0].taskId)
    ensures whole[1..] == rest
  {
    assert whole == [whole[0]] + whole[1..];
    ConsDistinct(whole[0], whole[1..]);
    TailSorted(env, whole);
    forall r ensures r in whole[1..] <==> r in rest {
      assert r in rest <==> r in Elems(rest);
      assert r in whole <==> r in Elems(whole);
    }
    SortedUnique(env, tasks, whole[1..], rest);
  }

  /** The next in line keeps its row when another task is absorbed. */
  lemma FirstIsNext(env: Env, s: Option<Pending>, task: QueuedTask)
    requires Follows(env, s, task) && Queue(s) != [] && Queue(s)[0].taskId != task.taskId
    ensures var after := Queue(Sent(env, s, task));
            after != [] && (after[0] == Queue(s)[0] <==>
                            Leads(env, AbsorbSet(Elems(Queue(s)), task), Queue(s)[0].taskId))
  {
    var tasks, next := Elems(Queue(s)) + {task}, Queue(s)[0];
    var after := Queue(Sent(env, s, task));
    EnqueueMeans(env, tasks, s, task);
    InvParts(Sent(env, s, task));
    assert next in Queue(s) && next in Elems(Queue(s));
    assert next in AbsorbSet(Elems(Queue(s)), task) && next in after;
    FirstLeads(env, tasks, after, next.taskId);
    var k :| 0 <= k < |after| && after[k] == next;
  }

  /** The entry after the head is removed and the follow-up arrives late. */
  lemma LateBehindNext(env: Env, s: Option<Pending>, task: QueuedTask)
    requires Follows(env, s, task) && Queue(s) != [] && Queue(s)[0].taskId !in {task.taskId, ""}
    ensures var next := Queue(s)[0];
            var q := Sent(env, Removed(s, s.value.taskId.value), task);
            && q.value == AsHead(next, s.value.supportsQueue, Queue(q))
            && StrictlySorted(env, Queue(q))
            && Elems(Queue(q)) == WithoutSet(AbsorbSet(Elems(Queue(s)), task), next.taskId)
  {
    var tasks, id := Elems(Queue(s)) + {task}, s.value.taskId.value;
    InvParts(s);
    HeadRemoved(s);
    RemoveKeepsInv(s, id);
    assert Elems(Queue(s)[1..]) <= tasks;
    EnqueueMeans(env, tasks, Removed(s, id), task);
    AbsorbBehindFirst(Queue(s), task);
  }

  lemma HeadAfterSent(env: Env, s: Option<Pending>, task: QueuedTask)
    requires Follows(env, s, task)
    ensures var after := Queue(Sent(env, s, task));
            after != [] && Removed(Sent(env, s, task), s.value.taskId.value)
                           == Some(AsHead(after[0], s.value.supportsQueue, after[1..]))
  {
    EnqueueMeans(env, Elems(Queue(s)) + {task}, s, task);
    SomeAbsorbed(Elems(Queue(s)), task);
    assert Queue(Sent(env, s, task)) != [];
    HeadRemoved(Sent(env, s, task));
  }

  lemma SomeAbsorbed(rows: set<QueuedTask>, task: QueuedTask)
    ensures AbsorbSet(rows, task) != {}
  {
    if task !in AbsorbSet(rows, task) {
      var r :| r in rows && r.taskId == task.taskId;
      assert r in AbsorbSet(rows, task);
    }
  }

  /** The account a follow-up leaves in the queue: a rich one replaces the row, a sparse one does not. */
  function Kept(row: QueuedTask, task: QueuedTask): QueuedTask {
    if Rich(task) then task else row
  }

  /** What a follow-up makes of a head that is about the same task: it is merged in field by field. */
  function Merged(row: QueuedTask, task: QueuedTask): QueuedTask {
    QueuedTask(row.taskId,
               if row.status != "" && row.status != QUEUED then row.status else task.status,
               if row.createdAt != "" then row.createdAt else task.createdAt,
               if task.messageId.Some? then task.messageId else row.messageId,
               if task.content.Some? then task.content else row.content)
  }

  lemma MergesIntoHead(env: Env, row: QueuedTask, support: Option<bool>, waitReason: Option<string>,
                       queue: seq<QueuedTask>, task: QueuedTask)
    requires row.taskId == task.taskId != "" && !Has(queue, task.taskId) && DistinctIds(queue)
    ensures Enqueue(env, Some(AsHead(row, support, queue).(waitReason := waitReason)), task, Some(true))
            == AsHead(Merged(row, task), support, queue).(waitReason := waitReason)
  {
    WithoutDistinct(queue, task.taskId);
  }

  /** After a follow-up of a queued task the others are the same, sorted. */
  lemma OthersStay(env: Env, s: Option<Pending>, row: QueuedTask, task: QueuedTask)
    requires Follows(env, s, task) && row in Queue(s) && row.taskId == task.taskId
    ensures var after := Queue(Sent(env, s, task));
            && StrictlySorted(env, after) && DistinctIds(after) && Kept(row, task) in after
            && Elems(Without(after, task.taskId)) == Elems(Without(Queue(s), task.taskId))
  {
    var after := Queue(Sent(env, s, task));
    EnqueueMeans(env, Elems(Queue(s)) + {task}, s, task);
    InvParts(Sent(env, s, task));
    InvParts(s);
    assert row in Elems(Queue(s));
    assert Kept(row, task) in Elems(after);
    WithoutElems(after, task.taskId);
    WithoutElems(Queue(s), task.taskId);
    AbsorbOwn(Elems(Queue(s)), task);
  }

  lemma AbsorbOwn(rows: set<QueuedTask>, task: QueuedTask)
    ensures WithoutSet(AbsorbSet(rows, task), task.taskId) == WithoutSet(rows, task.taskId)
  {
  }

  /** A sorted list is these rows exactly when they are in order and the first of them is the one kept. */
  lemma SortedIs(env: Env, tasks: set<QueuedTask>, after: seq<QueuedTask>, kept: QueuedTask, head: QueuedTask,
                 rest: seq<QueuedTask>)
    requires Comparable(env, tasks) && Elems(after) <= tasks && StrictlySorted(env, after) && DistinctIds(after)
    requires kept in after && kept.taskId == head.taskId && Elems(Without(after, kept.taskId)) == Elems(rest)
    ensures after == [head] + rest <==> head == kept && StrictlySorted(env, [head] + rest)
  {
    if after == [head] + rest {
      OneOfId(after, kept, head);
    } else if head == kept && StrictlySorted(env, [head] + rest) {
      forall r ensures r in after <==> r in [head] + rest {
        InWithout(after, kept, r);
        assert r in rest <==> r in Elems(rest);
      }
      SortedUnique(env, tasks, after, [head] + rest);
    }
  }

  /** The queue after the follow-up is these rows exactly when they are in order and hold what is kept. */
  lemma AfterIs(env: Env, s: Option<Pending>, task: QueuedTask, head: QueuedTask)
    requires Follows(env, s, task) && Queue(s) != [] && Queue(s)[0].taskId == task.taskId == head.taskId
    ensures Queue(Sent(env, s, task)) == [head] + Queue(s)[1..] <==>
            head == Kept(Queue(s)[0], task) && StrictlySorted(env, [head] + Queue(s)[1..])
  {
    InvParts(s);
    WithoutAt(Queue(s), 0);
    assert Queue(s)[..0] + Queue(s)[1..] == Queue(s)[1..];
    OthersStay(env, s, Queue(s)[0], task);
    SentWithin(env, s, task);
    SortedIs(env, Elems(Queue(s)) + {task}, Queue(Sent(env, s, task)), Kept(Queue(s)[0], task), head, Queue(s)[1..]);
  }

  lemma SentWithin(env: Env, s: Option<Pending>, task: QueuedTask)
    requires Follows(env, s, task)
    ensures Elems(Queue(Sent(env, s, task))) <= Elems(Queue(s)) + {task}
  {
    EnqueueMeans(env, Elems(Queue(s)) + {task}, s, task);
  }

  lemma OneOfId(rows: seq<QueuedTask>, a: QueuedTask, b: QueuedTask)
    requires DistinctIds(rows) && a in rows && b in rows && a.taskId == b.taskId
    ensures a == b
  {
    var i :| 0 <= i < |rows| && rows[i] == a;
    var j :| 0 <= j < |rows| && rows[j] == b;
    assert i == j;
  }

  lemma InWithout(rows: seq<QueuedTask>, kept: QueuedTask, r: QueuedTask)
    requires DistinctIds(rows) && kept in rows
    ensures r in rows <==> r == kept || r in Elems(Without(rows, kept.taskId))
  {
    if r in rows && r.taskId == kept.taskId {
      OneOfId(rows, r, kept);
    }
  }

  /** Somebody is next in line, and is at the front with the same row whichever comes first. */
  ghost predicate NextHolds(env: Env, s: Option<Pending>, task: QueuedTask) {
    && Queue(s) != [] && Queue(s)[0].taskId != ""
    && var next := Queue(s)[0];
       if next.taskId != task.taskId then Leads(env, AbsorbSet(Elems(Queue(s)), task), next.taskId)
       else Merged(next, task) == Kept(next, task) && StrictlySorted(env, [Merged(next, task)] + Queue(s)[1..])
  }

  /**
   * Removing the head and a follow-up can be exchanged exactly when somebody is next in line and still leads
   * once the follow-up is sorted in. If the follow-up is about the next in line itself, merging it field by
   * field must come to the same as what the queue keeps of it, and the others must be in order already.
   */
  lemma RemoveHeadCommutesExactly(env: Env, s: Option<Pending>, task: QueuedTask)
    requires Follows(env, s, task)
    ensures var id := s.value.taskId.value;
            Removed(Sent(env, s, task), id) == Sent(env, Removed(s, id), task) <==> NextHolds(env, s, task)
  {
    HeadAfterSent(env, s, task);
    if Queue(s) == [] {
      assert Remove(s, s.value.taskId.value) == EMPTY;
    } else if Queue(s)[0].taskId == "" {
      HeadRemoved(s);
    } else if Queue(s)[0].taskId == task.taskId {
      NextMeets(env, s, task);
    } else {
      HeadsMeet(env, s, task);
    }
  }

  lemma ConsExactly(rows: seq<QueuedTask>, head: QueuedTask, rest: seq<QueuedTask>)
    requires rows != []
    ensures rows == [head] + rest <==> rows[0] == head && rows[1..] == rest
  {
    assert rows == [rows[0]] + rows[1..];
    assert ([head] + rest)[1..] == rest;
  }

  lemma NextStandsApart(s: Option<Pending>)
    requires Inv(s) && Queue(s) != []
    ensures DistinctIds(Queue(s)[1..]) && !Has(Queue(s)[1..], Queue(s)[0].taskId)
  {
    InvParts(s);
    assert Queue(s) == [Queue(s)[0]] + Queue(s)[1..];
    ConsDistinct(Queue(s)[0], Queue(s)[1..]);
  }

  lemma SameHead(row: QueuedTask, support: Option<bool>, queue: seq<QueuedTask>)
    ensures AsHead(row, support, queue).(waitReason := None) == AsHead(row, support, queue)
  {
  }

  /** The follow-up of the next in line, once that is the head. */
  lemma LateMerges(env: Env, s: Option<Pending>, task: QueuedTask)
    requires Follows(env, s, task) && Queue(s) != [] && Queue(s)[0].taskId == task.taskId != ""
    ensures Sent(env, Removed(s, s.value.taskId.value), task)
            == Some(AsHead(Merged(Queue(s)[0], task), s.value.supportsQueue, Queue(s)[1..]))
  {
    var next, rest, support := Queue(s)[0], Queue(s)[1..], s.value.supportsQueue;
    NextStandsApart(s);
    HeadRemoved(s);
    MergesIntoHead(env, next, support, None, rest, task);
    SameHead(next, support, rest);
    SameHead(Merged(next, task), support, rest);
  }

  lemma NextMeets(env: Env, s: Option<Pending>, task: QueuedTask)
    requires Follows(env, s, task) && Queue(s) != [] && Queue(s)[0].taskId == task.taskId != ""
    ensures var id := s.value.taskId.value;
            Removed(Sent(env, s, task), id) == Sent(env, Removed(s, id), task) <==> NextHolds(env, s, task)
  {
    var after, head, rest := Queue(Sent(env, s, task)), Merged(Queue(s)[0], task), Queue(s)[1..];
    HeadAfterSent(env, s, task);
    LateMerges(env, s, task);
    RowsOfHeads(after[0], head, s.value.supportsQueue, after[1..], rest);
    ConsExactly(after, head, rest);
    AfterIs(env, s, task, head);
  }

  lemma HeadsMeet(env: Env, s: Option<Pending>, task: QueuedTask)
    requires Follows(env, s, task) && Queue(s) != [] && Queue(s)[0].taskId !in {task.taskId, ""}
    ensures var id := s.value.taskId.value;
            Removed(Sent(env, s, task), id) == Sent(env, Removed(s, id), task)
            <==> Leads(env, AbsorbSet(Elems(Queue(s)), task), Queue(s)[0].taskId)
  {
    var after := Queue(Sent(env, s, task));
    var q := Sent(env, Removed(s, s.value.taskId.value), task);
    HeadAfterSent(env, s, task);
    LateBehindNext(env, s, task);
    FirstIsNext(env, s, task);
    RowsOfHeads(after[0], Queue(s)[0], s.value.supportsQueue, after[1..], Queue(q));
    if after[0] == Queue(s)[0] {
      EnqueueMeans(env, Elems(Queue(s)) + {task}, s, task);
      InvParts(Sent(env, s, task));
      SameBehindFirst(env, Elems(Queue(s)) + {task}, after, Queue(q));
    }
  }

  // ----- Promotion -----

  /** The tasks that a promotion and a follow-up bring together can be compared. */
  ghost predicate Together(env: Env, s: Option<Pending>, task: QueuedTask) {
    Follows(env, s, task) && Comparable(env, Elems(Queue(s)) + {task} + Elems(Requeued(s.value)))
  }

  /** The former head goes back in front of every row but the promoted one. */
  ghost predicate RequeuedLeads(env: Env, s: Option<Pending>, id: string, task: QueuedTask)
    requires HasHead(s)
  {
    forall h, r :: h in Requeued(s.value) && r in AbsorbSet(Elems(Queue(s)), task) && r.taskId != id ==>
      Compare(env, h, r) < 0
  }

  lemma PromoteHeadCommutes(env: Env, s: Option<Pending>, task: QueuedTask, status: string,
                            createdAt: Option<string>, waitReason: Option<string>)
    requires Follows(env, s, task)
    ensures var id := s.value.taskId.value;
            Promote(Sent(env, s, task), id, status, createdAt, waitReason)
            == Enqueue(env, Some(Promote(s, id, status, createdAt, waitReason)), task, Some(true))
  {
    var id := s.value.taskId.value;
    InvParts(s);
    WithoutDistinct(Queue(s), id);
    EnqueueKeepsInv(env, s, task, Some(true));
    InvParts(Sent(env, s, task));
    WithoutDistinct(Queue(Sent(env, s, task)), id);
  }

  lemma SentHas(env: Env, s: Option<Pending>, task: QueuedTask, x: string)
    requires Follows(env, s, task) && x != task.taskId
    ensures Has(Queue(Sent(env, s, task)), x) <==> Has(Queue(s), x)
  {
    EnqueueAddsAtMostItself(env, s, task);
  }

  lemma PromoteUnqueuedCommutes(env: Env, s: Option<Pending>, id: string, task: QueuedTask, status: string,
                                createdAt: Option<string>, waitReason: Option<string>)
    requires Follows(env, s, task) && s.value.taskId != Some(id) && !Has(Queue(s), id) && id != task.taskId
    ensures Promote(Sent(env, s, task), id, status, createdAt, waitReason)
            == Enqueue(env, Some(Promote(s, id, status, createdAt, waitReason)), task, Some(true))
  {
    SentHas(env, s, task, id);
    EnqueueKeepsInv(env, s, task, Some(true));
    PromoteInertExactly(s, id, status, createdAt, waitReason);
    PromoteInertExactly(Sent(env, s, task), id, status, createdAt, waitReason);
  }

  /** The entry a promotion of this row leaves, with this queue. */
  function Promoted(row: QueuedTask, support: Option<bool>, status: string, createdAt: Option<string>,
                    waitReason: Option<string>, queue: seq<QueuedTask>): Pending {
    AsHead(row, support, queue)
      .(status := Some(status),
        waitReason := ResolveWaitReason(status, waitReason, None),
        createdAt := Some(if row.createdAt != "" then row.createdAt
                          else if Truthy(createdAt) then createdAt.value else ""))
  }

  lemma PromoteIs(s: Option<Pending>, row: QueuedTask, status: string, createdAt: Option<string>,
                  waitReason: Option<string>)
    requires Inv(s) && HasHead(s) && s.value.taskId != Some(row.taskId) && row in Queue(s)
    ensures Promote(s, row.taskId, status, createdAt, waitReason)
            == Promoted(row, s.value.supportsQueue, status, createdAt, waitReason,
                        Requeued(s.value) + Without(Queue(s), row.taskId))
  {
    InvParts(s);
    RequeuedDistinct(s, row.taskId);
    var k := Find(Queue(s), row.taskId);
    var j :| 0 <= j < |Queue(s)| && Queue(s)[j] == row;
    assert k.Some? && k.value == j;
  }

  lemma ConcatElems(a: seq<QueuedTask>, b: seq<QueuedTask>)
    ensures Elems(a + b) == Elems(a) + Elems(b)
  {
  }

  /** What is queued when the promotion comes first, as a set. */
  lemma AbsorbBehindFormer(s: Option<Pending>, id: string, task: QueuedTask)
    requires HasHead(s) && s.value.taskId != Some(task.taskId) && id != task.taskId
    ensures AbsorbSet(Elems(Requeued(s.value) + Without(Queue(s), id)), task)
            == Elems(Requeued(s.value)) + WithoutSet(AbsorbSet(Elems(Queue(s)), task), id)
  {
    ConcatElems(Requeued(s.value), Without(Queue(s), id));
    WithoutElems(Queue(s), id);
    AbsorbWithout(Elems(Queue(s)), task, id);
    AbsorbBeside(Elems(Requeued(s.value)), Elems(Without(Queue(s), id)), task);
  }

  lemma AbsorbBeside(former: set<QueuedTask>, rows: set<QueuedTask>, task: QueuedTask)
    requires forall h :: h in former ==> h.taskId != task.taskId
    ensures AbsorbSet(former + rows, task) == former + AbsorbSet(rows, task)
  {
    assert (forall r :: r in former + rows ==> r.taskId != task.taskId)
           <==> (forall r :: r in rows ==> r.taskId != task.taskId);
  }

  /** The follow-up first, the promotion second. */
  lemma PromoteLast(env: Env, s: Option<Pending>, row: QueuedTask, task: QueuedTask, status: string,
                    createdAt: Option<string>, waitReason: Option<string>)
    requires Follows(env, s, task) && row in Queue(s) && row.taskId != task.taskId
    ensures Promote(Sent(env, s, task), row.taskId, status, createdAt, waitReason)
            == Promoted(row, s.value.supportsQueue, status, createdAt, waitReason,
                        Requeued(s.value) + Without(Queue(Sent(env, s, task)), row.taskId))
  {
    EnqueueMeans(env, Elems(Queue(s)) + {task}, s, task);
    InvParts(s);
    assert row in Elems(Queue(Sent(env, s, task)));
    PromoteIs(Sent(env, s, task), row, status, createdAt, waitReason);
  }

  /** The promotion first, the follow-up second. */
  lemma PromoteFirst(env: Env, s: Option<Pending>, row: QueuedTask, task: QueuedTask, status: string,
                     createdAt: Option<string>, waitReason: Option<string>) returns (queue: seq<QueuedTask>)
    requires Together(env, s, task) && row in Queue(s) && row.taskId !in {task.taskId, ""}
    ensures Sent(env, Some(Promote(s, row.taskId, status, createdAt, waitReason)), task)
            == Some(Promoted(row, s.value.supportsQueue, status, createdAt, waitReason, queue))
    ensures StrictlySorted(env, queue)
    ensures Elems(queue) == Elems(Requeued(s.value)) + WithoutSet(AbsorbSet(Elems(Queue(s)), task), row.taskId)
  {
    var all := Elems(Queue(s)) + {task} + Elems(Requeued(s.value));
    var p := Some(Promote(s, row.taskId, status, createdAt, waitReason));
    InvParts(s);
    PromoteIs(s, row, status, createdAt, waitReason);
    PromoteKeepsInv(s, row.taskId, status, createdAt, waitReason);
    ConcatElems(Requeued(s.value), Without(Queue(s), row.taskId));
    EnqueueMeans(env, all, p, task);
    AbsorbBehindFormer(s, row.taskId, task);
    queue := Queue(Sent(env, p, task));
  }

  /** A former head in front of sorted rows: sorted exactly when it comes before each of them. */
  lemma FrontSorted(env: Env, former: seq<QueuedTask>, rows: seq<QueuedTask>)
    requires |former| <= 1 && StrictlySorted(env, rows)
    ensures StrictlySorted(env, former + rows) <==>
            forall h, r :: h in former && r in rows ==> Compare(env, h, r) < 0
  {
    if former == [] {
      assert former + rows == rows;
    } else {
      assert former == [former[0]];
      if forall h, r :: h in former && r in rows ==> Compare(env, h, r) < 0 {
        ConsSorted(env, former[0], rows);
      } else {
        var r :| r in rows && !(Compare(env, former[0], r) < 0);
        var j :| 0 <= j < |rows| && rows[j] == r;
        assert (former + rows)[0] == former[0] && (former + rows)[j + 1] == r;
      }
    }
  }

  lemma SortedMeet(env: Env, s: Option<Pending>, id: string, task: QueuedTask, queue: seq<QueuedTask>)
    requires Together(env, s, task) && StrictlySorted(env, queue)
    requires Elems(queue) == Elems(Requeued(s.value)) + WithoutSet(AbsorbSet(Elems(Queue(s)), task), id)
    ensures Requeued(s.value) + Without(Queue(Sent(env, s, task)), id) == queue <==> RequeuedLeads(env, s, id, task)
  {
    var all := Elems(Queue(s)) + {task} + Elems(Requeued(s.value));
    var after := Queue(Sent(env, s, task));
    var former, rows := Requeued(s.value), Without(after, id);
    EnqueueMeans(env, Elems(Queue(s)) + {task}, s, task);
    WithoutSorted(env, after, id);
    FrontSorted(env, former, rows);
    ConcatElems(former, rows);
    assert RequeuedLeads(env, s, id, task) <==> forall h, r :: h in former && r in rows ==> Compare(env, h, r) < 0 by {
      assert forall r :: r in rows <==> r in AbsorbSet(Elems(Queue(s)), task) && r.taskId != id by {
        assert forall r :: r in rows <==> r in Elems(rows);
      }
    }
    if RequeuedLeads(env, s, id, task) {
      assert forall r :: r in former + rows <==> r in Elems(former + rows);
      assert forall r :: r in queue <==> r in Elems(queue);
      SortedUnique(env, all, former + rows, queue);
    }
  }

  lemma PromoteQueuedCommutesExactly(env: Env, s: Option<Pending>, row: QueuedTask, task: QueuedTask, status: string,
                                     createdAt: Option<string>, waitReason: Option<string>)
    requires Together(env, s, task) && row in Queue(s) && row.taskId !in {task.taskId, ""}
    ensures Promote(Sent(env, s, task), row.taskId, status, createdAt, waitReason)
            == Enqueue(env, Some(Promote(s, row.taskId, status, createdAt, waitReason)), task, Some(true))
            <==> RequeuedLeads(env, s, row.taskId, task)
  {
    PromoteLast(env, s, row, task, status, createdAt, waitReason);
    var queue := PromoteFirst(env, s, row, task, status, createdAt, waitReason);
    SortedMeet(env, s, row.taskId, task, queue);
  }

  // ----- Promotion and a second account of the same task -----

  /** A row as its promotion shows it. */
  function Started(row: QueuedTask, status: string, createdAt: Option<string>): QueuedTask {
    row.(status := status,
         createdAt := if row.createdAt != "" then row.createdAt
                      else if Truthy(createdAt) then createdAt.value else "")
  }

  lemma PromotedIsStarted(row: QueuedTask, support: Option<bool>, status: string, createdAt: Option<string>,
                          waitReason: Option<string>, queue: seq<QueuedTask>)
    ensures Promoted(row, support, status, createdAt, waitReason, queue)
            == AsHead(Started(row, status, createdAt), support, queue)
                 .(waitReason := ResolveWaitReason(status, waitReason, None))
  {
  }

  /** Merging the account into the started task comes to what starting the kept account does. */
  predicate SameStart(row: QueuedTask, task: QueuedTask, status: string, createdAt: Option<string>) {
    Merged(Started(row, status, createdAt), task) == Started(Kept(row, task), status, createdAt)
  }

  /** The promotion first, an account of the promoted task second. */
  lemma OwnAccountLast(env: Env, s: Option<Pending>, row: QueuedTask, task: QueuedTask, status: string,
                       createdAt: Option<string>, waitReason: Option<string>)
    requires Follows(env, s, task) && row in Queue(s) && row.taskId == task.taskId != ""
    ensures Sent(env, Some(Promote(s, task.taskId, status, createdAt, waitReason)), task)
            == Some(AsHead(Merged(Started(row, status, createdAt), task), s.value.supportsQueue,
                           Requeued(s.value) + Without(Queue(s), task.taskId))
                      .(waitReason := ResolveWaitReason(status, waitReason, None)))
  {
    var queue := Requeued(s.value) + Without(Queue(s), task.taskId);
    RequeuedDistinct(s, task.taskId);
    PromoteIs(s, row, status, createdAt, waitReason);
    PromotedIsStarted(row, s.value.supportsQueue, status, createdAt, waitReason, queue);
    MergesIntoHead(env, Started(row, status, createdAt), s.value.supportsQueue,
                   ResolveWaitReason(status, waitReason, None), queue, task);
  }

  /** The account first, the promotion second. */
  lemma OwnAccountFirst(env: Env, s: Option<Pending>, row: QueuedTask, task: QueuedTask, status: string,
                        createdAt: Option<string>, waitReason: Option<string>)
    requires Follows(env, s, task) && row in Queue(s) && row.taskId == task.taskId
    ensures Promote(Sent(env, s, task), task.taskId, status, createdAt, waitReason)
            == AsHead(Started(Kept(row, task), status, createdAt), s.value.supportsQueue,
                      Requeued(s.value) + Without(Queue(Sent(env, s, task)), task.taskId))
                 .(waitReason := ResolveWaitReason(status, waitReason, None))
  {
    EnqueueMeans(env, Elems(Queue(s)) + {task}, s, task);
    OthersStay(env, s, row, task);
    PromoteIs(Sent(env, s, task), Kept(row, task), status, createdAt, waitReason);
    PromotedIsStarted(Kept(row, task), s.value.supportsQueue, status, createdAt, waitReason,
                      Requeued(s.value) + Without(Queue(Sent(env, s, task)), task.taskId));
  }

  lemma SameOthersExactly(env: Env, s: Option<Pending>, row: QueuedTask, task: QueuedTask)
    requires Follows(env, s, task) && row in Queue(s) && row.taskId == task.taskId
    ensures Without(Queue(Sent(env, s, task)), task.taskId) == Without(Queue(s), task.taskId)
            <==> StrictlySorted(env, Without(Queue(s), task.taskId))
  {
    var a, b := Without(Queue(Sent(env, s, task)), task.taskId), Without(Queue(s), task.taskId);
    OthersStay(env, s, row, task);
    WithoutSorted(env, Queue(Sent(env, s, task)), task.taskId);
    if StrictlySorted(env, b) {
      assert Elems(b) <= Elems(Queue(s));
      forall r ensures r in a <==> r in b {
        assert r in Elems(a) <==> r in Elems(b);
      }
      SortedUnique(env, Elems(Queue(s)) + {task}, a, b);
    }
  }

  lemma PrefixedEqual(former: seq<QueuedTask>, a: seq<QueuedTask>, b: seq<QueuedTask>)
    ensures former + a == former + b <==> a == b
  {
    assert (former + a)[|former|..] == a && (former + b)[|former|..] == b;
  }

  lemma PromoteOwnCommutesExactly(env: Env, s: Option<Pending>, row: QueuedTask, task: QueuedTask, status: string,
                                  createdAt: Option<string>, waitReason: Option<string>)
    requires Follows(env, s, task) && row in Queue(s) && row.taskId == task.taskId != ""
    ensures Promote(Sent(env, s, task), task.taskId, status, createdAt, waitReason)
            == Enqueue(env, Some(Promote(s, task.taskId, status, createdAt, waitReason)), task, Some(true))
            <==> SameStart(row, task, status, createdAt) && StrictlySorted(env, Without(Queue(s), task.taskId))
  {
    var a, b := Without(Queue(Sent(env, s, task)), task.taskId), Without(Queue(s), task.taskId);
    OwnAccountFirst(env, s, row, task, status, createdAt, waitReason);
    OwnAccountLast(env, s, row, task, status, createdAt, waitReason);
    SameOthersExactly(env, s, row, task);
    PrefixedEqual(Requeued(s.value), a, b);
    RowsOfHeads(Started(Kept(row, task), status, createdAt), Merged(Started(row, status, createdAt), task),
                s.value.supportsQueue, Requeued(s.value) + a, Requeued(s.value) + b);
  }

  /** A promotion to a task without an id leaves no head to follow. */
  lemma PromoteNamelessDiffers(env: Env, s: Option<Pending>, task: QueuedTask, status: string,
                               createdAt: Option<string>, waitReason: Option<string>)
    requires Follows(env, s, task) && Has(Queue(s), "")
    ensures Promote(Sent(env, s, task), "", status, createdAt, waitReason)
            != Enqueue(env, Some(Promote(s, "", status, createdAt, waitReason)), task, Some(true))
  {
    StillQueued(env, s, task, "");
    var r := PromotedRow(s, "", status, createdAt, waitReason);
    r := PromotedRow(Sent(env, s, task), "", status, createdAt, waitReason);
  }

  lemma StillQueued(env: Env, s: Option<Pending>, task: QueuedTask, x: string)
    requires Follows(env, s, task) && Has(Queue(s), x)
    ensures HasHead(Sent(env, s, task)) && Sent(env, s, task).value.taskId == s.value.taskId
    ensures Has(Queue(Sent(env, s, task)), x)
  {
    EnqueueMeans(env, Elems(Queue(s)) + {task}, s, task);
    var row :| row in Queue(s) && row.taskId == x;
    assert row in Elems(Queue(s));
    StillListed(Elems(Queue(s)), task, x);
    var r :| r in Elems(Queue(Sent(env, s, task))) && r.taskId == x;
    assert r in Queue(Sent(env, s, task));
  }

  /** The queued task is started with the same row and in front of the same queue whichever comes first. */
  ghost predicate StartHolds(env: Env, s: Option<Pending>, id: string, task: QueuedTask, status: string,
                             createdAt: Option<string>)
    requires HasHead(s)
  {
    if id != task.taskId then RequeuedLeads(env, s, id, task)
    else
      && StrictlySorted(env, Without(Queue(s), id))
      && exists row :: row in Queue(s) && row.taskId == id && SameStart(row, task, status, createdAt)
  }

  /**
   * A promotion and a follow-up can be exchanged exactly when the promotion moves nobody and the follow-up is
   * about another task, or when the promoted task is queued and starts alike: the former head, if it goes
   * back into the queue, belongs in front of it, or, if the follow-up is a second account of the promoted
   * task, merging it comes to the same as what the queue keeps of it and the others are in order already.
   */
  lemma PromoteCommutesExactly(env: Env, s: Option<Pending>, id: string, task: QueuedTask, status: string,
                               createdAt: Option<string>, waitReason: Option<string>)
    requires Together(env, s, task)
    ensures Promote(Sent(env, s, task), id, status, createdAt, waitReason)
            == Enqueue(env, Some(Promote(s, id, status, createdAt, waitReason)), task, Some(true))
            <==> || s.value.taskId == Some(id)
                 || (!Has(Queue(s), id) && id != task.taskId)
                 || (Has(Queue(s), id) && id != "" && StartHolds(env, s, id, task, status, createdAt))
  {
    if s.value.taskId == Some(id) {
      PromoteHeadCommutes(env, s, task, status, createdAt, waitReason);
    } else if !Has(Queue(s), id) {
      if id == task.taskId {
        StartIsForgotten(env, s, task, status, createdAt, waitReason);
      } else {
        PromoteUnqueuedCommutes(env, s, id, task, status, createdAt, waitReason);
      }
    } else if id == "" {
      PromoteNamelessDiffers(env, s, task, status, createdAt, waitReason);
    } else {
      PromoteListedCommutesExactly(env, s, id, task, status, createdAt, waitReason);
    }
  }

  lemma PromoteListedCommutesExactly(env: Env, s: Option<Pending>, id: string, task: QueuedTask, status: string,
                                     createdAt: Option<string>, waitReason: Option<string>)
    requires Together(env, s, task) && s.value.taskId != Some(id) && Has(Queue(s), id) && id != ""
    ensures Promote(Sent(env, s, task), id, status, createdAt, waitReason)
            == Enqueue(env, Some(Promote(s, id, status, createdAt, waitReason)), task, Some(true))
            <==> StartHolds(env, s, id, task, status, createdAt)
  {
    var row :| row in Queue(s) && row.taskId == id;
    if id == task.taskId {
      InvParts(s);
      forall r | r in Queue(s) && r.taskId == id ensures r == row {
        OneOfId(Queue(s), r, row);
      }
      PromoteOwnCommutesExactly(env, s, row, task, status, createdAt, waitReason);
    } else {
      PromoteQueuedCommutesExactly(env, s, row, task, status, createdAt, waitReason);
    }
  }

  /**
   * A task that starts before its own follow-up is delivered: its start is forgotten, and the follow-up
   * queues it behind the old head, which it would otherwise have replaced.
   */
  lemma StartIsForgotten(env: Env, s: Option<Pending>, task: QueuedTask, status: string, createdAt: Option<string>,
                         waitReason: Option<string>)
    requires Follows(env, s, task) && !Has(Queue(s), task.taskId)
    ensures Promote(Sent(env, s, task), task.taskId, status, createdAt, waitReason).taskId == Some(task.taskId)
    ensures var late := Sent(env, Some(Promote(s, task.taskId, status, createdAt, waitReason)), task);
            late == Sent(env, s, task) && late.value.taskId == s.value.taskId && Has(Queue(late), task.taskId)
  {
    PromoteInertExactly(s, task.taskId, status, createdAt, waitReason);
    EnqueueMeans(env, Elems(Queue(s)) + {task}, s, task);
    InvParts(Sent(env, s, task));
    assert forall r :: r in Queue(s) ==> r.taskId != task.taskId;
    assert task in Elems(Queue(Sent(env, s, task)));
    PromoteIs(Sent(env, s, task), task, status, createdAt, waitReason);
  }
}
