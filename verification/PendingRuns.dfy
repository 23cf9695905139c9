/** Runs of the pending-task reducers: what every event keeps, moves and drops. */
module PendingRuns {
  import opened Common
  import opened PendingQueue

  datatype Event =
    | EnqueueEvent(task: QueuedTask, queued: Option<bool>)
    | PromoteEvent(id: string, status: string, createdAt: Option<string>, waitReason: Option<string>)
    | RemoveEvent(id: string)
    | PrioritizeEvent(id: string)

  function Apply(env: Env, s: Option<Pending>, e: Event): Pending {
    match e
    case EnqueueEvent(task, queued) => Enqueue(env, s, task, queued)
    case PromoteEvent(id, status, createdAt, waitReason) => Promote(s, id, status, createdAt, waitReason)
    case RemoveEvent(id) => Remove(s, id)
    case PrioritizeEvent(id) => Prioritize(s, id)
  }

  function Run(env: Env, s: Option<Pending>, events: seq<Event>): Option<Pending>
    decreases |events|
  {
    if events == [] then s else Run(env, Some(Apply(env, s, events[0])), events[1..])
  }

  /** The head as a queue row. */
  function AsRow(head: Pending): QueuedTask
    requires head.taskId.Some?
  {
    QueuedTask(head.taskId.value,
               if head.status.Some? then head.status.value else QUEUED,
               if head.createdAt.Some? then head.createdAt.value else "",
               head.messageId, head.content)
  }

  /** Every task of the entry, head first. */
  function Rows(s: Option<Pending>): seq<QueuedTask> {
    (if s.Some? && s.value.taskId.Some? then [AsRow(s.value)] else []) + Queue(s)
  }

  ghost predicate Inv(s: Option<Pending>) {
    && DistinctIds(Rows(s))
    && (s.Some? && s.value.waitReason.Some? ==> s.value.status == Some(WAITING))
  }

  // ----- Facts about the queue functions -----

  lemma {:induction false} InsertKeeps(env: Env, task: QueuedTask, rows: seq<QueuedTask>)
    ensures forall r :: r in Insert(env, task, rows) <==> r == task || r in rows
    ensures DistinctIds(rows) && !Has(rows, task.taskId) ==> DistinctIds(Insert(env, task, rows))
  {
    if rows == [] || Compare(env, task, rows[0]) <= 0 {
    } else {
      InsertKeeps(env, task, rows[1..]);
      assert rows == [rows[0]] + rows[1..];
      ConsDistinct(rows[0], rows[1..]);
      ConsDistinct(rows[0], Insert(env, task, rows[1..]));
    }
  }

  lemma {:induction false} SortKeeps(env: Env, rows: seq<QueuedTask>)
    ensures forall r :: r in SortQueue(env, rows) <==> r in rows
    ensures DistinctIds(rows) ==> DistinctIds(SortQueue(env, rows))
  {
    if rows == [] {
    } else {
      assert rows == [rows[0]] + rows[1..];
      ConsDistinct(rows[0], rows[1..]);
      SortKeeps(env, rows[1..]);
      InsertKeeps(env, rows[0], SortQueue(env, rows[1..]));
    }
  }

  lemma NormalizeKeeps(env: Env, tasks: seq<QueuedTask>)
    ensures DistinctIds(NormalizeQueue(env, tasks))
    ensures forall r :: r in NormalizeQueue(env, tasks) <==> r in UniqueQueue(tasks)
    ensures forall id :: Has(NormalizeQueue(env, tasks), id) <==> Has(tasks, id)
  {
    UniqueQueueKeeps(tasks);
    SortKeeps(env, UniqueQueue(tasks));
  }

  lemma {:induction false} UniqueQueueIdentity(rows: seq<QueuedTask>)
    requires DistinctIds(rows)
    ensures UniqueQueue(rows) == rows
  {
    if rows == [] {
    } else {
      var n := |rows| - 1;
      UniqueQueueIdentity(rows[..n]);
      assert rows == rows[..n] + [rows[n]];
    }
  }

  lemma ConsDistinct(row: QueuedTask, rest: seq<QueuedTask>)
    ensures DistinctIds([row] + rest) <==> !Has(rest, row.taskId) && DistinctIds(rest)
  {
    var rows := [row] + rest;
    if DistinctIds(rows) {
      forall i, j | 0 <= i < j < |rest| ensures rest[i].taskId != rest[j].taskId {
        assert rows[i + 1].taskId != rows[j + 1].taskId;
      }
      forall j | 0 <= j < |rest| ensures rest[j].taskId != row.taskId {
        assert rows[0].taskId != rows[j + 1].taskId;
      }
    }
  }

  lemma {:induction false} WithoutDistinct(rows: seq<QueuedTask>, id: string)
    requires DistinctIds(rows)
    ensures DistinctIds(Without(rows, id))
    ensures !Has(rows, id) ==> Without(rows, id) == rows
  {
    if rows == [] {
    } else {
      assert rows == [rows[0]] + rows[1..];
      ConsDistinct(rows[0], rows[1..]);
      WithoutDistinct(rows[1..], id);
      ConsDistinct(rows[0], Without(rows[1..], id));
    }
  }

  lemma {:induction false} WithoutAt(rows: seq<QueuedTask>, k: nat)
    requires DistinctIds(rows) && k < |rows|
    ensures Without(rows, rows[k].taskId) == rows[..k] + rows[k + 1..]
  {
    var rest := rows[1..];
    assert rows == [rows[0]] + rest;
    ConsDistinct(rows[0], rest);
    if k == 0 {
      WithoutDistinct(rest, rows[0].taskId);
    } else {
      assert rest[k - 1] == rows[k];
      assert rows[k] in rest;
      WithoutAt(rest, k - 1);
      assert rows[..k] == [rows[0]] + rest[..k - 1] && rows[k + 1..] == rest[k..];
      Associative([rows[0]], rest[..k - 1], rest[k..]);
    }
  }

  /** The invariant, split into the queue and the head. */
  lemma InvParts(s: Option<Pending>)
    ensures Inv(s) <==>
            && DistinctIds(Queue(s))
            && (s.Some? && s.value.taskId.Some? ==> !Has(Queue(s), s.value.taskId.value))
            && (s.Some? && s.value.waitReason.Some? ==> s.value.status == Some(WAITING))
  {
    if s.Some? && s.value.taskId.Some? {
      ConsDistinct(AsRow(s.value), Queue(s));
    } else {
      assert Rows(s) == Queue(s);
    }
  }

  // ----- The invariant, over every run -----

  /** A queued enqueue behind another head keeps the head out of the queue. */
  lemma EnqueueBehindHead(env: Env, s: Option<Pending>, task: QueuedTask)
    requires Inv(s) && HasHead(s) && s.value.taskId != Some(task.taskId)
    ensures var rows := NormalizeQueue(env, Queue(s) + [task]); DistinctIds(rows) && !Has(rows, s.value.taskId.value)
  {
    var rows, id := Queue(s) + [task], s.value.taskId.value;
    InvParts(s);
    NormalizeKeeps(env, rows);
    assert Has(rows, id) ==> Has(Queue(s), id);
  }

  lemma EnqueueKeepsInv(env: Env, s: Option<Pending>, task: QueuedTask, queued: Option<bool>)
    requires Inv(s)
    ensures Inv(Some(Enqueue(env, s, task, queued)))
  {
    var p := Enqueue(env, s, task, queued);
    InvParts(s);
    InvParts(Some(p));
    if !HasHead(s) {
      NormalizeKeeps(env, Without(Queue(s), task.taskId));
    } else if s.value.taskId == Some(task.taskId) {
      WithoutDistinct(Queue(s), task.taskId);
    } else {
      EnqueueBehindHead(env, s, task);
    }
  }

  lemma PromoteKeepsInv(s: Option<Pending>, id: string, status: string, createdAt: Option<string>,
                        waitReason: Option<string>)
    requires Inv(s)
    ensures Inv(Some(Promote(s, id, status, createdAt, waitReason)))
  {
    var p := Promote(s, id, status, createdAt, waitReason);
    InvParts(s);
    InvParts(Some(p));
    if s.Some? && s.value.taskId == Some(id) {
      WithoutDistinct(Queue(s), id);
    } else if HasHead(s) && Find(Queue(s), id).Some? {
      RequeuedDistinct(s, id);
    }
  }

  lemma RequeuedDistinct(s: Option<Pending>, id: string)
    requires Inv(s) && HasHead(s) && s.value.taskId != Some(id)
    ensures var rows := Requeued(s.value) + Without(Queue(s), id);
            DistinctIds(rows) && !Has(rows, id) && UniqueQueue(rows) == rows
  {
    InvParts(s);
    WithoutDistinct(Queue(s), id);
    var rest := Without(Queue(s), id);
    if Requeued(s.value) != [] {
      ConsDistinct(Requeued(s.value)[0], rest);
      assert Requeued(s.value) + rest == [Requeued(s.value)[0]] + rest;
    } else {
      assert Requeued(s.value) + rest == rest;
    }
    UniqueQueueIdentity(Requeued(s.value) + rest);
  }

  /** A queue whose first row becomes the head lists the same tasks. */
  lemma HeadOfQueue(rows: seq<QueuedTask>, supportsQueue: Option<bool>)
    requires rows != []
    ensures Rows(Some(AsHead(rows[0], supportsQueue, rows[1..]))) == rows
  {
    assert AsRow(AsHead(rows[0], supportsQueue, rows[1..])) == rows[0];
    assert rows == [rows[0]] + rows[1..];
  }

  lemma RemoveHead(s: Option<Pending>, id: string)
    requires Inv(s) && HasHead(s) && s.value.taskId == Some(id)
    ensures Rows(Some(Remove(s, id))) == Without(Rows(s), id)
  {
    InvParts(s);
    var rest := Without(Queue(s), id);
    WithoutDistinct(Queue(s), id);
    UniqueQueueIdentity(rest);
    WithoutCons(AsRow(s.value), Queue(s), id);
    if rest != [] {
      HeadOfQueue(rest, s.value.supportsQueue);
    }
  }

  lemma WithoutCons(row: QueuedTask, rows: seq<QueuedTask>, id: string)
    ensures Without([row] + rows, id) == if row.taskId == id then Without(rows, id) else [row] + Without(rows, id)
  {
    assert ([row] + rows)[1..] == rows;
  }

  lemma RemoveQueued(s: Option<Pending>, id: string)
    requires HasHead(s) && s.value.taskId != Some(id)
    ensures Rows(Some(Remove(s, id))) == Without(Rows(s), id)
  {
    WithoutCons(AsRow(s.value), Queue(s), id);
  }

  lemma RemoveKeepsInv(s: Option<Pending>, id: string)
    requires Inv(s)
    ensures Inv(Some(Remove(s, id)))
  {
    WithoutDistinct(Rows(s), id);
    if HasHead(s) {
      if s.value.taskId == Some(id) {
        RemoveHead(s, id);
      } else {
        RemoveQueued(s, id);
      }
    }
  }

  lemma PrioritizeKeepsInv(s: Option<Pending>, id: string)
    requires Inv(s)
    ensures Inv(Some(Prioritize(s, id)))
  {
    InvParts(s);
    if HasHead(s) && Find(Queue(s), id).Some? {
      WithoutDistinct(Queue(s), id);
      var row := Queue(s)[Find(Queue(s), id).value];
      assert row in Queue(s);
      ConsDistinct(row, Without(Queue(s), id));
    }
    InvParts(Some(Prioritize(s, id)));
  }

  lemma ApplyKeepsInv(env: Env, s: Option<Pending>, e: Event)
    requires Inv(s)
    ensures Inv(Some(Apply(env, s, e)))
  {
    match e
    case EnqueueEvent(task, queued) => EnqueueKeepsInv(env, s, task, queued);
    case PromoteEvent(id, status, createdAt, waitReason) => PromoteKeepsInv(s, id, status, createdAt, waitReason);
    case RemoveEvent(id) => RemoveKeepsInv(s, id);
    case PrioritizeEvent(id) => PrioritizeKeepsInv(s, id);
  }

  /** From an empty cache, or any entry the server sends, no run ever lists a task twice or shows a stale hold. */
  lemma {:induction false} RunKeepsInv(env: Env, s: Option<Pending>, events: seq<Event>)
    requires Inv(s)
    ensures Inv(Run(env, s, events))
    decreases |events|
  {
    if events == [] {
    } else {
      ApplyKeepsInv(env, s, events[0]);
      RunKeepsInv(env, Some(Apply(env, s, events[0])), events[1..]);
    }
  }

  // ----- Conservation, operation by operation -----

  /** Remove deletes exactly its target: every other task keeps its data and its place, head or not. */
  lemma RemoveDeletesExactly(s: Option<Pending>, id: string)
    requires Inv(s)
    ensures Rows(Some(Remove(s, id))) == Without(Rows(s), id) <==> HasHead(s) || Without(Rows(s), id) == []
    ensures HasHead(s) && s.value.taskId != Some(id) ==>
              Remove(s, id) == s.value.(queuedTasks := Some(Without(Queue(s), id)))
  {
    if HasHead(s) {
      if s.value.taskId == Some(id) {
        RemoveHead(s, id);
      } else {
        RemoveQueued(s, id);
      }
    }
  }

  lemma ToFrontDistinct(queue: seq<QueuedTask>, k: nat)
    requires DistinctIds(queue) && k < |queue|
    ensures DistinctIds([queue[k]] + Without(queue, queue[k].taskId))
  {
    WithoutDistinct(queue, queue[k].taskId);
    ConsDistinct(queue[k], Without(queue, queue[k].taskId));
  }

  lemma IdsApart(rows: seq<QueuedTask>)
    requires DistinctIds(rows)
    ensures Distinct(rows)
  {
  }

  lemma ToFrontPermutes(queue: seq<QueuedTask>, k: nat)
    requires DistinctIds(queue) && k < |queue|
    ensures multiset([queue[k]] + Without(queue, queue[k].taskId)) == multiset(queue)
  {
    var next := [queue[k]] + Without(queue, queue[k].taskId);
    ToFrontDistinct(queue, k);
    IdsApart(queue);
    IdsApart(next);
    forall r ensures r in next <==> r in queue {
      assert r in next <==> r == queue[k] || r in Without(queue, queue[k].taskId);
      if r in queue && r.taskId == queue[k].taskId {
        var i :| 0 <= i < |queue| && queue[i] == r;
        assert i == k;
      }
    }
    SameElemsSameMultiset(next, queue);
  }

  lemma ToFrontWithout(queue: seq<QueuedTask>, k: nat)
    requires DistinctIds(queue) && k < |queue|
    ensures var rest := Without(queue, queue[k].taskId); Without([queue[k]] + rest, queue[k].taskId) == rest
  {
    var row, rest := queue[k], Without(queue, queue[k].taskId);
    WithoutDistinct(queue, row.taskId);
    WithoutDistinct(rest, row.taskId);
    assert ([row] + rest)[1..] == rest;
  }

  lemma PrioritizeBehindHead(s: Option<Pending>, id: string)
    requires Inv(s) && HasHead(s)
    ensures var p := Prioritize(s, id);
            && multiset(Queue(Some(p))) == multiset(Queue(s))
            && p.(queuedTasks := s.value.queuedTasks) == s.value
            && (Has(Queue(s), id) ==> Queue(Some(p)) != [] && Queue(Some(p))[0].taskId == id)
            && Without(Queue(Some(p)), id) == Without(Queue(s), id)
  {
    InvParts(s);
    var k := Find(Queue(s), id);
    if k.Some? {
      ToFrontPermutes(Queue(s), k.value);
      ToFrontWithout(Queue(s), k.value);
    }
  }

  /**
   * Send-now permutes the queue exactly when there is a head or nothing is queued: an entry that holds
   * queued rows and no head is emptied. Behind a head it moves one row to the front and changes nothing else.
   */
  lemma PrioritizePermutes(s: Option<Pending>, id: string)
    requires Inv(s)
    ensures multiset(Queue(Some(Prioritize(s, id)))) == multiset(Queue(s)) <==> HasHead(s) || Queue(s) == []
    ensures HasHead(s) ==>
              var p := Prioritize(s, id);
              && p.(queuedTasks := s.value.queuedTasks) == s.value
              && (Has(Queue(s), id) ==> Queue(Some(p)) != [] && Queue(Some(p))[0].taskId == id)
              && Without(Queue(Some(p)), id) == Without(Queue(s), id)
  {
    if HasHead(s) {
      PrioritizeBehindHead(s, id);
    } else {
      assert Queue(Some(Prioritize(s, id))) == [];
      assert |multiset(Queue(s))| == |Queue(s)|;
    }
  }

  /** A follow-up behind a head touches only the queue, and there only the row of its own task. */
  lemma EnqueueAddsAtMostItself(env: Env, s: Option<Pending>, task: QueuedTask)
    requires Inv(s) && HasHead(s) && s.value.taskId != Some(task.taskId)
    ensures var p := Enqueue(env, s, task, Some(true));
            && p.(queuedTasks := s.value.queuedTasks) == s.value
            && (forall r: QueuedTask :: r.taskId != task.taskId ==> (r in Queue(Some(p)) <==> r in Queue(s)))
            && (if Rich(task) || !Has(Queue(s), task.taskId)
                then forall r :: r in Queue(Some(p)) && r.taskId == task.taskId <==> r == task
                else forall r :: r in Queue(Some(p)) <==> r in Queue(s))
  {
    InvParts(s);
    var queue := Queue(s);
    assert (queue + [task])[..|queue|] == queue;
    UniqueQueueIdentity(queue);
    NormalizeKeeps(env, queue + [task]);
    assert UniqueQueue(queue + [task]) == Absorb(queue, task);
    AbsorbIds(queue, task);
  }

  /** The head goes back into the queue exactly when its status is, or defaults to, queued. */
  predicate WasQueued(head: Pending) {
    head.status == Some(QUEUED) || head.status == None
  }

  lemma RequeuedHas(s: Option<Pending>, x: string)
    requires HasHead(s)
    ensures Has(Requeued(s.value), x) <==> WasQueued(s.value) && x == s.value.taskId.value
  {
    var rows := Requeued(s.value);
    assert rows != [] ==> rows[0] in rows;
  }

  /** What a promotion makes of the row it promotes. */
  lemma PromotedRow(s: Option<Pending>, id: string, status: string, createdAt: Option<string>,
                    waitReason: Option<string>) returns (row: QueuedTask)
    requires HasHead(s) && s.value.taskId != Some(id) && Has(Queue(s), id)
    ensures row in Queue(s) && row.taskId == id
    ensures var p := Promote(s, id, status, createdAt, waitReason);
            && p.taskId == Some(id) && p.status == Some(status) && p.supportsQueue == s.value.supportsQueue
            && p.messageId == row.messageId && p.content == row.content
            && p.queuedTasks == Some(UniqueQueue(Requeued(s.value) + Without(Queue(s), id)))
  {
    row := Queue(s)[Find(Queue(s), id).value];
  }

  lemma PromotedShape(s: Option<Pending>, id: string, status: string, createdAt: Option<string>,
                      waitReason: Option<string>)
    requires Inv(s) && HasHead(s) && s.value.taskId != Some(id) && Has(Queue(s), id)
    ensures var p := Promote(s, id, status, createdAt, waitReason);
            && p.taskId == Some(id) && p.status == Some(status) && p.supportsQueue == s.value.supportsQueue
            && (exists r :: r in Queue(s) && r.taskId == id && p.messageId == r.messageId && p.content == r.content)
            && Queue(Some(p)) == Requeued(s.value) + Without(Queue(s), id)
  {
    var row := PromotedRow(s, id, status, createdAt, waitReason);
    RequeuedDistinct(s, id);
  }

  lemma ConsHas(row: QueuedTask, rows: seq<QueuedTask>, x: string)
    ensures Has([row] + rows, x) <==> row.taskId == x || Has(rows, x)
  {
    assert row in [row] + rows;
    assert forall r :: r in [row] + rows <==> r == row || r in rows;
  }

  lemma RowsHas(s: Option<Pending>, x: string)
    requires s.Some? && s.value.taskId.Some?
    ensures Has(Rows(s), x) <==> s.value.taskId.value == x || Has(Queue(s), x)
  {
    ConsHas(AsRow(s.value), Queue(s), x);
  }

  lemma ConcatHas(a: seq<QueuedTask>, b: seq<QueuedTask>, x: string)
    ensures Has(a + b, x) <==> Has(a, x) || Has(b, x)
  {
    assert forall r :: r in a + b <==> r in a || r in b;
  }

  lemma WithoutHas(rows: seq<QueuedTask>, id: string, x: string)
    ensures Has(Without(rows, id), x) <==> Has(rows, x) && x != id
  {
  }

  lemma PromotedHas(s: Option<Pending>, p: Pending, id: string, x: string)
    requires Inv(s) && HasHead(s) && s.value.taskId != Some(id) && Has(Queue(s), id)
    requires p.taskId == Some(id) && Queue(Some(p)) == Requeued(s.value) + Without(Queue(s), id)
    ensures Has(Rows(Some(p)), x) <==> Has(Rows(s), x) && (WasQueued(s.value) || x != s.value.taskId.value)
  {
    InvParts(s);
    RowsHas(s, x);
    RowsHas(Some(p), x);
    ConcatHas(Requeued(s.value), Without(Queue(s), id), x);
    RequeuedHas(s, x);
    WithoutHas(Queue(s), id, x);
  }

  /** Promotion of a queued task drops nothing but a former head that had already left the queue; the rest
    * keeps its order. */
  lemma PromoteConserves(s: Option<Pending>, id: string, status: string, createdAt: Option<string>,
                         waitReason: Option<string>)
    requires Inv(s) && HasHead(s) && s.value.taskId != Some(id) && Has(Queue(s), id)
    ensures var p := Promote(s, id, status, createdAt, waitReason);
            && p.taskId == Some(id) && p.status == Some(status) && p.supportsQueue == s.value.supportsQueue
            && (exists r :: r in Queue(s) && r.taskId == id && p.messageId == r.messageId && p.content == r.content)
            && Queue(Some(p)) == Requeued(s.value) + Without(Queue(s), id)
            && (forall x :: Has(Requeued(s.value), x) <==> WasQueued(s.value) && x == s.value.taskId.value)
            && forall x :: Has(Rows(Some(p)), x) <==>
                             Has(Rows(s), x) && (WasQueued(s.value) || x != s.value.taskId.value)
  {
    var p := Promote(s, id, status, createdAt, waitReason);
    PromotedShape(s, id, status, createdAt, waitReason);
    forall x ensures Has(Requeued(s.value), x) <==> WasQueued(s.value) && x == s.value.taskId.value {
      RequeuedHas(s, x);
    }
    forall x ensures Has(Rows(Some(p)), x) <==> Has(Rows(s), x) && (WasQueued(s.value) || x != s.value.taskId.value) {
      PromotedHas(s, p, id, x);
    }
  }

  /** A lifecycle event for the head changes its status and hold, and moves no task. */
  lemma PromoteHeadInPlace(s: Option<Pending>, id: string, status: string, createdAt: Option<string>,
                           waitReason: Option<string>)
    requires Inv(s) && s.Some? && s.value.taskId == Some(id)
    ensures var p := Promote(s, id, status, createdAt, waitReason);
            && p.(waitReason := None)
               == s.value.(status := Some(status), waitReason := None, queuedTasks := Some(Queue(s)))
            && p.waitReason == ResolveWaitReason(status, waitReason, s.value.waitReason)
  {
    InvParts(s);
    WithoutDistinct(Queue(s), id);
  }

  /** Any other lifecycle event changes nothing exactly when there is no head or the task is not queued. */
  lemma PromoteInertExactly(s: Option<Pending>, id: string, status: string, createdAt: Option<string>,
                            waitReason: Option<string>)
    requires Inv(s) && s.Some? && s.value.taskId != Some(id)
    ensures Promote(s, id, status, createdAt, waitReason) == s.value <==> !HasHead(s) || !Has(Queue(s), id)
  {
    if Find(Queue(s), id).Some? {
      assert Queue(s)[Find(Queue(s), id).value] in Queue(s);
    }
  }

  /** However many send responses arrive late, a head the server has started is never shown as waiting in line again. */
  lemma {:induction false} SendsNeverDowngrade(env: Env, s: Option<Pending>, events: seq<Event>)
    requires HasHead(s) && Truthy(s.value.status) && s.value.status != Some(QUEUED)
    requires forall e :: e in events ==> e.EnqueueEvent? && e.queued != Some(false)
    ensures var r := Run(env, s, events);
            && r.Some? && r.value.taskId == s.value.taskId
            && r.value.status == s.value.status && r.value.waitReason == s.value.waitReason
    decreases |events|
  {
    if events == [] {
    } else {
      SendsNeverDowngrade(env, Some(Apply(env, s, events[0])), events[1..]);
    }
  }

  /** Without a head, a queued send replaces the whole queue: earlier queue-only rows survive only if they are
    * its own. */
  lemma HeadlessEnqueueConserves(env: Env, s: Option<Pending>, task: QueuedTask)
    requires Inv(s)
    ensures (forall id :: Has(Queue(s), id) ==> Has(Rows(Some(Enqueue(env, s, task, Some(true)))), id))
            <==> HasHead(s) || (forall id :: Has(Queue(s), id) ==> id == task.taskId)
  {
    InvParts(s);
    var next := Queue(Some(Enqueue(env, s, task, Some(true))));
    var rows := Rows(Some(Enqueue(env, s, task, Some(true))));
    assert forall r :: r in next ==> r in rows;
    if !HasHead(s) {
      assert rows == [task];
    } else {
      WithoutDistinct(Queue(s), task.taskId);
      NormalizeKeeps(env, Queue(s) + [task]);
      assert forall id :: Has(Queue(s), id) ==> Has(next, id);
    }
  }

  /** Nothing in the queue is in the way of the sent row: behind a head a rich row replaces its own, without
    * one it replaces all. */
  ghost predicate Spares(s: Option<Pending>, task: QueuedTask) {
    forall r :: r in Queue(s) ==>
      r == task || (HasHead(s) && (r.taskId != task.taskId || (!Rich(task) && s.value.taskId != Some(task.taskId))))
  }

  /** A queued send leaves every queued row with its data exactly when it spares them. */
  lemma EnqueueKeepsRowsExactly(env: Env, s: Option<Pending>, task: QueuedTask)
    requires Inv(s)
    ensures (forall r :: r in Queue(s) ==> r in Queue(Some(Enqueue(env, s, task, Some(true))))) <==> Spares(s, task)
  {
    InvParts(s);
    var p := Enqueue(env, s, task, Some(true));
    if !HasHead(s) {
      assert Queue(Some(p)) == [task];
    } else if s.value.taskId == Some(task.taskId) {
      WithoutDistinct(Queue(s), task.taskId);
      forall r | r in Queue(s) ensures r.taskId != task.taskId {
        assert Has(Queue(s), r.taskId);
      }
    } else {
      EnqueueAddsAtMostItself(env, s, task);
      forall r | r in Queue(s) && r.taskId == task.taskId ensures Has(Queue(s), task.taskId) {
      }
    }
  }

  /**
   * From an empty cache, a second queued send wipes out the first, and a sparse account of a task
   * wipes out the rich one with its message preview.
   */
  lemma HeadlessSendsOverwrite(env: Env, first: QueuedTask, second: QueuedTask)
    ensures var once := Some(Apply(env, None, EnqueueEvent(first, Some(true))));
            var twice := Some(Apply(env, once, EnqueueEvent(second, Some(true))));
            Inv(once) && Queue(once) == [first] && Queue(twice) == [second]
  {
    RunOne(env, first);
  }

  lemma RunOne(env: Env, row: QueuedTask)
    ensures Inv(Some(Enqueue(env, None, row, Some(true))))
  {
    EnqueueKeepsInv(env, None, row, Some(true));
  }
}
