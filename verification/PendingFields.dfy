/** What each event does to the single fields of an entry, branch by branch. */
module PendingFields {
  import opened Common
  import opened PendingQueue
  import opened PendingRuns
  import opened PendingConvergence

  /** The head is this task, with all its details and nothing else. */
  ghost predicate IsHead(p: Pending, task: QueuedTask) {
    && p.taskId == Some(task.taskId) && p.status == Some(task.status) && p.createdAt == Some(task.createdAt)
    && p.messageId == task.messageId && p.content == task.content && p.waitReason == None
  }

  function Support(s: Option<Pending>): Option<bool> {
    if s.Some? then s.value.supportsQueue else None
  }

  // ----- Sends -----

  /**
   * An idle send into an entry without a head: the task becomes the head, and rows queued before the head was
   * known stay behind it, in order; only a row of the task itself goes.
   */
  lemma IdleSendBecomesHead(env: Env, s: Option<Pending>, task: QueuedTask, queued: Option<bool>)
    requires Inv(s) && !HasHead(s) && queued != Some(true)
    ensures var p := Enqueue(env, s, task, queued);
            && IsHead(p, task) && p.supportsQueue == Support(s) && p.queuedTasks.Some?
            && (forall r :: r in p.queuedTasks.value <==> r in Queue(s) && r.taskId != task.taskId)
            && DistinctIds(p.queuedTasks.value)
            && (Comparable(env, Elems(Queue(s))) ==> StrictlySorted(env, p.queuedTasks.value))
  {
    var rows := Without(Queue(s), task.taskId);
    InvParts(s);
    WithoutDistinct(Queue(s), task.taskId);
    UniqueQueueIdentity(rows);
    SortKeeps(env, rows);
    if Comparable(env, Elems(Queue(s))) {
      NormalizeMeans(env, Elems(Queue(s)), rows);
    }
  }

  /** A send that is said not to be queued replaces another head, and nothing is queued behind it. */
  lemma SendReplacesHead(env: Env, s: Option<Pending>, task: QueuedTask)
    requires HasHead(s) && s.value.taskId != Some(task.taskId)
    ensures var p := Enqueue(env, s, task, Some(false));
            IsHead(p, task) && p.supportsQueue == s.value.supportsQueue && p.queuedTasks == Some([])
  {
  }

  /** When nothing is said, a send is queued exactly behind another head. */
  lemma SendByDefault(env: Env, s: Option<Pending>, task: QueuedTask)
    ensures var queued := HasHead(s) && s.value.taskId != Some(task.taskId);
            Enqueue(env, s, task, None) == Enqueue(env, s, task, Some(queued))
  {
  }

  /** A queued send before the head is known: a row, no head. */
  lemma QueuedSendWaits(env: Env, s: Option<Pending>, task: QueuedTask)
    requires !HasHead(s)
    ensures var p := Enqueue(env, s, task, Some(true));
            !HasHead(Some(p)) && p.queuedTasks == Some([task]) && p.supportsQueue == Support(s) && p.waitReason == None
  {
  }

  /**
   * A send about the head itself completes it: what the send tells of the message holds, the time already
   * known stays, a status beyond queued stays, and of the queue only a row of the head goes.
   */
  lemma SendCompletesHead(env: Env, s: Option<Pending>, task: QueuedTask, queued: Option<bool>)
    requires Inv(s) && HasHead(s) && s.value.taskId == Some(task.taskId)
    ensures var head, p := s.value, Enqueue(env, s, task, queued);
            && p.taskId == head.taskId && p.supportsQueue == head.supportsQueue && p.waitReason == head.waitReason
            && p.queuedTasks == Some(Queue(s))
            && (head.status.Some? && head.status.value !in {"", "queued"} ==> p.status == head.status)
            && (head.status in {None, Some(""), Some("queued")} ==> p.status == Some(task.status))
            && (head.createdAt.Some? && head.createdAt.value != "" ==> p.createdAt == head.createdAt)
            && (head.createdAt in {None, Some("")} ==> p.createdAt == Some(task.createdAt))
            && p.messageId == (if task.messageId.Some? then task.messageId else head.messageId)
            && p.content == (if task.content.Some? then task.content else head.content)
  {
    InvParts(s);
    WithoutDistinct(Queue(s), task.taskId);
  }

  // ----- The order of the queue -----

  /** The times of two rows, when both are valid dates. */
  ghost predicate BothDated(env: Env, a: QueuedTask, b: QueuedTask) {
    env.parse(a.createdAt).Some? && env.parse(b.createdAt).Some?
  }

  /** After a follow-up behind a head, times never go back, and rows of one time or of none stand in the order
    * of their ids. */
  lemma QueueInOrder(env: Env, s: Option<Pending>, task: QueuedTask, i: nat, j: nat)
    requires Inv(s) && HasHead(s) && s.value.taskId != Some(task.taskId)
    requires Comparable(env, Elems(Queue(s)) + {task})
    requires i < j < |Queue(Some(Enqueue(env, s, task, Some(true))))|
    ensures var queue := Queue(Some(Enqueue(env, s, task, Some(true)))); var a, b := queue[i], queue[j];
            && (BothDated(env, a, b) ==> env.parse(a.createdAt).value <= env.parse(b.createdAt).value)
            && (!BothDated(env, a, b) || env.parse(a.createdAt) == env.parse(b.createdAt) ==>
                  env.locale(a.taskId, b.taskId) < 0)
  {
    EnqueueMeans(env, Elems(Queue(s)) + {task}, s, task);
    var queue := Queue(Some(Enqueue(env, s, task, Some(true))));
    assert Compare(env, queue[i], queue[j]) < 0;
  }

  /** A row with a message preview keeps one: no follow-up without a message takes its place. */
  lemma PreviewStays(env: Env, s: Option<Pending>, tasks: seq<QueuedTask>, r: QueuedTask)
    requires Behind(s, tasks) && Comparable(env, Elems(Queue(s)) + Elems(tasks))
    requires r in Queue(s) || r in tasks
    requires r.messageId.Some? && r.messageId.value != ""
    ensures exists t :: && t in Queue(EnqueueAll(env, s, tasks)) && t.taskId == r.taskId
                        && t.messageId.Some? && t.messageId.value != ""
  {
    EnqueueAllMeans(env, s, tasks);
    var rows := Elems(Queue(s));
    assert Rich(r);
    if SeenRichly(tasks, r.taskId) {
      var t := SomeLastRich(tasks, r.taskId);
      assert Prevails(rows, tasks, t);
    } else {
      assert r in rows && Listed(rows, r.taskId);
      assert Prevails(rows, tasks, r);
    }
  }

  /** A follow-up without a message preview never replaces a row. */
  lemma SparseNeverReplaces(env: Env, s: Option<Pending>, task: QueuedTask, r: QueuedTask)
    requires Inv(s) && HasHead(s) && s.value.taskId != Some(task.taskId)
    requires task.messageId in {None, Some("")} && r in Queue(s)
    ensures r in Queue(Some(Enqueue(env, s, task, Some(true))))
  {
    EnqueueKeepsRowsExactly(env, s, task);
  }

  // ----- Lifecycle events -----

  /** The reason that an event and the cache hold for a wait: the event's when it has one. */
  lemma WaitReasonExactly(s: Option<Pending>, id: string, status: string, createdAt: Option<string>,
                          waitReason: Option<string>)
    requires s.Some? && (s.value.taskId == Some(id) || (HasHead(s) && Has(Queue(s), id)))
    ensures var p := Promote(s, id, status, createdAt, waitReason);
            && (status != "waiting_local_directory" ==> p.waitReason == None)
            && (status == "waiting_local_directory" && waitReason.Some? ==> p.waitReason == waitReason)
            && (status == "waiting_local_directory" && waitReason.None? ==>
                  p.waitReason == if s.value.taskId == Some(id) then s.value.waitReason else None)
  {
  }

  /** What a started task shows: its row, with the status of the event, and its time unless it had none. */
  lemma StartShowsRow(s: Option<Pending>, row: QueuedTask, status: string, createdAt: Option<string>,
                      waitReason: Option<string>)
    requires Inv(s) && HasHead(s) && s.value.taskId != Some(row.taskId) && row in Queue(s)
    ensures var p := Promote(s, row.taskId, status, createdAt, waitReason);
            && p.taskId == Some(row.taskId) && p.status == Some(status) && p.supportsQueue == s.value.supportsQueue
            && p.messageId == row.messageId && p.content == row.content
            && (row.createdAt != "" ==> p.createdAt == Some(row.createdAt))
            && (row.createdAt == "" && createdAt.Some? ==> p.createdAt == createdAt)
            && (row.createdAt == "" && createdAt.None? ==> p.createdAt == Some(""))
  {
    InvParts(s);
    var k := Find(Queue(s), row.taskId);
    var j :| 0 <= j < |Queue(s)| && Queue(s)[j] == row;
    assert k.Some? && k.value == j;
  }

  /** A head that goes back into the queue is a bare row: its id and time, queued, without a preview. */
  lemma FormerHeadIsBare(s: Option<Pending>, id: string, status: string, createdAt: Option<string>,
                         waitReason: Option<string>)
    requires Inv(s) && HasHead(s) && s.value.taskId != Some(id) && Has(Queue(s), id)
    ensures var head, queue := s.value, Queue(Some(Promote(s, id, status, createdAt, waitReason)));
            if head.status in {None, Some("queued")}
            then && queue != []
                 && queue[0] == QueuedTask(head.taskId.value, "queued",
                                           if head.createdAt.Some? then head.createdAt.value else "", None, None)
                 && queue[1..] == Without(Queue(s), id)
            else queue == Without(Queue(s), id)
  {
    PromotedShape(s, id, status, createdAt, waitReason);
    if s.value.status in {None, Some("queued")} {
      assert |Requeued(s.value)| == 1;
    } else {
      assert Requeued(s.value) == [];
      assert [] + Without(Queue(s), id) == Without(Queue(s), id);
    }
  }

  // ----- What no event touches -----

  /** Whether the server queues is never forgotten, except with the whole entry. */
  lemma SupportStays(env: Env, s: Option<Pending>, e: Event)
    ensures Apply(env, s, e) == Pending(None, None, None, None, None, None, None, None)
            || Apply(env, s, e).supportsQueue == Support(s)
  {
  }

  /** Sending a queued task to the front, and removing one, leave the head with all its details. */
  lemma HeadUntouched(s: Option<Pending>, id: string)
    requires HasHead(s) && s.value.taskId != Some(id)
    ensures Remove(s, id).(queuedTasks := None) == s.value.(queuedTasks := None)
    ensures Prioritize(s, id).(queuedTasks := None) == s.value.(queuedTasks := None)
  {
  }

  /** When the head is removed, the first task queued takes its place with all its details, in front of the rest. */
  lemma NextTakesOver(s: Option<Pending>)
    requires Inv(s) && HasHead(s)
    ensures var p := Remove(s, s.value.taskId.value);
            if Queue(s) == [] then p == Pending(None, None, None, None, None, None, None, None)
            else IsHead(p, Queue(s)[0]) && p.supportsQueue == s.value.supportsQueue
                 && p.queuedTasks == Some(Queue(s)[1..])
  {
    InvParts(s);
    WithoutDistinct(Queue(s), s.value.taskId.value);
    UniqueQueueIdentity(Queue(s));
  }
}
