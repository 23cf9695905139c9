/**
 * The pending-task cache entry of one chat session: a head task and the queue of
 * follow-ups behind it, changed only by reducers that events drive in any order.
 */
module PendingQueue {
  import opened Common

  datatype QueuedTask = QueuedTask(
    taskId: string,
    status: string,
    createdAt: string,
    messageId: Option<string>,
    content: Option<string>)

  datatype Pending = Pending(
    taskId: Option<string>,
    status: Option<string>,
    createdAt: Option<string>,
    messageId: Option<string>,
    content: Option<string>,
    waitReason: Option<string>,
    supportsQueue: Option<bool>,
    queuedTasks: Option<seq<QueuedTask>>)

  /** The platform: how a date text parses (None is NaN) and how two ids compare. */
  datatype Env = Env(parse: string -> Option<int>, locale: (string, string) -> int)

  const EMPTY := Pending(None, None, None, None, None, None, None, None)
  const QUEUED := "queued"
  const WAITING := "waiting_local_directory"

  // ----- The queue -----

  function Compare(env: Env, left: QueuedTask, right: QueuedTask): int {
    var leftTime := env.parse(left.createdAt);
    var rightTime := env.parse(right.createdAt);
    if leftTime.Some? && rightTime.Some? && leftTime != rightTime then leftTime.value - rightTime.value
    else env.locale(left.taskId, right.taskId)
  }

  /** An observation that carries the message preview. */
  predicate Rich(task: QueuedTask) {
    Truthy(task.messageId)
  }

  /** Some row describes this task. */
  ghost predicate Has(rows: seq<QueuedTask>, id: string) {
    exists r :: r in rows && r.taskId == id
  }

  ghost predicate DistinctIds(rows: seq<QueuedTask>) {
    forall i, j :: 0 <= i < j < |rows| ==> rows[i].taskId != rows[j].taskId
  }

  function Find(rows: seq<QueuedTask>, id: string): (k: Option<nat>)
    ensures k.Some? ==> k.value < |rows| && rows[k.value].taskId == id
    ensures k.Some? ==> forall j :: 0 <= j < k.value ==> rows[j].taskId != id
    ensures k.None? ==> forall j :: 0 <= j < |rows| ==> rows[j].taskId != id
  {
    if rows == [] then None
    else if rows[0].taskId == id then Some(0)
    else Find(rows[1..], id).Or(None, (k: nat) => Some(k + 1))
  }

  /** One step of filling the Map: insertion order is kept, a rich row replaces, a sparse one does not. */
  function Absorb(rows: seq<QueuedTask>, task: QueuedTask): seq<QueuedTask> {
    match Find(rows, task.taskId)
    case None => rows + [task]
    case Some(k) => if Rich(task) then rows[k := task] else rows
  }

  function UniqueQueue(tasks: seq<QueuedTask>): seq<QueuedTask> {
    if tasks == [] then [] else Absorb(UniqueQueue(tasks[..|tasks| - 1]), tasks[|tasks| - 1])
  }

  function Insert(env: Env, task: QueuedTask, rows: seq<QueuedTask>): seq<QueuedTask> {
    if rows == [] then [task]
    else if Compare(env, task, rows[0]) <= 0 then [task] + rows
    else [rows[0]] + Insert(env, task, rows[1..])
  }

  /** A stable sort by Compare. */
  function SortQueue(env: Env, rows: seq<QueuedTask>): seq<QueuedTask> {
    if rows == [] then [] else Insert(env, rows[0], SortQueue(env, rows[1..]))
  }

  function NormalizeQueue(env: Env, tasks: seq<QueuedTask>): seq<QueuedTask> {
    SortQueue(env, UniqueQueue(tasks))
  }

  function Without(rows: seq<QueuedTask>, id: string): (r: seq<QueuedTask>)
    ensures forall t :: t in r <==> t in rows && t.taskId != id
  {
    if rows == [] then []
    else if rows[0].taskId == id then Without(rows[1..], id)
    else [rows[0]] + Without(rows[1..], id)
  }

  // ----- The reducers -----

  function Queue(s: Option<Pending>): seq<QueuedTask> {
    if s.Some? && s.value.queuedTasks.Some? then s.value.queuedTasks.value else []
  }

  predicate HasHead(s: Option<Pending>) {
    s.Some? && Truthy(s.value.taskId)
  }

  function AsHead(task: QueuedTask, supportsQueue: Option<bool>, queue: seq<QueuedTask>): Pending {
    Pending(Some(task.taskId), Some(task.status), Some(task.createdAt), task.messageId, task.content,
            None, supportsQueue, Some(queue))
  }

  function Enqueue(env: Env, current: Option<Pending>, task: QueuedTask, queuedArg: Option<bool>): Pending {
    var queued := if queuedArg.Some? then queuedArg.value
                  else HasHead(current) && current.value.taskId != Some(task.taskId);
    var support := if current.Some? then current.value.supportsQueue else None;
    if !HasHead(current) then
      if queued then EMPTY.(supportsQueue := support, queuedTasks := Some([task]))
      else AsHead(task, support, NormalizeQueue(env, Without(Queue(current), task.taskId)))
    else
      var head := current.value;
      if head.taskId == Some(task.taskId) then
        head.(status := if Truthy(head.status) && head.status != Some(QUEUED) then head.status else Some(task.status),
              createdAt := if Truthy(head.createdAt) then head.createdAt else Some(task.createdAt),
              messageId := if task.messageId.Some? then task.messageId else head.messageId,
              content := if task.content.Some? then task.content else head.content,
              queuedTasks := Some(Without(Queue(current), task.taskId)))
      else if !queued then AsHead(task, support, [])
      else head.(queuedTasks := Some(NormalizeQueue(env, Queue(current) + [task])))
  }

  function ResolveWaitReason(status: string, incoming: Option<string>, existing: Option<string>): Option<string> {
    if status != WAITING then None
    else if incoming.Some? then incoming else existing
  }

  function AsSummary(head: Pending): Option<QueuedTask> {
    if !Truthy(head.taskId) then None
    else Some(QueuedTask(head.taskId.value,
                         if head.status.Some? then head.status.value else QUEUED,
                         if head.createdAt.Some? then head.createdAt.value else "",
                         None, None))
  }

  /** The former head, if a promotion puts it back behind the promoted task. */
  function Requeued(head: Pending): seq<QueuedTask> {
    match AsSummary(head)
    case None => []
    case Some(row) => if row.status == QUEUED then [row] else []
  }

  function Promote(current: Option<Pending>, id: string, status: string,
                   createdAt: Option<string>, waitReason: Option<string>): Pending {
    var queue := Queue(current);
    if current.Some? && current.value.taskId == Some(id) then
      current.value.(status := Some(status),
                     waitReason := ResolveWaitReason(status, waitReason, current.value.waitReason),
                     queuedTasks := Some(Without(queue, id)))
    else
      var k := Find(queue, id);
      if !HasHead(current) || k.None? then if current.Some? then current.value else EMPTY
      else
        var promoted := queue[k.value];
        AsHead(promoted, current.value.supportsQueue,
               UniqueQueue(Requeued(current.value) + Without(queue, id)))
          .(status := Some(status),
            waitReason := ResolveWaitReason(status, waitReason, None),
            createdAt := Some(if promoted.createdAt != "" then promoted.createdAt
                              else if Truthy(createdAt) then createdAt.value else ""))
  }

  function Remove(current: Option<Pending>, id: string): Pending {
    if !HasHead(current) then EMPTY
    else if current.value.taskId != Some(id) then
      current.value.(queuedTasks := Some(Without(Queue(current), id)))
    else
      var rest := UniqueQueue(Without(Queue(current), id));
      if rest == [] then EMPTY else AsHead(rest[0], current.value.supportsQueue, rest[1..])
  }

  function Prioritize(current: Option<Pending>, id: string): Pending {
    if !HasHead(current) then EMPTY
    else
      var queue := Queue(current);
      match Find(queue, id)
      case None => current.value
      case Some(k) => current.value.(queuedTasks := Some([queue[k]] + Without(queue, id)))
  }

  // ----- uniqueQueue as the source writes it: a loop filling an insertion-ordered Map -----

  ghost function Values(order: seq<string>, byId: map<string, QueuedTask>): seq<QueuedTask>
    requires forall id :: id in order ==> id in byId
  {
    seq(|order|, i requires 0 <= i < |order| => byId[order[i]])
  }

  method UniqueQueueLoop(tasks: seq<QueuedTask>) returns (r: seq<QueuedTask>)
    ensures r == UniqueQueue(tasks)
  {
    var order: seq<string> := [];
    var byId: map<string, QueuedTask> := map[];
    for n := 0 to |tasks|
      invariant Distinct(order)
      invariant forall id :: id in order <==> id in byId
      invariant forall id :: id in byId ==> byId[id].taskId == id
      invariant Values(order, byId) == UniqueQueue(tasks[..n])
    {
      var task := tasks[n];
      assert tasks[..n + 1][..n] == tasks[..n];
      ghost var before := Values(order, byId);
      ghost var k := Find(before, task.taskId);
      assert k.Some? ==> order[k.value] == task.taskId;
      assert task.taskId in byId ==> k.Some? by {
        if task.taskId in byId {
          var j :| 0 <= j < |order| && order[j] == task.taskId;
          assert before[j].taskId == task.taskId;
        }
      }
      if task.taskId !in byId || Rich(task) {
        if task.taskId !in byId {
          order := order + [task.taskId];
        }
        byId := byId[task.taskId := task];
      }
      assert Values(order, byId) == Absorb(before, task);
    }
    assert tasks[..|tasks|] == tasks;
    r := seq(|order|, i requires 0 <= i < |order| && order[i] in byId => byId[order[i]]);
  }

  // ----- What uniqueQueue keeps -----

  /** Row r, seen at position i, is the last rich observation of its task, or the first of all if none is rich. */
  ghost predicate SurvivesAt(tasks: seq<QueuedTask>, r: QueuedTask, i: nat) {
    if Rich(r) then forall j :: i < j < |tasks| && tasks[j].taskId == r.taskId ==> !Rich(tasks[j])
    else forall j :: 0 <= j < |tasks| && tasks[j].taskId == r.taskId ==> !Rich(tasks[j]) && i <= j
  }

  ghost predicate Survives(tasks: seq<QueuedTask>, r: QueuedTask) {
    exists i :: 0 <= i < |tasks| && tasks[i] == r && SurvivesAt(tasks, r, i)
  }

  lemma {:induction false} UniqueQueueKeeps(tasks: seq<QueuedTask>)
    ensures DistinctIds(UniqueQueue(tasks))
    ensures forall id :: Has(UniqueQueue(tasks), id) <==> Has(tasks, id)
    ensures forall r :: r in UniqueQueue(tasks) ==> Survives(tasks, r)
  {
    if tasks == [] {
    } else {
      var n := |tasks| - 1;
      var init, last := tasks[..n], tasks[n];
      assert tasks == init + [last];
      UniqueQueueKeeps(init);
      AbsorbIds(UniqueQueue(init), last);
      forall r | r in UniqueQueue(tasks) ensures Survives(tasks, r) {
        SurvivesStep(init, last, r);
      }
    }
  }

  lemma AbsorbIds(rows: seq<QueuedTask>, task: QueuedTask)
    requires DistinctIds(rows)
    ensures DistinctIds(Absorb(rows, task))
    ensures forall id :: Has(Absorb(rows, task), id) <==> Has(rows, id) || id == task.taskId
    ensures forall r: QueuedTask :: r.taskId != task.taskId ==> (r in Absorb(rows, task) <==> r in rows)
    ensures if Rich(task) || !Has(rows, task.taskId)
            then forall r :: r in Absorb(rows, task) && r.taskId == task.taskId <==> r == task
            else Absorb(rows, task) == rows
  {
    var next := Absorb(rows, task);
    match Find(rows, task.taskId)
    case None =>
    case Some(k) =>
      assert rows[k] in rows && next[k] in next;
      if Rich(task) {
        forall r: QueuedTask | r.taskId != task.taskId ensures r in next <==> r in rows {
          if r in rows {
            var q :| 0 <= q < |rows| && rows[q] == r;
            assert next[q] == r;
          }
        }
      }
  }

  lemma SurvivesStep(init: seq<QueuedTask>, last: QueuedTask, r: QueuedTask)
    requires DistinctIds(UniqueQueue(init)) && forall id :: Has(UniqueQueue(init), id) <==> Has(init, id)
    requires forall x :: x in UniqueQueue(init) ==> Survives(init, x)
    requires r in Absorb(UniqueQueue(init), last)
    ensures Survives(init + [last], r)
  {
    var u, tasks := UniqueQueue(init), init + [last];
    AbsorbIds(u, last);
    if r == last && (Rich(last) || !Has(u, last.taskId)) {
      forall j | 0 <= j < |init| && !Has(u, last.taskId) ensures tasks[j].taskId != last.taskId {
        assert init[j] in init;
      }
      assert tasks[|init|] == r && SurvivesAt(tasks, r, |init|);
    } else {
      var i :| 0 <= i < |init| && init[i] == r && SurvivesAt(init, r, i);
      assert tasks[i] == r && SurvivesAt(tasks, r, i);
    }
  }
}
