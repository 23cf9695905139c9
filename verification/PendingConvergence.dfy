/** Order-independence of follow-up sends: the queue depends on which observations arrived, not on when. */
module PendingConvergence {
  import opened Common
  import opened PendingQueue
  import opened PendingRuns

  // ----- When the comparator is an order -----

  /** The platform's id comparison is a total order that tells distinct ids apart. */
  ghost predicate IsLocaleOrder(locale: (string, string) -> int) {
    && (forall a, b :: locale(a, b) == 0 <==> a == b)
    && (forall a, b :: locale(a, b) < 0 <==> locale(b, a) > 0)
    && (forall a, b, c :: locale(a, b) < 0 && locale(b, c) < 0 ==> locale(a, c) < 0)
  }

  /** Every date parses, or else no two dates that parse differ. */
  ghost predicate DatesComparable(env: Env, dates: set<string>) {
    || (forall d :: d in dates ==> env.parse(d).Some?)
    || (forall d, e :: d in dates && e in dates && env.parse(d).Some? && env.parse(e).Some? ==>
          env.parse(d) == env.parse(e))
  }

  ghost function Dates(tasks: set<QueuedTask>): set<string> {
    set t | t in tasks :: t.createdAt
  }

  ghost predicate Comparable(env: Env, tasks: set<QueuedTask>) {
    IsLocaleOrder(env.locale) && DatesComparable(env, Dates(tasks))
  }

  lemma CompareIsOrder(env: Env, tasks: set<QueuedTask>, x: QueuedTask, y: QueuedTask, z: QueuedTask)
    requires Comparable(env, tasks) && x in tasks && y in tasks && z in tasks
    ensures Compare(env, x, y) < 0 <==> Compare(env, y, x) > 0
    ensures Compare(env, x, y) == 0 <==> Compare(env, y, x) == 0
    ensures Compare(env, x, y) == 0 ==> x.taskId == y.taskId
    ensures Compare(env, x, y) < 0 && Compare(env, y, z) < 0 ==> Compare(env, x, z) < 0
  {
    assert x.createdAt in Dates(tasks) && y.createdAt in Dates(tasks) && z.createdAt in Dates(tasks);
  }

  ghost predicate TransitiveOn(env: Env, dates: set<string>) {
    forall x: QueuedTask, y: QueuedTask, z: QueuedTask
      | x.createdAt in dates && y.createdAt in dates && z.createdAt in dates ::
      Compare(env, x, y) < 0 && Compare(env, y, z) < 0 ==> Compare(env, x, z) < 0
  }

  /** The comparator orders tasks with these dates, whatever their ids, exactly when the dates are comparable. */
  lemma ComparatorTransitiveExactly(env: Env, dates: set<string>)
    requires IsLocaleOrder(env.locale)
    ensures TransitiveOn(env, dates) <==> DatesComparable(env, dates)
  {
    if !DatesComparable(env, dates) {
      var bad :| bad in dates && env.parse(bad).None?;
      var d, e :| d in dates && e in dates && env.parse(d).Some? && env.parse(e).Some? && env.parse(d) != env.parse(e);
      var (early, late) := if env.parse(d).value < env.parse(e).value then (d, e) else (e, d);
      var lo, mid, hi := ThreeIds(env.locale);
      var x := QueuedTask(lo, QUEUED, late, None, None);
      var y := QueuedTask(mid, QUEUED, bad, None, None);
      var z := QueuedTask(hi, QUEUED, early, None, None);
      assert Compare(env, x, y) < 0 && Compare(env, y, z) < 0 && Compare(env, z, x) < 0;
    }
  }

  lemma ThreeIds(locale: (string, string) -> int) returns (lo: string, mid: string, hi: string)
    requires IsLocaleOrder(locale)
    ensures locale(lo, mid) < 0 && locale(mid, hi) < 0
  {
    var a, b, c := "a", "b", "c";
    assert a[0] != b[0] && b[0] != c[0] && a[0] != c[0];
    lo, hi := a, b;
    if locale(b, a) < 0 {
      lo, hi := b, a;
    }
    if locale(hi, c) < 0 {
      mid, hi := hi, c;
    } else if locale(lo, c) < 0 {
      mid := c;
    } else {
      lo, mid := c, lo;
    }
  }

  // ----- Sorting has one outcome -----

  ghost predicate StrictlySorted(env: Env, rows: seq<QueuedTask>) {
    forall i, j :: 0 <= i < j < |rows| ==> Compare(env, rows[i], rows[j]) < 0
  }

  lemma ConsSorted(env: Env, row: QueuedTask, rest: seq<QueuedTask>)
    requires StrictlySorted(env, rest) && forall r :: r in rest ==> Compare(env, row, r) < 0
    ensures StrictlySorted(env, [row] + rest)
  {
    forall j | 0 <= j < |rest| ensures Compare(env, row, rest[j]) < 0 {
      assert rest[j] in rest;
    }
  }

  /** A row that does not come after the first one comes before all of a sorted list. */
  lemma BeforeAll(env: Env, tasks: set<QueuedTask>, task: QueuedTask, rows: seq<QueuedTask>, r: QueuedTask)
    requires Comparable(env, tasks) && task in tasks && forall x :: x in rows ==> x in tasks
    requires StrictlySorted(env, rows) && rows != [] && Compare(env, task, rows[0]) < 0 && r in rows
    ensures Compare(env, task, r) < 0
  {
    var j :| 0 <= j < |rows| && rows[j] == r;
    assert rows[0] in rows;
    CompareIsOrder(env, tasks, task, rows[0], r);
  }

  lemma TailSorted(env: Env, rows: seq<QueuedTask>)
    requires StrictlySorted(env, rows) && rows != []
    ensures StrictlySorted(env, rows[1..])
    ensures forall r :: r in rows[1..] ==> r in rows && Compare(env, rows[0], r) < 0
  {
    forall r | r in rows[1..] ensures r in rows && Compare(env, rows[0], r) < 0 {
      var j :| 0 <= j < |rows[1..]| && rows[1..][j] == r;
      assert rows[j + 1] == r;
    }
  }

  lemma {:induction false} InsertSorts(env: Env, tasks: set<QueuedTask>, task: QueuedTask, rows: seq<QueuedTask>)
    requires Comparable(env, tasks) && task in tasks && forall r :: r in rows ==> r in tasks
    requires StrictlySorted(env, rows) && !Has(rows, task.taskId)
    ensures StrictlySorted(env, Insert(env, task, rows))
  {
    if rows == [] {
    } else {
      assert rows[0] in rows;
      CompareIsOrder(env, tasks, task, rows[0], task);
      if Compare(env, task, rows[0]) > 0 {
        TailSorted(env, rows);
        InsertSorts(env, tasks, task, rows[1..]);
        InsertKeeps(env, task, rows[1..]);
        ConsSorted(env, rows[0], Insert(env, task, rows[1..]));
      } else {
        forall r | r in rows ensures Compare(env, task, r) < 0 {
          BeforeAll(env, tasks, task, rows, r);
        }
        ConsSorted(env, task, rows);
      }
    }
  }

  lemma {:induction false} SortSorts(env: Env, tasks: set<QueuedTask>, rows: seq<QueuedTask>)
    requires Comparable(env, tasks) && DistinctIds(rows) && forall r :: r in rows ==> r in tasks
    ensures StrictlySorted(env, SortQueue(env, rows))
  {
    if rows == [] {
    } else {
      assert rows == [rows[0]] + rows[1..];
      ConsDistinct(rows[0], rows[1..]);
      SortSorts(env, tasks, rows[1..]);
      SortKeeps(env, rows[1..]);
      InsertSorts(env, tasks, rows[0], SortQueue(env, rows[1..]));
    }
  }

  lemma FirstIsLeast(env: Env, rows: seq<QueuedTask>, r: QueuedTask)
    requires StrictlySorted(env, rows) && r in rows
    ensures r == rows[0] || Compare(env, rows[0], r) < 0
  {
    var i :| 0 <= i < |rows| && rows[i] == r;
  }

  lemma SameFirst(env: Env, tasks: set<QueuedTask>, a: seq<QueuedTask>, b: seq<QueuedTask>)
    requires Comparable(env, tasks) && forall r :: r in a ==> r in tasks
    requires StrictlySorted(env, a) && StrictlySorted(env, b) && a != [] && b != []
    requires forall r :: r in a <==> r in b
    ensures a[0] == b[0]
  {
    assert a[0] in b && b[0] in a;
    FirstIsLeast(env, a, b[0]);
    FirstIsLeast(env, b, a[0]);
    CompareIsOrder(env, tasks, a[0], b[0], a[0]);
  }

  /** Any correct sort gives the same list: two strictly sorted lists of the same tasks are equal. */
  lemma {:induction false} SortedUnique(env: Env, tasks: set<QueuedTask>, a: seq<QueuedTask>, b: seq<QueuedTask>)
    requires Comparable(env, tasks) && forall r :: r in a ==> r in tasks
    requires StrictlySorted(env, a) && StrictlySorted(env, b)
    requires forall r :: r in a <==> r in b
    ensures a == b
  {
    if a == [] {
      if b != [] { NonemptyHas(b); }
    } else {
      assert a[0] in b;
      SameFirst(env, tasks, a, b);
      TailSorted(env, a);
      TailSorted(env, b);
      CompareIsOrder(env, tasks, a[0], a[0], a[0]);
      assert a == [a[0]] + a[1..] && b == [b[0]] + b[1..];
      forall r ensures r in a[1..] <==> r in b[1..] {
        assert r in a <==> r == a[0] || r in a[1..];
        assert r in b <==> r == b[0] || r in b[1..];
      }
      SortedUnique(env, tasks, a[1..], b[1..]);
    }
  }

  // ----- Which observations survive -----

  /** Two observations of one task that are equally rich are the same observation. */
  ghost predicate EquallyRichAgree(tasks: set<QueuedTask>) {
    forall t, u :: t in tasks && u in tasks && t.taskId == u.taskId && Rich(t) == Rich(u) ==> t == u
  }

  /** A rich observation, or a sparse one of a task nobody saw richly. */
  ghost predicate Winner(tasks: set<QueuedTask>, t: QueuedTask) {
    t in tasks && (Rich(t) || forall u :: u in tasks && u.taskId == t.taskId ==> !Rich(u))
  }

  lemma UniqueQueueIsWinners(tasks: seq<QueuedTask>)
    requires EquallyRichAgree(Elems(tasks))
    ensures forall r :: r in UniqueQueue(tasks) <==> Winner(Elems(tasks), r)
  {
    var u := UniqueQueue(tasks);
    UniqueQueueKeeps(tasks);
    forall r | r in u ensures Winner(Elems(tasks), r) {
      var i :| 0 <= i < |tasks| && tasks[i] == r && SurvivesAt(tasks, r, i);
      forall x | x in tasks && x.taskId == r.taskId && !Rich(r) ensures !Rich(x) {
        var j :| 0 <= j < |tasks| && tasks[j] == x;
      }
    }
    forall t | Winner(Elems(tasks), t) ensures t in u {
      assert Has(tasks, t.taskId) && Has(u, t.taskId);
      var r :| r in u && r.taskId == t.taskId;
      assert Winner(Elems(tasks), r);
    }
  }

  lemma NormalizeMeans(env: Env, tasks: set<QueuedTask>, rows: seq<QueuedTask>)
    requires Comparable(env, tasks) && Elems(rows) <= tasks
    ensures StrictlySorted(env, NormalizeQueue(env, rows))
  {
    UniqueQueueKeeps(rows);
    forall r | r in UniqueQueue(rows) ensures r in tasks {
      var i :| 0 <= i < |rows| && rows[i] == r && SurvivesAt(rows, r, i);
      assert r in Elems(rows);
    }
    SortSorts(env, tasks, UniqueQueue(rows));
  }

  // ----- Convergence -----

  /** Several follow-ups behind the same head, applied in the order given. */
  function EnqueueAll(env: Env, s: Option<Pending>, tasks: seq<QueuedTask>): Option<Pending> {
    if tasks == [] then s
    else Some(Enqueue(env, EnqueueAll(env, s, tasks[..|tasks| - 1]), tasks[|tasks| - 1], Some(true)))
  }

  /** The rows after one more follow-up, as a set. */
  ghost function AbsorbSet(rows: set<QueuedTask>, task: QueuedTask): set<QueuedTask> {
    if Rich(task) || (forall r :: r in rows ==> r.taskId != task.taskId)
    then (set r | r in rows && r.taskId != task.taskId) + {task}
    else rows
  }

  /** One follow-up on a queue of distinct tasks: the outcome depends on the rows as a set only. */
  lemma EnqueueMeans(env: Env, tasks: set<QueuedTask>, s: Option<Pending>, task: QueuedTask)
    requires Inv(s) && HasHead(s) && s.value.taskId != Some(task.taskId)
    requires Comparable(env, tasks) && Elems(Queue(s)) <= tasks && task in tasks
    ensures var p := Some(Enqueue(env, s, task, Some(true)));
            && Inv(p) && StrictlySorted(env, Queue(p)) && p.value.queuedTasks.Some?
            && p.value.(queuedTasks := s.value.queuedTasks) == s.value
            && Elems(Queue(p)) == AbsorbSet(Elems(Queue(s)), task)
  {
    EnqueueKeepsInv(env, s, task, Some(true));
    EnqueueAddsAtMostItself(env, s, task);
    NormalizeMeans(env, tasks, Queue(s) + [task]);
    var next := Queue(Some(Enqueue(env, s, task, Some(true))));
    forall r ensures r in next <==> r in AbsorbSet(Elems(Queue(s)), task) {
      assert r in Queue(s) <==> r in Elems(Queue(s));
    }
  }

  /** Entries that differ in their queues at most are equal once the queues are sorted and hold the same rows. */
  lemma SameEntry(env: Env, tasks: set<QueuedTask>, p: Option<Pending>, q: Option<Pending>)
    requires p.Some? && q.Some? && p.value.queuedTasks.Some? && q.value.queuedTasks.Some?
    requires p.value.(queuedTasks := None) == q.value.(queuedTasks := None)
    requires Comparable(env, tasks) && Elems(Queue(p)) <= tasks
    requires StrictlySorted(env, Queue(p)) && StrictlySorted(env, Queue(q))
    ensures Elems(Queue(p)) == Elems(Queue(q)) <==> p == q
  {
    if Elems(Queue(p)) == Elems(Queue(q)) {
      forall r ensures r in Queue(p) <==> r in Queue(q) {
        assert r in Elems(Queue(p)) <==> r in Elems(Queue(q));
      }
      SortedUnique(env, tasks, Queue(p), Queue(q));
    }
  }

  /** The rows after several follow-ups, as a set. */
  ghost function AbsorbAll(rows: set<QueuedTask>, tasks: seq<QueuedTask>): set<QueuedTask> {
    if tasks == [] then rows else AbsorbSet(AbsorbAll(rows, tasks[..|tasks| - 1]), tasks[|tasks| - 1])
  }

  ghost predicate Listed(rows: set<QueuedTask>, id: string) {
    exists r :: r in rows && r.taskId == id
  }

  ghost predicate SeenRichly(tasks: seq<QueuedTask>, id: string) {
    exists r :: r in tasks && r.taskId == id && Rich(r)
  }

  /** Row t is the last rich account of its task. */
  ghost predicate LastRich(tasks: seq<QueuedTask>, t: QueuedTask) {
    exists i :: && 0 <= i < |tasks| && tasks[i] == t && Rich(t)
                && forall j :: i < j < |tasks| && tasks[j].taskId == t.taskId ==> !Rich(tasks[j])
  }

  /** Row t is the first account of its task. */
  ghost predicate First(tasks: seq<QueuedTask>, t: QueuedTask) {
    exists i :: 0 <= i < |tasks| && tasks[i] == t && forall j :: 0 <= j < i ==> tasks[j].taskId != t.taskId
  }

  /**
   * What is left of a task in the end: the last rich account sent, or else the row that was queued for it,
   * or else the first account sent.
   */
  ghost predicate Prevails(rows: set<QueuedTask>, tasks: seq<QueuedTask>, t: QueuedTask) {
    if SeenRichly(tasks, t.taskId) then LastRich(tasks, t)
    else if Listed(rows, t.taskId) then t in rows
    else First(tasks, t)
  }

  lemma SeenRichlyStep(init: seq<QueuedTask>, last: QueuedTask, id: string)
    ensures SeenRichly(init + [last], id) <==> SeenRichly(init, id) || (last.taskId == id && Rich(last))
  {
    assert last in init + [last];
    if SeenRichly(init, id) {
      var r :| r in init && r.taskId == id && Rich(r);
      assert r in init + [last];
    }
  }

  lemma LastRichStep(init: seq<QueuedTask>, last: QueuedTask, t: QueuedTask)
    ensures LastRich(init + [last], t) <==>
            if last.taskId == t.taskId && Rich(last) then t == last else LastRich(init, t)
  {
    var tasks := init + [last];
    assert tasks[|init|] == last;
    if i :| && 0 <= i < |init| && init[i] == t && Rich(t)
            && forall j :: i < j < |init| && init[j].taskId == t.taskId ==> !Rich(init[j])
    {
      assert tasks[i] == t;
    }
    if i :| && 0 <= i < |tasks| && tasks[i] == t && Rich(t)
            && forall j :: i < j < |tasks| && tasks[j].taskId == t.taskId ==> !Rich(tasks[j])
    {
      if i < |init| {
        assert forall j :: i < j < |init| ==> tasks[j] == init[j];
      }
    }
  }

  lemma FirstStep(init: seq<QueuedTask>, last: QueuedTask, t: QueuedTask)
    ensures First(init + [last], t) <==> First(init, t) || (t == last && !Has(init, t.taskId))
  {
    var tasks := init + [last];
    assert tasks[|init|] == last;
    if i :| 0 <= i < |init| && init[i] == t && forall j :: 0 <= j < i ==> init[j].taskId != t.taskId {
      assert tasks[i] == t;
    }
    if i :| 0 <= i < |tasks| && tasks[i] == t && forall j :: 0 <= j < i ==> tasks[j].taskId != t.taskId {
      if i < |init| {
        assert forall j :: 0 <= j < i ==> init[j] == tasks[j];
        assert init[i] == t;
      } else {
        forall r | r in init ensures r.taskId != t.taskId {
          var j :| 0 <= j < |init| && init[j] == r;
          assert tasks[j] == r;
        }
      }
    }
  }

  lemma {:induction false} SomeFirst(tasks: seq<QueuedTask>, id: string) returns (t: QueuedTask)
    requires Has(tasks, id)
    ensures First(tasks, t) && t.taskId == id
  {
    var n := |tasks| - 1;
    assert tasks == tasks[..n] + [tasks[n]];
    if Has(tasks[..n], id) {
      t := SomeFirst(tasks[..n], id);
    } else {
      t := tasks[n];
    }
    FirstStep(tasks[..n], tasks[n], t);
  }

  lemma {:induction false} SomeLastRich(tasks: seq<QueuedTask>, id: string) returns (t: QueuedTask)
    requires SeenRichly(tasks, id)
    ensures LastRich(tasks, t) && t.taskId == id
  {
    var n := |tasks| - 1;
    assert tasks == tasks[..n] + [tasks[n]];
    SeenRichlyStep(tasks[..n], tasks[n], id);
    if tasks[n].taskId == id && Rich(tasks[n]) {
      t := tasks[n];
    } else {
      t := SomeLastRich(tasks[..n], id);
    }
    LastRichStep(tasks[..n], tasks[n], t);
  }

  /** Nothing is left of a task exactly when it was neither queued nor sent. */
  lemma SomePrevails(rows: set<QueuedTask>, tasks: seq<QueuedTask>, id: string)
    ensures (exists t :: Prevails(rows, tasks, t) && t.taskId == id) <==> Listed(rows, id) || Has(tasks, id)
  {
    if SeenRichly(tasks, id) {
      var t := SomeLastRich(tasks, id);
      assert Prevails(rows, tasks, t);
    } else if Listed(rows, id) {
      var t :| t in rows && t.taskId == id;
      assert Prevails(rows, tasks, t);
    } else if Has(tasks, id) {
      var t := SomeFirst(tasks, id);
      assert Prevails(rows, tasks, t);
    }
  }

  lemma PrevailsStep(rows: set<QueuedTask>, init: seq<QueuedTask>, last: QueuedTask, t: QueuedTask)
    ensures Prevails(rows, init + [last], t) <==>
            if t.taskId != last.taskId then Prevails(rows, init, t)
            else if Rich(last) || !(Listed(rows, t.taskId) || Has(init, t.taskId)) then t == last
            else Prevails(rows, init, t)
  {
    SeenRichlyStep(init, last, t.taskId);
    LastRichStep(init, last, t);
    FirstStep(init, last, t);
  }

  lemma {:induction false} AbsorbAllMeans(rows: set<QueuedTask>, tasks: seq<QueuedTask>)
    ensures forall t :: t in AbsorbAll(rows, tasks) <==> Prevails(rows, tasks, t)
  {
    if tasks == [] {
    } else {
      var n := |tasks| - 1;
      var init, last := tasks[..n], tasks[n];
      AbsorbAllMeans(rows, init);
      assert tasks == init + [last];
      SomePrevails(rows, init, last.taskId);
      forall t ensures t in AbsorbAll(rows, tasks) <==> Prevails(rows, tasks, t) {
        PrevailsStep(rows, init, last, t);
      }
    }
  }

  lemma {:induction false} AbsorbAllBounded(rows: set<QueuedTask>, tasks: seq<QueuedTask>)
    ensures AbsorbAll(rows, tasks) <= rows + Elems(tasks)
  {
    if tasks == [] {
    } else {
      var n := |tasks| - 1;
      AbsorbAllBounded(rows, tasks[..n]);
      assert Elems(tasks[..n]) <= Elems(tasks) && tasks[n] in Elems(tasks);
    }
  }

  /** Behind a head, as far as follow-ups are concerned. */
  ghost predicate Behind(s: Option<Pending>, tasks: seq<QueuedTask>) {
    Inv(s) && HasHead(s) && forall t :: t in tasks ==> s.value.taskId != Some(t.taskId)
  }

  lemma {:induction false} EnqueueAllAbsorbs(env: Env, all: set<QueuedTask>, s: Option<Pending>, tasks: seq<QueuedTask>)
    requires Behind(s, tasks) && Comparable(env, all) && Elems(Queue(s)) + Elems(tasks) <= all
    ensures var r := EnqueueAll(env, s, tasks);
            && Inv(r) && HasHead(r) && r.value.(queuedTasks := s.value.queuedTasks) == s.value
            && Elems(Queue(r)) == AbsorbAll(Elems(Queue(s)), tasks)
            && (tasks != [] ==> r.value.queuedTasks.Some? && StrictlySorted(env, Queue(r)))
  {
    if tasks == [] {
    } else {
      var n := |tasks| - 1;
      var init, last := tasks[..n], tasks[n];
      assert Elems(init) <= Elems(tasks) && last in Elems(tasks);
      EnqueueAllAbsorbs(env, all, s, init);
      AbsorbAllBounded(Elems(Queue(s)), init);
      EnqueueMeans(env, all, EnqueueAll(env, s, init), last);
    }
  }

  /**
   * After any follow-ups the queue is the sorted list of what prevails for each task, and the rest of the
   * entry is as it was.
   */
  lemma EnqueueAllMeans(env: Env, s: Option<Pending>, tasks: seq<QueuedTask>)
    requires Behind(s, tasks) && Comparable(env, Elems(Queue(s)) + Elems(tasks))
    ensures var r := EnqueueAll(env, s, tasks);
            && r.Some? && r.value.(queuedTasks := s.value.queuedTasks) == s.value
            && (tasks != [] ==> StrictlySorted(env, Queue(r)))
            && forall t :: t in Queue(r) <==> Prevails(Elems(Queue(s)), tasks, t)
  {
    EnqueueAllAbsorbs(env, Elems(Queue(s)) + Elems(tasks), s, tasks);
    AbsorbAllMeans(Elems(Queue(s)), tasks);
    var r := EnqueueAll(env, s, tasks);
    assert forall t :: t in Queue(r) <==> t in Elems(Queue(r));
  }

  /** These accounts of one task could each prevail, depending on the order. */
  ghost predicate Dispute(rows: set<QueuedTask>, tasks: seq<QueuedTask>, a: QueuedTask, b: QueuedTask) {
    && a in tasks && b in tasks && a != b && a.taskId == b.taskId && Rich(a) == Rich(b)
    && (Rich(a) || !(Listed(rows, a.taskId) || SeenRichly(tasks, a.taskId)))
  }

  ghost predicate Undisputed(rows: set<QueuedTask>, tasks: seq<QueuedTask>) {
    forall a, b :: !Dispute(rows, tasks, a, b)
  }

  lemma SamePrevails(rows: set<QueuedTask>, p: seq<QueuedTask>, q: seq<QueuedTask>, t: QueuedTask)
    requires Undisputed(rows, p) && SameElements(p, q) && Prevails(rows, p, t)
    ensures Prevails(rows, q, t)
  {
    assert SeenRichly(p, t.taskId) <==> SeenRichly(q, t.taskId);
    if SeenRichly(p, t.taskId) {
      var u := SomeLastRich(q, t.taskId);
      assert u in p && t in p;
      assert !Dispute(rows, p, t, u);
    } else if !Listed(rows, t.taskId) {
      assert t in p;
      var u := SomeFirst(q, t.taskId);
      assert u in p;
      assert !Dispute(rows, p, t, u);
    }
  }

  lemma SameAbsorbed(rows: set<QueuedTask>, p: seq<QueuedTask>, q: seq<QueuedTask>)
    requires Undisputed(rows, p) && SameElements(p, q)
    ensures AbsorbAll(rows, p) == AbsorbAll(rows, q)
  {
    AbsorbAllMeans(rows, p);
    AbsorbAllMeans(rows, q);
    assert Undisputed(rows, q) by {
      forall a, b ensures !Dispute(rows, q, a, b) {
        assert !Dispute(rows, p, a, b);
      }
    }
    forall t ensures t in AbsorbAll(rows, p) <==> t in AbsorbAll(rows, q) {
      if Prevails(rows, p, t) { SamePrevails(rows, p, q, t); }
      if Prevails(rows, q, t) { SamePrevails(rows, q, p, t); }
    }
  }

  /** Of two accounts in dispute, the rich one sent last or the sparse one sent first prevails. */
  lemma DisputeShows(rows: set<QueuedTask>, tasks: seq<QueuedTask>, i: nat, j: nat)
    requires i < |tasks| && j < |tasks| && Dispute(rows, tasks, tasks[i], tasks[j])
    ensures if Rich(tasks[i]) then AbsorbAll(rows, Backed(tasks, i)) != AbsorbAll(rows, Backed(tasks, j))
            else AbsorbAll(rows, Fronted(tasks, i)) != AbsorbAll(rows, Fronted(tasks, j))
  {
    var a, b := tasks[i], tasks[j];
    if Rich(a) {
      assert a in AbsorbAll(rows, Backed(tasks, i)) && a !in AbsorbAll(rows, Backed(tasks, j));
    } else {
      var p, q := Fronted(tasks, i), Fronted(tasks, j);
      SameBag(tasks, p);
      SameBag(tasks, q);
      AbsorbAllMeans(rows, p);
      AbsorbAllMeans(rows, q);
      assert First(p, a) && Prevails(rows, p, a);
      assert !First(q, a) && !Prevails(rows, q, a);
    }
  }

  lemma SameEntryExactly(env: Env, s: Option<Pending>, p: seq<QueuedTask>, q: seq<QueuedTask>)
    requires Behind(s, p) && Comparable(env, Elems(Queue(s)) + Elems(p)) && SameElements(p, q)
    ensures EnqueueAll(env, s, p) == EnqueueAll(env, s, q)
            <==> AbsorbAll(Elems(Queue(s)), p) == AbsorbAll(Elems(Queue(s)), q)
  {
    var all := Elems(Queue(s)) + Elems(p);
    assert Elems(p) == Elems(q);
    EnqueueAllAbsorbs(env, all, s, p);
    EnqueueAllAbsorbs(env, all, s, q);
    AbsorbAllBounded(Elems(Queue(s)), p);
    if p == [] {
      if q != [] { NonemptyHas(q); }
    } else {
      assert p[0] in q;
      SameEntry(env, all, EnqueueAll(env, s, p), EnqueueAll(env, s, q));
    }
  }

  /** Undisputed follow-ups, reordered and redelivered in any way behind the same head, leave the identical entry. */
  lemma EnqueueConverges(env: Env, s: Option<Pending>, p: seq<QueuedTask>, q: seq<QueuedTask>)
    requires Behind(s, p) && Comparable(env, Elems(Queue(s)) + Elems(p)) && SameElements(p, q)
    requires Undisputed(Elems(Queue(s)), p)
    ensures EnqueueAll(env, s, p) == EnqueueAll(env, s, q)
  {
    SameAbsorbed(Elems(Queue(s)), p, q);
    SameEntryExactly(env, s, p, q);
  }

  /**
   * The order of follow-ups behind a head is immaterial exactly when different, equally rich accounts of one
   * task among them are sparse, and the queue lists that task or a rich account of it is among them too.
   */
  lemma EnqueueConvergesExactly(env: Env, s: Option<Pending>, p: seq<QueuedTask>)
    requires Behind(s, p) && Comparable(env, Elems(Queue(s)) + Elems(p))
    ensures (forall q :: multiset(q) == multiset(p) ==> EnqueueAll(env, s, q) == EnqueueAll(env, s, p))
            <==> Undisputed(Elems(Queue(s)), p)
  {
    if Undisputed(Elems(Queue(s)), p) {
      forall q | multiset(q) == multiset(p) ensures EnqueueAll(env, s, q) == EnqueueAll(env, s, p) {
        SameBag(p, q);
        EnqueueConverges(env, s, p, q);
      }
    } else {
      var q := DisputeDiverges(env, s, p);
      assert EnqueueAll(env, s, q) != EnqueueAll(env, s, p);
    }
  }

  lemma DisputeDiverges(env: Env, s: Option<Pending>, p: seq<QueuedTask>) returns (q: seq<QueuedTask>)
    requires Behind(s, p) && Comparable(env, Elems(Queue(s)) + Elems(p))
    requires !Undisputed(Elems(Queue(s)), p)
    ensures multiset(q) == multiset(p) && EnqueueAll(env, s, q) != EnqueueAll(env, s, p)
  {
    var rows := Elems(Queue(s));
    var a, b :| Dispute(rows, p, a, b);
    var i :| 0 <= i < |p| && p[i] == a;
    var j :| 0 <= j < |p| && p[j] == b;
    DisputeShows(rows, p, i, j);
    var x, y := if Rich(a) then Backed(p, i) else Fronted(p, i), if Rich(a) then Backed(p, j) else Fronted(p, j);
    q := if AbsorbAll(rows, x) != AbsorbAll(rows, p) then x else y;
    SameBag(p, q);
    SameEntryExactly(env, s, p, q);
  }

  /** Send-now lasts only until the next follow-up: that follow-up sorts the whole queue afresh. */
  lemma EnqueueForgetsPriority(env: Env, s: Option<Pending>, id: string, task: QueuedTask)
    requires Inv(s) && HasHead(s) && s.value.taskId != Some(task.taskId)
    requires Comparable(env, Elems(Queue(s)) + {task})
    ensures Enqueue(env, Some(Prioritize(s, id)), task, Some(true)) == Enqueue(env, s, task, Some(true))
  {
    var p, tasks := Some(Prioritize(s, id)), Elems(Queue(s)) + {task};
    PrioritizeKeepsInv(s, id);
    PrioritizePermutes(s, id);
    assert Elems(Queue(p)) == Elems(Queue(s)) by {
      assert forall r :: r in Queue(p) <==> r in multiset(Queue(p));
    }
    EnqueueMeans(env, tasks, s, task);
    EnqueueMeans(env, tasks, p, task);
    SameEntry(env, tasks, Some(Enqueue(env, s, task, Some(true))), Some(Enqueue(env, p, task, Some(true))));
  }

  /**
   * The chosen task is still first after the next follow-up exactly when its row comes before all others
   * by the comparator anyway.
   */
  lemma PriorityLastsExactly(env: Env, s: Option<Pending>, id: string, task: QueuedTask)
    requires Inv(s) && HasHead(s) && s.value.taskId != Some(task.taskId) && Has(Queue(s), id)
    requires Comparable(env, Elems(Queue(s)) + {task})
    ensures var next := Queue(Some(Enqueue(env, Some(Prioritize(s, id)), task, Some(true))));
            next != [] && (next[0].taskId == id <==> Leads(env, AbsorbSet(Elems(Queue(s)), task), id))
  {
    EnqueueForgetsPriority(env, s, id, task);
    FirstAfterEnqueue(env, s, id, task);
  }

  lemma StillListed(rows: set<QueuedTask>, task: QueuedTask, id: string)
    requires Listed(rows, id)
    ensures Listed(AbsorbSet(rows, task), id)
  {
    var r :| r in rows && r.taskId == id;
    assert r in AbsorbSet(rows, task) || (task in AbsorbSet(rows, task) && task.taskId == id);
  }

  lemma FirstAfterEnqueue(env: Env, s: Option<Pending>, id: string, task: QueuedTask)
    requires Inv(s) && HasHead(s) && s.value.taskId != Some(task.taskId) && Has(Queue(s), id)
    requires Comparable(env, Elems(Queue(s)) + {task})
    ensures var next := Queue(Some(Enqueue(env, s, task, Some(true))));
            next != [] && (next[0].taskId == id <==> Leads(env, AbsorbSet(Elems(Queue(s)), task), id))
  {
    var tasks, next := Elems(Queue(s)) + {task}, Queue(Some(Enqueue(env, s, task, Some(true))));
    EnqueueMeans(env, tasks, s, task);
    assert Listed(Elems(Queue(s)), id) by {
      var r :| r in Queue(s) && r.taskId == id;
      assert r in Elems(Queue(s));
    }
    StillListed(Elems(Queue(s)), task, id);
    var c :| c in AbsorbSet(Elems(Queue(s)), task) && c.taskId == id;
    assert c in next;
    InvParts(Some(Enqueue(env, s, task, Some(true))));
    FirstLeads(env, tasks, next, id);
  }

  /** The row of this task compares before all others. */
  ghost predicate Leads(env: Env, rows: set<QueuedTask>, id: string) {
    forall c, r :: c in rows && r in rows && c.taskId == id && r.taskId != id ==> Compare(env, c, r) < 0
  }

  lemma FirstLeads(env: Env, tasks: set<QueuedTask>, rows: seq<QueuedTask>, id: string)
    requires Comparable(env, tasks) && Elems(rows) <= tasks
    requires StrictlySorted(env, rows) && DistinctIds(rows) && Has(rows, id)
    ensures rows != [] && (rows[0].taskId == id <==> Leads(env, Elems(rows), id))
  {
    var c :| c in rows && c.taskId == id;
    var k :| 0 <= k < |rows| && rows[k] == c;
    assert rows[0] in Elems(rows) && c in Elems(rows);
    if k == 0 {
      forall x, r | x in Elems(rows) && r in Elems(rows) && x.taskId == id && r.taskId != id
        ensures Compare(env, x, r) < 0
      {
        var j :| 0 <= j < |rows| && rows[j] == x;
        FirstIsLeast(env, rows, r);
      }
    } else {
      CompareIsOrder(env, tasks, rows[0], c, c);
    }
  }

  /**
   * A send-now that is undone: of two queued tasks the later one is moved to the front, and the next
   * follow-up puts it back behind the earlier one.
   */
  lemma SendNowUndone(env: Env, head: Pending, a: QueuedTask, b: QueuedTask, c: QueuedTask)
    requires Truthy(head.taskId) && DistinctIds([a, b, c])
    requires head.taskId != Some(a.taskId) && head.taskId != Some(b.taskId) && head.taskId != Some(c.taskId)
    requires env.parse(a.createdAt).Some? && env.parse(b.createdAt).Some? && env.parse(c.createdAt).Some?
    requires env.parse(a.createdAt).value < env.parse(b.createdAt).value < env.parse(c.createdAt).value
    ensures var sent := Prioritize(Some(head.(queuedTasks := Some([a, b]))), b.taskId);
            Queue(Some(sent)) == [b, a] && Queue(Some(Enqueue(env, Some(sent), c, Some(true)))) == [a, b, c]
  {
    assert a.taskId != b.taskId && b.taskId != c.taskId && a.taskId != c.taskId by {
      assert [a, b, c][0] == a && [a, b, c][1] == b && [a, b, c][2] == c;
    }
    WithoutSecond(a, b);
    SortsBack(env, a, b, c);
    assert [b, a] + [c] == [b, a, c];
  }

  lemma WithoutSecond(a: QueuedTask, b: QueuedTask)
    requires a.taskId != b.taskId
    ensures Without([a, b], b.taskId) == [a] && Find([a, b], b.taskId) == Some(1)
  {
    assert [a, b][1..] == [b] && [b][1..] == [];
    assert Without([], b.taskId) == [];
    assert Without([b], b.taskId) == [];
    assert Find([b], b.taskId) == Some(0);
  }

  lemma SortsBack(env: Env, a: QueuedTask, b: QueuedTask, c: QueuedTask)
    requires a.taskId != b.taskId && b.taskId != c.taskId && a.taskId != c.taskId
    requires Compare(env, b, a) > 0 && Compare(env, a, c) < 0 && Compare(env, b, c) < 0
    ensures NormalizeQueue(env, [b, a, c]) == [a, b, c]
  {
    UniqueQueueIdentity([b, a, c]);
    assert [b, a, c][1..] == [a, c] && [a, c][1..] == [c] && [c][1..] == [];
    assert SortQueue(env, []) == [] && SortQueue(env, [c]) == [c];
    assert Insert(env, a, [c]) == [a, c];
    assert SortQueue(env, [a, c]) == [a, c];
    assert Insert(env, b, [c]) == [b, c];
    assert Insert(env, b, [a, c]) == [a] + Insert(env, b, [c]);
  }

  /** Two sends commute unless they are different, equally rich accounts of one task that the queue does not settle. */
  lemma TwoSendsCommuteExactly(env: Env, s: Option<Pending>, a: QueuedTask, b: QueuedTask)
    requires Inv(s) && HasHead(s) && s.value.taskId != Some(a.taskId) && s.value.taskId != Some(b.taskId)
    requires Comparable(env, Elems(Queue(s)) + {a, b})
    ensures Enqueue(env, Some(Enqueue(env, s, a, Some(true))), b, Some(true))
         == Enqueue(env, Some(Enqueue(env, s, b, Some(true))), a, Some(true))
        <==> a == b || a.taskId != b.taskId || Rich(a) != Rich(b) || (!Rich(a) && Has(Queue(s), a.taskId))
  {
    var tasks, rows := Elems(Queue(s)) + {a, b}, Elems(Queue(s));
    EnqueueMeans(env, tasks, s, a);
    EnqueueMeans(env, tasks, s, b);
    var sa, sb := Some(Enqueue(env, s, a, Some(true))), Some(Enqueue(env, s, b, Some(true)));
    EnqueueMeans(env, tasks, sa, b);
    EnqueueMeans(env, tasks, sb, a);
    SameEntry(env, tasks, Some(Enqueue(env, sa, b, Some(true))), Some(Enqueue(env, sb, a, Some(true))));
    AbsorbsCommuteExactly(rows, a, b);
  }

  lemma AbsorbsCommuteExactly(rows: set<QueuedTask>, a: QueuedTask, b: QueuedTask)
    ensures AbsorbSet(AbsorbSet(rows, a), b) == AbsorbSet(AbsorbSet(rows, b), a)
        <==> a == b || a.taskId != b.taskId || Rich(a) != Rich(b) || (!Rich(a) && Listed(rows, a.taskId))
  {
  }
}
