/** Keeping queued prompts out of the transcript: which messages are hidden, and which events reveal them. */
module PendingHiding {
  import opened Common
  import opened PendingQueue
  import opened PendingRuns

  datatype ChatMessage = ChatMessage(id: string, taskId: Option<string>, content: string)

  /** The Map from message id to the task queued with it; a later row overwrites an earlier one. */
  function QueuedMessageTasks(queue: seq<QueuedTask>): map<string, string> {
    if queue == [] then map[]
    else
      var last := queue[|queue| - 1];
      var m := QueuedMessageTasks(queue[..|queue| - 1]);
      if Rich(last) then m[last.messageId.value := last.taskId] else m
  }

  predicate Hidden(queue: seq<QueuedTask>, m: ChatMessage) {
    var tasks := QueuedMessageTasks(queue);
    m.id in tasks && m.taskId == Some(tasks[m.id])
  }

  function Visible(queue: seq<QueuedTask>, messages: seq<ChatMessage>): seq<ChatMessage> {
    if messages == [] then []
    else
      var before, last := Visible(queue, messages[..|messages| - 1]), messages[|messages| - 1];
      if Hidden(queue, last) then before else before + [last]
  }

  function HideQueuedChatMessages(messages: seq<ChatMessage>, pending: Option<Pending>): seq<ChatMessage> {
    if |QueuedMessageTasks(Queue(pending))| == 0 then messages else Visible(Queue(pending), messages)
  }

  /** Row r is queued with message m, for the very task m belongs to. */
  ghost predicate RowOf(r: QueuedTask, m: ChatMessage) {
    Rich(r) && r.messageId == Some(m.id) && m.taskId == Some(r.taskId)
  }

  ghost predicate QueuedWith(queue: seq<QueuedTask>, m: ChatMessage) {
    exists r :: r in queue && RowOf(r, m)
  }

  /** No two rows were sent with the same message. */
  ghost predicate DistinctMessages(queue: seq<QueuedTask>) {
    forall i, j :: 0 <= i < j < |queue| && Rich(queue[i]) && Rich(queue[j]) ==> queue[i].messageId != queue[j].messageId
  }

  ghost predicate LastWith(queue: seq<QueuedTask>, i: int, messageId: string) {
    && 0 <= i < |queue| && Rich(queue[i]) && queue[i].messageId == Some(messageId)
    && forall j :: i < j < |queue| && Rich(queue[j]) ==> queue[j].messageId != Some(messageId)
  }

  /** The last row queued with a message decides for it. */
  lemma {:induction false} LastRowDecides(queue: seq<QueuedTask>, id: string)
    ensures id in QueuedMessageTasks(queue) <==> exists i :: LastWith(queue, i, id)
    ensures forall i :: LastWith(queue, i, id) ==> QueuedMessageTasks(queue)[id] == queue[i].taskId
  {
    if queue == [] {
    } else {
      var n := |queue| - 1;
      var init := queue[..n];
      LastRowDecides(init, id);
      var own := Rich(queue[n]) && queue[n].messageId == Some(id);
      assert own ==> LastWith(queue, n, id);
      assert forall i :: LastWith(queue, i, id) && i < n ==> LastWith(init, i, id);
      assert forall i :: LastWith(init, i, id) && !own ==> LastWith(queue, i, id);
    }
  }

  lemma HiddenWhenDistinct(queue: seq<QueuedTask>, m: ChatMessage)
    requires DistinctMessages(queue)
    ensures Hidden(queue, m) <==> QueuedWith(queue, m)
  {
    LastRowDecides(queue, m.id);
    if r :| r in queue && RowOf(r, m) {
      var i :| 0 <= i < |queue| && queue[i] == r;
      assert LastWith(queue, i, m.id);
    }
    if Hidden(queue, m) {
      var i :| LastWith(queue, i, m.id);
      assert queue[i] in queue && RowOf(queue[i], m);
    }
  }

  /** Two rows sent with one message: the earlier row's message stays on show while its task is queued. */
  lemma SharedMessageShows(queue: seq<QueuedTask>, i: nat, j: nat)
    requires DistinctIds(queue) && i < j < |queue| && Rich(queue[i]) && queue[i].messageId == queue[j].messageId
    ensures var m := ChatMessage(queue[i].messageId.value, Some(queue[i].taskId), "");
            QueuedWith(queue, m) && !Hidden(queue, m)
  {
    var m := ChatMessage(queue[i].messageId.value, Some(queue[i].taskId), "");
    assert queue[i] in queue && RowOf(queue[i], m);
    LastRowDecides(queue, m.id);
    assert forall k :: LastWith(queue, k, m.id) ==> j <= k && queue[k].taskId != queue[i].taskId;
  }

  /** Hiding means "its own task is queued with it" for every message exactly when no two rows share a message. */
  lemma HiddenExactly(queue: seq<QueuedTask>)
    requires DistinctIds(queue)
    ensures (forall m :: Hidden(queue, m) <==> QueuedWith(queue, m)) <==> DistinctMessages(queue)
  {
    if DistinctMessages(queue) {
      forall m ensures Hidden(queue, m) <==> QueuedWith(queue, m) {
        HiddenWhenDistinct(queue, m);
      }
    } else {
      var i, j :| 0 <= i < j < |queue| && Rich(queue[i]) && Rich(queue[j]) && queue[i].messageId == queue[j].messageId;
      SharedMessageShows(queue, i, j);
    }
  }

  /** The places of the messages that are not hidden. */
  function Places(queue: seq<QueuedTask>, messages: seq<ChatMessage>): seq<nat> {
    if messages == [] then []
    else
      var n := |messages| - 1;
      if Hidden(queue, messages[n]) then Places(queue, messages[..n]) else Places(queue, messages[..n]) + [n]
  }

  lemma {:induction false} PlacesAscend(queue: seq<QueuedTask>, messages: seq<ChatMessage>)
    ensures forall i :: 0 <= i < |Places(queue, messages)| ==> Places(queue, messages)[i] < |messages|
    ensures forall i, j :: 0 <= i < j < |Places(queue, messages)| ==>
              Places(queue, messages)[i] < Places(queue, messages)[j]
  {
    if messages != [] {
      PlacesAscend(queue, messages[..|messages| - 1]);
    }
  }

  lemma {:induction false} PlaceExactly(queue: seq<QueuedTask>, messages: seq<ChatMessage>, k: nat)
    requires k < |messages|
    ensures k in Places(queue, messages) <==> !Hidden(queue, messages[k])
  {
    var n := |messages| - 1;
    PlacesAscend(queue, messages[..n]);
    if k < n {
      PlaceExactly(queue, messages[..n], k);
    }
  }

  lemma {:induction false} VisibleAtPlaces(queue: seq<QueuedTask>, messages: seq<ChatMessage>, i: nat)
    ensures |Places(queue, messages)| == |Visible(queue, messages)|
    ensures i < |Places(queue, messages)| ==>
              && Places(queue, messages)[i] < |messages|
              && Visible(queue, messages)[i] == messages[Places(queue, messages)[i]]
  {
    if messages != [] {
      var n := |messages| - 1;
      VisibleAtPlaces(queue, messages[..n], i);
      PlacesAscend(queue, messages[..n]);
    }
  }

  /** What stays visible: exactly the messages not hidden, each at its place in the original order. */
  lemma {:induction false} VisiblePositions(queue: seq<QueuedTask>, messages: seq<ChatMessage>)
    ensures var at := Places(queue, messages);
            && |at| == |Visible(queue, messages)|
            && (forall i :: 0 <= i < |at| ==> at[i] < |messages| && Visible(queue, messages)[i] == messages[at[i]])
            && (forall i, j :: 0 <= i < j < |at| ==> at[i] < at[j])
            && forall k: nat :: k < |messages| ==> (k in at <==> !Hidden(queue, messages[k]))
  {
    PlacesAscend(queue, messages);
    VisibleAtPlaces(queue, messages, 0);
    forall i: nat | i < |Places(queue, messages)|
      ensures Visible(queue, messages)[i] == messages[Places(queue, messages)[i]]
    {
      VisibleAtPlaces(queue, messages, i);
    }
    forall k: nat | k < |messages| ensures k in Places(queue, messages) <==> !Hidden(queue, messages[k]) {
      PlaceExactly(queue, messages, k);
    }
  }

  lemma {:induction false} AllVisible(queue: seq<QueuedTask>, messages: seq<ChatMessage>)
    requires forall m :: !Hidden(queue, m)
    ensures Visible(queue, messages) == messages
  {
    if messages != [] {
      var n := |messages| - 1;
      AllVisible(queue, messages[..n]);
      assert messages == messages[..n] + [messages[n]];
    }
  }

  /** The reducer's result is the visible messages, whichever branch it takes. */
  lemma {:induction false} HideMeansVisible(messages: seq<ChatMessage>, pending: Option<Pending>)
    ensures HideQueuedChatMessages(messages, pending) == Visible(Queue(pending), messages)
  {
    if |QueuedMessageTasks(Queue(pending))| == 0 {
      assert QueuedMessageTasks(Queue(pending)) == map[];
      AllVisible(Queue(pending), messages);
    }
  }

  // ----- Which events reveal which messages -----

  lemma {:induction false} WithoutMessages(queue: seq<QueuedTask>, id: string)
    requires DistinctMessages(queue)
    ensures DistinctMessages(Without(queue, id))
  {
    if queue == [] {
    } else {
      var rest := queue[1..];
      WithoutMessages(rest, id);
      var w := Without(rest, id);
      forall j | 0 <= j < |w| && Rich(queue[0]) && Rich(w[j]) ensures w[j].messageId != queue[0].messageId {
        assert w[j] in rest;
      }
    }
  }

  lemma PromoteBehindHead(s: Option<Pending>, id: string, status: string, createdAt: Option<string>,
                          waitReason: Option<string>)
    requires Inv(s) && HasHead(s) && s.value.taskId != Some(id) && Has(Queue(s), id) && DistinctMessages(Queue(s))
    ensures var p := Some(Promote(s, id, status, createdAt, waitReason));
            DistinctMessages(Queue(p)) &&
            forall m :: Hidden(Queue(p), m) <==> Hidden(Queue(s), m) && m.taskId != Some(id)
  {
    var p := Some(Promote(s, id, status, createdAt, waitReason));
    PromoteConserves(s, id, status, createdAt, waitReason);
    PromoteKeepsInv(s, id, status, createdAt, waitReason);
    WithoutMessages(Queue(s), id);
    InvParts(s);
    InvParts(p);
    HiddenExactly(Queue(s));
    HiddenExactly(Queue(p));
    assert forall r :: r in Requeued(s.value) ==> !Rich(r);
    forall m ensures Hidden(Queue(p), m) <==> Hidden(Queue(s), m) && m.taskId != Some(id) {
      assert QueuedWith(Queue(p), m) <==> QueuedWith(Without(Queue(s), id), m);
    }
  }

  lemma RemoveBehindHead(s: Option<Pending>, id: string)
    requires Inv(s) && HasHead(s) && DistinctMessages(Queue(s))
    ensures var p := Some(Remove(s, id));
            var revealed := if s.value.taskId == Some(id) then p.value.taskId else Some(id);
            DistinctMessages(Queue(p)) &&
            forall m :: Hidden(Queue(p), m) <==> Hidden(Queue(s), m) && m.taskId != revealed
  {
    var p := Some(Remove(s, id));
    RemoveKeepsInv(s, id);
    InvParts(s);
    InvParts(p);
    HiddenExactly(Queue(s));
    var rest := Without(Queue(s), id);
    WithoutMessages(Queue(s), id);
    if s.value.taskId != Some(id) {
      HiddenExactly(Queue(p));
    } else {
      WithoutDistinct(Queue(s), id);
      UniqueQueueIdentity(rest);
      if rest != [] {
        TailReveals(rest);
      }
    }
  }

  /** Taking the first row off a queue reveals its message alone. */
  lemma TailReveals(queue: seq<QueuedTask>)
    requires DistinctIds(queue) && DistinctMessages(queue) && queue != []
    ensures DistinctMessages(queue[1..])
    ensures forall m :: Hidden(queue[1..], m) <==> Hidden(queue, m) && m.taskId != Some(queue[0].taskId)
  {
    assert queue == [queue[0]] + queue[1..];
    ConsDistinct(queue[0], queue[1..]);
    assert DistinctMessages(queue[1..]) by {
      assert forall i :: 0 <= i < |queue[1..]| ==> queue[1..][i] == queue[i + 1];
    }
    HiddenExactly(queue);
    HiddenExactly(queue[1..]);
  }

  lemma SameRowsHideTheSame(queue: seq<QueuedTask>, next: seq<QueuedTask>)
    requires DistinctMessages(queue) && DistinctMessages(next)
    requires forall r :: r in queue <==> r in next
    ensures forall m :: Hidden(next, m) <==> Hidden(queue, m)
  {
    forall m ensures Hidden(next, m) <==> Hidden(queue, m) {
      HiddenWhenDistinct(queue, m);
      HiddenWhenDistinct(next, m);
    }
  }

  lemma ToFrontMessages(queue: seq<QueuedTask>, k: nat)
    requires DistinctIds(queue) && DistinctMessages(queue) && k < |queue|
    ensures DistinctMessages([queue[k]] + Without(queue, queue[k].taskId))
  {
    var rest := Without(queue, queue[k].taskId);
    WithoutMessages(queue, queue[k].taskId);
    forall j | 0 <= j < |rest| && Rich(rest[j]) && Rich(queue[k]) ensures rest[j].messageId != queue[k].messageId {
      assert rest[j] in queue;
      var i :| 0 <= i < |queue| && queue[i] == rest[j];
      assert i != k;
    }
  }

  lemma PrioritizeBehindHead(s: Option<Pending>, id: string)
    requires Inv(s) && HasHead(s) && DistinctMessages(Queue(s))
    ensures forall m :: Hidden(Queue(Some(Prioritize(s, id))), m) <==> Hidden(Queue(s), m)
  {
    InvParts(s);
    var queue, k := Queue(s), Find(Queue(s), id);
    if k.Some? {
      var next := [queue[k.value]] + Without(queue, id);
      ToFrontPermutes(queue, k.value);
      ToFrontDistinct(queue, k.value);
      ToFrontMessages(queue, k.value);
      forall r ensures r in queue <==> r in next {
        assert r in multiset(next) <==> r in multiset(queue);
      }
      SameRowsHideTheSame(queue, next);
    }
  }

  /** The message a rich row was sent with, as a message of its task. */
  function MessageOf(r: QueuedTask): ChatMessage
    requires Rich(r)
  {
    ChatMessage(r.messageId.value, Some(r.taskId), "")
  }

  lemma RowHidesItsMessage(queue: seq<QueuedTask>, r: QueuedTask)
    requires DistinctMessages(queue) && r in queue && Rich(r)
    ensures Hidden(queue, MessageOf(r))
  {
    HiddenWhenDistinct(queue, MessageOf(r));
    assert RowOf(r, MessageOf(r));
  }

  lemma HiddenHasRow(queue: seq<QueuedTask>, m: ChatMessage) returns (r: QueuedTask)
    requires DistinctMessages(queue) && Hidden(queue, m)
    ensures r in queue && Rich(r) && m.taskId == Some(r.taskId)
  {
    HiddenWhenDistinct(queue, m);
    r :| r in queue && RowOf(r, m);
  }

  // ----- The same with or without a head -----

  /** The event reveals the messages of this task and no other. */
  ghost predicate RevealsOnly(s: Option<Pending>, p: Pending, task: Option<string>) {
    forall m :: Hidden(Queue(Some(p)), m) <==> Hidden(Queue(s), m) && m.taskId != task
  }

  lemma SameQueueRevealsExactly(s: Option<Pending>, p: Pending, id: string)
    requires DistinctMessages(Queue(s)) && Queue(Some(p)) == Queue(s)
    ensures RevealsOnly(s, p, Some(id)) <==> forall r :: r in Queue(s) && r.taskId == id ==> !Rich(r)
  {
    if r :| r in Queue(s) && r.taskId == id && Rich(r) {
      RowHidesItsMessage(Queue(s), r);
      assert MessageOf(r).taskId == Some(id) && Hidden(Queue(s), MessageOf(r));
    } else {
      forall m | Hidden(Queue(s), m) ensures m.taskId != Some(id) {
        var r := HiddenHasRow(Queue(s), m);
      }
    }
  }

  lemma EmptiedRevealsExactly(s: Option<Pending>, p: Pending, id: string)
    requires DistinctMessages(Queue(s)) && Queue(Some(p)) == []
    ensures RevealsOnly(s, p, Some(id)) <==> forall r :: r in Queue(s) && Rich(r) ==> r.taskId == id
  {
    if r :| r in Queue(s) && Rich(r) && r.taskId != id {
      RowHidesItsMessage(Queue(s), r);
      assert Hidden(Queue(s), MessageOf(r)) && !Hidden(Queue(Some(p)), MessageOf(r));
    } else {
      forall m | Hidden(Queue(s), m) ensures m.taskId == Some(id) {
        var r := HiddenHasRow(Queue(s), m);
      }
    }
  }

  /**
   * Promoting a task reveals its own message and no other exactly when there is a head or the task has no
   * queued message: without a head the entry stays as it is, and the message of a started task stays hidden.
   */
  lemma PromoteRevealsExactly(s: Option<Pending>, id: string, status: string, createdAt: Option<string>,
                              waitReason: Option<string>)
    requires Inv(s) && DistinctMessages(Queue(s))
    ensures RevealsOnly(s, Promote(s, id, status, createdAt, waitReason), Some(id)) <==>
            HasHead(s) || forall r :: r in Queue(s) && r.taskId == id ==> !Rich(r)
  {
    var p := Promote(s, id, status, createdAt, waitReason);
    InvParts(s);
    if HasHead(s) && s.value.taskId != Some(id) && Has(Queue(s), id) {
      PromoteBehindHead(s, id, status, createdAt, waitReason);
    } else {
      WithoutDistinct(Queue(s), id);
      if s.Some? && s.value.taskId != Some(id) {
        PromoteInertExactly(s, id, status, createdAt, waitReason);
      }
      assert Queue(Some(p)) == Queue(s);
      SameQueueRevealsExactly(s, p, id);
      assert HasHead(s) ==> !Has(Queue(s), id);
      assert forall r :: r in Queue(s) && r.taskId == id ==> Has(Queue(s), id);
    }
  }

  /**
   * Removing a task reveals one message, its own or that of the task that takes the head's place, exactly when
   * there is a head or no other task has a queued message: without a head the whole entry is dropped.
   */
  lemma RemoveRevealsExactly(s: Option<Pending>, id: string)
    requires Inv(s) && DistinctMessages(Queue(s))
    ensures var p := Remove(s, id);
            RevealsOnly(s, p, if HasHead(s) && s.value.taskId == Some(id) then p.taskId else Some(id)) <==>
            HasHead(s) || forall r :: r in Queue(s) && Rich(r) ==> r.taskId == id
  {
    if HasHead(s) {
      RemoveBehindHead(s, id);
    } else {
      EmptiedRevealsExactly(s, Remove(s, id), id);
    }
  }

  /** Send-now reveals nothing exactly when there is a head or no message is queued at all. */
  lemma PrioritizeRevealsNothingExactly(s: Option<Pending>, id: string)
    requires Inv(s) && DistinctMessages(Queue(s))
    ensures (forall m :: Hidden(Queue(Some(Prioritize(s, id))), m) <==> Hidden(Queue(s), m)) <==>
            HasHead(s) || forall r :: r in Queue(s) ==> !Rich(r)
  {
    if HasHead(s) {
      PrioritizeBehindHead(s, id);
    } else if r :| r in Queue(s) && Rich(r) {
      RowHidesItsMessage(Queue(s), r);
      assert Hidden(Queue(s), MessageOf(r)) && !Hidden(Queue(Some(Prioritize(s, id))), MessageOf(r));
    } else {
      forall m ensures !Hidden(Queue(s), m) {
        if Hidden(Queue(s), m) {
          var r := HiddenHasRow(Queue(s), m);
        }
      }
    }
  }

  /**
   * A prompt queued into an empty cache: starting its task leaves its message hidden, while removing
   * another task or sending another one now shows it.
   */
  lemma HeadlessEventsMisreveal(env: Env, row: QueuedTask, other: string, status: string)
    requires Rich(row) && other != row.taskId
    ensures var s := Some(Enqueue(env, None, row, Some(true)));
            && Inv(s) && Hidden(Queue(s), MessageOf(row))
            && Hidden(Queue(Some(Promote(s, row.taskId, status, None, None))), MessageOf(row))
            && !Hidden(Queue(Some(Remove(s, other))), MessageOf(row))
            && !Hidden(Queue(Some(Prioritize(s, other))), MessageOf(row))
  {
    var s := Some(Enqueue(env, None, row, Some(true)));
    RunOne(env, row);
    assert Queue(s) == [row] && DistinctMessages(Queue(s));
    RowHidesItsMessage(Queue(s), row);
  }
}
