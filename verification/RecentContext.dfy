/**
 * The recently visited issues and projects of each workspace
 * (packages/core/chat/recent-context-store.ts): a bounded list per workspace, and a bound on the
 * number of workspaces.
 *
 * The clock and the order in which an object's keys are enumerated are parameters of a visit.
 */
module RecentContext {

  import opened Common
  import opened Recency

  const MAX_RECENT_CONTEXTS: nat := 20
  const MAX_WORKSPACES: nat := 50

  datatype Kind = Issue | Project

  /** The fields a visit only copies. */
  type Payload(==, !new)

  datatype Entry = Entry(kind: Kind, id: string, payload: Payload, visitedAt: int)

  type Buckets = map<string, seq<Entry>>

  function KindName(kind: Kind): string {
    match kind
    case Issue => "issue"
    case Project => "project"
  }

  function ContextKey(kind: Kind, id: string): string {
    KindName(kind) + ":" + id
  }

  function EntryKey(e: Entry): string {
    ContextKey(e.kind, e.id)
  }

  /** The key tells contexts apart, whatever characters their ids hold. */
  lemma ContextKeyInjective(kind: Kind, id: string, kind': Kind, id': string)
    ensures ContextKey(kind, id) == ContextKey(kind', id') ==> kind == kind' && id == id'
  {
    var n, n' := |KindName(kind)| + 1, |KindName(kind')| + 1;
    assert ContextKey(kind, id)[0] == KindName(kind)[0];
    assert ContextKey(kind', id')[0] == KindName(kind')[0];
    assert ContextKey(kind, id)[n..] == id && ContextKey(kind', id')[n'..] == id';
  }

  function Bucket(store: Buckets, wsId: string): seq<Entry> {
    if wsId in store then store[wsId] else []
  }

  /** When a workspace was last visited, as far as its bucket tells. */
  function HeadTime(store: Buckets, wsId: string): int {
    if Bucket(store, wsId) != [] then Bucket(store, wsId)[0].visitedAt else 0
  }

  /** The store with the visit recorded, before the number of workspaces is limited. */
  function Opened(store: Buckets, wsId: string, entry: Entry): Buckets {
    store[wsId := Take(ToFront(Bucket(store, wsId), EntryKey, entry), MAX_RECENT_CONTEXTS)]
  }

  /** Of the first `n` workspaces, the first one with the smallest time. */
  function OldestUpto(store: Buckets, order: seq<string>, n: nat): string
    requires 1 <= n <= |order|
  {
    if n == 1 then order[0]
    else
      var oldest := OldestUpto(store, order, n - 1);
      if HeadTime(store, order[n - 1]) < HeadTime(store, oldest) then order[n - 1] else oldest
  }

  function Evicted(store: Buckets, order: seq<string>): Buckets {
    if |store| > MAX_WORKSPACES && order != [] then store - {OldestUpto(store, order, |order|)} else store
  }

  datatype Event =
    | Visit(wsId: string, entry: Entry, order: seq<string>)
    | Forget(wsId: string, kind: Kind, id: string)
    | Prune(active: seq<string>)

  function Step(store: Buckets, e: Event): Buckets {
    match e
    case Visit(wsId, entry, order) => Evicted(Opened(store, wsId, entry), order)
    case Forget(wsId, kind, id) =>
      if wsId !in store then store
      else
        var next := Without(store[wsId], EntryKey, ContextKey(kind, id));
        if |next| == |store[wsId]| then store
        else if next == [] then store - {wsId} else store[wsId := next]
    case Prune(active) => Pruned(store, active)
  }

  /** The order lists every key of the map once. */
  ghost predicate Enumerates(order: seq<string>, store: Buckets) {
    Distinct(order) && Elems(order) == store.Keys
  }

  /** The reduction over the keys as a loop. */
  method FindOldest(store: Buckets, order: seq<string>) returns (oldest: string)
    requires order != []
    ensures oldest == OldestUpto(store, order, |order|)
  {
    oldest := order[0];
    var i := 1;
    while i < |order|
      invariant 1 <= i <= |order|
      invariant oldest == OldestUpto(store, order, i)
    {
      if HeadTime(store, order[i]) < HeadTime(store, oldest) {
        oldest := order[i];
      }
      i := i + 1;
    }
  }

  function Pruned(store: Buckets, active: seq<string>): Buckets {
    map w | w in store && w in active :: store[w]
  }

  /** The pruning loop over the entries; it says whether anything was left out. */
  method CopyAllowed(store: Buckets, active: seq<string>, order: seq<string>) returns (changed: bool, next: Buckets)
    requires Enumerates(order, store)
    ensures next == Pruned(store, active)
    ensures !changed ==> next == store
  {
    changed, next := false, map[];
    var i := 0;
    while i < |order|
      invariant 0 <= i <= |order|
      invariant forall w :: w in next <==> w in order[..i] && w in active
      invariant forall w :: w in next ==> w in store && next[w] == store[w]
      invariant !changed ==> forall k :: 0 <= k < i ==> order[k] in active
    {
      assert order[..i + 1] == order[..i] + [order[i]];
      assert order[i] in Elems(order);
      if order[i] in active {
        next := next[order[i] := store[order[i]]];
      } else {
        changed := true;
      }
      i := i + 1;
    }
    assert order[..|order|] == order;
    forall w ensures w in store <==> w in order {
      assert w in Elems(order) <==> w in order;
    }
  }

  class RecentContextStore {
    var byWorkspace: Buckets

    constructor ()
      ensures byWorkspace == map[]
    {
      byWorkspace := map[];
    }

    method RecordVisit(wsId: string, entry: Entry, order: seq<string>)
      requires Enumerates(order, Opened(byWorkspace, wsId, entry))
      modifies this
      ensures byWorkspace == Step(old(byWorkspace), Visit(wsId, entry, order))
    {
      var bucket := if wsId in byWorkspace then byWorkspace[wsId] else [];
      var filtered := Without(bucket, EntryKey, EntryKey(entry));
      var next := byWorkspace[wsId := Take([entry] + filtered, MAX_RECENT_CONTEXTS)];
      if |next| > MAX_WORKSPACES {
        assert wsId in next.Keys && wsId in Elems(order);
        var oldest := FindOldest(next, order);
        next := next - {oldest};
      }
      byWorkspace := next;
    }

    method ForgetContext(wsId: string, kind: Kind, id: string)
      modifies this
      ensures byWorkspace == Step(old(byWorkspace), Forget(wsId, kind, id))
    {
      if wsId !in byWorkspace {
        return;
      }
      var bucket := byWorkspace[wsId];
      var next := Without(bucket, EntryKey, ContextKey(kind, id));
      if |next| == |bucket| {
        return;
      }
      if |next| == 0 {
        byWorkspace := byWorkspace - {wsId};
      } else {
        byWorkspace := byWorkspace[wsId := next];
      }
    }

    method PruneWorkspaces(active: seq<string>, order: seq<string>)
      requires Enumerates(order, byWorkspace)
      modifies this
      ensures byWorkspace == Step(old(byWorkspace), Prune(active))
    {
      var changed, next := CopyAllowed(byWorkspace, active, order);
      if changed {
        byWorkspace := next;
      }
    }
  }

  function Run(events: seq<Event>): Buckets {
    if events == [] then map[] else Step(Run(events[..|events| - 1]), events[|events| - 1])
  }

  /** Pruning keeps exactly the allowed workspaces, and their buckets as they are. */
  lemma PruneExactly(store: Buckets, active: seq<string>, wsId: string)
    ensures wsId in Step(store, Prune(active)) <==> wsId in store && wsId in active
    ensures wsId in Step(store, Prune(active)) ==> Step(store, Prune(active))[wsId] == store[wsId]
  {
  }

  /** Forgetting takes out exactly the one context, and a workspace whose last context it was. */
  lemma ForgetExactly(store: Buckets, wsId: string, kind: Kind, id: string, x: Entry)
    ensures x in Bucket(Step(store, Forget(wsId, kind, id)), wsId) <==>
            x in Bucket(store, wsId) && !(x.kind == kind && x.id == id)
    ensures forall w :: w != wsId ==>
              (w in Step(store, Forget(wsId, kind, id)) <==> w in store)
              && Bucket(Step(store, Forget(wsId, kind, id)), w) == Bucket(store, w)
  {
    ContextKeyInjective(x.kind, x.id, kind, id);
    if wsId in store {
      var k := ContextKey(kind, id);
      WithoutHas(store[wsId], EntryKey, k);
      if |Without(store[wsId], EntryKey, k)| == |store[wsId]| {
        WithoutKeepsLength(store[wsId], k);
      }
    }
  }

  // ---- Each bucket is a prefix of its workspace's history

  /** The operations that the events perform on the list of one workspace. */
  function OpsOf(events: seq<Event>, wsId: string): seq<Op<Entry>> {
    if events == [] then []
    else
      var before := OpsOf(events[..|events| - 1], wsId);
      match events[|events| - 1]
      case Visit(w, entry, _) => if w == wsId then before + [Push(entry)] else before
      case Forget(w, kind, id) => if w == wsId then before + [Drop(ContextKey(kind, id))] else before
      case Prune(_) => before
  }

  lemma RunUnboundedPush(ops: seq<Op<Entry>>, op: Op<Entry>)
    ensures RunUnbounded(ops + [op], EntryKey) == Unbounded(RunUnbounded(ops, EntryKey), EntryKey, op)
  {
    assert (ops + [op])[..|ops|] == ops;
  }

  lemma WithoutKeepsLength(s: seq<Entry>, k: string)
    requires |Without(s, EntryKey, k)| == |s|
    ensures Without(s, EntryKey, k) == s
  {
    if s != [] {
      WithoutHas(s[1..], EntryKey, k);
      if EntryKey(s[0]) != k {
        WithoutKeepsLength(s[1..], k);
      }
    }
  }

  lemma BucketStep(store: Buckets, e: Event, wsId: string, u: seq<Entry>)
    requires Bucket(store, wsId) <= u && |Bucket(store, wsId)| <= MAX_RECENT_CONTEXTS
    ensures |Bucket(Step(store, e), wsId)| <= MAX_RECENT_CONTEXTS
    ensures e.Visit? && e.wsId == wsId ==> Bucket(Step(store, e), wsId) <= Unbounded(u, EntryKey, Push(e.entry))
    ensures e.Forget? && e.wsId == wsId ==>
              Bucket(Step(store, e), wsId) <= Unbounded(u, EntryKey, Drop(ContextKey(e.kind, e.id)))
    ensures e.Prune? || e.wsId != wsId ==> Bucket(Step(store, e), wsId) <= u
  {
    var s := Bucket(store, wsId);
    match e
    case Visit(w, entry, order) =>
      if w == wsId {
        PrefixStep(s, u, EntryKey, MAX_RECENT_CONTEXTS, Push(entry));
      }
    case Forget(w, kind, id) =>
      if w == wsId {
        var k := ContextKey(kind, id);
        WithoutHas(s, EntryKey, k);
        PrefixStep(s, u, EntryKey, MAX_RECENT_CONTEXTS, Drop(k));
        if |Without(s, EntryKey, k)| == |s| {
          WithoutKeepsLength(s, k);
        }
      }
    case Prune(_) =>
  }

  lemma {:induction false} BucketIsPrefix(events: seq<Event>, wsId: string)
    ensures Bucket(Run(events), wsId) <= RunUnbounded(OpsOf(events, wsId), EntryKey)
    ensures |Bucket(Run(events), wsId)| <= MAX_RECENT_CONTEXTS
  {
    if events != [] {
      var init, e := events[..|events| - 1], events[|events| - 1];
      BucketIsPrefix(init, wsId);
      var ops := OpsOf(init, wsId);
      BucketStep(Run(init), e, wsId, RunUnbounded(ops, EntryKey));
      if e.Visit? && e.wsId == wsId {
        RunUnboundedPush(ops, Push(e.entry));
      } else if e.Forget? && e.wsId == wsId {
        RunUnboundedPush(ops, Drop(ContextKey(e.kind, e.id)));
      }
    }
  }

  /**
   * After any run of visits, removals, prunings and evictions, the bucket of a workspace is a prefix
   * of its history read backwards without repetition: it never shows an older context in place of a
   * newer one, and never one that was forgotten.
   */
  lemma BucketIsRecentHistory(events: seq<Event>, wsId: string)
    ensures var bucket := Bucket(Run(events), wsId);
            && bucket <= Standing(OpsOf(events, wsId), EntryKey)
            && |bucket| <= 20 && Recency.UniqueKeys(bucket, EntryKey)
  {
    var ops := OpsOf(events, wsId);
    BucketIsPrefix(events, wsId);
    UnboundedIsStanding(ops, EntryKey);
    BoundedIsPrefix(ops, EntryKey, MAX_RECENT_CONTEXTS);
  }

  lemma ExactStep(store: Buckets, e: Event, wsId: string)
    requires !e.Prune?
    requires e.Visit? ==> |Opened(store, e.wsId, e.entry)| <= MAX_WORKSPACES
    ensures Bucket(Step(store, e), wsId) ==
            if e.wsId != wsId then Bucket(store, wsId)
            else Bounded(Bucket(store, wsId), EntryKey, MAX_RECENT_CONTEXTS,
                         if e.Visit? then Push(e.entry) else Drop(ContextKey(e.kind, e.id)))
  {
    if e.Forget? && e.wsId == wsId {
      var k, s := ContextKey(e.kind, e.id), Bucket(store, wsId);
      if |Without(s, EntryKey, k)| == |s| {
        WithoutKeepsLength(s, k);
      }
    }
  }

  lemma OpenedFits(store: Buckets, wsId: string, entry: Entry, pool: set<string>)
    requires store.Keys <= pool && wsId in pool && |pool| <= MAX_WORKSPACES
    ensures |Opened(store, wsId, entry)| <= MAX_WORKSPACES
  {
    var grown := Opened(store, wsId, entry);
    assert grown.Keys == store.Keys + {wsId};
    assert pool == grown.Keys + (pool - grown.Keys);
    assert |grown| == |grown.Keys|;
  }

  /**
   * As long as only fifty workspaces are ever visited and nothing is pruned, workspaces do not affect
   * each other, and with visits alone a bucket is the first twenty of its history.
   */
  lemma {:induction false} BucketsAreIndependent(events: seq<Event>, wsId: string, pool: set<string>)
    requires |pool| <= MAX_WORKSPACES
    requires forall e :: e in events ==> !e.Prune? && (e.Visit? ==> e.wsId in pool)
    ensures Bucket(Run(events), wsId) == RunBounded(OpsOf(events, wsId), EntryKey, MAX_RECENT_CONTEXTS)
    ensures Run(events).Keys <= pool
    ensures (forall op :: op in OpsOf(events, wsId) ==> op.Push?) ==>
              Bucket(Run(events), wsId) == Take(Standing(OpsOf(events, wsId), EntryKey), MAX_RECENT_CONTEXTS)
  {
    var ops := OpsOf(events, wsId);
    if events != [] {
      var init, e := events[..|events| - 1], events[|events| - 1];
      BucketsAreIndependent(init, wsId, pool);
      assert e in events;
      if e.Visit? {
        OpenedFits(Run(init), e.wsId, e.entry, pool);
      }
      ExactStep(Run(init), e, wsId);
      if e.wsId == wsId {
        RunPush(OpsOf(init, wsId), if e.Visit? then Push(e.entry) else Drop(ContextKey(e.kind, e.id)),
                EntryKey, MAX_RECENT_CONTEXTS);
      }
    }
    if forall op :: op in ops ==> op.Push? {
      PushesFillTheBound(ops, EntryKey, MAX_RECENT_CONTEXTS);
      UnboundedIsStanding(ops, EntryKey);
    }
  }

  // ---- What a bucket holds, whatever was evicted

  /** The operations on a workspace since it last entered the store; none while it is not in it. */
  function SinceEntry(events: seq<Event>, wsId: string): seq<Op<Entry>> {
    if events == [] || wsId !in Run(events) then []
    else
      var before := SinceEntry(events[..|events| - 1], wsId);
      match events[|events| - 1]
      case Visit(w, entry, _) => if w == wsId then before + [Push(entry)] else before
      case Forget(w, kind, id) => if w == wsId then before + [Drop(ContextKey(kind, id))] else before
      case Prune(_) => before
  }

  /** An event that leaves a workspace in the store does to its bucket what it does to a bounded list. */
  lemma PresentStep(store: Buckets, e: Event, wsId: string)
    requires wsId in Step(store, e)
    ensures Bucket(Step(store, e), wsId) ==
            if e.Visit? && e.wsId == wsId
            then Bounded(Bucket(store, wsId), EntryKey, MAX_RECENT_CONTEXTS, Push(e.entry))
            else if e.Forget? && e.wsId == wsId
            then Bounded(Bucket(store, wsId), EntryKey, MAX_RECENT_CONTEXTS, Drop(ContextKey(e.kind, e.id)))
            else Bucket(store, wsId)
  {
    if e.Forget? && e.wsId == wsId {
      var k, s := ContextKey(e.kind, e.id), Bucket(store, wsId);
      if |Without(s, EntryKey, k)| == |s| {
        WithoutKeepsLength(s, k);
      }
    }
  }

  /** A bucket is always what the operations since its workspace entered the store make of an empty list. */
  lemma {:induction false} BucketIsRunSinceEntry(events: seq<Event>, wsId: string)
    ensures Bucket(Run(events), wsId) == RunBounded(SinceEntry(events, wsId), EntryKey, MAX_RECENT_CONTEXTS)
  {
    if events != [] && wsId in Run(events) {
      var init, e := events[..|events| - 1], events[|events| - 1];
      BucketIsRunSinceEntry(init, wsId);
      PresentStep(Run(init), e, wsId);
      if e.Visit? && e.wsId == wsId {
        RunPush(SinceEntry(init, wsId), Push(e.entry), EntryKey, MAX_RECENT_CONTEXTS);
      } else if e.Forget? && e.wsId == wsId {
        RunPush(SinceEntry(init, wsId), Drop(ContextKey(e.kind, e.id)), EntryKey, MAX_RECENT_CONTEXTS);
      }
    }
  }

  /** These operations are the last ones of the workspace's whole history. */
  lemma {:induction false} SinceEntryIsLatest(events: seq<Event>, wsId: string) returns (earlier: seq<Op<Entry>>)
    ensures OpsOf(events, wsId) == earlier + SinceEntry(events, wsId)
  {
    earlier := OpsOf(events, wsId);
    if events != [] && wsId in Run(events) {
      var init, e := events[..|events| - 1], events[|events| - 1];
      earlier := SinceEntryIsLatest(init, wsId);
      if e.Visit? && e.wsId == wsId {
        Associative(earlier, SinceEntry(init, wsId), [Push(e.entry)]);
      } else if e.Forget? && e.wsId == wsId {
        Associative(earlier, SinceEntry(init, wsId), [Drop(ContextKey(e.kind, e.id))]);
      }
    } else {
      assert earlier + [] == earlier;
    }
  }

  /**
   * After any run, evictions and prunings included, the bucket of a workspace is determined by what happened
   * to it since it last entered the store: when those were visits alone, it is the first twenty of them
   * read backwards without repetition. Those operations are the last ones of its whole history.
   */
  lemma BucketExactly(events: seq<Event>, wsId: string)
    requires forall op :: op in SinceEntry(events, wsId) ==> op.Push?
    ensures Bucket(Run(events), wsId) == Take(Standing(SinceEntry(events, wsId), EntryKey), 20)
    ensures exists earlier :: OpsOf(events, wsId) == earlier + SinceEntry(events, wsId)
  {
    var earlier := SinceEntryIsLatest(events, wsId);
    BucketIsRunSinceEntry(events, wsId);
    PushesFillTheBound(SinceEntry(events, wsId), EntryKey, MAX_RECENT_CONTEXTS);
    UnboundedIsStanding(SinceEntry(events, wsId), EntryKey);
  }
}
