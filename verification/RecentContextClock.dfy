/**
 * What the recent-context store keeps and evicts when the clock moves on with every visit
 * (packages/core/chat/recent-context-store.ts).
 */
module RecentContextClock {

  import opened Common
  import opened Recency
  import opened RecentContext

  ghost predicate NewestFirst(s: seq<Entry>) {
    forall i, j :: 0 <= i < j < |s| ==> s[i].visitedAt > s[j].visitedAt
  }

  ghost predicate GoodBucket(s: seq<Entry>, clock: int) {
    && 0 < |s| <= MAX_RECENT_CONTEXTS && NewestFirst(s) && Recency.UniqueKeys(s, EntryKey)
    && forall x :: x in s ==> 0 < x.visitedAt <= clock
  }

  ghost predicate DisjointTimes(s: seq<Entry>, t: seq<Entry>) {
    forall x, y :: x in s && y in t ==> x.visitedAt != y.visitedAt
  }

  /** Every bucket is good, and no two buckets hold entries of the same time. */
  ghost predicate GoodBuckets(store: Buckets, clock: int) {
    && (forall w :: w in store ==> GoodBucket(store[w], clock))
    && forall v, w :: v in store && w in store && v != w ==> DisjointTimes(store[v], store[w])
  }

  ghost predicate Inv(store: Buckets, clock: int) {
    GoodBuckets(store, clock) && |store| <= MAX_WORKSPACES
  }

  // ---- One bucket

  lemma {:induction false} WithoutNewestFirst(s: seq<Entry>, k: string)
    requires NewestFirst(s)
    ensures NewestFirst(Without(s, EntryKey, k))
  {
    if s != [] {
      WithoutNewestFirst(s[1..], k);
      WithoutHas(s[1..], EntryKey, k);
      forall x | x in Without(s[1..], EntryKey, k) ensures s[0].visitedAt > x.visitedAt {
        var i :| 0 <= i < |s[1..]| && s[1..][i] == x;
        assert s[i + 1] == x;
      }
      ConsNewestFirst(s[0], Without(s[1..], EntryKey, k));
    }
  }

  lemma ConsNewestFirst(x: Entry, s: seq<Entry>)
    requires NewestFirst(s) && forall y :: y in s ==> x.visitedAt > y.visitedAt
    ensures NewestFirst([x] + s)
  {
    forall i | 0 <= i < |s| ensures x.visitedAt > s[i].visitedAt {
      assert s[i] in s;
    }
  }

  lemma ForgottenGood(s: seq<Entry>, clock: int, k: string)
    requires GoodBucket(s, clock) && Without(s, EntryKey, k) != []
    ensures GoodBucket(Without(s, EntryKey, k), clock)
  {
    WithoutNewestFirst(s, k);
    WithoutHas(s, EntryKey, k);
    WithoutOne(s, EntryKey, k);
  }

  /** What a visit makes of the bucket, which may be new. */
  lemma VisitedGood(s: seq<Entry>, clock: int, entry: Entry)
    requires s == [] || GoodBucket(s, clock)
    requires entry.visitedAt > clock >= 0
    ensures var t := Take(ToFront(s, EntryKey, entry), MAX_RECENT_CONTEXTS);
            && GoodBucket(t, entry.visitedAt) && t[0] == entry
            && forall x :: x in t ==> x == entry || x in s
  {
    var k := EntryKey(entry);
    var rest := Without(s, EntryKey, k);
    WithoutNewestFirst(s, k);
    WithoutHas(s, EntryKey, k);
    ConsNewestFirst(entry, rest);
    ToFrontUnique(s, EntryKey, entry);
    var t := Take([entry] + rest, MAX_RECENT_CONTEXTS);
    forall x | x in t ensures x == entry || x in s {
      assert x in [entry] + rest;
    }
  }

  // ---- One event

  lemma OpenedGood(store: Buckets, clock: int, wsId: string, entry: Entry)
    requires GoodBuckets(store, clock) && entry.visitedAt > clock >= 0
    ensures GoodBuckets(Opened(store, wsId, entry), entry.visitedAt)
    ensures Opened(store, wsId, entry).Keys == store.Keys + {wsId}
    ensures HeadTime(Opened(store, wsId, entry), wsId) == entry.visitedAt
  {
    VisitedGood(Bucket(store, wsId), clock, entry);
    var grown := Opened(store, wsId, entry);
    forall v, w | v in grown && w in grown && v != w ensures DisjointTimes(grown[v], grown[w]) {
      assert v in store ==> GoodBucket(store[v], clock);
      assert w in store ==> GoodBucket(store[w], clock);
    }
  }

  lemma SubsetGood(store: Buckets, sub: Buckets, clock: int)
    requires GoodBuckets(store, clock)
    requires forall w :: w in sub ==> w in store && sub[w] == store[w]
    ensures GoodBuckets(sub, clock) && |sub| <= |store|
  {
    assert sub.Keys <= store.Keys;
    SubsetSize(sub.Keys, store.Keys);
    assert |sub| == |sub.Keys| && |store| == |store.Keys|;
  }

  lemma SubsetSize<T>(a: set<T>, b: set<T>)
    requires a <= b
    ensures |a| <= |b|
  {
    assert b == a + (b - a);
  }

  lemma {:induction false} OldestHasSmallestTime(store: Buckets, order: seq<string>, n: nat)
    requires 1 <= n <= |order|
    ensures OldestUpto(store, order, n) in order[..n]
    ensures forall w :: w in order[..n] ==> HeadTime(store, OldestUpto(store, order, n)) <= HeadTime(store, w)
  {
    if n == 1 {
    } else {
      OldestHasSmallestTime(store, order, n - 1);
      assert order[..n] == order[..n - 1] + [order[n - 1]];
    }
  }

  /** Different workspaces have different head times. */
  lemma HeadsDiffer(store: Buckets, clock: int, v: string, w: string)
    requires GoodBuckets(store, clock) && v in store && w in store && v != w
    ensures HeadTime(store, v) != HeadTime(store, w)
  {
    assert store[v][0] in store[v] && store[w][0] in store[w];
    assert DisjointTimes(store[v], store[w]);
  }

  /** `o` was visited before every other workspace. */
  ghost predicate IsOldest(store: Buckets, o: string) {
    o in store && forall w :: w in store && w != o ==> HeadTime(store, o) < HeadTime(store, w)
  }

  lemma OldestIsOldest(store: Buckets, clock: int, order: seq<string>)
    requires GoodBuckets(store, clock) && store != map[] && Enumerates(order, store)
    ensures order != [] && IsOldest(store, OldestUpto(store, order, |order|))
  {
    var k :| k in store;
    assert k in Elems(order);
    var o := OldestUpto(store, order, |order|);
    OldestHasSmallestTime(store, order, |order|);
    assert order[..|order|] == order;
    assert o in Elems(order);
    forall w | w in store && w != o ensures HeadTime(store, o) < HeadTime(store, w) {
      assert w in Elems(order);
      HeadsDiffer(store, clock, o, w);
    }
  }

  /** Evicting keeps the invariant when there is one workspace too many. */
  lemma EvictedGood(store: Buckets, clock: int, order: seq<string>)
    requires GoodBuckets(store, clock) && Enumerates(order, store)
    requires MAX_WORKSPACES < |store| <= MAX_WORKSPACES + 1
    ensures Inv(Evicted(store, order), clock)
    ensures order != [] && IsOldest(store, OldestUpto(store, order, |order|))
    ensures Evicted(store, order) == store - {OldestUpto(store, order, |order|)}
  {
    OldestIsOldest(store, clock, order);
    var o := OldestUpto(store, order, |order|);
    SubsetGood(store, store - {o}, clock);
  }

  lemma PlusOne(store: Buckets, wsId: string, entry: Entry)
    ensures |Opened(store, wsId, entry)| == |store.Keys + {wsId}|
    ensures |store| <= |Opened(store, wsId, entry)| <= |store| + 1
  {
    var grown := Opened(store, wsId, entry);
    assert grown.Keys == store.Keys + {wsId};
    assert |grown| == |grown.Keys| && |store| == |store.Keys|;
  }

  // ---- Eviction, whatever the clock does

  /** Place k holds the first of the first n workspaces with the smallest time. */
  ghost predicate FirstOldest(store: Buckets, order: seq<string>, n: nat, k: nat)
    requires k < n <= |order|
  {
    && (forall j :: 0 <= j < k ==> HeadTime(store, order[j]) > HeadTime(store, order[k]))
    && (forall j :: k < j < n ==> HeadTime(store, order[j]) >= HeadTime(store, order[k]))
  }

  lemma FirstOldestStep(store: Buckets, order: seq<string>, n: nat, k: nat)
    requires k < n < |order| && FirstOldest(store, order, n, k)
    ensures FirstOldest(store, order, n + 1, if HeadTime(store, order[n]) < HeadTime(store, order[k]) then n else k)
  {
  }

  lemma {:induction false} OldestIsFirst(store: Buckets, order: seq<string>, n: nat) returns (k: nat)
    requires 1 <= n <= |order|
    ensures k < n && FirstOldest(store, order, n, k) && order[k] == OldestUpto(store, order, n)
  {
    if n == 1 {
      k := 0;
    } else {
      k := OldestIsFirst(store, order, n - 1);
      FirstOldestStep(store, order, n - 1, k);
      if HeadTime(store, order[n - 1]) < HeadTime(store, order[k]) {
        k := n - 1;
      }
    }
  }

  /** Only one place in an order is the first oldest. */
  lemma FirstOldestUnique(store: Buckets, order: seq<string>, k: nat, m: nat)
    requires k < |order| && m < |order|
    requires FirstOldest(store, order, |order|, k) && FirstOldest(store, order, |order|, m)
    ensures k == m
  {
    var x, y := HeadTime(store, order[k]), HeadTime(store, order[m]);
    assert k < m ==> x > y;
    assert k > m ==> x >= y;
  }

  /**
   * Whatever the clock says, a visit evicts nothing while there is room, and otherwise exactly the first
   * workspace, in the order the keys are enumerated, whose latest visit has the smallest time.
   */
  lemma EvictionExactly(store: Buckets, e: Event)
    requires |store| <= MAX_WORKSPACES && e.Visit? && Enumerates(e.order, Opened(store, e.wsId, e.entry))
    ensures var grown := Opened(store, e.wsId, e.entry);
            if |store.Keys + {e.wsId}| <= MAX_WORKSPACES then Step(store, e) == grown
            else exists k :: && 0 <= k < |e.order| && FirstOldest(grown, e.order, |e.order|, k)
                             && Step(store, e) == grown - {e.order[k]}
    ensures |Step(store, e)| <= MAX_WORKSPACES
  {
    var grown := Opened(store, e.wsId, e.entry);
    PlusOne(store, e.wsId, e.entry);
    if |grown| > MAX_WORKSPACES {
      assert e.wsId in Elems(e.order);
      var k := OldestIsFirst(grown, e.order, |e.order|);
      OneLess(grown, e.order, OldestUpto(grown, e.order, |e.order|));
    }
  }

  lemma OneLess(store: Buckets, order: seq<string>, o: string)
    requires Enumerates(order, store) && o in order
    ensures |store - {o}| == |store| - 1
  {
    assert o in Elems(order);
    assert (store - {o}).Keys == store.Keys - {o};
    assert |store| == |store.Keys| && |store - {o}| == |(store - {o}).Keys|;
  }

  /** What the clock has to say for the workspace at place k of the order to be the one evicted. */
  ghost predicate NotLater(store: Buckets, order: seq<string>, k: nat, now: int)
    requires k < |order|
  {
    && (forall j :: 0 <= j < k ==> HeadTime(store, order[j]) > now)
    && (forall j :: k < j < |order| ==> HeadTime(store, order[j]) >= now)
  }

  /**
   * A new workspace that finds the store full is itself evicted exactly when the clock has gone back, or
   * stands still: its visit is earlier than the latest visit of every workspace enumerated before it, and
   * no later than that of every one after it.
   */
  lemma VisitedEvictedExactly(store: Buckets, e: Event, k: nat)
    requires |store| <= MAX_WORKSPACES && e.Visit? && Enumerates(e.order, Opened(store, e.wsId, e.entry))
    requires k < |e.order| && e.order[k] == e.wsId && |store.Keys + {e.wsId}| > MAX_WORKSPACES
    ensures e.wsId !in Step(store, e) <==> NotLater(store, e.order, k, e.entry.visitedAt)
  {
    var grown := Opened(store, e.wsId, e.entry);
    EvictionExactly(store, e);
    var m :| 0 <= m < |e.order| && FirstOldest(grown, e.order, |e.order|, m) && Step(store, e) == grown - {e.order[m]};
    VisitedAtHead(store, e, k);
    if NotLater(store, e.order, k, e.entry.visitedAt) {
      FirstOldestUnique(grown, e.order, k, m);
    }
  }

  lemma VisitedAtHead(store: Buckets, e: Event, k: nat)
    requires e.Visit? && k < |e.order| && e.order[k] == e.wsId && Distinct(e.order)
    ensures var grown := Opened(store, e.wsId, e.entry);
            FirstOldest(grown, e.order, |e.order|, k) <==> NotLater(store, e.order, k, e.entry.visitedAt)
  {
    var grown := Opened(store, e.wsId, e.entry);
    assert HeadTime(grown, e.wsId) == e.entry.visitedAt;
    forall j | 0 <= j < |e.order| && j != k ensures HeadTime(grown, e.order[j]) == HeadTime(store, e.order[j]) {
    }
  }

  /** The number of workspaces is bounded after every run, whatever the clock does. */
  lemma {:induction false} WorkspacesBounded(events: seq<Event>)
    requires Enumerated(events)
    ensures |Run(events)| <= 50
  {
    if events != [] {
      var init, e := events[..|events| - 1], events[|events| - 1];
      WorkspacesBounded(init);
      if e.Visit? {
        EvictionExactly(Run(init), e);
      } else {
        FewerKeys(Run(init), e);
      }
    }
  }

  lemma FewerKeys(store: Buckets, e: Event)
    requires !e.Visit?
    ensures |Step(store, e)| <= |store|
  {
    assert Step(store, e).Keys <= store.Keys;
    SubsetSize(Step(store, e).Keys, store.Keys);
    assert |Step(store, e)| == |Step(store, e).Keys| && |store| == |store.Keys|;
  }

  /** Every visit sees the keys of its own store in some order. */
  ghost predicate Enumerated(events: seq<Event>) {
    events != [] ==>
      var init, e := events[..|events| - 1], events[|events| - 1];
      Enumerated(init) && (e.Visit? ==> Enumerates(e.order, Opened(Run(init), e.wsId, e.entry)))
  }

  // ---- Eviction with an advancing clock

  /**
   * A visit evicts nothing while there is room. Otherwise it evicts exactly one workspace, the one
   * whose latest visit is the oldest, and never the one just visited.
   */
  lemma OldestVisitEvicted(store: Buckets, clock: int, e: Event)
    requires Inv(store, clock) && e.Visit? && e.entry.visitedAt > clock >= 0
    requires Enumerates(e.order, Opened(store, e.wsId, e.entry))
    ensures var grown := Opened(store, e.wsId, e.entry);
            if |store.Keys + {e.wsId}| <= MAX_WORKSPACES then Step(store, e) == grown
            else exists o :: IsOldest(grown, o) && o != e.wsId && Step(store, e) == grown - {o}
    ensures Inv(Step(store, e), e.entry.visitedAt)
  {
    var grown := Opened(store, e.wsId, e.entry);
    OpenedGood(store, clock, e.wsId, e.entry);
    PlusOne(store, e.wsId, e.entry);
    if |grown| > MAX_WORKSPACES {
      EvictedGood(grown, e.entry.visitedAt, e.order);
      VisitedIsNotOldest(store, clock, e, OldestUpto(grown, e.order, |e.order|));
    }
  }

  lemma VisitedIsNotOldest(store: Buckets, clock: int, e: Event, o: string)
    requires Inv(store, clock) && e.Visit? && e.entry.visitedAt > clock >= 0
    requires IsOldest(Opened(store, e.wsId, e.entry), o) && |Opened(store, e.wsId, e.entry)| > MAX_WORKSPACES
    ensures o != e.wsId
  {
    var grown := Opened(store, e.wsId, e.entry);
    OpenedGood(store, clock, e.wsId, e.entry);
    var other := OtherKey(grown, e.wsId);
    assert GoodBucket(store[other], clock);
    assert store[other][0] in store[other];
    assert HeadTime(grown, other) <= clock < HeadTime(grown, e.wsId);
  }

  lemma OtherKey(store: Buckets, w: string) returns (other: string)
    requires |store| > 1
    ensures other in store && other != w
  {
    assert |store.Keys| == |store|;
    assert |{w}| == 1;
    if store.Keys - {w} == {} {
      SubsetSize(store.Keys, {w});
      assert false;
    }
    other :| other in store.Keys - {w};
  }

  lemma OldestUnique(store: Buckets, o: string, o': string)
    requires IsOldest(store, o) && IsOldest(store, o')
    ensures o == o'
  {
    assert o != o' ==> HeadTime(store, o) < HeadTime(store, o') && HeadTime(store, o') < HeadTime(store, o);
  }

  lemma EvictedSame(store: Buckets, clock: int, order: seq<string>, order': seq<string>)
    requires GoodBuckets(store, clock) && |store| <= MAX_WORKSPACES + 1
    requires Enumerates(order, store) && Enumerates(order', store)
    ensures Evicted(store, order) == Evicted(store, order')
  {
    if |store| > MAX_WORKSPACES {
      EvictedGood(store, clock, order);
      EvictedGood(store, clock, order');
      OldestUnique(store, OldestUpto(store, order, |order|), OldestUpto(store, order', |order'|));
    }
  }

  /** The order in which the keys are enumerated makes no difference. */
  lemma KeyOrderDoesNotMatter(store: Buckets, clock: int, wsId: string, entry: Entry,
                              order: seq<string>, order': seq<string>)
    requires Inv(store, clock) && entry.visitedAt > clock >= 0
    requires Enumerates(order, Opened(store, wsId, entry)) && Enumerates(order', Opened(store, wsId, entry))
    ensures Step(store, Visit(wsId, entry, order)) == Step(store, Visit(wsId, entry, order'))
  {
    OpenedGood(store, clock, wsId, entry);
    PlusOne(store, wsId, entry);
    EvictedSame(Opened(store, wsId, entry), entry.visitedAt, order, order');
  }

  lemma ReplacedGood(store: Buckets, clock: int, w: string, s: seq<Entry>)
    requires GoodBuckets(store, clock) && w in store && GoodBucket(s, clock)
    requires forall x :: x in s ==> x in store[w]
    ensures GoodBuckets(store[w := s], clock)
  {
    var after := store[w := s];
    forall u, v | u in after && v in after && u != v ensures DisjointTimes(after[u], after[v]) {
      assert DisjointTimes(store[u], store[v]);
      if u == w {
      } else if v == w {
        assert DisjointTimes(store[w], store[u]);
      }
    }
  }

  lemma ForgetKeepsInv(store: Buckets, clock: int, e: Event)
    requires Inv(store, clock) && e.Forget?
    ensures Inv(Step(store, e), clock)
  {
    if e.wsId in store {
      var k := ContextKey(e.kind, e.id);
      var next := Without(store[e.wsId], EntryKey, k);
      WithoutHas(store[e.wsId], EntryKey, k);
      if next == [] {
        SubsetGood(store, store - {e.wsId}, clock);
      } else {
        ForgottenGood(store[e.wsId], clock, k);
        ReplacedGood(store, clock, e.wsId, next);
      }
    }
  }

  lemma PruneKeepsInv(store: Buckets, clock: int, e: Event)
    requires Inv(store, clock) && e.Prune?
    ensures Inv(Step(store, e), clock)
  {
    SubsetGood(store, Step(store, e), clock);
  }

  // ---- Runs

  function Clock(events: seq<Event>): int {
    if events == [] then 0
    else if events[|events| - 1].Visit? then events[|events| - 1].entry.visitedAt
    else Clock(events[..|events| - 1])
  }

  /** Every visit is later than the one before, and sees the keys of its own store in some order. */
  ghost predicate Ticking(events: seq<Event>) {
    events != [] ==>
      var init, e := events[..|events| - 1], events[|events| - 1];
      && Ticking(init)
      && (e.Visit? ==> e.entry.visitedAt > Clock(init) && Enumerates(e.order, Opened(Run(init), e.wsId, e.entry)))
  }

  /** The invariant holds after every run with an advancing clock. */
  lemma {:induction false} RunKeepsInv(events: seq<Event>)
    requires Ticking(events)
    ensures Inv(Run(events), Clock(events)) && Clock(events) >= 0
  {
    if events != [] {
      var init, e := events[..|events| - 1], events[|events| - 1];
      RunKeepsInv(init);
      match e
      case Visit(_, _, _) => OldestVisitEvicted(Run(init), Clock(init), e);
      case Forget(_, _, _) => ForgetKeepsInv(Run(init), Clock(init), e);
      case Prune(_) => PruneKeepsInv(Run(init), Clock(init), e);
    }
  }

  // ---- With visits alone, the workspaces kept are the latest ones

  function Visited(events: seq<Event>): seq<Op<string>> {
    if events == [] then []
    else
      var before := Visited(events[..|events| - 1]);
      match events[|events| - 1]
      case Visit(w, _, _) => before + [Push(w)]
      case Forget(_, _, _) => before
      case Prune(_) => before
  }

  function Name(w: string): string {
    w
  }

  ghost predicate FallingTimes(store: Buckets, list: seq<string>) {
    forall i, j :: 0 <= i < j < |list| ==> HeadTime(store, list[i]) > HeadTime(store, list[j])
  }

  lemma FallingElsewhere(store: Buckets, other: Buckets, list: seq<string>)
    requires FallingTimes(store, list)
    requires forall w :: w in list ==> HeadTime(other, w) == HeadTime(store, w)
    ensures FallingTimes(other, list)
  {
  }

  lemma FallingCons(store: Buckets, w: string, list: seq<string>)
    requires FallingTimes(store, list) && forall v :: v in list ==> HeadTime(store, w) > HeadTime(store, v)
    ensures FallingTimes(store, [w] + list)
  {
    forall i | 0 <= i < |list| ensures HeadTime(store, w) > HeadTime(store, list[i]) {
      assert list[i] in list;
    }
  }

  /** The stored workspaces are exactly those listed, latest visit first. */
  ghost predicate Listed(store: Buckets, list: seq<string>) {
    Distinct(list) && Elems(list) == store.Keys && FallingTimes(store, list)
  }

  lemma {:induction false} WithoutKeepsTimes(store: Buckets, list: seq<string>, w: string)
    requires FallingTimes(store, list)
    ensures FallingTimes(store, Without(list, Name, w))
  {
    if list != [] {
      var tail := list[1..];
      WithoutKeepsTimes(store, tail, w);
      WithoutHas(tail, Name, w);
      forall v | v in Without(tail, Name, w) ensures HeadTime(store, list[0]) > HeadTime(store, v) {
        var k :| 0 <= k < |tail| && tail[k] == v;
        assert list[k + 1] == v;
      }
      FallingCons(store, list[0], Without(tail, Name, w));
    }
  }

  lemma OpenedFalling(store: Buckets, clock: int, list: seq<string>, wsId: string, entry: Entry)
    requires GoodBuckets(store, clock) && entry.visitedAt > clock >= 0 && Listed(store, list)
    ensures FallingTimes(Opened(store, wsId, entry), ToFront(list, Name, wsId))
  {
    var grown, rest := Opened(store, wsId, entry), Without(list, Name, wsId);
    OpenedGood(store, clock, wsId, entry);
    WithoutHas(list, Name, wsId);
    WithoutKeepsTimes(store, list, wsId);
    forall w | w in rest ensures HeadTime(grown, w) == HeadTime(store, w) <= clock {
      assert w in Elems(list);
      assert GoodBucket(store[w], clock);
      assert store[w][0] in store[w];
    }
    FallingElsewhere(store, grown, rest);
    FallingCons(grown, wsId, rest);
  }

  lemma ToFrontElems(list: seq<string>, w: string)
    ensures Elems(ToFront(list, Name, w)) == Elems(list) + {w}
  {
    WithoutHas(list, Name, w);
    forall v ensures v in Elems(ToFront(list, Name, w)) <==> v in Elems(list) + {w} {
      assert v in ToFront(list, Name, w) <==> v == w || v in Without(list, Name, w);
    }
  }

  /** A visit moves its workspace to the front of the list. */
  lemma OpenedListed(store: Buckets, clock: int, list: seq<string>, wsId: string, entry: Entry)
    requires GoodBuckets(store, clock) && entry.visitedAt > clock >= 0 && Listed(store, list)
    ensures Listed(Opened(store, wsId, entry), ToFront(list, Name, wsId))
  {
    OpenedFalling(store, clock, list, wsId, entry);
    ToFrontUnique(list, Name, wsId);
    ToFrontElems(list, wsId);
  }

  /** The workspace that is evicted is the last of the list. */
  lemma OldestIsLast(store: Buckets, list: seq<string>, o: string)
    requires Listed(store, list) && IsOldest(store, o)
    ensures list != [] && list[|list| - 1] == o
  {
    assert o in Elems(list);
    var k :| 0 <= k < |list| && list[k] == o;
    var last := |list| - 1;
    assert list[last] in Elems(list);
    assert HeadTime(store, list[k]) >= HeadTime(store, list[last]);
  }

  lemma EvictedListed(store: Buckets, list: seq<string>, o: string)
    requires Listed(store, list) && IsOldest(store, o)
    ensures list != [] && Listed(store - {o}, list[..|list| - 1])
  {
    OldestIsLast(store, list, o);
    var init := list[..|list| - 1];
    assert list == init + [o];
    forall w ensures w in Elems(init) <==> w in (store - {o}).Keys {
      assert w in Elems(list) <==> w in list;
    }
    FallingElsewhere(store, store - {o}, init);
  }

  lemma ListedSize(store: Buckets, list: seq<string>)
    requires Listed(store, list)
    ensures |store| == |list|
  {
    DistinctSize(list);
    assert |store| == |store.Keys|;
  }

  /** The eviction, if there is one, takes the last workspace off the list. */
  lemma EvictStep(store: Buckets, clock: int, list: seq<string>, order: seq<string>)
    requires GoodBuckets(store, clock) && Listed(store, list)
    requires Enumerates(order, store) && |store| <= MAX_WORKSPACES + 1
    ensures Listed(Evicted(store, order), Take(list, MAX_WORKSPACES))
  {
    ListedSize(store, list);
    if |store| > MAX_WORKSPACES {
      EvictedGood(store, clock, order);
      EvictedListed(store, list, OldestUpto(store, order, |order|));
    }
  }

  lemma ListedStep(store: Buckets, clock: int, list: seq<string>, e: Event)
    requires Inv(store, clock) && e.Visit? && e.entry.visitedAt > clock >= 0
    requires Enumerates(e.order, Opened(store, e.wsId, e.entry))
    requires Listed(store, list)
    ensures Listed(Step(store, e), Take(ToFront(list, Name, e.wsId), MAX_WORKSPACES))
  {
    OpenedListed(store, clock, list, e.wsId, e.entry);
    OpenedGood(store, clock, e.wsId, e.entry);
    PlusOne(store, e.wsId, e.entry);
    EvictStep(Opened(store, e.wsId, e.entry), e.entry.visitedAt, ToFront(list, Name, e.wsId), e.order);
  }

  lemma {:induction false} RunListed(events: seq<Event>)
    requires Ticking(events) && forall e :: e in events ==> e.Visit?
    ensures Listed(Run(events), RunBounded(Visited(events), Name, MAX_WORKSPACES))
  {
    if events != [] {
      var init, e := events[..|events| - 1], events[|events| - 1];
      RunListed(init);
      RunKeepsInv(init);
      assert e in events;
      RunPush(Visited(init), Push(e.wsId), Name, MAX_WORKSPACES);
      ListedStep(Run(init), Clock(init), RunBounded(Visited(init), Name, MAX_WORKSPACES), e);
    }
  }

  /**
   * With visits alone and an advancing clock, the workspaces in the store are the first fifty of the
   * visited ones, read backwards without repetition.
   */
  lemma WorkspacesAreTheLatest(events: seq<Event>)
    requires Ticking(events) && forall e :: e in events ==> e.Visit?
    ensures Listed(Run(events), Take(Standing(Visited(events), Name), 50))
  {
    RunListed(events);
    VisitsArePushes(events);
    PushesFillTheBound(Visited(events), Name, MAX_WORKSPACES);
    UnboundedIsStanding(Visited(events), Name);
  }

  lemma {:induction false} VisitsArePushes(events: seq<Event>)
    ensures forall op :: op in Visited(events) ==> op.Push?
  {
    if events != [] {
      VisitsArePushes(events[..|events| - 1]);
    }
  }
}
