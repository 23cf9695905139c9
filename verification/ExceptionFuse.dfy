/**
 * The fuse that drops repeated exception events within one tab session
 * (packages/core/analytics/exception-dedupe.ts).
 *
 * Storage may be missing, throw on reading, hold text that does not parse, or throw on writing,
 * independently for every event. Fingerprints are opaque.
 */
module ExceptionFuse {

  import opened Common

  type Fingerprint(==, !new)

  type Counts = map<Fingerprint, nat>

  const EXCEPTION_SAMPLE_LIMIT: nat := 3
  const MAX_FINGERPRINTS: nat := 50

  /** What reading the stored counts does: the counts, nothing usable, or an exception. */
  datatype ReadOutcome = ReadCounts | ReadNothing | ReadThrows

  /** One exception event, and how storage behaves while it is handled. */
  datatype Event = Event(fingerprint: Option<Fingerprint>, available: bool, read: ReadOutcome, writeThrows: bool) {
    predicate StorageWorks() {
      available && read == ReadCounts && !writeThrows
    }
  }

  datatype Outcome = Outcome(dropped: bool, stored: Counts)

  function CountOf(counts: Counts, f: Fingerprint): nat {
    if f in counts then counts[f] else 0
  }

  /** The decision for one event, and what storage holds afterwards. */
  function Step(stored: Counts, e: Event): Outcome {
    if e.fingerprint == None || !e.available || e.read == ReadThrows then Outcome(false, stored)
    else
      var f := e.fingerprint.value;
      var counts := if e.read == ReadNothing then map[] else stored;
      var current := CountOf(counts, f);
      if current >= EXCEPTION_SAMPLE_LIMIT then Outcome(true, stored)
      else if current == 0 && |counts| >= MAX_FINGERPRINTS then Outcome(false, stored)
      else if e.writeThrows then Outcome(false, stored)
      else Outcome(false, counts[f := current + 1])
  }

  /** The storage of one tab, with the handler that reads, decides and writes. */
  class SessionFuse {
    var stored: Counts

    constructor ()
      ensures stored == map[]
    {
      stored := map[];
    }

    method ShouldDropException(e: Event) returns (dropped: bool)
      modifies this
      ensures Outcome(dropped, stored) == Step(old(stored), e)
    {
      if e.fingerprint == None || !e.available {
        return false;
      }
      if e.read == ReadThrows {
        return false;
      }
      var counts := stored;
      if e.read == ReadNothing {
        counts := map[];
      }
      var f := e.fingerprint.value;
      var current := if f in counts then counts[f] else 0;
      if current >= EXCEPTION_SAMPLE_LIMIT {
        return true;
      }
      if current == 0 && |counts.Keys| >= MAX_FINGERPRINTS {
        return false;
      }
      counts := counts[f := current + 1];
      if !e.writeThrows {
        stored := counts;
      }
      return false;
    }
  }

  // ---- Runs from empty storage

  function StoredAfter(events: seq<Event>, n: nat): Counts
    requires n <= |events|
  {
    if n == 0 then map[] else Step(StoredAfter(events, n - 1), events[n - 1]).stored
  }

  /** Whether event `i` of the run is dropped. */
  predicate Dropped(events: seq<Event>, i: nat)
    requires i < |events|
  {
    Step(StoredAfter(events, i), events[i]).dropped
  }

  /** How many of the first `n` events have the fingerprint. */
  function Seen(events: seq<Event>, n: nat, f: Fingerprint): nat
    requires n <= |events|
  {
    if n == 0 then 0 else Seen(events, n - 1, f) + if events[n - 1].fingerprint == Some(f) then 1 else 0
  }

  /** How many of the first `n` events have the fingerprint and were kept. */
  function Kept(events: seq<Event>, n: nat, f: Fingerprint): nat
    requires n <= |events|
  {
    if n == 0 then 0
    else Kept(events, n - 1, f)
         + if events[n - 1].fingerprint == Some(f) && !Dropped(events, n - 1) then 1 else 0
  }

  // ---- Whatever fails, nothing is dropped early

  lemma {:induction false} NeverOverCounts(events: seq<Event>, n: nat, f: Fingerprint)
    requires n <= |events|
    ensures CountOf(StoredAfter(events, n), f) <= Kept(events, n, f)
  {
    if n > 0 {
      NeverOverCounts(events, n - 1, f);
    }
  }

  /** An event is dropped only after three earlier ones with its fingerprint were kept, whatever storage does. */
  lemma DropsOnlyAfterThree(events: seq<Event>, i: nat)
    requires i < |events| && Dropped(events, i)
    ensures events[i].fingerprint.Some?
    ensures Kept(events, i, events[i].fingerprint.value) >= 3
  {
    NeverOverCounts(events, i, events[i].fingerprint.value);
  }

  /** Whatever storage does, no more than fifty fingerprints are ever stored, each with a count of one to three. */
  lemma {:induction false} StoredStaysSmall(events: seq<Event>, n: nat)
    requires n <= |events|
    ensures |StoredAfter(events, n)| <= 50
    ensures forall f :: f in StoredAfter(events, n) ==> 1 <= StoredAfter(events, n)[f] <= 3
  {
    if n > 0 {
      StoredStaysSmall(events, n - 1);
      var before, e := StoredAfter(events, n - 1), events[n - 1];
      if e.fingerprint.Some? {
        var counts := if e.read == ReadNothing then map[] else before;
        OneMoreKey(counts, e.fingerprint.value, CountOf(counts, e.fingerprint.value) + 1);
      }
    }
  }

  lemma OneMoreKey(counts: Counts, f: Fingerprint, v: nat)
    ensures |counts[f := v]| == |counts| + if f in counts then 0 else 1
  {
    assert counts[f := v].Keys == counts.Keys + {f};
    assert |counts.Keys| == |counts| && |counts[f := v].Keys| == |counts[f := v]|;
  }

  /** Only readable counts blow the fuse, and then nothing is written; in any other case the event is kept. */
  lemma DropsOnlyOnCounts(stored: Counts, e: Event)
    ensures Step(stored, e).dropped <==>
            && e.fingerprint.Some? && e.available && e.read == ReadCounts
            && e.fingerprint.value in stored && stored[e.fingerprint.value] >= 3
    ensures Step(stored, e).dropped ==> Step(stored, e).stored == stored
  {
  }

  /** What one kept event leaves in storage: its count raised by one, on top of what could be read. */
  lemma KeptIsCounted(stored: Counts, e: Event)
    requires e.fingerprint.Some? && e.available && e.read != ReadThrows && !Step(stored, e).dropped
    requires forall f :: f in stored ==> stored[f] >= 1
    ensures var readable: Counts := if e.read == ReadCounts then stored else map[];
            var f := e.fingerprint.value;
            Step(stored, e).stored ==
              if e.writeThrows || (f !in readable && |readable| >= 50) then stored
              else readable[f := (if f in readable then readable[f] else 0) + 1]
  {
  }

  /** Without a fingerprint, without storage, or when reading throws, storage is left alone. */
  lemma UnreadIsUntouched(stored: Counts, e: Event)
    requires e.fingerprint == None || !e.available || e.read == ReadThrows
    ensures Step(stored, e) == Outcome(false, stored)
  {
  }

  // ---- Working storage: the exact decision

  ghost predicate Working(events: seq<Event>) {
    forall i :: 0 <= i < |events| ==> events[i].StorageWorks()
  }

  /** The distinct fingerprints of the first `n` events, in order of first occurrence. */
  function Order(events: seq<Event>, n: nat): seq<Fingerprint>
    requires n <= |events|
  {
    if n == 0 then []
    else
      var before := Order(events, n - 1);
      match events[n - 1].fingerprint
      case None => before
      case Some(f) => if f in before then before else before + [f]
  }

  function Tracked(order: seq<Fingerprint>): seq<Fingerprint> {
    if |order| <= MAX_FINGERPRINTS then order else order[..MAX_FINGERPRINTS]
  }

  function Min(a: nat, b: nat): nat {
    if a <= b then a else b
  }

  lemma {:induction false} OrderSeen(events: seq<Event>, n: nat, f: Fingerprint)
    requires n <= |events|
    ensures f in Order(events, n) <==> Seen(events, n, f) > 0
  {
    if n > 0 {
      OrderSeen(events, n - 1, f);
    }
  }

  lemma {:induction false} OrderDistinct(events: seq<Event>, n: nat)
    requires n <= |events|
    ensures Distinct(Order(events, n))
  {
    if n > 0 {
      OrderDistinct(events, n - 1);
    }
  }

  /** Storage holds the first fifty fingerprints, each with the number of its events up to three. */
  ghost predicate Exact(stored: Counts, events: seq<Event>, n: nat)
    requires n <= |events|
  {
    && stored.Keys == Elems(Tracked(Order(events, n)))
    && forall f :: f in stored ==> stored[f] == Min(Seen(events, n, f), EXCEPTION_SAMPLE_LIMIT)
  }

  lemma TrackedDistinct(events: seq<Event>, n: nat)
    requires n <= |events|
    ensures |Elems(Tracked(Order(events, n)))| == |Tracked(Order(events, n))|
  {
    OrderDistinct(events, n);
    DistinctSize(Tracked(Order(events, n)));
  }

  lemma TrackedGrows(order: seq<Fingerprint>, f: Fingerprint)
    ensures Elems(Tracked(order + [f])) ==
            if |order| < MAX_FINGERPRINTS then Elems(Tracked(order)) + {f} else Elems(Tracked(order))
  {
    if |order| >= MAX_FINGERPRINTS {
      assert (order + [f])[..MAX_FINGERPRINTS] == order[..MAX_FINGERPRINTS];
    }
  }

  lemma TrackedWhole(order: seq<Fingerprint>, f: Fingerprint)
    requires f in Tracked(order)
    ensures f in order
  {
  }

  /** One event of a fingerprint that storage already counts. */
  lemma ExactKnown(stored: Counts, events: seq<Event>, n: nat, f: Fingerprint)
    requires n < |events| && events[n].StorageWorks() && events[n].fingerprint == Some(f)
    requires Exact(stored, events, n) && f in stored
    ensures Exact(Step(stored, events[n]).stored, events, n + 1)
  {
    TrackedWhole(Order(events, n), f);
    OrderSeen(events, n, f);
    assert stored[f] == Min(Seen(events, n, f), EXCEPTION_SAMPLE_LIMIT) >= 1;
    var after := Step(stored, events[n]).stored;
    assert Order(events, n + 1) == Order(events, n);
    assert after.Keys == stored.Keys;
    assert forall g :: g != f ==> Seen(events, n + 1, g) == Seen(events, n, g);
  }

  /** One event of a fingerprint that came too late to be counted. */
  lemma ExactUntracked(stored: Counts, events: seq<Event>, n: nat, f: Fingerprint)
    requires n < |events| && events[n].StorageWorks() && events[n].fingerprint == Some(f)
    requires Exact(stored, events, n) && f !in stored && f in Order(events, n)
    ensures Exact(Step(stored, events[n]).stored, events, n + 1)
  {
    var order := Order(events, n);
    TrackedDistinct(events, n);
    assert |stored| == |stored.Keys| == |Tracked(order)|;
    assert |order| > MAX_FINGERPRINTS by {
      assert f !in Tracked(order);
    }
    assert Step(stored, events[n]).stored == stored && Order(events, n + 1) == order;
    assert forall g :: g != f ==> Seen(events, n + 1, g) == Seen(events, n, g);
  }

  /** What storage holds after the first event of a fingerprint. */
  lemma StepNew(stored: Counts, events: seq<Event>, n: nat, f: Fingerprint)
    requires n < |events| && events[n].StorageWorks() && events[n].fingerprint == Some(f)
    requires Exact(stored, events, n) && f !in stored
    ensures Step(stored, events[n]).stored ==
            if |Order(events, n)| < MAX_FINGERPRINTS then stored[f := 1] else stored
  {
    TrackedDistinct(events, n);
    assert |stored| == |stored.Keys| == |Tracked(Order(events, n))|;
  }

  lemma SeenElsewhere(events: seq<Event>, n: nat, f: Fingerprint, g: Fingerprint)
    requires n < |events| && events[n].fingerprint == Some(f) && g != f
    ensures Seen(events, n + 1, g) == Seen(events, n, g)
  {
  }

  /** The first event of a fingerprint. */
  lemma ExactNew(stored: Counts, after: Counts, events: seq<Event>, n: nat, f: Fingerprint)
    requires n < |events| && events[n].fingerprint == Some(f)
    requires Exact(stored, events, n) && f !in stored && f !in Order(events, n)
    requires after == if |Order(events, n)| < MAX_FINGERPRINTS then stored[f := 1] else stored
    ensures Exact(after, events, n + 1)
  {
    OrderSeen(events, n, f);
    TrackedGrows(Order(events, n), f);
    assert Order(events, n + 1) == Order(events, n) + [f];
    assert Seen(events, n + 1, f) == 1;
    forall g | g in after ensures after[g] == Min(Seen(events, n + 1, g), EXCEPTION_SAMPLE_LIMIT) {
      if g != f {
        SeenElsewhere(events, n, f, g);
      }
    }
  }

  lemma {:induction false} StoredExactly(events: seq<Event>, n: nat)
    requires Working(events) && n <= |events|
    ensures Exact(StoredAfter(events, n), events, n)
  {
    if n == 0 {
    } else {
      StoredExactly(events, n - 1);
      var before, e := StoredAfter(events, n - 1), events[n - 1];
      if e.fingerprint == None {
        assert Order(events, n) == Order(events, n - 1);
        assert forall g :: Seen(events, n, g) == Seen(events, n - 1, g);
      } else if e.fingerprint.value in before {
        ExactKnown(before, events, n - 1, e.fingerprint.value);
      } else {
        if e.fingerprint.value in Order(events, n - 1) {
          ExactUntracked(before, events, n - 1, e.fingerprint.value);
        } else {
          StepNew(before, events, n - 1, e.fingerprint.value);
          ExactNew(before, StoredAfter(events, n), events, n - 1, e.fingerprint.value);
        }
      }
    }
  }

  /**
   * With working storage, an event is dropped exactly when at least three of its kind came before
   * and its fingerprint is one of the first fifty of the session.
   */
  lemma DroppedExactly(events: seq<Event>, i: nat)
    requires Working(events) && i < |events|
    ensures Dropped(events, i) <==>
            && events[i].fingerprint.Some?
            && events[i].fingerprint.value in Tracked(Order(events, i))
            && Seen(events, i, events[i].fingerprint.value) >= EXCEPTION_SAMPLE_LIMIT
  {
    StoredExactly(events, i);
  }

  /** With working storage, a tracked fingerprint keeps its first three events, and any other keeps all. */
  lemma {:induction false} KeptExactly(events: seq<Event>, n: nat, f: Fingerprint)
    requires Working(events) && n <= |events|
    ensures Kept(events, n, f) ==
            if f in Tracked(Order(events, n)) then Min(Seen(events, n, f), EXCEPTION_SAMPLE_LIMIT)
            else Seen(events, n, f)
  {
    if n > 0 {
      KeptExactly(events, n - 1, f);
      DroppedExactly(events, n - 1);
      OrderSeen(events, n - 1, f);
      TrackingIsDecidedAtFirstSight(events, n - 1, f);
    }
  }

  /** Whether a fingerprint is tracked never changes after its first event. */
  lemma TrackingIsDecidedAtFirstSight(events: seq<Event>, n: nat, f: Fingerprint)
    requires n < |events|
    ensures f in Order(events, n) ==> (f in Tracked(Order(events, n + 1)) <==> f in Tracked(Order(events, n)))
    ensures f in Tracked(Order(events, n)) ==> f in Order(events, n)
    ensures f in Tracked(Order(events, n + 1)) && events[n].fingerprint != Some(f) ==> f in Tracked(Order(events, n))
  {
    var e := events[n];
    var order := Order(events, n);
    if e.fingerprint.Some? && e.fingerprint.value !in order {
      TrackedGrows(order, e.fingerprint.value);
      assert f in Tracked(order + [e.fingerprint.value]) <==> f in Elems(Tracked(order + [e.fingerprint.value]));
      assert f in Tracked(order) <==> f in Elems(Tracked(order));
    }
  }

  // ---- Fingerprints do not affect each other

  /** The events of the first `n` that have the fingerprint. */
  function Only(events: seq<Event>, n: nat, f: Fingerprint): seq<Event>
    requires n <= |events|
  {
    if n == 0 then []
    else if events[n - 1].fingerprint == Some(f) then Only(events, n - 1, f) + [events[n - 1]]
    else Only(events, n - 1, f)
  }

  lemma {:induction false} OnlyHas(events: seq<Event>, n: nat, f: Fingerprint)
    requires n <= |events|
    ensures |Only(events, n, f)| == Seen(events, n, f)
    ensures forall e :: e in Only(events, n, f) ==> e in events && e.fingerprint == Some(f)
  {
    if n > 0 {
      OnlyHas(events, n - 1, f);
    }
  }

  lemma {:induction false} OrderOfOne(events: seq<Event>, n: nat, f: Fingerprint)
    requires n <= |events|
    requires forall e :: e in events ==> e.fingerprint == Some(f)
    ensures Order(events, n) == (if n == 0 then [] else [f]) && Seen(events, n, f) == n
  {
    if n > 0 {
      assert events[n - 1] in events;
      OrderOfOne(events, n - 1, f);
    }
  }

  /**
   * The decision for an event is the one that a run of only its own fingerprint's events would
   * make, except for an untracked fingerprint that has already occurred three times. With at most
   * fifty fingerprints in the session there is no exception.
   */
  lemma IndependentExactly(events: seq<Event>, i: nat, f: Fingerprint)
    requires Working(events) && i < |events| && events[i].fingerprint == Some(f)
    ensures var alone := Only(events, i, f) + [events[i]];
            && ((Dropped(events, i) <==> Dropped(alone, |alone| - 1)) <==>
                f in Tracked(Order(events, i)) || Seen(events, i, f) < EXCEPTION_SAMPLE_LIMIT)
            && (|Order(events, i)| <= MAX_FINGERPRINTS ==> (Dropped(events, i) <==> Dropped(alone, |alone| - 1)))
  {
    var alone := Only(events, i, f) + [events[i]];
    var k := |alone| - 1;
    OnlyHas(events, i, f);
    assert forall e :: e in alone ==> e in events;
    assert Working(alone) by {
      forall j | 0 <= j < |alone| ensures alone[j].StorageWorks() {
        assert alone[j] in alone;
        assert alone[j] in events;
      }
    }
    OrderOfOne(alone, k, f);
    DroppedExactly(events, i);
    DroppedExactly(alone, k);
    OrderSeen(events, i, f);
  }

  // ---- A session with one fingerprint too many

  /** Fifty-one fingerprints, each once, and then three more events of the last one, all with working storage. */
  function Crowded(fs: seq<Fingerprint>): (events: seq<Event>)
    requires |fs| == MAX_FINGERPRINTS + 1
    ensures |events| == MAX_FINGERPRINTS + 4 && Working(events)
    ensures forall k :: 0 <= k < |events| ==>
              events[k].fingerprint == Some(fs[if k < MAX_FINGERPRINTS then k else MAX_FINGERPRINTS])
  {
    seq(MAX_FINGERPRINTS + 4, k requires 0 <= k < MAX_FINGERPRINTS + 4 =>
      Event(Some(fs[if k < MAX_FINGERPRINTS then k else MAX_FINGERPRINTS]), true, ReadCounts, false))
  }

  lemma {:induction false} CrowdedOrder(fs: seq<Fingerprint>, n: nat)
    requires |fs| == MAX_FINGERPRINTS + 1 && Distinct(fs) && n <= MAX_FINGERPRINTS + 4
    ensures Order(Crowded(fs), n) == if n <= MAX_FINGERPRINTS then fs[..n] else fs
    ensures Seen(Crowded(fs), n, fs[MAX_FINGERPRINTS]) == if n <= MAX_FINGERPRINTS then 0 else n - MAX_FINGERPRINTS
  {
    if n > 0 {
      CrowdedOrder(fs, n - 1);
      if n <= MAX_FINGERPRINTS {
        assert fs[n - 1] !in fs[..n - 1];
        assert fs[..n] == fs[..n - 1] + [fs[n - 1]];
      } else if n == MAX_FINGERPRINTS + 1 {
        assert fs == fs[..MAX_FINGERPRINTS] + [fs[MAX_FINGERPRINTS]];
      }
    }
  }

  /** The fourth event of the fifty-first fingerprint is kept, though on its own it would be dropped. */
  lemma CrowdedOut(fs: seq<Fingerprint>)
    requires |fs| == MAX_FINGERPRINTS + 1 && Distinct(fs)
    ensures var events, i := Crowded(fs), MAX_FINGERPRINTS + 3;
            var alone := Only(events, i, fs[MAX_FINGERPRINTS]) + [events[i]];
            !Dropped(events, i) && Dropped(alone, |alone| - 1)
  {
    var events, i, f := Crowded(fs), MAX_FINGERPRINTS + 3, fs[MAX_FINGERPRINTS];
    CrowdedOrder(fs, i);
    assert f !in fs[..MAX_FINGERPRINTS];
    DroppedExactly(events, i);
    IndependentExactly(events, i, f);
  }
}
