/** Coalescing consecutive identical activities of a timeline into one entry with a count. */
module TimelineCoalesce {
  import opened Common

  /** Entry ids, comment and detail fields: everything that coalescing copies but does not look at. */
  type Payload(==, !new)

  /** A timeline entry; time is its timestamp in milliseconds, None when the date does not parse. */
  datatype Entry = Entry(
    isActivity: bool,
    action: Option<string>,
    actorType: string,
    actorId: string,
    time: Option<int>,
    coalescedCount: Option<nat>,
    payload: Payload)

  const COALESCE_MS := 2 * 60 * 1000
  const NO_TIME_LIMIT := {"task_completed", "task_failed"}
  const NEVER := {"squad_leader_evaluated"}

  function ActionOf(e: Entry): string {
    if e.action.Some? then e.action.value else ""
  }

  function Abs(x: int): nat {
    if x < 0 then -x else x
  }

  predicate Close(a: Entry, b: Entry) {
    a.time.Some? && b.time.Some? && Abs(a.time.value - b.time.value) <= COALESCE_MS
  }

  /** Entry e continues the run that ends with prev. */
  predicate Mergeable(prev: Entry, e: Entry) {
    && e.isActivity && ActionOf(e) !in NEVER && prev.isActivity
    && prev.action == e.action && prev.actorType == e.actorType && prev.actorId == e.actorId
    && (ActionOf(e) in NO_TIME_LIMIT || Close(e, prev))
  }

  /** How many entries an entry stands for. */
  function Weight(e: Entry): nat {
    if e.coalescedCount.Some? then e.coalescedCount.value else 1
  }

  function Merge(prev: Entry, e: Entry): Entry {
    e.(coalescedCount := Some(Weight(prev) + 1))
  }

  function Push(out: seq<Entry>, e: Entry): seq<Entry> {
    if out != [] && Mergeable(out[|out| - 1], e) then out[|out| - 1 := Merge(out[|out| - 1], e)] else out + [e]
  }

  /** The first n entries, coalesced. */
  function Coalesce(es: seq<Entry>, n: nat): (out: seq<Entry>)
    requires n <= |es|
    ensures |out| <= n && (n > 0 ==> out != [])
  {
    if n == 0 then [] else Push(Coalesce(es, n - 1), es[n - 1])
  }

  function CoalesceAll(es: seq<Entry>): seq<Entry> {
    Coalesce(es, |es|)
  }

  method CoalesceTimeline(es: seq<Entry>) returns (out: seq<Entry>)
    ensures out == CoalesceAll(es)
  {
    out := [];
    for n := 0 to |es|
      invariant out == Coalesce(es, n)
    {
      var entry := es[n];
      if entry.isActivity {
        if ActionOf(entry) !in NEVER && |out| > 0 {
          var prev := out[|out| - 1];
          if prev.isActivity && prev.action == entry.action && prev.actorType == entry.actorType
             && prev.actorId == entry.actorId && (ActionOf(entry) in NO_TIME_LIMIT || Close(entry, prev)) {
            out := out[|out| - 1 := entry.(coalescedCount := Some(Weight(prev) + 1))];
            continue;
          }
        }
      }
      out := out + [entry];
    }
  }

  // ----- Conservation -----

  function Total(out: seq<Entry>, n: nat): nat
    requires n <= |out|
  {
    if n == 0 then 0 else Total(out, n - 1) + Weight(out[n - 1])
  }

  lemma {:induction false} TotalAgree(a: seq<Entry>, b: seq<Entry>, n: nat)
    requires n <= |a| && n <= |b| && forall i :: 0 <= i < n ==> a[i] == b[i]
    ensures Total(a, n) == Total(b, n)
  {
    if n > 0 {
      TotalAgree(a, b, n - 1);
    }
  }

  lemma PushTotal(out: seq<Entry>, e: Entry)
    ensures Total(Push(out, e), |Push(out, e)|) ==
            Total(out, |out|) + if out != [] && Mergeable(out[|out| - 1], e) then 1 else Weight(e)
  {
    var next := Push(out, e);
    TotalAgree(out, next, |next| - 1);
  }

  /** Entries that differ in their counts at most. */
  predicate SameBut(a: Entry, b: Entry) {
    a.(coalescedCount := None) == b.(coalescedCount := None)
  }

  lemma SameMerges(a: Entry, b: Entry, c: Entry, d: Entry)
    requires SameBut(a, c) && SameBut(b, d)
    ensures Mergeable(a, b) <==> Mergeable(c, d)
  {
  }

  /** The entry continues the run of the one before it. */
  predicate Continues(es: seq<Entry>, i: nat)
    requires i < |es|
  {
    i > 0 && Mergeable(es[i - 1], es[i])
  }

  /** What the entries add up to when each that continues a run counts once, whatever count it carries. */
  function Counted(es: seq<Entry>, n: nat): nat
    requires n <= |es|
  {
    if n == 0 then 0 else Counted(es, n - 1) + if Continues(es, n - 1) then 1 else Weight(es[n - 1])
  }

  lemma LastKeepsItsBody(es: seq<Entry>, n: nat)
    requires 0 < n <= |es|
    ensures var out := Coalesce(es, n); SameBut(out[|out| - 1], es[n - 1])
  {
  }

  lemma MergesAsBefore(es: seq<Entry>, n: nat)
    requires 0 < n <= |es|
    ensures var out := Coalesce(es, n - 1);
            (out != [] && Mergeable(out[|out| - 1], es[n - 1])) <==> Continues(es, n - 1)
  {
    if n > 1 {
      var out := Coalesce(es, n - 1);
      LastKeepsItsBody(es, n - 1);
      SameMerges(out[|out| - 1], es[n - 1], es[n - 2], es[n - 1]);
    }
  }

  /** What the output entries stand for adds up to what is counted of the input: merging ignores the count of
    * the newer entry. */
  lemma {:induction false} CountsConserved(es: seq<Entry>, n: nat)
    requires n <= |es|
    ensures Total(Coalesce(es, n), |Coalesce(es, n)|) == Counted(es, n)
  {
    if n > 0 {
      CountsConserved(es, n - 1);
      MergesAsBefore(es, n);
      PushTotal(Coalesce(es, n - 1), es[n - 1]);
    }
  }

  /** No entry carries a count of its own. */
  ghost predicate Uncoalesced(es: seq<Entry>) {
    forall i :: 0 <= i < |es| ==> es[i].coalescedCount.None?
  }

  lemma {:induction false} CountedOnce(es: seq<Entry>, n: nat)
    requires n <= |es| && Uncoalesced(es)
    ensures Counted(es, n) == n
  {
    if n > 0 {
      CountedOnce(es, n - 1);
    }
  }

  /** Of entries that carry no counts, the output stands for as many as were read. */
  lemma EntriesConserved(es: seq<Entry>)
    requires Uncoalesced(es)
    ensures Total(CoalesceAll(es), |CoalesceAll(es)|) == |es|
  {
    CountsConserved(es, |es|);
    CountedOnce(es, |es|);
  }

  /** No entry stands for nothing. */
  ghost predicate Weighty(es: seq<Entry>) {
    forall i :: 0 <= i < |es| ==> Weight(es[i]) >= 1
  }

  /** Every entry among the first n that continues a run stands for itself only. */
  ghost predicate ContinuedOnce(es: seq<Entry>, n: nat)
    requires n <= |es|
  {
    forall i :: 0 <= i < n && Continues(es, i) ==> Weight(es[i]) == 1
  }

  lemma {:induction false} CountedExactly(es: seq<Entry>, n: nat)
    requires n <= |es| && Weighty(es)
    ensures Counted(es, n) <= Total(es, n)
    ensures Counted(es, n) == Total(es, n) <==> ContinuedOnce(es, n)
  {
    if n > 0 {
      CountedExactly(es, n - 1);
      assert ContinuedOnce(es, n) <==>
             ContinuedOnce(es, n - 1) && (Continues(es, n - 1) ==> Weight(es[n - 1]) == 1);
    }
  }

  /** Counts that are there already are kept exactly when every entry that continues a run stands for itself only. */
  lemma TotalConservedExactly(es: seq<Entry>)
    requires Weighty(es)
    ensures Total(CoalesceAll(es), |CoalesceAll(es)|) == Total(es, |es|) <==> ContinuedOnce(es, |es|)
  {
    CountsConserved(es, |es|);
    CountedExactly(es, |es|);
  }

  /** The entries among the first n that are no activities. */
  function Comments(es: seq<Entry>, n: nat): seq<Entry>
    requires n <= |es|
  {
    if n == 0 then [] else if es[n - 1].isActivity then Comments(es, n - 1) else Comments(es, n - 1) + [es[n - 1]]
  }

  lemma {:induction false} CommentsAgree(a: seq<Entry>, b: seq<Entry>, n: nat)
    requires n <= |a| && n <= |b| && forall i :: 0 <= i < n ==> a[i] == b[i]
    ensures Comments(a, n) == Comments(b, n)
  {
    if n > 0 {
      CommentsAgree(a, b, n - 1);
    }
  }

  lemma PushComments(out: seq<Entry>, e: Entry)
    ensures var next := Push(out, e);
            Comments(next, |next|) == if e.isActivity then Comments(out, |out|) else Comments(out, |out|) + [e]
  {
    var next := Push(out, e);
    CommentsAgree(out, next, |next| - 1);
  }

  /** Comments come through unchanged and in order, whatever the activities around them do. */
  lemma {:induction false} CommentsSurvive(es: seq<Entry>, n: nat)
    requires n <= |es|
    ensures Comments(Coalesce(es, n), |Coalesce(es, n)|) == Comments(es, n)
  {
    if n > 0 {
      CommentsSurvive(es, n - 1);
      var out := Coalesce(es, n - 1);
      PushComments(out, es[n - 1]);
      assert Coalesce(es, n) == Push(out, es[n - 1]);
    }
  }

  // ----- Which entries are put together -----

  /** The two times lie at most two minutes apart. */
  predicate WithinTwoMinutes(a: Entry, b: Entry) {
    match (a.time, b.time)
    case (Some(s), Some(t)) => s - t <= 120000 && t - s <= 120000
    case _ => false
  }

  /** Two entries that belong together: the same activity of the same actor, and near in time unless a task ended. */
  predicate Together(a: Entry, b: Entry) {
    && a.isActivity && b.isActivity && a.action == b.action && a.action != Some("squad_leader_evaluated")
    && a.actorType == b.actorType && a.actorId == b.actorId
    && (a.action in {Some("task_completed"), Some("task_failed")} || WithinTwoMinutes(a, b))
  }

  /** Of two neighbours the newer one continues the older exactly when they belong together: it replaces it, and
    * no row is added. */
  lemma PutTogetherExactly(es: seq<Entry>, n: nat)
    requires 1 < n <= |es|
    ensures |Coalesce(es, n)| == |Coalesce(es, n - 1)| + if Together(es[n - 2], es[n - 1]) then 0 else 1
    ensures var out := Coalesce(es, n); out != [] && SameBut(out[|out| - 1], es[n - 1])
    ensures !Together(es[n - 2], es[n - 1]) ==> Coalesce(es, n) == Coalesce(es, n - 1) + [es[n - 1]]
    ensures Together(es[n - 2], es[n - 1]) ==>
              Coalesce(es, n)[..|Coalesce(es, n)| - 1] == Coalesce(es, n - 1)[..|Coalesce(es, n - 1)| - 1]
  {
    MergesAsBefore(es, n);
    LastKeepsItsBody(es, n);
    TogetherIsMergeable(es[n - 2], es[n - 1]);
  }

  lemma TogetherIsMergeable(a: Entry, b: Entry)
    ensures Together(a, b) <==> Mergeable(a, b)
  {
  }

  /** The evaluations among the first n entries. */
  function Evaluations(es: seq<Entry>, n: nat): seq<Entry>
    requires n <= |es|
  {
    if n == 0 then []
    else if es[n - 1].isActivity && es[n - 1].action == Some("squad_leader_evaluated")
    then Evaluations(es, n - 1) + [es[n - 1]]
    else Evaluations(es, n - 1)
  }

  lemma {:induction false} EvaluationsAgree(a: seq<Entry>, b: seq<Entry>, n: nat)
    requires n <= |a| && n <= |b| && forall i :: 0 <= i < n ==> a[i] == b[i]
    ensures Evaluations(a, n) == Evaluations(b, n)
  {
    if n > 0 {
      EvaluationsAgree(a, b, n - 1);
    }
  }

  lemma PushEvaluations(out: seq<Entry>, e: Entry)
    ensures var next := Push(out, e);
            Evaluations(next, |next|) == if e.isActivity && e.action == Some("squad_leader_evaluated")
                                         then Evaluations(out, |out|) + [e] else Evaluations(out, |out|)
  {
    var next := Push(out, e);
    EvaluationsAgree(out, next, |next| - 1);
  }

  /** An evaluation is never merged, neither into an earlier one nor by a later one: all come through unchanged. */
  lemma {:induction false} EvaluationsSurvive(es: seq<Entry>, n: nat)
    requires n <= |es|
    ensures Evaluations(Coalesce(es, n), |Coalesce(es, n)|) == Evaluations(es, n)
  {
    if n > 0 {
      EvaluationsSurvive(es, n - 1);
      var out := Coalesce(es, n - 1);
      PushEvaluations(out, es[n - 1]);
      assert Coalesce(es, n) == Push(out, es[n - 1]);
    }
  }

  // ----- Maximality and idempotence -----

  ghost predicate NoneMergeable(out: seq<Entry>) {
    forall i :: 0 < i < |out| ==> !Mergeable(out[i - 1], out[i])
  }

  /** Timestamps parse and never go back. */
  ghost predicate Ascending(es: seq<Entry>) {
    && (forall i :: 0 <= i < |es| ==> es[i].time.Some?)
    && (forall i, j :: 0 <= i <= j < |es| ==> es[i].time.value <= es[j].time.value)
  }

  lemma {:induction false} CoalesceIdentity(es: seq<Entry>, n: nat)
    requires n <= |es| && NoneMergeable(es)
    ensures Coalesce(es, n) == es[..n]
  {
    if n > 0 {
      CoalesceIdentity(es, n - 1);
      assert n > 1 ==> !Mergeable(es[n - 2], es[n - 1]);
    }
  }

  lemma {:induction false} CoalesceNeverLonger(es: seq<Entry>, n: nat)
    requires n <= |es|
    ensures |Coalesce(es, n)| == n ==>
              Coalesce(es, n) == es[..n] && forall i :: 0 < i < n ==> !Mergeable(es[i - 1], es[i])
  {
    if n > 0 {
      CoalesceNeverLonger(es, n - 1);
    }
  }

  lemma SecondPassExactly(es: seq<Entry>)
    ensures CoalesceAll(CoalesceAll(es)) == CoalesceAll(es) <==> NoneMergeable(CoalesceAll(es))
  {
    var out := CoalesceAll(es);
    if NoneMergeable(out) {
      CoalesceIdentity(out, |out|);
      assert out[..|out|] == out;
    }
    CoalesceNeverLonger(out, |out|);
  }

  // ----- Where runs end -----

  /** The last entries of the runs among the first n entries. */
  function Ends(es: seq<Entry>, n: nat): (ends: seq<nat>)
    requires n <= |es|
    ensures |ends| <= n && (n > 0 ==> ends != [] && ends[|ends| - 1] == n - 1)
    ensures forall k :: 0 <= k < |ends| ==> ends[k] < n
  {
    if n == 0 then []
    else
      var before := Ends(es, n - 1);
      if n > 1 && Mergeable(es[n - 2], es[n - 1]) then before[|before| - 1 := n - 1] else before + [n - 1]
  }

  /** Pushing keeps the output in step with the run ends. */
  ghost predicate Matches(out: seq<Entry>, es: seq<Entry>, ends: seq<nat>) {
    |out| == |ends| && forall k :: 0 <= k < |out| ==> ends[k] < |es| && SameBut(out[k], es[ends[k]])
  }

  lemma MatchesStep(out: seq<Entry>, es: seq<Entry>, ends: seq<nat>, n: nat)
    requires 1 < n <= |es| && Matches(out, es, ends) && ends != [] && ends[|ends| - 1] == n - 2
    ensures Matches(Push(out, es[n - 1]), es,
                    if Mergeable(es[n - 2], es[n - 1]) then ends[|ends| - 1 := n - 1] else ends + [n - 1])
  {
    SameMerges(out[|out| - 1], es[n - 1], es[n - 2], es[n - 1]);
  }

  /** Each output entry is the last entry of its run, with a count. */
  lemma {:induction false} CoalesceAtEnds(es: seq<Entry>, n: nat)
    requires n <= |es|
    ensures Matches(Coalesce(es, n), es, Ends(es, n))
  {
    if n > 0 {
      CoalesceAtEnds(es, n - 1);
      if n > 1 {
        MatchesStep(Coalesce(es, n - 1), es, Ends(es, n - 1), n);
      }
    }
  }

  /** A run among the first n entries ends here. */
  predicate IsEnd(es: seq<Entry>, n: nat, i: nat)
    requires n <= |es|
  {
    i < n && (i + 1 < n ==> !Mergeable(es[i], es[i + 1]))
  }

  lemma {:induction false} EndsAscend(es: seq<Entry>, n: nat)
    requires n <= |es|
    ensures forall a, b :: 0 <= a < b < |Ends(es, n)| ==> Ends(es, n)[a] < Ends(es, n)[b]
  {
    if n > 0 {
      EndsAscend(es, n - 1);
    }
  }

  lemma {:induction false} InEnds(es: seq<Entry>, n: nat, i: nat)
    requires n <= |es|
    ensures i in Ends(es, n) <==> IsEnd(es, n, i)
  {
    if n > 0 {
      InEnds(es, n - 1, i);
      EndsAscend(es, n - 1);
      var before := Ends(es, n - 1);
      if n > 1 && Mergeable(es[n - 2], es[n - 1]) {
        ReplacedLast(before, n - 1, i);
      }
    }
  }

  lemma ReplacedLast(s: seq<nat>, x: nat, i: nat)
    requires s != [] && forall a, b :: 0 <= a < b < |s| ==> s[a] < s[b]
    ensures i in s[|s| - 1 := x] <==> i == x || (i in s && i != s[|s| - 1])
  {
    var t := s[|s| - 1 := x];
    assert t[|s| - 1] == x;
    if i in s && i != s[|s| - 1] {
      var k :| 0 <= k < |s| && s[k] == i;
      assert t[k] == i;
    }
    if i in t && i != x {
      var k :| 0 <= k < |t| && t[k] == i;
      assert s[k] == i && k < |s| - 1;
    }
  }

  // ----- The exact condition on the input -----

  /** One run ends at i, and the next one ends at j. */
  ghost predicate NextRun(es: seq<Entry>, i: nat, j: nat) {
    && i < j < |es| && !Mergeable(es[i], es[i + 1])
    && (forall k :: i + 1 <= k < j ==> Mergeable(es[k], es[k + 1]))
    && (j + 1 < |es| ==> !Mergeable(es[j], es[j + 1]))
  }

  /** No run ends close enough to the end of the run before it to continue that one. */
  ghost predicate RunsStayApart(es: seq<Entry>) {
    forall i: nat, j: nat :: NextRun(es, i, j) ==> !Mergeable(es[i], es[j])
  }

  lemma NeighboursAreNext(es: seq<Entry>, k: nat)
    requires 0 < k < |Ends(es, |es|)|
    ensures NextRun(es, Ends(es, |es|)[k - 1], Ends(es, |es|)[k])
  {
    var n, ends := |es|, Ends(es, |es|);
    EndsAscend(es, n);
    InEnds(es, n, ends[k - 1]);
    InEnds(es, n, ends[k]);
    forall m: nat | ends[k - 1] + 1 <= m < ends[k] ensures Mergeable(es[m], es[m + 1]) {
      InEnds(es, n, m);
      NotBetween(ends, k, m);
    }
  }

  lemma NotBetween(s: seq<nat>, k: nat, m: nat)
    requires 0 < k < |s| && forall a, b :: 0 <= a < b < |s| ==> s[a] < s[b]
    requires s[k - 1] < m < s[k]
    ensures m !in s
  {
    forall a | 0 <= a < |s| ensures s[a] != m {
      assert if a < k then s[a] <= s[k - 1] else s[a] >= s[k];
    }
  }

  lemma NextAreNeighbours(es: seq<Entry>, i: nat, j: nat) returns (k: nat)
    requires NextRun(es, i, j)
    ensures 0 < k < |Ends(es, |es|)| && Ends(es, |es|)[k - 1] == i && Ends(es, |es|)[k] == j
  {
    var n, ends := |es|, Ends(es, |es|);
    EndsAscend(es, n);
    InEnds(es, n, i);
    InEnds(es, n, j);
    var a :| 0 <= a < |ends| && ends[a] == i;
    k :| 0 <= k < |ends| && ends[k] == j;
    assert a < k;
    var m := ends[a + 1];
    InEnds(es, n, m);
    assert i < m <= j && !(i + 1 <= m < j);
  }

  lemma OutputPair(es: seq<Entry>, k: nat)
    requires 0 < k < |Ends(es, |es|)|
    ensures k < |CoalesceAll(es)|
    ensures var ends, out := Ends(es, |es|), CoalesceAll(es);
            Mergeable(out[k - 1], out[k]) <==> Mergeable(es[ends[k - 1]], es[ends[k]])
  {
    var ends, out := Ends(es, |es|), CoalesceAll(es);
    CoalesceAtEnds(es, |es|);
    SameMerges(out[k - 1], out[k], es[ends[k - 1]], es[ends[k]]);
  }

  /** Coalescing leaves nothing mergeable exactly when the runs of the input stay apart. */
  lemma MaximalExactly(es: seq<Entry>)
    ensures NoneMergeable(CoalesceAll(es)) <==> RunsStayApart(es)
  {
    var out := CoalesceAll(es);
    CoalesceAtEnds(es, |es|);
    if RunsStayApart(es) {
      forall k | 0 < k < |out| ensures !Mergeable(out[k - 1], out[k]) {
        OutputPair(es, k);
        NeighboursAreNext(es, k);
      }
    }
    if NoneMergeable(out) {
      forall i: nat, j: nat | NextRun(es, i, j) ensures !Mergeable(es[i], es[j]) {
        var k := NextAreNeighbours(es, i, j);
        OutputPair(es, k);
      }
    }
  }

  /**
   * Coalescing twice is coalescing once exactly when no run of the input ends close enough to the end of
   * the run before it to continue that one.
   */
  lemma IdempotentExactly(es: seq<Entry>)
    ensures CoalesceAll(CoalesceAll(es)) == CoalesceAll(es) <==> RunsStayApart(es)
  {
    SecondPassExactly(es);
    MaximalExactly(es);
  }

  /** Within a run, action and actor stay the same and every entry is an activity. */
  lemma {:induction false} RunAlike(es: seq<Entry>, i: nat, j: nat)
    requires i < j < |es| && forall k :: i <= k < j ==> Mergeable(es[k], es[k + 1])
    ensures es[i].isActivity && es[i].action == es[j].action
    ensures es[i].actorType == es[j].actorType && es[i].actorId == es[j].actorId
    decreases j - i
  {
    assert Mergeable(es[j - 1], es[j]);
    if j > i + 1 {
      RunAlike(es, i, j - 1);
    }
  }

  /** On ascending timestamps, the end of a run is no closer to the run before than its start is. */
  lemma AscendingApart(es: seq<Entry>, i: nat, j: nat)
    requires Ascending(es) && NextRun(es, i, j)
    ensures !Mergeable(es[i], es[j])
  {
    if j > i + 1 {
      RunAlike(es, i + 1, j);
      if Mergeable(es[i], es[j]) {
        CloserMerges(es[i], es[i + 1], es[j]);
      }
    }
  }

  /** What can continue a run from afar can do so from nearer by. */
  lemma CloserMerges(a: Entry, b: Entry, c: Entry)
    requires a.time.Some? && b.time.Some? && c.time.Some? && a.time.value <= b.time.value <= c.time.value
    requires b.isActivity && b.action == c.action && b.actorType == c.actorType && b.actorId == c.actorId
    requires Mergeable(a, c)
    ensures Mergeable(a, b)
  {
  }

  /** On ascending timestamps coalescing is maximal, and coalescing twice is coalescing once. */
  lemma AscendingIsMaximal(es: seq<Entry>)
    requires Ascending(es)
    ensures NoneMergeable(CoalesceAll(es)) && CoalesceAll(CoalesceAll(es)) == CoalesceAll(es)
  {
    forall i: nat, j: nat | NextRun(es, i, j) ensures !Mergeable(es[i], es[j]) {
      AscendingApart(es, i, j);
    }
    MaximalExactly(es);
    IdempotentExactly(es);
  }

  /** Out of order it can fail: a late run can end close enough to an earlier one to merge with it the second time. */
  lemma OutOfOrderMergesAgain(payload: Payload) returns (es: seq<Entry>)
    ensures !Ascending(es) && Uncoalesced(es)
    ensures CoalesceAll(CoalesceAll(es)) != CoalesceAll(es)
  {
    var a := Entry(true, Some("edited"), "member", "u", Some(0), None, payload);
    var b, c := a.(time := Some(200000)), a.(time := Some(100000));
    es := [a, b, c];
    assert "edited" !in NEVER && "edited" !in NO_TIME_LIMIT by {
      assert |"edited"| == 6 && |"squad_leader_evaluated"| == 22 && |"task_completed"| == 14 && |"task_failed"| == 11;
    }
    assert Coalesce(es, 1) == [a];
    assert !Mergeable(a, b) && Coalesce(es, 2) == [a, b];
    assert Mergeable(b, c) && Coalesce(es, 3) == [a, Merge(b, c)];
    var out := CoalesceAll(es);
    assert Mergeable(out[0], out[1]);
    SecondPassExactly(es);
  }
}
