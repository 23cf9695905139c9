/**
 * Most-recent-first lists of bounded length, as both recency stores keep them
 * (apps/mobile/data/viewed-issues-store.ts, packages/core/chat/recent-context-store.ts).
 */
module Recency {

  import opened Common

  /** The list without the rows of key `k`. */
  function Without<T(!new)>(s: seq<T>, key: T -> string, k: string): seq<T> {
    if s == [] then []
    else if key(s[0]) == k then Without(s[1..], key, k) else [s[0]] + Without(s[1..], key, k)
  }

  function Take<T(!new)>(s: seq<T>, n: nat): seq<T> {
    if |s| <= n then s else s[..n]
  }

  /** Moves or adds `x` to the front. */
  function ToFront<T(!new)>(s: seq<T>, key: T -> string, x: T): seq<T> {
    [x] + Without(s, key, key(x))
  }

  /** What can happen to one list. */
  datatype Op<T> = Push(item: T) | Drop(k: string)

  function OpKey<T(!new)>(op: Op<T>, key: T -> string): string {
    match op
    case Push(x) => key(x)
    case Drop(k) => k
  }

  /** One operation on a list that holds at most `n` rows. */
  function Bounded<T(!new)>(s: seq<T>, key: T -> string, n: nat, op: Op<T>): seq<T> {
    match op
    case Push(x) => Take(ToFront(s, key, x), n)
    case Drop(k) => Without(s, key, k)
  }

  /** The same without a bound. */
  function Unbounded<T(!new)>(s: seq<T>, key: T -> string, op: Op<T>): seq<T> {
    match op
    case Push(x) => ToFront(s, key, x)
    case Drop(k) => Without(s, key, k)
  }

  function RunBounded<T(!new)>(ops: seq<Op<T>>, key: T -> string, n: nat): seq<T> {
    if ops == [] then [] else Bounded(RunBounded(ops[..|ops| - 1], key, n), key, n, ops[|ops| - 1])
  }

  function RunUnbounded<T(!new)>(ops: seq<Op<T>>, key: T -> string): seq<T> {
    if ops == [] then [] else Unbounded(RunUnbounded(ops[..|ops| - 1], key), key, ops[|ops| - 1])
  }

  /** Some operation concerns the key. */
  predicate Touches<T(!new)>(ops: seq<Op<T>>, key: T -> string, k: string) {
    exists i :: 0 <= i < |ops| && OpKey(ops[i], key) == k
  }

  /**
   * The history read backwards, without repetition: the pushes that no later operation on the
   * same key supersedes, latest first.
   */
  function Standing<T(!new)>(ops: seq<Op<T>>, key: T -> string): seq<T> {
    if ops == [] then []
    else if ops[0].Push? && !Touches(ops[1..], key, key(ops[0].item)) then Standing(ops[1..], key) + [ops[0].item]
    else Standing(ops[1..], key)
  }

  // ---- Without

  lemma {:induction false} WithoutConcat<T(!new)>(s: seq<T>, t: seq<T>, key: T -> string, k: string)
    ensures Without(s + t, key, k) == Without(s, key, k) + Without(t, key, k)
  {
    if s == [] {
      assert s + t == t;
    } else {
      WithoutConcat(s[1..], t, key, k);
      assert (s + t)[1..] == s[1..] + t && (s + t)[0] == s[0];
      Associative([s[0]], Without(s[1..], key, k), Without(t, key, k));
    }
  }

  lemma {:induction false} WithoutHas<T(!new)>(s: seq<T>, key: T -> string, k: string)
    ensures forall x :: x in Without(s, key, k) <==> x in s && key(x) != k
    ensures |Without(s, key, k)| <= |s|
  {
    if s != [] {
      WithoutHas(s[1..], key, k);
      assert s == [s[0]] + s[1..];
    }
  }

  lemma {:induction false} WithoutAbsent<T(!new)>(s: seq<T>, key: T -> string, k: string)
    requires forall x :: x in s ==> key(x) != k
    ensures Without(s, key, k) == s
  {
    if s != [] {
      assert s[0] in s;
      WithoutAbsent(s[1..], key, k);
    }
  }

  ghost predicate UniqueKeys<T(!new)>(s: seq<T>, key: T -> string) {
    forall i, j :: 0 <= i < j < |s| ==> key(s[i]) != key(s[j])
  }

  /** With unique keys at most one row goes. */
  lemma {:induction false} WithoutOne<T(!new)>(s: seq<T>, key: T -> string, k: string)
    requires UniqueKeys(s, key)
    ensures |Without(s, key, k)| >= |s| - 1
    ensures UniqueKeys(Without(s, key, k), key)
  {
    if s != [] {
      var rest := s[1..];
      if key(s[0]) == k {
        forall x | x in rest ensures key(x) != k {
          var i :| 0 <= i < |rest| && rest[i] == x;
          assert s[i + 1] == x;
        }
        WithoutAbsent(rest, key, k);
      } else {
        WithoutOne(rest, key, k);
        WithoutHas(rest, key, k);
        forall x | x in Without(rest, key, k) ensures key(x) != key(s[0]) {
          assert x in rest;
          var j :| 0 <= j < |rest| && rest[j] == x;
          assert s[j + 1] == x;
        }
      }
    }
  }

  lemma ToFrontUnique<T(!new)>(s: seq<T>, key: T -> string, x: T)
    requires UniqueKeys(s, key)
    ensures UniqueKeys(ToFront(s, key, x), key)
  {
    WithoutOne(s, key, key(x));
    WithoutHas(s, key, key(x));
  }

  // ---- The bound only hides older rows

  lemma RunPush<T(!new)>(ops: seq<Op<T>>, op: Op<T>, key: T -> string, n: nat)
    ensures RunBounded(ops + [op], key, n) == Bounded(RunBounded(ops, key, n), key, n, op)
  {
    assert (ops + [op])[..|ops|] == ops;
  }

  lemma PrefixStep<T(!new)>(s: seq<T>, u: seq<T>, key: T -> string, n: nat, op: Op<T>)
    requires s <= u
    ensures Bounded(s, key, n, op) <= Unbounded(u, key, op)
  {
    assert u == s + u[|s|..];
    WithoutConcat(s, u[|s|..], key, OpKey(op, key));
  }

  /** After any run of pushes and drops, the bounded list is the most recent part of the unbounded one. */
  lemma {:induction false} BoundedIsPrefix<T(!new)>(ops: seq<Op<T>>, key: T -> string, n: nat)
    ensures RunBounded(ops, key, n) <= RunUnbounded(ops, key)
    ensures |RunBounded(ops, key, n)| <= n
    ensures UniqueKeys(RunUnbounded(ops, key), key)
  {
    if ops != [] {
      var init, op := ops[..|ops| - 1], ops[|ops| - 1];
      BoundedIsPrefix(init, key, n);
      PrefixStep(RunBounded(init, key, n), RunUnbounded(init, key), key, n, op);
      WithoutHas(RunBounded(init, key, n), key, OpKey(op, key));
      WithoutOne(RunUnbounded(init, key), key, OpKey(op, key));
      if op.Push? {
        ToFrontUnique(RunUnbounded(init, key), key, op.item);
      }
    }
  }

  lemma PrefixOfLength<T(!new)>(s: seq<T>, u: seq<T>, n: nat)
    requires s <= u && |s| <= n && (|s| == n || s == u)
    ensures s == Take(u, n)
  {
  }

  lemma FullStep<T(!new)>(u: seq<T>, key: T -> string, n: nat, x: T)
    requires UniqueKeys(u, key)
    ensures Take(ToFront(Take(u, n), key, x), n) == Take(ToFront(u, key, x), n)
  {
    var s := Take(u, n);
    PrefixStep(s, u, key, n, Push(x));
    if |u| > n {
      WithoutOne(s, key, key(x));
      PrefixOfLength(Take(ToFront(s, key, x), n), ToFront(u, key, x), n);
    }
  }

  /** When nothing was dropped, it is exactly the first `n` rows of the unbounded list. */
  lemma {:induction false} PushesFillTheBound<T(!new)>(ops: seq<Op<T>>, key: T -> string, n: nat)
    requires forall op :: op in ops ==> op.Push?
    ensures RunBounded(ops, key, n) == Take(RunUnbounded(ops, key), n)
  {
    if ops != [] {
      var init := ops[..|ops| - 1];
      PushesFillTheBound(init, key, n);
      BoundedIsPrefix(init, key, n);
      assert ops[|ops| - 1] in ops;
      FullStep(RunUnbounded(init, key), key, n, ops[|ops| - 1].item);
    }
  }

  // ---- The unbounded list is the history read backwards

  lemma TouchesConcat<T(!new)>(ops: seq<Op<T>>, op: Op<T>, key: T -> string, k: string)
    ensures Touches(ops + [op], key, k) <==> Touches(ops, key, k) || OpKey(op, key) == k
  {
    var more := ops + [op];
    if Touches(ops, key, k) {
      var i :| 0 <= i < |ops| && OpKey(ops[i], key) == k;
      assert OpKey(more[i], key) == k;
    }
    assert more[|ops|] == op;
    if Touches(more, key, k) {
      var i :| 0 <= i < |more| && OpKey(more[i], key) == k;
      assert i < |ops| ==> OpKey(ops[i], key) == k;
    }
  }

  lemma StandingOne<T(!new)>(op: Op<T>, key: T -> string)
    ensures Standing([op], key) == if op.Push? then [op.item] else []
  {
    assert [op][1..] == [];
  }

  lemma StandingCons<T(!new)>(op: Op<T>, rest: seq<Op<T>>, key: T -> string)
    ensures Standing([op] + rest, key) ==
            if op.Push? && !Touches(rest, key, key(op.item)) then Standing(rest, key) + [op.item]
            else Standing(rest, key)
  {
    assert ([op] + rest)[1..] == rest;
  }

  lemma WithoutPush<T(!new)>(s: seq<T>, x: T, key: T -> string, k: string)
    ensures Without(s + [x], key, k) == if key(x) == k then Without(s, key, k) else Without(s, key, k) + [x]
  {
    WithoutConcat(s, [x], key, k);
    assert [x][1..] == [];
  }

  lemma {:induction false} StandingPush<T(!new)>(ops: seq<Op<T>>, op: Op<T>, key: T -> string)
    ensures Standing(ops + [op], key) == Unbounded(Standing(ops, key), key, op)
  {
    if ops == [] {
      assert ops + [op] == [op];
      StandingOne(op, key);
    } else {
      var first, rest := ops[0], ops[1..];
      StandingPush(rest, op, key);
      assert ops + [op] == [first] + (rest + [op]) && ops == [first] + rest;
      StandingCons(first, rest + [op], key);
      StandingCons(first, rest, key);
      if first.Push? {
        TouchesConcat(rest, op, key, key(first.item));
        WithoutPush(Standing(rest, key), first.item, key, OpKey(op, key));
      }
    }
  }

  lemma {:induction false} UnboundedIsStanding<T(!new)>(ops: seq<Op<T>>, key: T -> string)
    ensures RunUnbounded(ops, key) == Standing(ops, key)
  {
    if ops != [] {
      UnboundedIsStanding(ops[..|ops| - 1], key);
      StandingPush(ops[..|ops| - 1], ops[|ops| - 1], key);
      assert ops == ops[..|ops| - 1] + [ops[|ops| - 1]];
    }
  }

  // ---- What the history read backwards is

  /** The `i`-th operation pushes `x`, and no later one concerns its key. */
  ghost predicate StandsAt<T(!new)>(ops: seq<Op<T>>, key: T -> string, i: nat, x: T) {
    i < |ops| && ops[i] == Push(x) && forall j :: i < j < |ops| ==> OpKey(ops[j], key) != key(x)
  }

  lemma TouchesTail<T(!new)>(ops: seq<Op<T>>, key: T -> string, k: string)
    requires ops != []
    ensures Touches(ops[1..], key, k) <==> exists j :: 1 <= j < |ops| && OpKey(ops[j], key) == k
  {
    if j :| 1 <= j < |ops| && OpKey(ops[j], key) == k {
      assert ops[1..][j - 1] == ops[j];
    }
  }

  lemma StandsLater<T(!new)>(ops: seq<Op<T>>, key: T -> string, i: nat, x: T)
    requires ops != []
    ensures StandsAt(ops[1..], key, i, x) <==> StandsAt(ops, key, i + 1, x)
  {
    var rest := ops[1..];
    assert forall j :: 0 <= j < |rest| ==> rest[j] == ops[j + 1];
    if StandsAt(rest, key, i, x) {
      forall j | i + 1 < j < |ops| ensures OpKey(ops[j], key) != key(x) {
        assert OpKey(rest[j - 1], key) != key(x);
      }
    }
  }

  /** A row is listed exactly when its push still stands, and rows pushed later come first. */
  lemma {:induction false} StandingExactly<T(!new)>(ops: seq<Op<T>>, key: T -> string, x: T)
    ensures x in Standing(ops, key) <==> exists i: nat :: StandsAt(ops, key, i, x)
  {
    if ops != [] {
      StandingExactly(ops[1..], key, x);
      StandsLater(ops, key, 0, x);
      if i: nat :| StandsAt(ops[1..], key, i, x) {
        StandsLater(ops, key, i, x);
      }
      if i: nat :| StandsAt(ops, key, i, x) {
        if i > 0 {
          StandsLater(ops, key, i - 1, x);
        } else {
          TouchesTail(ops, key, key(x));
        }
      }
      if ops[0].Push? && ops[0].item == x {
        TouchesTail(ops, key, key(x));
        assert !Touches(ops[1..], key, key(x)) ==> StandsAt(ops, key, 0, x);
      }
    }
  }

  /** A row that is not the oldest one was not pushed first. */
  lemma NotOldestIsLater<T(!new)>(ops: seq<Op<T>>, key: T -> string, a: nat, i: nat)
    requires a + 1 < |Standing(ops, key)|
    requires StandsAt(ops, key, i, Standing(ops, key)[a])
    ensures i > 0
  {
    var x := Standing(ops, key)[a];
    StandingExactly(ops[1..], key, x);
    assert x in Standing(ops[1..], key);
    var k: nat :| StandsAt(ops[1..], key, k, x);
    StandsLater(ops, key, k, x);
    assert OpKey(ops[k + 1], key) == key(x);
  }

  /** A row pushed after the first operation is listed without it. */
  lemma LaterIsInTail<T(!new)>(ops: seq<Op<T>>, key: T -> string, b: nat, j: nat)
    requires b < |Standing(ops, key)|
    requires j > 0 && StandsAt(ops, key, j, Standing(ops, key)[b])
    ensures b < |Standing(ops[1..], key)| && Standing(ops[1..], key)[b] == Standing(ops, key)[b]
  {
    var y := Standing(ops, key)[b];
    TouchesTail(ops, key, key(y));
    assert OpKey(ops[j], key) == key(y);
  }

  lemma {:induction false} StandingInOrder<T(!new)>(ops: seq<Op<T>>, key: T -> string, a: nat, b: nat, i: nat, j: nat)
    requires a < b < |Standing(ops, key)|
    requires StandsAt(ops, key, i, Standing(ops, key)[a]) && StandsAt(ops, key, j, Standing(ops, key)[b])
    ensures i > j
  {
    NotOldestIsLater(ops, key, a, i);
    if j > 0 {
      LaterIsInTail(ops, key, a, i);
      LaterIsInTail(ops, key, b, j);
      StandsLater(ops, key, i - 1, Standing(ops, key)[a]);
      StandsLater(ops, key, j - 1, Standing(ops, key)[b]);
      StandingInOrder(ops[1..], key, a, b, i - 1, j - 1);
    }
  }
}
