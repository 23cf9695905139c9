/**
 * Sorting a list by an integer key the way the language's sort does it: in ascending order,
 * rows with equal keys in the order they came.
 */
module StableSort {

  import opened Common

  ghost predicate Ascending<T>(s: seq<T>, key: T -> int) {
    forall i, j :: 0 <= i < j < |s| ==> key(s[i]) <= key(s[j])
  }

  /** Puts `x` behind every row of `s` whose key is no larger. */
  function Insert<T>(s: seq<T>, x: T, key: T -> int): seq<T> {
    if s == [] || key(s[|s| - 1]) <= key(x) then s + [x]
    else Insert(s[..|s| - 1], x, key) + [s[|s| - 1]]
  }

  function Sort<T>(s: seq<T>, key: T -> int): seq<T> {
    if s == [] then [] else Insert(Sort(s[..|s| - 1], key), s[|s| - 1], key)
  }

  /** The rows whose key is `v`, in order. */
  function WithKey<T>(s: seq<T>, key: T -> int, v: int): seq<T> {
    if s == [] then []
    else if key(s[|s| - 1]) == v then WithKey(s[..|s| - 1], key, v) + [s[|s| - 1]]
    else WithKey(s[..|s| - 1], key, v)
  }

  /** The first row that satisfies `p`. */
  function Find<T>(s: seq<T>, p: T -> bool): Option<T> {
    if s == [] then None
    else
      match Find(s[..|s| - 1], p)
      case Some(x) => Some(x)
      case None => if p(s[|s| - 1]) then Some(s[|s| - 1]) else None
  }

  /** Of the rows that satisfy `p`, one with the smallest key; the earliest of those. */
  function Best<T>(s: seq<T>, key: T -> int, p: T -> bool): Option<T> {
    if s == [] then None else Better(Best(s[..|s| - 1], key, p), s[|s| - 1], key, p)
  }

  function Better<T>(best: Option<T>, x: T, key: T -> int, p: T -> bool): Option<T> {
    if p(x) && (best == None || key(x) < key(best.value)) then Some(x) else best
  }

  // ---- One more row

  lemma BestPush<T>(s: seq<T>, x: T, key: T -> int, p: T -> bool)
    ensures Best(s + [x], key, p) == Better(Best(s, key, p), x, key, p)
  {
    assert (s + [x])[..|s|] == s;
  }

  // ---- Inserting

  lemma {:induction false} InsertHolds<T>(s: seq<T>, x: T, key: T -> int)
    ensures multiset(Insert(s, x, key)) == multiset(s) + multiset{x}
  {
    if s == [] || key(s[|s| - 1]) <= key(x) {
    } else {
      InsertHolds(s[..|s| - 1], x, key);
      assert s == s[..|s| - 1] + [s[|s| - 1]];
    }
  }

  lemma InsertHas<T>(s: seq<T>, x: T, key: T -> int, y: T)
    requires y in Insert(s, x, key)
    ensures y == x || y in s
  {
    InsertHolds(s, x, key);
    assert y in multiset(Insert(s, x, key));
  }

  lemma {:induction false} InsertAscends<T>(s: seq<T>, x: T, key: T -> int)
    requires Ascending(s, key)
    ensures Ascending(Insert(s, x, key), key)
  {
    if s == [] || key(s[|s| - 1]) <= key(x) {
    } else {
      var init, last := s[..|s| - 1], s[|s| - 1];
      InsertAscends(init, x, key);
      var t := Insert(init, x, key);
      forall y | y in t ensures key(y) <= key(last) {
        InsertHas(init, x, key, y);
      }
    }
  }

  lemma {:induction false} InsertWithKey<T>(s: seq<T>, x: T, key: T -> int, v: int)
    ensures WithKey(Insert(s, x, key), key, v) == if key(x) == v then WithKey(s, key, v) + [x] else WithKey(s, key, v)
  {
    if s == [] || key(s[|s| - 1]) <= key(x) {
    } else {
      var init := s[..|s| - 1];
      InsertWithKey(init, x, key, v);
    }
  }

  /** In a sorted list, the first row that satisfies `p` is at least as good as any other. */
  lemma {:induction false} InsertFind<T>(s: seq<T>, x: T, key: T -> int, p: T -> bool)
    requires Ascending(s, key)
    ensures Find(Insert(s, x, key), p) == Better(Find(s, p), x, key, p)
  {
    if s == [] || key(s[|s| - 1]) <= key(x) {
      FindIsRow(s, p);
    } else {
      var init := s[..|s| - 1];
      InsertFind(init, x, key, p);
    }
  }

  lemma {:induction false} FindIsRow<T>(s: seq<T>, p: T -> bool)
    ensures Find(s, p) == None ==> forall x :: x in s ==> !p(x)
    ensures Find(s, p).Some? ==> Find(s, p).value in s && p(Find(s, p).value)
  {
    if s != [] {
      FindIsRow(s[..|s| - 1], p);
      assert s == s[..|s| - 1] + [s[|s| - 1]];
    }
  }

  // ---- Sorting

  lemma {:induction false} SortAscends<T>(s: seq<T>, key: T -> int)
    ensures Ascending(Sort(s, key), key)
  {
    if s != [] {
      SortAscends(s[..|s| - 1], key);
      InsertAscends(Sort(s[..|s| - 1], key), s[|s| - 1], key);
    }
  }

  lemma {:induction false} SortPermutes<T>(s: seq<T>, key: T -> int)
    ensures multiset(Sort(s, key)) == multiset(s)
    ensures |Sort(s, key)| == |s|
    ensures forall x :: x in Sort(s, key) <==> x in s
  {
    if s == [] {
    } else {
      var init := s[..|s| - 1];
      SortPermutes(init, key);
      InsertHolds(Sort(init, key), s[|s| - 1], key);
      assert s == init + [s[|s| - 1]];
      assert |multiset(Sort(s, key))| == |multiset(s)|;
    }
    forall x ensures x in Sort(s, key) <==> x in s {
      assert x in Sort(s, key) <==> x in multiset(Sort(s, key));
    }
  }

  lemma {:induction false} SortIsStable<T>(s: seq<T>, key: T -> int, v: int)
    ensures WithKey(Sort(s, key), key, v) == WithKey(s, key, v)
  {
    if s != [] {
      SortIsStable(s[..|s| - 1], key, v);
      InsertWithKey(Sort(s[..|s| - 1], key), s[|s| - 1], key, v);
    }
  }

  lemma {:induction false} SortOfSorted<T>(s: seq<T>, key: T -> int)
    requires Ascending(s, key)
    ensures Sort(s, key) == s
  {
    if s != [] {
      SortOfSorted(s[..|s| - 1], key);
      assert s == s[..|s| - 1] + [s[|s| - 1]];
    }
  }

  /** The first match in the sorted list is the best match in the unsorted one. */
  lemma {:induction false} FindSorted<T>(s: seq<T>, key: T -> int, p: T -> bool)
    ensures Find(Sort(s, key), p) == Best(s, key, p)
  {
    if s != [] {
      var init := s[..|s| - 1];
      FindSorted(init, key, p);
      SortAscends(init, key);
      InsertFind(Sort(init, key), s[|s| - 1], key, p);
    }
  }

  /** The best match satisfies `p`, and no match has a smaller key. */
  lemma {:induction false} BestMeans<T>(s: seq<T>, key: T -> int, p: T -> bool)
    ensures Best(s, key, p) == None ==> forall x :: x in s ==> !p(x)
    ensures Best(s, key, p).Some? ==> var best := Best(s, key, p).value;
                                      best in s && p(best) && forall x :: x in s && p(x) ==> key(best) <= key(x)
  {
    if s != [] {
      BestMeans(s[..|s| - 1], key, p);
      assert s == s[..|s| - 1] + [s[|s| - 1]];
    }
  }

  // ---- There is only one stable sort

  lemma {:induction false} WithKeyHolds<T>(s: seq<T>, key: T -> int, v: int)
    ensures forall x :: x in WithKey(s, key, v) <==> x in s && key(x) == v
  {
    if s != [] {
      WithKeyHolds(s[..|s| - 1], key, v);
      assert s == s[..|s| - 1] + [s[|s| - 1]];
    }
  }

  lemma LargestKey<T>(t: seq<T>, u: seq<T>, key: T -> int)
    requires t != [] && Ascending(u, key)
    requires forall v :: WithKey(t, key, v) == WithKey(u, key, v)
    ensures u != [] && key(t[|t| - 1]) <= key(u[|u| - 1])
  {
    var k := key(t[|t| - 1]);
    WithKeyHolds(t, key, k);
    WithKeyHolds(u, key, k);
    assert t[|t| - 1] in WithKey(u, key, k);
  }

  lemma SameLast<T>(a: seq<T>, x: T, b: seq<T>, y: T)
    requires a + [x] == b + [y]
    ensures a == b && x == y
  {
    assert a == (a + [x])[..|a|] && b == (b + [y])[..|b|];
    assert x == (a + [x])[|a|] && y == (b + [y])[|b|];
  }

  /** Dropping last rows of equal keys keeps the agreement of two lists on every key. */
  lemma DropLast<T>(t: seq<T>, u: seq<T>, key: T -> int, v: int)
    requires t != [] && u != [] && key(t[|t| - 1]) == key(u[|u| - 1])
    requires WithKey(t, key, v) == WithKey(u, key, v)
    ensures WithKey(t[..|t| - 1], key, v) == WithKey(u[..|u| - 1], key, v)
    ensures v == key(t[|t| - 1]) ==> t[|t| - 1] == u[|u| - 1]
  {
    var x, y := t[|t| - 1], u[|u| - 1];
    if v == key(x) {
      SameLast(WithKey(t[..|t| - 1], key, v), x, WithKey(u[..|u| - 1], key, v), y);
    }
  }

  /** A sorted list that keeps the order of the rows of every key is determined by them. */
  lemma {:induction false} StableSortUnique<T>(t: seq<T>, u: seq<T>, key: T -> int)
    requires Ascending(t, key) && Ascending(u, key)
    requires forall v :: WithKey(t, key, v) == WithKey(u, key, v)
    ensures t == u
  {
    if t == [] {
      if u != [] { LargestKey(u, t, key); }
    } else {
      LargestKey(t, u, key);
      LargestKey(u, t, key);
      var t', u' := t[..|t| - 1], u[..|u| - 1];
      forall v ensures WithKey(t', key, v) == WithKey(u', key, v) {
        DropLast(t, u, key, v);
      }
      DropLast(t, u, key, key(t[|t| - 1]));
      StableSortUnique(t', u', key);
      assert t == t' + [t[|t| - 1]] && u == u' + [u[|u| - 1]];
    }
  }

  ghost predicate StrictlyAscending<T>(s: seq<T>, key: T -> int) {
    forall i, j :: 0 <= i < j < |s| ==> key(s[i]) < key(s[j])
  }

  lemma {:induction false} StrictSortUnique<T(!new)>(t: seq<T>, u: seq<T>, key: T -> int)
    requires StrictlyAscending(t, key) && StrictlyAscending(u, key)
    requires forall x :: x in t <==> x in u
    ensures t == u
  {
    if t == [] {
      if u != [] { NonemptyHas(u); }
    } else {
      assert t[|t| - 1] in u;
      var x, y := t[|t| - 1], u[|u| - 1];
      assert y in t;
      assert key(x) == key(y) && x == y;
      var t', u' := t[..|t| - 1], u[..|u| - 1];
      forall z ensures z in t' <==> z in u' {
        LastIsNew(t, key, z);
        LastIsNew(u, key, z);
      }
      StrictSortUnique(t', u', key);
      assert t == t' + [x] && u == u' + [y];
    }
  }

  lemma LastIsNew<T>(t: seq<T>, key: T -> int, z: T)
    requires t != [] && StrictlyAscending(t, key)
    ensures z in t[..|t| - 1] <==> z in t && z != t[|t| - 1]
  {
    assert t == t[..|t| - 1] + [t[|t| - 1]];
    if z in t[..|t| - 1] {
      var i :| 0 <= i < |t| - 1 && t[i] == z;
      assert key(z) < key(t[|t| - 1]);
    }
  }
}
