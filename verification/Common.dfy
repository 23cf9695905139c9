/** Small vocabulary shared by the models: optional values and facts about sequences. */
module Common {

  datatype Option<+T> = None | Some(value: T) {
    function Or<U>(default: U, f: T -> U): U {
      match this
      case None => default
      case Some(v) => f(v)
    }
  }

  /** A string field counts as present in a boolean test only when it is not empty. */
  predicate Truthy(o: Option<string>) {
    o.Some? && o.value != ""
  }

  /** The characters that the pattern \s matches, which are also those that trim() removes. */
  predicate IsSpace(c: char) {
    || c == ' ' || '\t' <= c <= '\r' || c == '\U{00A0}' || c == '\U{1680}' || '\U{2000}' <= c <= '\U{200A}'
    || c == '\U{2028}' || c == '\U{2029}' || c == '\U{202F}' || c == '\U{205F}' || c == '\U{3000}' || c == '\U{FEFF}'
  }

  /** The same by code points: the white space and the line terminators of the language. */
  lemma SpacesExactly(c: char)
    ensures IsSpace(c) <==>
            c as int in {0x09, 0x0A, 0x0B, 0x0C, 0x0D, 0x20, 0xA0, 0x1680, 0x2000, 0x2001, 0x2002, 0x2003, 0x2004,
                         0x2005, 0x2006, 0x2007, 0x2008, 0x2009, 0x200A, 0x2028, 0x2029, 0x202F, 0x205F, 0x3000, 0xFEFF}
  {
  }

  ghost predicate Distinct<T(!new)>(s: seq<T>) {
    forall i, j :: 0 <= i < j < |s| ==> s[i] != s[j]
  }

  ghost function Elems<T>(s: seq<T>): set<T> {
    set x | x in s
  }

  lemma NonemptyHas<T>(s: seq<T>)
    requires s != []
    ensures exists x :: x in s
  {
    assert s[0] in s;
  }

  lemma Associative<T>(a: seq<T>, b: seq<T>, c: seq<T>)
    ensures (a + b) + c == a + (b + c)
  {
  }

  /** Two sequences that hold the same elements, each once, are permutations of each other. */
  lemma {:induction false} SameElemsSameMultiset<T(!new)>(s: seq<T>, t: seq<T>)
    requires Distinct(s) && Distinct(t)
    requires forall x :: x in s <==> x in t
    ensures multiset(s) == multiset(t)
  {
    DistinctCounts(s);
    DistinctCounts(t);
    assert forall x :: multiset(s)[x] == multiset(t)[x];
  }

  lemma {:induction false} DistinctCounts<T(!new)>(s: seq<T>)
    requires Distinct(s)
    ensures forall x :: multiset(s)[x] == if x in s then 1 else 0
  {
    if s == [] {
    } else {
      var k := |s| - 1;
      assert s == s[..k] + [s[k]];
      DistinctCounts(s[..k]);
    }
  }

  lemma PermutedDistinct<T(!new)>(s: seq<T>, t: seq<T>)
    requires Distinct(s) && multiset(s) == multiset(t)
    ensures Distinct(t)
  {
    DistinctCounts(s);
    forall i, j | 0 <= i < j < |t| ensures t[i] != t[j] {
      assert t == t[..i] + [t[i]] + t[i + 1..j] + [t[j]] + t[j + 1..];
      assert t[i] == t[j] ==> multiset(t)[t[i]] >= 2;
    }
  }

  /** Sequences of distinct elements drawn from a finite set are no longer than the set is large. */
  lemma {:induction false} DistinctFits<T(!new)>(s: seq<T>, pool: set<T>)
    requires Distinct(s)
    requires forall x :: x in s ==> x in pool
    ensures |s| <= |pool|
  {
    if s == [] {
    } else {
      var k := |s| - 1;
      DistinctFits(s[..k], pool - {s[k]});
    }
  }

  /** A sequence of distinct elements is as long as the set of them is large. */
  lemma {:induction false} DistinctSize<T(!new)>(s: seq<T>)
    requires Distinct(s)
    ensures |Elems(s)| == |s|
  {
    if s == [] {
    } else {
      var init := s[..|s| - 1];
      DistinctSize(init);
      assert s == init + [s[|s| - 1]];
      assert Elems(s) == Elems(init) + {s[|s| - 1]};
      assert s[|s| - 1] !in init;
    }
  }

  // ----- Rearrangements -----

  /** The same elements, reordered and repeated at will. */
  ghost predicate SameElements<T(!new)>(p: seq<T>, q: seq<T>) {
    forall x :: x in p <==> x in q
  }

  lemma SameBag<T(!new)>(p: seq<T>, q: seq<T>)
    requires multiset(q) == multiset(p)
    ensures SameElements(p, q)
  {
    forall x ensures x in p <==> x in q {
      assert x in multiset(p) <==> x in multiset(q);
    }
  }

  /** One element moved to the front. */
  function Fronted<T>(s: seq<T>, k: nat): (r: seq<T>)
    requires k < |s|
    ensures multiset(r) == multiset(s) && r != [] && r[0] == s[k]
  {
    assert s == s[..k] + [s[k]] + s[k + 1..];
    [s[k]] + s[..k] + s[k + 1..]
  }

  /** One element moved to the end. */
  function Backed<T>(s: seq<T>, k: nat): (r: seq<T>)
    requires k < |s|
    ensures multiset(r) == multiset(s) && r != [] && r[|r| - 1] == s[k]
  {
    assert s == s[..k] + [s[k]] + s[k + 1..];
    s[..k] + s[k + 1..] + [s[k]]
  }

  lemma FrontedSecond<T>(s: seq<T>, k: nat)
    requires 0 < k < |s|
    ensures |Fronted(s, k)| >= 2 && Fronted(s, k)[1] == s[0]
  {
    assert Fronted(s, k) == [s[k]] + (s[..k] + s[k + 1..]);
  }

  /** Two different elements put in front, in this order. */
  lemma FrontPair<T(!new)>(s: seq<T>, x: T, y: T) returns (q: seq<T>)
    requires x in s && y in s && x != y
    ensures multiset(q) == multiset(s) && |q| >= 2 && q[0] == x && q[1] == y
  {
    var j :| 0 <= j < |s| && s[j] == y;
    var r := Fronted(s, j);
    SameBag(s, r);
    var k :| 0 <= k < |r| && r[k] == x;
    FrontedSecond(r, k);
    q := Fronted(r, k);
  }
}
