/** When the order of writes does not matter, for a cache that is there and for one that is not. */
module MessageConvergence {
  import opened Common
  import opened MessageCache
  import opened MessageCacheProofs

  // ----- Rows by id -----

  /** The defined fields of a row. */
  function Defined(m: Message): map<string, Value> {
    map k | k in m.fields && m.fields[k].Some? :: m.fields[k].value
  }

  type RowMap = map<string, map<string, Value>>

  function RowsById(messages: seq<Message>): RowMap {
    if messages == [] then map[]
    else RowsById(messages[..|messages| - 1])[messages[|messages| - 1].id := Defined(messages[|messages| - 1])]
  }

  /** What one write does to the rows by id: fields already defined stay, the rest is filled in. */
  function Fill(rows: RowMap, m: Message): RowMap {
    rows[m.id := Defined(m) + (if m.id in rows then rows[m.id] else map[])]
  }

  function FillAll(rows: RowMap, messages: seq<Message>): RowMap {
    if messages == [] then rows
    else Fill(FillAll(rows, messages[..|messages| - 1]), messages[|messages| - 1])
  }

  lemma DefinedMerge(existing: Message, incoming: Message)
    ensures Defined(MergeChatMessage(existing, incoming)) == Defined(incoming) + Defined(existing)
  {
  }

  ghost predicate HasId(messages: seq<Message>, id: string) {
    exists i :: 0 <= i < |messages| && messages[i].id == id
  }

  lemma {:induction false} RowsLookup(messages: seq<Message>)
    requires DistinctIds(messages)
    ensures forall id :: id in RowsById(messages) <==> HasId(messages, id)
    ensures forall i :: 0 <= i < |messages| ==>
              messages[i].id in RowsById(messages) && RowsById(messages)[messages[i].id] == Defined(messages[i])
  {
    if messages == [] {
    } else {
      var n := |messages| - 1;
      var init := messages[..n];
      RowsLookup(init);
      forall id ensures HasId(messages, id) <==> HasId(init, id) || id == messages[n].id {
        if i :| 0 <= i < n && init[i].id == id {
          assert messages[i].id == id;
        }
      }
    }
  }

  /** Replacing a row by one with the same id keeps the domain. */
  lemma ReplaceKeepsIds(messages: seq<Message>, k: nat, row: Message)
    requires DistinctIds(messages) && k < |messages| && messages[k].id == row.id
    ensures DistinctIds(messages[k := row])
    ensures RowsById(messages[k := row]).Keys == RowsById(messages).Keys
  {
    var next := messages[k := row];
    assert forall i :: 0 <= i < |messages| ==> next[i].id == messages[i].id;
    RowsLookup(messages);
    RowsLookup(next);
    forall id ensures HasId(next, id) <==> HasId(messages, id) {
      if i :| 0 <= i < |messages| && messages[i].id == id {
        assert next[i].id == id;
      }
    }
    forall id ensures id in RowsById(next).Keys <==> id in RowsById(messages).Keys {
      assert id in RowsById(next) <==> HasId(messages, id);
    }
  }

  lemma ReplaceSets(messages: seq<Message>, k: nat, row: Message)
    requires DistinctIds(messages) && k < |messages| && messages[k].id == row.id
    ensures RowsById(messages[k := row]) == RowsById(messages)[row.id := Defined(row)]
  {
    var next := messages[k := row];
    ReplaceKeepsIds(messages, k, row);
    RowsLookup(messages);
    RowsLookup(next);
    var rows, after := RowsById(messages), RowsById(next);
    assert row.id in rows.Keys;
    forall id | id in after.Keys ensures after[id] == if id == row.id then Defined(row) else rows[id] {
      assert HasId(next, id);
      var i :| 0 <= i < |next| && next[i].id == id;
      if i == k {
        assert after[id] == Defined(next[k]);
      } else {
        assert next[i] == messages[i] && messages[i].id != messages[k].id;
      }
    }
    assert after.Keys == rows[row.id := Defined(row)].Keys;
  }

  lemma ReplaceFills(messages: seq<Message>, k: nat, m: Message)
    requires DistinctIds(messages) && k < |messages| && messages[k].id == m.id
    ensures RowsById(messages[k := MergeChatMessage(messages[k], m)]) == Fill(RowsById(messages), m)
  {
    ReplaceSets(messages, k, MergeChatMessage(messages[k], m));
    DefinedMerge(messages[k], m);
    RowsLookup(messages);
  }

  lemma UpsertFills(messages: seq<Message>, m: Message)
    requires DistinctIds(messages)
    ensures RowsById(UpsertIntoList(messages, m)) == Fill(RowsById(messages), m)
  {
    match FindIndex(messages, m.id)
    case None =>
      RowsLookup(messages);
      assert (messages + [m])[..|messages|] == messages;
      assert Defined(m) + map[] == Defined(m);
    case Some(k) =>
      ReplaceFills(messages, k, m);
  }

  /** The writes a cache takes: all of them when it is there, and else those from the first on that may seed it. */
  function Taken(list: Option<seq<Message>>, writes: seq<Write>): seq<Write> {
    if writes == [] then []
    else
      var before, last := Taken(list, writes[..|writes| - 1]), writes[|writes| - 1];
      if list.None? && before == [] && !last.seedIfMissing then [] else before + [last]
  }

  function Messages(writes: seq<Write>): (r: seq<Message>)
    ensures |r| == |writes| && forall i :: 0 <= i < |r| ==> r[i] == writes[i].message
  {
    seq(|writes|, i requires 0 <= i < |writes| => writes[i].message)
  }

  lemma UpsertListFills(list: Option<seq<Message>>, w: Write)
    requires Unique(list) && (list.Some? || w.seedIfMissing)
    ensures RowsById(RowsOf(UpsertList(list, w))) == Fill(RowsById(RowsOf(list)), w.message)
  {
    UpsertFills(RowsOf(list), w.message);
    assert [] + [w.message] == [w.message];
  }

  lemma MessagesMore(writes: seq<Write>, w: Write)
    ensures Messages(writes + [w]) == Messages(writes) + [w.message]
  {
  }

  lemma FillMore(rows: RowMap, messages: seq<Message>, m: Message)
    ensures FillAll(rows, messages + [m]) == Fill(FillAll(rows, messages), m)
  {
    assert (messages + [m])[..|messages|] == messages;
  }

  lemma {:induction false} RunListFills(list: Option<seq<Message>>, writes: seq<Write>)
    requires Unique(list)
    ensures RunList(list, writes).None? <==> list.None? && Taken(list, writes) == []
    ensures RowsById(RowsOf(RunList(list, writes))) == FillAll(RowsById(RowsOf(list)), Messages(Taken(list, writes)))
  {
    if writes == [] {
    } else {
      var n := |writes| - 1;
      var before := RunList(list, writes[..n]);
      RunListFills(list, writes[..n]);
      RunKeepsUnique(list, writes[..n]);
      if before.Some? || writes[n].seedIfMissing {
        UpsertListFills(before, writes[n]);
        MessagesMore(Taken(list, writes[..n]), writes[n]);
        FillMore(RowsById(RowsOf(list)), Messages(Taken(list, writes[..n])), writes[n].message);
      }
    }
  }

  /** For either cache, whatever the other holds, a run of upserts fills its rows by id with the writes it takes. */
  lemma RunFills(c: Caches, writes: seq<Write>)
    ensures Unique(c.flat) ==>
              RowsById(FlatRows(Run(c, writes))) == FillAll(RowsById(FlatRows(c)), Messages(Taken(c.flat, writes)))
    ensures Unique(PagedList(c)) ==>
              RowsById(PagedRows(Run(c, writes)))
              == FillAll(RowsById(PagedRows(c)), Messages(Taken(PagedList(c), writes)))
  {
    RunIsRunList(c, writes);
    if Unique(c.flat) { RunListFills(c.flat, writes); }
    if Unique(PagedList(c)) { RunListFills(PagedList(c), writes); }
  }

  lemma {:induction false} PresentTakesAll(list: Option<seq<Message>>, writes: seq<Write>)
    requires list.Some?
    ensures Taken(list, writes) == writes
  {
    if writes != [] {
      PresentTakesAll(list, writes[..|writes| - 1]);
    }
  }

  lemma TakenMore(writes: seq<Write>, w: Write)
    ensures var before := Taken(None, writes);
            Taken(None, writes + [w]) == if before == [] && !w.seedIfMissing then [] else before + [w]
  {
    assert (writes + [w])[..|writes|] == writes;
  }

  /** What an absent cache takes starts with a write that may seed, and leaves out none of those. */
  lemma {:induction false} TakenIs(writes: seq<Write>)
    ensures Taken(None, writes) != [] ==> Taken(None, writes)[0].seedIfMissing
    ensures forall w :: w in Taken(None, writes) ==> w in writes
    ensures forall w :: w in writes && w.seedIfMissing ==> w in Taken(None, writes)
  {
    if writes == [] {
    } else {
      var n := |writes| - 1;
      var init, last := writes[..n], writes[n];
      TakenIs(init);
      assert writes == init + [last];
      TakenMore(init, last);
    }
  }

  lemma {:induction false} TakenFromSeed(w: Write, rest: seq<Write>)
    requires w.seedIfMissing
    ensures Taken(None, [w] + rest) == [w] + rest
  {
    if rest == [] {
      assert ([w] + rest)[..0] == [];
    } else {
      var n := |rest| - 1;
      TakenFromSeed(w, rest[..n]);
      assert [w] + rest == ([w] + rest[..n]) + [rest[n]];
      TakenMore([w] + rest[..n], rest[n]);
    }
  }

  ghost predicate NoneSeeds(writes: seq<Write>) {
    forall w :: w in writes ==> !w.seedIfMissing
  }

  lemma {:induction false} NoneTaken(writes: seq<Write>)
    requires NoneSeeds(writes)
    ensures Taken(None, writes) == []
  {
    if writes != [] {
      NoneTaken(writes[..|writes| - 1]);
    }
  }

  /** Writes that may not seed are lost in front of the first that may. */
  lemma {:induction false} LostInFront(lost: seq<Write>, rest: seq<Write>)
    requires NoneSeeds(lost)
    ensures Taken(None, lost + rest) == Taken(None, rest)
  {
    if rest == [] {
      assert lost + rest == lost;
      NoneTaken(lost);
    } else {
      var n := |rest| - 1;
      LostInFront(lost, rest[..n]);
      assert lost + rest == (lost + rest[..n]) + [rest[n]] && rest == rest[..n] + [rest[n]];
      TakenMore(lost + rest[..n], rest[n]);
      TakenMore(rest[..n], rest[n]);
    }
  }

  // ----- Convergence -----

  /** The cache holds a value for this field of this row. */
  predicate Held(rows: RowMap, id: string, key: string) {
    id in rows && key in rows[id]
  }

  predicate Gives(m: Message, id: string, key: string) {
    m.id == id && key in Defined(m)
  }

  /** The value of the first message that gives the field one. */
  function FirstGiven(messages: seq<Message>, id: string, key: string): Option<Value> {
    if messages == [] then None
    else if Gives(messages[0], id, key) then Some(Defined(messages[0])[key])
    else FirstGiven(messages[1..], id, key)
  }

  lemma {:induction false} FirstGivenExactly(messages: seq<Message>, id: string, key: string, v: Value)
    ensures FirstGiven(messages, id, key) == Some(v) <==>
            exists i :: && 0 <= i < |messages| && Gives(messages[i], id, key) && Defined(messages[i])[key] == v
                        && forall j :: 0 <= j < i ==> !Gives(messages[j], id, key)
  {
    if messages == [] {
    } else if Gives(messages[0], id, key) {
    } else {
      var rest := messages[1..];
      FirstGivenExactly(rest, id, key, v);
      if FirstGiven(rest, id, key) == Some(v) {
        var i :| && 0 <= i < |rest| && Gives(rest[i], id, key) && Defined(rest[i])[key] == v
                 && forall j :: 0 <= j < i ==> !Gives(rest[j], id, key);
        forall j | 0 <= j < i + 1 ensures !Gives(messages[j], id, key) {
          assert j > 0 ==> messages[j] == rest[j - 1];
        }
        assert messages[i + 1] == rest[i];
      }
      if i :| && 0 <= i < |messages| && Gives(messages[i], id, key) && Defined(messages[i])[key] == v
              && forall j :: 0 <= j < i ==> !Gives(messages[j], id, key)
      {
        assert rest[i - 1] == messages[i];
        forall j | 0 <= j < i - 1 ensures !Gives(rest[j], id, key) {
          assert rest[j] == messages[j + 1];
        }
      }
    }
  }

  lemma {:induction false} FirstGivenConcat(p: seq<Message>, q: seq<Message>, id: string, key: string)
    ensures FirstGiven(p + q, id, key) ==
            if FirstGiven(p, id, key).Some? then FirstGiven(p, id, key) else FirstGiven(q, id, key)
  {
    if p == [] {
      assert p + q == q;
    } else {
      assert (p + q)[1..] == p[1..] + q;
      FirstGivenConcat(p[1..], q, id, key);
    }
  }

  /** What the rows hold for a field. */
  function Lookup(rows: RowMap, id: string, key: string): Option<Value> {
    if Held(rows, id, key) then Some(rows[id][key]) else None
  }

  lemma {:induction false} FillIds(rows: RowMap, messages: seq<Message>)
    ensures forall id :: id in FillAll(rows, messages) <==> id in rows || HasId(messages, id)
  {
    if messages == [] {
    } else {
      var n := |messages| - 1;
      FillIds(rows, messages[..n]);
      forall id ensures HasId(messages, id) <==> HasId(messages[..n], id) || id == messages[n].id {
        if i :| 0 <= i < n && messages[..n][i].id == id {
          assert messages[i].id == id;
        }
      }
    }
  }

  /**
   * The ids that end up in the cache are those it had and those written, and a field ends up with the
   * value the cache had for it, or else with the first value any message gives it.
   */
  lemma {:induction false} FirstWins(rows: RowMap, messages: seq<Message>, id: string, key: string)
    ensures id in FillAll(rows, messages) <==> id in rows || HasId(messages, id)
    ensures Lookup(FillAll(rows, messages), id, key) ==
            if Held(rows, id, key) then Lookup(rows, id, key) else FirstGiven(messages, id, key)
  {
    FillIds(rows, messages);
    if messages == [] {
    } else {
      var n := |messages| - 1;
      FirstWins(rows, messages[..n], id, key);
      assert messages == messages[..n] + [messages[n]];
      FirstGivenConcat(messages[..n], [messages[n]], id, key);
    }
  }

  /** Two messages agree on a field of one row, or the cache has already decided it. */
  ghost predicate Concur(rows: RowMap, a: Message, b: Message) {
    a.id == b.id ==> forall key :: key in Defined(a) && key in Defined(b) && Defined(a)[key] != Defined(b)[key] ==>
                                   Held(rows, a.id, key)
  }

  ghost predicate Undisputed(rows: RowMap, messages: seq<Message>) {
    forall a, b :: a in messages && b in messages ==> Concur(rows, a, b)
  }

  lemma SameFirst(rows: RowMap, p: seq<Message>, q: seq<Message>, id: string, key: string)
    requires Undisputed(rows, p) && SameElements(p, q) && !Held(rows, id, key)
    requires FirstGiven(p, id, key).Some?
    ensures FirstGiven(q, id, key) == FirstGiven(p, id, key)
  {
    var v := FirstGiven(p, id, key).value;
    FirstGivenExactly(p, id, key, v);
    var i :| 0 <= i < |p| && Gives(p[i], id, key) && Defined(p[i])[key] == v;
    assert p[i] in q;
    var k :| 0 <= k < |q| && q[k] == p[i];
    SomeGiven(q, k, id, key);
    var w := FirstGiven(q, id, key).value;
    FirstGivenExactly(q, id, key, w);
    var j :| 0 <= j < |q| && Gives(q[j], id, key) && Defined(q[j])[key] == w;
    assert q[j] in p && Concur(rows, p[i], q[j]);
  }

  lemma {:induction false} SomeGiven(messages: seq<Message>, k: nat, id: string, key: string)
    requires k < |messages| && Gives(messages[k], id, key)
    ensures FirstGiven(messages, id, key).Some?
  {
    if k > 0 {
      SomeGiven(messages[1..], k - 1, id, key);
    }
  }

  lemma SameLookup(rows: RowMap, p: seq<Message>, q: seq<Message>, id: string, key: string)
    requires Undisputed(rows, p) && SameElements(p, q)
    ensures Lookup(FillAll(rows, p), id, key) == Lookup(FillAll(rows, q), id, key)
  {
    FirstWins(rows, p, id, key);
    FirstWins(rows, q, id, key);
    assert Undisputed(rows, q);
    if !Held(rows, id, key) {
      if FirstGiven(p, id, key).Some? {
        SameFirst(rows, p, q, id, key);
      } else if FirstGiven(q, id, key).Some? {
        SameFirst(rows, q, p, id, key);
      }
    }
  }

  lemma SameIds(rows: RowMap, p: seq<Message>, q: seq<Message>)
    requires SameElements(p, q)
    ensures FillAll(rows, p).Keys == FillAll(rows, q).Keys
  {
    FillIds(rows, p);
    FillIds(rows, q);
    forall id ensures HasId(p, id) <==> HasId(q, id) {
      if i :| 0 <= i < |p| && p[i].id == id {
        assert p[i] in q;
      }
      if i :| 0 <= i < |q| && q[i].id == id {
        assert q[i] in p;
      }
    }
    assert forall id :: id in FillAll(rows, p) <==> id in FillAll(rows, q);
  }

  lemma SameLookupsSameRows(a: RowMap, b: RowMap)
    requires a.Keys == b.Keys
    requires forall id, key :: Lookup(a, id, key) == Lookup(b, id, key)
    ensures a == b
  {
    forall id | id in a.Keys ensures a[id] == b[id] {
      assert id in b.Keys;
      forall key ensures key in a[id] <==> key in b[id] {
        assert Lookup(a, id, key) == Lookup(b, id, key);
      }
      forall key | key in a[id] ensures a[id][key] == b[id][key] {
        assert Lookup(a, id, key) == Lookup(b, id, key);
      }
    }
  }

  lemma FillAllConverges(rows: RowMap, p: seq<Message>, q: seq<Message>)
    requires Undisputed(rows, p) && SameElements(p, q)
    ensures FillAll(rows, p) == FillAll(rows, q)
  {
    SameIds(rows, p, q);
    forall id, key ensures Lookup(FillAll(rows, p), id, key) == Lookup(FillAll(rows, q), id, key) {
      SameLookup(rows, p, q, id, key);
    }
    SameLookupsSameRows(FillAll(rows, p), FillAll(rows, q));
  }

  lemma FrontedMessages(writes: seq<Write>, k: nat)
    requires k < |writes|
    ensures Messages(Fronted(writes, k)) == Fronted(Messages(writes), k)
  {
  }

  /** Of two messages in dispute, whichever comes first prevails. */
  lemma DisputeShows(rows: RowMap, messages: seq<Message>, i: nat, j: nat)
    requires i < |messages| && j < |messages| && !Concur(rows, messages[i], messages[j])
    ensures FillAll(rows, Fronted(messages, i)) != FillAll(rows, Fronted(messages, j))
  {
    var a, b := messages[i], messages[j];
    var key :| key in Defined(a) && key in Defined(b) && Defined(a)[key] != Defined(b)[key] && !Held(rows, a.id, key);
    FirstWins(rows, Fronted(messages, i), a.id, key);
    FirstWins(rows, Fronted(messages, j), a.id, key);
  }

  /** Every order of the writes makes the same rows of the list. */
  ghost predicate OrderImmaterial(list: Option<seq<Message>>, writes: seq<Write>) {
    forall q :: multiset(q) == multiset(writes) ==>
      RowsById(RowsOf(RunList(list, q))) == RowsById(RowsOf(RunList(list, writes)))
  }

  /** And so does every redelivery. */
  ghost predicate Converges(list: Option<seq<Message>>, writes: seq<Write>) {
    forall q :: SameElements(writes, q) ==>
      RowsById(RowsOf(RunList(list, q))) == RowsById(RowsOf(RunList(list, writes)))
  }

  lemma PresentConverges(list: Option<seq<Message>>, p: seq<Write>, q: seq<Write>)
    requires Unique(list) && list.Some? && Undisputed(RowsById(list.value), Messages(p)) && SameElements(p, q)
    ensures RowsById(RowsOf(RunList(list, p))) == RowsById(RowsOf(RunList(list, q)))
  {
    RunListFills(list, p);
    RunListFills(list, q);
    PresentTakesAll(list, p);
    PresentTakesAll(list, q);
    SameMessages(p, q);
    FillAllConverges(RowsById(RowsOf(list)), Messages(p), Messages(q));
  }

  lemma PresentDiverges(list: Option<seq<Message>>, p: seq<Write>)
    requires Unique(list) && list.Some? && !Undisputed(RowsById(list.value), Messages(p))
    ensures !OrderImmaterial(list, p)
  {
    var rows, messages := RowsById(RowsOf(list)), Messages(p);
    var a, b :| a in messages && b in messages && !Concur(rows, a, b);
    var i :| 0 <= i < |messages| && messages[i] == a;
    var j :| 0 <= j < |messages| && messages[j] == b;
    var first, other := Fronted(p, i), Fronted(p, j);
    RunListFills(list, first);
    RunListFills(list, other);
    PresentTakesAll(list, first);
    PresentTakesAll(list, other);
    FrontedMessages(p, i);
    FrontedMessages(p, j);
    DisputeShows(rows, messages, i, j);
    assert multiset(first) == multiset(p) && multiset(other) == multiset(p);
  }

  // ----- Convergence into an absent cache -----

  /** Every write that may seed gives this field of this row a value. */
  ghost predicate EverySeedGives(writes: seq<Write>, id: string, key: string) {
    forall s :: s in writes && s.seedIfMissing ==> Gives(s.message, id, key)
  }

  /** Some write that may seed gives this field of this row this value. */
  ghost predicate SomeSeedGives(writes: seq<Write>, id: string, key: string, v: Value) {
    exists s :: s in writes && s.seedIfMissing && Gives(s.message, id, key) && Defined(s.message)[key] == v
  }

  ghost predicate SomeSeedHas(writes: seq<Write>, id: string) {
    exists s :: s in writes && s.seedIfMissing && s.message.id == id
  }

  /** It makes no difference whether this message comes in time or is lost. */
  ghost predicate Dispensable(writes: seq<Write>, m: Message) {
    && SomeSeedHas(writes, m.id)
    && forall key :: key in Defined(m) ==>
         SomeSeedGives(writes, m.id, key, Defined(m)[key]) || EverySeedGives(writes, m.id, key)
  }

  ghost predicate SeedsConcur(writes: seq<Write>) {
    forall a, b :: a in writes && b in writes && a.seedIfMissing && b.seedIfMissing ==>
      Concur(map[], a.message, b.message)
  }

  /** No write may seed, or those that may settle everything: they agree, and no other adds anything to them. */
  ghost predicate SeedsSettle(writes: seq<Write>) {
    || NoneSeeds(writes)
    || (SeedsConcur(writes) && forall n :: n in writes && !n.seedIfMissing ==> Dispensable(writes, n.message))
  }

  /** The order of these writes into this list does not matter. */
  ghost predicate Steady(list: Option<seq<Message>>, writes: seq<Write>) {
    if list.Some? then Undisputed(RowsById(list.value), Messages(writes)) else SeedsSettle(writes)
  }

  /** The message of a taken write, with the write. */
  lemma TakenMessage(writes: seq<Write>, i: nat) returns (w: Write)
    requires i < |Messages(Taken(None, writes))|
    ensures w == Taken(None, writes)[i] && w.message == Messages(Taken(None, writes))[i] && w in writes
    ensures i == 0 ==> w.seedIfMissing
  {
    TakenIs(writes);
    w := Taken(None, writes)[i];
    assert w in Taken(None, writes);
  }

  lemma SeedTaken(writes: seq<Write>, s: Write) returns (i: nat)
    requires s in writes && s.seedIfMissing
    ensures i < |Messages(Taken(None, writes))| && Messages(Taken(None, writes))[i] == s.message
  {
    TakenIs(writes);
    i :| 0 <= i < |Taken(None, writes)| && Taken(None, writes)[i] == s;
  }

  /** Nobody but the seeds decides a field: whoever gives it first gives the value of a seed. */
  lemma FirstIsSeeds(writes: seq<Write>, q: seq<Write>, id: string, key: string)
    requires SeedsSettle(writes) && SameElements(writes, q)
    requires FirstGiven(Messages(Taken(None, q)), id, key).Some?
    ensures SomeSeedGives(writes, id, key, FirstGiven(Messages(Taken(None, q)), id, key).value)
  {
    var taken := Messages(Taken(None, q));
    var v := FirstGiven(taken, id, key).value;
    FirstGivenExactly(taken, id, key, v);
    var i :| && 0 <= i < |taken| && Gives(taken[i], id, key) && Defined(taken[i])[key] == v
             && forall j :: 0 <= j < i ==> !Gives(taken[j], id, key);
    var w := TakenMessage(q, i);
    var first := TakenMessage(q, 0);
    assert w in writes && first in writes;
    if !w.seedIfMissing {
      assert Dispensable(writes, w.message);
      assert !Gives(first.message, id, key);
      assert !EverySeedGives(writes, id, key);
    }
  }

  lemma SeedIsGiven(writes: seq<Write>, q: seq<Write>, id: string, key: string, v: Value)
    requires SameElements(writes, q) && SomeSeedGives(writes, id, key, v)
    ensures FirstGiven(Messages(Taken(None, q)), id, key).Some?
  {
    var s :| s in writes && s.seedIfMissing && Gives(s.message, id, key) && Defined(s.message)[key] == v;
    var i := SeedTaken(q, s);
    SomeGiven(Messages(Taken(None, q)), i, id, key);
  }

  lemma SettledFirst(writes: seq<Write>, q: seq<Write>, id: string, key: string)
    requires SeedsSettle(writes) && !NoneSeeds(writes) && SameElements(writes, q)
    ensures FirstGiven(Messages(Taken(None, q)), id, key) == FirstGiven(Messages(Taken(None, writes)), id, key)
  {
    var x, y := FirstGiven(Messages(Taken(None, q)), id, key), FirstGiven(Messages(Taken(None, writes)), id, key);
    if x.Some? {
      FirstIsSeeds(writes, q, id, key);
      SeedIsGiven(writes, writes, id, key, x.value);
    }
    if y.Some? {
      FirstIsSeeds(writes, writes, id, key);
      SeedIsGiven(writes, q, id, key, y.value);
      OneSeedValue(writes, id, key, x.value, y.value);
    }
  }

  lemma OneSeedValue(writes: seq<Write>, id: string, key: string, v: Value, w: Value)
    requires SeedsConcur(writes) && SomeSeedGives(writes, id, key, v) && SomeSeedGives(writes, id, key, w)
    ensures v == w
  {
    var a :| a in writes && a.seedIfMissing && Gives(a.message, id, key) && Defined(a.message)[key] == v;
    var b :| b in writes && b.seedIfMissing && Gives(b.message, id, key) && Defined(b.message)[key] == w;
    assert Concur(map[], a.message, b.message);
  }

  lemma SettledIds(writes: seq<Write>, q: seq<Write>, id: string)
    requires SeedsSettle(writes) && !NoneSeeds(writes) && SameElements(writes, q)
    ensures HasId(Messages(Taken(None, q)), id) <==> SomeSeedHas(writes, id)
  {
    var taken := Messages(Taken(None, q));
    if i :| 0 <= i < |taken| && taken[i].id == id {
      var w := TakenMessage(q, i);
      assert w in writes;
      assert w.seedIfMissing || Dispensable(writes, w.message);
    }
    if s :| s in writes && s.seedIfMissing && s.message.id == id {
      var i := SeedTaken(q, s);
    }
  }

  lemma SettledFills(writes: seq<Write>, q: seq<Write>)
    requires SeedsSettle(writes) && SameElements(writes, q)
    ensures FillAll(map[], Messages(Taken(None, q))) == FillAll(map[], Messages(Taken(None, writes)))
  {
    if NoneSeeds(writes) {
      NoneTaken(writes);
      NoneTaken(q);
    } else {
      var a, b := FillAll(map[], Messages(Taken(None, q))), FillAll(map[], Messages(Taken(None, writes)));
      forall id, key ensures Lookup(a, id, key) == Lookup(b, id, key) && (id in a <==> id in b) {
        FirstWins(map[], Messages(Taken(None, q)), id, key);
        FirstWins(map[], Messages(Taken(None, writes)), id, key);
        SettledFirst(writes, q, id, key);
        SettledIds(writes, q, id);
        SettledIds(writes, writes, id);
      }
      SameKeys(a, b);
      SameLookupsSameRows(a, b);
    }
  }

  lemma SameKeys(a: RowMap, b: RowMap)
    requires forall id, key :: Lookup(a, id, key) == Lookup(b, id, key) && (id in a <==> id in b)
    ensures a.Keys == b.Keys
  {
    forall id ensures id in a.Keys <==> id in b.Keys {
      assert Lookup(a, id, "") == Lookup(b, id, "");
    }
  }

  lemma AbsentConverges(p: seq<Write>, q: seq<Write>)
    requires SeedsSettle(p) && SameElements(p, q)
    ensures RowsById(RowsOf(RunList(None, p))) == RowsById(RowsOf(RunList(None, q)))
  {
    RunListFills(None, p);
    RunListFills(None, q);
    SettledFills(p, q);
  }

  /** The writes that may seed, or those that may not, in order. */
  function Sorted(writes: seq<Write>, seeds: bool): (r: seq<Write>)
    ensures forall w :: w in r ==> w in writes && w.seedIfMissing == seeds
  {
    if writes == [] then []
    else
      var before, last := Sorted(writes[..|writes| - 1], seeds), writes[|writes| - 1];
      if last.seedIfMissing == seeds then before + [last] else before
  }

  /** Those that may seed come last, so the others are lost. */
  function SeedsLast(writes: seq<Write>): seq<Write> {
    Sorted(writes, false) + Sorted(writes, true)
  }

  lemma {:induction false} SeedsLastPermutes(writes: seq<Write>)
    ensures multiset(SeedsLast(writes)) == multiset(writes)
  {
    if writes == [] {
    } else {
      SeedsLastPermutes(writes[..|writes| - 1]);
      assert writes == writes[..|writes| - 1] + [writes[|writes| - 1]];
    }
  }

  lemma SeedsLastTaken(writes: seq<Write>)
    ensures forall w :: w in Taken(None, SeedsLast(writes)) ==> w in writes && w.seedIfMissing
  {
    LostInFront(Sorted(writes, false), Sorted(writes, true));
    TakenIs(Sorted(writes, true));
  }

  lemma SeedFirstTaken(writes: seq<Write>, k: nat)
    requires k < |writes| && writes[k].seedIfMissing
    ensures Taken(None, Fronted(writes, k)) == Fronted(writes, k)
  {
    assert Fronted(writes, k) == [writes[k]] + Fronted(writes, k)[1..];
    TakenFromSeed(writes[k], Fronted(writes, k)[1..]);
  }

  /** Two seeds in dispute: whichever comes first prevails. */
  lemma SeedsDispute(writes: seq<Write>, i: nat, j: nat)
    requires i < |writes| && j < |writes| && writes[i].seedIfMissing && writes[j].seedIfMissing
    requires !Concur(map[], writes[i].message, writes[j].message)
    ensures RowsById(RowsOf(RunList(None, Fronted(writes, i)))) != RowsById(RowsOf(RunList(None, Fronted(writes, j))))
  {
    RunListFills(None, Fronted(writes, i));
    RunListFills(None, Fronted(writes, j));
    SeedFirstTaken(writes, i);
    SeedFirstTaken(writes, j);
    FrontedMessages(writes, i);
    FrontedMessages(writes, j);
    DisputeShows(map[], Messages(writes), i, j);
  }

  /** Seed s, directly followed by n, and then the others. */
  lemma SeedThen(writes: seq<Write>, s: Write, n: Write) returns (q: seq<Write>)
    requires s in writes && n in writes && s.seedIfMissing && !n.seedIfMissing
    ensures multiset(q) == multiset(writes) && |q| >= 2 && q[0] == s && q[1] == n && Taken(None, q) == q
  {
    q := FrontPair(writes, s, n);
    TakenFromSeed(q[0], q[1..]);
    assert q == [q[0]] + q[1..];
  }

  /** What may not seed is lost in front of all seeds and kept behind one. */
  lemma MixedSeedsDiverge(writes: seq<Write>, s: Write, n: Write) returns (lost: seq<Write>, kept: seq<Write>)
    requires s in writes && n in writes && s.seedIfMissing && !n.seedIfMissing && !SomeSeedHas(writes, n.message.id)
    ensures multiset(lost) == multiset(writes) && multiset(kept) == multiset(writes)
    ensures n.message.id !in RowsById(RowsOf(RunList(None, lost)))
    ensures n.message.id in RowsById(RowsOf(RunList(None, kept)))
  {
    lost := SeedsLast(writes);
    kept := SeedThen(writes, s, n);
    SeedsLastPermutes(writes);
    RunListFills(None, lost);
    RunListFills(None, kept);
    FillIds(map[], Messages(Taken(None, lost)));
    FillIds(map[], Messages(Taken(None, kept)));
    SeedsLastTaken(writes);
    forall i | 0 <= i < |Messages(Taken(None, lost))| ensures Messages(Taken(None, lost))[i].id != n.message.id {
      assert Taken(None, lost)[i] in Taken(None, lost);
    }
    assert Messages(kept)[1] == n.message;
  }

  /** A field that may be lost or not, though its row is not lost. */
  lemma MixedFieldsDiverge(writes: seq<Write>, s: Write, n: Write, key: string)
    returns (lost: seq<Write>, kept: seq<Write>)
    requires s in writes && n in writes && s.seedIfMissing && !n.seedIfMissing && key in Defined(n.message)
    requires !Gives(s.message, n.message.id, key)
    requires !SomeSeedGives(writes, n.message.id, key, Defined(n.message)[key])
    ensures multiset(lost) == multiset(writes) && multiset(kept) == multiset(writes)
    ensures var v := Some(Defined(n.message)[key]);
            && Lookup(RowsById(RowsOf(RunList(None, lost))), n.message.id, key) != v
            && Lookup(RowsById(RowsOf(RunList(None, kept))), n.message.id, key) == v
  {
    var id, v := n.message.id, Defined(n.message)[key];
    lost := SeedsLast(writes);
    kept := SeedThen(writes, s, n);
    SeedsLastPermutes(writes);
    RunListFills(None, lost);
    RunListFills(None, kept);
    FirstWins(map[], Messages(Taken(None, lost)), id, key);
    FirstWins(map[], Messages(kept), id, key);
    FirstGivenExactly(Messages(kept), id, key, v);
    assert Messages(kept)[0] == s.message && Messages(kept)[1] == n.message;
    FirstGivenExactly(Messages(Taken(None, lost)), id, key, v);
    SeedsLastTaken(writes);
    forall i | 0 <= i < |Messages(Taken(None, lost))| && Gives(Messages(Taken(None, lost))[i], id, key)
      ensures Defined(Messages(Taken(None, lost))[i])[key] != v
    {
      assert Taken(None, lost)[i] in Taken(None, lost);
    }
  }

  lemma AbsentDiverges(writes: seq<Write>)
    requires !SeedsSettle(writes)
    ensures !OrderImmaterial(None, writes)
  {
    if !SeedsConcur(writes) {
      var a, b :| && a in writes && b in writes && a.seedIfMissing && b.seedIfMissing
                  && !Concur(map[], a.message, b.message);
      var i :| 0 <= i < |writes| && writes[i] == a;
      var j :| 0 <= j < |writes| && writes[j] == b;
      SeedsDispute(writes, i, j);
      assert multiset(Fronted(writes, i)) == multiset(Fronted(writes, j)) == multiset(writes);
    } else {
      var n :| n in writes && !n.seedIfMissing && !Dispensable(writes, n.message);
      IndispensableShows(writes, n);
    }
  }

  lemma IndispensableShows(writes: seq<Write>, n: Write)
    requires !NoneSeeds(writes) && n in writes && !n.seedIfMissing && !Dispensable(writes, n.message)
    ensures !OrderImmaterial(None, writes)
  {
    var lost, kept;
    if !SomeSeedHas(writes, n.message.id) {
      var s :| s in writes && s.seedIfMissing;
      lost, kept := MixedSeedsDiverge(writes, s, n);
    } else {
      var key :| && key in Defined(n.message) && !SomeSeedGives(writes, n.message.id, key, Defined(n.message)[key])
                 && !EverySeedGives(writes, n.message.id, key);
      var s :| s in writes && s.seedIfMissing && !Gives(s.message, n.message.id, key);
      lost, kept := MixedFieldsDiverge(writes, s, n, key);
    }
    assert multiset(lost) == multiset(writes) && multiset(kept) == multiset(writes);
    assert RowsById(RowsOf(RunList(None, lost))) != RowsById(RowsOf(RunList(None, kept)));
  }

  // ----- Convergence of any cache -----

  lemma ListConverges(list: Option<seq<Message>>, p: seq<Write>, q: seq<Write>)
    requires Unique(list) && Steady(list, p) && SameElements(p, q)
    ensures RowsById(RowsOf(RunList(list, p))) == RowsById(RowsOf(RunList(list, q)))
  {
    if list.Some? {
      PresentConverges(list, p, q);
    } else {
      AbsentConverges(p, q);
    }
  }

  /**
   * For any list, there or not, whether the order of the writes is immaterial, and whether redelivery is
   * harmless too, depends on the same thing. When it is there, no two messages may dispute a field of one row
   * that it holds no value for. When it is not, the writes that may seed it have to settle everything.
   */
  lemma ListConvergesExactly(list: Option<seq<Message>>, writes: seq<Write>)
    requires Unique(list)
    ensures OrderImmaterial(list, writes) <==> Steady(list, writes)
    ensures Converges(list, writes) <==> Steady(list, writes)
  {
    if Steady(list, writes) {
      forall q | SameElements(writes, q)
        ensures RowsById(RowsOf(RunList(list, q))) == RowsById(RowsOf(RunList(list, writes)))
      {
        ListConverges(list, writes, q);
      }
    } else if list.Some? {
      PresentDiverges(list, writes);
    } else {
      AbsentDiverges(writes);
    }
    if Converges(list, writes) {
      forall q | multiset(q) == multiset(writes)
        ensures RowsById(RowsOf(RunList(list, q))) == RowsById(RowsOf(RunList(list, writes)))
      {
        SameBag(writes, q);
      }
    }
  }

  /** Steady writes lead either cache, whatever the other holds, to the same rows in every order and with any
    * redelivery. */
  lemma WritesConverge(c: Caches, p: seq<Write>, q: seq<Write>)
    requires SameElements(p, q)
    ensures Unique(c.flat) && Steady(c.flat, p) ==>
              RowsById(FlatRows(Run(c, p))) == RowsById(FlatRows(Run(c, q)))
    ensures Unique(PagedList(c)) && Steady(PagedList(c), p) ==>
              RowsById(PagedRows(Run(c, p))) == RowsById(PagedRows(Run(c, q)))
  {
    RunIsRunList(c, p);
    RunIsRunList(c, q);
    if Unique(c.flat) && Steady(c.flat, p) {
      ListConverges(c.flat, p, q);
    }
    if Unique(PagedList(c)) && Steady(PagedList(c), p) {
      ListConverges(PagedList(c), p, q);
    }
  }

  lemma FlatConvergesExactly(c: Caches, writes: seq<Write>)
    requires Unique(c.flat)
    ensures (forall q :: multiset(q) == multiset(writes) ==>
               RowsById(FlatRows(Run(c, q))) == RowsById(FlatRows(Run(c, writes))))
            <==> Steady(c.flat, writes)
  {
    ListConvergesExactly(c.flat, writes);
    RunIsRunList(c, writes);
    if OrderImmaterial(c.flat, writes) {
      forall q | multiset(q) == multiset(writes)
        ensures RowsById(FlatRows(Run(c, q))) == RowsById(FlatRows(Run(c, writes)))
      {
        RunIsRunList(c, q);
      }
    } else {
      var q :| && multiset(q) == multiset(writes)
               && RowsById(RowsOf(RunList(c.flat, q))) != RowsById(RowsOf(RunList(c.flat, writes)));
      RunIsRunList(c, q);
      assert RowsById(FlatRows(Run(c, q))) != RowsById(FlatRows(Run(c, writes)));
    }
  }

  lemma PagedConvergesExactly(c: Caches, writes: seq<Write>)
    requires Unique(PagedList(c))
    ensures (forall q :: multiset(q) == multiset(writes) ==>
               RowsById(PagedRows(Run(c, q))) == RowsById(PagedRows(Run(c, writes))))
            <==> Steady(PagedList(c), writes)
  {
    ListConvergesExactly(PagedList(c), writes);
    RunIsRunList(c, writes);
    if OrderImmaterial(PagedList(c), writes) {
      forall q | multiset(q) == multiset(writes)
        ensures RowsById(PagedRows(Run(c, q))) == RowsById(PagedRows(Run(c, writes)))
      {
        RunIsRunList(c, q);
      }
    } else {
      var q :| && multiset(q) == multiset(writes)
               && RowsById(RowsOf(RunList(PagedList(c), q))) != RowsById(RowsOf(RunList(PagedList(c), writes)));
      RunIsRunList(c, q);
      assert RowsById(PagedRows(Run(c, q))) != RowsById(PagedRows(Run(c, writes)));
    }
  }

  /** And when they are not steady, some order leads it elsewhere. */
  lemma WritesConvergeExactly(c: Caches, writes: seq<Write>)
    ensures Unique(c.flat) ==>
              ((forall q :: multiset(q) == multiset(writes) ==>
                  RowsById(FlatRows(Run(c, q))) == RowsById(FlatRows(Run(c, writes))))
               <==> Steady(c.flat, writes))
    ensures Unique(PagedList(c)) ==>
              ((forall q :: multiset(q) == multiset(writes) ==>
                  RowsById(PagedRows(Run(c, q))) == RowsById(PagedRows(Run(c, writes))))
               <==> Steady(PagedList(c), writes))
  {
    if Unique(c.flat) { FlatConvergesExactly(c, writes); }
    if Unique(PagedList(c)) { PagedConvergesExactly(c, writes); }
  }

  lemma SameMessages(p: seq<Write>, q: seq<Write>)
    requires SameElements(p, q)
    ensures SameElements(Messages(p), Messages(q))
  {
    forall m ensures m in Messages(p) <==> m in Messages(q) {
      InMessages(p, m);
      InMessages(q, m);
    }
  }

  /** Two caches in step stay in step, and converge together exactly when the writes are steady. */
  lemma PairedWritesConverge(c: Caches, writes: seq<Write>)
    requires Agree(c) && Paired(c)
    ensures forall q :: FlatRows(Run(c, q)) == PagedRows(Run(c, q))
    ensures (forall q :: SameElements(writes, q) ==>
               RowsById(FlatRows(Run(c, q))) == RowsById(FlatRows(Run(c, writes))))
            <==> Steady(c.flat, writes)
  {
    forall q ensures FlatRows(Run(c, q)) == PagedRows(Run(c, q)) {
      RunKeepsStep(c, q);
    }
    ListConvergesExactly(c.flat, writes);
    RunIsRunList(c, writes);
    if Converges(c.flat, writes) {
      forall q | SameElements(writes, q) ensures RowsById(FlatRows(Run(c, q))) == RowsById(FlatRows(Run(c, writes))) {
        RunIsRunList(c, q);
      }
    } else {
      var q :| && SameElements(writes, q)
               && RowsById(RowsOf(RunList(c.flat, q))) != RowsById(RowsOf(RunList(c.flat, writes)));
      RunIsRunList(c, q);
    }
  }

  lemma InMessages(writes: seq<Write>, m: Message)
    ensures m in Messages(writes) <==> exists w :: w in writes && w.message == m
  {
    if w :| w in writes && w.message == m {
      var i :| 0 <= i < |writes| && writes[i] == w;
      assert Messages(writes)[i] == m;
    }
    if m in Messages(writes) {
      var i :| 0 <= i < |writes| && Messages(writes)[i] == m;
      assert writes[i] in writes;
    }
  }

  lemma FillTwice(rows: RowMap, a: Message, b: Message)
    requires a.id == b.id
    ensures var held: map<string, Value> := if a.id in rows then rows[a.id] else map[];
            Fill(Fill(rows, a), b) == rows[a.id := Defined(b) + (Defined(a) + held)]
  {
    var held: map<string, Value> := if a.id in rows then rows[a.id] else map[];
    var once := rows[a.id := Defined(a) + held];
    assert once[a.id := Defined(b) + once[a.id]] == rows[a.id := Defined(b) + (Defined(a) + held)];
  }

  lemma SameUpdate(rows: RowMap, id: string, x: map<string, Value>, y: map<string, Value>)
    ensures rows[id := x] == rows[id := y] <==> x == y
  {
    assert rows[id := x][id] == x && rows[id := y][id] == y;
  }

  /** Two writes commute exactly when they agree, or the cache has already decided, wherever both define a
    * field of one row. */
  lemma TwoFillsCommuteExactly(rows: RowMap, a: Message, b: Message)
    ensures Fill(Fill(rows, a), b) == Fill(Fill(rows, b), a) <==> Concur(rows, a, b)
  {
    if a.id == b.id {
      FillsOfOneRow(rows, a, b);
    } else {
      FillsOfTwoRows(rows, a, b);
    }
  }

  lemma FillsOfTwoRows(rows: RowMap, a: Message, b: Message)
    requires a.id != b.id
    ensures Fill(Fill(rows, a), b) == Fill(Fill(rows, b), a)
  {
  }

  lemma FillsOfOneRow(rows: RowMap, a: Message, b: Message)
    requires a.id == b.id
    ensures Fill(Fill(rows, a), b) == Fill(Fill(rows, b), a) <==> Concur(rows, a, b)
  {
    var held: map<string, Value> := if a.id in rows then rows[a.id] else map[];
    FillTwice(rows, a, b);
    FillTwice(rows, b, a);
    SameUpdate(rows, a.id, Defined(b) + (Defined(a) + held), Defined(a) + (Defined(b) + held));
    OverlaysCommuteExactly(Defined(a), Defined(b), held);
    ConcurOverHeld(rows, a, b, held);
  }

  lemma ConcurOverHeld(rows: RowMap, a: Message, b: Message, held: map<string, Value>)
    requires a.id == b.id && held == if a.id in rows then rows[a.id] else map[]
    ensures Concur(rows, a, b) <==>
            forall key :: key in Defined(a) && key in Defined(b) && Defined(a)[key] != Defined(b)[key] ==> key in held
  {
  }

  lemma OverlaysCommuteExactly(a: map<string, Value>, b: map<string, Value>, held: map<string, Value>)
    ensures b + (a + held) == a + (b + held) <==> forall key :: key in a && key in b && a[key] != b[key] ==> key in held
  {
    var x, y := b + (a + held), a + (b + held);
    assert x.Keys == y.Keys;
    assert forall key :: key in x ==> x[key] == if key in held then held[key] else if key in a then a[key] else b[key];
    assert forall key :: key in y ==> y[key] == if key in held then held[key] else if key in b then b[key] else a[key];
  }

  /** Everything defined before is still there afterwards, with the same value. */
  ghost predicate Keeps(before: RowMap, after: RowMap) {
    forall id, key :: id in before && key in before[id] ==>
      id in after && key in after[id] && after[id][key] == before[id][key]
  }

  lemma {:induction false} RunListKeeps(list: Option<seq<Message>>, writes: seq<Write>)
    requires Unique(list)
    ensures Keeps(RowsById(RowsOf(list)), RowsById(RowsOf(RunList(list, writes))))
  {
    if writes == [] {
    } else {
      var n := |writes| - 1;
      RunListKeeps(list, writes[..n]);
      RunKeepsUnique(list, writes[..n]);
      var before := RunList(list, writes[..n]);
      if before.Some? || writes[n].seedIfMissing {
        UpsertListFills(before, writes[n]);
      }
    }
  }

  /** In either cache, a field once defined is never changed, whatever is written and whatever the other cache holds. */
  lemma DefinedFieldsStay(c: Caches, writes: seq<Write>)
    ensures Unique(c.flat) ==> Keeps(RowsById(FlatRows(c)), RowsById(FlatRows(Run(c, writes))))
    ensures Unique(PagedList(c)) ==> Keeps(RowsById(PagedRows(c)), RowsById(PagedRows(Run(c, writes))))
  {
    RunIsRunList(c, writes);
    if Unique(c.flat) { RunListKeeps(c.flat, writes); }
    if Unique(PagedList(c)) { RunListKeeps(PagedList(c), writes); }
  }

  // ----- Absent caches -----

  const ABSENT := Caches(None, None)

  ghost predicate DistinctWrites(writes: seq<Write>) {
    forall i, j :: 0 <= i < j < |writes| ==> writes[i].message.id != writes[j].message.id
  }

  lemma OthersUnseeded(writes: seq<Write>, n: Write)
    requires DistinctWrites(writes) && n in writes && !n.seedIfMissing
    ensures !SomeSeedHas(writes, n.message.id)
  {
    var j :| 0 <= j < |writes| && writes[j] == n;
    forall s | s in writes && s.seedIfMissing ensures s.message.id != n.message.id {
      var i :| 0 <= i < |writes| && writes[i] == s;
      assert i != j;
    }
  }

  lemma DistinctSettle(writes: seq<Write>)
    requires DistinctWrites(writes)
    ensures SeedsSettle(writes) <==> NoneSeeds(writes) || forall w :: w in writes ==> w.seedIfMissing
  {
    forall a, b | a in writes && b in writes && a.message.id == b.message.id ensures a == b {
      var i, j :| 0 <= i < |writes| && 0 <= j < |writes| && writes[i] == a && writes[j] == b;
      assert i == j;
    }
    forall n | n in writes && !n.seedIfMissing ensures !Dispensable(writes, n.message) {
      OthersUnseeded(writes, n);
    }
  }

  /** Into absent caches, the order of writes of distinct messages is immaterial exactly when all may seed or
    * none may. */
  lemma AbsentConvergesExactly(writes: seq<Write>)
    requires DistinctWrites(writes)
    ensures (forall q :: multiset(q) == multiset(writes) ==>
               RowsById(FlatRows(Run(ABSENT, q))) == RowsById(FlatRows(Run(ABSENT, writes))))
            <==> NoneSeeds(writes) || forall w :: w in writes ==> w.seedIfMissing
  {
    FlatConvergesExactly(ABSENT, writes);
    DistinctSettle(writes);
  }

  /**
   * One message by two routes into caches that are absent, the send that seeds them and its echo that does
   * not: they converge, in every order and with any redelivery, exactly when the echo defines no field that
   * the send lacks.
   */
  lemma SendAndEchoExactly(sent: Message, echo: Message)
    requires sent.id == echo.id
    ensures Converges(None, [Write(sent, true), Write(echo, false)]) <==>
            forall key :: key in Defined(echo) ==> key in Defined(sent)
  {
    var writes := [Write(sent, true), Write(echo, false)];
    ListConvergesExactly(None, writes);
    EchoDispensable(writes, sent, echo);
    assert writes[0] in writes && writes[1] in writes;
    assert SeedsConcur(writes);
  }

  lemma EchoDispensable(writes: seq<Write>, sent: Message, echo: Message)
    requires sent.id == echo.id && writes == [Write(sent, true), Write(echo, false)]
    ensures Dispensable(writes, echo) <==> forall key :: key in Defined(echo) ==> key in Defined(sent)
  {
    assert writes[0] in writes;
    forall key | key in Defined(echo)
      ensures SomeSeedGives(writes, echo.id, key, Defined(echo)[key]) || EverySeedGives(writes, echo.id, key)
              <==> key in Defined(sent)
    {
    }
  }

  /** A field that only the echo defines is there when the send comes first, and lost when the echo does. */
  lemma EchoIsLost(sent: Message, echo: Message, key: string)
    requires sent.id == echo.id && key in Defined(echo) && key !in Defined(sent)
    ensures var s, n := Write(sent, true), Write(echo, false);
            && Lookup(RowsById(FlatRows(Run(ABSENT, [s, n]))), sent.id, key) == Some(Defined(echo)[key])
            && Lookup(RowsById(FlatRows(Run(ABSENT, [n, s]))), sent.id, key) == None
  {
    var s, n := Write(sent, true), Write(echo, false);
    EchoTaken(s, n);
    AbsentLookup([s, n], [sent, echo], sent.id, key);
    AbsentLookup([n, s], [sent], sent.id, key);
    assert [sent, echo][1..] == [echo] && [sent][1..] == [];
  }

  lemma EchoTaken(s: Write, n: Write)
    requires s.seedIfMissing && !n.seedIfMissing
    ensures Messages(Taken(None, [s, n])) == [s.message, n.message]
    ensures Messages(Taken(None, [n, s])) == [s.message]
  {
    TakenFromSeed(s, [n]);
    TakenFromSeed(s, []);
    LostInFront([n], [s]);
    assert [s] + [n] == [s, n] && [n] + [s] == [n, s] && [s] + [] == [s];
  }

  lemma AbsentLookup(writes: seq<Write>, messages: seq<Message>, id: string, key: string)
    requires Messages(Taken(None, writes)) == messages
    ensures Lookup(RowsById(FlatRows(Run(ABSENT, writes))), id, key) == FirstGiven(messages, id, key)
  {
    RunIsRunList(ABSENT, writes);
    RunListFills(None, writes);
    FirstWins(map[], messages, id, key);
  }
}
