/** The two caches never drift apart, and a write delivered twice does no more than once. */
module MessageCacheProofs {
  import opened Common
  import opened MessageCache

  ghost predicate DistinctIds(messages: seq<Message>) {
    forall i, j :: 0 <= i < j < |messages| ==> messages[i].id != messages[j].id
  }

  /** The pages read oldest first: page 0 is the newest window. */
  function Flatten(pages: seq<Page>): seq<Message> {
    if pages == [] then [] else Flatten(pages[1..]) + pages[0].messages
  }

  /** What the paged cache holds, as one list; None when it holds no page. */
  function PagedList(c: Caches): Option<seq<Message>> {
    if HasPages(c) then Some(Flatten(c.paged.value.pages)) else None
  }

  function RowsOf(list: Option<seq<Message>>): seq<Message> {
    if list.Some? then list.value else []
  }

  function FlatRows(c: Caches): seq<Message> {
    RowsOf(c.flat)
  }

  function PagedRows(c: Caches): seq<Message> {
    RowsOf(PagedList(c))
  }

  ghost predicate Unique(list: Option<seq<Message>>) {
    DistinctIds(RowsOf(list))
  }

  /** Both caches hold the same rows in the same order, no row twice. */
  ghost predicate Agree(c: Caches) {
    FlatRows(c) == PagedRows(c) && DistinctIds(FlatRows(c))
  }

  /** Both are there, or neither. */
  ghost predicate Paired(c: Caches) {
    c.flat.Some? <==> HasPages(c)
  }

  /** One write into one cache, whichever it is, seen as a list that may be missing. */
  function UpsertList(list: Option<seq<Message>>, w: Write): Option<seq<Message>> {
    if list.Some? then Some(UpsertIntoList(list.value, w.message))
    else if w.seedIfMissing then Some([w.message]) else None
  }

  function RunList(list: Option<seq<Message>>, writes: seq<Write>): Option<seq<Message>> {
    if writes == [] then list else UpsertList(RunList(list, writes[..|writes| - 1]), writes[|writes| - 1])
  }

  // ----- Merging into the flat list is merging into the pages -----

  /** Merge into every row with the id; under distinct ids that is the first such row. */
  ghost function MergeAll(messages: seq<Message>, m: Message): (r: seq<Message>)
    ensures |r| == |messages|
    ensures forall i :: 0 <= i < |r| ==>
              r[i] == if messages[i].id == m.id then MergeChatMessage(messages[i], m) else messages[i]
  {
    seq(|messages|, i requires 0 <= i < |messages| =>
          if messages[i].id == m.id then MergeChatMessage(messages[i], m) else messages[i])
  }

  lemma MergeFirstIsAll(messages: seq<Message>, m: Message)
    requires DistinctIds(messages)
    ensures MergeIntoList(messages, m) == MergeAll(messages, m)
  {
  }

  lemma DistinctParts(a: seq<Message>, b: seq<Message>)
    requires DistinctIds(a + b)
    ensures DistinctIds(a) && DistinctIds(b)
  {
    assert forall i :: 0 <= i < |a| ==> (a + b)[i] == a[i];
    assert forall i :: 0 <= i < |b| ==> (a + b)[|a| + i] == b[i];
  }

  lemma MergeConcat(a: seq<Message>, b: seq<Message>, m: Message)
    requires DistinctIds(a + b)
    ensures MergeIntoList(a + b, m) == MergeIntoList(a, m) + MergeIntoList(b, m)
  {
    DistinctParts(a, b);
    MergeFirstIsAll(a + b, m);
    MergeFirstIsAll(a, m);
    MergeFirstIsAll(b, m);
    MergeAllConcat(a, b, m);
  }

  lemma MergeAllConcat(a: seq<Message>, b: seq<Message>, m: Message)
    ensures MergeAll(a + b, m) == MergeAll(a, m) + MergeAll(b, m)
  {
  }

  lemma FindConcat(a: seq<Message>, b: seq<Message>, id: string)
    ensures FindIndex(a + b, id).Some? <==> FindIndex(a, id).Some? || FindIndex(b, id).Some?
  {
    var all := a + b;
    if FindIndex(all, id).Some? {
      var k := FindIndex(all, id).value;
      assert if k < |a| then a[k].id == id else b[k - |a|].id == id;
    } else {
      assert forall i :: 0 <= i < |a| ==> a[i].id == all[i].id;
      assert forall i :: 0 <= i < |b| ==> b[i].id == all[|a| + i].id;
    }
  }

  lemma {:induction false} FlattenMerges(pages: seq<Page>, m: Message)
    requires DistinctIds(Flatten(pages))
    ensures Flatten(MergePages(pages, m)) == MergeIntoList(Flatten(pages), m)
    ensures Seen(pages, m.id) <==> FindIndex(Flatten(pages), m.id).Some?
  {
    if pages == [] {
    } else {
      DistinctParts(Flatten(pages[1..]), pages[0].messages);
      MergeConcat(Flatten(pages[1..]), pages[0].messages, m);
      FindConcat(Flatten(pages[1..]), pages[0].messages, m.id);
      FlattenMerges(pages[1..], m);
      assert MergePages(pages, m)[1..] == MergePages(pages[1..], m);
    }
  }

  lemma AppendFlattens(data: InfiniteData, m: Message)
    requires data.pages != [] && !Seen(data.pages, m.id)
    ensures Flatten(UpsertIntoPages(data, m).pages) == Flatten(data.pages) + [m]
  {
    var next := UpsertIntoPages(data, m).pages;
    assert next[1..] == data.pages[1..];
  }

  /** Upserting into pages is upserting into the list they make up. */
  lemma PagesAreAList(data: InfiniteData, m: Message)
    requires data.pages != [] && DistinctIds(Flatten(data.pages))
    ensures UpsertIntoPages(data, m).pages != []
    ensures Flatten(UpsertIntoPages(data, m).pages) == UpsertIntoList(Flatten(data.pages), m)
  {
    FlattenMerges(data.pages, m);
    if !Seen(data.pages, m.id) {
      AppendFlattens(data, m);
    }
  }

  lemma PagedUpsert(c: Caches, w: Write)
    requires Unique(PagedList(c))
    ensures PagedList(Upsert(c, w)) == UpsertList(PagedList(c), w)
  {
    if HasPages(c) {
      PagesAreAList(c.paged.value, w.message);
    } else if w.seedIfMissing {
      assert Flatten([Page([w.message], 50, false, None)]) == [w.message];
    }
  }

  lemma UpsertKeepsUnique(list: Option<seq<Message>>, w: Write)
    requires Unique(list)
    ensures Unique(UpsertList(list, w))
  {
  }

  /** Each cache goes its own way: a run of upserts is, for either of them, the same run on its list. */
  lemma {:induction false} RunIsRunList(c: Caches, writes: seq<Write>)
    ensures Run(c, writes).flat == RunList(c.flat, writes)
    ensures Unique(PagedList(c)) ==> PagedList(Run(c, writes)) == RunList(PagedList(c), writes)
  {
    if writes != [] {
      var n := |writes| - 1;
      RunIsRunList(c, writes[..n]);
      if Unique(PagedList(c)) {
        RunKeepsUnique(PagedList(c), writes[..n]);
        PagedUpsert(Run(c, writes[..n]), writes[n]);
      }
    }
  }

  lemma {:induction false} RunKeepsUnique(list: Option<seq<Message>>, writes: seq<Write>)
    requires Unique(list)
    ensures Unique(RunList(list, writes))
    ensures list.Some? ==> RunList(list, writes).Some?
  {
    if writes != [] {
      var n := |writes| - 1;
      RunKeepsUnique(list, writes[..n]);
      UpsertKeepsUnique(RunList(list, writes[..n]), writes[n]);
    }
  }

  /** In either cache, whatever the other holds, ids that are unique stay unique over every run, across all pages. */
  lemma IdsStayUnique(c: Caches, writes: seq<Write>)
    ensures Unique(c.flat) ==> Unique(Run(c, writes).flat)
    ensures Unique(PagedList(c)) ==> Unique(PagedList(Run(c, writes)))
  {
    RunIsRunList(c, writes);
    if Unique(c.flat) { RunKeepsUnique(c.flat, writes); }
    if Unique(PagedList(c)) { RunKeepsUnique(PagedList(c), writes); }
  }

  /** A run keeps a pair of caches in step. */
  lemma RunKeepsStep(c: Caches, writes: seq<Write>)
    requires Agree(c) && Paired(c)
    ensures Agree(Run(c, writes)) && Paired(Run(c, writes))
  {
    assert c.flat == PagedList(c);
    RunIsRunList(c, writes);
    RunKeepsUnique(c.flat, writes);
  }

  lemma UnpairedDrifts(c: Caches) returns (writes: seq<Write>)
    requires Agree(c) && !Paired(c)
    ensures !Agree(Run(c, writes))
  {
    var w := Write(Message("m", map[]), false);
    writes := [w];
    assert writes[..0] == [] && Run(c, writes) == Upsert(c, w);
    if c.flat.Some? {
      assert FlatRows(Upsert(c, w)) == [w.message] && PagedRows(Upsert(c, w)) == [];
    } else {
      FlattenMerges(c.paged.value.pages, w.message);
      AppendFlattens(c.paged.value, w.message);
      assert FlatRows(Upsert(c, w)) == [] && PagedRows(Upsert(c, w)) == [w.message];
    }
  }

  /** Two caches that agree stay in agreement over every run exactly when both are there or neither is. */
  lemma NeverDriftExactly(c: Caches)
    requires Agree(c)
    ensures (forall writes :: Agree(Run(c, writes))) <==> Paired(c)
  {
    if Paired(c) {
      forall writes ensures Agree(Run(c, writes)) {
        RunKeepsStep(c, writes);
      }
    } else {
      var writes := UnpairedDrifts(c);
      assert !Agree(Run(c, writes));
    }
  }

  // ----- Pages that are the newest window of the list -----

  /** The pages hold the end of the flat list; `older` is the part they have not loaded. */
  ghost predicate Windowed(c: Caches, older: seq<Message>) {
    c.flat.Some? && HasPages(c) && c.flat.value == older + PagedRows(c) && DistinctIds(c.flat.value)
  }

  lemma UpsertBehind(older: seq<Message>, rows: seq<Message>, m: Message)
    requires DistinctIds(older + rows) && FindIndex(older, m.id).None?
    ensures UpsertIntoList(older + rows, m) == older + UpsertIntoList(rows, m)
  {
    FindConcat(older, rows, m.id);
    MergeConcat(older, rows, m);
  }

  /** An upsert leaves the pages a window on the same older rows exactly when its message is not one of those. */
  lemma WindowKeptExactly(c: Caches, w: Write, older: seq<Message>)
    requires Windowed(c, older)
    ensures Windowed(Upsert(c, w), older) <==> FindIndex(older, w.message.id).None?
  {
    var rows := PagedRows(c);
    DistinctParts(older, rows);
    PagedUpsert(c, w);
    UpsertKeepsUnique(c.flat, w);
    FindConcat(older, rows, w.message.id);
    if FindIndex(older, w.message.id).None? {
      UpsertBehind(older, rows, w.message);
    } else {
      OlderNotPaged(older, rows, w.message.id);
    }
  }

  lemma OlderNotPaged(older: seq<Message>, rows: seq<Message>, id: string)
    requires DistinctIds(older + rows) && FindIndex(older, id).Some?
    ensures FindIndex(rows, id).None?
  {
    var i := FindIndex(older, id).value;
    forall j | 0 <= j < |rows| ensures rows[j].id != id {
      assert (older + rows)[i] == older[i] && (older + rows)[|older| + j] == rows[j];
    }
  }

  /** The pages are a window on the same older rows before, during and after the run. */
  ghost predicate WindowedThroughout(c: Caches, writes: seq<Write>, older: seq<Message>) {
    && Windowed(Run(c, writes), older)
    && (writes != [] ==> WindowedThroughout(c, writes[..|writes| - 1], older))
  }

  /** No write is about an unloaded row. */
  ghost predicate LeavesAlone(writes: seq<Write>, older: seq<Message>) {
    forall w :: w in writes ==> FindIndex(older, w.message.id).None?
  }

  lemma LeavesAloneMore(writes: seq<Write>, w: Write, older: seq<Message>)
    ensures LeavesAlone(writes + [w], older) <==> LeavesAlone(writes, older) && FindIndex(older, w.message.id).None?
  {
    assert w in writes + [w];
    assert forall v :: v in writes + [w] <==> v in writes || v == w;
  }

  /** Over a run, the pages stay a window throughout exactly when no write is about an unloaded row. */
  lemma {:induction false} WindowRunExactly(c: Caches, writes: seq<Write>, older: seq<Message>)
    requires Windowed(c, older)
    ensures WindowedThroughout(c, writes, older) <==> LeavesAlone(writes, older)
  {
    if writes != [] {
      var n := |writes| - 1;
      WindowRunExactly(c, writes[..n], older);
      assert writes == writes[..n] + [writes[n]];
      LeavesAloneMore(writes[..n], writes[n], older);
      if WindowedThroughout(c, writes[..n], older) {
        WindowKeptExactly(Run(c, writes[..n]), writes[n], older);
      }
    }
  }

  // ----- Where rows may appear -----

  /** The new page is the old one, its rows in place, possibly with one more at the end. */
  ghost predicate SamePage(p: Page, q: Page, grown: bool) {
    && q.(messages := []) == p.(messages := [])
    && |q.messages| == |p.messages| + (if grown then 1 else 0)
    && forall i :: 0 <= i < |p.messages| ==> q.messages[i].id == p.messages[i].id
  }

  /** An upsert never adds, drops or reorders pages, and only the newest page can gain a row, which it does
    * iff the id is new. */
  lemma {:induction false} OnlyNewestPageGrows(c: Caches, w: Write)
    requires HasPages(c)
    ensures var was, next := c.paged.value, Upsert(c, w).paged.value;
            && next.pageParams == was.pageParams && |next.pages| == |was.pages|
            && forall i :: 0 <= i < |was.pages| ==>
                 SamePage(was.pages[i], next.pages[i], i == 0 && !Seen(was.pages, w.message.id))
  {
  }

  // ----- What the pages claim about older rows -----

  /** A page claims older rows exactly when it says where to find them, and every page was asked for once. */
  ghost predicate Sincere(data: InfiniteData) {
    && |data.pages| == |data.pageParams|
    && forall i :: 0 <= i < |data.pages| ==> (data.pages[i].hasMore <==> data.pages[i].nextCursor.Some?)
  }

  /** Nothing but rows: the pages are asked for, sized and continued as before. */
  ghost predicate SameClaims(a: InfiniteData, b: InfiniteData) {
    && a.pageParams == b.pageParams && |a.pages| == |b.pages|
    && forall i :: 0 <= i < |a.pages| ==> a.pages[i].(messages := []) == b.pages[i].(messages := [])
  }

  lemma UpsertKeepsClaims(c: Caches, w: Write)
    requires HasPages(c)
    ensures HasPages(Upsert(c, w)) && SameClaims(Upsert(c, w).paged.value, c.paged.value)
  {
    OnlyNewestPageGrows(c, w);
  }

  /** Over any run pages that are there keep their claims. */
  lemma {:induction false} RunKeepsClaims(c: Caches, writes: seq<Write>)
    requires HasPages(c)
    ensures HasPages(Run(c, writes)) && SameClaims(Run(c, writes).paged.value, c.paged.value)
  {
    if writes == [] {
    } else {
      RunKeepsClaims(c, writes[..|writes| - 1]);
      UpsertKeepsClaims(Run(c, writes[..|writes| - 1]), writes[|writes| - 1]);
    }
  }

  /** One page of at most fifty rows, the whole history as far as it tells. */
  ghost predicate WholeHistory(data: InfiniteData) {
    && |data.pages| == 1 && data.pageParams == [None]
    && data.pages[0].limit == 50 && !data.pages[0].hasMore && data.pages[0].nextCursor == None
  }

  /** A paged cache that no fetch has filled never claims older rows, whatever is written: it holds one page,
    * or none. */
  lemma {:induction false} SeededClaimsNothing(c: Caches, writes: seq<Write>)
    requires !HasPages(c)
    ensures var after := Run(c, writes);
            if exists w :: w in writes && w.seedIfMissing
            then HasPages(after) && WholeHistory(after.paged.value)
            else after.paged == c.paged
  {
    if writes == [] {
    } else {
      var n := |writes| - 1;
      var init, last := writes[..n], writes[n];
      assert writes == init + [last];
      SeededClaimsNothing(c, init);
      if w :| w in init && w.seedIfMissing {
        assert w in writes;
        UpsertKeepsClaims(Run(c, init), last);
      } else {
        assert (exists w :: w in writes && w.seedIfMissing) <==> last.seedIfMissing;
      }
    }
  }

  /** Sincere pages stay sincere over every run, and those seeded where there were none are. */
  lemma PagesStaySincere(c: Caches, writes: seq<Write>)
    requires c.paged.Some? ==> Sincere(c.paged.value)
    ensures var after := Run(c, writes); after.paged.Some? ==> Sincere(after.paged.value)
  {
    if HasPages(c) {
      RunKeepsClaims(c, writes);
      var a, b := Run(c, writes).paged.value, c.paged.value;
      forall i | 0 <= i < |a.pages| ensures a.pages[i].hasMore <==> a.pages[i].nextCursor.Some? {
        assert a.pages[i].(messages := []) == b.pages[i].(messages := []);
        assert b.pages[i].hasMore <==> b.pages[i].nextCursor.Some?;
      }
    } else {
      SeededClaimsNothing(c, writes);
    }
  }

  // ----- Redelivery -----

  lemma MergeAgain(existing: Message, incoming: Message)
    ensures MergeChatMessage(MergeChatMessage(existing, incoming), incoming) == MergeChatMessage(existing, incoming)
    ensures MergeChatMessage(incoming, incoming) == incoming
  {
    var once := MergeChatMessage(existing, incoming);
    assert MergeChatMessage(once, incoming).fields == once.fields;
  }

  lemma {:induction false} MergePagesTwice(pages: seq<Page>, m: Message)
    ensures MergePages(MergePages(pages, m), m) == MergePages(pages, m)
    ensures Seen(MergePages(pages, m), m.id) <==> Seen(pages, m.id)
  {
    if pages == [] {
    } else {
      MergePagesTwice(pages[1..], m);
      MergeTwice(pages[0].messages, m);
      assert MergePages(pages, m)[1..] == MergePages(pages[1..], m);
    }
  }

  lemma MergeTwice(messages: seq<Message>, m: Message)
    ensures MergeIntoList(MergeIntoList(messages, m), m) == MergeIntoList(messages, m)
    ensures FindIndex(MergeIntoList(messages, m), m.id) == FindIndex(messages, m.id)
  {
    var k := FindIndex(messages, m.id);
    if k.Some? {
      MergeAgain(messages[k.value], m);
      var next := MergeIntoList(messages, m);
      assert forall j :: 0 <= j < |next| ==> next[j].id == messages[j].id;
      assert FindIndex(next, m.id) == k;
    }
  }

  lemma AppendThenMerge(messages: seq<Message>, m: Message)
    requires FindIndex(messages, m.id).None?
    ensures FindIndex(messages + [m], m.id) == Some(|messages|)
    ensures MergeIntoList(messages + [m], m) == messages + [m]
  {
    var more := messages + [m];
    MergeAgain(m, m);
    assert more[|messages|] == m;
    var k := FindIndex(more, m.id);
    assert k.Some? && more[k.value].id == m.id;
    assert forall j :: 0 <= j < |messages| ==> more[j].id == messages[j].id != m.id;
    assert more[|messages| := m] == more;
  }

  lemma {:induction false} UnseenMerges(pages: seq<Page>, m: Message)
    requires !Seen(pages, m.id)
    ensures MergePages(pages, m) == pages
  {
    if pages == [] {
    } else {
      UnseenMerges(pages[1..], m);
    }
  }

  lemma UpsertListTwice(messages: seq<Message>, m: Message)
    ensures UpsertIntoList(UpsertIntoList(messages, m), m) == UpsertIntoList(messages, m)
  {
    MergeTwice(messages, m);
    if FindIndex(messages, m.id).None? {
      AppendThenMerge(messages, m);
    }
  }

  lemma UpsertPagesTwice(data: InfiniteData, m: Message)
    requires data.pages != []
    ensures UpsertIntoPages(data, m).pages != []
    ensures UpsertIntoPages(UpsertIntoPages(data, m), m) == UpsertIntoPages(data, m)
  {
    var next := UpsertIntoPages(data, m).pages;
    if Seen(data.pages, m.id) {
      MergePagesTwice(data.pages, m);
    } else {
      AppendThenMerge(data.pages[0].messages, m);
      UnseenMerges(data.pages[1..], m);
      assert next[1..] == data.pages[1..];
      assert MergePages(next, m) == next;
    }
  }

  /** The same write delivered again changes nothing, whatever the caches held. */
  lemma UpsertIdempotent(c: Caches, w: Write)
    ensures Upsert(Upsert(c, w), w) == Upsert(c, w)
  {
    UpsertListTwice(if c.flat.Some? then c.flat.value else [], w.message);
    assert [] + [w.message] == [w.message];
    if HasPages(c) {
      UpsertPagesTwice(c.paged.value, w.message);
    } else if w.seedIfMissing {
      var blank := InfiniteData([Page([], 50, false, None)], [None]);
      assert !Seen(blank.pages, w.message.id);
      assert UpsertIntoPages(blank, w.message).pages == SeedPage(w.message).pages;
      UpsertPagesTwice(blank, w.message);
    }
  }
}
