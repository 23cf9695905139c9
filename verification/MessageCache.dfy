/**
 * The two message caches of a chat session, a flat list and a paged list, and the one upsert
 * through which every settled message reaches both.
 */
module MessageCache {
  import opened Common

  /** A field's value; null is a value like any other, only undefined is a gap. */
  datatype Value = Null | Json(text: string)

  /** A message row: its own keys, each bound to a value or to undefined (None). */
  datatype Message = Message(id: string, fields: map<string, Option<Value>>)

  datatype Page = Page(messages: seq<Message>, limit: int, hasMore: bool, nextCursor: Option<string>)

  datatype InfiniteData = InfiniteData(pages: seq<Page>, pageParams: seq<Option<string>>)

  datatype Caches = Caches(flat: Option<seq<Message>>, paged: Option<InfiniteData>)

  datatype Write = Write(message: Message, seedIfMissing: bool)

  // ----- The upsert -----

  function Field(m: Message, key: string): Option<Value> {
    if key in m.fields then m.fields[key] else None
  }

  predicate Fills(existing: Message, incoming: Message, key: string) {
    Field(existing, key) == None && Field(incoming, key) != None
  }

  /** A row keeps every field it defines, and takes from another message those it lacks. */
  function MergeChatMessage(existing: Message, incoming: Message): Message {
    var fills := map k | k in incoming.fields && Fills(existing, incoming, k) :: incoming.fields[k];
    existing.(fields := existing.fields + fills)
  }

  function FindIndex(messages: seq<Message>, id: string): (k: Option<nat>)
    ensures k.Some? ==> k.value < |messages| && messages[k.value].id == id
    ensures k.Some? ==> forall j :: 0 <= j < k.value ==> messages[j].id != id
    ensures k.None? ==> forall j :: 0 <= j < |messages| ==> messages[j].id != id
  {
    if messages == [] then None
    else if messages[0].id == id then Some(0)
    else FindIndex(messages[1..], id).Or(None, (k: nat) => Some(k + 1))
  }

  function MergeIntoList(messages: seq<Message>, m: Message): seq<Message> {
    match FindIndex(messages, m.id)
    case None => messages
    case Some(k) => messages[k := MergeChatMessage(messages[k], m)]
  }

  function UpsertIntoList(messages: seq<Message>, m: Message): seq<Message> {
    if FindIndex(messages, m.id).Some? then MergeIntoList(messages, m) else messages + [m]
  }

  predicate Seen(pages: seq<Page>, id: string) {
    pages != [] && (FindIndex(pages[0].messages, id).Some? || Seen(pages[1..], id))
  }

  function MergePage(page: Page, m: Message): Page {
    page.(messages := MergeIntoList(page.messages, m))
  }

  function MergePages(pages: seq<Page>, m: Message): (r: seq<Page>)
    ensures |r| == |pages|
    ensures forall i :: 0 <= i < |r| ==> r[i] == MergePage(pages[i], m)
  {
    if pages == [] then [] else [MergePage(pages[0], m)] + MergePages(pages[1..], m)
  }

  /** Page 0 is the newest window: a message no page holds goes to its end. */
  function UpsertIntoPages(data: InfiniteData, m: Message): InfiniteData {
    if Seen(data.pages, m.id) then data.(pages := MergePages(data.pages, m))
    else if data.pages == [] then data
    else data.(pages := data.pages[0 := data.pages[0].(messages := data.pages[0].messages + [m])])
  }

  function SeedPage(m: Message): InfiniteData {
    InfiniteData([Page([m], 50, false, None)], [None])
  }

  predicate HasPages(c: Caches) {
    c.paged.Some? && c.paged.value.pages != []
  }

  function Upsert(c: Caches, w: Write): Caches {
    Caches(
      if c.flat.Some? then Some(UpsertIntoList(c.flat.value, w.message))
      else if w.seedIfMissing then Some([w.message]) else None,
      if HasPages(c) then Some(UpsertIntoPages(c.paged.value, w.message))
      else if w.seedIfMissing then Some(SeedPage(w.message)) else c.paged)
  }

  function Run(c: Caches, writes: seq<Write>): Caches {
    if writes == [] then c else Upsert(Run(c, writes[..|writes| - 1]), writes[|writes| - 1])
  }

  // ----- The same, step by step as the source does it -----

  /** The key loop, in whatever order the keys come; filled tells whether the row changed at all. */
  method MergeChatMessageLoop(existing: Message, incoming: Message) returns (merged: Message, filled: bool)
    ensures merged == MergeChatMessage(existing, incoming)
    ensures filled <==> merged != existing
  {
    var fills: map<string, Option<Value>> := map[];
    filled := false;
    var keys := incoming.fields.Keys;
    while keys != {}
      invariant keys <= incoming.fields.Keys
      invariant forall k :: k in fills <==> k in incoming.fields && k !in keys && Fills(existing, incoming, k)
      invariant forall k :: k in fills ==> fills[k] == incoming.fields[k]
      invariant filled <==> exists k :: k in fills
    {
      var key :| key in keys;
      keys := keys - {key};
      if Field(existing, key) == None && Field(incoming, key) != None {
        fills := fills[key := incoming.fields[key]];
        filled := true;
        assert key in fills;
      }
    }
    merged := if filled then existing.(fields := existing.fields + fills) else existing;
    var target := MergeChatMessage(existing, incoming);
    assert merged.fields == target.fields;
    if filled {
      var k :| k in fills;
      assert Field(merged, k) != Field(existing, k);
    }
  }

  method DoMergeIntoList(messages: seq<Message>, m: Message) returns (r: seq<Message>)
    ensures r == MergeIntoList(messages, m)
  {
    var index := FindIndex(messages, m.id);
    if index.None? {
      return messages;
    }
    var merged, filled := MergeChatMessageLoop(messages[index.value], m);
    if !filled {
      return messages;
    }
    r := messages[index.value := merged];
  }

  method DoUpsertIntoList(messages: seq<Message>, m: Message) returns (r: seq<Message>)
    ensures r == UpsertIntoList(messages, m)
  {
    r := DoMergeIntoList(messages, m);
    if r == messages && FindIndex(messages, m.id).None? {
      r := messages + [m];
    }
  }

  /** The loop below after n pages. */
  ghost predicate MergedUpto(was: seq<Page>, m: Message, n: nat, pages: seq<Page>, changed: bool)
    requires n <= |was|
  {
    && |pages| == n && (forall i :: 0 <= i < n ==> pages[i] == MergePage(was[i], m))
    && (changed <==> pages != was[..n])
  }

  lemma MergedStep(was: seq<Page>, m: Message, n: nat, pages: seq<Page>, changed: bool)
    requires n < |was| && MergedUpto(was, m, n, pages, changed)
    ensures var next := MergePage(was[n], m);
            MergedUpto(was, m, n + 1, pages + [next], changed || next.messages != was[n].messages)
  {
    var next := MergePage(was[n], m);
    assert was[..n + 1] == was[..n] + [was[n]];
    assert (pages + [next])[..n] == pages && (was[..n] + [was[n]])[..n] == was[..n];
    assert (pages + [next])[n] == next && (was[..n] + [was[n]])[n] == was[n];
    assert next == was[n] <==> next.messages == was[n].messages;
  }

  lemma MergedWhole(was: seq<Page>, m: Message, pages: seq<Page>, changed: bool)
    requires MergedUpto(was, m, |was|, pages, changed)
    ensures pages == MergePages(was, m) && (changed <==> pages != was)
  {
    assert was[..|was|] == was;
  }

  /** The page loop of the seen branch; changed stays false exactly when no page changed. */
  method MergePagesLoop(was: seq<Page>, m: Message) returns (pages: seq<Page>, changed: bool)
    ensures pages == MergePages(was, m)
    ensures changed <==> pages != was
  {
    pages, changed := [], false;
    for n := 0 to |was|
      invariant MergedUpto(was, m, n, pages, changed)
    {
      MergedStep(was, m, n, pages, changed);
      var next := DoMergeIntoList(was[n].messages, m);
      if next == was[n].messages {
        pages := pages + [was[n]];
      } else {
        changed := true;
        pages := pages + [was[n].(messages := next)];
      }
    }
    MergedWhole(was, m, pages, changed);
  }

  method DoUpsertIntoPages(data: InfiniteData, m: Message) returns (r: InfiniteData)
    ensures r == UpsertIntoPages(data, m)
  {
    if Seen(data.pages, m.id) {
      var pages, changed := MergePagesLoop(data.pages, m);
      return if changed then data.(pages := pages) else data;
    }
    if data.pages == [] {
      return data;
    }
    r := data.(pages := data.pages[0 := data.pages[0].(messages := data.pages[0].messages + [m])]);
  }

  /** The query client's two entries for one session. */
  class SessionCache {
    var flat: Option<seq<Message>>
    var paged: Option<InfiniteData>

    ghost function Contents(): Caches
      reads this
    {
      Caches(flat, paged)
    }

    constructor ()
      ensures Contents() == Caches(None, None)
    {
      flat, paged := None, None;
    }

    method UpsertChatMessageToCaches(message: Message, seedIfMissing: bool)
      modifies this
      ensures Contents() == Upsert(old(Contents()), Write(message, seedIfMissing))
    {
      if flat.Some? {
        var next := DoUpsertIntoList(flat.value, message);
        flat := Some(next);
      } else if seedIfMissing {
        flat := Some([message]);
      }
      if paged.None? || paged.value.pages == [] {
        if seedIfMissing {
          paged := Some(SeedPage(message));
        }
      } else {
        var next := DoUpsertIntoPages(paged.value, message);
        paged := Some(next);
      }
    }
  }
}
