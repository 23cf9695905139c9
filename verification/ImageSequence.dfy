/**
 * The ordered list of images a reader can page through
 * (packages/core/attachments/image-sequence.ts).
 *
 * The regular expressions, the image test and the test for a body that mentions an attachment
 * are parameters; the order, the fallbacks and the folding into one list are modelled.
 */
module ImageSequence {

  import opened Common
  import opened CodeMask
  import StableSort

  /** An attachment record. URLs the record does not have are empty strings. */
  datatype Attachment = Attachment(id: string, filename: string, contentType: string, size: int,
                                   url: string, downloadUrl: string, markdownUrl: string)

  /** A reference found in a body, with its offset. */
  datatype Ref = Ref(index: nat, url: string, filename: string, requiresImageCheck: bool)

  datatype Item = Item(key: string, url: string, filename: string, attachment: Option<Attachment>)

  datatype Block = Block(content: Option<string>, attachments: Option<seq<Attachment>>) {
    function Body(): string {
      if content.Some? then content.value else ""
    }

    function Files(): seq<Attachment> {
      if attachments.Some? then attachments.value else []
    }
  }

  /** The parts that are not modelled. */
  datatype Env = Env(inlineCode: string -> string,
                     markdownImages: string -> seq<Ref>,
                     htmlImages: string -> seq<Ref>,
                     fileCards: string -> seq<Ref>,
                     isImage: (string, string) -> bool,
                     mentions: (string, Attachment) -> bool,
                     idInUrl: string -> string,
                     stableUrl: string -> string)

  // ---- Finding references

  function Usable(refs: seq<Ref>): (r: seq<Ref>)
    ensures forall x :: x in r <==> x in refs && x.url != ""
  {
    if refs == [] then []
    else
      var last := refs[|refs| - 1];
      assert refs == refs[..|refs| - 1] + [last];
      if last.url == "" then Usable(refs[..|refs| - 1]) else Usable(refs[..|refs| - 1]) + [last]
  }

  function Matches(env: Env, masked: string): seq<Ref> {
    Usable(env.markdownImages(masked)) + Usable(env.htmlImages(masked)) + Usable(env.fileCards(masked))
  }

  function Offset(r: Ref): int {
    r.index
  }

  function InlineRefs(env: Env, raw: string): seq<Ref> {
    if raw == "" then []
    else StableSort.Sort(Matches(env, MaskCode(env.inlineCode, raw)), Offset)
  }

  /** The references stand in text order, and they are the usable matches in the masked body. */
  lemma RefsInTextOrder(env: Env, raw: string)
    ensures var refs := InlineRefs(env, raw);
            && (forall i, j :: 0 <= i < j < |refs| ==> refs[i].index <= refs[j].index)
            && (raw != "" ==> multiset(refs) == multiset(Matches(env, MaskCode(env.inlineCode, raw))))
            && (forall r :: r in refs ==> r.url != "")
  {
    if raw != "" {
      var found := Matches(env, MaskCode(env.inlineCode, raw));
      StableSort.SortAscends(found, Offset);
      StableSort.SortPermutes(found, Offset);
      var refs := InlineRefs(env, raw);
      forall i, j | 0 <= i < j < |refs| ensures refs[i].index <= refs[j].index {
        assert Offset(refs[i]) <= Offset(refs[j]);
      }
    }
  }

  // ---- Resolving a URL to an attachment

  predicate SameUrl(env: Env, embedded: string, url: string) {
    && embedded != "" && url != ""
    && (embedded == url || (env.stableUrl(embedded) != "" && env.stableUrl(embedded) == env.stableUrl(url)))
  }

  predicate HasUrl(env: Env, a: Attachment, url: string) {
    SameUrl(env, url, a.url) || SameUrl(env, url, a.downloadUrl) || SameUrl(env, url, a.markdownUrl)
  }

  function FirstById(attachments: seq<Attachment>, id: string): Option<Attachment> {
    if attachments == [] then None
    else if attachments[0].id == id then Some(attachments[0]) else FirstById(attachments[1..], id)
  }

  function FirstByUrl(env: Env, attachments: seq<Attachment>, url: string): Option<Attachment> {
    if attachments == [] then None
    else if HasUrl(env, attachments[0], url) then Some(attachments[0]) else FirstByUrl(env, attachments[1..], url)
  }

  function MatchByUrl(env: Env, url: string, attachments: seq<Attachment>): Option<Attachment> {
    if url == "" then None
    else
      var id := env.idInUrl(url);
      var byId := if id == "" then None else FirstById(attachments, id);
      if byId.Some? then byId else FirstByUrl(env, attachments, url)
  }

  // ---- Cards below the body

  /** The same file uploaded again: another record with the same name, type and size. */
  predicate IsSibling(a: Attachment, other: Attachment) {
    other.id != a.id && other.filename == a.filename && other.contentType == a.contentType && other.size == a.size
  }

  predicate IsStandalone(env: Env, content: string, attachments: seq<Attachment>, a: Attachment) {
    || content == ""
    || (!env.mentions(content, a)
        && forall other :: other in attachments && IsSibling(a, other) ==> !env.mentions(content, other))
  }

  /** The first `n` attachments, without those the body already shows. */
  function StandaloneUpto(env: Env, content: string, attachments: seq<Attachment>, n: nat): (r: seq<Attachment>)
    requires n <= |attachments|
    ensures forall a :: a in r <==> a in attachments[..n] && IsStandalone(env, content, attachments, a)
  {
    if n == 0 then []
    else
      var r := StandaloneUpto(env, content, attachments, n - 1);
      assert attachments[..n] == attachments[..n - 1] + [attachments[n - 1]];
      if IsStandalone(env, content, attachments, attachments[n - 1]) then r + [attachments[n - 1]] else r
  }

  function Standalone(env: Env, content: string, attachments: seq<Attachment>): seq<Attachment> {
    StandaloneUpto(env, content, attachments, |attachments|)
  }

  // ---- Candidates in render order

  predicate RefIsShown(env: Env, attachments: seq<Attachment>, r: Ref) {
    r.requiresImageCheck ==>
      match MatchByUrl(env, r.url, attachments)
      case Some(a) => env.isImage(a.contentType, a.filename)
      case None => env.isImage("", if r.filename != "" then r.filename else r.url)
  }

  function FirstNonEmpty(a: string, b: string, c: string): string {
    if a != "" then a else if b != "" then b else c
  }

  function ItemOfRef(env: Env, attachments: seq<Attachment>, r: Ref): Item {
    match MatchByUrl(env, r.url, attachments)
    case Some(a) =>
      var url := FirstNonEmpty(a.downloadUrl, a.markdownUrl, a.url);
      Item(a.id, if url != "" then url else r.url, if a.filename != "" then a.filename else r.filename, Some(a))
    case None => Item(r.url, r.url, r.filename, None)
  }

  function ItemOfCard(a: Attachment): Item {
    Item(a.id, FirstNonEmpty(a.downloadUrl, a.markdownUrl, a.url), a.filename, Some(a))
  }

  function InlineItems(env: Env, attachments: seq<Attachment>, refs: seq<Ref>, n: nat): seq<Item>
    requires n <= |refs|
  {
    if n == 0 then []
    else if RefIsShown(env, attachments, refs[n - 1])
    then InlineItems(env, attachments, refs, n - 1) + [ItemOfRef(env, attachments, refs[n - 1])]
    else InlineItems(env, attachments, refs, n - 1)
  }

  function CardItems(env: Env, cards: seq<Attachment>, n: nat): seq<Item>
    requires n <= |cards|
  {
    if n == 0 then []
    else if env.isImage(cards[n - 1].contentType, cards[n - 1].filename)
    then CardItems(env, cards, n - 1) + [ItemOfCard(cards[n - 1])]
    else CardItems(env, cards, n - 1)
  }

  /** What a body with its attachments shows: inline images in text order, then image cards. */
  function Rendered(env: Env, content: string, attachments: seq<Attachment>): seq<Item> {
    var refs := InlineRefs(env, content);
    var cards := Standalone(env, content, attachments);
    InlineItems(env, attachments, refs, |refs|) + CardItems(env, cards, |cards|)
  }

  function RenderedBlock(env: Env, block: Option<Block>): seq<Item> {
    match block
    case None => []
    case Some(b) => Rendered(env, b.Body(), b.Files())
  }

  function Map<A, B>(f: A -> B, s: seq<A>): (r: seq<B>)
    ensures |r| == |s|
  {
    if s == [] then [] else Map(f, s[..|s| - 1]) + [f(s[|s| - 1])]
  }

  lemma {:induction false} MapAt<A, B>(f: A -> B, s: seq<A>, i: nat)
    requires i < |s|
    ensures Map(f, s)[i] == f(s[i])
  {
    if i < |s| - 1 {
      MapAt(f, s[..|s| - 1], i);
    }
  }

  function Renderer(env: Env): Option<Block> -> seq<Item> {
    (block: Option<Block>) => RenderedBlock(env, block)
  }

  /** What each block shows. */
  function Parts(env: Env, blocks: seq<Option<Block>>): seq<seq<Item>> {
    Map(Renderer(env), blocks)
  }

  function Flat(parts: seq<seq<Item>>, n: nat): seq<Item>
    requires n <= |parts|
  {
    if n == 0 then [] else Flat(parts, n - 1) + parts[n - 1]
  }

  function Flattened(parts: seq<seq<Item>>): seq<Item> {
    Flat(parts, |parts|)
  }

  /** Everything the blocks show, in render order. */
  function AllRendered(env: Env, blocks: seq<Option<Block>>): seq<Item> {
    Flattened(Parts(env, blocks))
  }

  // ---- Folding the candidates into one list

  ghost function Keys(items: seq<Item>): set<string> {
    set item | item in items :: item.key
  }

  function Pushed(items: seq<Item>, item: Item): seq<Item> {
    if item.key == "" || exists k :: 0 <= k < |items| && items[k].key == item.key then items else items + [item]
  }

  function PushAll(items: seq<Item>, more: seq<Item>): seq<Item> {
    if more == [] then items else Pushed(PushAll(items, more[..|more| - 1]), more[|more| - 1])
  }

  function Collect(env: Env, blocks: seq<Option<Block>>): seq<Item> {
    PushAll([], AllRendered(env, blocks))
  }

  lemma PushOne(items: seq<Item>, more: seq<Item>, item: Item)
    ensures PushAll(items, more + [item]) == Pushed(PushAll(items, more), item)
  {
    assert (more + [item])[..|more|] == more;
  }

  lemma {:induction false} PushConcat(items: seq<Item>, a: seq<Item>, b: seq<Item>)
    ensures PushAll(items, a + b) == PushAll(PushAll(items, a), b)
  {
    if b == [] {
      assert a + b == a;
    } else {
      var init, last := b[..|b| - 1], b[|b| - 1];
      PushConcat(items, a, init);
      assert a + b == (a + init) + [last];
      PushOne(items, a + init, last);
    }
  }

  method Push(items: seq<Item>, seen: set<string>, item: Item) returns (items': seq<Item>, seen': set<string>)
    requires seen == Keys(items)
    ensures items' == Pushed(items, item)
    ensures seen' == Keys(items')
  {
    if item.key == "" || item.key in seen {
      return items, seen;
    }
    seen' := seen + {item.key};
    items' := items + [item];
  }

  lemma InlineStep(env: Env, attachments: seq<Attachment>, refs: seq<Ref>, i: nat, start: seq<Item>)
    requires i < |refs|
    ensures var before := PushAll(start, InlineItems(env, attachments, refs, i));
            PushAll(start, InlineItems(env, attachments, refs, i + 1)) ==
            if RefIsShown(env, attachments, refs[i]) then Pushed(before, ItemOfRef(env, attachments, refs[i]))
            else before
  {
    PushOne(start, InlineItems(env, attachments, refs, i), ItemOfRef(env, attachments, refs[i]));
  }

  lemma CardStep(env: Env, cards: seq<Attachment>, i: nat, start: seq<Item>)
    requires i < |cards|
    ensures var before := PushAll(start, CardItems(env, cards, i));
            PushAll(start, CardItems(env, cards, i + 1)) ==
            if env.isImage(cards[i].contentType, cards[i].filename) then Pushed(before, ItemOfCard(cards[i]))
            else before
  {
    PushOne(start, CardItems(env, cards, i), ItemOfCard(cards[i]));
  }

  lemma FlatStep(parts: seq<seq<Item>>, b: nat)
    requires b < |parts|
    ensures PushAll([], Flat(parts, b + 1)) == PushAll(PushAll([], Flat(parts, b)), parts[b])
  {
    PushConcat([], Flat(parts, b), parts[b]);
  }

  /** The loop over the inline references of one block. */
  method PushInline(env: Env, attachments: seq<Attachment>, refs: seq<Ref>, start: seq<Item>, startSeen: set<string>)
    returns (items: seq<Item>, seen: set<string>)
    requires startSeen == Keys(start)
    ensures items == PushAll(start, InlineItems(env, attachments, refs, |refs|))
    ensures seen == Keys(items)
  {
    items, seen := start, startSeen;
    var i := 0;
    while i < |refs|
      invariant 0 <= i <= |refs|
      invariant items == PushAll(start, InlineItems(env, attachments, refs, i))
      invariant seen == Keys(items)
    {
      InlineStep(env, attachments, refs, i, start);
      if RefIsShown(env, attachments, refs[i]) {
        items, seen := Push(items, seen, ItemOfRef(env, attachments, refs[i]));
      }
      i := i + 1;
    }
  }

  /** The loop over the cards of one block. */
  method PushCards(env: Env, cards: seq<Attachment>, start: seq<Item>, startSeen: set<string>)
    returns (items: seq<Item>, seen: set<string>)
    requires startSeen == Keys(start)
    ensures items == PushAll(start, CardItems(env, cards, |cards|))
    ensures seen == Keys(items)
  {
    items, seen := start, startSeen;
    var i := 0;
    while i < |cards|
      invariant 0 <= i <= |cards|
      invariant items == PushAll(start, CardItems(env, cards, i))
      invariant seen == Keys(items)
    {
      CardStep(env, cards, i, start);
      if env.isImage(cards[i].contentType, cards[i].filename) {
        items, seen := Push(items, seen, ItemOfCard(cards[i]));
      }
      i := i + 1;
    }
  }

  lemma PushRendered(env: Env, content: string, attachments: seq<Attachment>, start: seq<Item>)
    ensures var refs, cards := InlineRefs(env, content), Standalone(env, content, attachments);
            PushAll(start, Rendered(env, content, attachments)) ==
            PushAll(PushAll(start, InlineItems(env, attachments, refs, |refs|)), CardItems(env, cards, |cards|))
  {
    var refs, cards := InlineRefs(env, content), Standalone(env, content, attachments);
    PushConcat(start, InlineItems(env, attachments, refs, |refs|), CardItems(env, cards, |cards|));
  }

  /** One turn of the outer loop. */
  method PushBlock(env: Env, blocks: seq<Option<Block>>, b: nat, ghost part: seq<Item>,
                   start: seq<Item>, startSeen: set<string>)
    returns (items: seq<Item>, seen: set<string>)
    requires b < |blocks| && startSeen == Keys(start) && part == Parts(env, blocks)[b]
    ensures items == PushAll(start, part)
    ensures seen == Keys(items)
  {
    MapAt(Renderer(env), blocks, b);
    items, seen := start, startSeen;
    if blocks[b].Some? {
      var content, attachments := blocks[b].value.Body(), blocks[b].value.Files();
      PushRendered(env, content, attachments, items);
      items, seen := PushInline(env, attachments, InlineRefs(env, content), items, seen);
      items, seen := PushCards(env, Standalone(env, content, attachments), items, seen);
    }
  }

  /** The outer loop, with the set of keys seen so far. */
  method CollectImageSequence(env: Env, blocks: seq<Option<Block>>) returns (items: seq<Item>)
    ensures items == Collect(env, blocks)
  {
    items := [];
    var seen: set<string> := {};
    ghost var parts := Parts(env, blocks);
    var b := 0;
    while b < |blocks|
      invariant 0 <= b <= |blocks| == |parts|
      invariant items == PushAll([], Flat(parts, b))
      invariant seen == Keys(items)
    {
      FlatStep(parts, b);
      items, seen := PushBlock(env, blocks, b, parts[b], items, seen);
      b := b + 1;
    }
  }

  function IndexFrom(items: seq<Item>, key: string, i: nat): (r: int)
    requires i <= |items|
    ensures -1 <= r < |items|
    ensures r == -1 ==> forall k :: i <= k < |items| ==> items[k].key != key
    ensures r != -1 ==> i <= r && items[r].key == key && forall k :: i <= k < r ==> items[k].key != key
    decreases |items| - i
  {
    if i == |items| then -1 else if items[i].key == key then i else IndexFrom(items, key, i + 1)
  }

  /** Where the viewer opens when the image with this key is clicked. */
  function IndexOfImageKey(items: seq<Item>, key: string): int {
    if key == "" then -1 else IndexFrom(items, key, 0)
  }

  // ---- The list is the first occurrences

  /** The `i`-th candidate has a key that no earlier one has. */
  predicate IsFirst(all: seq<Item>, i: nat)
    requires i < |all|
  {
    all[i].key != "" && forall j :: 0 <= j < i ==> all[j].key != all[i].key
  }

  function Firsts(all: seq<Item>, n: nat): seq<Item>
    requires n <= |all|
  {
    if n == 0 then []
    else if IsFirst(all, n - 1) then Firsts(all, n - 1) + [all[n - 1]] else Firsts(all, n - 1)
  }

  lemma {:induction false} PushedKeys(all: seq<Item>, n: nat)
    requires n <= |all|
    ensures Keys(PushAll([], all[..n])) == Keys(all[..n]) - {""}
  {
    if n > 0 {
      PushedKeys(all, n - 1);
      assert all[..n] == all[..n - 1] + [all[n - 1]];
      PushOne([], all[..n - 1], all[n - 1]);
      var before := PushAll([], all[..n - 1]);
      KeysPush(all[..n - 1], all[n - 1]);
      KeysPush(before, all[n - 1]);
      KeysHas(before, all[n - 1].key);
    }
  }

  lemma KeysPush(items: seq<Item>, item: Item)
    ensures Keys(items + [item]) == Keys(items) + {item.key}
  {
    assert item in items + [item];
  }

  lemma KeysHas(items: seq<Item>, key: string)
    ensures key in Keys(items) <==> exists k :: 0 <= k < |items| && items[k].key == key
  {
  }

  lemma FirstOfItsKey(all: seq<Item>, i: nat)
    requires i < |all| && all[i].key != ""
    ensures IsFirst(all, i) <==> all[i].key !in Keys(all[..i])
  {
    KeysHas(all[..i], all[i].key);
    if all[i].key !in Keys(all[..i]) {
      forall j | 0 <= j < i ensures all[j].key != all[i].key {
        assert all[..i][j] == all[j];
      }
    }
  }

  lemma PushIfFirst(all: seq<Item>, i: nat, before: seq<Item>)
    requires i < |all| && Keys(before) == Keys(all[..i]) - {""}
    ensures Pushed(before, all[i]) == if IsFirst(all, i) then before + [all[i]] else before
  {
    if all[i].key != "" {
      FirstOfItsKey(all, i);
      KeysHas(before, all[i].key);
    }
  }

  /** Folding keeps exactly the candidates whose key is not empty and occurs for the first time, in order. */
  lemma {:induction false} FoldIsFirsts(all: seq<Item>, n: nat)
    requires n <= |all|
    ensures PushAll([], all[..n]) == Firsts(all, n)
  {
    if n > 0 {
      FoldIsFirsts(all, n - 1);
      assert all[..n] == all[..n - 1] + [all[n - 1]];
      PushOne([], all[..n - 1], all[n - 1]);
      PushedKeys(all, n - 1);
      PushIfFirst(all, n - 1, PushAll([], all[..n - 1]));
    }
  }

  /** The sequence is the first-occurrence list of everything rendered, in render order. */
  lemma CollectedExactly(env: Env, blocks: seq<Option<Block>>)
    ensures var all := AllRendered(env, blocks);
            && Collect(env, blocks) == Firsts(all, |all|)
            && Keys(Collect(env, blocks)) == Keys(all) - {""}
  {
    var all := AllRendered(env, blocks);
    FoldIsFirsts(all, |all|);
    PushedKeys(all, |all|);
    assert all[..|all|] == all;
  }

  ghost predicate UniqueKeys(items: seq<Item>) {
    && (forall i :: 0 <= i < |items| ==> items[i].key != "")
    && forall i, j :: 0 <= i < j < |items| ==> items[i].key != items[j].key
  }

  lemma {:induction false} PushKeepsUnique(items: seq<Item>, more: seq<Item>)
    requires UniqueKeys(items)
    ensures UniqueKeys(PushAll(items, more))
    ensures items <= PushAll(items, more)
  {
    if more != [] {
      PushKeepsUnique(items, more[..|more| - 1]);
    }
  }

  lemma {:induction false} FlatOfPrefix(parts: seq<seq<Item>>, more: seq<seq<Item>>, n: nat)
    requires n <= |parts|
    ensures Flat(parts + more, n) == Flat(parts, n)
  {
    if n > 0 {
      FlatOfPrefix(parts, more, n - 1);
    }
  }

  lemma {:induction false} FlatConcat(parts: seq<seq<Item>>, more: seq<seq<Item>>, n: nat)
    requires n <= |more|
    ensures Flat(parts + more, |parts| + n) == Flat(parts, |parts|) + Flat(more, n)
  {
    if n == 0 {
      FlatOfPrefix(parts, more, |parts|);
    } else {
      FlatConcat(parts, more, n - 1);
      assert (parts + more)[|parts| + n - 1] == more[n - 1];
      Associative(Flat(parts, |parts|), Flat(more, n - 1), more[n - 1]);
    }
  }

  lemma {:induction false} MapConcat<A, B>(f: A -> B, s: seq<A>, t: seq<A>)
    ensures Map(f, s + t) == Map(f, s) + Map(f, t)
  {
    if t == [] {
      assert s + t == s;
    } else {
      MapConcat(f, s, t[..|t| - 1]);
      assert (s + t)[..|s + t| - 1] == s + t[..|t| - 1];
    }
  }

  lemma FlattenedConcat(parts: seq<seq<Item>>, more: seq<seq<Item>>)
    ensures Flattened(parts + more) == Flattened(parts) + Flattened(more)
  {
    FlatConcat(parts, more, |more|);
    assert |parts + more| == |parts| + |more|;
  }

  lemma RenderedConcat(env: Env, blocks: seq<Option<Block>>, more: seq<Option<Block>>)
    ensures AllRendered(env, blocks + more) == AllRendered(env, blocks) + AllRendered(env, more)
  {
    MapConcat(Renderer(env), blocks, more);
    FlattenedConcat(Map(Renderer(env), blocks), Map(Renderer(env), more));
  }

  lemma CollectOnwards(env: Env, blocks: seq<Option<Block>>, more: seq<Option<Block>>)
    ensures Collect(env, blocks + more) == PushAll(Collect(env, blocks), AllRendered(env, more))
  {
    RenderedConcat(env, blocks, more);
    PushConcat([], AllRendered(env, blocks), AllRendered(env, more));
  }

  /** Blocks appended later never move, drop or change an image that is already in the sequence. */
  lemma CollectExtends(env: Env, blocks: seq<Option<Block>>, more: seq<Option<Block>>)
    ensures Collect(env, blocks) <= Collect(env, blocks + more)
    ensures UniqueKeys(Collect(env, blocks)) && UniqueKeys(Collect(env, blocks + more))
  {
    PushKeepsUnique([], AllRendered(env, blocks));
    CollectOnwards(env, blocks, more);
    PushKeepsUnique(Collect(env, blocks), AllRendered(env, more));
  }

  /** Looking up a key is the inverse of reading the list, and fails exactly for keys nothing rendered has. */
  lemma IndexExactly(env: Env, blocks: seq<Option<Block>>, key: string, k: nat)
    ensures var items := Collect(env, blocks);
            IndexOfImageKey(items, key) == k <==> k < |items| && items[k].key == key
    ensures IndexOfImageKey(Collect(env, blocks), key) == -1 <==>
            key == "" || key !in Keys(AllRendered(env, blocks))
  {
    var items := Collect(env, blocks);
    CollectExtends(env, blocks, []);
    CollectedExactly(env, blocks);
    KeysHas(items, key);
  }

  /** A clicked image opens at its own place, and keeps that place while more blocks arrive below. */
  lemma ClickedImageKeepsItsPlace(env: Env, blocks: seq<Option<Block>>, more: seq<Option<Block>>, key: string)
    requires key != "" && key in Keys(AllRendered(env, blocks))
    ensures var k := IndexOfImageKey(Collect(env, blocks), key);
            && 0 <= k < |Collect(env, blocks)| && Collect(env, blocks)[k].key == key
            && IndexOfImageKey(Collect(env, blocks + more), key) == k
  {
    var k := IndexOfImageKey(Collect(env, blocks), key);
    IndexExactly(env, blocks, key, 0);
    CollectExtends(env, blocks, more);
    IndexExactly(env, blocks + more, key, k);
  }

  // ---- Which attachments get a place

  /** An inline reference resolves to the attachment and is rendered as an image. */
  predicate ShownInline(env: Env, content: string, attachments: seq<Attachment>, a: Attachment) {
    exists r :: r in InlineRefs(env, content)
             && MatchByUrl(env, r.url, attachments) == Some(a) && RefIsShown(env, attachments, r)
  }

  ghost predicate Offers(items: seq<Item>, a: Attachment) {
    exists item :: item in items && item.attachment == Some(a)
  }

  lemma OffersPush(items: seq<Item>, item: Item, a: Attachment)
    ensures Offers(items + [item], a) <==> Offers(items, a) || item.attachment == Some(a)
  {
    if Offers(items, a) {
      var x :| x in items && x.attachment == Some(a);
      assert x in items + [item];
    }
    assert item in items + [item];
  }

  lemma {:induction false} InlineOffers(env: Env, attachments: seq<Attachment>, refs: seq<Ref>, n: nat, a: Attachment)
    requires n <= |refs|
    ensures Offers(InlineItems(env, attachments, refs, n), a) <==>
            exists r :: && r in refs[..n] && MatchByUrl(env, r.url, attachments) == Some(a)
                        && RefIsShown(env, attachments, r)
  {
    if n > 0 {
      InlineOffers(env, attachments, refs, n - 1, a);
      OffersPush(InlineItems(env, attachments, refs, n - 1), ItemOfRef(env, attachments, refs[n - 1]), a);
      assert refs[..n] == refs[..n - 1] + [refs[n - 1]];
    }
  }

  lemma {:induction false} CardsOffer(env: Env, cards: seq<Attachment>, n: nat, a: Attachment)
    requires n <= |cards|
    ensures Offers(CardItems(env, cards, n), a) <==> a in cards[..n] && env.isImage(a.contentType, a.filename)
  {
    if n > 0 {
      CardsOffer(env, cards, n - 1, a);
      OffersPush(CardItems(env, cards, n - 1), ItemOfCard(cards[n - 1]), a);
      assert cards[..n] == cards[..n - 1] + [cards[n - 1]];
    }
  }

  /**
   * An image attached to a block is offered unless the body mentions it or a re-upload of it
   * without showing it. The mention test reads the raw body, so a link inside a code fence is
   * enough to take an image out of the sequence.
   */
  lemma ImageOfferedExactly(env: Env, content: string, attachments: seq<Attachment>, a: Attachment)
    requires a in attachments && env.isImage(a.contentType, a.filename)
    ensures Offers(Rendered(env, content, attachments), a) <==>
            IsStandalone(env, content, attachments, a) || ShownInline(env, content, attachments, a)
  {
    var refs, cards := InlineRefs(env, content), Standalone(env, content, attachments);
    InlineOffers(env, attachments, refs, |refs|, a);
    CardsOffer(env, cards, |cards|, a);
    assert refs[..|refs|] == refs && cards[..|cards|] == cards && attachments[..|attachments|] == attachments;
    var x, y := InlineItems(env, attachments, refs, |refs|), CardItems(env, cards, |cards|);
    OffersConcat(x, y, a);
  }

  lemma OffersConcat(x: seq<Item>, y: seq<Item>, a: Attachment)
    ensures Offers(x + y, a) <==> Offers(x, a) || Offers(y, a)
  {
    if Offers(x, a) {
      var item :| item in x && item.attachment == Some(a);
      assert item in x + y;
    }
    if Offers(y, a) {
      var item :| item in y && item.attachment == Some(a);
      assert item in x + y;
    }
  }

  /**
   * Rewriting the inside of fences changes nothing that is rendered, provided it does not change
   * which attachments the raw body mentions.
   */
  lemma FencedTextDoesNotRender(env: Env, s: string, t: string, attachments: seq<Attachment>)
    requires DifferInsideFences(Split(s), Split(t))
    requires forall a :: a in attachments ==> env.mentions(s, a) == env.mentions(t, a)
    ensures Rendered(env, s, attachments) == Rendered(env, t, attachments)
  {
    FencedTextDoesNotMatter(env.inlineCode, (masked: string) => masked, s, t);
    JoinSplit(s);
    JoinSplit(t);
    assert s == "" <==> t == "" by {
      assert Split("") == [""];
      SameFirstLine(Split(s), Split(t));
    }
    SameStandalone(env, s, t, attachments, |attachments|);
  }

  lemma {:induction false} SameStandalone(env: Env, s: string, t: string, attachments: seq<Attachment>, n: nat)
    requires n <= |attachments| && (s == "" <==> t == "")
    requires forall a :: a in attachments ==> env.mentions(s, a) == env.mentions(t, a)
    ensures StandaloneUpto(env, s, attachments, n) == StandaloneUpto(env, t, attachments, n)
  {
    if n > 0 {
      SameStandalone(env, s, t, attachments, n - 1);
    }
  }

  // ---- Which images are in the sequence

  /** A reference of the body, rendered as an image, has the key. */
  ghost predicate RefShows(env: Env, content: string, attachments: seq<Attachment>, key: string) {
    exists r :: && r in InlineRefs(env, content) && RefIsShown(env, attachments, r)
                && ItemOfRef(env, attachments, r).key == key
  }

  /** A card below the body, rendered as an image, has the key. */
  ghost predicate CardShows(env: Env, content: string, attachments: seq<Attachment>, key: string) {
    exists a :: a in attachments && IsStandalone(env, content, attachments, a)
             && env.isImage(a.contentType, a.filename) && a.id == key
  }

  ghost predicate BlockShows(env: Env, block: Option<Block>, key: string) {
    block.Some? && (RefShows(env, block.value.Body(), block.value.Files(), key)
                    || CardShows(env, block.value.Body(), block.value.Files(), key))
  }

  lemma {:induction false} InlineKeys(env: Env, attachments: seq<Attachment>, refs: seq<Ref>, n: nat, key: string)
    requires n <= |refs|
    ensures key in Keys(InlineItems(env, attachments, refs, n)) <==>
            exists r :: r in refs[..n] && RefIsShown(env, attachments, r) && ItemOfRef(env, attachments, r).key == key
  {
    if n > 0 {
      InlineKeys(env, attachments, refs, n - 1, key);
      KeysPush(InlineItems(env, attachments, refs, n - 1), ItemOfRef(env, attachments, refs[n - 1]));
      assert refs[..n] == refs[..n - 1] + [refs[n - 1]];
    }
  }

  lemma {:induction false} CardKeys(env: Env, cards: seq<Attachment>, n: nat, key: string)
    requires n <= |cards|
    ensures key in Keys(CardItems(env, cards, n)) <==>
            exists a :: a in cards[..n] && env.isImage(a.contentType, a.filename) && a.id == key
  {
    if n > 0 {
      CardKeys(env, cards, n - 1, key);
      KeysPush(CardItems(env, cards, n - 1), ItemOfCard(cards[n - 1]));
      assert cards[..n] == cards[..n - 1] + [cards[n - 1]];
    }
  }

  lemma KeysConcat(a: seq<Item>, b: seq<Item>)
    ensures Keys(a + b) == Keys(a) + Keys(b)
  {
    forall key ensures key in Keys(a + b) <==> key in Keys(a) + Keys(b) {
      assert forall item :: item in a + b <==> item in a || item in b;
    }
  }

  lemma RenderedKeys(env: Env, content: string, attachments: seq<Attachment>, key: string)
    ensures key in Keys(Rendered(env, content, attachments)) <==>
            RefShows(env, content, attachments, key) || CardShows(env, content, attachments, key)
  {
    var refs, cards := InlineRefs(env, content), Standalone(env, content, attachments);
    InlineKeys(env, attachments, refs, |refs|, key);
    CardKeys(env, cards, |cards|, key);
    assert refs[..|refs|] == refs && cards[..|cards|] == cards && attachments[..|attachments|] == attachments;
    KeysConcat(InlineItems(env, attachments, refs, |refs|), CardItems(env, cards, |cards|));
  }

  lemma {:induction false} FlatKeys(parts: seq<seq<Item>>, n: nat, key: string)
    requires n <= |parts|
    ensures key in Keys(Flat(parts, n)) <==> exists b :: 0 <= b < n && key in Keys(parts[b])
  {
    if n > 0 {
      FlatKeys(parts, n - 1, key);
      KeysConcat(Flat(parts, n - 1), parts[n - 1]);
    }
  }

  lemma PartKeys(env: Env, blocks: seq<Option<Block>>, b: nat, key: string)
    requires b < |blocks|
    ensures b < |Parts(env, blocks)| && (key in Keys(Parts(env, blocks)[b]) <==> BlockShows(env, blocks[b], key))
  {
    MapAt(Renderer(env), blocks, b);
    if blocks[b].Some? {
      RenderedKeys(env, blocks[b].value.Body(), blocks[b].value.Files(), key);
    }
  }

  /** A key is in the sequence exactly when it is not empty and some block shows it, inline or as a card. */
  lemma ImageListedExactly(env: Env, blocks: seq<Option<Block>>, key: string)
    ensures key in Keys(Collect(env, blocks)) <==>
            key != "" && exists b :: 0 <= b < |blocks| && BlockShows(env, blocks[b], key)
  {
    var parts := Parts(env, blocks);
    CollectedExactly(env, blocks);
    FlatKeys(parts, |parts|, key);
    forall b: nat | b < |blocks| ensures key in Keys(parts[b]) <==> BlockShows(env, blocks[b], key) {
      PartKeys(env, blocks, b, key);
    }
  }

  // ---- A link inside a fence takes an image out of the sequence

  /** The patterns find nothing in a text of spaces and newlines. */
  ghost predicate BlankFindsNothing(env: Env) {
    forall t :: OnlyBlanks(t) ==> env.markdownImages(t) == [] && env.htmlImages(t) == [] && env.fileCards(t) == []
  }

  lemma BlankHasNoRefs(env: Env, content: string)
    requires BlankFindsNothing(env) && OnlyBlanks(MaskCode(env.inlineCode, content))
    ensures InlineRefs(env, content) == []
  {
    assert Matches(env, MaskCode(env.inlineCode, content)) == [];
  }

  function OneBlock(content: string, a: Attachment): seq<Option<Block>> {
    [Some(Block(Some(content), Some([a])))]
  }

  lemma OneBlockShows(env: Env, content: string, a: Attachment)
    requires a.id != ""
    ensures a.id in Keys(Collect(env, OneBlock(content, a))) <==>
            RefShows(env, content, [a], a.id) || CardShows(env, content, [a], a.id)
  {
    var blocks := OneBlock(content, a);
    ImageListedExactly(env, blocks, a.id);
    assert blocks[0].value.Body() == content && blocks[0].value.Files() == [a];
    assert BlockShows(env, blocks[0], a.id) <==> exists b :: 0 <= b < |blocks| && BlockShows(env, blocks[b], a.id);
  }

  /**
   * An attached image is in the sequence of a block without text, and is not in that of a block whose
   * text mentions it inside a code fence only: the fence hides the link, the mention hides the card.
   */
  lemma FencedLinkHidesImage(env: Env, a: Attachment, link: string)
    requires a.id != "" && env.isImage(a.contentType, a.filename) && BlankFindsNothing(env)
    requires '\n' !in link && !Closes(Fence('`', 3), link) && env.mentions(Fenced(link), a)
    ensures a.id in Keys(Collect(env, OneBlock("", a)))
    ensures a.id !in Keys(Collect(env, OneBlock(Fenced(link), a)))
  {
    var content := Fenced(link);
    FencedIsCode(env.inlineCode, link);
    BlankHasNoRefs(env, content);
    FencedNotEmpty(link);
    OneBlockShows(env, "", a);
    OneBlockShows(env, content, a);
    assert a in [a] && IsStandalone(env, "", [a], a);
    assert !CardShows(env, content, [a], a.id);
  }

  lemma FencedNotEmpty(link: string)
    ensures Fenced(link) != ""
  {
    assert JoinUpto([TICKS, link, TICKS], 1) == TICKS;
    assert |JoinUpto([TICKS, link, TICKS], 2)| >= 3;
  }
}
