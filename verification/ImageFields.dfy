/** What the images of a sequence are made of: which record a link stands for, and what is shown of it. */
module ImageFields {
  import opened Common
  import opened CodeMask
  import opened ImageSequence

  // ----- Which references there are -----

  /** A reference is a match of one of the three patterns in the masked body, if it has a URL. */
  lemma ReferencesExactly(env: Env, raw: string, r: Ref)
    ensures r in InlineRefs(env, raw) <==>
            && raw != "" && r.url != ""
            && var masked := MaskCode(env.inlineCode, raw);
               r in env.markdownImages(masked) || r in env.htmlImages(masked) || r in env.fileCards(masked)
  {
    RefsInTextOrder(env, raw);
    if raw != "" {
      var matches := Matches(env, MaskCode(env.inlineCode, raw));
      assert r in InlineRefs(env, raw) <==> r in multiset(InlineRefs(env, raw));
      assert r in matches <==> r in multiset(matches);
    }
  }

  // ----- Which record a URL stands for -----

  /** The URL, as written or without its query, is one of the record's three. */
  predicate Names(env: Env, url: string, a: Attachment) {
    url != "" && exists u :: u in [a.url, a.downloadUrl, a.markdownUrl] && SameTarget(env, url, u)
  }

  predicate SameTarget(env: Env, url: string, u: string) {
    u != "" && (u == url || (env.stableUrl(url) != "" && env.stableUrl(url) == env.stableUrl(u)))
  }

  lemma NamesExactly(env: Env, url: string, a: Attachment)
    ensures HasUrl(env, a, url) <==> Names(env, url, a)
  {
    var urls := [a.url, a.downloadUrl, a.markdownUrl];
    assert urls[0] in urls && urls[1] in urls && urls[2] in urls;
  }

  /** The first record with the property. */
  ghost predicate IsFirstWith(attachments: seq<Attachment>, a: Attachment, p: Attachment -> bool) {
    exists k :: 0 <= k < |attachments| && attachments[k] == a && p(a) && forall j :: 0 <= j < k ==> !p(attachments[j])
  }

  lemma {:induction false} FirstByIdIs(attachments: seq<Attachment>, id: string)
    ensures match FirstById(attachments, id)
            case Some(a) => IsFirstWith(attachments, a, (x: Attachment) => x.id == id)
            case None => forall x :: x in attachments ==> x.id != id
  {
    if attachments != [] && attachments[0].id != id {
      FirstByIdIs(attachments[1..], id);
      var found := FirstById(attachments[1..], id);
      if found.Some? {
        FirstBehind(attachments, found.value, (x: Attachment) => x.id == id);
      }
    }
  }

  lemma {:induction false} FirstByUrlIs(env: Env, attachments: seq<Attachment>, url: string)
    ensures match FirstByUrl(env, attachments, url)
            case Some(a) => IsFirstWith(attachments, a, (x: Attachment) => HasUrl(env, x, url))
            case None => forall x :: x in attachments ==> !HasUrl(env, x, url)
  {
    if attachments != [] && !HasUrl(env, attachments[0], url) {
      FirstByUrlIs(env, attachments[1..], url);
      var found := FirstByUrl(env, attachments[1..], url);
      if found.Some? {
        FirstBehind(attachments, found.value, (x: Attachment) => HasUrl(env, x, url));
      }
    }
  }

  lemma FirstBehind(attachments: seq<Attachment>, a: Attachment, p: Attachment -> bool)
    requires attachments != [] && !p(attachments[0]) && IsFirstWith(attachments[1..], a, p)
    ensures IsFirstWith(attachments, a, p)
  {
    var rest := attachments[1..];
    var k :| 0 <= k < |rest| && rest[k] == a && p(a) && forall j :: 0 <= j < k ==> !p(rest[j]);
    assert attachments[k + 1] == a;
    forall j | 0 <= j < k + 1 ensures !p(attachments[j]) {
      assert j > 0 ==> attachments[j] == rest[j - 1];
    }
  }

  /**
   * A URL stands for the first record whose id it holds, when there is one; otherwise for the first record
   * one of whose three URLs it is; and for none when there is no such record.
   */
  lemma RecordExactly(env: Env, url: string, attachments: seq<Attachment>)
    ensures var id := env.idInUrl(url);
            var byId := url != "" && id != "" && exists x :: x in attachments && x.id == id;
            match MatchByUrl(env, url, attachments)
            case Some(a) =>
              if byId then IsFirstWith(attachments, a, (x: Attachment) => x.id == id)
              else && url != "" && Names(env, url, a)
                   && IsFirstWith(attachments, a, (x: Attachment) => HasUrl(env, x, url))
            case None => !byId && forall x :: x in attachments ==> !Names(env, url, x)
  {
    var id := env.idInUrl(url);
    FirstByIdIs(attachments, id);
    FirstByUrlIs(env, attachments, url);
    forall x: Attachment ensures HasUrl(env, x, url) <==> Names(env, url, x) {
      NamesExactly(env, url, x);
    }
    var found := FirstById(attachments, id);
    if found.Some? {
      assert found.value in attachments;
    }
  }

  // ----- Which references and which cards are shown, and as what -----

  /** A file card in the text is shown only when its record, or without one its own name or URL, is an image's. */
  lemma ShownExactly(env: Env, attachments: seq<Attachment>, r: Ref)
    ensures !r.requiresImageCheck ==> RefIsShown(env, attachments, r)
    ensures r.requiresImageCheck ==>
              match MatchByUrl(env, r.url, attachments)
              case Some(a) => RefIsShown(env, attachments, r) <==> env.isImage(a.contentType, a.filename)
              case None =>
                if r.filename == "" then RefIsShown(env, attachments, r) <==> env.isImage("", r.url)
                else RefIsShown(env, attachments, r) <==> env.isImage("", r.filename)
  {
  }

  /** Of a record the download URL is shown, or else the markdown URL, or else the plain one. */
  ghost predicate BestUrl(a: Attachment, url: string) {
    && (a.downloadUrl != "" ==> url == a.downloadUrl)
    && (a.downloadUrl == "" && a.markdownUrl != "" ==> url == a.markdownUrl)
    && (a.downloadUrl == "" && a.markdownUrl == "" && a.url != "" ==> url == a.url)
  }

  /** What a reference becomes: its record by id and name, or the bare URL as written. */
  lemma InlineItemExactly(env: Env, attachments: seq<Attachment>, r: Ref)
    ensures var item := ItemOfRef(env, attachments, r);
            && item.attachment == MatchByUrl(env, r.url, attachments)
            && match item.attachment
               case None => item.key == r.url && item.url == r.url && item.filename == r.filename
               case Some(a) =>
                 && item.key == a.id && BestUrl(a, item.url)
                 && (a.downloadUrl == "" && a.markdownUrl == "" && a.url == "" ==> item.url == r.url)
                 && item.filename == if a.filename == "" then r.filename else a.filename
  {
  }

  lemma CardItemExactly(a: Attachment)
    ensures var item := ItemOfCard(a);
            item.key == a.id && item.attachment == Some(a) && item.filename == a.filename && BestUrl(a, item.url)
  {
  }

  /** A record is a card exactly when the body is empty, or mentions neither it nor another upload of the same file. */
  lemma CardExactly(env: Env, content: string, attachments: seq<Attachment>, a: Attachment)
    ensures a in Standalone(env, content, attachments) <==>
            && a in attachments
            && (content == ""
                || (!env.mentions(content, a)
                    && !exists x :: && x in attachments && x.id != a.id && x.filename == a.filename && x.size == a.size
                                    && x.contentType == a.contentType && env.mentions(content, x)))
  {
    assert attachments[..|attachments|] == attachments;
    if IsStandalone(env, content, attachments, a) && content != "" {
      forall x | x in attachments && x.id != a.id && x.filename == a.filename && x.size == a.size
                 && x.contentType == a.contentType
        ensures !env.mentions(content, x)
      {
        assert IsSibling(a, x);
      }
    }
  }

  // ----- In which order -----

  /** These places, in order, are all the references that are shown. */
  ghost predicate AllShown(env: Env, attachments: seq<Attachment>, refs: seq<Ref>, n: nat, places: seq<nat>)
    requires n <= |refs|
  {
    && (forall p :: p in places <==> 0 <= p < n && RefIsShown(env, attachments, refs[p]))
    && (forall i, j :: 0 <= i < j < |places| ==> places[i] < places[j])
  }

  lemma AllShownMore(env: Env, attachments: seq<Attachment>, refs: seq<Ref>, n: nat, places: seq<nat>)
    requires n < |refs| && AllShown(env, attachments, refs, n, places)
    ensures AllShown(env, attachments, refs, n + 1,
                     if RefIsShown(env, attachments, refs[n]) then places + [n] else places)
  {
    assert forall k :: 0 <= k < |places| ==> places[k] in places;
  }

  /** The items are those of the references at these places. */
  ghost predicate ItemsAt(env: Env, attachments: seq<Attachment>, refs: seq<Ref>, places: seq<nat>, items: seq<Item>) {
    && |items| == |places|
    && forall k :: 0 <= k < |places| ==> places[k] < |refs| && items[k] == ItemOfRef(env, attachments, refs[places[k]])
  }

  lemma ItemsAtMore(env: Env, attachments: seq<Attachment>, refs: seq<Ref>, n: nat, places: seq<nat>, items: seq<Item>)
    requires n < |refs| && ItemsAt(env, attachments, refs, places, items)
    ensures ItemsAt(env, attachments, refs, places + [n], items + [ItemOfRef(env, attachments, refs[n])])
  {
  }

  function ShownPlaces(env: Env, attachments: seq<Attachment>, refs: seq<Ref>, n: nat): seq<nat>
    requires n <= |refs|
  {
    if n == 0 then []
    else if RefIsShown(env, attachments, refs[n - 1]) then ShownPlaces(env, attachments, refs, n - 1) + [n - 1]
    else ShownPlaces(env, attachments, refs, n - 1)
  }

  lemma {:induction false} PlacesAreShown(env: Env, attachments: seq<Attachment>, refs: seq<Ref>, n: nat)
    requires n <= |refs|
    ensures AllShown(env, attachments, refs, n, ShownPlaces(env, attachments, refs, n))
  {
    if n > 0 {
      PlacesAreShown(env, attachments, refs, n - 1);
      AllShownMore(env, attachments, refs, n - 1, ShownPlaces(env, attachments, refs, n - 1));
    }
  }

  lemma {:induction false} InlineItemsAtPlaces(env: Env, attachments: seq<Attachment>, refs: seq<Ref>, n: nat)
    requires n <= |refs|
    ensures ItemsAt(env, attachments, refs, ShownPlaces(env, attachments, refs, n),
                    InlineItems(env, attachments, refs, n))
  {
    if n > 0 {
      InlineItemsAtPlaces(env, attachments, refs, n - 1);
      ItemsAtMore(env, attachments, refs, n - 1, ShownPlaces(env, attachments, refs, n - 1),
                  InlineItems(env, attachments, refs, n - 1));
    }
  }

  /** These places, in order, are all the cards that are images. */
  ghost predicate AllImages(env: Env, cards: seq<Attachment>, n: nat, places: seq<nat>)
    requires n <= |cards|
  {
    && (forall p :: p in places <==> 0 <= p < n && env.isImage(cards[p].contentType, cards[p].filename))
    && (forall i, j :: 0 <= i < j < |places| ==> places[i] < places[j])
  }

  lemma AllImagesMore(env: Env, cards: seq<Attachment>, n: nat, places: seq<nat>)
    requires n < |cards| && AllImages(env, cards, n, places)
    ensures AllImages(env, cards, n + 1,
                      if env.isImage(cards[n].contentType, cards[n].filename) then places + [n] else places)
  {
    assert forall k :: 0 <= k < |places| ==> places[k] in places;
  }

  /** The items are those of the cards at these places. */
  ghost predicate CardsAt(cards: seq<Attachment>, places: seq<nat>, items: seq<Item>) {
    && |items| == |places|
    && forall k :: 0 <= k < |places| ==> places[k] < |cards| && items[k] == ItemOfCard(cards[places[k]])
  }

  lemma CardsAtMore(cards: seq<Attachment>, n: nat, places: seq<nat>, items: seq<Item>)
    requires n < |cards| && CardsAt(cards, places, items)
    ensures CardsAt(cards, places + [n], items + [ItemOfCard(cards[n])])
  {
  }

  function ImagePlaces(env: Env, cards: seq<Attachment>, n: nat): seq<nat>
    requires n <= |cards|
  {
    if n == 0 then []
    else if env.isImage(cards[n - 1].contentType, cards[n - 1].filename) then ImagePlaces(env, cards, n - 1) + [n - 1]
    else ImagePlaces(env, cards, n - 1)
  }

  lemma {:induction false} PlacesAreImages(env: Env, cards: seq<Attachment>, n: nat)
    requires n <= |cards|
    ensures AllImages(env, cards, n, ImagePlaces(env, cards, n))
  {
    if n > 0 {
      PlacesAreImages(env, cards, n - 1);
      AllImagesMore(env, cards, n - 1, ImagePlaces(env, cards, n - 1));
    }
  }

  lemma {:induction false} CardItemsAtPlaces(env: Env, cards: seq<Attachment>, n: nat)
    requires n <= |cards|
    ensures CardsAt(cards, ImagePlaces(env, cards, n), CardItems(env, cards, n))
  {
    if n > 0 {
      CardItemsAtPlaces(env, cards, n - 1);
      CardsAtMore(cards, n - 1, ImagePlaces(env, cards, n - 1), CardItems(env, cards, n - 1));
    }
  }

  /** A block renders the references shown, in the order of their offsets, and below them the image cards. */
  lemma RenderOrder(env: Env, content: string, attachments: seq<Attachment>)
    returns (inline: seq<Item>, below: seq<Item>, shown: seq<nat>, images: seq<nat>)
    ensures Rendered(env, content, attachments) == inline + below
    ensures var refs := InlineRefs(env, content);
            && AllShown(env, attachments, refs, |refs|, shown) && ItemsAt(env, attachments, refs, shown, inline)
            && forall i, j :: 0 <= i < j < |refs| ==> refs[i].index <= refs[j].index
    ensures var cards := Standalone(env, content, attachments);
            AllImages(env, cards, |cards|, images) && CardsAt(cards, images, below)
  {
    var refs, cards := InlineRefs(env, content), Standalone(env, content, attachments);
    shown, images := ShownPlaces(env, attachments, refs, |refs|), ImagePlaces(env, cards, |cards|);
    PlacesAreShown(env, attachments, refs, |refs|);
    InlineItemsAtPlaces(env, attachments, refs, |refs|);
    PlacesAreImages(env, cards, |cards|);
    CardItemsAtPlaces(env, cards, |cards|);
    inline, below := InlineItems(env, attachments, refs, |refs|), CardItems(env, cards, |cards|);
    RefsInTextOrder(env, content);
  }
}
