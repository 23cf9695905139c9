/** Reading the serialized text back: its links name exactly the parties that were mentioned. */
module MentionLinks {
  import opened Common
  import opened MentionText
  import opened MentionProofs
  import opened MentionComposer

  /** What a reader of the text gets from a link. */
  datatype Link = Link(caption: string, kind: Kind, id: string)

  /** What stands in front of the first stop, and what behind it; a bracket opened before it spoils the link. */
  function Until(s: string, stop: char): Option<(string, string)> {
    if s == "" then None
    else if s[0] == stop then Some(("", s[1..]))
    else if s[0] == '[' then None
    else
      match Until(s[1..], stop)
      case None => None
      case Some((before, rest)) => Some(([s[0]] + before, rest))
  }

  /** The rest of a text that starts with the prefix. */
  function Behind(s: string, prefix: string): Option<string> {
    if prefix <= s then Some(s[|prefix|..]) else None
  }

  const SCHEME := "(mention://"

  /** The kind of a party, and what follows it. */
  function PartyKind(s: string): Option<(Kind, string)> {
    if Behind(s, "member/").Some? then Some((Member, Behind(s, "member/").value))
    else if Behind(s, "agent/").Some? then Some((Agent, Behind(s, "agent/").value))
    else if Behind(s, "squad/").Some? then Some((Squad, Behind(s, "squad/").value))
    else if Behind(s, "all/").Some? then Some((Kind.All, Behind(s, "all/").value))
    else if Behind(s, "issue/").Some? then Some((Issue, Behind(s, "issue/").value))
    else None
  }

  /** The party a link points to: its kind, and what follows. */
  function Party(s: string): Option<(Kind, string)> {
    match Behind(s, SCHEME)
    case None => None
    case Some(rest) => PartyKind(rest)
  }

  /** The link that a text starts with, and what follows it. */
  function LinkAt(s: string): Option<(Link, string)> {
    if s == "" || s[0] != '[' then None
    else
      match Until(s[1..], ']')
      case None => None
      case Some((caption, behind)) =>
        match Party(behind)
        case None => None
        case Some((kind, tail)) =>
          match Until(tail, ')')
          case None => None
          case Some((id, rest)) => Some((Link(caption, kind, id), rest))
  }

  lemma {:induction false} UntilShortens(s: string, stop: char)
    ensures Until(s, stop).Some? ==> |Until(s, stop).value.1| < |s|
  {
    if s != "" && s[0] != stop {
      UntilShortens(s[1..], stop);
    }
  }

  lemma PartyShortens(s: string)
    ensures Party(s).Some? ==> |Party(s).value.1| < |s|
  {
  }

  lemma LinkShortens(s: string)
    ensures LinkAt(s).Some? ==> |LinkAt(s).value.1| < |s|
  {
    if s != "" && s[0] == '[' {
      UntilShortens(s[1..], ']');
      var caption := Until(s[1..], ']');
      if caption.Some? && Party(caption.value.1).Some? {
        PartyShortens(caption.value.1);
        UntilShortens(Party(caption.value.1).value.1, ')');
      }
    }
  }

  /** All links of a text, in order. */
  function ReadLinks(s: string): seq<Link>
    decreases |s|
  {
    if s == "" then []
    else
      LinkShortens(s);
      match LinkAt(s)
      case Some((link, rest)) => [link] + ReadLinks(rest)
      case None => ReadLinks(s[1..])
  }

  // ----- Reading a text piece by piece -----

  /** Nothing that begins in front of it can go on into this text. */
  predicate Opens(s: string) {
    s == "" || s[0] == '['
  }

  function Onto(r: Option<(string, string)>, b: string): Option<(string, string)> {
    match r
    case None => None
    case Some((x, y)) => Some((x, y + b))
  }

  lemma {:induction false} UntilOpens(a: string, b: string, stop: char)
    requires Opens(b) && stop != '['
    ensures Until(a + b, stop) == Onto(Until(a, stop), b)
  {
    if a == "" {
      assert a + b == b;
    } else {
      assert (a + b)[1..] == a[1..] + b;
      UntilOpens(a[1..], b, stop);
    }
  }

  lemma BehindOpens(a: string, b: string, prefix: string)
    requires Opens(b) && '[' !in prefix
    ensures Behind(a + b, prefix) == if prefix <= a then Some(a[|prefix|..] + b) else None
  {
    if prefix <= a {
      assert (a + b)[..|prefix|] == a[..|prefix|];
      assert (a + b)[|prefix|..] == a[|prefix|..] + b;
    } else if |a| < |prefix| {
      assert b != "" ==> (a + b)[|a|] != prefix[|a|];
    } else {
      assert (a + b)[..|prefix|] == a[..|prefix|];
    }
  }

  lemma PartyKindOpens(a: string, b: string)
    requires Opens(b)
    ensures PartyKind(a + b) == match PartyKind(a) case None => None case Some((kind, rest)) => Some((kind, rest + b))
  {
    BehindOpens(a, b, "member/");
    BehindOpens(a, b, "agent/");
    BehindOpens(a, b, "squad/");
    BehindOpens(a, b, "all/");
    BehindOpens(a, b, "issue/");
  }

  lemma PartyOpens(a: string, b: string)
    requires Opens(b)
    ensures Party(a + b) == match Party(a) case None => None case Some((kind, rest)) => Some((kind, rest + b))
  {
    BehindOpens(a, b, SCHEME);
    if Behind(a, SCHEME).Some? {
      PartyKindOpens(Behind(a, SCHEME).value, b);
    }
  }

  lemma LinkOpens(a: string, b: string)
    requires Opens(b) && a != ""
    ensures LinkAt(a + b) == match LinkAt(a) case None => None case Some((link, rest)) => Some((link, rest + b))
  {
    if a[0] == '[' {
      assert (a + b)[1..] == a[1..] + b;
      UntilOpens(a[1..], b, ']');
      var caption := Until(a[1..], ']');
      if caption.Some? {
        PartyOpens(caption.value.1, b);
        if Party(caption.value.1).Some? {
          UntilOpens(Party(caption.value.1).value.1, b, ')');
        }
      }
    }
  }

  /** A text that opens with a bracket is read by itself, whatever stands in front of it. */
  lemma {:induction false} ReadOpens(a: string, b: string)
    requires Opens(b)
    ensures ReadLinks(a + b) == ReadLinks(a) + ReadLinks(b)
    decreases |a|
  {
    if a == "" {
      assert a + b == b;
    } else {
      LinkOpens(a, b);
      match LinkAt(a)
      case None =>
        assert (a + b)[1..] == a[1..] + b;
        ReadOpens(a[1..], b);
      case Some((link, rest)) =>
        LinkShortens(a);
        ReadOpens(rest, b);
        Associative([link], ReadLinks(rest), ReadLinks(b));
    }
  }

  // ----- Reading one link -----

  /** What a reader is meant to get from a marker: issues go by their name, the others by `@name`. */
  function LinkOf(m: Marker): Link {
    Link(match m.kind case Issue => m.name case _ => "@" + m.name, m.kind, m.id)
  }

  /** The link of this marker can be read at all: no brackets in its label, none that end its id. */
  predicate Linkable(m: Marker) {
    '[' !in m.name && ']' !in m.name && '[' !in m.id && ')' !in m.id
  }

  lemma {:induction false} UntilStop(a: string, stop: char, rest: string)
    requires stop !in a && '[' !in a
    ensures Until(a + ([stop] + rest), stop) == Some((a, rest))
  {
    var s := a + ([stop] + rest);
    if a == "" {
      assert s == [stop] + rest && s[1..] == rest;
    } else {
      assert s[1..] == a[1..] + ([stop] + rest);
      UntilStop(a[1..], stop, rest);
      assert [a[0]] + a[1..] == a;
    }
  }

  function KindText(k: Kind): string {
    match k
    case Member => "member/"
    case Agent => "agent/"
    case Squad => "squad/"
    case All => "all/"
    case Issue => "issue/"
  }

  function PartyText(k: Kind): string {
    SCHEME + KindText(k)
  }

  lemma PrefixStands(p: string, rest: string)
    ensures Behind(p + rest, p) == Some(rest)
  {
  }

  lemma KindReads(k: Kind, rest: string)
    ensures PartyKind(KindText(k) + rest) == Some((k, rest))
  {
    var s := KindText(k) + rest;
    PrefixStands(KindText(k), rest);
    assert s[0] == KindText(k)[0] && s[1] == KindText(k)[1];
    assert "member/"[0] == 'm' && "squad/"[0] == 's' && "issue/"[0] == 'i';
    assert "agent/"[0] == 'a' && "agent/"[1] == 'g' && "all/"[0] == 'a' && "all/"[1] == 'l';
  }

  lemma PartyReads(k: Kind, rest: string)
    ensures Party(PartyText(k) + rest) == Some((k, rest))
  {
    Associative(SCHEME, KindText(k), rest);
    PrefixStands(SCHEME, KindText(k) + rest);
    KindReads(k, rest);
  }

  lemma NameOfKind(k: Kind)
    ensures KindName(k) + "/" == KindText(k)
  {
  }

  /** What stands between the label and the id of a link. */
  lemma MiddleOfLink(k: Kind)
    ensures ("](mention://" + KindName(k)) + "/" == [']'] + PartyText(k)
  {
    NameOfKind(k);
    Associative("](mention://", KindName(k), "/");
    assert "](mention://" == [']'] + SCHEME;
    Associative([']'], SCHEME, KindText(k));
  }

  lemma Nested(a: string, b: string, c: string, d: string, e: string, rest: string)
    ensures ((((a + b) + c) + d) + e) + rest == a + (b + (c + (d + (e + rest))))
  {
    Associative(((a + b) + c) + d, e, rest);
    Associative((a + b) + c, d, e + rest);
    Associative(a + b, c, d + (e + rest));
    Associative(a, b, c + (d + (e + rest)));
  }

  lemma LinkTextIs(m: Marker)
    ensures LinkText(m) == (((['['] + LinkOf(m).caption) + ([']'] + PartyText(m.kind))) + m.id) + [')']
  {
    var front := ['['] + LinkOf(m).caption;
    MiddleOfLink(m.kind);
    Associative(front, "](mention://", KindName(m.kind));
    Associative(front, "](mention://" + KindName(m.kind), "/");
  }

  lemma LinkTextParts(m: Marker, rest: string)
    ensures LinkText(m) + rest
         == ['['] + (LinkOf(m).caption + ([']'] + (PartyText(m.kind) + (m.id + ([')'] + rest)))))
  {
    LinkTextIs(m);
    Nested(['['], LinkOf(m).caption, [']'] + PartyText(m.kind), m.id, [')'], rest);
    Associative([']'], PartyText(m.kind), m.id + ([')'] + rest));
  }

  lemma LinkReads(m: Marker, rest: string)
    requires Linkable(m)
    ensures LinkAt(LinkText(m) + rest) == Some((LinkOf(m), rest))
  {
    var caption, id := LinkOf(m).caption, m.id;
    var tail := id + ([')'] + rest);
    LinkTextParts(m, rest);
    var s := LinkText(m) + rest;
    assert s[1..] == caption + ([']'] + (PartyText(m.kind) + tail));
    UntilStop(caption, ']', PartyText(m.kind) + tail);
    PartyReads(m.kind, tail);
    UntilStop(id, ')', rest);
  }

  // ----- Reading the serialized text -----

  /** The links of the plain stretches and of the markers, in turn. */
  function Interleaved(chunks: seq<string>, markers: seq<Marker>): seq<Link>
    requires |chunks| == |markers| + 1
  {
    if markers == [] then ReadLinks(chunks[0])
    else ReadLinks(chunks[0]) + ([LinkOf(markers[0])] + Interleaved(chunks[1..], markers[1..]))
  }

  lemma {:induction false} WeaveReads(chunks: seq<string>, markers: seq<Marker>)
    requires |chunks| == |markers| + 1 && forall m :: m in markers ==> Linkable(m)
    ensures ReadLinks(Weave(chunks, LinkTexts(markers))) == Interleaved(chunks, markers)
  {
    if markers != [] {
      var m := markers[0];
      var rest := Weave(chunks[1..], LinkTexts(markers[1..]));
      assert LinkTexts(markers)[1..] == LinkTexts(markers[1..]);
      WeaveReads(chunks[1..], markers[1..]);
      LinkReads(m, rest);
      LinkTextParts(m, rest);
      ReadOpens(chunks[0], LinkText(m) + rest);
    }
  }

  /**
   * When every mention is linked, a reader of the serialized text finds the links that the plain text held,
   * and between them exactly the markers, in order: the same kind of party, the same id, the right label.
   */
  lemma SerializedLinksRead(text: string, markers: seq<Marker>)
    requires MarkedWords(text) == Names(markers) && forall m :: m in markers ==> Linkable(m)
    ensures |Between(Read(text, 0))| == |markers| + 1
    ensures ReadLinks(SerializeMentions(text, markers)) == Interleaved(Between(Read(text, 0)), markers)
  {
    AllOrNothing(text, markers);
    WeaveReads(Between(Read(text, 0)), markers);
  }

  lemma {:induction false} NoLinkWithoutBracket(s: string)
    requires '[' !in s
    ensures ReadLinks(s) == []
  {
    if s != "" {
      NoLinkWithoutBracket(s[1..]);
    }
  }

  lemma {:induction false} BetweenIsPlain(t: Reading)
    requires '[' !in Source(t)
    ensures forall c :: c in Between(t) ==> '[' !in c
    decreases t
  {
    match t
    case Tail(_) =>
    case StrayAfter(before, rest) =>
      assert forall c :: c in Source(rest) ==> c in Source(t);
      BetweenIsPlain(rest);
      assert Between(rest)[0] in Between(rest);
    case RunAfter(before, word, rest) =>
      assert forall c :: c in Source(rest) ==> c in word + Source(rest);
      assert forall c :: c in word + Source(rest) ==> c in Source(t);
      BetweenIsPlain(rest);
  }

  function LinksOf(markers: seq<Marker>): (r: seq<Link>)
    ensures |r| == |markers| && forall i :: 0 <= i < |r| ==> r[i] == LinkOf(markers[i])
  {
    seq(|markers|, i requires 0 <= i < |markers| => LinkOf(markers[i]))
  }

  lemma {:induction false} OnlyMarkersRead(chunks: seq<string>, markers: seq<Marker>)
    requires |chunks| == |markers| + 1 && forall c :: c in chunks ==> '[' !in c
    ensures Interleaved(chunks, markers) == LinksOf(markers)
  {
    NoLinkWithoutBracket(chunks[0]);
    if markers != [] {
      OnlyMarkersRead(chunks[1..], markers[1..]);
      assert LinksOf(markers) == [LinkOf(markers[0])] + LinksOf(markers[1..]);
    }
  }

  /** In a text without brackets of its own the links are exactly the markers. */
  lemma PlainTextReads(text: string, markers: seq<Marker>)
    requires MarkedWords(text) == Names(markers) && '[' !in text && forall m :: m in markers ==> Linkable(m)
    ensures ReadLinks(SerializeMentions(text, markers)) == LinksOf(markers)
  {
    SerializedLinksRead(text, markers);
    ReadIsSound(text);
    BetweenIsPlain(Read(text, 0));
    OnlyMarkersRead(Between(Read(text, 0)), markers);
  }

  /** From a fresh composer, whatever careful run: the text that is sent mentions exactly the parties selected. */
  lemma FreshComposerMentions(events: seq<Event>)
    requires CarefulRun(INITIAL, events) && forall m :: m in Run(INITIAL, events).markers ==> Linkable(m)
    ensures var s := Run(INITIAL, events);
            && |Between(Read(s.text, 0))| == |s.markers| + 1
            && ReadLinks(SerializeMentions(s.text, s.markers)) == Interleaved(Between(Read(s.text, 0)), s.markers)
  {
    FreshComposerLinksAll(events);
    var s := Run(INITIAL, events);
    SerializedLinksRead(s.text, s.markers);
  }
}
