/** What the serializer promises: all mentions or none, no text lost, and how edits affect the marked runs. */
module MentionProofs {
  import opened Common
  import opened MentionText

  // ----- A text has exactly one reading -----

  function Source(t: Reading): string {
    match t
    case Tail(s) => s
    case StrayAfter(before, rest) => before + ([SENTINEL] + Source(rest))
    case RunAfter(before, word, rest) => before + ([SENTINEL] + (['@'] + (word + Source(rest))))
  }

  /** A word ends here: at the end of the text or at whitespace. */
  predicate Breaks(s: string) {
    s == "" || IsSpace(s[0])
  }

  predicate NoSpace(s: string) {
    forall i :: 0 <= i < |s| ==> !IsSpace(s[i])
  }

  /** Plain parts hold no sentinel, strays are not followed by `@`, words run up to whitespace or the end. */
  predicate Sound(t: Reading) {
    match t
    case Tail(s) => SENTINEL !in s
    case StrayAfter(before, rest) =>
      SENTINEL !in before && (Source(rest) == "" || Source(rest)[0] != '@') && Sound(rest)
    case RunAfter(before, word, rest) =>
      SENTINEL !in before && NoSpace(word) && Breaks(Source(rest)) && Sound(rest)
  }

  /** A sound account of the text s. */
  predicate Accounts(t: Reading, s: string) {
    Sound(t) && Source(t) == s
  }

  lemma AddStray(text: string, i: nat, k: nat, rest: Reading)
    requires i <= k < |text| && text[k] == SENTINEL && SENTINEL !in text[i..k] && !OpensRun(text, k)
    requires Accounts(rest, text[k + 1..])
    ensures Accounts(StrayAfter(text[i..k], rest), text[i..])
  {
    assert text[i..] == text[i..k] + ([SENTINEL] + text[k + 1..]);
  }

  lemma AddRun(text: string, i: nat, k: nat, e: nat, rest: Reading)
    requires i <= k && k + 2 <= e <= |text| && text[k] == SENTINEL && text[k + 1] == '@'
    requires SENTINEL !in text[i..k] && NoSpace(text[k + 2..e]) && Breaks(text[e..])
    requires Accounts(rest, text[e..])
    ensures Accounts(RunAfter(text[i..k], text[k + 2..e], rest), text[i..])
  {
    assert text[k + 1..] == ['@'] + (text[k + 2..e] + text[e..]);
    assert text[i..] == text[i..k] + ([SENTINEL] + text[k + 1..]);
  }

  lemma AccountsAtTail(text: string, i: nat)
    requires i <= |text| && NextSentinel(text, i) == |text|
    ensures Accounts(Read(text, i), text[i..])
  {
    NextSentinelIs(text, i);
    assert text[i..|text|] == text[i..];
  }

  lemma AccountsAtStray(text: string, i: nat, k: nat)
    requires i <= |text| && k == NextSentinel(text, i) && k < |text| && !OpensRun(text, k)
    requires Accounts(Read(text, k + 1), text[k + 1..])
    ensures Accounts(Read(text, i), text[i..])
  {
    NextSentinelIs(text, i);
    ReadStep(text, i, k);
    AddStray(text, i, k, Read(text, k + 1));
  }

  lemma AccountsAtRun(text: string, i: nat, k: nat, e: nat)
    requires i <= |text| && k == NextSentinel(text, i) && k < |text| && OpensRun(text, k) && e == WordEnd(text, k + 2)
    requires Accounts(Read(text, e), text[e..])
    ensures Accounts(Read(text, i), text[i..])
  {
    NextSentinelIs(text, i);
    WordSlices(text, k + 2);
    ReadStep(text, i, k);
    AddRun(text, i, k, e, Read(text, e));
  }

  lemma WordSlices(text: string, i: nat)
    requires i <= |text|
    ensures NoSpace(text[i..WordEnd(text, i)]) && Breaks(text[WordEnd(text, i)..])
  {
    WordEndIs(text, i);
  }

  lemma {:induction false} ReadAccounts(text: string, i: nat)
    requires i <= |text|
    ensures Accounts(Read(text, i), text[i..])
    decreases |text| - i
  {
    var k := NextSentinel(text, i);
    if k == |text| {
      AccountsAtTail(text, i);
    } else if !OpensRun(text, k) {
      ReadAccounts(text, k + 1);
      AccountsAtStray(text, i, k);
    } else {
      var e := WordEnd(text, k + 2);
      ReadAccounts(text, e);
      AccountsAtRun(text, i, k, e);
    }
  }

  /** The reading of a text is a sound account of it. */
  lemma ReadIsSound(text: string)
    ensures Sound(Read(text, 0)) && Source(Read(text, 0)) == text
  {
    ReadAccounts(text, 0);
    assert text[0..] == text;
  }

  /** The first sentinel fixes where the plain part ends. */
  lemma SplitAtSentinel(a: string, x: string, b: string, y: string)
    requires SENTINEL !in a && SENTINEL !in b && a + ([SENTINEL] + x) == b + ([SENTINEL] + y)
    ensures a == b && x == y
  {
    var s, t := a + ([SENTINEL] + x), b + ([SENTINEL] + y);
    assert forall j :: 0 <= j < |a| ==> s[j] == a[j];
    assert forall j :: 0 <= j < |b| ==> t[j] == b[j];
    assert s[|a|] == SENTINEL && t[|b|] == SENTINEL;
    assert |a| == |b|;
    assert a == s[..|a|] && b == t[..|b|];
    assert x == s[|a| + 1..] && y == t[|b| + 1..];
  }

  lemma SplitAtSpace(v: string, x: string, w: string, y: string)
    requires NoSpace(v) && NoSpace(w) && Breaks(x) && Breaks(y) && v + x == w + y
    ensures v == w && x == y
  {
    var s, t := v + x, w + y;
    assert forall j :: 0 <= j < |v| ==> s[j] == v[j] && !IsSpace(s[j]);
    assert forall j :: 0 <= j < |w| ==> t[j] == w[j] && !IsSpace(t[j]);
    assert |v| < |s| ==> IsSpace(s[|v|]);
    assert |w| < |t| ==> IsSpace(t[|w|]);
    assert |v| == |w|;
    assert v == s[..|v|] && w == t[..|w|];
    assert x == s[|v|..] && y == t[|w|..];
  }

  /** Any sound account of a text is the one the serializer computes. */
  lemma {:induction false} ReadingUnique(t: Reading, u: Reading)
    requires Sound(t) && Sound(u) && Source(t) == Source(u)
    ensures t == u
    decreases t
  {
    if t.Tail? || u.Tail? {
    } else {
      var x := if t.StrayAfter? then Source(t.rest) else ['@'] + (t.word + Source(t.rest));
      var y := if u.StrayAfter? then Source(u.rest) else ['@'] + (u.word + Source(u.rest));
      SplitAtSentinel(t.before, x, u.before, y);
      if t.StrayAfter? {
        assert u.StrayAfter?;
      } else {
        assert u.RunAfter?;
        assert x[1..] == t.word + Source(t.rest) && y[1..] == u.word + Source(u.rest);
        SplitAtSpace(t.word, Source(t.rest), u.word, Source(u.rest));
      }
      ReadingUnique(t.rest, u.rest);
    }
  }

  // ----- All or nothing, and nothing lost -----

  function Names(markers: seq<Marker>): (r: seq<string>)
    ensures |r| == |markers| && forall i :: 0 <= i < |r| ==> r[i] == markers[i].name
  {
    seq(|markers|, i requires 0 <= i < |markers| => markers[i].name)
  }

  function MarkedWords(text: string): seq<string> {
    Words(Read(text, 0))
  }

  lemma {:induction false} PairsIsNames(t: Reading, markers: seq<Marker>, n: nat)
    requires n <= |markers|
    ensures Pairs(t, markers, n) <==> Words(t) == Names(markers)[n..]
    decreases t
  {
    match t
    case Tail(_) =>
    case StrayAfter(_, rest) => PairsIsNames(rest, markers, n);
    case RunAfter(_, word, rest) =>
      if n < |markers| {
        PairsIsNames(rest, markers, n + 1);
        assert Names(markers)[n..] == [markers[n].name] + Names(markers)[n + 1..];
        assert ([word] + Words(rest))[1..] == Words(rest);
        assert Names(markers)[n..][1..] == Names(markers)[n + 1..];
      }
  }

  /** The text between the runs, strays dropped: one stretch more than there are runs. */
  function Between(t: Reading): (r: seq<string>)
    ensures |r| == |Words(t)| + 1
  {
    match t
    case Tail(s) => [s]
    case StrayAfter(before, rest) => var r := Between(rest); [before + r[0]] + r[1..]
    case RunAfter(before, _, rest) => [before] + Between(rest)
  }

  /** Stretches and insertions in turn. */
  function Weave(chunks: seq<string>, inserts: seq<string>): string
    requires |chunks| == |inserts| + 1
  {
    if inserts == [] then chunks[0] else chunks[0] + (inserts[0] + Weave(chunks[1..], inserts[1..]))
  }

  function LinkTexts(markers: seq<Marker>): (r: seq<string>)
    ensures |r| == |markers|
  {
    seq(|markers|, i requires 0 <= i < |markers| => LinkText(markers[i]))
  }

  function AtNames(words: seq<string>): (r: seq<string>)
    ensures |r| == |words|
  {
    seq(|words|, i requires 0 <= i < |words| => "@" + words[i])
  }

  lemma WeaveFirst(before: string, chunks: seq<string>, inserts: seq<string>)
    requires |chunks| == |inserts| + 1
    ensures Weave([before + chunks[0]] + chunks[1..], inserts) == before + Weave(chunks, inserts)
  {
    var joined := [before + chunks[0]] + chunks[1..];
    assert joined[1..] == chunks[1..];
    if inserts != [] {
      var tail := inserts[0] + Weave(chunks[1..], inserts[1..]);
      assert (before + chunks[0]) + tail == before + (chunks[0] + tail);
    }
  }

  lemma WeaveNext(chunk: string, insert: string, chunks: seq<string>, inserts: seq<string>)
    requires |chunks| == |inserts| + 1
    ensures Weave([chunk] + chunks, [insert] + inserts) == chunk + (insert + Weave(chunks, inserts))
  {
    assert ([chunk] + chunks)[1..] == chunks && ([insert] + inserts)[1..] == inserts;
  }

  lemma {:induction false} RenderWeaves(t: Reading, markers: seq<Marker>, n: nat)
    requires n <= |markers| && Pairs(t, markers, n)
    ensures |Words(t)| == |markers| - n
    ensures Render(t, markers, n) == Weave(Between(t), LinkTexts(markers)[n..])
    decreases t
  {
    PairsIsNames(t, markers, n);
    match t
    case Tail(_) =>
    case StrayAfter(before, rest) =>
      RenderWeaves(rest, markers, n);
      WeaveFirst(before, Between(rest), LinkTexts(markers)[n..]);
    case RunAfter(before, _, rest) =>
      RenderWeaves(rest, markers, n + 1);
      WeaveNext(before, LinkText(markers[n]), Between(rest), LinkTexts(markers)[n + 1..]);
      assert LinkTexts(markers)[n..] == [LinkText(markers[n])] + LinkTexts(markers)[n + 1..];
  }

  lemma {:induction false} StripConcat(a: string, b: string)
    ensures Strip(a + b) == Strip(a) + Strip(b)
  {
    if a == "" {
      assert a + b == b;
    } else {
      assert (a + b)[1..] == a[1..] + b;
      StripConcat(a[1..], b);
    }
  }

  /** The text without its sentinels, stretch by stretch. */
  lemma {:induction false} StripWeaves(t: Reading)
    requires Sound(t) && forall w :: w in Words(t) ==> SENTINEL !in w
    ensures Strip(Source(t)) == Weave(Between(t), AtNames(Words(t)))
    decreases t
  {
    match t
    case Tail(_) =>
    case StrayAfter(before, rest) =>
      StripWeaves(rest);
      StrayStrips(before, rest);
    case RunAfter(before, word, rest) =>
      assert word in Words(t);
      StripWeaves(rest);
      RunStrips(before, word, rest);
  }

  lemma StrayStrips(before: string, rest: Reading)
    requires SENTINEL !in before
    requires Strip(Source(rest)) == Weave(Between(rest), AtNames(Words(rest)))
    ensures var t := StrayAfter(before, rest); Strip(Source(t)) == Weave(Between(t), AtNames(Words(t)))
  {
    StripConcat(before, [SENTINEL] + Source(rest));
    assert ([SENTINEL] + Source(rest))[1..] == Source(rest);
    WeaveFirst(before, Between(rest), AtNames(Words(rest)));
  }

  lemma RunStrips(before: string, word: string, rest: Reading)
    requires SENTINEL !in before && SENTINEL !in word
    requires Strip(Source(rest)) == Weave(Between(rest), AtNames(Words(rest)))
    ensures var t := RunAfter(before, word, rest); Strip(Source(t)) == Weave(Between(t), AtNames(Words(t)))
  {
    var names := AtNames(Words(rest));
    StripRun(before, word, Source(rest));
    WeaveNext(before, "@" + word, Between(rest), names);
    assert AtNames([word] + Words(rest)) == ["@" + word] + names;
  }

  lemma StripRun(before: string, word: string, rest: string)
    requires SENTINEL !in before && SENTINEL !in word
    ensures Strip(before + ([SENTINEL] + (['@'] + (word + rest)))) == before + (("@" + word) + Strip(rest))
  {
    var tail := ['@'] + (word + rest);
    StripConcat(before, [SENTINEL] + tail);
    assert ([SENTINEL] + tail)[1..] == tail;
    assert tail == ("@" + word) + rest;
    StripConcat("@" + word, rest);
  }

  lemma {:induction false} WeaveHasInsert(chunks: seq<string>, inserts: seq<string>, k: nat)
    requires |chunks| == |inserts| + 1 && k < |inserts| && SENTINEL in inserts[k]
    ensures SENTINEL in Weave(chunks, inserts)
  {
    if k > 0 {
      WeaveHasInsert(chunks[1..], inserts[1..], k - 1);
    }
  }

  /**
   * All or nothing: either the markers' names are exactly the marked words, in order, and every marker becomes a link
   * where its run was, or the text comes back with every sentinel removed and no link at all.
   */
  lemma AllOrNothing(text: string, markers: seq<Marker>)
    ensures if MarkedWords(text) == Names(markers)
            then SerializeMentions(text, markers) == Weave(Between(Read(text, 0)), LinkTexts(markers))
            else SerializeMentions(text, markers) == Strip(text)
  {
    var t := Read(text, 0);
    ReadIsSound(text);
    assert Names(markers)[0..] == Names(markers) && LinkTexts(markers)[0..] == LinkTexts(markers);
    PairsIsNames(t, markers, 0);
    if Pairs(t, markers, 0) {
      RenderWeaves(t, markers, 0);
    }
  }

  /**
   * No text lost: putting `@name` where a link stands gives the input without its sentinels,
   * exactly when no linked name itself contains one.
   */
  lemma NothingLostExactly(text: string, markers: seq<Marker>)
    requires MarkedWords(text) == Names(markers)
    ensures Strip(text) == Weave(Between(Read(text, 0)), AtNames(Names(markers)))
            <==> forall m :: m in markers ==> SENTINEL !in m.name
  {
    var t := Read(text, 0);
    ReadIsSound(text);
    if forall m :: m in markers ==> SENTINEL !in m.name {
      forall w | w in Words(t) ensures SENTINEL !in w {
        var i :| 0 <= i < |markers| && Names(markers)[i] == w;
        assert markers[i] in markers;
      }
      StripWeaves(t);
    } else {
      MarkedNameShows(Between(t), markers);
    }
  }

  lemma MarkedNameShows(chunks: seq<string>, markers: seq<Marker>)
    requires |chunks| == |markers| + 1 && exists m :: m in markers && SENTINEL in m.name
    ensures SENTINEL in Weave(chunks, AtNames(Names(markers)))
  {
    var m :| m in markers && SENTINEL in m.name;
    var k :| 0 <= k < |markers| && markers[k] == m;
    var j :| 0 <= j < |m.name| && m.name[j] == SENTINEL;
    assert AtNames(Names(markers))[k] == "@" + m.name && ("@" + m.name)[j + 1] == SENTINEL;
    WeaveHasInsert(chunks, AtNames(Names(markers)), k);
  }

  // ----- Marked runs under concatenation and editing -----

  /** Nothing at the end of the text is still open: no bare sentinel, no run without whitespace after it. */
  predicate Settled(t: Reading) {
    match t
    case Tail(_) => true
    case StrayAfter(_, rest) => rest != Tail("") && Settled(rest)
    case RunAfter(_, _, rest) => rest != Tail("") && Settled(rest)
  }

  function Prefixed(s: string, u: Reading): Reading {
    match u
    case Tail(x) => Tail(s + x)
    case StrayAfter(before, rest) => StrayAfter(s + before, rest)
    case RunAfter(before, word, rest) => RunAfter(s + before, word, rest)
  }

  /** The account of two texts joined. */
  function Joined(t: Reading, u: Reading): Reading {
    match t
    case Tail(s) => Prefixed(s, u)
    case StrayAfter(before, rest) => StrayAfter(before, Joined(rest, u))
    case RunAfter(before, word, rest) => RunAfter(before, word, Joined(rest, u))
  }

  lemma PrefixedAccounts(s: string, u: Reading)
    requires SENTINEL !in s && Sound(u)
    ensures Accounts(Prefixed(s, u), s + Source(u)) && Words(Prefixed(s, u)) == Words(u)
  {
    if !u.Tail? {
      var x := if u.StrayAfter? then [SENTINEL] + Source(u.rest) else [SENTINEL] + (['@'] + (u.word + Source(u.rest)));
      assert s + (u.before + x) == (s + u.before) + x;
    }
  }

  lemma {:induction false} JoinedAccounts(t: Reading, u: Reading)
    requires Sound(t) && Sound(u) && (Settled(t) || Breaks(Source(u)))
    ensures Accounts(Joined(t, u), Source(t) + Source(u))
    ensures Words(Joined(t, u)) == Words(t) + Words(u)
    decreases t
  {
    match t
    case Tail(s) =>
      PrefixedAccounts(s, u);
    case StrayAfter(before, rest) =>
      JoinedAccounts(rest, u);
      OpenAtEnd(rest);
      assert before + ([SENTINEL] + (Source(rest) + Source(u))) == (before + ([SENTINEL] + Source(rest))) + Source(u);
    case RunAfter(before, word, rest) =>
      JoinedAccounts(rest, u);
      OpenAtEnd(rest);
      JoinRun(before, word, Source(rest), Source(u));
      assert [word] + (Words(rest) + Words(u)) == ([word] + Words(rest)) + Words(u);
  }

  lemma JoinRun(before: string, word: string, x: string, y: string)
    ensures before + ([SENTINEL] + (['@'] + (word + (x + y)))) == (before + ([SENTINEL] + (['@'] + (word + x)))) + y
  {
    assert word + (x + y) == (word + x) + y;
    assert ['@'] + ((word + x) + y) == (['@'] + (word + x)) + y;
    var z := ['@'] + (word + x);
    assert [SENTINEL] + (z + y) == ([SENTINEL] + z) + y;
    assert before + (([SENTINEL] + z) + y) == (before + ([SENTINEL] + z)) + y;
  }

  lemma OpenAtEnd(t: Reading)
    ensures Source(t) == "" <==> t == Tail("")
  {
  }

  /** The runs of two texts joined are the runs of each, if nothing is open at the seam or whitespace closes it. */
  lemma WordsConcat(a: string, b: string)
    requires Settled(Read(a, 0)) || Breaks(b)
    ensures MarkedWords(a + b) == MarkedWords(a) + MarkedWords(b)
  {
    ReadIsSound(a);
    ReadIsSound(b);
    ReadIsSound(a + b);
    JoinedAccounts(Read(a, 0), Read(b, 0));
    ReadingUnique(Joined(Read(a, 0), Read(b, 0)), Read(a + b, 0));
  }

  lemma {:induction false} EndsInSpaceIsSettled(t: Reading)
    requires Sound(t) && (Source(t) == "" || IsSpace(Source(t)[|Source(t)| - 1]))
    ensures Settled(t)
    decreases t
  {
    if !t.Tail? {
      if t.rest == Tail("") {
      } else {
        var x := Source(t.rest);
        OpenAtEnd(t.rest);
        assert Source(t)[|Source(t)| - 1] == x[|x| - 1];
        EndsInSpaceIsSettled(t.rest);
      }
    }
  }

  lemma PlainHasNoRuns(s: string)
    requires SENTINEL !in s
    ensures MarkedWords(s) == [] && Settled(Read(s, 0))
  {
    ReadIsSound(s);
  }

  /** Replacing plain text by plain text where nothing is open, or between whitespace, keeps every marked run. */
  lemma PlainEditKeepsRuns(a: string, x: string, y: string, b: string)
    requires SENTINEL !in x && SENTINEL !in y
    requires Settled(Read(a, 0)) || (Breaks(x + b) && Breaks(y + b))
    ensures MarkedWords(a + (x + b)) == MarkedWords(a + (y + b))
  {
    WordsConcat(a, x + b);
    WordsConcat(a, y + b);
    PlainHasNoRuns(x);
    PlainHasNoRuns(y);
    WordsConcat(x, b);
    WordsConcat(y, b);
  }
}
