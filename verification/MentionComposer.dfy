/** The mention-aware text input: its handlers as an object, and what every run of them keeps. */
module MentionComposer {
  import opened Common
  import opened MentionText
  import opened MentionProofs

  datatype Snapshot = Snapshot(text: string, markers: seq<Marker>, start: int, end: int)

  datatype State = State(text: string, start: int, end: int, markers: seq<Marker>, mentioning: Option<Token>)

  datatype Event =
    | ChangeText(next: string)
    | ChangeSelection(start: int, end: int)
    | PressAt
    | SelectMention(m: Marker)
    | InsertAtCursor(insert: string, offsetFromEnd: int)
    | InsertAtLineStart(prefix: string)
    | Restore(snap: Snapshot)
    | Reset

  const INITIAL := State("", 0, 0, [], None)

  // ----- What each handler does to the state -----

  function LineStart(before: string): (k: nat)
    ensures k <= |before| && (k > 0 ==> before[k - 1] == '\n') && '\n' !in before[k..]
  {
    if before == "" then 0
    else if before[|before| - 1] == '\n' then |before|
    else
      var init := before[..|before| - 1];
      var k := LineStart(init);
      assert before[k..] == init[k..] + [before[|before| - 1]];
      k
  }

  lemma PaddedAt(before: string)
    ensures (if |before| > 0 && !IsSpace(before[|before| - 1]) then " " else "") + "@" == AtInsert(before)
  {
  }

  /** The `@` button's insertion: padded when the caret does not stand at a word boundary. */
  function AtInsert(before: string): string {
    if before != "" && !IsSpace(before[|before| - 1]) then " @" else "@"
  }

  function Step(s: State, e: Event): State {
    match e
    case ChangeText(next) => s.(text := next, mentioning := TokenAtCursor(next, s.end))
    case ChangeSelection(start, end) => s.(start := start, end := end, mentioning := TokenAtCursor(s.text, end))
    case PressAt =>
      var before := Before(s.text, s.start) + AtInsert(Before(s.text, s.start));
      var next := before + After(s.text, s.end);
      State(next, |before|, |before|, s.markers, TokenAtCursor(next, |before|))
    case SelectMention(m) =>
      if s.mentioning.None? then s
      else
        var token := s.mentioning.value;
        var (next, cursor) := InsertMention(s.text, token.start, |token.query|, m);
        State(next, cursor, cursor, s.markers + [m], None)
    case InsertAtCursor(insert, offset) =>
      var before := Before(s.text, s.start) + insert;
      State(before + After(s.text, s.end), |before| - offset, |before| - offset, s.markers, None)
    case InsertAtLineStart(prefix) =>
      var at := LineStart(Before(s.text, s.start));
      var cursor := s.end + |prefix|;
      State(Before(s.text, at) + prefix + After(s.text, at), cursor, cursor, s.markers, None)
    case Restore(snap) => State(snap.text, snap.start, snap.end, snap.markers, None)
    case Reset => INITIAL
  }

  function SnapshotOf(s: State): Snapshot {
    Snapshot(s.text, s.markers, s.start, s.end)
  }

  function Run(s: State, events: seq<Event>): State {
    if events == [] then s else Step(Run(s, events[..|events| - 1]), events[|events| - 1])
  }

  // ----- The hook as an object -----

  class MentionInput {
    var text: string
    var start: int
    var end: int
    var markers: seq<Marker>
    var mentioning: Option<Token>

    ghost function Now(): State
      reads this
    {
      State(text, start, end, markers, mentioning)
    }

    constructor ()
      ensures Now() == INITIAL
    {
      text, start, end, markers, mentioning := "", 0, 0, [], None;
    }

    method RecomputeMentioning(nextText: string, cursor: int)
      modifies this`mentioning
      ensures mentioning == TokenAtCursor(nextText, cursor)
    {
      mentioning := TokenAtCursorLoop(nextText, cursor);
    }

    method OnChangeText(next: string)
      modifies this
      ensures Now() == Step(old(Now()), ChangeText(next))
    {
      text := next;
      RecomputeMentioning(next, end);
    }

    method OnSelectionChange(newStart: int, newEnd: int)
      modifies this
      ensures Now() == Step(old(Now()), ChangeSelection(newStart, newEnd))
    {
      start, end := newStart, newEnd;
      RecomputeMentioning(text, newEnd);
    }

    method OnAtButtonPress()
      modifies this
      ensures Now() == Step(old(Now()), PressAt)
    {
      var before := Before(text, start);
      var after := After(text, end);
      var needsPad := |before| > 0 && !IsSpace(before[|before| - 1]);
      var inserted := (if needsPad then " " else "") + "@";
      PaddedAt(before);
      var next := before + inserted + after;
      var cursor := |before| + |inserted|;
      text := next;
      start, end := cursor, cursor;
      RecomputeMentioning(next, cursor);
    }

    method OnSelectMention(m: Marker)
      modifies this
      ensures Now() == Step(old(Now()), SelectMention(m))
    {
      if mentioning.None? {
        return;
      }
      var token := mentioning.value;
      var (newText, cursor) := InsertMention(text, token.start, |token.query|, m);
      text := newText;
      start, end := cursor, cursor;
      markers := markers + [m];
      mentioning := None;
    }

    method DoInsertAtCursor(insert: string, cursorOffsetFromEnd: int)
      modifies this
      ensures Now() == Step(old(Now()), InsertAtCursor(insert, cursorOffsetFromEnd))
    {
      var before := Before(text, start);
      var after := After(text, end);
      var cursor := |before| + |insert| - cursorOffsetFromEnd;
      text := before + insert + after;
      start, end := cursor, cursor;
      mentioning := None;
    }

    method DoInsertAtLineStart(prefix: string)
      modifies this
      ensures Now() == Step(old(Now()), InsertAtLineStart(prefix))
    {
      var lineStart := LineStart(Before(text, start));
      var cursor := end + |prefix|;
      text := Before(text, lineStart) + prefix + After(text, lineStart);
      start, end := cursor, cursor;
      mentioning := None;
    }

    method Serialize() returns (r: string)
      ensures r == SerializeMentions(text, markers)
    {
      r := SerializeMentionsLoop(text, markers);
    }

    method TakeSnapshot() returns (snap: Snapshot)
      ensures snap == SnapshotOf(Now())
    {
      snap := Snapshot(text, markers, start, end);
    }

    method DoRestore(snap: Snapshot)
      modifies this
      ensures Now() == Step(old(Now()), Restore(snap))
    {
      text, markers, start, end, mentioning := snap.text, snap.markers, snap.start, snap.end, None;
    }

    method DoReset()
      modifies this
      ensures Now() == Step(old(Now()), Reset)
    {
      text, start, end, markers, mentioning := "", 0, 0, [], None;
    }
  }

  // ----- The suggestion bar is open only on the token at the cursor -----

  ghost predicate Inv(s: State) {
    s.mentioning.Some? ==> s.mentioning == TokenAtCursor(s.text, s.end)
  }

  lemma {:induction false} RunKeepsInv(s: State, events: seq<Event>)
    requires Inv(s)
    ensures Inv(Run(s, events))
  {
    if events == [] {
    } else {
      RunKeepsInv(s, events[..|events| - 1]);
    }
  }

  /** Pressing the `@` button always opens the bar, on an empty query at the new cursor. */
  lemma {:induction false} PressAtOpens(s: State)
    ensures var t := Step(s, PressAt);
            t.end > 0 && t.mentioning == Some(Token(t.end - 1, "")) && t.text[t.end - 1] == '@'
  {
    var t := Step(s, PressAt);
    var pressed := Before(s.text, s.start) + AtInsert(Before(s.text, s.start));
    var n := |pressed|;
    PressedText(s);
    AtStandsAlone(Before(s.text, s.start));
    assert t.text[n - 1] == pressed[n - 1] && (n > 1 ==> t.text[n - 2] == pressed[n - 2]);
    TokenUnique(t.text, n, n - 1);
    assert t.text[n..n] == "";
  }

  lemma PressedText(s: State)
    ensures var t, pressed := Step(s, PressAt), Before(s.text, s.start) + AtInsert(Before(s.text, s.start));
            t.end == |pressed| && pressed <= t.text && t.mentioning == TokenAtCursor(t.text, t.end)
  {
  }

  /** The inserted `@` stands at the start of the text or behind whitespace. */
  lemma AtStandsAlone(before: string)
    ensures var pressed := before + AtInsert(before); var n := |pressed|;
            n > 0 && pressed[n - 1] == '@' && (n > 1 ==> IsSpace(pressed[n - 2]))
  {
  }

  lemma TokenUnique(text: string, cursor: int, i: nat)
    requires IsTokenStart(text, cursor, i)
    ensures TokenAtCursor(text, cursor) == Some(Token(i, text[i + 1..cursor]))
  {
    var j := TokenAtCursor(text, cursor).value.start;
    assert i == j;
  }

  /** The text around the token the bar is open on: what precedes it, and what follows the cursor. */
  function TextBefore(s: State): string
    requires s.mentioning.Some?
  {
    Before(s.text, s.mentioning.value.start)
  }

  function TextAfter(s: State): string {
    After(s.text, s.end)
  }

  lemma TokenInText(s: State)
    requires Inv(s) && s.mentioning.Some?
    ensures var token := s.mentioning.value;
            && IsTokenStart(s.text, s.end, token.start) && token.query == s.text[token.start + 1..s.end]
            && token.start + 1 + |token.query| == s.end
            && s.text == TextBefore(s) + (("@" + token.query) + TextAfter(s))
  {
    var token := s.mentioning.value;
    assert IsTokenStart(s.text, s.end, token.start);
    TokenSplitsText(s.text, token.start, s.end, token.query);
  }

  lemma RunLength(m: Marker)
    ensures |MarkedRun(m) + " "| == |m.name| + 3
  {
  }

  lemma InsertMentionMakes(text: string, start: int, queryLength: nat, m: Marker)
    ensures var before, after := Before(text, start), After(text, start + 1 + queryLength);
            var next := InsertMention(text, start, queryLength, m);
            && next.0 == before + ((MarkedRun(m) + " ") + after)
            && next.1 == |before| + |m.name| + 3
            && 1 <= next.1 <= |next.0| && next.0[next.1 - 1] == ' '
  {
    RunLength(m);
    Inserted(Before(text, start), MarkedRun(m), After(text, start + 1 + queryLength));
  }

  lemma TokenSpan(s: State)
    requires Inv(s) && s.mentioning.Some?
    ensures s.mentioning.value.start + 1 + |s.mentioning.value.query| == s.end
  {
    TokenInText(s);
  }

  /** What the bar has to know for the selection to hit its token. */
  lemma SelectedText(s: State, m: Marker)
    requires s.mentioning.Some? && s.mentioning.value.start + 1 + |s.mentioning.value.query| == s.end
    ensures var t := Step(s, SelectMention(m));
            && t.text == TextBefore(s) + ((MarkedRun(m) + " ") + TextAfter(s))
            && t.start == t.end == |TextBefore(s)| + |m.name| + 3
            && 1 <= t.end <= |t.text| && t.text[t.end - 1] == ' '
  {
    InsertMentionMakes(s.text, s.mentioning.value.start, |s.mentioning.value.query|, m);
  }

  /** After a selection the cursor stands behind a space, so no token is open. */
  lemma SelectClosesToken(s: State, m: Marker)
    requires Inv(s) && s.mentioning.Some?
    ensures var t := Step(s, SelectMention(m));
            && t.start == t.end == |TextBefore(s)| + |m.name| + 3
            && t.markers == s.markers + [m] && t.mentioning == None
            && TokenAtCursor(t.text, t.end) == None
  {
    var t := Step(s, SelectMention(m));
    TokenSpan(s);
    SelectedText(s, m);
    NoTokenAfterSpace(t.text, t.end);
  }

  /** Selecting a mention replaces exactly the `@query` that ends at the cursor. */
  lemma {:induction false} SelectReplacesToken(s: State, m: Marker)
    requires Inv(s) && s.mentioning.Some?
    ensures s.text == TextBefore(s) + (("@" + s.mentioning.value.query) + TextAfter(s))
    ensures Step(s, SelectMention(m)).text == TextBefore(s) + ((MarkedRun(m) + " ") + TextAfter(s))
  {
    assert s.text == TextBefore(s) + (("@" + s.mentioning.value.query) + TextAfter(s)) by {
      TokenInText(s);
    }
    TokenSpan(s);
    SelectedText(s, m);
  }

  lemma NoTokenAfterSpace(text: string, cursor: int)
    requires 1 <= cursor <= |text| && text[cursor - 1] == ' '
    ensures TokenAtCursor(text, cursor) == None
  {
    assert forall i :: !IsTokenStart(text, cursor, i);
  }

  lemma Inserted(before: string, run: string, after: string)
    ensures var text := before + (run + " ") + after;
            text == before + ((run + " ") + after) && text[|before| + |run|] == ' '
  {
  }

  lemma TokenSplitsText(text: string, start: nat, cursor: nat, query: string)
    requires start < cursor <= |text| && text[start] == '@' && query == text[start + 1..cursor]
    ensures text == text[..start] + (("@" + query) + text[cursor..])
  {
    assert text[start..cursor] == "@" + query;
  }

  // ----- Which selections will be linked -----

  /** Every marked run so far pairs with its marker. */
  ghost predicate AllLinked(s: State) {
    MarkedWords(s.text) == Names(s.markers)
  }

  /** A marked run at the front of a text is read up to the first whitespace. */
  lemma RunInFront(word: string, rest: string)
    requires NoSpace(word) && Breaks(rest)
    ensures MarkedWords(([SENTINEL] + "@" + word) + rest) == [word] + MarkedWords(rest)
  {
    var text := ([SENTINEL] + "@" + word) + rest;
    ReadIsSound(rest);
    ReadIsSound(text);
    RunPrefix(word, rest);
    ReadingUnique(RunAfter("", word, Read(rest, 0)), Read(text, 0));
  }

  lemma RunPrefix(word: string, rest: string)
    ensures ([SENTINEL] + "@" + word) + rest == "" + ([SENTINEL] + (['@'] + (word + rest)))
  {
  }

  lemma RunOfName(m: Marker, rest: string)
    requires NoSpace(m.name)
    ensures MarkedWords((MarkedRun(m) + " ") + rest) == [m.name] + MarkedWords(rest)
  {
    assert (MarkedRun(m) + " ") + rest == MarkedRun(m) + (" " + rest);
    RunInFront(m.name, " " + rest);
    PlainHasNoRuns(" ");
    WordsConcat(" ", rest);
  }

  /** No word read from a text contains whitespace. */
  lemma {:induction false} SpacedNameNotRead(t: Reading, name: string)
    requires !NoSpace(name) && Sound(t)
    ensures name !in Words(t)
    decreases t
  {
    if !t.Tail? {
      SpacedNameNotRead(t.rest, name);
    }
  }

  /** The cursor stands between the sentinel and the `@` of a run. */
  predicate SplitsRun(s: State)
    requires s.mentioning.Some?
  {
    Splits(s.mentioning.value.query, TextAfter(s))
  }

  predicate Splits(query: string, after: string) {
    query != "" && query[|query| - 1] == SENTINEL && after != "" && after[0] == '@'
  }

  lemma PlainInFront(c: char, rest: string)
    requires c != SENTINEL
    ensures MarkedWords([c] + rest) == MarkedWords(rest)
  {
    PlainHasNoRuns([c]);
    WordsConcat([c], rest);
  }

  lemma StrayInFront(rest: string)
    requires rest == "" || rest[0] != '@'
    ensures MarkedWords([SENTINEL] + rest) == MarkedWords(rest)
  {
    ReadIsSound(rest);
    ReadIsSound([SENTINEL] + rest);
    var t := StrayAfter("", Read(rest, 0));
    assert Source(t) == [SENTINEL] + rest;
    ReadingUnique(t, Read([SENTINEL] + rest, 0));
  }

  /** Text without `@` puts no run in front of what follows it, unless it ends inside a run. */
  lemma {:induction false} NoRunsInFront(query: string, after: string)
    requires '@' !in query && !Splits(query, after)
    ensures MarkedWords(query + after) == MarkedWords(after)
  {
    if query == "" {
      assert query + after == after;
    } else {
      var rest := query[1..];
      assert query + after == [query[0]] + (rest + after);
      NoRunsInFront(rest, after);
      if query[0] == SENTINEL {
        StrayInFront(rest + after);
      } else {
        PlainInFront(query[0], rest + after);
      }
    }
  }

  lemma QueryHasNoRuns(query: string, after: string)
    requires '@' !in query && !Splits(query, after)
    ensures MarkedWords(("@" + query) + after) == MarkedWords(after)
  {
    assert ("@" + query) + after == "@" + (query + after);
    PlainInFront('@', query + after);
    NoRunsInFront(query, after);
  }

  lemma QueryHasNoAt(s: State)
    requires Inv(s) && s.mentioning.Some?
    ensures '@' !in s.mentioning.value.query
  {
    var token := s.mentioning.value;
    forall k | 0 <= k < |token.query| ensures token.query[k] != '@' {
      assert token.query[k] == s.text[token.start + 1 + k];
    }
  }

  /** What precedes the token leaves nothing open. */
  lemma BeforeIsSettled(s: State)
    requires Inv(s) && s.mentioning.Some?
    ensures Settled(Read(TextBefore(s), 0))
  {
    var before, start := TextBefore(s), s.mentioning.value.start;
    assert before == s.text[..start];
    assert before != "" ==> before[|before| - 1] == s.text[start - 1];
    ReadIsSound(before);
    EndsInSpaceIsSettled(Read(before, 0));
  }

  lemma SelectWords(s: State, m: Marker)
    requires Inv(s) && s.mentioning.Some?
    ensures MarkedWords(s.text)
         == MarkedWords(TextBefore(s)) + MarkedWords(("@" + s.mentioning.value.query) + TextAfter(s))
    ensures MarkedWords(Step(s, SelectMention(m)).text)
         == MarkedWords(TextBefore(s)) + MarkedWords((MarkedRun(m) + " ") + TextAfter(s))
  {
    SelectReplacesToken(s, m);
    BeforeIsSettled(s);
    WordsConcat(TextBefore(s), ("@" + s.mentioning.value.query) + TextAfter(s));
    WordsConcat(TextBefore(s), (MarkedRun(m) + " ") + TextAfter(s));
  }

  /** The runs of a query that ends inside a run, and of what is left of that run once the query is replaced. */
  lemma SplitRun(query: string, after: string) returns (word: string, broken: seq<string>, others: seq<string>)
    requires '@' !in query && Splits(query, after)
    ensures MarkedWords(("@" + query) + after) == [word] + others
    ensures MarkedWords(after) == broken + others
    ensures forall w :: w in broken ==> |w| < |word|
  {
    var e, init := WordEnd(after, 1), query[..|query| - 1];
    WordEndIs(after, 1);
    word := after[1..e];
    var rest := after[e..];
    assert query == init + [SENTINEL];
    assert after == ("@" + word) + rest;
    assert ("@" + query) + after == ("@" + init) + (([SENTINEL] + "@" + word) + rest);
    QueryHasNoRuns(init, ([SENTINEL] + "@" + word) + rest);
    RunInFront(word, rest);
    WordsConcat("@" + word, rest);
    broken, others := MarkedWords("@" + word), MarkedWords(rest);
    ReadIsSound("@" + word);
    WordsAreShort(Read("@" + word, 0));
  }

  lemma {:induction false} WordsAreShort(t: Reading)
    ensures forall w :: w in Words(t) ==> |w| + 2 <= |Source(t)|
    decreases t
  {
    if !t.Tail? {
      WordsAreShort(t.rest);
    }
  }

  /** A run that loses its sentinel leaves its marker without a run, whatever is selected. */
  lemma SplitNeverLinks(name: string, word: string, broken: seq<string>, others: seq<string>)
    requires forall w :: w in broken ==> |w| < |word|
    ensures [name] + (broken + others) != ([word] + others) + [name]
  {
    var x, y := [name] + (broken + others), ([word] + others) + [name];
    if |broken| != 1 {
      assert |x| != |y|;
    } else if name != word {
      assert x[0] != y[0];
    } else {
      var w := broken[0];
      assert broken == [w];
      assert multiset(x)[w] == 1 + multiset(others)[w];
      assert multiset(y)[w] == multiset(others)[w];
    }
  }

  /**
   * Selecting a mention keeps all mentions linked exactly when its name has no whitespace, the cursor does
   * not stand inside another run, and every mention after the cursor bears that same name: markers are
   * listed in the order of selection, not of position.
   */
  lemma SelectLinksExactly(s: State, m: Marker)
    requires Inv(s) && AllLinked(s) && s.mentioning.Some?
    ensures AllLinked(Step(s, SelectMention(m))) <==>
            NoSpace(m.name) && !SplitsRun(s) && forall w :: w in MarkedWords(TextAfter(s)) ==> w == m.name
  {
    var next := Step(s, SelectMention(m));
    assert Names(next.markers) == Names(s.markers) + [m.name];
    if NoSpace(m.name) {
      SelectWords(s, m);
      QueryHasNoAt(s);
      RunOfName(m, TextAfter(s));
      SelectedNames(MarkedWords(TextBefore(s)), s.mentioning.value.query, TextAfter(s), m.name);
    } else {
      ReadIsSound(next.text);
      SpacedNameNotRead(Read(next.text, 0), m.name);
      assert Names(next.markers)[|s.markers|] == m.name;
    }
  }

  /** The runs after a selection against the names of the markers. */
  lemma SelectedNames(b: seq<string>, query: string, after: string, name: string)
    requires '@' !in query
    ensures b + ([name] + MarkedWords(after)) == (b + MarkedWords(("@" + query) + after)) + [name]
            <==> !Splits(query, after) && forall w :: w in MarkedWords(after) ==> w == name
  {
    var c, q := MarkedWords(after), MarkedWords(("@" + query) + after);
    assert (b + q) + [name] == b + (q + [name]);
    PrefixCancels(b, [name] + c, q + [name]);
    if Splits(query, after) {
      var word, broken, others := SplitRun(query, after);
      SplitNeverLinks(name, word, broken, others);
    } else {
      QueryHasNoRuns(query, after);
      CommutesExactly(name, c);
    }
  }

  lemma PrefixCancels(b: seq<string>, x: seq<string>, y: seq<string>)
    ensures b + x == b + y <==> x == y
  {
    if b + x == b + y {
      assert x == (b + x)[|b|..] && y == (b + y)[|b|..];
    }
  }

  lemma {:induction false} CommutesExactly(name: string, c: seq<string>)
    ensures [name] + c == c + [name] <==> forall w :: w in c ==> w == name
  {
    if c == [] {
    } else {
      var rest := c[1..];
      assert c == [c[0]] + rest;
      CommutesExactly(name, rest);
      if c[0] == name {
        assert [name] + c == [name] + ([name] + rest) && c + [name] == [name] + (rest + [name]);
        PrefixCancels([name], [name] + rest, rest + [name]);
        assert forall w :: w in c <==> w == name || w in rest;
      } else {
        assert ([name] + c)[0] != (c + [name])[0];
        assert c[0] in c;
      }
    }
  }

  // ----- Runs -----

  /** The text changed, if at all, by replacing sentinel-free text by sentinel-free text away from any open run. */
  ghost predicate PlainEdit(was: string, next: string) {
    was == next || exists a, x, y, b :: Replaced(was, next, a, x, y, b)
  }

  ghost predicate Replaced(was: string, next: string, a: string, x: string, y: string, b: string) {
    && was == a + (x + b) && next == a + (y + b) && SENTINEL !in x && SENTINEL !in y
    && (Settled(Read(a, 0)) || (Breaks(x + b) && Breaks(y + b)))
  }

  /** The selection lies in the text and holds no sentinel. */
  predicate PlainSelection(s: State) {
    0 <= s.start <= s.end <= |s.text| && SENTINEL !in s.text[s.start..s.end]
  }

  /** No run is open where the selection starts. */
  predicate ClosedCaret(s: State) {
    Settled(Read(Before(s.text, s.start), 0))
  }

  /** Whitespace, or nothing, follows the place where the selection starts. */
  predicate BreakAtCaret(s: State, insert: string)
    requires PlainSelection(s)
  {
    Breaks(s.text[s.start..]) && Breaks(insert + After(s.text, s.end))
  }

  /**
   * Events that treat inserted mentions with care: a name without whitespace is selected after all other
   * mentions, and everything else edits plain text away from any run that is still open. Restoring a
   * snapshot is judged by the run it occurs in.
   */
  ghost predicate Careful(s: State, e: Event) {
    match e
    case SelectMention(m) =>
      s.mentioning.Some? ==>
        && !SplitsRun(s) && NoSpace(m.name)
        && forall w :: w in MarkedWords(TextAfter(s)) ==> w == m.name
    case ChangeText(next) => PlainEdit(s.text, next)
    case ChangeSelection(_, _) => true
    case PressAt => PlainSelection(s) && (ClosedCaret(s) || Breaks(s.text[s.start..]))
    case InsertAtCursor(insert, _) =>
      PlainSelection(s) && SENTINEL !in insert && (ClosedCaret(s) || BreakAtCaret(s, insert))
    case InsertAtLineStart(prefix) => SENTINEL !in prefix
    case Restore(_) => true
    case Reset => true
  }

  /** Every event is careful, and every snapshot restored was taken earlier in the same run. */
  ghost predicate CarefulRun(s: State, events: seq<Event>) {
    forall n :: 0 <= n < |events| ==> Careful(Run(s, events[..n]), events[n]) && TakenBefore(s, events, n)
  }

  ghost predicate TakenBefore(s: State, events: seq<Event>, n: nat)
    requires n < |events|
  {
    events[n].Restore? ==> exists k: nat :: TakenAt(s, events, n, k)
  }

  ghost predicate TakenAt(s: State, events: seq<Event>, n: nat, k: nat)
    requires n < |events| && events[n].Restore?
  {
    k <= n && events[n].snap == SnapshotOf(Run(s, events[..k]))
  }

  // ----- Careful handlers make plain edits -----

  lemma SpliceIsPlain(text: string, i: nat, j: nat, insert: string)
    requires i <= j <= |text| && SENTINEL !in text[i..j] && SENTINEL !in insert
    requires Settled(Read(text[..i], 0)) || (Breaks(text[i..]) && Breaks(insert + text[j..]))
    ensures PlainEdit(text, text[..i] + insert + text[j..])
  {
    var a, x, b := text[..i], text[i..j], text[j..];
    assert text[i..] == x + b;
    assert text == a + (x + b);
    Associative(a, insert, b);
    assert Replaced(text, a + insert + b, a, x, insert, b);
  }

  lemma SettledAfterSpace(a: string)
    requires a == "" || IsSpace(a[|a| - 1])
    ensures Settled(Read(a, 0))
  {
    ReadIsSound(a);
    EndsInSpaceIsSettled(Read(a, 0));
  }

  lemma InsertIsPlain(s: State, insert: string)
    requires PlainSelection(s) && SENTINEL !in insert && (ClosedCaret(s) || BreakAtCaret(s, insert))
    ensures PlainEdit(s.text, Before(s.text, s.start) + insert + After(s.text, s.end))
  {
    SpliceIsPlain(s.text, s.start, s.end, insert);
  }

  lemma PressIsPlain(s: State)
    requires PlainSelection(s) && (ClosedCaret(s) || Breaks(s.text[s.start..]))
    ensures PlainEdit(s.text, Step(s, PressAt).text)
  {
    var before := Before(s.text, s.start);
    if before == "" || IsSpace(before[|before| - 1]) {
      SettledAfterSpace(before);
    } else {
      assert AtInsert(before)[0] == ' ';
    }
    InsertIsPlain(s, AtInsert(before));
  }

  lemma LineStartSettled(text: string, start: int)
    ensures var at := LineStart(Before(text, start)); at <= |text| && Settled(Read(text[..at], 0))
  {
    var before := Before(text, start);
    var at := LineStart(before);
    assert text[..at] == before[..at];
    assert at > 0 ==> text[..at][at - 1] == '\n';
    SettledAfterSpace(text[..at]);
  }

  lemma LineStartIsPlain(s: State, prefix: string)
    requires SENTINEL !in prefix
    ensures PlainEdit(s.text, Step(s, InsertAtLineStart(prefix)).text)
  {
    LineStartSettled(s.text, s.start);
    var at := LineStart(Before(s.text, s.start));
    SpliceIsPlain(s.text, at, at, prefix);
  }

  /** Every careful event but a selection or a restored snapshot makes a plain edit or none. */
  lemma CarefulIsPlain(s: State, e: Event)
    requires Careful(s, e) && !e.SelectMention? && !e.Restore? && !e.Reset?
    ensures PlainEdit(s.text, Step(s, e).text) && Step(s, e).markers == s.markers
  {
    match e
    case PressAt => PressIsPlain(s);
    case InsertAtCursor(insert, _) => InsertIsPlain(s, insert);
    case InsertAtLineStart(prefix) => LineStartIsPlain(s, prefix);
    case ChangeText(_) =>
    case ChangeSelection(_, _) =>
  }

  lemma PlainEditKeeps(was: string, next: string)
    requires PlainEdit(was, next)
    ensures MarkedWords(was) == MarkedWords(next)
  {
    if was != next {
      var a, x, y, b :| Replaced(was, next, a, x, y, b);
      PlainEditKeepsRuns(a, x, y, b);
    }
  }

  lemma CarefulKeepsLinked(s: State, e: Event)
    requires Inv(s) && AllLinked(s) && Careful(s, e) && !e.Restore?
    ensures AllLinked(Step(s, e))
  {
    if e.SelectMention? {
      if s.mentioning.Some? {
        SelectLinksExactly(s, e.m);
      }
    } else if e.Reset? {
      PlainHasNoRuns("");
    } else {
      CarefulIsPlain(s, e);
      PlainEditKeeps(s.text, Step(s, e).text);
    }
  }

  /** Whatever happened since a snapshot was taken, restoring it brings back everything but the suggestion bar. */
  lemma SnapshotBringsBack(s: State, events: seq<Event>)
    ensures Step(Run(s, events), Restore(SnapshotOf(s))) == s.(mentioning := None)
    ensures AllLinked(Step(Run(s, events), Restore(SnapshotOf(s)))) <==> AllLinked(s)
  {
  }

  lemma {:induction false} CarefulPrefixLinked(s: State, events: seq<Event>, k: nat)
    requires Inv(s) && AllLinked(s) && CarefulRun(s, events) && k <= |events|
    ensures AllLinked(Run(s, events[..k]))
  {
    if k > 0 {
      var n := k - 1;
      assert events[..k][..n] == events[..n] && events[..k][n] == events[n];
      assert Careful(Run(s, events[..n]), events[n]) && TakenBefore(s, events, n);
      if events[n].Restore? {
        var j: nat :| TakenAt(s, events, n, j);
        CarefulPrefixLinked(s, events, j);
      } else {
        CarefulPrefixLinked(s, events, n);
        RunKeepsInv(s, events[..n]);
        CarefulKeepsLinked(Run(s, events[..n]), events[n]);
      }
    }
  }

  /**
   * Every run that selects whitespace-free names after all earlier mentions and edits only plain text
   * outside them ends with every mention linked, snapshots and all.
   */
  lemma CarefulRunLinksAll(s: State, events: seq<Event>)
    requires Inv(s) && AllLinked(s) && CarefulRun(s, events)
    ensures var t := Run(s, events);
            && AllLinked(t)
            && SerializeMentions(t.text, t.markers) == Weave(Between(Read(t.text, 0)), LinkTexts(t.markers))
  {
    CarefulPrefixLinked(s, events, |events|);
    assert events[..|events|] == events;
    AllOrNothing(Run(s, events).text, Run(s, events).markers);
  }

  /** In particular, a fresh composer that is used with care sends every mention as a link. */
  lemma FreshComposerLinksAll(events: seq<Event>)
    requires CarefulRun(INITIAL, events)
    ensures var t := Run(INITIAL, events);
            MarkedWords(t.text) == Names(t.markers)
            && SerializeMentions(t.text, t.markers) == Weave(Between(Read(t.text, 0)), LinkTexts(t.markers))
  {
    PlainHasNoRuns("");
    CarefulRunLinksAll(INITIAL, events);
  }
}
