/** What each handler of the composer does to the text, the caret, the markers and the suggestion bar. */
module MentionHandlers {
  import opened Common
  import opened MentionText
  import opened MentionProofs
  import opened MentionComposer

  // ----- The bar -----

  /** The bar is open exactly on the token that ends at the cursor: an `@` at a word boundary, and what is typed
    * since. */
  ghost predicate BarShowsToken(t: State) {
    && (t.mentioning.Some? <==> exists i :: IsTokenStart(t.text, t.end, i))
    && forall i :: IsTokenStart(t.text, t.end, i) ==> t.mentioning == Some(Token(i, t.text[i + 1..t.end]))
  }

  lemma TokenShows(text: string, cursor: int)
    ensures TokenAtCursor(text, cursor).Some? <==> exists i :: IsTokenStart(text, cursor, i)
    ensures forall i :: IsTokenStart(text, cursor, i) ==>
              TokenAtCursor(text, cursor) == Some(Token(i, text[i + 1..cursor]))
  {
    forall i | IsTokenStart(text, cursor, i)
      ensures TokenAtCursor(text, cursor) == Some(Token(i, text[i + 1..cursor]))
    {
      TokenUnique(text, cursor, i);
    }
    if TokenAtCursor(text, cursor).Some? {
      assert IsTokenStart(text, cursor, TokenAtCursor(text, cursor).value.start);
    }
  }

  /** Typing, moving the cursor and pressing the button decide afresh, in any state, whether the bar is open. */
  lemma BarFollowsToken(s: State, e: Event)
    requires e.ChangeText? || e.ChangeSelection? || e.PressAt?
    ensures BarShowsToken(Step(s, e))
  {
    TokenShows(Step(s, e).text, Step(s, e).end);
  }

  /** Every other handler closes the bar. */
  lemma BarCloses(s: State, e: Event)
    requires !(e.ChangeText? || e.ChangeSelection? || e.PressAt?)
    ensures Step(s, e).mentioning == None
  {
  }

  /** Typing an `@` into an empty composer opens the bar on an empty query. */
  lemma TypingOpensBar()
    ensures Run(INITIAL, [ChangeSelection(1, 1), ChangeText("@")]).mentioning == Some(Token(0, ""))
  {
    TwoSteps(INITIAL, ChangeSelection(1, 1), ChangeText("@"));
    assert IsTokenStart("@", 1, 0);
    TokenUnique("@", 1, 0);
    assert "@"[1..1] == "";
  }

  lemma TwoSteps(s: State, a: Event, b: Event)
    ensures Run(s, [a, b]) == Step(Step(s, a), b)
  {
    assert [a, b][..1] == [a] && [a][..0] == [];
    assert Run(s, [a]) == Step(Run(s, []), a);
  }

  // ----- Text, caret and markers -----

  /** An index means a place in the text: counted from the front, or from the end when negative. */
  lemma SliceMeans(text: string, n: int)
    ensures Before(text, n) + After(text, n) == text
    ensures 0 <= n <= |text| ==> Before(text, n) == text[..n] && After(text, n) == text[n..]
    ensures -|text| <= n < 0 ==> |After(text, n)| == -n
    ensures n > |text| ==> After(text, n) == ""
    ensures n < -|text| ==> Before(text, n) == ""
  {
  }

  lemma SliceInside(text: string, n: nat)
    requires n <= |text|
    ensures Before(text, n) == text[..n] && After(text, n) == text[n..]
  {
  }

  /** Typing changes the text only, moving the cursor only the selection. */
  lemma TypingKeeps(s: State, next: string, start: int, end: int)
    ensures Step(s, ChangeText(next)).(mentioning := None) == State(next, s.start, s.end, s.markers, None)
    ensures Step(s, ChangeSelection(start, end)).(mentioning := None) == State(s.text, start, end, s.markers, None)
  {
  }

  /** The text with the selection replaced. */
  function Replacing(s: State, insert: string): string
    requires 0 <= s.start <= s.end <= |s.text|
  {
    s.text[..s.start] + insert + s.text[s.end..]
  }

  /** An insertion replaces the selection, and the caret stands behind it, moved back by the offset. */
  lemma InsertReplacesSelection(s: State, insert: string, offset: int)
    requires 0 <= s.start <= s.end <= |s.text|
    ensures var t := Step(s, InsertAtCursor(insert, offset));
            && t.text == Replacing(s, insert) && t.start == t.end == s.start + |insert| - offset
            && t.markers == s.markers
  {
    SliceInside(s.text, s.start);
    SliceInside(s.text, s.end);
  }

  /** The button replaces the selection by an `@`, with a space before it exactly when a word stands there. */
  lemma PressReplacesSelection(s: State)
    requires 0 <= s.start <= s.end <= |s.text|
    ensures var t := Step(s, PressAt); var pad := s.start > 0 && !IsSpace(s.text[s.start - 1]);
            && t.text == Replacing(s, if pad then " @" else "@")
            && t.start == t.end == s.start + (if pad then 2 else 1) && t.markers == s.markers
  {
    PressedBy(s);
    PadExactly(s.text, s.start);
  }

  lemma PressedBy(s: State)
    requires 0 <= s.start <= s.end <= |s.text|
    ensures var t, insert := Step(s, PressAt), AtInsert(s.text[..s.start]);
            t.text == Replacing(s, insert) && t.start == t.end == s.start + |insert| && t.markers == s.markers
  {
    SliceInside(s.text, s.start);
    SliceInside(s.text, s.end);
  }

  lemma PadExactly(text: string, caret: nat)
    requires caret <= |text|
    ensures AtInsert(text[..caret]) == if caret > 0 && !IsSpace(text[caret - 1]) then " @" else "@"
  {
  }

  /** The line of the caret begins here: at the start of the text or behind a line break, with none in between. */
  ghost predicate IsLineStart(text: string, caret: nat, at: nat) {
    && at <= caret <= |text| && (at == 0 || text[at - 1] == '\n')
    && forall k :: at <= k < caret ==> text[k] != '\n'
  }

  /** A prefix goes to the start of the caret's line, and the caret moves along. */
  lemma PrefixGoesToLineStart(s: State, prefix: string)
    requires 0 <= s.start <= |s.text|
    ensures var t := Step(s, InsertAtLineStart(prefix));
            && t.start == t.end == s.end + |prefix| && t.markers == s.markers
            && exists at: nat :: IsLineStart(s.text, s.start, at) && t.text == s.text[..at] + prefix + s.text[at..]
  {
    var at := LineStart(s.text[..s.start]);
    assert s.text[..s.start][at..] == s.text[at..s.start];
    assert IsLineStart(s.text, s.start, at) by {
      forall k | at <= k < s.start ensures s.text[k] != '\n' {
        assert s.text[at..s.start][k - at] == s.text[k];
      }
    }
    SliceInside(s.text, at);
  }

  /** There is only one place where a line begins. */
  lemma LineStartUnique(text: string, caret: nat, a: nat, b: nat)
    requires IsLineStart(text, caret, a) && IsLineStart(text, caret, b)
    ensures a == b
  {
  }

  /** A selection adds its marker, and does nothing with the bar closed. */
  lemma InertWithoutBar(s: State, m: Marker)
    ensures s.mentioning == None ==> Step(s, SelectMention(m)) == s
    ensures s.mentioning.Some? ==> Step(s, SelectMention(m)).markers == s.markers + [m]
  {
  }

  /** A selection writes an invisible separator, an `@`, the name and a space in place of the token. */
  lemma SelectionWritesRun(s: State, m: Marker)
    requires Inv(s) && s.mentioning.Some?
    ensures Step(s, SelectMention(m)).text == TextBefore(s) + (("\U{2063}@" + m.name + " ") + TextAfter(s))
  {
    SelectReplacesToken(s, m);
    assert MarkedRun(m) == "\U{2063}@" + m.name;
  }

  /** A fresh and a reset composer are empty, with nothing marked and the bar closed. */
  lemma ResetEmpties(s: State)
    ensures Step(s, Reset) == INITIAL == State("", 0, 0, [], None)
  {
  }
}
