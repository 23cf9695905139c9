/**
 * Mentions as text: an invisible sentinel marks every `@name` that came from the suggestion bar.
 * The scanner finds the token being typed, the serializer turns marked runs into links.
 * Positions count characters.
 */
module MentionText {
  import opened Common

  const SENTINEL: char := '\U{2063}'

  predicate HasSpace(s: string) {
    exists i :: 0 <= i < |s| && IsSpace(s[i])
  }

  datatype Kind = Member | Agent | Squad | All | Issue

  datatype Marker = Marker(kind: Kind, id: string, name: string)

  datatype Token = Token(start: nat, query: string)

  // ----- tokenAtCursor -----

  /** An `@` at a word boundary from which the text runs to the cursor without whitespace or another `@`. */
  ghost predicate IsTokenStart(text: string, cursor: int, i: int) {
    && 0 <= i < cursor <= |text| && text[i] == '@'
    && (i > 0 ==> IsSpace(text[i - 1]))
    && forall j :: i < j < cursor ==> text[j] != '@' && !IsSpace(text[j])
  }

  /** The nearest `@` at or before i with no whitespace after it, or -1. */
  function WalkBack(text: string, i: int): (r: int)
    requires -1 <= i < |text|
    ensures -1 <= r <= i
    ensures r >= 0 ==> text[r] == '@' && forall j :: r < j <= i ==> text[j] != '@' && !IsSpace(text[j])
    ensures r < 0 ==> forall k :: 0 <= k <= i && text[k] == '@' ==> exists j :: k < j <= i && IsSpace(text[j])
    decreases i + 1
  {
    if i < 0 then -1
    else if text[i] == '@' then i
    else if IsSpace(text[i]) then -1
    else WalkBack(text, i - 1)
  }

  /** The token the cursor stands at the end of, if any; there is never more than one. */
  function TokenAtCursor(text: string, cursor: int): (r: Option<Token>)
    ensures r.Some? ==> IsTokenStart(text, cursor, r.value.start) && r.value.query == text[r.value.start + 1..cursor]
    ensures r.None? ==> forall i :: !IsTokenStart(text, cursor, i)
  {
    if cursor < 1 || cursor > |text| then None
    else
      var i := WalkBack(text, cursor - 1);
      if i < 0 || (i > 0 && (text[i - 1] == SENTINEL || !IsSpace(text[i - 1]))) then None
      else Some(Token(i, text[i + 1..cursor]))
  }

  method TokenAtCursorLoop(text: string, cursor: int) returns (r: Option<Token>)
    ensures r == TokenAtCursor(text, cursor)
  {
    if cursor < 1 || cursor > |text| {
      return None;
    }
    var i := cursor - 1;
    while i >= 0
      invariant -1 <= i < cursor
      invariant WalkBack(text, cursor - 1) == WalkBack(text, i)
      decreases i + 1
    {
      if text[i] == '@' {
        break;
      }
      if IsSpace(text[i]) {
        return None;
      }
      i := i - 1;
    }
    if i < 0 {
      return None;
    }
    if i > 0 && text[i - 1] == SENTINEL {
      return None;
    }
    if i > 0 && !IsSpace(text[i - 1]) {
      return None;
    }
    var query := text[i + 1..cursor];
    QueryHasNoSpace(text, cursor, i);
    if HasSpace(query) {
      return None;
    }
    return Some(Token(i, query));
  }

  /** The last test of the scan never fires: the walk back has passed no whitespace. */
  lemma QueryHasNoSpace(text: string, cursor: int, i: nat)
    requires 1 <= cursor <= |text| && i == WalkBack(text, cursor - 1)
    ensures !HasSpace(text[i + 1..cursor])
  {
    var query := text[i + 1..cursor];
    forall k | 0 <= k < |query| ensures !IsSpace(query[k]) {
      assert query[k] == text[i + 1 + k];
    }
  }

  // ----- insertMention -----

  /** An index as String.slice reads it: from the end when negative, then kept within the text. */
  function SliceIndex(n: int, length: nat): nat {
    if n >= length then length
    else if n >= 0 then n
    else if length + n >= 0 then length + n
    else 0
  }

  function Before(text: string, n: int): string {
    text[..SliceIndex(n, |text|)]
  }

  function After(text: string, n: int): string {
    text[SliceIndex(n, |text|)..]
  }

  function MarkedRun(m: Marker): string {
    [SENTINEL] + "@" + m.name
  }

  /** The new text and the new cursor. */
  function InsertMention(text: string, start: int, queryLength: nat, m: Marker): (string, nat) {
    var before := Before(text, start);
    var insert := MarkedRun(m) + " ";
    (before + insert + After(text, start + 1 + queryLength), |before| + |insert|)
  }

  // ----- serializeMentions -----

  function KindName(k: Kind): string {
    match k
    case Member => "member"
    case Agent => "agent"
    case Squad => "squad"
    case All => "all"
    case Issue => "issue"
  }

  function LinkText(m: Marker): string {
    "[" + (if m.kind == Issue then m.name else "@" + m.name) + "](mention://" + KindName(m.kind) + "/" + m.id + ")"
  }

  /** Where the next sentinel at or after i is, or the end of the text. */
  function NextSentinel(text: string, i: nat): (k: nat)
    requires i <= |text|
    ensures i <= k <= |text|
    decreases |text| - i
  {
    if i == |text| || text[i] == SENTINEL then i else NextSentinel(text, i + 1)
  }

  /** Where the word that starts at i ends: the next whitespace, or the end of the text. */
  function WordEnd(text: string, i: nat): (k: nat)
    requires i <= |text|
    ensures i <= k <= |text|
    decreases |text| - i
  {
    if i == |text| || IsSpace(text[i]) then i else WordEnd(text, i + 1)
  }

  lemma {:induction false} NextSentinelIs(text: string, i: nat)
    requires i <= |text|
    ensures var k := NextSentinel(text, i);
            (k < |text| ==> text[k] == SENTINEL) && SENTINEL !in text[i..k]
    decreases |text| - i
  {
    if i == |text| || text[i] == SENTINEL {
    } else {
      NextSentinelIs(text, i + 1);
      assert text[i..NextSentinel(text, i)] == [text[i]] + text[i + 1..NextSentinel(text, i)];
    }
  }

  lemma {:induction false} WordEndIs(text: string, i: nat)
    requires i <= |text|
    ensures var k := WordEnd(text, i);
            (k < |text| ==> IsSpace(text[k])) && forall j :: i <= j < k ==> !IsSpace(text[j])
    decreases |text| - i
  {
    if i == |text| || IsSpace(text[i]) {
    } else {
      WordEndIs(text, i + 1);
    }
  }

  /** The sentinel at k opens a marked run. */
  predicate OpensRun(text: string, k: nat) {
    k + 1 < |text| && text[k + 1] == '@'
  }

  /** A text as the serializer reads it: stretches of plain text, each ended by a stray sentinel or a marked run. */
  datatype Reading =
    | Tail(s: string)
    | StrayAfter(before: string, rest: Reading)
    | RunAfter(before: string, word: string, rest: Reading)

  function Read(text: string, i: nat): Reading
    requires i <= |text|
    decreases |text| - i
  {
    var k := NextSentinel(text, i);
    if k == |text| then Tail(text[i..])
    else if !OpensRun(text, k) then StrayAfter(text[i..k], Read(text, k + 1))
    else
      var e := WordEnd(text, k + 2);
      RunAfter(text[i..k], text[k + 2..e], Read(text, e))
  }

  /** The words of the marked runs, in order. */
  function Words(t: Reading): seq<string> {
    match t
    case Tail(_) => []
    case StrayAfter(_, rest) => Words(rest)
    case RunAfter(_, word, rest) => [word] + Words(rest)
  }

  /** The runs and the markers from n on correspond one to one, in order. */
  predicate Pairs(t: Reading, markers: seq<Marker>, n: nat)
    requires n <= |markers|
  {
    match t
    case Tail(_) => n == |markers|
    case StrayAfter(_, rest) => Pairs(rest, markers, n)
    case RunAfter(_, word, rest) => n < |markers| && markers[n].name == word && Pairs(rest, markers, n + 1)
  }

  /** Strays dropped, runs replaced by the links of their markers. */
  function Render(t: Reading, markers: seq<Marker>, n: nat): string
    requires n <= |markers| && Pairs(t, markers, n)
  {
    match t
    case Tail(s) => s
    case StrayAfter(before, rest) => before + Render(rest, markers, n)
    case RunAfter(before, _, rest) => before + (LinkText(markers[n]) + Render(rest, markers, n + 1))
  }

  function Strip(text: string): (r: string)
    ensures SENTINEL !in r
    ensures SENTINEL !in text ==> r == text
  {
    if text == "" then ""
    else if text[0] == SENTINEL then Strip(text[1..])
    else
      assert text == [text[0]] + text[1..];
      [text[0]] + Strip(text[1..])
  }

  function SerializeMentions(text: string, markers: seq<Marker>): string {
    if SENTINEL !in text then text
    else if Pairs(Read(text, 0), markers, 0) then Render(Read(text, 0), markers, 0)
    else Strip(text)
  }

  // ----- serializeMentions as a loop -----

  /** Read, one step at a time. */
  lemma ReadStep(text: string, i: nat, k: nat)
    requires i <= |text| && k == NextSentinel(text, i)
    ensures k == |text| ==> Read(text, i) == Tail(text[i..])
    ensures k < |text| && !OpensRun(text, k) ==> Read(text, i) == StrayAfter(text[i..k], Read(text, k + 1))
    ensures k < |text| && OpensRun(text, k) ==>
              var e := WordEnd(text, k + 2);
              Read(text, i) == RunAfter(text[i..k], text[k + 2..e], Read(text, e))
  {
  }

  function Join(out: seq<string>): string {
    if out == [] then "" else Join(out[..|out| - 1]) + out[|out| - 1]
  }

  /** The chunks the loop will have pushed in the end, or None if it will abort or leave markers over. */
  ghost function Pushed(out: seq<string>, t: Reading, markers: seq<Marker>, n: nat): Option<seq<string>>
    requires n <= |markers|
    decreases t
  {
    match t
    case Tail(s) => if n == |markers| then Some(out + [s]) else None
    case StrayAfter(before, rest) => Pushed(out + [before], rest, markers, n)
    case RunAfter(before, word, rest) =>
      if n < |markers| && markers[n].name == word
      then Pushed(out + [before] + [LinkText(markers[n])], rest, markers, n + 1)
      else None
  }

  /** Pushed, one step at a time. */
  lemma PushedStep(out: seq<string>, t: Reading, markers: seq<Marker>, n: nat)
    requires n <= |markers|
    ensures t.StrayAfter? ==> Pushed(out, t, markers, n) == Pushed(out + [t.before], t.rest, markers, n)
    ensures t.RunAfter? && n < |markers| && markers[n].name == t.word ==>
              Pushed(out, t, markers, n) == Pushed(out + [t.before] + [LinkText(markers[n])], t.rest, markers, n + 1)
    ensures t.RunAfter? && (n == |markers| || markers[n].name != t.word) ==> Pushed(out, t, markers, n) == None
  {
  }

  lemma JoinPush(out: seq<string>, s: string)
    ensures Join(out + [s]) == Join(out) + s
  {
    assert (out + [s])[..|out|] == out;
  }

  /** The pushed chunks, joined, are the rendered reading. */
  lemma {:induction false} PushedIsRender(out: seq<string>, t: Reading, markers: seq<Marker>, n: nat)
    requires n <= |markers|
    ensures Pushed(out, t, markers, n).Some? <==> Pairs(t, markers, n)
    ensures Pairs(t, markers, n) ==> Join(Pushed(out, t, markers, n).value) == Join(out) + Render(t, markers, n)
    decreases t
  {
    PushedStep(out, t, markers, n);
    match t
    case Tail(s) =>
      JoinPush(out, s);
    case StrayAfter(before, rest) =>
      JoinPush(out, before);
      PushedIsRender(out + [before], rest, markers, n);
      if Pairs(rest, markers, n) {
        Associative(Join(out), before, Render(rest, markers, n));
      }
    case RunAfter(before, word, rest) =>
      if n < |markers| && markers[n].name == word {
        JoinTwo(out, before, LinkText(markers[n]));
        PushedIsRender(out + [before] + [LinkText(markers[n])], rest, markers, n + 1);
        if Pairs(rest, markers, n + 1) {
          Associative(Join(out) + before, LinkText(markers[n]), Render(rest, markers, n + 1));
          Associative(Join(out), before, LinkText(markers[n]) + Render(rest, markers, n + 1));
        }
      }
  }

  lemma JoinTwo(out: seq<string>, x: string, y: string)
    ensures Join(out + [x] + [y]) == Join(out) + x + y
  {
    JoinPush(out, x);
    JoinPush(out + [x], y);
  }

  /** How a turn of the loop ends: at its bottom or by continue, by the break at the end of the text, or by
    * the abort. */
  datatype Turn = Goes | Finishes | Aborts

  /** The loop's variables besides the cursor. */
  datatype Progress = Progress(turn: Turn, out: seq<string>, markerIndex: nat)

  /** What one turn makes of them, when the rest of the text reads as `t`. */
  function AfterTurn(p: Progress, t: Reading, markers: seq<Marker>): (q: Progress)
    requires p.markerIndex <= |markers|
    ensures q.markerIndex <= |markers|
  {
    match t
    case Tail(s) => Progress(Finishes, p.out + [s], p.markerIndex)
    case StrayAfter(before, _) => Progress(Goes, p.out + [before], p.markerIndex)
    case RunAfter(before, word, _) =>
      if p.markerIndex < |markers| && markers[p.markerIndex].name == word
      then Progress(Goes, p.out + [before] + [LinkText(markers[p.markerIndex])], p.markerIndex + 1)
      else Progress(Aborts, p.out + [before], p.markerIndex)
  }

  /** What the loop will have pushed in the end, when the rest of the text reads as `t`. */
  ghost function Outcome(p: Progress, t: Reading, markers: seq<Marker>): Option<seq<string>>
    requires p.markerIndex <= |markers|
  {
    match p.turn
    case Goes => Pushed(p.out, t, markers, p.markerIndex)
    case Finishes => if p.markerIndex == |markers| then Some(p.out) else None
    case Aborts => None
  }

  /** No turn changes the outcome. */
  lemma TurnKeepsOutcome(p: Progress, t: Reading, markers: seq<Marker>)
    requires p.markerIndex <= |markers| && p.turn == Goes
    ensures Outcome(AfterTurn(p, t, markers), if t.Tail? then t else t.rest, markers) == Outcome(p, t, markers)
  {
    PushedStep(p.out, t, markers, p.markerIndex);
  }

  lemma ReadStray(text: string, i: nat, k: nat)
    requires i <= |text| && k == NextSentinel(text, i) < |text| && !OpensRun(text, k)
    ensures Read(text, i) == StrayAfter(text[i..k], Read(text, k + 1))
  {
    ReadStep(text, i, k);
  }

  lemma ReadRun(text: string, i: nat, k: nat, e: nat)
    requires i <= |text| && k == NextSentinel(text, i) < |text| && OpensRun(text, k) && e == WordEnd(text, k + 2)
    ensures Read(text, i) == RunAfter(text[i..k], text[k + 2..e], Read(text, e))
  {
    ReadStep(text, i, k);
  }

  /** One turn of the loop. */
  method SerializeTurn(text: string, cursor: nat, p: Progress, markers: seq<Marker>) returns (q: Progress, next: nat)
    requires cursor < |text| && p.markerIndex <= |markers|
    ensures next <= |text| && q == AfterTurn(p, Read(text, cursor), markers)
    ensures q.turn == Goes ==> cursor < next && !Read(text, cursor).Tail? && Read(text, next) == Read(text, cursor).rest
  {
    var out, markerIndex := p.out, p.markerIndex;
    var sentinelAt := NextSentinel(text, cursor);
    if sentinelAt == |text| {
      ReadStep(text, cursor, sentinelAt);
      return Progress(Finishes, out + [text[cursor..]], markerIndex), cursor;
    }
    out := out + [text[cursor..sentinelAt]];
    if sentinelAt + 1 >= |text| || text[sentinelAt + 1] != '@' {
      ReadStray(text, cursor, sentinelAt);
      return Progress(Goes, out, markerIndex), sentinelAt + 1;
    }
    var wordEnd := EndOfWord(text, sentinelAt + 2);
    var word := text[sentinelAt + 2..wordEnd];
    ReadRun(text, cursor, sentinelAt, wordEnd);
    if markerIndex == |markers| || markers[markerIndex].name != word {
      return Progress(Aborts, out, markerIndex), cursor;
    }
    out := out + [LinkText(markers[markerIndex])];
    return Progress(Goes, out, markerIndex + 1), wordEnd;
  }

  method SerializeMentionsLoop(text: string, markers: seq<Marker>) returns (r: string)
    ensures r == SerializeMentions(text, markers)
  {
    if SENTINEL !in text {
      return text;
    }
    var p, cursor := Progress(Goes, [], 0), 0;
    ghost var left := Read(text, 0);
    ghost var goal := Outcome(p, left, markers);
    while cursor < |text| && p.turn == Goes
      invariant cursor <= |text| && p.markerIndex <= |markers|
      invariant p.turn == Goes ==> left == Read(text, cursor)
      invariant Outcome(p, left, markers) == goal
      decreases if p.turn == Goes then |text| - cursor + 1 else 0
    {
      TurnKeepsOutcome(p, left, markers);
      p, cursor := SerializeTurn(text, cursor, p, markers);
      left := if left.Tail? then left else left.rest;
    }
    WholeReading(text, markers);
    if p.turn == Goes {
      ReadEnd(text);
    }
    if p.turn == Aborts || p.markerIndex != |markers| {
      return Strip(text);
    }
    JoinNothing(p.out);
    return Join(p.out);
  }

  lemma ReadEnd(text: string)
    ensures Read(text, |text|) == Tail("")
  {
    ReadStep(text, |text|, |text|);
  }

  lemma JoinNothing(out: seq<string>)
    ensures Join(out + [""]) == Join(out)
  {
    JoinPush(out, "");
    assert Join(out) + "" == Join(out);
  }

  /** The inner loop: read on until whitespace or the end of the text. */
  method EndOfWord(text: string, start: nat) returns (wordEnd: nat)
    requires start <= |text|
    ensures wordEnd == WordEnd(text, start)
  {
    wordEnd := start;
    while wordEnd < |text| && !IsSpace(text[wordEnd])
      invariant start <= wordEnd <= |text|
      invariant WordEnd(text, start) == WordEnd(text, wordEnd)
    {
      wordEnd := wordEnd + 1;
    }
  }

  lemma WholeReading(text: string, markers: seq<Marker>)
    ensures var pushed, t := Pushed([], Read(text, 0), markers, 0), Read(text, 0);
            if Pairs(t, markers, 0) then pushed.Some? && Join(pushed.value) == Render(t, markers, 0) else pushed.None?
  {
    PushedIsRender([], Read(text, 0), markers, 0);
    if Pairs(Read(text, 0), markers, 0) {
      assert "" + Render(Read(text, 0), markers, 0) == Render(Read(text, 0), markers, 0);
    }
  }
}
