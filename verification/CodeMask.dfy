/**
 * Blanking code out of a message body before image references are looked for
 * (packages/core/attachments/image-sequence.ts).
 *
 * The scanner works line by line and remembers the fence it is inside. The pattern for
 * inline code spans is a parameter: all that is known of it is that it blanks characters.
 */
module CodeMask {

  import opened Common

  /** A code fence: the character of its run and how long the run is. */
  datatype Fence = Fence(mark: char, length: nat)

  predicate IsBlank(c: char) {
    c == ' ' || c == '\t'
  }

  /** How many of the characters from `at` on are blanks. */
  function Lead(line: string, at: nat): (n: nat)
    requires at <= |line|
    ensures at + n <= |line|
    ensures forall k :: at <= k < at + n ==> IsBlank(line[k])
    ensures at + n < |line| ==> !IsBlank(line[at + n])
    decreases |line| - at
  {
    if at < |line| && IsBlank(line[at]) then 1 + Lead(line, at + 1) else 0
  }

  /** How many of the characters from `at` on equal `mark`. */
  function RunLength(line: string, at: nat, mark: char): (n: nat)
    requires at <= |line|
    ensures at + n <= |line|
    ensures forall k :: at <= k < at + n ==> line[k] == mark
    ensures at + n < |line| ==> line[at + n] != mark
    decreases |line| - at
  {
    if at < |line| && line[at] == mark then 1 + RunLength(line, at + 1, mark) else 0
  }

  /** The fence a line starts with: at most three blanks, then three or more backticks or tildes. */
  function FenceOf(line: string): Option<Fence> {
    var lead := Lead(line, 0);
    if lead > 3 || lead == |line| || (line[lead] != '`' && line[lead] != '~') then None
    else
      var n := RunLength(line, lead, line[lead]);
      if n < 3 then None else Some(Fence(line[lead], n))
  }

  /** What it is for a line to start with fence `f` behind `lead` blanks, said without scanning. */
  ghost predicate StartsFence(line: string, lead: nat, f: Fence) {
    && lead <= 3 && f.length >= 3 && (f.mark == '`' || f.mark == '~')
    && lead + f.length <= |line|
    && (forall k :: 0 <= k < lead ==> line[k] == ' ' || line[k] == '\t')
    && (forall k :: lead <= k < lead + f.length ==> line[k] == f.mark)
    && (lead + f.length < |line| ==> line[lead + f.length] != f.mark)
  }

  lemma FenceOfExactly(line: string, f: Fence)
    ensures FenceOf(line) == Some(f) <==> exists lead: nat :: StartsFence(line, lead, f)
  {
    var at := Lead(line, 0);
    if FenceOf(line) == Some(f) {
      assert StartsFence(line, at, f);
    }
    if lead: nat :| StartsFence(line, lead, f) {
      assert line[lead] == f.mark;
      assert at == lead;
      assert RunLength(line, lead, f.mark) == f.length;
    }
  }

  /** A fence is closed by one of the same character that is at least as long. */
  predicate Closes(f: Fence, line: string) {
    var g := FenceOf(line);
    g.Some? && g.value.mark == f.mark && g.value.length >= f.length
  }

  /** The fence that is open before line `n`. */
  function OpenFence(lines: seq<string>, n: nat): Option<Fence>
    requires n <= |lines|
  {
    if n == 0 then None
    else
      match OpenFence(lines, n - 1)
      case None => FenceOf(lines[n - 1])
      case Some(f) => if Closes(f, lines[n - 1]) then None else Some(f)
  }

  /** Line `j` opened fence `f`, and nothing up to line `n` closed it. */
  ghost predicate OpenSince(lines: seq<string>, j: nat, n: nat, f: Fence) {
    && j < n <= |lines|
    && OpenFence(lines, j) == None && FenceOf(lines[j]) == Some(f)
    && forall k :: j < k < n ==> !Closes(f, lines[k])
  }

  /** The scanner is inside a fence exactly when an earlier line opened one that is still unclosed. */
  lemma {:induction false} OpenFenceExactly(lines: seq<string>, n: nat, f: Fence)
    requires n <= |lines|
    ensures OpenFence(lines, n) == Some(f) <==> exists j: nat :: OpenSince(lines, j, n, f)
  {
    if n == 0 {
    } else {
      OpenFenceExactly(lines, n - 1, f);
      if OpenFence(lines, n) == Some(f) {
        if OpenFence(lines, n - 1) == None {
          assert OpenSince(lines, n - 1, n, f);
        } else {
          var j: nat :| OpenSince(lines, j, n - 1, f);
          assert OpenSince(lines, j, n, f);
        }
      }
      if j: nat :| OpenSince(lines, j, n, f) {
        if j < n - 1 {
          assert OpenSince(lines, j, n - 1, f);
        }
      }
    }
  }

  /** Every character but a newline becomes a space. */
  function BlankOut(text: string): (r: string)
    ensures |r| == |text|
  {
    seq(|text|, k requires 0 <= k < |text| => if text[k] == '\n' then '\n' else ' ')
  }

  /** `t` is `s` with some characters other than newlines turned into spaces. */
  ghost predicate Blanked(t: string, s: string) {
    && |t| == |s|
    && forall k :: 0 <= k < |s| ==> t[k] == s[k] || (t[k] == ' ' && s[k] != '\n')
  }

  /** All that is known of the inline code pattern: it blanks characters of the line. */
  ghost predicate IsInlineMask(inline: string -> string) {
    forall line :: Blanked(inline(line), line)
  }

  /** A line is code when a fence is open before it or it opens one. */
  predicate IsCodeLine(lines: seq<string>, i: nat)
    requires i < |lines|
  {
    OpenFence(lines, i).Some? || FenceOf(lines[i]).Some?
  }

  function MaskedLine(inline: string -> string, lines: seq<string>, i: nat): string
    requires i < |lines|
  {
    if IsCodeLine(lines, i) then BlankOut(lines[i]) else inline(lines[i])
  }

  function MaskedLines(inline: string -> string, lines: seq<string>): (r: seq<string>)
    ensures |r| == |lines|
  {
    seq(|lines|, i requires 0 <= i < |lines| => MaskedLine(inline, lines, i))
  }

  /** The first `n` characters of a text, split at newlines. There is always a last line. */
  function SplitUpto(s: string, n: nat): (lines: seq<string>)
    requires n <= |s|
    ensures lines != []
  {
    if n == 0 then [""]
    else
      var before := SplitUpto(s, n - 1);
      var last := |before| - 1;
      if s[n - 1] == '\n' then before + [""]
      else before[last := before[last] + [s[n - 1]]]
  }

  function Split(s: string): (lines: seq<string>)
    ensures lines != []
  {
    SplitUpto(s, |s|)
  }

  /** The first `n` lines, joined by newlines. */
  function JoinUpto(lines: seq<string>, n: nat): string
    requires 1 <= n <= |lines|
  {
    if n == 1 then lines[0] else JoinUpto(lines, n - 1) + "\n" + lines[n - 1]
  }

  function Join(lines: seq<string>): string
    requires lines != []
  {
    JoinUpto(lines, |lines|)
  }

  /** The body with every fenced line and every inline code span turned into spaces. */
  function MaskCode(inline: string -> string, content: string): string {
    Join(MaskedLines(inline, Split(content)))
  }

  /** The scanner as written: it overwrites the lines one by one and tracks the fence. */
  method MaskCodeLoop(inline: string -> string, content: string) returns (masked: string)
    ensures masked == MaskCode(inline, content)
  {
    var split := Split(content);
    var lines := split;
    var fence: Option<Fence> := None;
    var i := 0;
    while i < |lines|
      invariant 0 <= i <= |lines| == |split|
      invariant fence == OpenFence(split, i)
      invariant forall k :: 0 <= k < i ==> lines[k] == MaskedLine(inline, split, k)
      invariant forall k :: i <= k < |lines| ==> lines[k] == split[k]
    {
      var line := lines[i];
      var found := FenceOf(line);
      if fence.Some? {
        lines := lines[i := BlankOut(line)];
        if found.Some? && found.value.mark == fence.value.mark && found.value.length >= fence.value.length {
          fence := None;
        }
      } else if found.Some? {
        fence := found;
        lines := lines[i := BlankOut(line)];
      } else {
        lines := lines[i := inline(line)];
      }
      i := i + 1;
    }
    assert lines == MaskedLines(inline, split);
    masked := Join(lines);
  }

  // ---- Joining is the inverse of splitting

  lemma {:induction false} JoinReads(a: seq<string>, b: seq<string>, n: nat)
    requires 1 <= n <= |a| && n <= |b|
    requires forall k :: 0 <= k < n ==> a[k] == b[k]
    ensures JoinUpto(a, n) == JoinUpto(b, n)
  {
    if n > 1 {
      JoinReads(a, b, n - 1);
    }
  }

  /** Lengthening the last line lengthens the join. */
  lemma JoinLonger(lines: seq<string>, c: char)
    requires lines != []
    ensures var last := |lines| - 1;
            Join(lines[last := lines[last] + [c]]) == Join(lines) + [c]
  {
    var last := |lines| - 1;
    var longer := lines[last := lines[last] + [c]];
    if last > 0 {
      JoinReads(lines, longer, last);
      assert JoinUpto(lines, last) + "\n" + (lines[last] + [c]) == JoinUpto(lines, last) + "\n" + lines[last] + [c];
    }
  }

  lemma {:induction false} JoinSplitUpto(s: string, n: nat)
    requires n <= |s|
    ensures Join(SplitUpto(s, n)) == s[..n]
  {
    if n == 0 {
    } else {
      JoinSplitUpto(s, n - 1);
      var before := SplitUpto(s, n - 1);
      assert s[..n] == s[..n - 1] + [s[n - 1]];
      if s[n - 1] == '\n' {
        JoinReads(before + [""], before, |before|);
      } else {
        JoinLonger(before, s[n - 1]);
      }
    }
  }

  lemma JoinSplit(s: string)
    ensures Join(Split(s)) == s
  {
    JoinSplitUpto(s, |s|);
    assert s[..|s|] == s;
  }

  lemma {:induction false} SplitHasNoNewlines(s: string, n: nat)
    requires n <= |s|
    ensures forall line :: line in SplitUpto(s, n) ==> '\n' !in line
  {
    if n > 0 {
      SplitHasNoNewlines(s, n - 1);
    }
  }

  // ---- Splitting is the inverse of joining

  lemma {:induction false} SplitReads(s: string, t: string, n: nat)
    requires n <= |s| && n <= |t| && forall k :: 0 <= k < n ==> s[k] == t[k]
    ensures SplitUpto(s, n) == SplitUpto(t, n)
  {
    if n > 0 {
      SplitReads(s, t, n - 1);
    }
  }

  lemma {:induction false} SplitAppendUpto(s: string, line: string, m: nat)
    requires '\n' !in line && m <= |line|
    ensures var lines := Split(s);
            SplitUpto(s + line, |s| + m) == lines[|lines| - 1 := lines[|lines| - 1] + line[..m]]
  {
    var lines := Split(s);
    if m == 0 {
      SplitReads(s + line, s, |s|);
      assert lines[|lines| - 1] + line[..0] == lines[|lines| - 1];
    } else {
      SplitAppendUpto(s, line, m - 1);
      assert (s + line)[|s| + m - 1] == line[m - 1];
      assert line[m - 1] in line;
      assert line[..m] == line[..m - 1] + [line[m - 1]];
      Associative(lines[|lines| - 1], line[..m - 1], [line[m - 1]]);
    }
  }

  lemma SplitAppend(s: string, line: string)
    requires '\n' !in line
    ensures var lines := Split(s); Split(s + line) == lines[|lines| - 1 := lines[|lines| - 1] + line]
  {
    SplitAppendUpto(s, line, |line|);
    assert line[..|line|] == line;
  }

  lemma SplitNewline(s: string)
    ensures Split(s + "\n") == Split(s) + [""]
  {
    SplitReads(s + "\n", s, |s|);
    assert (s + "\n")[|s|] == '\n';
  }

  /** Lines without newlines come back when what they join to is split. */
  lemma {:induction false} SplitJoin(lines: seq<string>, n: nat)
    requires 1 <= n <= |lines| && forall line :: line in lines ==> '\n' !in line
    ensures Split(JoinUpto(lines, n)) == lines[..n]
  {
    assert lines[n - 1] in lines;
    if n == 1 {
      SplitAppend("", lines[0]);
      assert "" + lines[0] == lines[0];
    } else {
      SplitJoin(lines, n - 1);
      var s := JoinUpto(lines, n - 1);
      SplitNewline(s);
      SplitAppend(s + "\n", lines[n - 1]);
      assert "" + lines[n - 1] == lines[n - 1];
      assert lines[..n] == lines[..n - 1] + [lines[n - 1]];
    }
  }

  // ---- What masking keeps

  lemma BlankedConcat(t: string, t': string, s: string, s': string)
    requires Blanked(t, s) && Blanked(t', s')
    ensures Blanked(t + "\n" + t', s + "\n" + s')
  {
  }

  lemma {:induction false} BlankedJoin(masked: seq<string>, lines: seq<string>, n: nat)
    requires 1 <= n <= |masked| == |lines|
    requires forall i :: 0 <= i < |lines| ==> Blanked(masked[i], lines[i])
    ensures Blanked(JoinUpto(masked, n), JoinUpto(lines, n))
  {
    if n > 1 {
      BlankedJoin(masked, lines, n - 1);
      BlankedConcat(JoinUpto(masked, n - 1), masked[n - 1], JoinUpto(lines, n - 1), lines[n - 1]);
    }
  }

  /** A line closes a fence exactly when it has one of the same character that is at least as long. */
  lemma ClosesExactly(f: Fence, line: string)
    ensures Closes(f, line) <==>
            exists lead: nat, g :: StartsFence(line, lead, g) && g.mark == f.mark && g.length >= f.length
  {
    if Closes(f, line) {
      FenceOfExactly(line, FenceOf(line).value);
    }
    if lead: nat, g :| StartsFence(line, lead, g) && g.mark == f.mark && g.length >= f.length {
      FenceOfExactly(line, g);
    }
  }

  /** The line stands in a fence that was opened before it, or opens or closes one. */
  ghost predicate InCode(lines: seq<string>, i: nat)
    requires i < |lines|
  {
    || (exists j: nat, f :: OpenSince(lines, j, i, f))
    || exists lead: nat, f :: StartsFence(lines[i], lead, f)
  }

  lemma InCodeExactly(lines: seq<string>, i: nat)
    requires i < |lines|
    ensures IsCodeLine(lines, i) <==> InCode(lines, i)
  {
    if OpenFence(lines, i).Some? {
      OpenFenceExactly(lines, i, OpenFence(lines, i).value);
    }
    if j: nat, f :| OpenSince(lines, j, i, f) {
      OpenFenceExactly(lines, i, f);
    }
    if FenceOf(lines[i]).Some? {
      FenceOfExactly(lines[i], FenceOf(lines[i]).value);
    }
    if lead: nat, f :| StartsFence(lines[i], lead, f) {
      FenceOfExactly(lines[i], f);
    }
  }

  /** Line by line: in and at fences everything is blanked, and elsewhere exactly what the inline pattern blanks. */
  lemma MaskedExactly(inline: string -> string, content: string, i: nat)
    requires IsInlineMask(inline) && i < |Split(content)|
    ensures |Split(MaskCode(inline, content))| == |Split(content)|
    ensures InCode(Split(content), i) ==>
              |Split(MaskCode(inline, content))[i]| == |Split(content)[i]|
              && forall k :: 0 <= k < |Split(content)[i]| ==> Split(MaskCode(inline, content))[i][k] == ' '
    ensures !InCode(Split(content), i) ==> Split(MaskCode(inline, content))[i] == inline(Split(content)[i])
  {
    var lines := Split(content);
    var masked := MaskedLines(inline, lines);
    SplitHasNoNewlines(content, |content|);
    forall line | line in masked ensures '\n' !in line {
      var k :| 0 <= k < |masked| && masked[k] == line;
      assert lines[k] in lines;
      MaskedLineBlanks(inline, lines, k);
    }
    SplitJoin(masked, |masked|);
    assert masked[..|masked|] == masked;
    InCodeExactly(lines, i);
    assert lines[i] in lines;
  }

  lemma MaskedLineBlanks(inline: string -> string, lines: seq<string>, k: nat)
    requires IsInlineMask(inline) && k < |lines| && '\n' !in lines[k]
    ensures '\n' !in MaskedLine(inline, lines, k)
  {
    var line, mask := lines[k], MaskedLine(inline, lines, k);
    assert Blanked(inline(line), line);
    forall j | 0 <= j < |mask| ensures mask[j] != '\n' {
      assert line[j] in line;
    }
  }

  /** The masked body has the same length and newlines, and each character is the original or a space. */
  lemma MaskKeepsOffsets(inline: string -> string, content: string)
    requires IsInlineMask(inline)
    ensures Blanked(MaskCode(inline, content), content)
    ensures forall k :: 0 <= k < |content| ==> (MaskCode(inline, content)[k] == '\n' <==> content[k] == '\n')
  {
    var lines := Split(content);
    var masked := MaskedLines(inline, lines);
    forall i | 0 <= i < |lines| ensures Blanked(masked[i], lines[i]) {
    }
    BlankedJoin(masked, lines, |lines|);
    JoinSplit(content);
  }

  // ---- Noninterference

  /**
   * Two bodies that differ only inside fences: they have the same lines, except that a line before
   * which the same fence is open may be any other of the same length, as long as neither closes it.
   */
  ghost predicate DifferInsideFences(a: seq<string>, b: seq<string>) {
    && |a| == |b|
    && forall i :: 0 <= i < |a| ==> a[i] == b[i] || SwappedInFence(a, b, i)
  }

  ghost predicate SwappedInFence(a: seq<string>, b: seq<string>, i: nat)
    requires i < |a| == |b|
  {
    var open := OpenFence(a, i);
    open.Some? && |a[i]| == |b[i]| && !Closes(open.value, a[i]) && !Closes(open.value, b[i])
  }

  lemma {:induction false} SameFences(a: seq<string>, b: seq<string>, n: nat)
    requires DifferInsideFences(a, b) && n <= |a|
    ensures OpenFence(a, n) == OpenFence(b, n)
  {
    if n > 0 {
      SameFences(a, b, n - 1);
      assert a[n - 1] == b[n - 1] || SwappedInFence(a, b, n - 1);
    }
  }

  /** No fence is open before the first line, so that line is the same. */
  lemma SameFirstLine(a: seq<string>, b: seq<string>)
    requires DifferInsideFences(a, b) && a != []
    ensures a[0] == b[0]
  {
    assert OpenFence(a, 0) == None;
  }

  /** Newline-free lines of equal length are blanked to the same thing. */
  lemma SameBlank(x: string, y: string)
    requires |x| == |y| && '\n' !in x && '\n' !in y
    ensures BlankOut(x) == BlankOut(y)
  {
  }

  /** What stands inside a fence has no influence on the masked body, hence none on what is found in it. */
  lemma FencedTextDoesNotMatter<R>(inline: string -> string, find: string -> R, s: string, t: string)
    requires DifferInsideFences(Split(s), Split(t))
    ensures MaskCode(inline, s) == MaskCode(inline, t)
    ensures find(MaskCode(inline, s)) == find(MaskCode(inline, t))
  {
    var a, b := Split(s), Split(t);
    SplitHasNoNewlines(s, |s|);
    SplitHasNoNewlines(t, |t|);
    forall i | 0 <= i < |a| ensures MaskedLine(inline, a, i) == MaskedLine(inline, b, i) {
      SameFences(a, b, i);
      if a[i] != b[i] {
        assert SwappedInFence(a, b, i);
        assert a[i] in a && b[i] in b;
        SameBlank(a[i], b[i]);
      }
    }
    assert MaskedLines(inline, a) == MaskedLines(inline, b);
  }

  // ---- A body that is all code

  predicate OnlyBlanks(t: string) {
    forall k :: 0 <= k < |t| ==> t[k] == ' ' || t[k] == '\n'
  }

  lemma {:induction false} BlanksJoin(lines: seq<string>, n: nat)
    requires 1 <= n <= |lines| && forall i :: 0 <= i < n ==> OnlyBlanks(lines[i])
    ensures OnlyBlanks(JoinUpto(lines, n))
  {
    if n > 1 {
      BlanksJoin(lines, n - 1);
    }
  }

  /** When every line is code, nothing but blanks is left to be searched. */
  lemma AllCodeIsBlank(inline: string -> string, content: string)
    requires forall i :: 0 <= i < |Split(content)| ==> IsCodeLine(Split(content), i)
    ensures OnlyBlanks(MaskCode(inline, content))
  {
    var lines := Split(content);
    forall i | 0 <= i < |lines| ensures OnlyBlanks(MaskedLines(inline, lines)[i]) {
      assert IsCodeLine(lines, i);
    }
    BlanksJoin(MaskedLines(inline, lines), |lines|);
  }

  const TICKS := "```"

  /** A text put on one line between two fences. */
  function Fenced(line: string): string {
    Join([TICKS, line, TICKS])
  }

  lemma TicksAreAFence()
    ensures FenceOf(TICKS) == Some(Fence('`', 3))
  {
    FenceOfExactly(TICKS, Fence('`', 3));
    assert StartsFence(TICKS, 0, Fence('`', 3));
  }

  lemma FencedIsCode(inline: string -> string, line: string)
    requires '\n' !in line && !Closes(Fence('`', 3), line)
    ensures OnlyBlanks(MaskCode(inline, Fenced(line)))
  {
    var lines := [TICKS, line, TICKS];
    SplitJoin(lines, 3);
    assert lines[..3] == lines;
    TicksAreAFence();
    assert OpenFence(lines, 0) == None;
    assert OpenFence(lines, 1) == Some(Fence('`', 3));
    assert OpenFence(lines, 2) == Some(Fence('`', 3));
    AllCodeIsBlank(inline, Fenced(line));
  }
}
