/** Removing the structured draft block from a builder reply, finished or still streaming. */
module DraftStrip {
  import opened Common

  const OPEN := "<agent_draft>"
  const CLOSE := "</agent_draft>"

  /** The tag stands at position i. */
  predicate At(s: string, i: nat, tag: string) {
    i + |tag| <= |s| && s[i..i + |tag|] == tag
  }

  /** The first position from i on where the tag stands. */
  function Find(s: string, tag: string, i: nat): (k: Option<nat>)
    requires i <= |s|
    ensures k.Some? ==> i <= k.value && k.value + |tag| <= |s|
    decreases |s| - i
  {
    if At(s, i, tag) then Some(i)
    else if i == |s| then None
    else Find(s, tag, i + 1)
  }

  /** Where the whitespace that ends at k begins, looking back no further than lo. */
  function BackOver(s: string, lo: nat, k: nat): (j: nat)
    requires lo <= k <= |s|
    ensures lo <= j <= k
    decreases k
  {
    if k > lo && IsSpace(s[k - 1]) then BackOver(s, lo, k - 1) else k
  }

  function FrontOver(s: string, k: nat): (j: nat)
    requires k <= |s|
    ensures k <= j <= |s|
    decreases |s| - k
  {
    if k < |s| && IsSpace(s[k]) then FrontOver(s, k + 1) else k
  }

  function Trim(s: string): string {
    var lo := FrontOver(s, 0);
    s[lo..BackOver(s, lo, |s|)]
  }

  /** The opening and closing positions of the first closed block from i on. */
  function ClosedBlock(s: string, i: nat): (r: Option<(nat, nat)>)
    requires i <= |s|
    ensures r.Some? ==> i <= r.value.0 && r.value.0 + |OPEN| <= r.value.1 && r.value.1 + |CLOSE| <= |s|
  {
    var k := Find(s, OPEN, i);
    if k.None? then None
    else
      var q := Find(s, CLOSE, k.value + |OPEN|);
      if q.None? then None else Some((k.value, q.value))
  }

  /** The first replacement, from i on: every closed block goes, with the whitespace before it. */
  function RemoveClosed(s: string, i: nat): string
    requires i <= |s|
    decreases |s| - i
  {
    match ClosedBlock(s, i)
    case None => s[i..]
    case Some(block) => s[i..BackOver(s, i, block.0)] + RemoveClosed(s, block.1 + |CLOSE|)
  }

  /** The second replacement: from the first tag that is left, everything to the end goes. */
  function RemoveOpen(s: string): string {
    var k := Find(s, OPEN, 0);
    if k.None? then s else s[..BackOver(s, 0, k.value)]
  }

  function StripBuilderDraft(content: string): string {
    Trim(RemoveOpen(RemoveClosed(content, 0)))
  }

  // ----- The scanners -----

  ghost predicate NoneBetween(s: string, tag: string, lo: nat, hi: nat) {
    forall j :: lo <= j < hi ==> !At(s, j, tag)
  }

  /** k is the first position from i on where the tag stands; None says there is none. */
  ghost predicate IsFirst(s: string, tag: string, i: nat, k: Option<nat>) {
    if k.Some? then i <= k.value && At(s, k.value, tag) && NoneBetween(s, tag, i, k.value)
    else NoneBetween(s, tag, i, |s| + 1)
  }

  lemma {:induction false} FindIsFirst(s: string, tag: string, i: nat)
    requires i <= |s|
    ensures IsFirst(s, tag, i, Find(s, tag, i))
    decreases |s| - i
  {
    if !At(s, i, tag) && i < |s| {
      FindIsFirst(s, tag, i + 1);
    }
  }

  lemma {:induction false} FirstIsFind(s: string, tag: string, i: nat, k: Option<nat>)
    requires i <= |s| && IsFirst(s, tag, i, k)
    ensures Find(s, tag, i) == k
    decreases |s| - i
  {
    if !At(s, i, tag) && i < |s| {
      FirstIsFind(s, tag, i + 1, k);
    }
  }

  lemma {:induction false} FrontOverIs(s: string, k: nat, j: nat)
    requires k <= j <= |s| && (forall i :: k <= i < j ==> IsSpace(s[i])) && (j < |s| ==> !IsSpace(s[j]))
    ensures FrontOver(s, k) == j
    decreases |s| - k
  {
    if k < j {
      FrontOverIs(s, k + 1, j);
    }
  }

  lemma {:induction false} FrontOverMeans(s: string, k: nat)
    requires k <= |s|
    ensures var j := FrontOver(s, k); (forall i :: k <= i < j ==> IsSpace(s[i])) && (j < |s| ==> !IsSpace(s[j]))
    decreases |s| - k
  {
    if k < |s| && IsSpace(s[k]) {
      FrontOverMeans(s, k + 1);
    }
  }

  lemma {:induction false} BackOverIs(s: string, lo: nat, k: nat, j: nat)
    requires lo <= j <= k <= |s| && (forall i :: j <= i < k ==> IsSpace(s[i])) && (j > lo ==> !IsSpace(s[j - 1]))
    ensures BackOver(s, lo, k) == j
    decreases k
  {
    if j < k {
      BackOverIs(s, lo, k - 1, j);
    }
  }

  lemma {:induction false} BackOverMeans(s: string, lo: nat, k: nat)
    requires lo <= k <= |s|
    ensures var j := BackOver(s, lo, k); (forall i :: j <= i < k ==> IsSpace(s[i])) && (j > lo ==> !IsSpace(s[j - 1]))
    decreases k
  {
    if k > lo && IsSpace(s[k - 1]) {
      BackOverMeans(s, lo, k - 1);
    }
  }

  lemma {:induction false} BackOverAgrees(s: string, t: string, lo: nat, k: nat)
    requires lo <= k <= |s| && k <= |t| && forall i :: 0 <= i < k ==> s[i] == t[i]
    ensures BackOver(s, lo, k) == BackOver(t, lo, k)
    decreases k
  {
    if k > lo {
      BackOverAgrees(s, t, lo, k - 1);
    }
  }

  /** A tag inside a part of a text stands in the whole as well, and the other way round. */
  lemma AtShift(s: string, t: string, lo: nat, j: nat, tag: string)
    requires lo + |t| <= |s| && t == s[lo..lo + |t|] && j + |tag| <= |t|
    ensures At(s, lo + j, tag) <==> At(t, j, tag)
  {
    var a, b := s[lo + j..lo + j + |tag|], t[j..j + |tag|];
    forall i | 0 <= i < |tag| ensures a[i] == b[i] {
      assert a[i] == s[lo + j + i] && b[i] == t[j + i] && t[j + i] == s[lo + (j + i)];
    }
    assert a == b;
  }

  // ----- The result carries no tag -----

  ghost predicate NoTag(s: string) {
    NoneBetween(s, OPEN, 0, |s| + 1)
  }

  lemma NoTagInside(s: string, t: string, lo: nat)
    requires lo + |t| <= |s| && t == s[lo..lo + |t|]
    requires forall j :: 0 <= j && j + |OPEN| <= lo + |t| ==> !At(s, j, OPEN)
    ensures NoTag(t)
  {
    forall j: nat ensures !At(t, j, OPEN) {
      if j + |OPEN| <= |t| {
        AtShift(s, t, lo, j, OPEN);
      }
    }
  }

  lemma RemoveOpenLeavesNoTag(s: string)
    ensures NoTag(RemoveOpen(s))
  {
    FindIsFirst(s, OPEN, 0);
    NoTagInside(s, RemoveOpen(s), 0);
  }

  lemma TrimLeavesNoTag(s: string)
    requires NoTag(s)
    ensures NoTag(Trim(s))
  {
    NoTagInside(s, Trim(s), FrontOver(s, 0));
  }

  /** Complete: no opening tag is left, even when removing a closed block splices a new one together. */
  lemma ResultHasNoTag(content: string)
    ensures NoTag(StripBuilderDraft(content))
  {
    RemoveOpenLeavesNoTag(RemoveClosed(content, 0));
    TrimLeavesNoTag(RemoveOpen(RemoveClosed(content, 0)));
  }

  // ----- Trimming -----

  predicate Trimmed(s: string) {
    s == "" || (!IsSpace(s[0]) && !IsSpace(s[|s| - 1]))
  }

  lemma TrimIs(s: string, lo: nat, hi: nat)
    requires lo <= hi <= |s|
    requires (forall i :: 0 <= i < lo ==> IsSpace(s[i])) && (forall i :: hi <= i < |s| ==> IsSpace(s[i]))
    requires if lo < hi then !IsSpace(s[lo]) && !IsSpace(s[hi - 1]) else hi == |s|
    ensures Trim(s) == s[lo..hi]
  {
    FrontOverIs(s, 0, lo);
    BackOverIs(s, lo, |s|, hi);
  }

  lemma TrimIsTrimmed(s: string)
    ensures Trimmed(Trim(s))
    ensures Trimmed(s) ==> Trim(s) == s
  {
    FrontOverMeans(s, 0);
    BackOverMeans(s, FrontOver(s, 0), |s|);
    if Trimmed(s) {
      TrimIs(s, 0, |s|);
    }
  }

  ghost predicate AllSpace(s: string, lo: nat, hi: nat)
    requires lo <= hi <= |s|
  {
    forall i :: lo <= i < hi ==> IsSpace(s[i])
  }

  /** Cutting whitespace off the end of a text that has something else does not change what is left of it. */
  lemma TrimAt(s: string, n: nat)
    requires 0 < n <= |s| && !IsSpace(s[n - 1]) && AllSpace(s, n, |s|)
    ensures Trim(s[..n]) == Trim(s)
  {
    var t, lo := s[..n], FrontOver(s, 0);
    FrontOverMeans(s, 0);
    FrontOverIs(t, 0, lo);
    BackOverIs(s, lo, |s|, n);
    BackOverIs(t, lo, n, n);
    assert s[lo..n] == t[lo..n];
  }

  lemma TrimSpace(s: string)
    requires AllSpace(s, 0, |s|)
    ensures Trim(s) == ""
  {
    FrontOverIs(s, 0, |s|);
  }

  lemma TrimDropsTrailing(s: string)
    ensures Trim(s[..BackOver(s, 0, |s|)]) == Trim(s)
  {
    var n := BackOver(s, 0, |s|);
    BackOverMeans(s, 0, |s|);
    if n == 0 {
      TrimSpace(s);
      TrimSpace(s[..0]);
    } else {
      TrimAt(s, n);
    }
  }

  /** Stripping an already stripped reply changes nothing. */
  lemma StripTwice(content: string)
    ensures StripBuilderDraft(StripBuilderDraft(content)) == StripBuilderDraft(content)
  {
    var r := StripBuilderDraft(content);
    ResultHasNoTag(content);
    FirstIsFind(r, OPEN, 0, None);
    TrimIsTrimmed(RemoveOpen(RemoveClosed(content, 0)));
    TrimIsTrimmed(r);
    assert r[0..] == r;
  }

  // ----- While a block is being streamed -----

  /** The text between an opening tag and where the stream has got to holds no closing tag. */
  ghost predicate Unclosed(partial: string) {
    NoneBetween(partial, CLOSE, 0, |partial| + 1)
  }

  /** A tag has no second '<'. */
  lemma TagMisses(s: string, i: nat, p: nat, tag: string)
    requires tag == OPEN || tag == CLOSE
    requires i < p < i + |tag| && p < |s| && s[p] == '<'
    ensures !At(s, i, tag)
  {
    assert tag[p - i] != '<';
  }

  /** A tag that begins in the prose ends in it: the character that opens the next tag occurs in no other
    * place of a tag. */
  lemma StraddleFails(prose: string, tail: string, i: nat, tag: string)
    requires tag == OPEN || tag == CLOSE
    requires tail != "" && tail[0] == '<' && i < |prose|
    ensures At(prose + tail, i, tag) <==> At(prose, i, tag)
  {
    var s := prose + tail;
    if i + |tag| <= |prose| {
      AtShift(s, prose, 0, i, tag);
    } else {
      assert s[|prose|] == '<';
      TagMisses(s, i, |prose|, tag);
    }
  }

  lemma OpensHere(prose: string, partial: string)
    ensures var s := prose + (OPEN + partial); At(s, |prose|, OPEN) && !At(s, |prose|, CLOSE)
  {
    var s := prose + (OPEN + partial);
    assert s[|prose|..|prose| + |OPEN|] == OPEN;
    assert s[|prose| + 1] == OPEN[1];
  }

  lemma NoLateClose(prose: string, partial: string, i: nat)
    requires Unclosed(partial) && i > |prose|
    ensures !At(prose + (OPEN + partial), i, CLOSE)
  {
    var s, lo := prose + (OPEN + partial), |prose| + |OPEN|;
    assert s[lo..] == partial;
    if i < lo {
      assert s[i] == OPEN[i - |prose|];
    } else if i + |CLOSE| <= |s| {
      AtShift(s, partial, lo, i - lo, CLOSE);
    }
  }

  /** From the prose on, no closing tag stands anywhere. */
  lemma NoCloseFrom(prose: string, partial: string, i: nat)
    requires Unclosed(partial) && i >= |prose|
    ensures !At(prose + (OPEN + partial), i, CLOSE)
  {
    if i == |prose| {
      OpensHere(prose, partial);
    } else {
      NoLateClose(prose, partial, i);
    }
  }

  lemma OpenInProse(prose: string, partial: string, i: nat)
    requires i <= |prose|
    ensures Find(prose + (OPEN + partial), OPEN, i) ==
            if Find(prose, OPEN, i).Some? then Find(prose, OPEN, i) else Some(|prose|)
  {
    var s, k := prose + (OPEN + partial), Find(prose, OPEN, i);
    forall j: nat | j < |prose| ensures At(s, j, OPEN) <==> At(prose, j, OPEN) {
      StraddleFails(prose, OPEN + partial, j, OPEN);
    }
    OpensHere(prose, partial);
    FindIsFirst(prose, OPEN, i);
    FirstIsFind(s, OPEN, i, if k.Some? then k else Some(|prose|));
  }

  lemma CloseInProse(prose: string, partial: string, i: nat)
    requires Unclosed(partial) && i <= |prose|
    ensures Find(prose + (OPEN + partial), CLOSE, i) == Find(prose, CLOSE, i)
  {
    var s, k := prose + (OPEN + partial), Find(prose, CLOSE, i);
    forall j: nat ensures At(s, j, CLOSE) <==> At(prose, j, CLOSE) {
      if j < |prose| {
        StraddleFails(prose, OPEN + partial, j, CLOSE);
      } else {
        NoCloseFrom(prose, partial, j);
      }
    }
    FindIsFirst(prose, CLOSE, i);
    FirstIsFind(s, CLOSE, i, k);
  }

  lemma NoCloseAfter(prose: string, partial: string)
    requires Unclosed(partial)
    ensures Find(prose + (OPEN + partial), CLOSE, |prose| + |OPEN|) == None
  {
    var s := prose + (OPEN + partial);
    forall j: nat | j >= |prose| ensures !At(s, j, CLOSE) {
      NoCloseFrom(prose, partial, j);
    }
    FirstIsFind(s, CLOSE, |prose| + |OPEN|, None);
  }

  lemma RemoveRest(s: string, i: nat, rest: string)
    requires i <= |s| && rest == s[i..] && ClosedBlock(s, i) == None
    ensures RemoveClosed(s, i) == rest
  {
  }

  /** What is streamed after the prose opens a block but closes none. */
  lemma SameBlocks(prose: string, partial: string, i: nat)
    requires Unclosed(partial) && i <= |prose|
    ensures ClosedBlock(prose + (OPEN + partial), i) == ClosedBlock(prose, i)
  {
    var k := Find(prose, OPEN, i);
    OpenInProse(prose, partial, i);
    if k.Some? {
      CloseInProse(prose, partial, k.value + |OPEN|);
    } else {
      NoCloseAfter(prose, partial);
    }
  }

  /** What follows the prose changes nothing about its closed blocks. */
  ghost predicate SameClosed(prose: string, tail: string) {
    forall i :: 0 <= i <= |prose| ==> ClosedBlock(prose + tail, i) == ClosedBlock(prose, i)
  }

  lemma {:induction false} ClosedBefore(prose: string, tail: string, i: nat)
    requires SameClosed(prose, tail) && i <= |prose|
    ensures RemoveClosed(prose + tail, i) == RemoveClosed(prose, i) + tail
    decreases |prose| - i
  {
    match ClosedBlock(prose, i)
    case None =>
      SameRest(prose, tail, i);
    case Some((k, q)) =>
      ClosedBefore(prose, tail, q + |CLOSE|);
      SameBlock(prose, tail, i, k, q);
  }

  /** The unfinished block is left alone by the first replacement. */
  lemma ClosedInStream(prose: string, partial: string)
    requires Unclosed(partial)
    ensures RemoveClosed(prose + (OPEN + partial), 0) == RemoveClosed(prose, 0) + (OPEN + partial)
  {
    forall i | 0 <= i <= |prose| ensures ClosedBlock(prose + (OPEN + partial), i) == ClosedBlock(prose, i) {
      SameBlocks(prose, partial, i);
    }
    ClosedBefore(prose, OPEN + partial, 0);
  }

  lemma SameRest(prose: string, tail: string, i: nat)
    requires i <= |prose| && ClosedBlock(prose, i) == None && ClosedBlock(prose + tail, i) == None
    ensures RemoveClosed(prose + tail, i) == RemoveClosed(prose, i) + tail
  {
    assert (prose + tail)[i..] == prose[i..] + tail;
    RemoveRest(prose, i, prose[i..]);
    RemoveRest(prose + tail, i, prose[i..] + tail);
  }

  /** A block that closes within the prose is removed alike with and without what follows. */
  lemma SameBlock(prose: string, tail: string, i: nat, k: nat, q: nat)
    requires i <= |prose| && ClosedBlock(prose, i) == Some((k, q)) && ClosedBlock(prose + tail, i) == Some((k, q))
    requires RemoveClosed(prose + tail, q + |CLOSE|) == RemoveClosed(prose, q + |CLOSE|) + tail
    ensures RemoveClosed(prose + tail, i) == RemoveClosed(prose, i) + tail
  {
    var head := prose[i..BackOver(prose, i, k)];
    SameHead(prose, tail, i, k);
    BlockGoes(prose, i, k, q);
    BlockGoes(prose + tail, i, k, q);
    Associative(head, RemoveClosed(prose, q + |CLOSE|), tail);
  }

  lemma SameHead(prose: string, tail: string, i: nat, k: nat)
    requires i <= k <= |prose|
    ensures (prose + tail)[i..BackOver(prose + tail, i, k)] == prose[i..BackOver(prose, i, k)]
  {
    BackOverAgrees(prose, prose + tail, i, k);
  }

  lemma BlockGoes(s: string, i: nat, k: nat, q: nat)
    requires i <= |s| && ClosedBlock(s, i) == Some((k, q))
    ensures RemoveClosed(s, i) == s[i..BackOver(s, i, k)] + RemoveClosed(s, q + |CLOSE|)
  {
  }

  /** The second replacement cuts the stream back to what the prose alone would show. */
  lemma OpenInStream(prose: string, partial: string)
    requires Unclosed(partial)
    ensures Trim(RemoveOpen(prose + (OPEN + partial))) == Trim(RemoveOpen(prose))
  {
    var s := prose + (OPEN + partial);
    OpenInProse(prose, partial, 0);
    var k := Find(prose, OPEN, 0);
    var at := if k.Some? then k.value else |prose|;
    BackOverAgrees(prose, s, 0, at);
    assert s[..BackOver(s, 0, at)] == prose[..BackOver(prose, 0, at)];
    if k.None? {
      TrimDropsTrailing(prose);
    }
  }

  /** Stream-stable: from a complete opening tag until its close, the reader sees what the prose before it shows. */
  lemma StreamStable(prose: string, partial: string)
    requires Unclosed(partial)
    ensures StripBuilderDraft(prose + (OPEN + partial)) == StripBuilderDraft(prose)
    ensures NoTag(prose) ==> StripBuilderDraft(prose + (OPEN + partial)) == Trim(prose)
  {
    ClosedInStream(prose, partial);
    OpenInStream(RemoveClosed(prose, 0), partial);
    if NoTag(prose) {
      FirstIsFind(prose, OPEN, 0, None);
      assert prose[0..] == prose;
    }
  }

  /** In a finished reply, every cut between the opening tag and the end of its closing tag shows the same. */
  lemma EveryCutShowsProse(prose: string, body: string, rest: string, cut: nat)
    requires NoneBetween(body + CLOSE, CLOSE, 0, |body|)
    requires |prose| + |OPEN| <= cut < |prose| + |OPEN| + |body| + |CLOSE|
    ensures StripBuilderDraft((prose + (OPEN + (body + (CLOSE + rest))))[..cut]) == StripBuilderDraft(prose)
  {
    var n := cut - |prose| - |OPEN|;
    var whole := body + CLOSE;
    var partial := whole[..n];
    CutReply(prose, body, rest, cut, partial);
    forall j: nat ensures !At(partial, j, CLOSE) {
      if j + |CLOSE| <= |partial| {
        AtShift(whole, partial, 0, j, CLOSE);
      }
    }
    StreamStable(prose, partial);
  }

  lemma CutReply(prose: string, body: string, rest: string, cut: nat, partial: string)
    requires |prose| + |OPEN| <= cut < |prose| + |OPEN| + |body| + |CLOSE|
    requires partial == (body + CLOSE)[..cut - |prose| - |OPEN|]
    ensures (prose + (OPEN + (body + (CLOSE + rest))))[..cut] == prose + (OPEN + partial)
  {
    assert body + (CLOSE + rest) == (body + CLOSE) + rest;
    assert (OPEN + ((body + CLOSE) + rest))[..cut - |prose|] == OPEN + partial;
  }

  // ----- Cuts anywhere up to the end of the block -----

  /** The beginning of an opening tag that is still being streamed. */
  predicate Fragment(f: string) {
    0 < |f| < |OPEN| && f == OPEN[..|f|]
  }

  lemma FindWithFragment(prose: string, f: string, i: nat, tag: string)
    requires Fragment(f) && i <= |prose| && (tag == OPEN || tag == CLOSE)
    ensures Find(prose + f, tag, i) == Find(prose, tag, i)
  {
    forall j: nat ensures At(prose + f, j, tag) <==> At(prose, j, tag) {
      if j < |prose| {
        StraddleFails(prose, f, j, tag);
      }
    }
    FindIsFirst(prose, tag, i);
    FirstIsFind(prose + f, tag, i, Find(prose, tag, i));
  }

  lemma BlocksWithFragment(prose: string, f: string, i: nat)
    requires Fragment(f) && i <= |prose|
    ensures ClosedBlock(prose + f, i) == ClosedBlock(prose, i)
  {
    FindWithFragment(prose, f, i, OPEN);
    var k := Find(prose, OPEN, i);
    if k.Some? {
      FindWithFragment(prose, f, k.value + |OPEN|, CLOSE);
    }
  }

  lemma ClosedWithFragment(prose: string, f: string)
    requires Fragment(f)
    ensures RemoveClosed(prose + f, 0) == RemoveClosed(prose, 0) + f
  {
    forall i | 0 <= i <= |prose| ensures ClosedBlock(prose + f, i) == ClosedBlock(prose, i) {
      BlocksWithFragment(prose, f, i);
    }
    ClosedBefore(prose, f, 0);
  }

  lemma OpenWithFragment(r: string, f: string)
    requires Fragment(f)
    ensures RemoveOpen(r + f) == if Find(r, OPEN, 0).Some? then RemoveOpen(r) else r + f
  {
    FindWithFragment(r, f, 0, OPEN);
    var k := Find(r, OPEN, 0);
    if k.Some? {
      BackOverAgrees(r, r + f, 0, k.value);
    }
  }

  lemma TrimWithFragment(r: string, f: string)
    requires Fragment(f)
    ensures Trim(r + f) != Trim(r)
  {
    var lo, s := FrontOver(r, 0), r + f;
    FrontOverMeans(r, 0);
    assert s[|r|] == f[0] && s[|s| - 1] == f[|f| - 1];
    assert forall i :: 0 <= i < |OPEN| ==> !IsSpace(OPEN[i]);
    TrimIs(s, lo, |s|);
    assert |Trim(s)| > |Trim(r)|;
  }

  /**
   * While the opening tag itself is being streamed, its fragment shows, exactly unless removing closed blocks
   * from the prose splices a tag together that hides all that follows.
   */
  lemma FragmentHiddenExactly(prose: string, f: string)
    requires Fragment(f)
    ensures StripBuilderDraft(prose + f) == StripBuilderDraft(prose)
            <==> Find(RemoveClosed(prose, 0), OPEN, 0).Some?
  {
    ClosedWithFragment(prose, f);
    OpenWithFragment(RemoveClosed(prose, 0), f);
    if Find(RemoveClosed(prose, 0), OPEN, 0).None? {
      TrimWithFragment(RemoveClosed(prose, 0), f);
    }
  }

  lemma StripIsTrim(prose: string)
    requires NoTag(prose)
    ensures RemoveClosed(prose, 0) == prose && Find(prose, OPEN, 0) == None && StripBuilderDraft(prose) == Trim(prose)
  {
    FirstIsFind(prose, OPEN, 0, None);
    assert prose[0..] == prose;
  }

  /** A prefix trims to the same text exactly when the rest is whitespace. */
  lemma TrimPrefixExactly(p: string, cut: nat)
    requires cut <= |p|
    ensures Trim(p[..cut]) == Trim(p) <==> AllSpace(p, cut, |p|)
  {
    if AllSpace(p, cut, |p|) {
      var n := BackOver(p, 0, |p|);
      BackOverMeans(p, 0, |p|);
      TrimDropsTrailing(p);
      BackOverIs(p[..cut], 0, cut, n);
      TrimDropsTrailing(p[..cut]);
      assert p[..cut][..n] == p[..n];
    } else {
      PrefixTrimsShorter(p, cut);
    }
  }

  lemma PrefixTrimsShorter(p: string, cut: nat)
    requires cut <= |p| && !AllSpace(p, cut, |p|)
    ensures |Trim(p[..cut])| < |Trim(p)|
  {
    var lo := FrontOver(p, 0);
    FrontOverMeans(p, 0);
    BackOverMeans(p, lo, |p|);
    FrontOverIs(p[..cut], 0, if lo < cut then lo else cut);
  }

  /** The finished block is removed together with the whitespace before it. */
  lemma ClosedShowsProse(prose: string, body: string)
    requires NoTag(prose) && NoneBetween(body + CLOSE, CLOSE, 0, |body|)
    ensures StripBuilderDraft(prose + (OPEN + (body + CLOSE))) == Trim(prose)
  {
    var s, n := prose + (OPEN + (body + CLOSE)), BackOver(prose, 0, |prose|);
    FinishedBlock(prose, body);
    BackOverAgrees(prose, s, 0, |prose|);
    assert s[|s|..] == "";
    assert RemoveClosed(s, |s|) == "";
    assert s[0..n] == prose[..n];
    assert RemoveClosed(s, 0) == prose[..n];
    NoTagInside(prose, prose[..n], 0);
    FirstIsFind(prose[..n], OPEN, 0, None);
    TrimDropsTrailing(prose);
  }

  lemma FinishedBlock(prose: string, body: string)
    requires NoTag(prose) && NoneBetween(body + CLOSE, CLOSE, 0, |body|)
    ensures ClosedBlock(prose + (OPEN + (body + CLOSE)), 0) == Some((|prose|, |prose| + |OPEN| + |body|))
  {
    FirstIsFind(prose, OPEN, 0, None);
    OpenInProse(prose, body + CLOSE, 0);
    ClosesHere(body);
    Associative(prose, OPEN, body + CLOSE);
    FindBehind(prose + OPEN, body + CLOSE, |body|, CLOSE, prose + (OPEN + (body + CLOSE)));
  }

  lemma NoneBehind(before: string, s: string, n: nat, tag: string)
    requires NoneBetween(s, tag, 0, n)
    ensures NoneBetween(before + s, tag, |before|, |before| + n)
  {
    forall j: nat | |before| <= j < |before| + n ensures !At(before + s, j, tag) {
      var m: nat := j - |before|;
      AtBehind(before, s, m, tag);
      assert !At(s, m, tag);
    }
  }

  lemma FindBehind(before: string, s: string, n: nat, tag: string, whole: string)
    requires At(s, n, tag) && NoneBetween(s, tag, 0, n) && whole == before + s
    ensures Find(whole, tag, |before|) == Some(|before| + n)
  {
    AtBehind(before, s, n, tag);
    NoneBehind(before, s, n, tag);
    FirstIsFind(whole, tag, |before|, Some(|before| + n));
  }

  lemma ClosesHere(body: string)
    ensures At(body + CLOSE, |body|, CLOSE)
  {
    assert (body + CLOSE)[|body|..] == CLOSE;
  }

  lemma AtBehind(before: string, s: string, j: nat, tag: string)
    ensures At(before + s, |before| + j, tag) <==> At(s, j, tag)
  {
    if j + |tag| <= |s| {
      assert s == (before + s)[|before|..];
      AtShift(before + s, s, |before|, j, tag);
    }
  }

  /** The cuts at which a reader sees the prose and nothing else. */
  predicate ShowsProse(prose: string, cut: nat) {
    if cut <= |prose| then forall i :: cut <= i < |prose| ==> IsSpace(prose[i])
    else cut >= |prose| + |OPEN|
  }

  /**
   * Of all cuts up to the end of the block, those that show the trimmed prose are exactly the ones that leave
   * off nothing but whitespace of it, and the ones behind a complete opening tag.
   */
  lemma CutShowsProseExactly(prose: string, body: string, rest: string, cut: nat)
    requires NoneBetween(prose, "<agent_draft>", 0, |prose| + 1)
    requires NoneBetween(body + CLOSE, "</agent_draft>", 0, |body|)
    requires cut <= |prose| + |OPEN| + |body| + |CLOSE|
    ensures StripBuilderDraft((prose + ("<agent_draft>" + (body + ("</agent_draft>" + rest))))[..cut]) == Trim(prose)
            <==> ShowsProse(prose, cut)
  {
    var reply := prose + (OPEN + (body + (CLOSE + rest)));
    StripIsTrim(prose);
    if cut <= |prose| {
      assert reply[..cut] == prose[..cut];
      NoTagInside(prose, prose[..cut], 0);
      StripIsTrim(prose[..cut]);
      TrimPrefixExactly(prose, cut);
    } else if cut < |prose| + |OPEN| {
      var f := OPEN[..cut - |prose|];
      assert reply[..cut] == prose + f;
      FragmentHiddenExactly(prose, f);
    } else if cut < |prose| + |OPEN| + |body| + |CLOSE| {
      EveryCutShowsProse(prose, body, rest, cut);
    } else {
      assert reply[..cut] == prose + (OPEN + (body + CLOSE));
      ClosedShowsProse(prose, body);
    }
  }
}
