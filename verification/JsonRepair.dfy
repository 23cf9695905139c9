/** Repairing JSON emitted with raw line breaks and tabs inside its string literals. */
module JsonRepair {

  /** Where the scanner stands: outside any string, inside one, or just after a backslash inside one. */
  datatype Mode = Outside | Inside | Escaped

  function Next(m: Mode, c: char): Mode {
    match m
    case Outside => if c == '"' then Inside else Outside
    case Escaped => Inside
    case Inside => if c == '\\' then Escaped else if c == '"' then Outside else Inside
  }

  /** The three control characters the repair knows. */
  predicate Known(c: char) {
    c == '\n' || c == '\r' || c == '\t'
  }

  function EscapeOf(c: char): string
    requires Known(c)
  {
    if c == '\n' then "\\n" else if c == '\r' then "\\r" else "\\t"
  }

  function Emit(m: Mode, c: char): string {
    if m == Inside && Known(c) then EscapeOf(c) else [c]
  }

  /** The mode after the first n characters. */
  function ModeAt(s: string, n: nat): Mode
    requires n <= |s|
  {
    if n == 0 then Outside else Next(ModeAt(s, n - 1), s[n - 1])
  }

  /** The first n characters, repaired. */
  function Repaired(s: string, n: nat): string
    requires n <= |s|
  {
    if n == 0 then "" else Repaired(s, n - 1) + Emit(ModeAt(s, n - 1), s[n - 1])
  }

  function Repair(s: string): string {
    Repaired(s, |s|)
  }

  function FinalMode(s: string): Mode {
    ModeAt(s, |s|)
  }

  method EscapeJsonStringControlCharacters(value: string) returns (result: string)
    ensures result == Repair(value)
  {
    result := "";
    var inString, escaped := false, false;
    for n := 0 to |value|
      invariant result == Repaired(value, n)
      invariant ModeAt(value, n) == if !inString then Outside else if escaped then Escaped else Inside
      invariant escaped ==> inString
    {
      var character := value[n];
      if !inString {
        result := result + [character];
        if character == '"' {
          inString := true;
        }
        continue;
      }
      if escaped {
        result := result + [character];
        escaped := false;
        continue;
      }
      if character == '\\' {
        result := result + [character];
        escaped := true;
        continue;
      }
      if character == '"' {
        result := result + [character];
        inString := false;
        continue;
      }
      if character == '\n' {
        result := result + "\\n";
      } else if character == '\r' {
        result := result + "\\r";
      } else if character == '\t' {
        result := result + "\\t";
      } else {
        result := result + [character];
      }
    }
  }

  // ----- One character more -----

  lemma {:induction false} PrefixAgrees(s: string, t: string, n: nat)
    requires n <= |s| && n <= |t| && forall i :: 0 <= i < n ==> s[i] == t[i]
    ensures ModeAt(s, n) == ModeAt(t, n) && Repaired(s, n) == Repaired(t, n)
  {
    if n > 0 {
      PrefixAgrees(s, t, n - 1);
    }
  }

  lemma Append(s: string, c: char)
    ensures FinalMode(s + [c]) == Next(FinalMode(s), c)
    ensures Repair(s + [c]) == Repair(s) + Emit(FinalMode(s), c)
  {
    PrefixAgrees(s, s + [c], |s|);
  }

  lemma AppendTwo(s: string, b: char, c: char)
    ensures var m := FinalMode(s);
            && FinalMode(s + [b, c]) == Next(Next(m, b), c)
            && Repair(s + [b, c]) == Repair(s) + (Emit(m, b) + Emit(Next(m, b), c))
  {
    Append(s, b);
    Append(s + [b], c);
    assert s + [b, c] == (s + [b]) + [c];
  }

  /** What is emitted for a character leads to the same mode, and is not repaired again. */
  lemma AppendEmitted(r: string, c: char)
    ensures FinalMode(r + Emit(FinalMode(r), c)) == Next(FinalMode(r), c)
    ensures Repair(r + Emit(FinalMode(r), c)) == Repair(r) + Emit(FinalMode(r), c)
  {
    var m := FinalMode(r);
    if m == Inside && Known(c) {
      AppendTwo(r, EscapeOf(c)[0], EscapeOf(c)[1]);
      assert EscapeOf(c) == [EscapeOf(c)[0], EscapeOf(c)[1]];
    } else {
      Append(r, c);
    }
  }

  // ----- Alignment, idempotence, identity -----

  /**
   * Repairing keeps every position where it was: the repair of a prefix is a prefix of the repair,
   * and leaves the scanner in the same mode.
   */
  lemma {:induction false} ModesAligned(s: string, n: nat)
    requires n <= |s|
    ensures FinalMode(Repaired(s, n)) == ModeAt(s, n)
    ensures Repair(Repaired(s, n)) == Repaired(s, n)
  {
    if n > 0 {
      ModesAligned(s, n - 1);
      AppendEmitted(Repaired(s, n - 1), s[n - 1]);
    }
  }

  lemma {:induction false} RepairedGrows(s: string, m: nat, n: nat)
    requires m <= n <= |s|
    ensures Repaired(s, m) <= Repaired(s, n)
    decreases n
  {
    if m < n {
      RepairedGrows(s, m, n - 1);
    }
  }

  lemma RepairIdempotent(s: string)
    ensures Repair(Repair(s)) == Repair(s)
  {
    ModesAligned(s, |s|);
  }

  /** A raw newline, carriage return or tab stands inside a string, not right after a backslash. */
  predicate RawAt(s: string, i: nat)
    requires i < |s|
  {
    ModeAt(s, i) == Inside && Known(s[i])
  }

  lemma {:induction false} RepairedLength(s: string, n: nat)
    requires n <= |s|
    ensures |Repaired(s, n)| >= n
    ensures |Repaired(s, n)| == n <==> forall i :: 0 <= i < n ==> !RawAt(s, i)
    ensures |Repaired(s, n)| == n ==> Repaired(s, n) == s[..n]
  {
    if n > 0 {
      RepairedLength(s, n - 1);
      assert RawAt(s, n - 1) <==> ModeAt(s, n - 1) == Inside && Known(s[n - 1]);
    }
  }

  /** Repair changes a text exactly when some string in it holds a raw newline, carriage return or tab. */
  lemma IdentityExactly(s: string)
    ensures Repair(s) == s <==> forall i :: 0 <= i < |s| ==> !RawAt(s, i)
  {
    RepairedLength(s, |s|);
    assert s[..|s|] == s;
  }

  /** After the repair no such character is left. */
  lemma RepairClean(s: string)
    ensures forall i :: 0 <= i < |Repair(s)| ==> !RawAt(Repair(s), i)
  {
    RepairIdempotent(s);
    IdentityExactly(Repair(s));
  }

  /** A known control character stands anywhere in a string, even right after a backslash. */
  predicate ControlAt(s: string, i: nat)
    requires i < |s|
  {
    ModeAt(s, i) != Outside && Known(s[i])
  }

  predicate EscapedControlAt(s: string, i: nat)
    requires i < |s|
  {
    ModeAt(s, i) == Escaped && Known(s[i])
  }

  lemma EmitControl(r: string, c: char)
    ensures var m := FinalMode(r); var e := Emit(m, c);
            (exists i :: |r| <= i < |r + e| && ControlAt(r + e, i)) <==> m == Escaped && Known(c)
  {
    var m := FinalMode(r);
    var e := Emit(m, c);
    PrefixAgrees(r, r + e, |r|);
    assert (r + e)[|r|] == e[0];
    if m == Escaped && Known(c) {
      assert ControlAt(r + e, |r|);
    }
    if |e| == 2 {
      assert (r + e)[|r| + 1] == e[1];
    }
  }

  ghost predicate ControlIn(s: string) {
    exists i :: 0 <= i < |s| && ControlAt(s, i)
  }

  ghost predicate EscapedControlIn(s: string, n: nat)
    requires n <= |s|
  {
    exists i :: 0 <= i < n && EscapedControlAt(s, i)
  }

  lemma ControlGrows(r: string, e: string)
    ensures ControlIn(r + e) <==> ControlIn(r) || exists i :: |r| <= i < |r + e| && ControlAt(r + e, i)
  {
    forall i | 0 <= i < |r| ensures ControlAt(r, i) <==> ControlAt(r + e, i) {
      PrefixAgrees(r, r + e, i);
    }
    if i :| 0 <= i < |r| && ControlAt(r, i) {
      assert ControlAt(r + e, i);
    }
  }

  lemma EscapedMore(s: string, n: nat)
    requires n < |s|
    ensures EscapedControlIn(s, n + 1) <==> EscapedControlIn(s, n) || EscapedControlAt(s, n)
  {
  }

  lemma ControlStep(s: string, n: nat)
    requires n < |s|
    ensures ControlIn(Repaired(s, n + 1)) <==> ControlIn(Repaired(s, n)) || EscapedControlAt(s, n)
  {
    var r := Repaired(s, n);
    ModesAligned(s, n);
    EmitControl(r, s[n]);
    ControlGrows(r, Emit(FinalMode(r), s[n]));
  }

  /** A control character survives in some string of the output exactly when the input has one right after a
    * backslash. */
  lemma {:induction false} ControlLeftExactly(s: string, n: nat)
    requires n <= |s|
    ensures ControlIn(Repaired(s, n)) <==> EscapedControlIn(s, n)
  {
    if n > 0 {
      ControlLeftExactly(s, n - 1);
      ControlStep(s, n - 1);
      EscapedMore(s, n - 1);
    }
  }
}
