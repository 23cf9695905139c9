/** JSON printed with raw line breaks, repaired, and read back per section 7 of RFC 8259. */
module JsonRoundTrip {
  import opened Common
  import opened JsonRepair

  // ----- Printing strings -----

  /** Quotes and backslashes escaped, everything else raw. */
  function LooseChar(c: char): string {
    if c == '"' || c == '\\' then ['\\', c] else [c]
  }

  /** Newlines, carriage returns and tabs escaped as well. */
  function StrictChar(c: char): string {
    if Known(c) then EscapeOf(c) else LooseChar(c)
  }

  function LooseBody(s: string): string {
    if s == "" then "" else LooseChar(s[0]) + LooseBody(s[1..])
  }

  function StrictBody(s: string): string {
    if s == "" then "" else StrictChar(s[0]) + StrictBody(s[1..])
  }

  function Loose(s: string): string {
    "\"" + LooseBody(s) + "\""
  }

  function Strict(s: string): string {
    "\"" + StrictBody(s) + "\""
  }

  /** A JSON text: stretches without quotes, and strings. */
  datatype Part = Text(t: string) | Str(s: string)

  predicate WellFormed(doc: seq<Part>) {
    forall p :: p in doc && p.Text? ==> '"' !in p.t
  }

  function LooseDoc(doc: seq<Part>): string {
    if doc == [] then ""
    else LooseDoc(doc[..|doc| - 1]) + (var p := doc[|doc| - 1]; if p.Text? then p.t else Loose(p.s))
  }

  function StrictDoc(doc: seq<Part>): string {
    if doc == [] then ""
    else StrictDoc(doc[..|doc| - 1]) + (var p := doc[|doc| - 1]; if p.Text? then p.t else Strict(p.s))
  }

  // ----- Repair turns one print into the other -----

  lemma RepairChar(r: string, c: char)
    requires FinalMode(r) == Inside
    ensures FinalMode(r + LooseChar(c)) == Inside && Repair(r + LooseChar(c)) == Repair(r) + StrictChar(c)
  {
    if c == '"' || c == '\\' {
      AppendTwo(r, '\\', c);
      assert ['\\'] + [c] == ['\\', c];
    } else {
      Append(r, c);
    }
  }

  lemma {:induction false} RepairBody(r: string, s: string)
    requires FinalMode(r) == Inside
    ensures FinalMode(r + LooseBody(s)) == Inside && Repair(r + LooseBody(s)) == Repair(r) + StrictBody(s)
    decreases s
  {
    if s == "" {
      assert r + "" == r && Repair(r) + "" == Repair(r);
    } else {
      RepairChar(r, s[0]);
      RepairBody(r + LooseChar(s[0]), s[1..]);
      Associative(r, LooseChar(s[0]), LooseBody(s[1..]));
      Associative(Repair(r), StrictChar(s[0]), StrictBody(s[1..]));
    }
  }

  lemma RepairLoose(r: string, s: string)
    requires FinalMode(r) == Outside
    ensures FinalMode(r + Loose(s)) == Outside && Repair(r + Loose(s)) == Repair(r) + Strict(s)
  {
    var quoted := r + ['"'];
    Append(r, '"');
    RepairBody(quoted, s);
    Append(quoted + LooseBody(s), '"');
    Wrapped(r, LooseBody(s));
    Wrapped(Repair(r), StrictBody(s));
  }

  lemma Wrapped(r: string, body: string)
    ensures r + ("\"" + body + "\"") == ((r + ['"']) + body) + ['"']
  {
  }

  lemma {:induction false} RepairText(r: string, t: string)
    requires FinalMode(r) == Outside && '"' !in t
    ensures FinalMode(r + t) == Outside && Repair(r + t) == Repair(r) + t
    decreases t
  {
    if t == "" {
      assert r + "" == r && Repair(r) + "" == Repair(r);
    } else {
      Append(r, t[0]);
      RepairText(r + [t[0]], t[1..]);
      assert r + t == (r + [t[0]]) + t[1..];
      assert Repair(r) + t == (Repair(r) + [t[0]]) + t[1..];
    }
  }

  /** Repairing a loosely printed document gives the strictly printed one, outside strings untouched. */
  lemma {:induction false} RepairDocument(doc: seq<Part>)
    requires WellFormed(doc)
    ensures Repair(LooseDoc(doc)) == StrictDoc(doc) && FinalMode(LooseDoc(doc)) == Outside
  {
    if doc == [] {
    } else {
      var n := |doc| - 1;
      RepairDocument(doc[..n]);
      assert doc[n] in doc;
      if doc[n].Text? {
        RepairText(LooseDoc(doc[..n]), doc[n].t);
      } else {
        RepairLoose(LooseDoc(doc[..n]), doc[n].s);
      }
    }
  }

  // ----- Reading strings -----

  function HexDigit(c: char): Option<nat> {
    if '0' <= c <= '9' then Some(c as int - '0' as int)
    else if 'a' <= c <= 'f' then Some(c as int - 'a' as int + 10)
    else if 'A' <= c <= 'F' then Some(c as int - 'A' as int + 10)
    else None
  }

  /** Four hexadecimal digits as a character; halves of surrogate pairs are not characters. */
  function HexChar(s: string): Option<char>
    requires |s| >= 4
  {
    var a, b, c, d := HexDigit(s[0]), HexDigit(s[1]), HexDigit(s[2]), HexDigit(s[3]);
    if a.None? || b.None? || c.None? || d.None? then None
    else
      var code := ((a.value * 16 + b.value) * 16 + c.value) * 16 + d.value;
      if code < 0xD800 || 0xE000 <= code < 0x10000 then Some(code as char) else None
  }

  /** A two-character escape, by its second character. */
  function Unescape(c: char): Option<char> {
    match c
    case '"' => Some('"')
    case '\\' => Some('\\')
    case '/' => Some('/')
    case 'b' => Some(8 as char)
    case 'f' => Some(12 as char)
    case 'n' => Some('\n')
    case 'r' => Some('\r')
    case 't' => Some('\t')
    case _ => None
  }

  function Cons(c: char, rest: Option<string>): Option<string> {
    if rest.None? then None else Some([c] + rest.value)
  }

  /** The rest of a string literal, up to the quote that must end it; control characters may not stand for
    * themselves. */
  function DecodeBody(t: string): Option<string>
    decreases |t|
  {
    if t == "" then None
    else if t[0] == '"' then if |t| == 1 then Some("") else None
    else if t[0] == '\\' then
      if |t| < 2 then None
      else if t[1] == 'u' then
        if |t| < 6 || HexChar(t[2..]).None? then None
        else Cons(HexChar(t[2..]).value, DecodeBody(t[6..]))
      else if Unescape(t[1]).None? then None
      else Cons(Unescape(t[1]).value, DecodeBody(t[2..]))
    else if t[0] < ' ' then None
    else Cons(t[0], DecodeBody(t[1..]))
  }

  function Decode(literal: string): Option<string> {
    if literal == "" || literal[0] != '"' then None else DecodeBody(literal[1..])
  }

  /** A character that a strict print can carry. */
  predicate Printable(c: char) {
    c >= ' ' || c == '\n' || c == '\r' || c == '\t'
  }

  lemma DecodeChar(c: char, rest: string)
    ensures DecodeBody(StrictChar(c) + rest) == if Printable(c) then Cons(c, DecodeBody(rest)) else None
  {
    var t := StrictChar(c) + rest;
    if |StrictChar(c)| == 2 {
      assert t[0] == '\\' && t[1] == StrictChar(c)[1] && t[2..] == rest;
    } else {
      assert t[0] == c && t[1..] == rest;
    }
  }

  lemma {:induction false} DecodeStrictBody(s: string)
    ensures DecodeBody(StrictBody(s) + "\"") == if forall c :: c in s ==> Printable(c) then Some(s) else None
    decreases s
  {
    if s == "" {
      assert "" + "\"" == "\"";
    } else {
      DecodeStrictBody(s[1..]);
      DecodeChar(s[0], StrictBody(s[1..]) + "\"");
      assert StrictBody(s) + "\"" == StrictChar(s[0]) + (StrictBody(s[1..]) + "\"");
      assert s == [s[0]] + s[1..];
    }
  }

  /** The round trip gives back exactly the strings whose only control characters are newline, carriage return
    * and tab. */
  lemma RoundTripExactly(s: string)
    ensures Decode(Repair(Loose(s))) == Some(s) <==> forall c :: c in s ==> Printable(c)
  {
    RepairLoose("", s);
    assert "" + Loose(s) == Loose(s) && "" + Strict(s) == Strict(s);
    DecodeStrictBody(s);
    Opened(StrictBody(s));
  }

  lemma Opened(body: string)
    ensures var literal := "\"" + body + "\""; literal[0] == '"' && literal[1..] == body + "\""
  {
  }
}
