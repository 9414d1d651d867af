/**
 Character data and attribute values: how text is escaped when it is written, and how it
 is read back (XML 1.0, sections 2.2, 2.4, 2.7 and 2.11).  The reader handles element
 content, quoted attribute values and CDATA sections with one loop that remembers the
 last two characters.
 */
module XmlText {
  import opened Wrappers

  // ---------- the character range ----------

  /** The range the source tests, as it writes it. */
  predicate InCharacterRange(r: int) {
    || r == 0x09
    || r == 0x0A
    || r == 0x0D
    || 0x20 <= r <= 0xDF77
    || 0xE000 <= r <= 0xFFFD
    || 0x10000 <= r <= 0x10FFFF
  }

  /** The Char production of section 2.2. */
  predicate XmlChar(r: int) {
    r == 0x09 || r == 0x0A || r == 0x0D || 0x20 <= r <= 0xD7FF || 0xE000 <= r <= 0xFFFD || 0x10000 <= r <= 0x10FFFF
  }

  /** The two ranges differ only on surrogates, which decoding never produces. */
  lemma RangeIsXmlChar(r: int, c: char)
    ensures (InCharacterRange(r) <==> XmlChar(r)) <==> !(0xD800 <= r <= 0xDF77)
    ensures InCharacterRange(c as int) <==> XmlChar(c as int)
  {
    assert !(0xD800 <= c as int <= 0xDFFF);
  }

  // ---------- escaping ----------

  /** What UTF-8 decoding yields next: a character, or one byte that begins none. */
  datatype Piece = Rune(c: char) | BadByte

  const REPLACEMENT: char := '\U{FFFD}'

  function Decoded(p: Piece): char {
    if p.BadByte? then REPLACEMENT else p.c
  }

  /** The escape for a piece, or nothing when it is copied. */
  function Escape(p: Piece, escapeNewline: bool): Option<string> {
    match Decoded(p)
    case '"' => Some("&#34;")
    case '\'' => Some("&#39;")
    case '&' => Some("&amp;")
    case '<' => Some("&lt;")
    case '>' => Some("&gt;")
    case '\t' => Some("&#x9;")
    case '\n' => if escapeNewline then Some("&#xA;") else None
    case '\r' => Some("&#xD;")
    case r => if !InCharacterRange(r as int) || p.BadByte? then Some([REPLACEMENT]) else None
  }

  function Copied(s: seq<Piece>): string {
    if s == [] then "" else Copied(s[..|s| - 1]) + [Decoded(s[|s| - 1])]
  }

  function Escaped(s: seq<Piece>, escapeNewline: bool): string {
    if s == [] then ""
    else
      Escaped(s[..|s| - 1], escapeNewline) + Written(s[|s| - 1], escapeNewline)
  }

  function Written(p: Piece, escapeNewline: bool): string {
    match Escape(p, escapeNewline)
    case Some(esc) => esc
    case None => [Decoded(p)]
  }

  /** Runs that need no escape are written in one piece. */
  method EscapeText(s: seq<Piece>, escapeNewline: bool) returns (w: string)
    ensures w == Escaped(s, escapeNewline)
  {
    hide Escape;
    w := "";
    var last, i := 0, 0;
    while i < |s|
      invariant 0 <= last <= i <= |s|
      invariant w + Copied(s[last..i]) == Escaped(s[..i], escapeNewline)
    {
      var p := s[i];
      i := i + 1;
      assert s[..i][..i - 1] == s[..i - 1] && s[last..i][..i - 1 - last] == s[last..i - 1];
      match Escape(p, escapeNewline) {
        case None =>
        case Some(esc) =>
          w := w + Copied(s[last..i - 1]);
          w := w + esc;
          last := i;
      }
    }
    assert s[..i] == s;
    w := w + Copied(s[last..]);
  }

  // ---------- reading ----------

  datatype Mode = Content | Quoted(quote: char) | CData

  predicate IsNameChar(c: char) {
    'A' <= c <= 'Z' || 'a' <= c <= 'z' || '0' <= c <= '9' || c == '_' || c == ':' || c == '.' || c == '-' ||
      c >= '\U{80}'
  }

  predicate IsDigit(c: char, base: nat) {
    '0' <= c <= '9' || (base == 16 && ('a' <= c <= 'f' || 'A' <= c <= 'F'))
  }

  function NameRun(s: string): (n: nat)
    ensures n <= |s|
  {
    if s == "" || !IsNameChar(s[0]) then 0 else 1 + NameRun(s[1..])
  }

  function DigitRun(s: string, base: nat): (n: nat)
    ensures n <= |s| && forall i :: 0 <= i < n ==> IsDigit(s[i], base)
  {
    if s == "" || !IsDigit(s[0], base) then 0 else 1 + DigitRun(s[1..], base)
  }

  function DigitValue(c: char): nat
    requires IsDigit(c, 16)
  {
    if c <= '9' then (c - '0') as nat else if c <= 'F' then (c - 'A') as nat + 10 else (c - 'a') as nat + 10
  }

  function Number(digits: string, base: nat): nat
    requires forall i :: 0 <= i < |digits| ==> IsDigit(digits[i], base)
  {
    if digits == "" then 0
    else
      assert IsDigit(digits[|digits| - 1], base);
      Number(digits[..|digits| - 1], base) * base + DigitValue(digits[|digits| - 1])
  }

  /** A surrogate is not a character; converting it gives the replacement character. */
  function CharOf(n: nat): char
    requires n <= 0x10FFFF
  {
    if 0xD800 <= n <= 0xDFFF then REPLACEMENT else n as char
  }

  const ENTITIES: map<string, char> := map["lt" := '<', "gt" := '>', "amp" := '&', "apos" := '\'', "quot" := '"']

  /** The character that a reference stands for, given what follows its ampersand. */
  function Reference(s: string): (r: Option<(char, string)>)
    ensures r.Some? ==> |r.value.1| < |s|
  {
    if s != "" && s[0] == '#' then
      if |s| > 1 && s[1] == 'x' then NumberReference(s[2..], 16) else NumberReference(s[1..], 10)
    else
      var n := NameRun(s);
      if n == |s| || s[n] != ';' || s[..n] !in ENTITIES then None
      else Some((ENTITIES[s[..n]], s[n + 1..]))
  }

  function NumberReference(t: string, base: nat): (r: Option<(char, string)>)
    ensures r.Some? ==> |r.value.1| < |t|
  {
    var n := DigitRun(t, base);
    if n == 0 || n == |t| || t[n] != ';' || Number(t[..n], base) > 0x10FFFF then None
    else Some((CharOf(Number(t[..n], base)), t[n + 1..]))
  }

  function Before(data: string, r: Option<(string, string)>): Option<(string, string)> {
    match r
    case None => None
    case Some((more, rest)) => Some((data + more, rest))
  }

  /** What is read from `s` on, when the last two characters were `b0` and `b1`. */
  function Scan(s: string, m: Mode, b0: char, b1: char): Option<(string, string)>
    decreases |s|
  {
    if s == "" then (if m.CData? then None else Some(("", "")))
    else
      var b := s[0];
      if b0 == ']' && b1 == ']' && b == '>' then (if m.CData? then Some(("", s[1..])) else None)
      else if b == '<' && !m.CData? then (if m.Quoted? then None else Some(("", s)))
      else if m.Quoted? && b == m.quote then Some(("", s[1..]))
      else if b == '&' && !m.CData? then
        match Reference(s[1..])
        case None => None
        case Some((c, rest)) => Before([c], Scan(rest, m, '\0', '\0'))
      else Before(Plain(b1, b), Scan(s[1..], m, b1, b))
  }

  /** A carriage return becomes a newline, and takes the newline after it along. */
  function Plain(before: char, b: char): string {
    if b == '\r' then "\n" else if before == '\r' && b == '\n' then "" else [b]
  }

  function Trim(data: string, m: Mode): string
    requires m.CData? ==> |data| >= 2
  {
    if m.CData? then data[..|data| - 2] else data
  }

  predicate AllInRange(data: string) {
    forall i :: 0 <= i < |data| ==> InCharacterRange(data[i] as int)
  }

  /** The text of `s` and what is left of it, or nothing on a syntax error. */
  function Text(s: string, m: Mode): Option<(string, string)> {
    match Scan(s, m, '\0', '\0')
    case None => None
    case Some((data, rest)) =>
      CDataLength(s, '\0', '\0');
      if AllInRange(Trim(data, m)) then Some((Trim(data, m), rest)) else None
  }

  lemma {:induction false} CDataLength(s: string, b0: char, b1: char)
    ensures var r := Scan(s, CData, b0, b1);
            r.Some? ==> |r.value.0| >= (if b1 != ']' then 2 else if b0 != ']' then 1 else 0)
    decreases |s|
  {
    if s != "" {
      CDataLength(s[1..], b1, s[0]);
    }
  }

  lemma RunBegins(s: string, base: nat)
    ensures DigitRun(s, base) == DigitRun(s[0..], base) && Number(s[..0], base) == 0
  {
    assert s[0..] == s && s[..0] == "";
  }

  lemma DigitStep(s: string, i: nat, base: nat)
    requires i < |s| && IsDigit(s[i], base) && DigitRun(s, base) == i + DigitRun(s[i..], base)
    ensures DigitRun(s[i..], base) == 1 + DigitRun(s[i + 1..], base)
    ensures IsDigit(s[i], 16) && forall k :: 0 <= k <= i ==> IsDigit(s[k], base)
    ensures Number(s[..i + 1], base) == Number(s[..i], base) * base + DigitValue(s[i])
  {
    assert s[i..][1..] == s[i + 1..] && s[..i + 1][..i] == s[..i];
  }

  lemma RunEnds(s: string, i: nat, base: nat)
    requires i <= |s| && (i < |s| ==> !IsDigit(s[i], base))
    ensures DigitRun(s[i..], base) == 0
  {}

  /** The digits of a character reference, and the semicolon after them. */
  method ReadNumber(s: string, base: nat) returns (ok: bool, n: nat, rest: string)
    requires base == 10 || base == 16
    ensures var k := DigitRun(s, base);
            && (ok <==> 0 < k < |s| && s[k] == ';' && Number(s[..k], base) <= 0x10FFFF)
            && (ok ==> n == Number(s[..k], base) && rest == s[k + 1..])
  {
    hide Number, DigitRun, DigitValue;
    var i := 0;
    n := 0;
    RunBegins(s, base);
    while i < |s| && IsDigit(s[i], base)
      invariant 0 <= i <= |s| && DigitRun(s, base) == i + DigitRun(s[i..], base)
      invariant n == Number(s[..i], base)
    {
      DigitStep(s, i, base);
      n := n * base + DigitValue(s[i]);
      i := i + 1;
    }
    RunEnds(s, i, base);
    ok := 0 < i < |s| && s[i] == ';' && n <= 0x10FFFF;
    rest := if ok then s[i + 1..] else "";
  }

  method ReadName(s: string) returns (name: string, rest: string)
    ensures name == s[..NameRun(s)] && rest == s[NameRun(s)..]
  {
    var i := 0;
    while i < |s| && IsNameChar(s[i])
      invariant 0 <= i <= |s| && NameRun(s) == i + NameRun(s[i..])
    {
      assert s[i..][1..] == s[i + 1..];
      i := i + 1;
    }
    name, rest := s[..i], s[i..];
  }

  method ReadReference(s: string) returns (ok: bool, c: char, rest: string)
    ensures (if ok then Some((c, rest)) else None) == Reference(s)
  {
    hide DigitRun, NameRun, Number, IsNameChar, IsDigit;
    ok, c, rest := false, '\0', "";
    if s == "" {
      return;
    }
    if s[0] == '#' {
      var base, t := 10, s[1..];
      if t == "" {
        return;
      }
      if t[0] == 'x' {
        base, t := 16, t[1..];
      }
      var n;
      ok, n, rest := ReadNumber(t, base);
      if ok {
        c := CharOf(n);
      }
    } else {
      var name, after := ReadName(s);
      if after == "" || after[0] != ';' || name !in ENTITIES {
        return;
      }
      return true, ENTITIES[name], after[1..];
    }
  }

  method ReadText(input: string, m: Mode) returns (ok: bool, data: string, rest: string)
    ensures (if ok then Some((data, rest)) else None) == Text(input, m)
  {
    hide Reference, Plain, InCharacterRange;
    var s, b0, b1 := input, '\0', '\0';
    data := "";
    BeforeNothing(Scan(s, m, b0, b1));
    while true
      invariant Scan(input, m, '\0', '\0') == Before(data, Scan(s, m, b0, b1))
      decreases |s|
    {
      if s == "" {
        if m.CData? {
          return false, "", "";
        }
        break;
      }
      var b := s[0];
      if b0 == ']' && b1 == ']' && b == '>' {
        if m.CData? {
          s := s[1..];
          break;
        }
        return false, "", "";
      }
      if b == '<' && !m.CData? {
        if m.Quoted? {
          return false, "", "";
        }
        break;
      }
      if m.Quoted? && b == m.quote {
        s := s[1..];
        break;
      }
      if b == '&' && !m.CData? {
        var good, c, after := ReadReference(s[1..]);
        if !good {
          return false, "", "";
        }
        BeforeTwice(data, [c], Scan(after, m, '\0', '\0'));
        data, s, b0, b1 := data + [c], after, '\0', '\0';
        continue;
      }
      BeforeTwice(data, Plain(b1, b), Scan(s[1..], m, b1, b));
      data, s, b0, b1 := data + Plain(b1, b), s[1..], b1, b;
    }
    assert data + "" == data;
    assert Scan(input, m, '\0', '\0') == Some((data, s));
    CDataLength(input, '\0', '\0');
    data, rest := Trim(data, m), s;
    ok := CheckRange(data);
  }

  method CheckRange(data: string) returns (ok: bool)
    ensures ok == AllInRange(data)
  {
    for i := 0 to |data|
      invariant forall k :: 0 <= k < i ==> InCharacterRange(data[k] as int)
    {
      if !InCharacterRange(data[i] as int) {
        return false;
      }
    }
    return true;
  }

  lemma BeforeNothing(r: Option<(string, string)>)
    ensures r == Before("", r)
  {
    if r.Some? {
      assert "" + r.value.0 == r.value.0;
    }
  }

  lemma BeforeTwice(a: string, b: string, r: Option<(string, string)>)
    ensures Before(a, Before(b, r)) == Before(a + b, r)
  {
    if r.Some? {
      assert a + (b + r.value.0) == a + b + r.value.0;
    }
  }

  // ---------- escaped text reads back ----------

  function CleanedPiece(p: Piece): char {
    if p.BadByte? || !InCharacterRange(p.c as int) then REPLACEMENT else p.c
  }

  /** The text itself, with what XML cannot contain replaced. */
  function Cleaned(s: seq<Piece>): string {
    if s == [] then ""
    else [CleanedPiece(s[0])] + Cleaned(s[1..])
  }

  lemma {:induction false} EscapedFromTheFront(s: seq<Piece>, escapeNewline: bool)
    requires s != []
    ensures Escaped(s, escapeNewline) == Written(s[0], escapeNewline) + Escaped(s[1..], escapeNewline)
  {
    hide Written;
    if |s| > 1 {
      EscapedFromTheFront(s[..|s| - 1], escapeNewline);
      assert s[..|s| - 1][1..] == s[1..][..|s| - 2];
    } else {
      assert s[1..] == [] && s[..|s| - 1] == [];
    }
  }

  lemma {:induction false} DigitRunAll(digits: string, rest: string, base: nat)
    requires forall i :: 0 <= i < |digits| ==> IsDigit(digits[i], base)
    requires rest != "" && !IsDigit(rest[0], base)
    ensures DigitRun(digits + rest, base) == |digits|
  {
    if digits == "" {
      assert digits + rest == rest;
    } else {
      assert (digits + rest)[1..] == digits[1..] + rest;
      DigitRunAll(digits[1..], rest, base);
    }
  }

  lemma DigitsBack(digits: string, base: nat, rest: string)
    requires digits != "" && (base == 10 || base == 16) && forall i :: 0 <= i < |digits| ==> IsDigit(digits[i], base)
    ensures NumberReference(digits + (";" + rest), base) ==
            if Number(digits, base) > 0x10FFFF then None else Some((CharOf(Number(digits, base)), rest))
  {
    hide Number, CharOf;
    var t := digits + (";" + rest);
    DigitRunAll(digits, ";" + rest, base);
    assert t[..|digits|] == digits && t[|digits| + 1..] == rest;
  }

  lemma DecimalBack(a: char, b: char, rest: string)
    requires IsDigit(a, 10) && IsDigit(b, 10)
    ensures Reference(['#', a, b, ';'] + rest) == Some((CharOf(10 * DigitValue(a) + DigitValue(b)), rest))
  {
    hide NumberReference, NameRun;
    var s := ['#', a, b, ';'] + rest;
    assert [a, b][..1] == [a] && [a][..0] == "";
    assert Number([a], 10) == DigitValue(a);
    assert Number([a, b], 10) == 10 * DigitValue(a) + DigitValue(b);
    DigitsBack([a, b], 10, rest);
    assert s[1..] == [a, b] + (";" + rest) && s[1] == a;
  }

  lemma HexBack(a: char, rest: string)
    requires IsDigit(a, 16)
    ensures Reference(['#', 'x', a, ';'] + rest) == Some((CharOf(DigitValue(a)), rest))
  {
    hide NumberReference, NameRun;
    var s := ['#', 'x', a, ';'] + rest;
    assert [a][..0] == "";
    assert Number([a], 16) == DigitValue(a);
    DigitsBack([a], 16, rest);
    assert s[2..] == [a] + (";" + rest) && s[1] == 'x';
  }

  lemma NameBack(name: string, rest: string)
    requires name in ENTITIES
    ensures Reference(name + ";" + rest) == Some((ENTITIES[name], rest))
  {
    var s := name + (";" + rest);
    assert s == name + ";" + rest;
    assert name == "lt" || name == "gt" || name == "amp" || name == "apos" || name == "quot";
    assert forall i :: 0 <= i < |name| ==> IsNameChar(name[i]);
    NameRunAll(name, ";" + rest);
    assert s[..|name|] == name && s[|name| + 1..] == rest;
    assert s[0] == name[0] != '#';
  }

  lemma {:induction false} NameRunAll(name: string, rest: string)
    requires forall i :: 0 <= i < |name| ==> IsNameChar(name[i])
    requires rest != "" && !IsNameChar(rest[0])
    ensures NameRun(name + rest) == |name|
  {
    if name == "" {
      assert name + rest == rest;
    } else {
      assert (name + rest)[1..] == name[1..] + rest;
      NameRunAll(name[1..], rest);
    }
  }

  /** The part of an escape after its ampersand is a reference to the character. */
  lemma EscapeRefersBack(p: Piece, escapeNewline: bool, rest: string)
    ensures match Escape(p, escapeNewline)
            case None => true
            case Some(esc) =>
              || esc == [REPLACEMENT]
              || (esc != "" && esc[0] == '&' && Reference(esc[1..] + rest) == Some((Decoded(p), rest)))
  {
    hide Reference, IsNameChar;
    match Decoded(p)
    case '"' => DecimalBack('3', '4', rest);
      assert "&#34;"[1..] == "#34;";
    case '\'' => DecimalBack('3', '9', rest);
      assert "&#39;"[1..] == "#39;";
    case '&' => NameBack("amp", rest);
      assert "&amp;"[1..] == "amp" + ";";
    case '<' => NameBack("lt", rest);
      assert "&lt;"[1..] == "lt" + ";";
    case '>' => NameBack("gt", rest);
      assert "&gt;"[1..] == "gt" + ";";
    case '\t' => HexBack('9', rest);
      assert "&#x9;"[1..] == "#x9;";
    case '\n' => HexBack('A', rest);
      assert "&#xA;"[1..] == "#xA;";
    case '\r' => HexBack('D', rest);
      assert "&#xD;"[1..] == "#xD;";
    case _ =>
  }

  /** The text of a delimiter: the tag that follows content, or the closing quote and what follows it. */
  predicate Ends(tail: string, m: Mode, rest: string) {
    match m
    case Content => tail == rest && (tail == "" || tail[0] == '<')
    case Quoted(q) => (q == '"' || q == '\'') && tail == [q] + rest
    case CData => false
  }

  /** Reading one piece of escaped text. */
  lemma ScanPiece(p: Piece, escapeNewline: bool, rest: string, m: Mode, b0: char, b1: char)
    requires !m.CData? && (m.Quoted? ==> m.quote == '"' || m.quote == '\'') && b1 != '\r'
    ensures exists c0, c1 ::
      && c1 != '\r'
      && Scan(Written(p, escapeNewline) + rest, m, b0, b1) == Before([CleanedPiece(p)], Scan(rest, m, c0, c1))
  {
    hide Reference;
    var w := Written(p, escapeNewline);
    var s := w + rest;
    EscapeRefersBack(p, escapeNewline, rest);
    if Escape(p, escapeNewline).Some? && w != [REPLACEMENT] {
      assert s[0] == '&' && s[1..] == w[1..] + rest;
      assert Scan(s, m, b0, b1) == Before([CleanedPiece(p)], Scan(rest, m, '\0', '\0'));
    } else {
      assert w == [CleanedPiece(p)];
      assert s[0] == w[0] && s[1..] == rest;
      assert Scan(s, m, b0, b1) == Before([CleanedPiece(p)], Scan(rest, m, b1, w[0]));
    }
  }

  lemma EscapedNothing(escapeNewline: bool)
    ensures Escaped([], escapeNewline) == ""
  {}

  lemma {:induction false} ScanEscaped(s: seq<Piece>, escapeNewline: bool, tail: string, rest: string, m: Mode,
                                       b0: char, b1: char)
    requires Ends(tail, m, rest) && b1 != '\r'
    ensures Scan(Escaped(s, escapeNewline) + tail, m, b0, b1) == Some((Cleaned(s), rest))
  {
    hide Escaped, Written;
    if s == [] {
      EscapedNothing(escapeNewline);
      assert Escaped(s, escapeNewline) + tail == tail;
    } else {
      EscapedFromTheFront(s, escapeNewline);
      var more := Escaped(s[1..], escapeNewline) + tail;
      assert Escaped(s, escapeNewline) + tail == Written(s[0], escapeNewline) + more;
      ScanPiece(s[0], escapeNewline, more, m, b0, b1);
      var c0, c1 :| c1 != '\r' && Scan(Written(s[0], escapeNewline) + more, m, b0, b1) ==
        Before([CleanedPiece(s[0])], Scan(more, m, c0, c1));
      ScanEscaped(s[1..], escapeNewline, tail, rest, m, c0, c1);
    }
  }

  /**
   Escaped text reads back as the text it came from, for element content up to the next
   tag and for attribute values up to the closing quote, whether or not newlines were
   escaped; what XML cannot contain has become the replacement character.
   */
  lemma EscapedReadsBack(s: seq<Piece>, escapeNewline: bool, tail: string, rest: string, m: Mode)
    requires Ends(tail, m, rest)
    ensures Text(Escaped(s, escapeNewline) + tail, m) == Some((Cleaned(s), rest))
  {
    hide Escaped, Scan;
    ScanEscaped(s, escapeNewline, tail, rest, m, '\0', '\0');
    CleanedInRange(s);
  }

  lemma {:induction false} CleanedInRange(s: seq<Piece>)
    ensures AllInRange(Cleaned(s)) && |Cleaned(s)| == |s|
    ensures (forall i :: 0 <= i < |s| ==> s[i].Rune? && InCharacterRange(s[i].c as int)) ==>
      forall i :: 0 <= i < |s| ==> Cleaned(s)[i] == s[i].c
  {
    if s != [] {
      CleanedInRange(s[1..]);
    }
  }

  /** Characters that would end the text, or that a reader would change. */
  predicate IsMarkup(c: char, escapeNewline: bool) {
    c == '"' || c == '\'' || c == '<' || c == '>' || c == '\t' || c == '\r' || (escapeNewline && c == '\n')
  }

  predicate Inert(s: string, escapeNewline: bool) {
    forall i :: 0 <= i < |s| ==> !IsMarkup(s[i], escapeNewline)
  }

  /** Escaped text has no quotes, brackets, tabs or carriage returns in it and, if that is asked for, no newlines. */
  lemma {:induction false} EscapedIsInert(s: seq<Piece>, escapeNewline: bool)
    ensures Inert(Escaped(s, escapeNewline), escapeNewline)
  {
    hide Written;
    if s != [] {
      EscapedIsInert(s[..|s| - 1], escapeNewline);
      WrittenIsInert(s[|s| - 1], escapeNewline);
    }
  }

  lemma WrittenIsInert(p: Piece, escapeNewline: bool)
    ensures Inert(Written(p, escapeNewline), escapeNewline)
  {}

  // ---------- text by any references ----------

  /** How one character of a text is written. */
  datatype Spelling = Itself | ByName | Decimal | Hex(upper: bool)

  function Alphabet(how: Spelling): (digits: string)
    ensures |digits| == if how.Hex? then 16 else 10
  {
    match how
    case Hex(true) => "0123456789ABCDEF"
    case Hex(false) => "0123456789abcdef"
    case _ => "0123456789"
  }

  /** The number in base 10 or 16, without leading zeros. */
  function Numeral(n: nat, how: Spelling): string {
    var (more, last) := if how.Hex? then (n / 16, n % 16) else (n / 10, n % 10);
    (if more == 0 then "" else Numeral(more, how)) + [Alphabet(how)[last]]
  }

  /** Markup cannot stand for itself, nor can a carriage return, which becomes a newline; five characters have names. */
  predicate CanSpell(c: char, how: Spelling) {
    match how
    case Itself => c != '"' && c != '\'' && c != '&' && c != '<' && c != '>' && c != '\r'
    case ByName => c == '"' || c == '\'' || c == '&' || c == '<' || c == '>'
    case _ => true
  }

  function Spelled(c: char, how: Spelling): string
    requires CanSpell(c, how)
  {
    match how
    case Itself => [c]
    case ByName =>
      (match c
       case '"' => "&quot;"
       case '\'' => "&apos;"
       case '&' => "&amp;"
       case '<' => "&lt;"
       case _ => "&gt;")
    case Decimal => "&#" + Numeral(c as nat, how) + ";"
    case Hex(_) => "&#x" + Numeral(c as nat, how) + ";"
  }

  predicate CanSpellAll(s: string, hows: seq<Spelling>) {
    |s| == |hows| && forall i :: 0 <= i < |s| ==> CanSpell(s[i], hows[i])
  }

  function SpelledText(s: string, hows: seq<Spelling>): string
    requires CanSpellAll(s, hows)
  {
    if s == "" then "" else Spelled(s[0], hows[0]) + SpelledText(s[1..], hows[1..])
  }

  lemma AlphabetDigits(how: Spelling, d: nat)
    requires d < |Alphabet(how)|
    ensures IsDigit(Alphabet(how)[d], |Alphabet(how)|) && IsDigit(Alphabet(how)[d], 16)
    ensures DigitValue(Alphabet(how)[d]) == d
  {}

  function Base(how: Spelling): nat {
    if how.Hex? then 16 else 10
  }

  lemma NumeralStep(n: nat, how: Spelling) returns (more: nat, last: nat)
    ensures last < Base(how) == |Alphabet(how)| && more * Base(how) + last == n && (more != 0 ==> more < n)
    ensures Numeral(n, how) == (if more == 0 then "" else Numeral(more, how)) + [Alphabet(how)[last]]
  {
    more, last := if how.Hex? then n / 16 else n / 10, if how.Hex? then n % 16 else n % 10;
  }

  predicate AllDigits(digits: string, base: nat) {
    forall i :: 0 <= i < |digits| ==> IsDigit(digits[i], base)
  }

  lemma {:induction false} NumeralRead(n: nat, how: Spelling)
    ensures Numeral(n, how) != "" && AllDigits(Numeral(n, how), Base(how)) && Number(Numeral(n, how), Base(how)) == n
    decreases n
  {
    hide Alphabet, IsDigit, DigitValue, Numeral, Base, Number;
    var more, last := NumeralStep(n, how);
    AlphabetDigits(how, last);
    NumberNothing(Base(how));
    if more != 0 {
      NumeralRead(more, how);
    }
    NumberSnoc(if more == 0 then "" else Numeral(more, how), Alphabet(how)[last], Base(how));
  }

  lemma NumberNothing(base: nat)
    ensures Number("", base) == 0
  {}

  lemma NumberSnoc(digits: string, d: char, base: nat)
    requires IsDigit(d, base) && IsDigit(d, 16) && AllDigits(digits, base)
    ensures AllDigits(digits + [d], base)
    ensures Number(digits + [d], base) == Number(digits, base) * base + DigitValue(d)
  {
    hide IsDigit, DigitValue;
    assert (digits + [d])[..|digits|] == digits;
  }

  /** A reference by number is the character with that number, if there is one. */
  lemma NumberedReference(n: nat, how: Spelling, rest: string)
    requires how.Decimal? || how.Hex?
    ensures Reference((if how.Hex? then "#x" else "#") + Numeral(n, how) + ";" + rest) ==
            if n > 0x10FFFF then None
            else Some((if 0xD800 <= n <= 0xDFFF then '\U{FFFD}' else n as char, rest))
  {
    hide NumberReference, NameRun, IsDigit, Numeral;
    var (digits, base) := (Numeral(n, how), Base(how));
    var s := (if how.Hex? then "#x" else "#") + digits + ";" + rest;
    NumeralRead(n, how);
    DigitsBack(digits, base, rest);
    DigitIsNoX(digits[0]);
    assert s == (if how.Hex? then "#x" else "#") + (digits + (";" + rest));
    if how.Hex? {
      assert s[1] == 'x' && s[2..] == digits + (";" + rest);
    } else {
      assert s[1] == digits[0] && s[1..] == digits + (";" + rest);
    }
  }

  lemma DigitIsNoX(c: char)
    ensures IsDigit(c, 10) || IsDigit(c, 16) ==> c != 'x'
  {}

  function NameOf(c: char): string {
    match c
    case '"' => "quot"
    case '\'' => "apos"
    case '&' => "amp"
    case '<' => "lt"
    case _ => "gt"
  }

  lemma NamedIs(c: char)
    requires CanSpell(c, ByName)
    ensures Spelled(c, ByName) == "&" + NameOf(c) + ";"
    ensures NameOf(c) in ENTITIES && ENTITIES[NameOf(c)] == c
  {}

  /** What follows the ampersand of a written character refers to it. */
  lemma SpelledRefers(c: char, how: Spelling, rest: string)
    requires CanSpell(c, how) && !how.Itself?
    ensures var w := Spelled(c, how); w != "" && w[0] == '&' && Reference(w[1..] + rest) == Some((c, rest))
  {
    hide Reference, Numeral, IsNameChar, NameOf, ENTITIES;
    if how.ByName? {
      NamedIs(c);
      NameBack(NameOf(c), rest);
      AfterAmpersand(NameOf(c), rest);
    } else {
      NumberedReference(c as nat, how, rest);
      AfterAmpersand((if how.Hex? then "#x" else "#") + Numeral(c as nat, how), rest);
      assert Spelled(c, how) == "&" + ((if how.Hex? then "#x" else "#") + Numeral(c as nat, how)) + ";";
    }
  }

  lemma AfterAmpersand(name: string, rest: string)
    ensures var w := "&" + name + ";"; w[0] == '&' && w[1..] + rest == name + ";" + rest
  {}

  /** There are no other names. */
  lemma OtherNames(name: string, rest: string)
    requires name != "" && forall i :: 0 <= i < |name| ==> IsNameChar(name[i])
    ensures Reference(name + ";" + rest).Some? <==>
      name == "quot" || name == "apos" || name == "amp" || name == "lt" || name == "gt"
  {
    hide IsNameChar, NumberReference;
    var s := name + (";" + rest);
    assert s == name + ";" + rest;
    NoNameChars();
    NameRunAll(name, ";" + rest);
    assert s[..|name|] == name && s[|name|] == ';' && s[0] == name[0];
  }

  lemma NoNameChars()
    ensures !IsNameChar(';') && !IsNameChar('#')
  {}

  lemma ScanOneSpelled(c: char, how: Spelling, rest: string, m: Mode, b0: char, b1: char)
    requires CanSpell(c, how) && !m.CData? && (m.Quoted? ==> m.quote == '"' || m.quote == '\'') && b1 != '\r'
    ensures exists c0, c1 ::
      c1 != '\r' && Scan(Spelled(c, how) + rest, m, b0, b1) == Before([c], Scan(rest, m, c0, c1))
  {
    hide Reference, Numeral, Before;
    var w := Spelled(c, how);
    var s := w + rest;
    if how.Itself? {
      assert s[0] == c && s[1..] == rest;
      assert Scan(s, m, b0, b1) == Before([c], Scan(rest, m, b1, c));
    } else {
      SpelledRefers(c, how, rest);
      assert s[0] == '&' && s[1..] == w[1..] + rest;
      assert Scan(s, m, b0, b1) == Before([c], Scan(rest, m, '\0', '\0'));
    }
  }

  lemma {:induction false} ScanSpelled(s: string, hows: seq<Spelling>, tail: string, rest: string, m: Mode, b0: char,
                                       b1: char)
    requires CanSpellAll(s, hows) && Ends(tail, m, rest) && b1 != '\r'
    ensures Scan(SpelledText(s, hows) + tail, m, b0, b1) == Some((s, rest))
  {
    hide Spelled, CanSpell, Reference, Plain;
    if s == "" {
      assert SpelledText(s, hows) + tail == tail;
    } else {
      var more := SpelledText(s[1..], hows[1..]) + tail;
      assert SpelledText(s, hows) + tail == Spelled(s[0], hows[0]) + more;
      ScanOneSpelled(s[0], hows[0], more, m, b0, b1);
      var c0, c1 :| c1 != '\r' &&
        Scan(Spelled(s[0], hows[0]) + more, m, b0, b1) == Before([s[0]], Scan(more, m, c0, c1));
      ScanSpelled(s[1..], hows[1..], tail, rest, m, c0, c1);
      assert [s[0]] + s[1..] == s;
    }
  }

  /**
   However the characters of a text are written, by themselves, by the five standard names or
   by number in base 10 or 16 and in either case, the text reads back; it is refused exactly if
   it has a character that XML cannot contain.
   */
  lemma SpelledReadsBack(s: string, hows: seq<Spelling>, tail: string, rest: string, m: Mode)
    requires CanSpellAll(s, hows) && Ends(tail, m, rest)
    ensures Text(SpelledText(s, hows) + tail, m) == if AllInRange(s) then Some((s, rest)) else None
  {
    hide SpelledText, Scan;
    ScanSpelled(s, hows, tail, rest, m, '\0', '\0');
  }

  // ---------- unescaped text ----------

  /** Line ends as an application must see them: CR LF and CR alone are both LF (section 2.11). */
  function LineEnds(s: string): string
    decreases |s|
  {
    if s == "" then ""
    else if s[0] != '\r' then [s[0]] + LineEnds(s[1..])
    else if |s| > 1 && s[1] == '\n' then "\n" + LineEnds(s[2..])
    else "\n" + LineEnds(s[1..])
  }

  /** The end of a CDATA section begins at `k`. */
  predicate CloserAt(s: string, k: int) {
    0 <= k <= |s| - 3 && s[k] == ']' && s[k + 1] == ']' && s[k + 2] == '>'
  }

  ghost predicate HasCloser(s: string) {
    exists k :: CloserAt(s, k)
  }

  /** The same, as the loop computes it: one character at a time. */
  function LineEndsAfter(before: char, s: string): string
    decreases |s|
  {
    if s == "" then "" else Plain(before, s[0]) + LineEndsAfter(s[0], s[1..])
  }

  lemma {:induction false} LineEndsOneByOne(before: char, s: string)
    ensures LineEndsAfter(before, s) == if before == '\r' && s != "" && s[0] == '\n' then LineEnds(s[1..])
      else LineEnds(s)
    decreases |s|
  {
    if s != "" {
      LineEndsOneByOne(s[0], s[1..]);
      assert "" + LineEndsAfter(s[0], s[1..]) == LineEndsAfter(s[0], s[1..]);
      if |s| > 1 {
        assert s[1..][1..] == s[2..];
      }
    }
  }

  /** Nothing in `s` ends it or refers to a character. */
  predicate Ordinary(s: string, m: Mode) {
    '<' !in s && '&' !in s && (m.Quoted? ==> m.quote !in s)
  }

  lemma CloserShift(b0: char, s: string, k: int)
    ensures CloserAt([b0] + s, k + 1) <==> (k >= 0 && CloserAt(s, k)) || (k == -1 && CloserAt([b0] + s, 0))
  {
    if 0 <= k <= |s| - 3 {
      assert ([b0] + s)[k + 1] == s[k] && ([b0] + s)[k + 2] == s[k + 1] && ([b0] + s)[k + 3] == s[k + 2];
    }
  }

  lemma {:induction false} ScanOrdinary(s: string, m: Mode, b0: char, b1: char)
    requires !m.CData? && Ordinary(s, m)
    ensures Scan(s, m, b0, b1) == if HasCloser([b0, b1] + s) then None else Some((LineEndsAfter(b1, s), ""))
  {
    var t := [b0, b1] + s;
    if s != "" {
      if b0 == ']' && b1 == ']' && s[0] == '>' {
        assert CloserAt(t, 0);
      } else {
        ScanOrdinary(s[1..], m, b1, s[0]);
        var t' := [b1, s[0]] + s[1..];
        assert t == [b0] + t';
        forall k
          ensures CloserAt(t, k + 1) <==> CloserAt(t', k)
        {
          CloserShift(b0, t', k);
        }
        if k :| CloserAt(t', k) {
          assert CloserAt(t, k + 1);
        }
        if k :| CloserAt(t, k) {
          assert CloserAt(t', k - 1);
        }
      }
    }
  }

  /**
   Text with no markup in it is read with its line ends normalised, and is rejected
   exactly when it contains the end of a CDATA section or a character XML cannot contain.
   */
  lemma PlainTextRead(s: string, m: Mode)
    requires !m.CData? && Ordinary(s, m)
    ensures Text(s, m) == if HasCloser(s) || !AllInRange(LineEnds(s)) then None else Some((LineEnds(s), ""))
  {
    ScanOrdinary(s, m, '\0', '\0');
    LineEndsOneByOne('\0', s);
    NoCloserAdded(s);
  }

  lemma CloserStays(b0: char, s: string)
    ensures HasCloser(s) ==> HasCloser([b0] + s)
  {
    if k :| CloserAt(s, k) {
      CloserShift(b0, s, k);
      assert CloserAt([b0] + s, k + 1);
    }
  }

  lemma CloserAfterNulls(s: string, k: int)
    ensures CloserAt(['\0', '\0'] + s, k) <==> CloserAt(s, k - 2)
  {
    CloserShift('\0', s, k - 2);
    CloserShift('\0', ['\0'] + s, k - 1);
    assert ['\0'] + (['\0'] + s) == ['\0', '\0'] + s;
  }

  lemma NoCloserAdded(s: string)
    ensures HasCloser(['\0', '\0'] + s) <==> HasCloser(s)
  {
    var t := ['\0', '\0'] + s;
    if k :| CloserAt(t, k) {
      CloserAfterNulls(s, k);
    }
    if k :| CloserAt(s, k) {
      CloserAfterNulls(s, k + 2);
      assert CloserAt(t, k + 2);
    }
  }

  // ---------- CDATA sections ----------

  /** The scan stops at the first end marker; the two brackets before it have been kept. */
  lemma {:induction false} ScanCData(s: string, b0: char, b1: char, k: int)
    requires CloserAt([b0, b1] + s, k) && forall j :: 0 <= j < k ==> !CloserAt([b0, b1] + s, j)
    ensures Scan(s, CData, b0, b1) == Some((LineEndsAfter(b1, s[..k]), s[k + 1..]))
    decreases |s|
  {
    var t := [b0, b1] + s;
    if k == 0 {
      assert s[..0] == "" && t[2] == s[0];
    } else {
      var t' := [b1, s[0]] + s[1..];
      assert t == [b0] + t';
      forall j
        ensures CloserAt(t, j + 1) <==> CloserAt(t', j) || (j == -1 && CloserAt(t, 0))
      {
        CloserShift(b0, t', j);
      }
      assert CloserAt(t', k - 1);
      assert forall j :: 0 <= j < k - 1 ==> !CloserAt(t', j) by {
        forall j | 0 <= j < k - 1
          ensures !CloserAt(t', j)
        {
          assert !CloserAt(t, j + 1);
        }
      }
      ScanCData(s[1..], b1, s[0], k - 1);
      assert !CloserAt(t, 0);
      assert s[..k][1..] == s[1..][..k - 1] && s[1..][k..] == s[k + 1..];
    }
  }

  lemma {:induction false} ScanOpenCData(s: string, b0: char, b1: char)
    requires !HasCloser([b0, b1] + s)
    ensures Scan(s, CData, b0, b1) == None
    decreases |s|
  {
    var t := [b0, b1] + s;
    if s != "" {
      var t' := [b1, s[0]] + s[1..];
      assert t == [b0] + t';
      CloserStays(b0, t');
      ScanOpenCData(s[1..], b1, s[0]);
      assert !CloserAt(t, 0);
    }
  }

  lemma {:induction false} LineEndsThenBrackets(before: char, s: string)
    ensures LineEndsAfter(before, s + "]]") == LineEndsAfter(before, s) + "]]"
    decreases |s|
  {
    if s == "" {
      assert s + "]]" == "]]" && "]]"[1..] == "]" && "]"[1..] == "";
    } else {
      assert (s + "]]")[1..] == s[1..] + "]]";
      LineEndsThenBrackets(s[0], s[1..]);
    }
  }

  /** A CDATA section is everything up to its first end marker, with line ends normalised. */
  lemma CDataRead(s: string, k: int)
    requires CloserAt(s, k) && forall j :: 0 <= j < k ==> !CloserAt(s, j)
    ensures Text(s, CData) == if AllInRange(LineEnds(s[..k])) then Some((LineEnds(s[..k]), s[k + 3..])) else None
  {
    hide Scan;
    var t := ['\0', '\0'] + s;
    forall j
      ensures CloserAt(t, j) <==> CloserAt(s, j - 2)
    {
      CloserAfterNulls(s, j);
    }
    assert CloserAt(t, k + 2);
    ScanCData(s, '\0', '\0', k + 2);
    assert s[..k + 2] == s[..k] + "]]";
    LineEndsThenBrackets('\0', s[..k]);
    LineEndsOneByOne('\0', s[..k]);
    assert (LineEnds(s[..k]) + "]]")[..|LineEnds(s[..k])|] == LineEnds(s[..k]);
  }

  /** Without an end marker there is no CDATA section. */
  lemma CDataOpen(s: string)
    ensures Text(s, CData).Some? ==> HasCloser(s)
  {
    NoCloserAdded(s);
    if !HasCloser(s) {
      ScanOpenCData(s, '\0', '\0');
    }
  }
}
