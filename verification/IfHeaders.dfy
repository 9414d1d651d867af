/**
 The If header of RFC 4918, section 10.4: from characters to tokens, from tokens to lists
 of conditions.  The parser works on the remaining string; it is shown to accept exactly
 the strings whose tokens form a sentence of the grammar.
 */
module IfHeaders {
  import opened Strings
  import opened Wrappers
  import LockSpec

  type Condition = LockSpec.Condition

  datatype IfList = IfList(resourceTag: string, conditions: seq<Condition>)

  /** Unterminated brackets are an error; a single character stands for itself. */
  datatype Token = ErrToken | EofToken | Str(text: string) | Not | Angle(text: string) | Square(text: string)
      | Single(c: char)

  // ---------- tokens ----------

  predicate IsBlank(c: char) {
    c == '\t' || c == ' '
  }

  predicate IsSpecial(c: char) {
    c == '\t' || c == ' ' || c == '(' || c == ')' || c == '<' || c == '>' || c == '[' || c == ']'
  }

  function SkipBlanks(s: string): (r: string)
    ensures |r| <= |s| && (r != "" ==> !IsBlank(r[0]))
    ensures s == s[..|s| - |r|] + r
  {
    if s != "" && IsBlank(s[0]) then SkipBlanks(s[1..]) else s
  }

  function WordLength(s: string): (n: nat)
    ensures n <= |s| && (n < |s| ==> IsSpecial(s[n])) && forall i :: 0 <= i < n ==> !IsSpecial(s[i])
  {
    if s == "" || IsSpecial(s[0]) then 0 else 1 + WordLength(s[1..])
  }

  lemma SuffixOfSuffix(s0: string, s: string, n: nat)
    requires n <= |s| <= |s0| && s0 == s0[..|s0| - |s|] + s
    ensures s[|s| - n..] == s0[|s0| - n..]
  {}

  /** The first token and what remains. */
  function First(s0: string): (r: (Token, string))
    ensures |r.1| <= |s0| && (r.0 != EofToken ==> |r.1| < |s0|) && (r.0 == EofToken ==> r.1 == "")
    ensures r.1 == s0[|s0| - |r.1|..]
  {
    var s := SkipBlanks(s0);
    var r := Scan(s);
    SuffixOfSuffix(s0, s, |r.1|);
    r
  }

  function Scan(s: string): (r: (Token, string))
    requires s != "" ==> !IsBlank(s[0])
    ensures |r.1| <= |s| && (r.0 == EofToken <==> s == "") && (s != "" ==> |r.1| < |s|)
    ensures r.1 == s[|s| - |r.1|..]
  {
    if s == "" then (EofToken, "")
    else
      var i := WordLength(s);
      if i != 0 then (if s[..i] == "Not" then Not else Str(s[..i]), s[i..])
      else if s[0] == '<' then Bracketed(s, IndexOf(s, '>'), true)
      else if s[0] == '[' then Bracketed(s, IndexOf(s, ']'), false)
      else (Single(s[0]), s[1..])
  }

  function Bracketed(s: string, j: int, angle: bool): (Token, string)
    requires s != "" && j < |s| && j != 0
  {
    if j < 0 then (ErrToken, "") else (if angle then Angle(s[1..j]) else Square(s[1..j]), s[j + 1..])
  }

  function Tokens(s: string): seq<Token>
    decreases |s|
  {
    var (t, rest) := First(s);
    if t == EofToken then [] else [t] + Tokens(rest)
  }

  method SkipLeading(s0: string) returns (s: string)
    ensures s == SkipBlanks(s0)
  {
    s := s0;
    while |s| > 0 && (s[0] == '\t' || s[0] == ' ')
      invariant SkipBlanks(s) == SkipBlanks(s0)
    {
      s := s[1..];
    }
  }

  method ScanWord(s: string) returns (i: nat)
    ensures i == WordLength(s)
  {
    i := 0;
    while i < |s|
      invariant 0 <= i <= |s| && WordLength(s) == i + WordLength(s[i..])
    {
      if IsSpecial(s[i]) {
        break;
      }
      assert s[i..][1..] == s[i + 1..];
      i := i + 1;
    }
  }

  method Lex(s0: string) returns (token: Token, remaining: string)
    ensures (token, remaining) == First(s0)
  {
    hide SkipBlanks, WordLength, IndexOf, IsSpecial;
    var s := SkipLeading(s0);
    if |s| == 0 {
      return EofToken, "";
    }
    var i := ScanWord(s);
    if i != 0 {
      var tokenStr := s[..i];
      if tokenStr == "Not" {
        return Not, s[i..];
      }
      return Str(tokenStr), s[i..];
    }
    if s[0] == '<' {
      var j := IndexOf(s, '>');
      if j < 0 {
        return ErrToken, "";
      }
      return Angle(s[1..j]), s[j + 1..];
    }
    if s[0] == '[' {
      var j := IndexOf(s, ']');
      if j < 0 {
        return ErrToken, "";
      }
      return Square(s[1..j]), s[j + 1..];
    }
    return Single(s[0]), s[1..];
  }

  // ---------- the grammar ----------

  /** A condition as written: a state token, plain or in angle brackets, or an ETag in square ones. */
  datatype Cond = Cond(negated: bool, word: Token)

  /** A resource tag, or a parenthesised list. */
  datatype Item = Tag(url: string) | Group(conds: seq<Cond>)

  predicate IsWord(t: Token) {
    t.Str? || t.Angle? || t.Square?
  }

  function CondTokens(c: Cond): seq<Token> {
    (if c.negated then [Not] else []) + [c.word]
  }

  function CondsTokens(cs: seq<Cond>): seq<Token> {
    if cs == [] then [] else CondTokens(cs[0]) + CondsTokens(cs[1..])
  }

  function ItemTokens(i: Item): seq<Token> {
    match i
    case Tag(url) => [Angle(url)]
    case Group(cs) => [Single('(')] + CondsTokens(cs) + [Single(')')]
  }

  function Sentence(items: seq<Item>): seq<Token> {
    if items == [] then [] else ItemTokens(items[0]) + Sentence(items[1..])
  }

  predicate Words(items: seq<Item>) {
    forall i :: 0 <= i < |items| ==> ItemWords(items[i])
  }

  /** Lists that are not empty. */
  predicate AllGroups(items: seq<Item>) {
    items == [] || (items[0].Group? && items[0].conds != [] && AllGroups(items[1..]))
  }

  /** Every tag is followed by a list; `pending` says that a tag has just been read. */
  predicate TaggedGroups(items: seq<Item>, pending: bool) {
    if items == [] then !pending
    else match items[0]
      case Tag(_) => !pending && TaggedGroups(items[1..], true)
      case Group(cs) => cs != [] && TaggedGroups(items[1..], false)
  }

  /** Not empty, and either all lists are untagged or they begin with a tag. */
  predicate WellFormed(items: seq<Item>) {
    items != [] && if items[0].Tag? then TaggedGroups(items, false) else AllGroups(items)
  }

  function MeaningOf(c: Cond): Condition {
    match c.word
    case Str(t) => LockSpec.Condition(c.negated, t, "")
    case Angle(t) => LockSpec.Condition(c.negated, t, "")
    case Square(t) => LockSpec.Condition(c.negated, "", t)
    case _ => LockSpec.Condition(c.negated, "", "")
  }

  function Meanings(cs: seq<Cond>): seq<Condition> {
    if cs == [] then [] else [MeaningOf(cs[0])] + Meanings(cs[1..])
  }

  /** Each list with the tag that precedes it. */
  function Lists(items: seq<Item>, tag: string): seq<IfList> {
    if items == [] then []
    else match items[0]
      case Tag(url) => Lists(items[1..], url)
      case Group(cs) => [IfList(tag, Meanings(cs))] + Lists(items[1..], tag)
  }

  // ---------- reading a sentence ----------

  function ReadCond(toks: seq<Token>): (r: Option<(Cond, seq<Token>)>)
    ensures r.Some? ==> |r.value.1| < |toks| && IsWord(r.value.0.word) && toks == CondTokens(r.value.0) + r.value.1
  {
    var negated := toks != [] && toks[0] == Not;
    var rest := if negated then toks[1..] else toks;
    if rest != [] && IsWord(rest[0]) then Some((Cond(negated, rest[0]), rest[1..])) else None
  }

  function ReadConds(toks: seq<Token>): (r: Option<(seq<Cond>, seq<Token>)>)
    ensures r.Some? ==> |r.value.1| < |toks|
    decreases |toks|
  {
    if toks != [] && toks[0] == Single(')') then Some(([], toks[1..]))
    else
      match ReadCond(toks)
      case None => None
      case Some((c, rest)) =>
        match ReadConds(rest)
        case None => None
        case Some((cs, rest')) => Some(([c] + cs, rest'))
  }

  function ReadItem(toks: seq<Token>): (r: Option<(Item, seq<Token>)>)
    ensures r.Some? ==> |r.value.1| < |toks|
  {
    if toks == [] then None
    else match toks[0]
      case Angle(url) => Some((Tag(url), toks[1..]))
      case Single(c) =>
        if c != '(' then None
        else (match ReadConds(toks[1..])
              case None => None
              case Some((cs, rest)) => Some((Group(cs), rest)))
      case _ => None
  }

  function ReadItems(toks: seq<Token>): Option<seq<Item>>
    decreases |toks|
  {
    if toks == [] then Some([])
    else match ReadItem(toks)
      case None => None
      case Some((i, rest)) =>
        match ReadItems(rest)
        case None => None
        case Some(items) => Some([i] + items)
  }

  lemma {:induction false} ReadCondsSound(toks: seq<Token>)
    ensures ReadConds(toks).Some? ==>
      && toks == CondsTokens(ReadConds(toks).value.0) + [Single(')')] + ReadConds(toks).value.1
      && forall k :: 0 <= k < |ReadConds(toks).value.0| ==> IsWord(ReadConds(toks).value.0[k].word)
    decreases |toks|
  {
    hide CondTokens, IsWord;
    if toks != [] && toks[0] == Single(')') {
      assert toks == [] + [Single(')')] + toks[1..];
    } else if ReadConds(toks).Some? {
      var (c, rest) := ReadCond(toks).value;
      ReadCondsSound(rest);
      var (cs, rest') := ReadConds(rest).value;
      CondsStep(c, cs);
      Regroup(CondTokens(c), CondsTokens(cs), [Single(')')], rest');
    }
  }

  lemma CondsStep(c: Cond, cs: seq<Cond>)
    ensures CondsTokens([c] + cs) == CondTokens(c) + CondsTokens(cs)
  {
    hide CondTokens;
    assert ([c] + cs)[1..] == cs;
  }

  lemma Regroup<T>(a: seq<T>, b: seq<T>, c: seq<T>, d: seq<T>)
    ensures a + (b + c + d) == a + b + c + d
  {}

  lemma {:induction false} ReadCondsComplete(cs: seq<Cond>, rest: seq<Token>)
    requires forall k :: 0 <= k < |cs| ==> IsWord(cs[k].word)
    ensures ReadConds(CondsTokens(cs) + [Single(')')] + rest) == Some((cs, rest))
  {
    var toks := CondsTokens(cs) + [Single(')')] + rest;
    if cs == [] {
      assert toks == [Single(')')] + rest;
    } else {
      var toks' := CondsTokens(cs[1..]) + [Single(')')] + rest;
      assert toks == CondTokens(cs[0]) + toks';
      assert IsWord(cs[0].word) && (cs[0].negated ==> toks[0] == Not && toks[1..] == [cs[0].word] + toks');
      assert !cs[0].negated ==> toks == [cs[0].word] + toks';
      assert ReadCond(toks) == Some((cs[0], toks'));
      ReadCondsComplete(cs[1..], rest);
      assert [cs[0]] + cs[1..] == cs;
    }
  }

  /** What is read is a sentence made of the tokens given. */
  lemma ReadItemSound(toks: seq<Token>)
    requires ReadItem(toks).Some?
    ensures var (i, rest) := ReadItem(toks).value; toks == ItemTokens(i) + rest && ItemWords(i)
  {
    hide ReadConds, CondsTokens, IsWord;
    var (i, rest) := ReadItem(toks).value;
    assert toks == [toks[0]] + toks[1..];
    if i.Group? {
      ReadCondsSound(toks[1..]);
    }
  }

  lemma {:induction false} ReadItemsSound(toks: seq<Token>)
    ensures ReadItems(toks).Some? ==> toks == Sentence(ReadItems(toks).value) && Words(ReadItems(toks).value)
    decreases |toks|
  {
    hide ReadItem, ItemTokens, ItemWords;
    if toks != [] && ReadItems(toks).Some? {
      var (i, rest) := ReadItem(toks).value;
      ReadItemSound(toks);
      ReadItemsSound(rest);
      assert ([i] + ReadItems(rest).value)[1..] == ReadItems(rest).value;
    }
  }

  predicate ItemWords(i: Item) {
    i.Group? ==> forall k :: 0 <= k < |i.conds| ==> IsWord(i.conds[k].word)
  }

  lemma ReadItemComplete(i: Item, rest: seq<Token>)
    requires ItemWords(i)
    ensures ReadItem(ItemTokens(i) + rest) == Some((i, rest))
  {
    hide ReadConds, CondsTokens, IsWord;
    var toks := ItemTokens(i) + rest;
    match i {
      case Tag(url) => assert toks[1..] == rest;
      case Group(cs) =>
        ReadCondsComplete(cs, rest);
        assert toks[1..] == CondsTokens(cs) + [Single(')')] + rest;
    }
  }

  /** Every sentence is read as what it is made of; so no two are written alike. */
  lemma {:induction false} ReadItemsComplete(items: seq<Item>)
    requires Words(items)
    ensures ReadItems(Sentence(items)) == Some(items)
  {
    hide ReadItem, ItemTokens, IsWord;
    if items != [] {
      assert ItemWords(items[0]);
      ReadItemComplete(items[0], Sentence(items[1..]));
      SentenceNotEmpty(items);
      forall i | 0 <= i < |items[1..]|
        ensures ItemWords(items[1..][i])
      {
        assert ItemWords(items[i + 1]) && items[1..][i] == items[i + 1];
      }
      ReadItemsComplete(items[1..]);
      assert [items[0]] + items[1..] == items;
    }
  }

  lemma SentenceNotEmpty(items: seq<Item>)
    requires items != []
    ensures Sentence(items) != []
  {}

  // ---------- the parser ----------

  /** White space of any kind, as trimmed from both ends of the header. */
  predicate IsSpace(c: char) {
    || '\t' <= c <= '\r' || c == ' ' || c == '\U{85}' || c == '\U{A0}' || c == '\U{1680}' ||
      '\U{2000}' <= c <= '\U{200A}'
    || c == '\U{2028}' || c == '\U{2029}' || c == '\U{202F}' || c == '\U{205F}' || c == '\U{3000}'
  }

  function TrimSpace(s: string): string {
    if s != "" && IsSpace(s[0]) then TrimSpace(s[1..])
    else if s != "" && IsSpace(s[|s| - 1]) then TrimSpace(s[..|s| - 1])
    else s
  }

  predicate Trimmed(s: string) {
    s != "" ==> !IsBlank(s[|s| - 1])
  }

  lemma {:induction false} TrimSpaceTrims(s: string)
    ensures Trimmed(TrimSpace(s))
    decreases |s|
  {
    if s != "" && IsSpace(s[0]) {
      TrimSpaceTrims(s[1..]);
    } else if s != "" && IsSpace(s[|s| - 1]) {
      TrimSpaceTrims(s[..|s| - 1]);
    }
  }

  lemma {:induction false} BlanksOnly(s: string)
    ensures SkipBlanks(s) == "" && s != "" ==> IsBlank(s[|s| - 1])
  {
    if s != "" && IsBlank(s[0]) {
      BlanksOnly(s[1..]);
    }
  }

  /** With the blanks at the end gone, only the empty string has no tokens left. */
  lemma TrimmedTokens(s: string)
    requires Trimmed(s)
    ensures Trimmed(First(s).1)
    ensures Tokens(s) == [] <==> s == ""
    ensures First(s).0 == EofToken <==> s == ""
  {
    hide WordLength, IndexOf;
    BlanksOnly(s);
    var r := First(s).1;
    assert r == s[|s| - |r|..];
  }

  method ParseCondition(s: string) returns (ok: bool, c: Condition, remaining: string)
    ensures match ReadCond(Tokens(s))
            case None => !ok
            case Some((cond, rest)) => ok && c == MeaningOf(cond) && Tokens(remaining) == rest
    ensures ok ==> |remaining| < |s| && (Trimmed(s) ==> Trimmed(remaining))
  {
    hide First, Trimmed;
    c := LockSpec.Condition(false, "", "");
    var token;
    FirstShortens(s);
    TokensOf(s);
    token, remaining := Lex(s);
    if token == Not {
      c := c.(negated := true);
      FirstShortens(remaining);
      TokensOf(remaining);
      token, remaining := Lex(remaining);
    }
    match token
    case Str(t) => return true, c.(token := t), remaining;
    case Angle(t) => return true, c.(token := t), remaining;
    case Square(t) => return true, c.(etag := t), remaining;
    case _ => return false, LockSpec.Condition(false, "", ""), "";
  }

  lemma FirstShortens(s: string)
    ensures |First(s).1| <= |s| && (First(s).0 != EofToken ==> |First(s).1| < |s|)
    ensures Trimmed(s) ==> Trimmed(First(s).1)
  {
    if Trimmed(s) {
      TrimmedTokens(s);
    }
  }

  /** What the inside of a list means, up to its closing parenthesis. */
  function Inside(toks: seq<Token>): Option<(seq<Condition>, seq<Token>)> {
    match ReadConds(toks)
    case None => None
    case Some((cs, rest)) => Some((Meanings(cs), rest))
  }

  function After(conditions: seq<Condition>, r: Option<(seq<Condition>, seq<Token>)>)
    : Option<(seq<Condition>, seq<Token>)>
  {
    match r
    case None => None
    case Some((cs, rest)) => Some((conditions + cs, rest))
  }

  lemma InsideStep(toks: seq<Token>, before: seq<Condition>)
    requires toks == [] || toks[0] != Single(')')
    ensures match ReadCond(toks)
            case None => Inside(toks) == None
            case Some((c, rest)) => After(before, Inside(toks)) == After(before + [MeaningOf(c)], Inside(rest))
  {
    match ReadCond(toks)
    case None =>
    case Some((c, rest)) =>
      match ReadConds(rest) {
        case None =>
        case Some((cs, _)) =>
          assert ([c] + cs)[1..] == cs;
          assert before + ([MeaningOf(c)] + Meanings(cs)) == before + [MeaningOf(c)] + Meanings(cs);
      }
  }

  method ParseList(s0: string) returns (ok: bool, l: IfList, remaining: string)
    ensures var toks := Tokens(s0);
            if toks == [] || toks[0] != Single('(') then !ok
            else match Inside(toks[1..])
              case None => !ok
              case Some((cs, rest)) => (ok <==> cs != []) && (ok ==> l == IfList("", cs) && Tokens(remaining) == rest)
    ensures ok ==> |remaining| < |s0| && (Trimmed(s0) ==> Trimmed(remaining))
  {
    hide First, Trimmed, ReadCond, ReadConds, MeaningOf, Meanings;
    l := IfList("", []);
    FirstShortens(s0);
    var token, s := Lex(s0);
    if token != Single('(') {
      return false, l, "";
    }

    ghost var inside := Tokens(s);
    AfterNothing(inside);
    while true
      invariant |s| < |s0| && (Trimmed(s0) ==> Trimmed(s))
      invariant Inside(inside) == After(l.conditions, Inside(Tokens(s))) && l.resourceTag == ""
      decreases |s|
    {
      FirstShortens(s);
      token, remaining := Lex(s);
      if token == Single(')') {
        InsideClosed(Tokens(s));
        if |l.conditions| == 0 {
          return false, l, "";
        }
        return true, l, remaining;
      }
      InsideStep(Tokens(s), l.conditions);
      var c, rest;
      ok, c, rest := ParseCondition(s);
      if !ok {
        return false, l, "";
      }
      l := l.(conditions := l.conditions + [c]);
      s := rest;
    }
  }

  lemma AfterNothing(toks: seq<Token>)
    ensures Inside(toks) == After([], Inside(toks))
  {
    match Inside(toks)
    case None =>
    case Some((cs, _)) => assert [] + cs == cs;
  }

  lemma InsideClosed(toks: seq<Token>)
    requires toks != [] && toks[0] == Single(')')
    ensures Inside(toks) == Some(([], toks[1..]))
  {}

  /** What the rest of a header means, in the middle of its untagged or tagged lists. */
  function Outcome(toks: seq<Token>, tagged: bool, tag: string, pending: bool): Option<seq<IfList>> {
    match ReadItems(toks)
    case None => None
    case Some(items) =>
      if (if tagged then TaggedGroups(items, pending) else AllGroups(items)) then Some(Lists(items, tag)) else None
  }

  function Following(lists: seq<IfList>, r: Option<seq<IfList>>): Option<seq<IfList>> {
    match r
    case None => None
    case Some(more) => Some(lists + more)
  }

  lemma FollowingNothing(r: Option<seq<IfList>>)
    ensures r == Following([], r)
  {
    match r
    case None =>
    case Some(ls) => assert [] + ls == ls;
  }

  lemma FollowingTwice(a: seq<IfList>, b: seq<IfList>, r: Option<seq<IfList>>)
    ensures Following(a, Following(b, r)) == Following(a + b, r)
  {
    match r
    case None =>
    case Some(ls) => assert a + (b + ls) == a + b + ls;
  }

  /** A list comes next. */
  lemma OutcomeGroup(toks: seq<Token>, tagged: bool, tag: string, pending: bool)
    requires toks != [] && toks[0] == Single('(')
    ensures match Inside(toks[1..])
            case None => Outcome(toks, tagged, tag, pending) == None
            case Some((cs, rest)) =>
              Outcome(toks, tagged, tag, pending) ==
              if cs == [] then None else Following([IfList(tag, cs)], Outcome(rest, tagged, tag, false))
  {
    hide ReadConds, ReadCond;
    match ReadConds(toks[1..])
    case None =>
    case Some((conds, rest)) =>
      MeaningsEmpty(conds);
      match ReadItems(rest) {
        case None =>
        case Some(items) =>
          assert ([Group(conds)] + items)[1..] == items;
      }
  }

  lemma MeaningsEmpty(cs: seq<Cond>)
    ensures Meanings(cs) == [] <==> cs == []
  {}

  /** A tag comes next. */
  lemma OutcomeTag(toks: seq<Token>, tag: string, pending: bool)
    requires toks != [] && toks[0].Angle?
    ensures Outcome(toks, true, tag, pending) == if pending then None else Outcome(toks[1..], true, toks[0].text, true)
    ensures Outcome(toks, false, tag, pending) == None
  {
    match ReadItems(toks[1..])
    case None =>
    case Some(items) =>
      assert ([Tag(toks[0].text)] + items)[1..] == items;
  }

  /** Neither comes next. */
  lemma OutcomeOther(toks: seq<Token>, tagged: bool, tag: string, pending: bool)
    requires if toks == [] then tagged && pending else !toks[0].Angle? && toks[0] != Single('(')
    ensures Outcome(toks, tagged, tag, pending) == None
  {}

  lemma OutcomeEnd(tagged: bool, tag: string)
    ensures Outcome([], tagged, tag, false) == Some([])
  {}

  method ParseNoTagLists(s0: string) returns (ok: bool, lists: seq<IfList>)
    requires Trimmed(s0) && Tokens(s0) != [] && Tokens(s0)[0] == Single('(')
    ensures (if ok then Some(lists) else None) == Outcome(Tokens(s0), false, "", false)
  {
    hide *;
    lists := [];
    var s := s0;
    FollowingNothing(Outcome(Tokens(s0), false, "", false));
    while true
      invariant Trimmed(s) && Tokens(s) != []
      invariant Outcome(Tokens(s0), false, "", false) == Following(lists, Outcome(Tokens(s), false, "", false))
      decreases |s|
    {
      NextItem(Tokens(s), false, "", false);
      var l, remaining;
      ok, l, remaining := ParseList(s);
      if !ok {
        FollowingNone(lists);
        return false, [];
      }
      FollowingTwice(lists, [l], Outcome(Tokens(remaining), false, "", false));
      TrimmedTokens(remaining);
      lists := lists + [l];
      if remaining == "" {
        OutcomeEnd(false, "");
        FollowingEnd(lists);
        return true, lists;
      }
      s := remaining;
    }
  }

  lemma FollowingNone(lists: seq<IfList>)
    ensures Following(lists, None) == None
  {}

  lemma FollowingEnd(lists: seq<IfList>)
    ensures Following(lists, Some([])) == Some(lists)
  {
    assert lists + [] == lists;
  }

  lemma NextItem(toks: seq<Token>, tagged: bool, tag: string, pending: bool)
    requires toks != []
    ensures toks[0] == Single('(') ==>
      match Inside(toks[1..])
      case None => Outcome(toks, tagged, tag, pending) == None
      case Some((cs, rest)) =>
        Outcome(toks, tagged, tag, pending) ==
        if cs == [] then None else Following([IfList(tag, cs)], Outcome(rest, tagged, tag, false))
    ensures !tagged && toks[0] != Single('(') ==> Outcome(toks, tagged, tag, pending) == None
  {
    hide *;
    if toks[0] == Single('(') {
      OutcomeGroup(toks, tagged, tag, pending);
    } else if toks[0].Angle? {
      OutcomeTag(toks, tag, pending);
    } else {
      OutcomeOther(toks, tagged, tag, pending);
    }
  }

  method ParseTaggedLists(s0: string) returns (ok: bool, lists: seq<IfList>)
    requires Trimmed(s0) && Tokens(s0) != [] && Tokens(s0)[0].Angle?
    ensures (if ok then Some(lists) else None) == Outcome(Tokens(s0), true, "", false)
  {
    hide *;
    lists := [];
    var s, resourceTag, n := s0, "", 0;
    var first := true;
    FollowingNothing(Outcome(Tokens(s0), true, "", false));
    while true
      invariant Trimmed(s) && n >= 0 && (Tokens(s) == [] ==> !first && n == 0) && (first ==> Tokens(s)[0].Angle?)
      invariant Outcome(Tokens(s0), true, "", false) ==
        Following(lists, Outcome(Tokens(s), true, resourceTag, !first && n == 0))
      decreases |s|
    {
      FollowingNone(lists);
      TokensOf(s);
      FirstShortens(s);
      var token, remaining := Lex(s);
      match token {
        case Angle(t) =>
          OutcomeTag(Tokens(s), resourceTag, !first && n == 0);
          if !first && n == 0 {
            return false, [];
          }
          resourceTag, n := t, 0;
          s := remaining;
        case Single(c) =>
          if c != '(' {
            OutcomeOther(Tokens(s), true, resourceTag, !first && n == 0);
            return false, [];
          }
          NextItem(Tokens(s), true, resourceTag, !first && n == 0);
          n := n + 1;
          var l, rest;
          ok, l, rest := ParseList(s);
          if !ok {
            return false, [];
          }
          l := l.(resourceTag := resourceTag);
          FollowingTwice(lists, [l], Outcome(Tokens(rest), true, resourceTag, false));
          TrimmedTokens(rest);
          lists := lists + [l];
          if rest == "" {
            OutcomeEnd(true, resourceTag);
            FollowingEnd(lists);
            return true, lists;
          }
          s := rest;
        case _ =>
          OutcomeOther(Tokens(s), true, resourceTag, !first && n == 0);
          return false, [];
      }
      first := false;
    }
  }

  /** What `ParseIfHeader` computes, on tokens. */
  function Header(s: string): Option<seq<IfList>> {
    var toks := Tokens(TrimSpace(s));
    if toks == [] then None else Outcome(toks, toks[0].Angle?, "", false)
  }

  method ParseIfHeader(header: string) returns (ok: bool, lists: seq<IfList>)
    ensures (if ok then Some(lists) else None) == Header(header)
  {
    hide First, TrimSpace, Outcome, SkipBlanks, WordLength, IndexOf, Trimmed;
    var s := TrimSpace(header);
    TrimSpaceTrims(header);
    TokensOf(s);
    var token, _ := Lex(s);
    match token
    case Single(c) =>
      if c == '(' {
        ok, lists := ParseNoTagLists(s);
      } else {
        OutcomeOther(Tokens(s), false, "", false);
        return false, [];
      }
    case Angle(_) =>
      ok, lists := ParseTaggedLists(s);
    case _ =>
      TrimmedTokens(s);
      if s != "" {
        OutcomeOther(Tokens(s), false, "", false);
      }
      return false, [];
  }

  // ---------- the grammar, independently ----------

  /** `s` is written as the grammar says, and `lists` is what it says. */
  ghost predicate Denotes(s: string, lists: seq<IfList>) {
    exists items :: WellFormed(items) && Words(items) && Tokens(TrimSpace(s)) == Sentence(items) &&
      lists == Lists(items, "")
  }

  /** The parser accepts exactly the sentences of the grammar, with their meaning. */
  lemma AcceptsTheGrammar(s: string, lists: seq<IfList>)
    ensures Header(s) == Some(lists) <==> Denotes(s, lists)
  {
    hide Tokens, TrimSpace;
    var toks := Tokens(TrimSpace(s));
    if Header(s) == Some(lists) {
      ReadItemsSound(toks);
      FirstToken(ReadItems(toks).value);
      assert WellFormed(ReadItems(toks).value);
    }
    if Denotes(s, lists) {
      var items :| WellFormed(items) && Words(items) && toks == Sentence(items) && lists == Lists(items, "");
      ReadItemsComplete(items);
      FirstToken(items);
    }
  }

  lemma FirstToken(items: seq<Item>)
    requires items != []
    ensures Sentence(items) != [] && (Sentence(items)[0].Angle? <==> items[0].Tag?)
  {}

  lemma TokensOf(s: string)
    ensures var (t, rest) := First(s); Tokens(s) == if t == EofToken then [] else [t] + Tokens(rest)
  {}

  // ---------- canonical printing ----------

  /** How a token is written; `Not` needs the blank after it. */
  function Spell(t: Token): string {
    match t
    case Angle(x) => "<" + x + ">"
    case Square(x) => "[" + x + "]"
    case Single(c) => [c]
    case Not => "Not "
    case _ => ""
  }

  /** The tokens of canonical headers. */
  predicate Spellable(t: Token) {
    match t
    case Angle(x) => '>' !in x
    case Square(x) => ']' !in x
    case Single(c) => c == '(' || c == ')'
    case Not => true
    case _ => false
  }

  function SpellAll(toks: seq<Token>): string {
    if toks == [] then "" else Spell(toks[0]) + SpellAll(toks[1..])
  }

  lemma {:induction false} IndexOfFirst(x: string, c: char, rest: string)
    requires c !in x
    ensures IndexOf(x + [c] + rest, c) == |x|
  {
    var s := x + [c] + rest;
    assert s[|x|] == c;
    assert forall k :: 0 <= k < |x| ==> s[k] == x[k] && x[k] in x;
  }

  lemma BracketedSpelled(open: char, x: string, close: char, rest: string)
    requires (open == '<' && close == '>') || (open == '[' && close == ']')
    requires close !in x
    ensures First([open] + x + [close] + rest) == (if open == '<' then Angle(x) else Square(x), rest)
  {
    var s := [open] + x + [close] + rest;
    assert s[0] == open && IsSpecial(s[0]) && !IsBlank(s[0]);
    IndexOfFirst([open] + x, close, rest);
    assert s == ([open] + x) + [close] + rest;
    assert s[1..|x| + 1] == x && s[|x| + 2..] == rest;
  }

  lemma NotSpelled(rest: string)
    ensures First("Not " + rest) == (Not, " " + rest)
  {
    var s := "Not " + rest;
    assert s[0] == 'N' && s[1] == 'o' && s[2] == 't' && s[3] == ' ';
    assert WordLength(s) == 3;
    assert s[..3] == "Not" && s[3..] == " " + rest;
  }

  lemma SingleSpelled(c: char, rest: string)
    requires c == '(' || c == ')'
    ensures First([c] + rest) == (Single(c), rest)
  {
    hide IndexOf, Bracketed, WordLength, SkipBlanks;
    var s := [c] + rest;
    assert s[0] == c && s[1..] == rest;
    NoBlanks(s);
    SpecialFirst(s);
  }

  lemma SpecialFirst(s: string)
    requires s != "" && IsSpecial(s[0])
    ensures WordLength(s) == 0
  {}

  lemma NoBlanks(s: string)
    requires s == "" || !IsBlank(s[0])
    ensures SkipBlanks(s) == s
  {}

  lemma BlankBefore(rest: string)
    ensures First(" " + rest) == First(rest)
  {
    hide Scan;
    var s := " " + rest;
    assert s[0] == ' ' && s[1..] == rest;
    assert SkipBlanks(s) == SkipBlanks(rest);
  }

  lemma TokensSpelled(t: Token, rest: string)
    requires Spellable(t)
    ensures Tokens(Spell(t) + rest) == [t] + Tokens(rest)
  {
    hide First, Tokens;
    TokensOf(Spell(t) + rest);
    match t
    case Angle(x) => BracketedSpelled('<', x, '>', rest);
    case Square(x) => BracketedSpelled('[', x, ']', rest);
    case Single(c) => SingleSpelled(c, rest);
    case Not =>
      NotSpelled(rest);
      BlankBefore(rest);
      TokensOf(" " + rest);
      TokensOf(rest);
  }

  lemma {:induction false} TokensOfSpelling(toks: seq<Token>)
    requires forall i :: 0 <= i < |toks| ==> Spellable(toks[i])
    ensures Tokens(SpellAll(toks)) == toks
  {
    hide Tokens, First, Spell, Spellable;
    if toks == [] {
      NoTokens();
    } else {
      TokensSpelled(toks[0], SpellAll(toks[1..]));
      TokensOfSpelling(toks[1..]);
    }
  }

  lemma NoTokens()
    ensures Tokens("") == []
  {}

  predicate Tagged(lists: seq<IfList>) {
    exists i :: 0 <= i < |lists| && lists[i].resourceTag != ""
  }

  function WrittenConds(cs: seq<Condition>): seq<Cond> {
    if cs == [] then []
    else
      [Cond(cs[0].negated, if cs[0].etag != "" then Square(cs[0].etag) else Angle(cs[0].token))]
      + WrittenConds(cs[1..])
  }

  /** One list at a time; if any list has a tag, all of them are written with theirs. */
  function Written(lists: seq<IfList>, tagged: bool): seq<Item> {
    if lists == [] then []
    else
      (if tagged then [Tag(lists[0].resourceTag)] else [])
      + [Group(WrittenConds(lists[0].conditions))] + Written(lists[1..], tagged)
  }

  function Print(lists: seq<IfList>): string {
    SpellAll(Sentence(Written(lists, Tagged(lists))))
  }

  /** A state token or an ETag, without the bracket that would end it. */
  predicate PrintableCond(c: Condition) {
    (c.token == "" || c.etag == "") && '>' !in c.token && ']' !in c.etag
  }

  predicate PrintableList(l: IfList) {
    l.conditions != [] && '>' !in l.resourceTag && forall i :: 0 <= i < |l.conditions| ==>
      PrintableCond(l.conditions[i])
  }

  predicate Printable(lists: seq<IfList>) {
    lists != [] && forall i :: 0 <= i < |lists| ==> PrintableList(lists[i])
  }

  lemma {:induction false} WrittenCondsRight(cs: seq<Condition>)
    requires forall i :: 0 <= i < |cs| ==> PrintableCond(cs[i])
    ensures Meanings(WrittenConds(cs)) == cs && (cs != [] ==> WrittenConds(cs) != [])
    ensures forall i :: 0 <= i < |WrittenConds(cs)| ==> IsWord(WrittenConds(cs)[i].word)
    ensures forall i :: 0 <= i < |CondsTokens(WrittenConds(cs))| ==> Spellable(CondsTokens(WrittenConds(cs))[i])
  {
    if cs != [] {
      WrittenCondsRight(cs[1..]);
      assert PrintableCond(cs[0]);
      var w := WrittenConds(cs);
      assert w[1..] == WrittenConds(cs[1..]);
      assert [cs[0]] + cs[1..] == cs;
      assert forall i :: 0 <= i < |CondTokens(w[0])| ==> Spellable(CondTokens(w[0])[i]);
    }
  }

  lemma GroupSpellable(cs: seq<Condition>)
    requires forall i :: 0 <= i < |cs| ==> PrintableCond(cs[i])
    ensures var g := ItemTokens(Group(WrittenConds(cs))); forall i :: 0 <= i < |g| ==> Spellable(g[i])
    ensures Meanings(WrittenConds(cs)) == cs && (cs != [] ==> WrittenConds(cs) != []) &&
      ItemWords(Group(WrittenConds(cs)))
  {
    WrittenCondsRight(cs);
    var g := ItemTokens(Group(WrittenConds(cs)));
    forall i | 0 <= i < |g|
      ensures Spellable(g[i])
    {
      assert i == 0 || i == |g| - 1 || g[i] == CondsTokens(WrittenConds(cs))[i - 1];
    }
  }

  lemma {:induction false} WrittenRight(lists: seq<IfList>, tagged: bool, tag: string)
    requires forall i :: 0 <= i < |lists| ==> PrintableList(lists[i]) && (tagged || lists[i].resourceTag == tag)
    ensures WellWritten(Written(lists, tagged), tagged, tag, lists)
  {
    hide PrintableList, WellWritten, Written;
    if lists == [] {
      NothingWritten(tagged, tag);
    } else {
      var l := lists[0];
      assert PrintableList(l);
      WrittenRight(lists[1..], tagged, l.resourceTag);
      WrittenStep(lists, tagged);
      assert [l] + lists[1..] == lists;
      OneWritten(l, Written(lists[1..], tagged), tagged, tag, lists[1..]);
    }
  }

  /** `items` says `lists`, in the grammar and in tokens that can be spelled. */
  predicate WellWritten(items: seq<Item>, tagged: bool, tag: string, lists: seq<IfList>) {
    && Words(items) && Lists(items, tag) == lists
    && (if tagged then TaggedGroups(items, false) else AllGroups(items))
    && forall i :: 0 <= i < |Sentence(items)| ==> Spellable(Sentence(items)[i])
  }

  lemma NothingWritten(tagged: bool, tag: string)
    ensures WellWritten(Written([], tagged), tagged, tag, [])
  {}

  lemma WrittenStep(lists: seq<IfList>, tagged: bool)
    requires lists != []
    ensures var rest := [Group(WrittenConds(lists[0].conditions))] + Written(lists[1..], tagged);
            Written(lists, tagged) == if tagged then [Tag(lists[0].resourceTag)] + rest else rest
  {
    assert [Tag(lists[0].resourceTag)] + [Group(WrittenConds(lists[0].conditions))] + Written(lists[1..], tagged) ==
           [Tag(lists[0].resourceTag)] + ([Group(WrittenConds(lists[0].conditions))] + Written(lists[1..], tagged));
    assert [] + [Group(WrittenConds(lists[0].conditions))] == [Group(WrittenConds(lists[0].conditions))];
  }

  lemma OneWritten(l: IfList, rest: seq<Item>, tagged: bool, tag: string, lists: seq<IfList>)
    requires PrintableList(l) && (tagged || l.resourceTag == tag) && WellWritten(rest, tagged, l.resourceTag, lists)
    ensures var items := [Group(WrittenConds(l.conditions))] + rest;
            WellWritten(if tagged then [Tag(l.resourceTag)] + items else items, tagged, tag, [l] + lists)
  {
    hide Words, Sentence, ItemTokens, ItemWords, WrittenConds, Spellable;
    var g := Group(WrittenConds(l.conditions));
    GroupSpellable(l.conditions);
    AddItem(g, rest);
    assert TaggedGroups(rest, false) ==> TaggedGroups([g] + rest, true);
    assert Lists([g] + rest, l.resourceTag) == [l] + lists;
    if tagged {
      AddItem(Tag(l.resourceTag), [g] + rest);
      TagSpellable(l.resourceTag);
    }
  }

  lemma TagSpellable(url: string)
    requires '>' !in url
    ensures ItemWords(Tag(url)) && forall i :: 0 <= i < |ItemTokens(Tag(url))| ==> Spellable(ItemTokens(Tag(url))[i])
  {}

  lemma AddItem(i: Item, rest: seq<Item>)
    ensures ([i] + rest)[1..] == rest
    ensures ItemWords(i) && Words(rest) ==> Words([i] + rest)
    ensures Sentence([i] + rest) == ItemTokens(i) + Sentence(rest)
    ensures (forall k :: 0 <= k < |ItemTokens(i)| ==> Spellable(ItemTokens(i)[k])) &&
            (forall k :: 0 <= k < |Sentence(rest)| ==> Spellable(Sentence(rest)[k])) ==>
            forall k :: 0 <= k < |Sentence([i] + rest)| ==> Spellable(Sentence([i] + rest)[k])
  {
    hide Spellable, ItemTokens;
    assert ([i] + rest)[1..] == rest;
  }

  predicate Closing(toks: seq<Token>) {
    toks != [] && toks[|toks| - 1] == Single(')') && (toks[0].Angle? || toks[0] == Single('('))
  }

  lemma {:induction false} EndsWithParen(lists: seq<IfList>, tagged: bool)
    requires lists != []
    ensures Closing(Sentence(Written(lists, tagged)))
  {
    hide *;
    var rest := Written(lists[1..], tagged);
    var cs := WrittenConds(lists[0].conditions);
    if |lists| > 1 {
      EndsWithParen(lists[1..], tagged);
    } else {
      NothingLeft(lists[1..], tagged);
    }
    WrittenStep(lists, tagged);
    AddItem(Group(cs), rest);
    AddItem(Tag(lists[0].resourceTag), [Group(cs)] + rest);
    TagTokens(lists[0].resourceTag);
    GroupEnds(cs);
    ClosingAfter(ItemTokens(Group(cs)), Sentence(rest), lists[0].resourceTag);
  }

  lemma ClosingAfter(g: seq<Token>, s: seq<Token>, url: string)
    requires Closing(g) && (s == [] || Closing(s))
    ensures Closing(g + s) && Closing([Angle(url)] + (g + s))
  {}

  lemma TagTokens(url: string)
    ensures ItemTokens(Tag(url)) == [Angle(url)]
  {}

  lemma NothingLeft(lists: seq<IfList>, tagged: bool)
    requires lists == []
    ensures Sentence(Written(lists, tagged)) == []
  {}

  lemma GroupEnds(cs: seq<Cond>)
    ensures Closing(ItemTokens(Group(cs)))
  {}

  lemma {:induction false} SpellingEnds(toks: seq<Token>)
    requires toks != [] && toks[|toks| - 1] == Single(')')
    ensures var s := SpellAll(toks); s != "" && s[|s| - 1] == ')'
  {
    hide Spell;
    var rest := toks[1..];
    if |toks| > 1 {
      assert rest[|rest| - 1] == toks[|toks| - 1];
      SpellingEnds(rest);
      assert (Spell(toks[0]) + SpellAll(rest))[|Spell(toks[0]) + SpellAll(rest)| - 1] == ')';
    } else {
      SpellsParen();
      assert SpellAll(rest) == "" && toks[0] == Single(')');
      assert Spell(toks[0]) + "" == Spell(toks[0]);
    }
  }

  lemma SpellsParen()
    ensures Spell(Single(')')) == ")"
  {}

  lemma PrintIsTrimmed(lists: seq<IfList>)
    requires lists != []
    ensures TrimSpace(Print(lists)) == Print(lists)
  {
    hide Sentence, Written, Spell, SpellAll;
    EndsWithParen(lists, Tagged(lists));
    SpellingEnds(Sentence(Written(lists, Tagged(lists))));
    SpellingBegins(Sentence(Written(lists, Tagged(lists))));
  }

  lemma SpellingBegins(toks: seq<Token>)
    requires toks != [] && (toks[0].Angle? || toks[0] == Single('('))
    ensures var s := SpellAll(toks); s != "" && (s[0] == '<' || s[0] == '(')
  {}

  /** Parsing the canonical printing of a header gives the header back. */
  lemma ParsePrint(lists: seq<IfList>)
    requires Printable(lists)
    ensures Header(Print(lists)) == Some(lists)
  {
    hide Tokens, TrimSpace, Print;
    var items := Written(lists, Tagged(lists));
    WrittenRight(lists, Tagged(lists), "");
    PrintedTokens(lists);
    PrintIsTrimmed(lists);
    assert WellFormed(items);
    assert Denotes(Print(lists), lists);
    AcceptsTheGrammar(Print(lists), lists);
  }

  lemma PrintedTokens(lists: seq<IfList>)
    requires forall i :: 0 <= i < |Sentence(Written(lists, Tagged(lists)))| ==>
      Spellable(Sentence(Written(lists, Tagged(lists)))[i])
    ensures Tokens(Print(lists)) == Sentence(Written(lists, Tagged(lists)))
  {
    TokensOfSpelling(Sentence(Written(lists, Tagged(lists))));
  }

  // ---------- blanks ----------

  predicate AllBlank(s: string) {
    forall i :: 0 <= i < |s| ==> s[i] == ' ' || s[i] == '\t'
  }

  predicate Gaps(gaps: seq<string>) {
    forall i :: 0 <= i < |gaps| ==> AllBlank(gaps[i])
  }

  /** The tokens with blanks before each of them. */
  function Spaced(toks: seq<Token>, gaps: seq<string>): string
    requires |gaps| == |toks|
  {
    if toks == [] then "" else gaps[0] + (Spell(toks[0]) + Spaced(toks[1..], gaps[1..]))
  }

  lemma {:induction false} TokensAfterBlanks(gap: string, rest: string)
    requires AllBlank(gap)
    ensures Tokens(gap + rest) == Tokens(rest)
  {
    hide Tokens, Scan;
    if gap == "" {
      assert gap + rest == rest;
    } else {
      var s := gap + rest;
      assert s[0] == gap[0] && s[1..] == gap[1..] + rest;
      TokensAfterBlanks(gap[1..], rest);
      TokensOf(s);
      TokensOf(s[1..]);
      assert SkipBlanks(s) == SkipBlanks(s[1..]);
    }
  }

  lemma {:induction false} TokensOfSpaced(toks: seq<Token>, gaps: seq<string>)
    requires |gaps| == |toks| && Gaps(gaps) && forall i :: 0 <= i < |toks| ==> Spellable(toks[i])
    ensures Tokens(Spaced(toks, gaps)) == toks
  {
    hide Tokens, First, Spell, Spellable, AllBlank;
    if toks == [] {
      NoTokens();
    } else {
      TokensAfterBlanks(gaps[0], Spell(toks[0]) + Spaced(toks[1..], gaps[1..]));
      TokensSpelled(toks[0], Spaced(toks[1..], gaps[1..]));
      TokensOfSpaced(toks[1..], gaps[1..]);
    }
  }

  lemma {:induction false} SpacedEnds(toks: seq<Token>, gaps: seq<string>)
    requires |gaps| == |toks| && toks != [] && toks[|toks| - 1] == Single(')')
    ensures var s := Spaced(toks, gaps); s != "" && s[|s| - 1] == ')'
  {
    hide Spell;
    var rest := Spaced(toks[1..], gaps[1..]);
    if |toks| > 1 {
      assert toks[1..][|toks[1..]| - 1] == toks[|toks| - 1];
      SpacedEnds(toks[1..], gaps[1..]);
      LastOfSum(gaps[0], Spell(toks[0]), rest);
    } else {
      SpellsParen();
      LastOfSum(gaps[0], rest, Spell(toks[0]));
      assert toks[0] == Single(')') && rest == "";
      assert rest + Spell(toks[0]) == Spell(toks[0]) + rest;
    }
  }

  lemma LastOfSum(a: string, b: string, c: string)
    requires c != ""
    ensures var s := a + (b + c); s != "" && s[|s| - 1] == c[|c| - 1]
  {}

  lemma SpacedBegins(toks: seq<Token>, gaps: seq<string>)
    requires |gaps| == |toks| && toks != [] && (toks[0].Angle? || toks[0] == Single('(')) && gaps[0] == ""
    ensures var s := Spaced(toks, gaps); s != "" && (s[0] == '<' || s[0] == '(')
  {
    assert gaps[0] + (Spell(toks[0]) + Spaced(toks[1..], gaps[1..])) ==
      Spell(toks[0]) + Spaced(toks[1..], gaps[1..]);
  }

  /** Blanks, tabs and line ends. */
  predicate AllWhite(s: string) {
    forall i :: 0 <= i < |s| ==> s[i] == ' ' || s[i] == '\t' || s[i] == '\r' || s[i] == '\n'
  }

  lemma {:induction false} TrimAround(before: string, s: string, after: string)
    requires AllWhite(before) && AllWhite(after)
    requires s != "" && (s[0] == '<' || s[0] == '(') && s[|s| - 1] == ')'
    ensures TrimSpace(before + s + after) == s
    decreases |before| + |after|
  {
    var all := before + s + after;
    if before != "" {
      assert all[0] == before[0] && all[1..] == before[1..] + s + after;
      TrimAround(before[1..], s, after);
    } else if after != "" {
      var less := after[..|after| - 1];
      assert all[0] == s[0] && all[|all| - 1] == after[|after| - 1] && all[..|all| - 1] == before + s + less;
      TrimAround(before, s, less);
    } else {
      assert all == s;
    }
  }

  /** Blanks and tabs between the tokens of a header, and white space around it, change nothing. */
  lemma ParseSpaced(lists: seq<IfList>, before: string, gaps: seq<string>, after: string)
    requires Printable(lists) && Gaps(gaps) && |gaps| == |Sentence(Written(lists, Tagged(lists)))|
    requires AllWhite(before) && AllWhite(after) && (gaps != [] ==> gaps[0] == "")
    ensures Header(before + Spaced(Sentence(Written(lists, Tagged(lists))), gaps) + after) == Some(lists)
  {
    hide Tokens, TrimSpace, Spaced, Gaps, Spellable, AllWhite;
    var items := Written(lists, Tagged(lists));
    var s := Spaced(Sentence(items), gaps);
    WrittenRight(lists, Tagged(lists), "");
    EndsWithParen(lists, Tagged(lists));
    TokensOfSpaced(Sentence(items), gaps);
    SpacedEnds(Sentence(items), gaps);
    SpacedBegins(Sentence(items), gaps);
    TrimAround(before, s, after);
    assert WellFormed(items);
    assert Denotes(before + s + after, lists);
    AcceptsTheGrammar(before + s + after, lists);
  }

  // ---------- bare words ----------

  lemma WordSpelled(word: string, rest: string)
    requires word != "" && word != "Not" && rest != "" && IsSpecial(rest[0])
    requires forall i :: 0 <= i < |word| ==> !IsSpecial(word[i])
    ensures First(word + rest) == (Str(word), rest)
  {
    hide IndexOf, Bracketed, IsSpecial;
    var s := word + rest;
    assert s[0] == word[0] && !IsBlank(s[0]) by {
      BlankIsSpecial(word[0]);
    }
    NoBlanks(s);
    assert s[|word|] == rest[0] && forall i :: 0 <= i < |word| ==> s[i] == word[i];
    assert WordLength(s) == |word|;
    assert s[..|word|] == word && s[|word|..] == rest;
  }

  lemma BlankIsSpecial(c: char)
    ensures IsBlank(c) ==> IsSpecial(c)
  {}

  lemma ParenTokens(c: char, rest: string)
    requires c == '(' || c == ')'
    ensures Tokens([c] + rest) == [Single(c)] + Tokens(rest)
  {
    hide First, Tokens;
    SingleSpelled(c, rest);
    TokensOf([c] + rest);
  }

  lemma WordTokens(word: string, rest: string)
    requires word != "" && word != "Not" && rest != "" && IsSpecial(rest[0])
    requires forall i :: 0 <= i < |word| ==> !IsSpecial(word[i])
    ensures Tokens(word + rest) == [Str(word)] + Tokens(rest)
  {
    hide *;
    WordSpelled(word, rest);
    TokensOf(word + rest);
  }

  lemma ClosingParen()
    ensures IsSpecial(')') && Tokens([')']) == [Single(')')]
  {
    hide First, Tokens;
    NoTokens();
    ParenTokens(')', "");
    assert [')'] + "" == [')'];
  }

  lemma BareWordTokens(word: string)
    requires word != "" && word != "Not" && forall i :: 0 <= i < |word| ==> !IsSpecial(word[i])
    ensures Tokens(['('] + (word + [')'])) == [Single('(')] + ([Str(word)] + [Single(')')])
  {
    hide *;
    ClosingParen();
    WordTokens(word, [')']);
    ParenTokens('(', word + [')']);
  }

  lemma OneGroup(c: Cond)
    requires IsWord(c.word) && !c.negated
    ensures var items := [Group([c])];
            && WellFormed(items) && Words(items) && Lists(items, "") == [IfList("", [MeaningOf(c)])]
            && Sentence(items) == [Single('(')] + ([c.word] + [Single(')')])
  {
    hide MeaningOf, IsWord;
    var items := [Group([c])];
    assert AllGroups(items) by {
      assert forall i :: 0 <= i < |items| ==> items[i] == Group([c]);
    }
    assert items[1..] == [] && [c][1..] == [];
    assert CondTokens(c) == [c.word] && CondsTokens([c]) == [c.word];
    assert Meanings([c]) == [MeaningOf(c)];
  }

  /** Neither white space nor a bracket. */
  predicate IsPlain(c: char) {
    c != ' ' && c != '\t' && c != '(' && c != ')' && c != '<' && c != '>' && c != '[' && c != ']'
  }

  lemma PlainIsNotSpecial(word: string)
    ensures (forall i :: 0 <= i < |word| ==> IsPlain(word[i])) ==> forall i :: 0 <= i < |word| ==> !IsSpecial(word[i])
  {}

  /** A word without brackets is a state token, not an ETag. */
  lemma BareWord(word: string)
    requires word != "" && word != "Not" && forall i :: 0 <= i < |word| ==> IsPlain(word[i])
    ensures Header("(" + word + ")") == Some([IfList("", [LockSpec.Condition(false, word, "")])])
  {
    hide IsSpecial, Tokens, WellFormed, Words, Sentence, Lists, Header;
    PlainIsNotSpecial(word);
    BareWordTokens(word);
    var s := "(" + word + ")";
    assert s == ['('] + (word + [')']) && s[0] == '(' && s[|s| - 1] == ')';
    assert TrimSpace(s) == s;
    OneGroup(Cond(false, Str(word)));
    assert Denotes(s, Lists([Group([Cond(false, Str(word))])], ""));
    AcceptsTheGrammar(s, Lists([Group([Cond(false, Str(word))])], ""));
  }

  // ---------- every parsed header can be printed ----------

  /** No token contains the bracket that would have ended it. */
  predicate Closed(t: Token) {
    match t
    case Str(x) => '>' !in x
    case Angle(x) => '>' !in x
    case Square(x) => ']' !in x
    case _ => true
  }

  lemma FirstClosed(s0: string)
    ensures Closed(First(s0).0)
  {
    hide SkipBlanks, WordLength, IndexOf;
    var s := SkipBlanks(s0);
    WordClosed(s, WordLength(s));
    BracketedClosed(s, IndexOf(s, '>'), '>');
    BracketedClosed(s, IndexOf(s, ']'), ']');
  }

  lemma WordClosed(s: string, n: nat)
    requires n <= |s| && forall i :: 0 <= i < n ==> !IsSpecial(s[i])
    ensures '>' !in s[..n]
  {}

  lemma BracketedClosed(s: string, j: int, c: char)
    requires j < |s| && forall k :: 0 <= k < j ==> s[k] != c
    ensures j >= 1 ==> c !in s[1..j]
  {}

  lemma {:induction false} TokensClosed(s: string)
    ensures forall i :: 0 <= i < |Tokens(s)| ==> Closed(Tokens(s)[i])
    decreases |s|
  {
    hide First, Closed;
    FirstClosed(s);
    FirstShortens(s);
    TokensOf(s);
    if First(s).0 != EofToken {
      TokensClosed(First(s).1);
    }
  }

  lemma ClosedParts(a: seq<Token>, b: seq<Token>)
    requires forall i :: 0 <= i < |a + b| ==> Closed((a + b)[i])
    ensures forall i :: 0 <= i < |a| ==> Closed(a[i])
    ensures forall i :: 0 <= i < |b| ==> Closed(b[i])
  {
    hide Closed;
    assert forall i :: 0 <= i < |a| ==> (a + b)[i] == a[i];
    assert forall i :: 0 <= i < |b| ==> (a + b)[|a| + i] == b[i];
  }

  lemma {:induction false} MeaningsPrintable(cs: seq<Cond>)
    requires forall i :: 0 <= i < |cs| ==> IsWord(cs[i].word)
    requires forall i :: 0 <= i < |CondsTokens(cs)| ==> Closed(CondsTokens(cs)[i])
    ensures forall i :: 0 <= i < |Meanings(cs)| ==> PrintableCond(Meanings(cs)[i])
  {
    if cs != [] {
      var a, b := CondTokens(cs[0]), CondsTokens(cs[1..]);
      assert CondsTokens(cs) == a + b;
      ClosedParts(a, b);
      assert Closed(a[|a| - 1]);
      MeaningsPrintable(cs[1..]);
    }
  }

  lemma {:induction false} ListsPrintable(items: seq<Item>, tagged: bool, tag: string, pending: bool)
    requires Words(items) && (if tagged then TaggedGroups(items, pending) else AllGroups(items))
    requires forall i :: 0 <= i < |Sentence(items)| ==> Closed(Sentence(items)[i])
    requires '>' !in tag
    ensures forall i :: 0 <= i < |Lists(items, tag)| ==> PrintableList(Lists(items, tag)[i])
    ensures tagged && pending ==> Lists(items, tag) != []
  {
    if items != [] {
      var a, b := ItemTokens(items[0]), Sentence(items[1..]);
      assert Sentence(items) == a + b;
      ClosedParts(a, b);
      assert ItemWords(items[0]);
      forall i | 0 <= i < |items[1..]|
        ensures ItemWords(items[1..][i])
      {
        assert items[1..][i] == items[i + 1];
      }
      match items[0] {
        case Tag(url) =>
          assert Closed(a[0]);
          ListsPrintable(items[1..], tagged, url, true);
        case Group(cs) =>
          assert a == [Single('(')] + (CondsTokens(cs) + [Single(')')]);
          ClosedParts([Single('(')], CondsTokens(cs) + [Single(')')]);
          ClosedParts(CondsTokens(cs), [Single(')')]);
          MeaningsPrintable(cs);
          MeaningsEmpty(cs);
          ListsPrintable(items[1..], tagged, tag, false);
      }
    }
  }

  /** What the parser returns is always printable, so printing and parsing are inverse on its results. */
  lemma ParsedIsPrintable(s: string, lists: seq<IfList>)
    requires Header(s) == Some(lists)
    ensures Printable(lists) && Header(Print(lists)) == Header(s)
  {
    hide First, TrimSpace, Closed, PrintableList, Print;
    var toks := Tokens(TrimSpace(s));
    ReadItemsSound(toks);
    var items := ReadItems(toks).value;
    FirstToken(items);
    TokensClosed(TrimSpace(s));
    ListsPrintable(items, toks[0].Angle?, "", false);
    assert items[0].Tag? ==> Lists(items, "") != [] by {
      if items[0].Tag? {
        FollowedByAList(items);
      }
    }
    ParsePrint(lists);
  }

  lemma {:induction false} FollowedByAList(items: seq<Item>)
    requires items != [] && items[0].Tag? && TaggedGroups(items, false)
    ensures forall tag :: Lists(items, tag) != []
  {
    assert TaggedGroups(items[1..], true);
    assert items[1..] != [] && items[1..][0].Group?;
  }
}
