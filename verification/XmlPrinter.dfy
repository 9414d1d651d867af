/**
 The encoder's namespace machinery: two maps kept inverse to each other, and a log of
 undo records from which the end of an element brings back what was in force before it.
 */
module XmlPrinter {
  import opened XmlSpec
  import Decimal
  import opened Wrappers

  /** `Undo` says what a prefix stood for before; `Mark` is the start of an element. */
  datatype Record = Mark | Undo(prefix: string, url: string)

  /** Playing the log back from `e` meets the environments `saved`, one at each mark. */
  predicate Unwinds(log: seq<Record>, e: Env, saved: seq<Env>)
    decreases |log|
  {
    if log == [] then saved == []
    else
      var rest := log[..|log| - 1];
      match log[|log| - 1]
      case Mark => saved != [] && saved[|saved| - 1] == e && Unwinds(rest, e, saved[..|saved| - 1])
      case Undo(prefix, url) => Sound(e.Set(prefix, url)) && Unwinds(rest, e.Set(prefix, url), saved)
  }

  lemma UnwindsPush(log: seq<Record>, e: Env, saved: seq<Env>, prefix: string, url: string)
    requires Unwinds(log, e, saved) && Sound(e)
    ensures Unwinds(log + [Undo(prefix, e.Of(prefix))], e.Set(prefix, url), saved)
  {
    SetBack(e, prefix, url);
    assert (log + [Undo(prefix, e.Of(prefix))])[..|log|] == log;
  }

  lemma UnwindsMark(log: seq<Record>, e: Env, saved: seq<Env>)
    requires Unwinds(log, e, saved)
    ensures Unwinds(log + [Mark], e, saved + [e])
  {
    assert (log + [Mark])[..|log|] == log && (saved + [e])[..|saved|] == saved;
  }

  /** Some record is about prefix `p`. */
  predicate Logged(records: seq<Record>, p: string) {
    exists i :: 0 <= i < |records| && records[i].Undo? && records[i].prefix == p
  }

  lemma LoggedSnoc(records: seq<Record>, prefix: string, url: string)
    ensures forall p :: Logged(records + [Undo(prefix, url)], p) <==> Logged(records, p) || p == prefix
  {
    var later := records + [Undo(prefix, url)];
    assert later[|records|] == Undo(prefix, url);
    forall p | Logged(records, p)
      ensures Logged(later, p)
    {
      var i :| 0 <= i < |records| && records[i].Undo? && records[i].prefix == p;
      assert later[i] == records[i];
    }
  }

  lemma DeclaredSnoc(decls: seq<Attr>, prefix: string, value: string)
    ensures var later := decls + [Attr(DeclName(prefix), value)];
            Declared(later, prefix) && forall p :: Declared(decls, p) ==> Declared(later, p)
  {
    var later := decls + [Attr(DeclName(prefix), value)];
    assert later[|decls|].name == DeclName(prefix);
    forall p | Declared(decls, p)
      ensures Declared(later, p)
    {
      var i :| 0 <= i < |decls| && decls[i].name == DeclName(p);
      assert later[i] == decls[i];
    }
  }

  // ---------- choosing a prefix ----------

  function TrimRightSlashes(s: string): string {
    if s != "" && s[|s| - 1] == '/' then TrimRightSlashes(s[..|s| - 1]) else s
  }

  function AfterLastSlash(s: string): (r: string)
    ensures '/' !in r
  {
    if s == "" then "" else if s[|s| - 1] == '/' then "" else AfterLastSlash(s[..|s| - 1]) + [s[|s| - 1]]
  }

  /** The last path element of the namespace if it can be a prefix, and "_" otherwise; never "xml...". */
  function Candidate(url: string, isName: string -> bool): string {
    var p := AfterLastSlash(TrimRightSlashes(url));
    var q := if p == "" || !isName(p) || ':' in p then "_" else p;
    if "xml" <= q then "_" + q else q
  }

  lemma {:induction false} TrimSlashes(s: string, slashes: string)
    requires s != "" && s[|s| - 1] != '/' && forall i :: 0 <= i < |slashes| ==> slashes[i] == '/'
    ensures TrimRightSlashes(s + slashes) == s
    decreases |slashes|
  {
    if slashes == "" {
      assert s + slashes == s;
    } else {
      var less := slashes[..|slashes| - 1];
      assert (s + slashes)[..|s + slashes| - 1] == s + less && (s + slashes)[|s + slashes| - 1] == '/';
      TrimSlashes(s, less);
    }
  }

  /** The last element of a path is the prefix made for it, unless it cannot be one or is reserved. */
  lemma LastElement(head: string, last: string, slashes: string, isName: string -> bool)
    requires '/' !in last && (forall i :: 0 <= i < |slashes| ==> slashes[i] == '/')
    requires last != "" && (head == "" || head[|head| - 1] == '/')
    ensures Candidate(head + last + slashes, isName) ==
            if !isName(last) || ':' in last then "_" else if "xml" <= last then "_" + last else last
  {
    hide AfterLastSlash, TrimRightSlashes;
    assert (head + last)[|head + last| - 1] == last[|last| - 1];
    TrimSlashes(head + last, slashes);
    AfterSlash(head, last);
  }

  lemma {:induction false} AfterSlash(head: string, last: string)
    requires '/' !in last && (head == "" || head[|head| - 1] == '/')
    ensures AfterLastSlash(head + last) == last
    decreases |last|
  {
    if last == "" {
      assert head + last == head;
    } else {
      var s := head + last;
      assert s[..|s| - 1] == head + last[..|last| - 1] && s[|s| - 1] == last[|last| - 1];
      AfterSlash(head, last[..|last| - 1]);
    }
  }

  predicate FitPrefix(p: string) {
    p != "" && '/' !in p && !("xml" <= p)
  }

  lemma CandidateFits(url: string, isName: string -> bool)
    ensures FitPrefix(Candidate(url, isName))
  {
    var p := AfterLastSlash(TrimRightSlashes(url));
    var q := if p == "" || !isName(p) || ':' in p then "_" else p;
    if "xml" <= q {
      assert ("_" + q)[0] == '_';
    }
  }

  lemma {:induction false} ItoaIsDigits(n: nat)
    ensures '/' !in Decimal.Itoa(n)
  {
    if n >= 10 {
      ItoaIsDigits(n / 10);
    }
  }

  function Numbered(p: string, n: nat): string {
    p + "_" + Decimal.Itoa(n)
  }

  lemma NumberedFits(p: string, n: nat)
    requires FitPrefix(p)
    ensures FitPrefix(Numbered(p, n))
  {
    ItoaIsDigits(n);
    var q := Numbered(p, n);
    assert q[|p|] == '_';
    assert |p| >= 3 ==> q[..3] == p[..3];
  }

  lemma NumberedInjective(p: string, m: nat, n: nat)
    requires Numbered(p, m) == Numbered(p, n)
    ensures m == n
  {
    assert Decimal.Itoa(m) == Numbered(p, m)[|p| + 1..];
    assert Decimal.Itoa(n) == Numbered(p, n)[|p| + 1..];
    Decimal.ItoaInjective(m, n);
  }

  /** The numbered prefixes from `n` on that are in force. */
  ghost function Taken(ns: Scope, p: string, n: nat): set<string> {
    set k | k in ns && exists m: nat :: n <= m && k == Numbered(p, m)
  }

  lemma TakenShrinks(ns: Scope, p: string, n: nat)
    requires Numbered(p, n) in ns
    ensures |Taken(ns, p, n + 1)| < |Taken(ns, p, n)|
  {
    hide Numbered;
    var t, fewer := Numbered(p, n), Taken(ns, p, n + 1);
    forall m: nat | n + 1 <= m
      ensures t != Numbered(p, m)
    {
      if t == Numbered(p, m) {
        NumberedInjective(p, m, n);
      }
    }
    assert t in Taken(ns, p, n) && t !in fewer;
    SubsetSize(fewer + {t}, Taken(ns, p, n));
  }

  /** The first number from `n` on that gives a prefix not in force; only finitely many are taken. */
  function FirstFree(ns: Scope, p: string, n: nat): (r: nat)
    ensures n <= r && Numbered(p, r) !in ns && forall k :: n <= k < r ==> Numbered(p, k) in ns
    decreases |Taken(ns, p, n)|
  {
    if Numbered(p, n) in ns then
      TakenShrinks(ns, p, n);
      FirstFree(ns, p, n + 1)
    else n
  }

  lemma FitNonEmpty(p: string)
    requires FitPrefix(p)
    ensures p != ""
  {}

  lemma FitIsUnreserved(p: string)
    requires FitPrefix(p)
    ensures !Reserved(p) && p != "xmlns"
  {
    assert '/' in XML_URL by { assert XML_URL[5] == '/'; }
    assert "xml" <= "xmlns";
  }

  // ---------- what is in force inside a start tag ----------

  /** A writer's bindings, and the number of the last numbered prefix. */
  datatype Names = Names(env: Env, seqNo: nat)

  /** The default namespace after one attribute of a start tag. */
  function ExplicitDefault(dflt: string, attr: Attr, ignoreNonEmptyDefault: bool): string {
    if attr.name.local == "xmlns" && (attr.value == "" || !ignoreNonEmptyDefault) then attr.value else dflt
  }

  /**
   What a declaration in a start tag brings into force: a default namespace, unless it has
   to be ignored, or a prefix for a namespace that has none yet.
   */
  function Bound(e: Env, attr: Attr, ignoreNonEmptyDefault: bool): Env {
    if attr.name.local == "xmlns" then Env(ExplicitDefault(e.dflt, attr, ignoreNonEmptyDefault), e.ns)
    else if IsPrefixDecl(attr) && attr.name.local != "" && attr.value != "" && attr.value !in e.ns.Values
    then e.Set(attr.name.local, attr.value)
    else e
  }

  function BoundAll(e: Env, attrs: seq<Attr>, ignoreNonEmptyDefault: bool): Env
    decreases |attrs|
  {
    if attrs == [] then e else BoundAll(Bound(e, attrs[0], ignoreNonEmptyDefault), attrs[1..], ignoreNonEmptyDefault)
  }

  /** The prefix made for a namespace: a candidate, or a numbered one if the candidate is taken. */
  function Created(isName: string -> bool, n: Names, url: string, isAttr: bool): Names {
    if url in n.env.ns.Values || (!isAttr && url == n.env.dflt) || url == XML_URL then n
    else if url == "" then n.(env := n.env.Set("", ""))
    else
      var p := Candidate(url, isName);
      if p in n.env.ns then
        var k := FirstFree(n.env.ns, p, n.seqNo + 1);
        Names(n.env.Set(Numbered(p, k), url), k)
      else n.(env := n.env.Set(p, url))
  }

  predicate NeedsPrefix(n: Name) {
    n.space != "" && !IsNamespace(n)
  }

  function CreatedAll(isName: string -> bool, n: Names, attrs: seq<Attr>): Names
    decreases |attrs|
  {
    if attrs == [] then n
    else
      var n' := if NeedsPrefix(attrs[0].name) then Created(isName, n, attrs[0].name.space, true) else n;
      CreatedAll(isName, n', attrs[1..])
  }

  /** The bindings inside a start tag: the declared ones, then those its names need. */
  function Inner(isName: string -> bool, n: Names, name: Name, attrs: seq<Attr>): Names {
    var declared := Names(BoundAll(n.env, attrs, name.space == ""), n.seqNo);
    Created(isName, CreatedAll(isName, declared, attrs), name.space, false)
  }

  /** The declaration of this prefix for this namespace. */
  function PrefixDecl(prefix: string, url: string): Attr {
    Attr(Name("xmlns", prefix), url)
  }

  predicate ElseDeclared(a: Attr, prefix: string, url: string) {
    a.name.space == "xmlns" && (a.name.local == prefix || a.value == url)
  }

  /**
   A prefix that a start tag declares for a namespace that has none is in force inside it,
   whatever else the tag declares or needs, in whatever order.
   */
  lemma ExplicitFirst(isName: string -> bool, n: Names, name: Name, before: seq<Attr>, after: seq<Attr>, prefix: string,
                      url: string)
    requires prefix != "" && prefix != "xmlns" && url != "" && url !in n.env.ns.Values
    requires forall i :: 0 <= i < |before| ==> !ElseDeclared(before[i], prefix, url)
    requires forall i :: 0 <= i < |after| ==> !ElseDeclared(after[i], prefix, url)
    ensures var e := Inner(isName, n, name, before + [PrefixDecl(prefix, url)] + after).env;
            prefix in e.ns && e.ns[prefix] == url
  {
    hide Created, Bound;
    var attrs := before + [PrefixDecl(prefix, url)] + after;
    BoundThen(n.env, before, PrefixDecl(prefix, url), after, name.space == "");
    var e0 := BoundAll(n.env, before, name.space == "");
    OthersDoNotBind(n.env, before, prefix, url, name.space == "");
    var e1 := Bound(e0, PrefixDecl(prefix, url), name.space == "");
    BoundDecl(e0, prefix, url, name.space == "");
    OthersDoNotUnbind(e1, after, prefix, url, name.space == "");
    var declared := Names(BoundAll(n.env, attrs, name.space == ""), n.seqNo);
    CreatedAllStays(isName, declared, attrs, prefix, url);
    CreatedStays(isName, CreatedAll(isName, declared, attrs), name.space, false, prefix, url);
  }

  lemma BoundDecl(e: Env, prefix: string, url: string, ignore: bool)
    requires prefix != "" && prefix != "xmlns" && url != "" && url !in e.ns.Values
    ensures var e' := Bound(e, PrefixDecl(prefix, url), ignore); prefix in e'.ns && e'.ns[prefix] == url
  {}

  lemma {:induction false} BoundThen(e: Env, before: seq<Attr>, a: Attr, after: seq<Attr>, ignore: bool)
    ensures BoundAll(e, before + [a] + after, ignore) ==
            BoundAll(Bound(BoundAll(e, before, ignore), a, ignore), after, ignore)
    decreases |before|
  {
    hide Bound;
    var attrs := before + [a] + after;
    if before == [] {
      assert attrs[0] == a && attrs[1..] == after;
    } else {
      assert attrs[0] == before[0] && attrs[1..] == before[1..] + [a] + after;
      BoundThen(Bound(e, before[0], ignore), before[1..], a, after, ignore);
    }
  }

  lemma BoundOther(e: Env, a: Attr, prefix: string, url: string, ignore: bool)
    requires !ElseDeclared(a, prefix, url)
    ensures url !in e.ns.Values ==> url !in Bound(e, a, ignore).ns.Values
    ensures prefix in e.ns ==> prefix in Bound(e, a, ignore).ns && Bound(e, a, ignore).ns[prefix] == e.ns[prefix]
  {}

  lemma {:induction false} OthersDoNotBind(e: Env, attrs: seq<Attr>, prefix: string, url: string, ignore: bool)
    requires url !in e.ns.Values && forall i :: 0 <= i < |attrs| ==> !ElseDeclared(attrs[i], prefix, url)
    ensures url !in BoundAll(e, attrs, ignore).ns.Values
    decreases |attrs|
  {
    hide Bound, ElseDeclared;
    if attrs != [] {
      BoundOther(e, attrs[0], prefix, url, ignore);
      OthersDoNotBind(Bound(e, attrs[0], ignore), attrs[1..], prefix, url, ignore);
    }
  }

  lemma {:induction false} OthersDoNotUnbind(e: Env, attrs: seq<Attr>, prefix: string, url: string, ignore: bool)
    requires prefix in e.ns && e.ns[prefix] == url
    requires forall i :: 0 <= i < |attrs| ==> !ElseDeclared(attrs[i], prefix, url)
    ensures var e' := BoundAll(e, attrs, ignore); prefix in e'.ns && e'.ns[prefix] == url
    decreases |attrs|
  {
    hide Bound, ElseDeclared;
    if attrs != [] {
      BoundOther(e, attrs[0], prefix, url, ignore);
      OthersDoNotUnbind(Bound(e, attrs[0], ignore), attrs[1..], prefix, url, ignore);
    }
  }

  /** A prefix that is made shadows none. */
  lemma CreatedStays(isName: string -> bool, n: Names, space: string, isAttr: bool, prefix: string, url: string)
    requires prefix in n.env.ns && n.env.ns[prefix] == url
    ensures var e := Created(isName, n, space, isAttr).env; prefix in e.ns && e.ns[prefix] == url
  {
    CandidateFits(space, isName);
  }

  lemma {:induction false} CreatedAllStays(isName: string -> bool, n: Names, attrs: seq<Attr>, prefix: string,
                                           url: string)
    requires prefix in n.env.ns && n.env.ns[prefix] == url
    ensures var e := CreatedAll(isName, n, attrs).env; prefix in e.ns && e.ns[prefix] == url
    decreases |attrs|
  {
    hide Created;
    if attrs != [] {
      if NeedsPrefix(attrs[0].name) {
        CreatedStays(isName, n, attrs[0].name.space, true, prefix, url);
      }
      var n' := if NeedsPrefix(attrs[0].name) then Created(isName, n, attrs[0].name.space, true) else n;
      CreatedAllStays(isName, n', attrs[1..], prefix, url);
    }
  }

  /** A writer's bindings with those that its open elements bring back, innermost last. */
  datatype Writer = Writer(names: Names, saved: seq<Env>)

  const FRESH := Writer(Names(Env("", map[]), 0), [])

  /** The bindings after a token. */
  function Next(isName: string -> bool, w: Writer, t: Tag): Writer {
    match t
    case Start(name, attrs) => Writer(Inner(isName, w.names, name, attrs), w.saved + [w.names.env])
    case End(name) =>
      if w.saved == [] then w
      else Writer(Names(w.saved[|w.saved| - 1], w.names.seqNo), w.saved[..|w.saved| - 1])
  }

  /** Every start tag of a stream reads back with the bindings inside it. */
  predicate AllReadBack(isName: string -> bool, tokens: seq<Tag>, w: Writer)
    decreases |tokens|
  {
    tokens == [] ||
    var w' := Next(isName, w, tokens[0]);
    (tokens[0].Start? ==> TagReadsBack(w'.names.env, tokens[0].name, tokens[0].attrs)) &&
      AllReadBack(isName, tokens[1..], w')
  }

  class Printer {
    const isName: string -> bool
    var seqNo: nat
    var defaultNS: string
    var attrNS: Scope
    var attrPrefix: Scope
    var prefixes: seq<Record>
    var tags: seq<Name>
    var out: seq<Tag>
    ghost var saved: seq<Env>       // what was in force before each open element
    ghost var written: seq<Tag>     // the tokens encoded so far
    ghost var faithful: bool        // every start tag so far is one that reads back
    ghost var intact: bool          // no start tag has been given up half-way

    ghost function E(): Env
      reads this`defaultNS, this`attrNS
    {
      Env(defaultNS, attrNS)
    }

    ghost function N(): Names
      reads this`defaultNS, this`attrNS, this`seqNo
    {
      Names(E(), seqNo)
    }

    ghost function W(): Writer
      reads this`defaultNS, this`attrNS, this`seqNo, this`saved
    {
      Writer(N(), saved)
    }

    /** `attrNS` and `attrPrefix` are inverse to each other. */
    ghost predicate Inverse()
      reads this`attrNS, this`attrPrefix
    {
      && (forall p :: p in attrNS ==> attrNS[p] in attrPrefix && attrPrefix[attrNS[p]] == p)
      && (forall u :: u in attrPrefix ==> attrPrefix[u] in attrNS && attrNS[attrPrefix[u]] == u)
    }

    /** All of the namespace state. */
    ghost predicate Scoped()
      reads this`defaultNS, this`attrNS, this`attrPrefix, this`prefixes, this`saved
    {
      Sound(E()) && Inverse() && Unwinds(prefixes, E(), saved)
    }

    method SetAttrPrefix(prefix: string, url: string)
      requires Sound(E()) && Inverse()
      requires prefix == "" || url !in attrPrefix || attrPrefix[url] == prefix
      requires prefix == "xmlns" ==> url == ""
      modifies this`defaultNS, this`attrNS, this`attrPrefix
      ensures Sound(E()) && Inverse() && E() == old(E()).Set(prefix, url)
    {
      if prefix == "" {
        defaultNS := url;
        return;
      }
      var was := if prefix in attrNS then attrNS[prefix] else "";
      if url == "" {
        attrPrefix := attrPrefix - {was};
        attrNS := attrNS - {prefix};
        return;
      }
      attrPrefix := attrPrefix - {was};
      attrPrefix := attrPrefix[url := prefix];
      attrNS := attrNS[prefix := url];
    }

    /** A namespace that may be brought back to a prefix has no other prefix now. */
    lemma FreeToRestore(prefix: string, url: string)
      requires Sound(E()) && Inverse() && Sound(E().Set(prefix, url)) && prefix != ""
      ensures url !in attrPrefix || attrPrefix[url] == prefix
    {
      if url in attrPrefix {
        var q := attrPrefix[url];
        assert attrNS[q] == url != "";
        var e := E().Set(prefix, url);
        assert prefix in e.ns && e.ns[prefix] == url && q in e.ns && e.ns[q] == url;
      }
    }

    function NsForPrefix(prefix: string): string
      reads this
    {
      if prefix == "" then defaultNS else if prefix in attrNS then attrNS[prefix] else ""
    }

    method PushPrefix(prefix: string, url: string)
      requires Scoped() && prefix != "xmlns" && (prefix == "" || (url != "" && url !in attrPrefix))
      modifies this`defaultNS, this`attrNS, this`attrPrefix, this`prefixes
      ensures Scoped() && E() == old(E()).Set(prefix, url)
      ensures prefixes == old(prefixes) + [Undo(prefix, old(E()).Of(prefix))]
    {
      hide Unwinds, Sound;
      UnwindsPush(prefixes, E(), saved, prefix, url);
      prefixes := prefixes + [Undo(prefix, NsForPrefix(prefix))];
      SetAttrPrefix(prefix, url);
    }

    method MarkPrefix()
      requires Scoped()
      modifies this`prefixes, this`saved
      ensures Scoped() && prefixes == old(prefixes) + [Mark] && saved == old(saved) + [E()]
    {
      UnwindsMark(prefixes, E(), saved);
      prefixes := prefixes + [Mark];
      saved := saved + [E()];
    }

    /** Undoes everything since the innermost mark: the environment is exactly what it was there. */
    method PopPrefix()
      requires Scoped() && saved != []
      modifies this`defaultNS, this`attrNS, this`attrPrefix, this`prefixes, this`saved
      ensures Scoped() && E() == old(saved)[|old(saved)| - 1] && saved == old(saved)[..|old(saved)| - 1]
    {
      while |prefixes| > 0
        invariant Scoped() && saved == old(saved)
        decreases |prefixes|
      {
        var prefix := prefixes[|prefixes| - 1];
        prefixes := prefixes[..|prefixes| - 1];
        if prefix.Mark? {
          saved := saved[..|saved| - 1];
          return;
        }
        if prefix.prefix != "" {
          FreeToRestore(prefix.prefix, prefix.url);
        }
        SetAttrPrefix(prefix.prefix, prefix.url);
      }
    }

    // ---------- declaring namespaces ----------

    /** What has happened to the environment `e` since the log was `log`: only what the log records. */
    ghost predicate Since(log: seq<Record>, e: Env)
      reads this`defaultNS, this`attrNS, this`prefixes
    {
      && |log| <= |prefixes| && prefixes[..|log|] == log
      && (forall i :: |log| <= i < |prefixes| ==>
            prefixes[i].Undo? && (prefixes[i].prefix == "" || prefixes[i].prefix in attrNS))
      && (forall p :: Logged(prefixes[|log|..], p) || SameAt(e, E(), p))
    }

    method Push(prefix: string, url: string, ghost log: seq<Record>, ghost e: Env)
      requires Scoped() && Since(log, e)
      requires prefix != "xmlns" && (prefix == "" || (url != "" && url !in attrPrefix))
      modifies this`defaultNS, this`attrNS, this`attrPrefix, this`prefixes
      ensures Scoped() && E() == old(E()).Set(prefix, url) && Since(log, e)
    {
      hide Unwinds, Sound, Logged;
      PushPrefix(prefix, url);
      ghost var was := old(E()).Of(prefix);
      assert prefixes[|log|..] == old(prefixes)[|log|..] + [Undo(prefix, was)];
      LoggedSnoc(old(prefixes)[|log|..], prefix, was);
    }

    /** An attribute called "xmlns" in a namespace of its own is an error. */
    static predicate Redefines(attr: Attr) {
      attr.name.local == "xmlns" && attr.name.space != "" && attr.name.space != "xml" && attr.name.space != XML_URL
    }

    method DefineNS(attr: Attr, ignoreNonEmptyDefault: bool, ghost log: seq<Record>, ghost e: Env) returns (ok: bool)
      requires Scoped() && Since(log, e)
      modifies this`defaultNS, this`attrNS, this`attrPrefix, this`prefixes
      ensures Scoped() && Since(log, e)
      ensures ok <==> !Redefines(attr)
      ensures E() == if ok then Bound(old(E()), attr, ignoreNonEmptyDefault) else old(E())
    {
      hide Unwinds, Sound, Logged;
      var prefix := "";
      if attr.name.local == "xmlns" {
        if attr.name.space != "" && attr.name.space != "xml" && attr.name.space != XML_URL {
          return false;
        }
      } else if attr.name.space == "xmlns" && attr.name.local != "" {
        prefix := attr.name.local;
        if attr.value == "" {
          return true;
        }
      } else {
        return true;
      }
      if prefix == "" {
        if attr.value == defaultNS {
          return true;
        }
        if attr.value != "" && ignoreNonEmptyDefault {
          return true;
        }
      } else {
        HasPrefix(attr.value);
        if attr.value in attrPrefix {
          return true;
        }
      }
      Push(prefix, attr.value, log, e);
      return true;
    }

    lemma HasPrefix(url: string)
      requires Inverse()
      ensures url in attrPrefix <==> url in attrNS.Values
    {
      if url in attrPrefix {
        assert attrNS[attrPrefix[url]] == url;
      }
    }

    /** The next free numbered prefix. */
    method FreePrefix(prefix: string) returns (id: string)
      requires FitPrefix(prefix) && Sound(E())
      modifies this`seqNo
      ensures seqNo == FirstFree(attrNS, prefix, old(seqNo) + 1) && id == Numbered(prefix, seqNo)
      ensures FitPrefix(id) && id !in attrNS
    {
      hide Numbered, FitPrefix;
      seqNo := seqNo + 1;
      while true
        invariant FirstFree(attrNS, prefix, seqNo) == FirstFree(attrNS, prefix, old(seqNo) + 1)
        decreases |Taken(attrNS, prefix, seqNo)|
      {
        id := Numbered(prefix, seqNo);
        NumberedFits(prefix, seqNo);
        if (if id in attrNS then attrNS[id] else "") == "" {
          return;
        }
        TakenShrinks(attrNS, prefix, seqNo);
        seqNo := seqNo + 1;
      }
    }

    method CreateNSPrefix(url: string, isAttr: bool, ghost log: seq<Record>, ghost e: Env)
      requires Scoped() && Since(log, e) && (isAttr ==> url != "")
      modifies this`defaultNS, this`attrNS, this`attrPrefix, this`prefixes, this`seqNo
      ensures Scoped() && Since(log, e)
      ensures N() == Created(isName, old(N()), url, isAttr)
      ensures isAttr || url != "" ==> defaultNS == old(defaultNS)
      ensures forall p :: p in old(attrNS) ==> p in attrNS && attrNS[p] == old(attrNS)[p]
      ensures url == XML_URL || (!isAttr && url == defaultNS) || url in attrPrefix
    {
      hide Unwinds, Logged, Candidate, FitPrefix, Numbered;
      HasPrefix(url);
      if url in attrPrefix {
        assert attrNS[attrPrefix[url]] == url;
        return;
      }
      if !isAttr && url == defaultNS {
        return;
      }
      if url == "" {
        if defaultNS != "" {
          Push("", "", log, e);
        }
        return;
      }
      if url == XML_URL {
        return;
      }
      var prefix := Candidate(url, isName);
      CandidateFits(url, isName);
      if prefix in attrNS && attrNS[prefix] != "" {
        prefix := FreePrefix(prefix);
      }
      FitNonEmpty(prefix);
      FitIsUnreserved(prefix);
      Push(prefix, url, log, e);
      assert attrNS[prefix] == url;
    }

    // ---------- writing names ----------

    function PrefixForNS(url: string, isAttr: bool): string
      reads this`defaultNS, this`attrPrefix
    {
      if url == XML_URL then "xml"
      else if !isAttr && url == defaultNS then ""
      else if url in attrPrefix then attrPrefix[url] else ""
    }

    /** A name in this namespace can be written. */
    ghost predicate Covered(url: string, isAttr: bool)
      reads this`defaultNS, this`attrPrefix
    {
      url == XML_URL || (isAttr && url == "") || (!isAttr && url == defaultNS) || url in attrPrefix
    }

    lemma CoveredSpells(url: string, isAttr: bool)
      requires Sound(E()) && Inverse() && Covered(url, isAttr)
      ensures Spells(E(), PrefixForNS(url, isAttr), url, !isAttr)
    {
      if url in attrPrefix {
        assert attrNS[attrPrefix[url]] == url;
      }
    }

    /** One declaration for each record since the mark, with the namespace now in force. */
    method WriteNamespaces(ghost log: seq<Record>, ghost e: Env) returns (decls: seq<Attr>)
      requires Scoped() && Since(log, e) && log != [] && log[|log| - 1] == Mark
      ensures forall i :: 0 <= i < |decls| ==> DeclOf(E(), decls[i])
      ensures forall p :: !Declared(decls, p) ==> SameAt(e, E(), p)
    {
      hide Scoped;
      decls := [];
      var i := |prefixes| - 1;
      while i >= 0
        invariant |log| - 1 <= i < |prefixes|
        invariant forall k :: 0 <= k < |decls| ==> DeclOf(E(), decls[k])
        invariant forall k :: i < k < |prefixes| ==> Declared(decls, prefixes[k].prefix)
      {
        var prefix := prefixes[i];
        if prefix.Mark? {
          break;
        }
        var d := Attr(DeclName(prefix.prefix), NsForPrefix(prefix.prefix));
        DeclaredSnoc(decls, prefix.prefix, d.value);
        decls := decls + [d];
        i := i - 1;
      }
      forall p
        ensures Declared(decls, p) || SameAt(e, E(), p)
      {
        if Logged(prefixes[|log|..], p) {
          var k :| 0 <= k < |prefixes[|log|..]| && prefixes[|log|..][k].Undo? && prefixes[|log|..][k].prefix == p;
          assert prefixes[|log| + k].prefix == p;
        }
      }
    }

    method WriteAttrs(attrs: seq<Attr>) returns (raws: seq<Attr>)
      requires Sound(E()) && Inverse()
      requires forall i :: 0 <= i < |attrs| && !IsNamespace(attrs[i].name) ==> Covered(attrs[i].name.space, true)
      ensures SpellsAttrs(E(), raws, PlainAttrs(attrs))
    {
      hide Spells, Sound, IsNamespace;
      raws := [];
      assert attrs[..|attrs|] == attrs;
      for i := 0 to |attrs|
        invariant SpellsAttrs(E(), raws, PlainAttrs(attrs[..i]))
      {
        var name := attrs[i].name;
        PlainSnoc(attrs[..i], attrs[i]);
        assert attrs[..i + 1] == attrs[..i] + [attrs[i]];
        if name.local == "" || IsNamespace(name) {
          continue;
        }
        CoveredSpells(name.space, true);
        raws := raws + [Attr(Name(PrefixForNS(name.space, true), name.local), attrs[i].value)];
      }
    }

    // ---------- tags ----------

    static predicate Rejected(name: Name, attrs: seq<Attr>) {
      name.local == "" || exists i :: 0 <= i < |attrs| && Redefines(attrs[i])
    }

    method DefineAll(attrs: seq<Attr>, ignoreNonEmptyDefault: bool, ghost log: seq<Record>, ghost e: Env)
      returns (ok: bool)
      requires Scoped() && Since(log, e)
      modifies this`defaultNS, this`attrNS, this`attrPrefix, this`prefixes
      ensures Scoped() && Since(log, e)
      ensures ok <==> forall i :: 0 <= i < |attrs| ==> !Redefines(attrs[i])
      ensures ok ==> E() == BoundAll(old(E()), attrs, ignoreNonEmptyDefault)
    {
      hide Scoped, Since, Redefines, Bound;
      for i := 0 to |attrs|
        invariant Scoped() && Since(log, e)
        invariant forall k :: 0 <= k < i ==> !Redefines(attrs[k])
        invariant BoundAll(old(E()), attrs, ignoreNonEmptyDefault) == BoundAll(E(), attrs[i..], ignoreNonEmptyDefault)
      {
        assert attrs[i..][1..] == attrs[i + 1..];
        ok := DefineNS(attrs[i], ignoreNonEmptyDefault, log, e);
        if !ok {
          return;
        }
      }
      return true;
    }

    method CreateAll(attrs: seq<Attr>, ghost log: seq<Record>, ghost e: Env)
      requires Scoped() && Since(log, e)
      modifies this`defaultNS, this`attrNS, this`attrPrefix, this`prefixes, this`seqNo
      ensures Scoped() && Since(log, e) && N() == CreatedAll(isName, old(N()), attrs)
      ensures forall i :: 0 <= i < |attrs| && !IsNamespace(attrs[i].name) ==> Covered(attrs[i].name.space, true)
    {
      hide Since, IsNamespace, Sound, Unwinds, Created;
      for i := 0 to |attrs|
        invariant Scoped() && Since(log, e)
        invariant CreatedAll(isName, old(N()), attrs) == CreatedAll(isName, N(), attrs[i..])
        invariant forall k :: 0 <= k < i && !IsNamespace(attrs[k].name) ==> Covered(attrs[k].name.space, true)
      {
        var name := attrs[i].name;
        assert attrs[i..][1..] == attrs[i + 1..];
        if name.space != "" && !IsNamespace(name) {
          ghost var before := attrNS;
          StillCovered(before);
          CreateNSPrefix(name.space, true, log, e);
          StillCovered(before);
        }
      }
    }

    /** Namespaces that had a prefix keep it as long as no prefix is rebound. */
    lemma StillCovered(before: Scope)
      requires Inverse() && forall p :: p in before ==> p in attrNS && attrNS[p] == before[p]
      ensures forall p :: p in before ==> before[p] in attrPrefix
      ensures before == attrNS ==> forall u :: u in attrPrefix ==> u in before.Values
    {}

    /**
     The namespace state is sound and its log unwinds to what was in force before each open
     element.  If all start tags so far are ones that read back, a reader of the output gets
     the tokens that were written, with the same namespace bindings in force at this point;
     and if not, it does not get them.
     */
    ghost predicate Valid()
      reads this
    {
      && Scoped() && |tags| == |saved|
      && (faithful && intact ==> ReadsBack(ReadAll(out), E(), saved, tags, written) && EndsSpelled(E(), saved, tags))
      && (!faithful ==> !Returns(ReadAll(out), written))
    }

    constructor (isName: string -> bool)
      ensures Valid() && faithful && intact && out == [] && written == [] && tags == []
      ensures W() == FRESH && this.isName == isName
    {
      this.isName := isName;
      seqNo, defaultNS, attrNS, attrPrefix := 0, "", map[], map[];
      prefixes, tags, out, saved, written, faithful, intact := [], [], [], [], [], true, true;
    }

    lemma OutExtends(raw: Tag)
      ensures ReadAll(out + [raw]) == Extend(ReadAll(out), raw)
    {
      assert (out + [raw])[..|out|] == out;
    }

    method SpellStart(name: Name, attrs: seq<Attr>, ghost log: seq<Record>, ghost e: Env)
      returns (prefix: string, decls: seq<Attr>, raws: seq<Attr>)
      requires Scoped() && Since(log, e) && log != [] && log[|log| - 1] == Mark
      requires forall i :: 0 <= i < |attrs| && !IsNamespace(attrs[i].name) ==> Covered(attrs[i].name.space, true)
      requires Covered(name.space, false)
      ensures Spells(E(), prefix, name.space, true) && SpellsAttrs(E(), raws, PlainAttrs(attrs))
      ensures forall i :: 0 <= i < |decls| ==> DeclOf(E(), decls[i])
      ensures forall p :: !Declared(decls, p) ==> SameAt(e, E(), p)
    {
      hide Unwinds, Spells, SpellsAttrs, DeclOf, Declared, PlainAttrs, Covered, Since;
      CoveredSpells(name.space, false);
      prefix := PrefixForNS(name.space, false);
      decls := WriteNamespaces(log, e);
      raws := WriteAttrs(attrs);
    }

    /** Brings the namespaces of a start tag into force: the declared ones, then those its names need. */
    method OpenScope(name: Name, attrs: seq<Attr>, ghost log: seq<Record>, ghost e: Env) returns (ok: bool)
      requires Scoped() && Since(log, e)
      modifies this`defaultNS, this`attrNS, this`attrPrefix, this`prefixes, this`seqNo
      ensures Scoped() && Since(log, e)
      ensures ok <==> forall i :: 0 <= i < |attrs| ==> !Redefines(attrs[i])
      ensures ok ==> forall i :: 0 <= i < |attrs| && !IsNamespace(attrs[i].name) ==> Covered(attrs[i].name.space, true)
      ensures ok ==> Covered(name.space, false) && N() == Inner(isName, old(N()), name, attrs)
    {
      hide Unwinds, Sound, Redefines, Since, IsNamespace, Created, CreatedAll, BoundAll;
      ok := DefineAll(attrs, name.space == "", log, e);
      if !ok {
        return;
      }
      CreateAll(attrs, log, e);
      ghost var before := attrNS;
      StillCovered(before);
      CreateNSPrefix(name.space, false, log, e);
      StillCovered(before);
    }

    lemma ValidParts()
      requires Valid()
      ensures Scoped() && |tags| == |saved|
      ensures faithful && intact ==> ReadsBack(ReadAll(out), E(), saved, tags, written) && EndsSpelled(E(), saved, tags)
      ensures !faithful ==> !Returns(ReadAll(out), written)
    {}

    lemma PartsValid()
      requires Scoped() && |tags| == |saved|
      requires faithful && intact ==>
        ReadsBack(ReadAll(out), E(), saved, tags, written) && EndsSpelled(E(), saved, tags)
      requires !faithful ==> !Returns(ReadAll(out), written)
      ensures Valid()
    {}

    static lemma StartConditions(name: Name, attrs: seq<Attr>)
      ensures Rejected(name, attrs) <==> name.local == "" || !(forall i :: 0 <= i < |attrs| ==> !Redefines(attrs[i]))
    {}

    lemma Parts()
      ensures W() == Writer(N(), saved) && N() == Names(E(), seqNo)
    {}

    lemma SinceNow()
      ensures Since(prefixes, E())
    {}

    method EmitStart(name: Name, attrs: seq<Attr>, ghost log: seq<Record>, ghost e: Env, ghost outer: seq<Env>,
                     ghost outerTags: seq<Name>)
      requires Scoped() && Since(log, e) && log != [] && log[|log| - 1] == Mark
      requires forall i :: 0 <= i < |attrs| && !IsNamespace(attrs[i].name) ==> Covered(attrs[i].name.space, true)
      requires Covered(name.space, false)
      modifies this`out
      ensures |out| == old(|out|) + 1 && CanSpell(E(), name.space)
      ensures ReadsBack(ReadAll(old(out)), e, outer, outerTags, written) && TagReadsBack(E(), name, attrs) ==>
        ReadsBack(ReadAll(out), E(), outer + [e], outerTags + [name], written + [Start(name, attrs)])
      ensures ReadsBack(ReadAll(old(out)), e, outer, outerTags, written) && !TagReadsBack(E(), name, attrs) ==>
        !Returns(ReadAll(out), written + [Start(name, attrs)])
      ensures !Returns(ReadAll(old(out)), written) ==> !Returns(ReadAll(out), written + [Start(name, attrs)])
    {
      hide *;
      var prefix, decls, raws := SpellStart(name, attrs, log, e);
      var raw := Start(Name(prefix, name.local), decls + raws);
      OutExtends(raw);
      ScopedEnv();
      CoveredCanSpell(name.space);
      if ReadsBack(ReadAll(out), e, outer, outerTags, written) {
        StartReadsBack(ReadAll(out), e, E(), outer, outerTags, written, prefix, name, attrs, decls, raws);
      }
      if !Returns(ReadAll(out), written) {
        LostStaysLost(ReadAll(out), raw, written, Start(name, attrs));
      }
      out := out + [raw];
    }

    lemma ScopedEnv()
      requires Scoped()
      ensures Sound(E()) && E() == Env(defaultNS, attrNS)
    {}

    method WriteStart(name: Name, attrs: seq<Attr>) returns (ok: bool)
      requires Valid()
      modifies this
      ensures Valid()
      ensures ok <==> !Rejected(name, attrs)
      ensures if ok then written == old(written) + [Start(name, attrs)] && tags == old(tags) + [name] &&
        |out| == old(|out|) + 1
              else out == old(out) && written == old(written)
      ensures ok ==> W() == Next(isName, old(W()), Start(name, attrs)) && intact == old(intact)
      ensures ok && intact ==> faithful == (old(faithful) && TagReadsBack(E(), name, attrs))
    {
      hide *;
      StartConditions(name, attrs);
      if name.local == "" {
        return false;
      }
      ValidParts();
      Parts();
      ghost var e := E();
      tags := tags + [name];
      MarkPrefix();
      ghost var log := prefixes;
      SinceNow();
      ok := OpenScope(name, attrs, log, e);
      if !ok {
        intact := false;
        PartsValid();
        return;
      }
      EmitStart(name, attrs, log, e, old(saved), old(tags));
      faithful := faithful && (intact ==> TagReadsBack(E(), name, attrs));
      written := written + [Start(name, attrs)];
      if faithful && intact {
        TagParts(E(), name, attrs);
        EndsPush(e, E(), old(saved), old(tags), name);
      }
      StartNext(old(W()), name, attrs);
      PartsValid();
    }

    /** Ends the innermost element, and with it everything its start tag brought into force. */
    method WriteEnd(name: Name) returns (ok: bool)
      requires Valid()
      modifies this
      ensures Valid()
      ensures ok <==> name.local != "" && old(tags) != [] && old(tags)[|old(tags)| - 1] == name
      ensures if ok then
                && tags == old(tags)[..|old(tags)| - 1] && E() == old(saved)[|old(tags)| - 1]
                && written == old(written) + [End(name)] && |out| == old(|out|) + 1
              else
                tags == old(tags) && E() == old(E()) && out == old(out) && written == old(written)
      ensures faithful == old(faithful) && intact == old(intact)
      ensures ok ==> W() == Next(isName, old(W()), End(name))
    {
      hide *;
      ValidParts();
      if name.local == "" {
        return false;
      }
      if |tags| == 0 || tags[|tags| - 1].local == "" {
        return false;
      }
      if tags[|tags| - 1] != name {
        return false;
      }

      Parts();
      ghost var e := E();
      EmitEnd(name);
      tags := tags[..|tags| - 1];
      if faithful && intact {
        EndsPop(e, saved, old(tags));
      }
      PopPrefix();
      written := written + [End(name)];
      EndNext(old(W()), name);
      PartsValid();
      return true;
    }

    method EmitEnd(name: Name)
      requires Scoped() && tags != [] && |tags| == |saved| && tags[|tags| - 1] == name
      modifies this`out
      ensures |out| == old(|out|) + 1
      ensures ReadsBack(ReadAll(old(out)), E(), saved, tags, written) && EndsSpelled(E(), saved, tags) ==>
        ReadsBack(ReadAll(out), saved[|saved| - 1], saved[..|saved| - 1], tags[..|tags| - 1], written + [End(name)])
      ensures !Returns(ReadAll(old(out)), written) ==> !Returns(ReadAll(out), written + [End(name)])
    {
      hide *;
      var prefix := PrefixForNS(name.space, false);
      OutExtends(End(Name(prefix, name.local)));
      if ReadsBack(ReadAll(out), E(), saved, tags, written) && EndsSpelled(E(), saved, tags) {
        EndsPop(E(), saved, tags);
        CanSpellCovered(name.space);
        CoveredSpells(name.space, false);
        EndReadsBack(ReadAll(out), E(), saved, tags, written, prefix, name);
      }
      if !Returns(ReadAll(out), written) {
        LostStaysLost(ReadAll(out), End(Name(prefix, name.local)), written, End(name));
      }
      out := out + [End(Name(prefix, name.local))];
    }

    lemma StartNext(w: Writer, name: Name, attrs: seq<Attr>)
      requires N() == Inner(isName, w.names, name, attrs) && saved == w.saved + [w.names.env]
      ensures W() == Next(isName, w, Start(name, attrs))
    {
      hide Inner;
    }

    lemma EndNext(w: Writer, name: Name)
      requires w.saved != [] && saved == w.saved[..|w.saved| - 1] && seqNo == w.names.seqNo
      requires E() == w.saved[|w.saved| - 1]
      ensures W() == Next(isName, w, End(name))
    {
      hide Inner;
    }

    lemma CanSpellCovered(url: string)
      requires Scoped() && CanSpell(E(), url)
      ensures Covered(url, false) && Sound(E()) && Inverse()
    {
      if url in attrNS.Values {
        var p :| p in attrNS && attrNS[p] == url;
      }
    }

    lemma CoveredCanSpell(url: string)
      requires Scoped() && Covered(url, false)
      ensures CanSpell(E(), url)
    {
      if url in attrPrefix {
        assert attrNS[attrPrefix[url]] == url;
      }
    }

    /** The innermost open element has this name. */
    static predicate Closes(name: Name, tags: seq<Name>) {
      name.local != "" && tags != [] && tags[|tags| - 1] == name
    }

    /** Encodes one token. */
    method EncodeToken(t: Tag) returns (ok: bool)
      requires Valid()
      modifies this
      ensures Valid()
      ensures ok <==> if t.Start? then !Rejected(t.name, t.attrs) else Closes(t.name, old(tags))
      ensures ok ==> tags == if t.Start? then old(tags) + [t.name] else old(tags)[..|old(tags)| - 1]
      ensures written == if ok then old(written) + [t] else old(written)
      ensures ok ==> W() == Next(isName, old(W()), t) && intact == old(intact)
      ensures ok && intact ==> faithful == (old(faithful) && (t.Start? ==> TagReadsBack(E(), t.name, t.attrs)))
    {
      hide Valid, Next, TagReadsBack, Rejected;
      match t
      case Start(name, attrs) => ok := WriteStart(name, attrs);
      case End(name) => ok := WriteEnd(name);
    }

    /**
     Reading back what has been written gives the same elements and attributes with the same
     namespaces exactly if every start tag reads back; and then the bindings in force for
     reader and writer agree.
     */
    lemma RoundTrip()
      requires Valid() && intact
      ensures Returns(ReadAll(out), written) <==> faithful
      ensures faithful ==>
        var rd := ReadAll(out);
        && Agree(E(), rd.reader.ns)
        && |rd.reader.open| == |tags| && forall i :: 0 <= i < |tags| ==>
          rd.reader.open[i] == Element(tags[i], rd.reader.open[i].outer)
    {}

    /** The prefix "xmlns" is never in force: its declaration is the one error, and no prefix made begins with "xml". */
    lemma XmlnsIsNoPrefix(name: Name, attrs: seq<Attr>, value: string)
      requires Valid()
      ensures "xmlns" !in attrNS && Rejected(name, attrs + [Attr(Name("xmlns", "xmlns"), value)])
    {
      var all := attrs + [Attr(Name("xmlns", "xmlns"), value)];
      assert Redefines(all[|attrs|]);
    }

    /** The two maps stay inverse to each other. */
    lemma Bijection(prefix: string, url: string)
      requires Valid()
      ensures prefix in attrNS && attrNS[prefix] == url <==> url in attrPrefix && attrPrefix[url] == prefix
    {}
  }

  /** Every end tag closes the innermost open element, and no start tag is rejected. */
  predicate Nested(tokens: seq<Tag>, open: seq<Name>)
    decreases |tokens|
  {
    tokens == [] ||
    match tokens[0]
    case Start(name, attrs) => !Printer.Rejected(name, attrs) && Nested(tokens[1..], open + [name])
    case End(name) => Printer.Closes(name, open) && Nested(tokens[1..], open[..|open| - 1])
  }

  /**
   Every well-nested stream is encoded, and reading the encoding gives the stream back
   exactly if each of its start tags reads back with the bindings inside it.
   */
  method Encode(isName: string -> bool, tokens: seq<Tag>) returns (ok: bool, raws: seq<Tag>)
    ensures ok <==> Nested(tokens, [])
    ensures ok ==> (Returns(ReadAll(raws), tokens) <==> AllReadBack(isName, tokens, FRESH))
  {
    hide *;
    var p := new Printer(isName);
    NestedAll(tokens);
    for i := 0 to |tokens|
      invariant fresh(p) && p.isName == isName && p.Valid() && p.intact && p.written == tokens[..i]
      invariant Nested(tokens, []) <==> Nested(tokens[i..], p.tags)
      invariant AllReadBack(isName, tokens, FRESH) <==> p.faithful && AllReadBack(isName, tokens[i..], p.W())
    {
      NestedStep(tokens, i, p.tags);
      AllReadBackStep(isName, tokens, i, p.W());
      ok := p.EncodeToken(tokens[i]);
      if !ok {
        return false, p.out;
      }
      p.Parts();
    }
    NestedEnd(tokens, p.tags);
    AllReadBackEnd(isName, tokens, p.W());
    p.RoundTrip();
    return true, p.out;
  }

  lemma AllReadBackStep(isName: string -> bool, tokens: seq<Tag>, i: nat, w: Writer)
    requires i < |tokens|
    ensures var w' := Next(isName, w, tokens[i]);
            AllReadBack(isName, tokens[i..], w) <==>
            (tokens[i].Start? ==> TagReadsBack(w'.names.env, tokens[i].name, tokens[i].attrs)) &&
              AllReadBack(isName, tokens[i + 1..], w')
  {
    hide Next, TagReadsBack;
    assert tokens[i..][1..] == tokens[i + 1..];
  }

  lemma AllReadBackEnd(isName: string -> bool, tokens: seq<Tag>, w: Writer)
    ensures AllReadBack(isName, tokens[|tokens|..], w)
  {}

  lemma NestedAll(tokens: seq<Tag>)
    ensures tokens[0..] == tokens && tokens[..0] == []
  {}

  lemma NestedStep(tokens: seq<Tag>, i: nat, open: seq<Name>)
    requires i < |tokens|
    ensures tokens[..i + 1] == tokens[..i] + [tokens[i]]
    ensures Nested(tokens[i..], open) <==>
            if tokens[i].Start? then !Printer.Rejected(tokens[i].name, tokens[i].attrs) &&
              Nested(tokens[i + 1..], open + [tokens[i].name])
            else Printer.Closes(tokens[i].name, open) && Nested(tokens[i + 1..], open[..|open| - 1])
  {
    hide Printer.Rejected, Printer.Closes;
    assert tokens[i..][1..] == tokens[i + 1..];
  }

  lemma NestedEnd(tokens: seq<Tag>, open: seq<Name>)
    ensures tokens[..|tokens|] == tokens && Nested(tokens[|tokens|..], open)
  {}

  // ---------- streams that read back ----------

  predicate DeclaresReserved(attr: Attr) {
    IsPrefixDecl(attr) && Reserved(attr.name.local)
  }

  predicate Undeclared(attrs: seq<Attr>) {
    forall i :: 0 <= i < |attrs| ==> !DeclaresReserved(attrs[i])
  }

  function DefaultAfter(dflt: string, attrs: seq<Attr>, ignoreNonEmptyDefault: bool): string
    decreases |attrs|
  {
    if attrs == [] then dflt
    else DefaultAfter(ExplicitDefault(dflt, attrs[0], ignoreNonEmptyDefault), attrs[1..], ignoreNonEmptyDefault)
  }

  /** The default namespace inside a start tag. */
  function DefaultInside(dflt: string, name: Name, attrs: seq<Attr>): string {
    if name.space == "" then "" else DefaultAfter(dflt, attrs, false)
  }

  lemma {:induction false} BoundAllKeeps(e: Env, attrs: seq<Attr>, ignoreNonEmptyDefault: bool)
    requires Unreserved(e) && Undeclared(attrs)
    ensures Unreserved(BoundAll(e, attrs, ignoreNonEmptyDefault))
    ensures BoundAll(e, attrs, ignoreNonEmptyDefault).dflt == DefaultAfter(e.dflt, attrs, ignoreNonEmptyDefault)
    decreases |attrs|
  {
    hide Reserved;
    if attrs != [] {
      assert !DeclaresReserved(attrs[0]);
      assert Undeclared(attrs[1..]);
      BoundAllKeeps(Bound(e, attrs[0], ignoreNonEmptyDefault), attrs[1..], ignoreNonEmptyDefault);
    }
  }

  lemma CreatedKeeps(isName: string -> bool, n: Names, url: string, isAttr: bool)
    requires Unreserved(n.env)
    ensures Unreserved(Created(isName, n, url, isAttr).env)
    ensures url != "" ==> Created(isName, n, url, isAttr).env.dflt == n.env.dflt
  {
    hide Candidate, Numbered, FitPrefix, Reserved, FirstFree;
    var p := Candidate(url, isName);
    CandidateFits(url, isName);
    FitIsUnreserved(p);
    FitNonEmpty(p);
    var k := FirstFree(n.env.ns, p, n.seqNo + 1);
    NumberedFits(p, k);
    FitIsUnreserved(Numbered(p, k));
    FitNonEmpty(Numbered(p, k));
  }

  lemma {:induction false} CreatedAllKeeps(isName: string -> bool, n: Names, attrs: seq<Attr>)
    requires Unreserved(n.env)
    ensures Unreserved(CreatedAll(isName, n, attrs).env) && CreatedAll(isName, n, attrs).env.dflt == n.env.dflt
    decreases |attrs|
  {
    hide Created, Unreserved;
    if attrs != [] {
      var url := attrs[0].name.space;
      if NeedsPrefix(attrs[0].name) {
        CreatedKeeps(isName, n, url, true);
        CreatedAllKeeps(isName, Created(isName, n, url, true), attrs[1..]);
      } else {
        CreatedAllKeeps(isName, n, attrs[1..]);
      }
    }
  }

  /**
   As long as no reserved prefix has been declared, a start tag that declares none reads back
   unless it is an element named "xmlns" in the default namespace inside it.
   */
  lemma UnreservedReadsBack(isName: string -> bool, n: Names, name: Name, attrs: seq<Attr>)
    requires Unreserved(n.env) && Undeclared(attrs)
    ensures var e := Inner(isName, n, name, attrs).env;
            Unreserved(e) && (TagReadsBack(e, name, attrs) <==> !Misread(name, DefaultInside(n.env.dflt, name, attrs)))
  {
    hide BoundAll, CreatedAll, Created, DefaultAfter, PlainAttrs, Undeclared, Unreserved;
    var e0 := BoundAll(n.env, attrs, name.space == "");
    BoundAllKeeps(n.env, attrs, name.space == "");
    var n1 := CreatedAll(isName, Names(e0, n.seqNo), attrs);
    CreatedAllKeeps(isName, Names(e0, n.seqNo), attrs);
    CreatedKeeps(isName, n1, name.space, false);
    UnreservedNames(Created(isName, n1, name.space, false).env);
  }

  lemma UnreservedNames(e: Env)
    requires Unreserved(e)
    ensures forall n :: NameReadsBack(e, n, false)
    ensures forall n :: NameReadsBack(e, n, true) <==> !Misread(n, e.dflt)
  {
    assert Reserved("xml") && Reserved(XML_URL);
  }

  /** A start tag that reads back whatever is in force around it, unless that is a reserved prefix. */
  predicate AlwaysReadable(name: Name, attrs: seq<Attr>) {
    Undeclared(attrs) && (name.local == "xmlns" ==> name.space == "" || name.space == XML_URL)
  }

  /** Streams that declare no reserved prefix, and name no element "xmlns" in a namespace, read back. */
  lemma {:induction false} AlwaysReadBack(isName: string -> bool, tokens: seq<Tag>, w: Writer)
    requires forall i :: 0 <= i < |tokens| && tokens[i].Start? ==> AlwaysReadable(tokens[i].name, tokens[i].attrs)
    requires Unreserved(w.names.env) && forall i :: 0 <= i < |w.saved| ==> Unreserved(w.saved[i])
    ensures AllReadBack(isName, tokens, w)
    decreases |tokens|
  {
    hide Inner, TagReadsBack, Unreserved;
    if tokens != [] {
      if tokens[0].Start? {
        assert AlwaysReadable(tokens[0].name, tokens[0].attrs);
        UnreservedReadsBack(isName, w.names, tokens[0].name, tokens[0].attrs);
      }
      AlwaysReadBack(isName, tokens[1..], Next(isName, w, tokens[0]));
    }
  }

  /** Declaring the prefix "xml" for another namespace loses a name in that namespace. */
  method EncodeDeclaredXml(isName: string -> bool, url: string, local: string) returns (raws: seq<Tag>)
    requires url != "" && url != XML_URL && local != ""
    ensures !Returns(ReadAll(raws), [Start(Name(url, local), [Attr(Name("xmlns", "xml"), url)])])
  {
    var name, attrs := Name(url, local), [Attr(Name("xmlns", "xml"), url)];
    DeclaredXmlIsLost(isName, url, local);
    var ok;
    ok, raws := Encode(isName, [Start(name, attrs)]);
  }

  lemma DeclaredXmlIsLost(isName: string -> bool, url: string, local: string)
    requires url != "" && url != XML_URL && local != ""
    ensures var tokens := [Start(Name(url, local), [Attr(Name("xmlns", "xml"), url)])];
            Nested(tokens, []) && !AllReadBack(isName, tokens, FRESH)
  {
    var name, attrs := Name(url, local), [Attr(Name("xmlns", "xml"), url)];
    var e := Env("", map["xml" := url]);
    assert attrs[1..] == [];
    assert BoundAll(FRESH.names.env, attrs, false) == BoundAll(e, [], false) == e by {
      assert Bound(FRESH.names.env, attrs[0], false) == e;
    }
    assert CreatedAll(isName, Names(e, 0), attrs) == CreatedAll(isName, Names(e, 0), []) == Names(e, 0);
    assert e.ns["xml"] == url;
    assert Created(isName, Names(e, 0), url, false) == Names(e, 0);
    assert Inner(isName, FRESH.names, name, attrs) == Names(e, 0);
    assert !NameReadsBack(e, name, true);
    OneStart(isName, name, attrs);
  }

  /** A namespace made the default by an element called "xmlns" loses that element. */
  method EncodeXmlnsElement(isName: string -> bool, url: string) returns (raws: seq<Tag>)
    requires url != "" && url != XML_URL
    ensures !Returns(ReadAll(raws), [Start(Name(url, "xmlns"), [Attr(Name("", "xmlns"), url)])])
  {
    var name, attrs := Name(url, "xmlns"), [Attr(Name("", "xmlns"), url)];
    XmlnsElementIsLost(isName, url);
    var ok;
    ok, raws := Encode(isName, [Start(name, attrs)]);
  }

  lemma XmlnsElementIsLost(isName: string -> bool, url: string)
    requires url != "" && url != XML_URL
    ensures var tokens := [Start(Name(url, "xmlns"), [Attr(Name("", "xmlns"), url)])];
            Nested(tokens, []) && !AllReadBack(isName, tokens, FRESH)
  {
    hide Inner, TagReadsBack;
    var name, attrs := Name(url, "xmlns"), [Attr(Name("", "xmlns"), url)];
    assert attrs[1..] == [];
    assert DefaultAfter("", attrs, false) == DefaultAfter(url, [], false) == url;
    UnreservedReadsBack(isName, FRESH.names, name, attrs);
    OneStart(isName, name, attrs);
  }

  /** A stream of one start tag. */
  lemma OneStart(isName: string -> bool, name: Name, attrs: seq<Attr>)
    ensures var tokens := [Start(name, attrs)];
            && (Nested(tokens, []) <==> !Printer.Rejected(name, attrs))
            && (AllReadBack(isName, tokens, FRESH) <==>
                  TagReadsBack(Inner(isName, FRESH.names, name, attrs).env, name, attrs))
  {
    hide Inner, TagReadsBack, Printer.Rejected;
    var tokens := [Start(name, attrs)];
    assert tokens[1..] == [];
    assert Nested([], [] + [name]);
  }
}
