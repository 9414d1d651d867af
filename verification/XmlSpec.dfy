/**
 Namespaces in XML 1.0 (section 6) for streams of start and end tags: what a tag stream
 means to a reader.  Tags are structured values: a prefix or namespace, a local name, and
 attributes.  Spelling, escaping and everything that is not a tag are not part of this module.
 */
module XmlSpec {
  import opened Wrappers

  /** In a raw tag `space` is the prefix as written; in a token it is the namespace. */
  datatype Name = Name(space: string, local: string)

  datatype Attr = Attr(name: Name, value: string)

  datatype Tag = Start(name: Name, attrs: seq<Attr>) | End(name: Name)

  const XML_URL := "http://www.w3.org/XML/1998/namespace"

  predicate IsNamespace(n: Name) {
    n.local == "xmlns" || n.space == "xmlns"
  }

  type Scope = map<string, string>

  // ---------- the reader ----------

  predicate IsPrefixDecl(a: Attr) {
    a.name.space == "xmlns"
  }

  predicate IsDefaultDecl(a: Attr) {
    a.name.space == "" && a.name.local == "xmlns"
  }

  function DeclareOne(ns: Scope, a: Attr): Scope {
    if IsPrefixDecl(a) then ns[a.name.local := a.value]
    else if IsDefaultDecl(a) then ns["" := a.value]
    else ns
  }

  function Declare(ns: Scope, attrs: seq<Attr>): Scope
    decreases |attrs|
  {
    if attrs == [] then ns else Declare(DeclareOne(ns, attrs[0]), attrs[1..])
  }

  function Lookup(ns: Scope, space: string): string {
    if space in ns then ns[space] else space
  }

  function Translate(ns: Scope, n: Name, isElement: bool): Name {
    if n.space == "xmlns" || (n.space == "" && !isElement) then n
    else if n.space == "xml" then Name(Lookup(ns, XML_URL), n.local)
    else if n.space == "" && n.local == "xmlns" then n
    else Name(Lookup(ns, n.space), n.local)
  }

  function TranslateAttrs(ns: Scope, attrs: seq<Attr>): (r: seq<Attr>)
    ensures |r| == |attrs|
  {
    seq(|attrs|, i requires 0 <= i < |attrs| => Attr(Translate(ns, attrs[i].name, false), attrs[i].value))
  }

  /** An element that has been opened, and the scope that its end tag brings back. */
  datatype Frame = Element(name: Name, outer: Scope) | Stop

  /** A reader: the scope in force, and the open elements, innermost last. */
  datatype Reader = Reader(ns: Scope, open: seq<Frame>)

  datatype Step = Token(reader: Reader, token: Tag) | Eof | Mismatch

  /** How a reader takes one raw tag. */
  function Read(r: Reader, raw: Tag): Step {
    if r.open != [] && r.open[|r.open| - 1].Stop? then Eof
    else match raw
      case Start(name, attrs) =>
        var ns := Declare(r.ns, attrs);
        var n := Translate(ns, name, true);
        Token(Reader(ns, r.open + [Element(n, r.ns)]), Start(n, TranslateAttrs(ns, attrs)))
      case End(name) =>
        var n := Translate(r.ns, name, true);
        if r.open == [] || r.open[|r.open| - 1].name != n then Mismatch
        else Token(Reader(r.open[|r.open| - 1].outer, r.open[..|r.open| - 1]), End(n))
  }

  datatype Reading = Reading(reader: Reader, tokens: seq<Tag>) | Failed

  function Extend(rd: Reading, raw: Tag): Reading {
    match rd
    case Failed => Failed
    case Reading(r, tokens) =>
      match Read(r, raw)
      case Token(r', t) => Reading(r', tokens + [t])
      case _ => Failed
  }

  /** What a fresh reader makes of a whole raw stream. */
  function ReadAll(raws: seq<Tag>): Reading {
    if raws == [] then Reading(Reader(map[], []), []) else Extend(ReadAll(raws[..|raws| - 1]), raws[|raws| - 1])
  }

  /** A tag without namespace declarations and without nameless attributes. */
  function Plain(t: Tag): Tag {
    match t
    case Start(n, attrs) => Start(n, PlainAttrs(attrs))
    case End(n) => t
  }

  function PlainAttrs(attrs: seq<Attr>): seq<Attr> {
    if attrs == [] then []
    else (if attrs[0].name.local == "" || IsNamespace(attrs[0].name) then [] else [attrs[0]]) + PlainAttrs(attrs[1..])
  }

  // ---------- nesting ----------

  /** The names of the elements that a stream leaves open, if each end tag is that of the innermost one. */
  function StillOpen(tokens: seq<Tag>): Option<seq<Name>> {
    if tokens == [] then Some([])
    else
      match StillOpen(tokens[..|tokens| - 1])
      case None => None
      case Some(open) =>
        var t := tokens[|tokens| - 1];
        if t.Start? then Some(open + [t.name])
        else if open != [] && open[|open| - 1] == t.name then Some(open[..|open| - 1]) else None
  }

  /** A reader accepts only nested streams, and knows which elements are open. */
  lemma {:induction false} ReadsOnlyNested(raws: seq<Tag>)
    requires ReadAll(raws).Reading?
    ensures var rd := ReadAll(raws);
            && StillOpen(rd.tokens).Some? && |StillOpen(rd.tokens).value| == |rd.reader.open|
            && forall i :: 0 <= i < |rd.reader.open| ==>
              rd.reader.open[i].Element? && rd.reader.open[i].name == StillOpen(rd.tokens).value[i]
  {
    hide Translate, TranslateAttrs, Declare;
    if raws != [] {
      ReadsOnlyNested(raws[..|raws| - 1]);
      var rd := ReadAll(raws);
      assert rd.tokens[..|rd.tokens| - 1] == ReadAll(raws[..|raws| - 1]).tokens;
    }
  }

  // ---------- prefixes that nobody declares ----------

  /** What a prefix is looked up as; "xml" stands for its namespace from the start. */
  function KeyOf(prefix: string): string {
    if prefix == "xml" then XML_URL else prefix
  }

  predicate Declares(t: Tag, key: string) {
    t.Start? && exists i :: 0 <= i < |t.attrs| && DeclaresKey(t.attrs[i], key)
  }

  predicate DeclaresKey(a: Attr, key: string) {
    (a.name.space == "xmlns" && a.name.local == key) || (a.name.space == "" && a.name.local == "xmlns" && key == "")
  }

  predicate Unbound(r: Reader, key: string) {
    key !in r.ns && forall i :: 0 <= i < |r.open| && r.open[i].Element? ==> key !in r.open[i].outer
  }

  /** A name with this prefix is given to the application with the prefix itself as its namespace. */
  predicate PrefixIsSpace(raw: Name, n: Name, prefix: string) {
    raw.space == prefix ==> n == Name(KeyOf(prefix), raw.local)
  }

  predicate PrefixKept(raw: Tag, t: Tag, prefix: string) {
    && PrefixIsSpace(raw.name, t.name, prefix)
    && (raw.Start? ==>
          && t.Start? && |t.attrs| == |raw.attrs|
          && forall i :: 0 <= i < |raw.attrs| ==> PrefixIsSpace(raw.attrs[i].name, t.attrs[i].name, prefix))
  }

  lemma {:induction false} DeclareOthers(ns: Scope, attrs: seq<Attr>, key: string)
    requires key !in ns && forall i :: 0 <= i < |attrs| ==> !DeclaresKey(attrs[i], key)
    ensures key !in Declare(ns, attrs)
    decreases |attrs|
  {
    if attrs != [] {
      assert !DeclaresKey(attrs[0], key);
      forall i | 0 <= i < |attrs[1..]|
        ensures !DeclaresKey(attrs[1..][i], key)
      {
        assert attrs[1..][i] == attrs[i + 1];
      }
      DeclareOthers(DeclareOne(ns, attrs[0]), attrs[1..], key);
    }
  }

  lemma UnboundStep(r: Reader, raw: Tag, prefix: string)
    requires Unbound(r, KeyOf(prefix)) && !Declares(raw, KeyOf(prefix)) && Read(r, raw).Token?
    ensures Unbound(Read(r, raw).reader, KeyOf(prefix)) && PrefixKept(raw, Read(r, raw).token, prefix)
  {
    hide Declare, KeyOf;
    assert KeyOf(prefix) == if prefix == "xml" then XML_URL else prefix by {
      KeyIs(prefix);
    }
    if raw.Start? {
      DeclareOthers(r.ns, raw.attrs, KeyOf(prefix));
    }
  }

  lemma KeyIs(prefix: string)
    ensures KeyOf(prefix) == if prefix == "xml" then XML_URL else prefix
  {}

  /**
   A prefix that no tag of a stream declares becomes its own namespace, wherever it is used;
   "xml" becomes the XML namespace, and elements without a prefix have none.
   */
  lemma {:induction false} UndeclaredPrefix(raws: seq<Tag>, prefix: string)
    requires ReadAll(raws).Reading? && forall i :: 0 <= i < |raws| ==> !Declares(raws[i], KeyOf(prefix))
    ensures var rd := ReadAll(raws);
            && Unbound(rd.reader, KeyOf(prefix)) && |rd.tokens| == |raws|
            && forall i :: 0 <= i < |raws| ==> PrefixKept(raws[i], rd.tokens[i], prefix)
  {
    hide Read, Declares, PrefixKept, Unbound, KeyOf;
    if raws == [] {
      NothingBound(KeyOf(prefix));
    } else {
      UndeclaredPrefix(raws[..|raws| - 1], prefix);
      UnboundStep(ReadAll(raws[..|raws| - 1]).reader, raws[|raws| - 1], prefix);
    }
  }

  lemma NothingBound(key: string)
    ensures Unbound(Reader(map[], []), key)
  {}

  // ---------- the writer's environment ----------

  /** The default namespace and the prefixes that a writer has in force. */
  datatype Env = Env(dflt: string, ns: Scope) {

    function Of(prefix: string): string {
      if prefix == "" then dflt else if prefix in ns then ns[prefix] else ""
    }

    /** Binds a prefix, or the default; an empty namespace unbinds a prefix. */
    function Set(prefix: string, url: string): Env {
      if prefix == "" then Env(url, ns)
      else if url == "" then Env(dflt, ns - {prefix})
      else Env(dflt, ns[prefix := url])
    }
  }

  predicate Injective(ns: Scope) {
    forall p, q :: p in ns && q in ns && ns[p] == ns[q] ==> p == q
  }

  /** No prefix or namespace is empty, "xmlns" is not a prefix, and no namespace has two prefixes. */
  predicate Sound(e: Env) {
    && Injective(e.ns)
    && "" !in e.ns && "xmlns" !in e.ns && forall p :: p in e.ns ==> e.ns[p] != ""
  }

  lemma SetBack(e: Env, prefix: string, url: string)
    requires Sound(e)
    ensures e.Set(prefix, url).Set(prefix, e.Of(prefix)) == e
  {
    if prefix in e.ns {
      assert e.ns[prefix := url][prefix := e.ns[prefix]] == e.ns;
      assert (e.ns - {prefix})[prefix := e.ns[prefix]] == e.ns;
    } else {
      assert e.ns[prefix := url] - {prefix} == e.ns;
      assert e.ns - {prefix} - {prefix} == e.ns;
    }
  }

  /** A reader's scope says the same as a writer's environment. */
  predicate Agree(e: Env, ns: Scope) {
    && (forall p :: p in e.ns ==> p in ns && ns[p] == e.ns[p])
    && (forall p :: p in ns && p != "" ==> p in e.ns)
    && Default(ns) == e.dflt
  }

  function Default(ns: Scope): string {
    if "" in ns then ns[""] else ""
  }

  predicate Reserved(prefix: string) {
    prefix == "xml" || prefix == XML_URL
  }

  /** No prefix in force is one that readers treat specially. */
  predicate Unreserved(e: Env) {
    forall p :: p in e.ns ==> !Reserved(p)
  }

  // ---------- from writer to reader ----------

  /** `d` declares a binding that is in force in `e`. */
  predicate DeclOf(e: Env, d: Attr) {
    || (d.name == Name("", "xmlns") && d.value == e.dflt)
    || (d.name.space == "xmlns" && d.name.local in e.ns && d.value == e.ns[d.name.local])
  }

  predicate Declared(decls: seq<Attr>, prefix: string) {
    exists i :: 0 <= i < |decls| && decls[i].name == DeclName(prefix)
  }

  function DeclName(prefix: string): Name {
    if prefix == "" then Name("", "xmlns") else Name("xmlns", prefix)
  }

  predicate SameAt(e: Env, e': Env, prefix: string) {
    e.Of(prefix) == e'.Of(prefix) && (prefix in e.ns <==> prefix in e'.ns)
  }

  lemma {:induction false} DeclareAll(ns: Scope, e: Env, decls: seq<Attr>)
    requires "" !in e.ns && forall i :: 0 <= i < |decls| ==> DeclOf(e, decls[i])
    ensures var ns' := Declare(ns, decls);
            && (forall p :: Declared(decls, p) ==> p in ns' && ns'[p] == e.Of(p))
            && (forall p :: !Declared(decls, p) ==> (p in ns' <==> p in ns) && (p in ns ==> ns'[p] == ns[p]))
    decreases |decls|
  {
    if decls != [] {
      var d, rest := decls[0], decls[1..];
      var ns1 := DeclareOne(ns, d);
      assert DeclOf(e, d);
      DeclareAll(ns1, e, rest);
      forall p
        ensures Declared(decls, p) <==> d.name == DeclName(p) || Declared(rest, p)
      {
        if Declared(rest, p) {
          var i :| 0 <= i < |rest| && rest[i].name == DeclName(p);
          assert decls[i + 1].name == DeclName(p);
        }
        if Declared(decls, p) && d.name != DeclName(p) {
          var i :| 0 <= i < |decls| && decls[i].name == DeclName(p);
          assert rest[i - 1].name == DeclName(p);
        }
      }
    }
  }

  /** If the writer declares everything that it changed, its reader's scope follows. */
  lemma DeclareAgrees(e: Env, e': Env, ns: Scope, decls: seq<Attr>)
    requires Agree(e, ns) && Sound(e) && Sound(e')
    requires forall i :: 0 <= i < |decls| ==> DeclOf(e', decls[i])
    requires forall p :: !Declared(decls, p) ==> SameAt(e, e', p)
    ensures Agree(e', Declare(ns, decls))
  {
    hide Declare, Declared, DeclOf, SameAt;
    DeclareAll(ns, e', decls);
    forall p
      ensures Declared(decls, p) && p != "" ==> p in e'.ns
    {
      DeclaredIsBound(e', decls, p);
    }
    forall p
      ensures !Declared(decls, p) ==> e.Of(p) == e'.Of(p) && (p in e.ns <==> p in e'.ns)
    {
      Unchanged(e, e', p);
    }
  }

  lemma DeclaredIsBound(e: Env, decls: seq<Attr>, p: string)
    requires forall i :: 0 <= i < |decls| ==> DeclOf(e, decls[i])
    ensures Declared(decls, p) && p != "" ==> p in e.ns
  {
    if Declared(decls, p) {
      var i :| 0 <= i < |decls| && decls[i].name == DeclName(p);
      assert DeclOf(e, decls[i]);
    }
  }

  lemma Unchanged(e: Env, e': Env, p: string)
    ensures SameAt(e, e', p) ==> e.Of(p) == e'.Of(p) && (p in e.ns <==> p in e'.ns)
  {}

  lemma {:induction false} DeclareAppend(ns: Scope, a: seq<Attr>, b: seq<Attr>)
    ensures Declare(ns, a + b) == Declare(Declare(ns, a), b)
    decreases |a|
  {
    if a == [] {
      assert a + b == b;
    } else {
      assert (a + b)[1..] == a[1..] + b;
      DeclareAppend(DeclareOne(ns, a[0]), a[1..], b);
    }
  }

  lemma {:induction false} DeclareNothing(ns: Scope, attrs: seq<Attr>)
    requires forall i :: 0 <= i < |attrs| ==> !IsPrefixDecl(attrs[i]) && !IsDefaultDecl(attrs[i])
    ensures Declare(ns, attrs) == ns
    decreases |attrs|
  {
    if attrs != [] {
      DeclareNothing(ns, attrs[1..]);
    }
  }

  /** The prefix with which a writer spells a name in namespace `url`. */
  predicate Spells(e: Env, prefix: string, url: string, isElement: bool) {
    if url == XML_URL then prefix == "xml"
    else if isElement && url == e.dflt then prefix == ""
    else if url == "" then prefix == "" && !isElement
    else prefix in e.ns && e.ns[prefix] == url
  }

  /** An element called "xmlns" that is written without a prefix because its namespace is the default one. */
  predicate Misread(n: Name, dflt: string) {
    n.local == "xmlns" && n.space == dflt && n.space != "" && n.space != XML_URL
  }

  /**
   A name that a reader gives back when the bindings in `e` are in force.  Two are not: an
   element called "xmlns" in the default namespace, and a name spelled with a declared prefix
   "xml".  A prefix spelled like the XML namespace would hide that namespace from the reader;
   it can be declared only as long as tags are structured values.
   */
  predicate NameReadsBack(e: Env, n: Name, isElement: bool) {
    if n.space == XML_URL then XML_URL in e.ns ==> e.ns[XML_URL] == XML_URL
    else if isElement && n.space == e.dflt then !Misread(n, e.dflt)
    else n.space == "" || !("xml" in e.ns && e.ns["xml"] == n.space)
  }

  /** A reader gives a spelled name back in exactly these cases. */
  lemma TranslateSpelled(e: Env, ns: Scope, prefix: string, url: string, local: string, isElement: bool)
    requires Agree(e, ns) && Sound(e) && Spells(e, prefix, url, isElement)
    ensures Translate(ns, Name(prefix, local), isElement) == Name(url, local) <==>
      NameReadsBack(e, Name(url, local), isElement)
  {
    XmlUrlIsNoPrefix();
    if url != XML_URL && !(isElement && url == e.dflt) && url != "" {
      assert ("xml" in e.ns && e.ns["xml"] == url) <==> prefix == "xml";
    }
  }

  lemma XmlUrlIsNoPrefix()
    ensures XML_URL != "" && XML_URL != "xml" && XML_URL != "xmlns"
  {
    assert |XML_URL| == 36;
  }

  /** A start tag whose name and attributes all read back. */
  predicate TagReadsBack(e: Env, name: Name, attrs: seq<Attr>) {
    NameReadsBack(e, name, true) && AttrsReadBack(e, PlainAttrs(attrs))
  }

  predicate AttrsReadBack(e: Env, attrs: seq<Attr>) {
    forall i :: 0 <= i < |attrs| ==> NameReadsBack(e, attrs[i].name, false)
  }

  /** Written attributes spell the given ones, in order and with the same values. */
  predicate SpellsAttrs(e: Env, raws: seq<Attr>, attrs: seq<Attr>) {
    && |raws| == |attrs|
    && forall i :: 0 <= i < |attrs| ==>
      && raws[i].name.local == attrs[i].name.local && raws[i].value == attrs[i].value
      && Spells(e, raws[i].name.space, attrs[i].name.space, false)
  }

  // ---------- reading back what was written ----------

  predicate SameTokens(tokens: seq<Tag>, written: seq<Tag>) {
    |tokens| == |written| && forall i :: 0 <= i < |written| ==> Plain(tokens[i]) == Plain(written[i])
  }

  predicate EnvFits(e: Env, ns: Scope) {
    Sound(e) && Agree(e, ns)
  }

  predicate FramesFit(open: seq<Frame>, tags: seq<Name>, saved: seq<Env>) {
    && |open| == |tags| == |saved|
    && forall i :: 0 <= i < |open| ==> open[i].Element? && open[i].name == tags[i] && EnvFits(saved[i], open[i].outer)
  }

  /** The stream can be read, and gives the tokens that were written. */
  predicate Returns(rd: Reading, written: seq<Tag>) {
    rd.Reading? && SameTokens(rd.tokens, written)
  }

  /** The reading is of the tokens written, and reader and writer agree on what is in force, inside and out. */
  predicate ReadsBack(rd: Reading, e: Env, saved: seq<Env>, tags: seq<Name>, written: seq<Tag>) {
    && Returns(rd, written)
    && EnvFits(e, rd.reader.ns)
    && FramesFit(rd.reader.open, tags, saved)
  }

  lemma {:induction false} PlainAppend(a: seq<Attr>, b: seq<Attr>)
    ensures PlainAttrs(a + b) == PlainAttrs(a) + PlainAttrs(b)
    decreases |a|
  {
    if a == [] {
      assert a + b == b;
    } else {
      assert (a + b)[1..] == a[1..] + b;
      PlainAppend(a[1..], b);
    }
  }

  lemma PlainSnoc(attrs: seq<Attr>, a: Attr)
    ensures PlainAttrs(attrs + [a]) == PlainAttrs(attrs) + if a.name.local == "" || IsNamespace(a.name) then [] else [a]
  {
    hide IsNamespace;
    PlainAppend(attrs, [a]);
    assert [a][1..] == [];
  }

  lemma {:induction false} PlainNone(a: seq<Attr>)
    requires forall i :: 0 <= i < |a| ==> IsNamespace(a[i].name)
    ensures PlainAttrs(a) == []
  {
    if a != [] {
      PlainNone(a[1..]);
    }
  }

  lemma {:induction false} PlainAll(a: seq<Attr>)
    requires forall i :: 0 <= i < |a| ==> !IsNamespace(a[i].name) && a[i].name.local != ""
    ensures PlainAttrs(a) == a
  {
    if a != [] {
      PlainAll(a[1..]);
    }
  }

  lemma {:induction false} PlainIsPlain(a: seq<Attr>)
    ensures |PlainAttrs(a)| <= |a| && (|PlainAttrs(a)| == |a| ==> PlainAttrs(a) == a)
    ensures forall i :: 0 <= i < |PlainAttrs(a)| ==>
      !IsNamespace(PlainAttrs(a)[i].name) && PlainAttrs(a)[i].name.local != ""
  {
    if a != [] {
      PlainIsPlain(a[1..]);
    }
  }

  /** Declarations stay declarations, so what a reader gets as attributes is what it makes of the written ones. */
  lemma TranslateWritten(e: Env, ns: Scope, decls: seq<Attr>, raws: seq<Attr>)
    requires forall i :: 0 <= i < |decls| ==> DeclOf(e, decls[i])
    ensures PlainAttrs(TranslateAttrs(ns, decls + raws)) == PlainAttrs(TranslateAttrs(ns, raws))
  {
    hide PlainAttrs, DeclOf;
    var td, tr := TranslateAttrs(ns, decls), TranslateAttrs(ns, raws);
    assert TranslateAttrs(ns, decls + raws) == td + tr;
    PlainAppend(td, tr);
    TranslateDecls(e, ns, decls);
  }

  lemma TranslateDecls(e: Env, ns: Scope, decls: seq<Attr>)
    requires forall i :: 0 <= i < |decls| ==> DeclOf(e, decls[i])
    ensures PlainAttrs(TranslateAttrs(ns, decls)) == []
  {
    hide PlainAttrs;
    var td := TranslateAttrs(ns, decls);
    forall i | 0 <= i < |td|
      ensures IsNamespace(td[i].name)
    {
      assert DeclOf(e, decls[i]);
    }
    PlainNone(td);
  }

  /** Written attributes declare nothing. */
  predicate Undeclaring(raws: seq<Attr>) {
    forall i :: 0 <= i < |raws| ==> !IsPrefixDecl(raws[i]) && !IsDefaultDecl(raws[i])
  }

  /** Attributes that declare nothing come back as they were given exactly if all their names read back. */
  lemma TranslateRaws(e: Env, ns: Scope, raws: seq<Attr>, attrs: seq<Attr>)
    requires EnvFits(e, ns) && SpellsAttrs(e, raws, PlainAttrs(attrs))
    ensures TranslateAttrs(ns, raws) == PlainAttrs(attrs) <==> AttrsReadBack(e, PlainAttrs(attrs))
  {
    hide PlainAttrs, Sound, Agree, Spells, Translate, NameReadsBack;
    var tr, pa := TranslateAttrs(ns, raws), PlainAttrs(attrs);
    forall i | 0 <= i < |tr|
      ensures tr[i] == pa[i] <==> NameReadsBack(e, pa[i].name, false)
    {
      TranslateSpelled(e, ns, raws[i].name.space, pa[i].name.space, pa[i].name.local, false);
    }
    if AttrsReadBack(e, pa) {
      assert tr == pa;
    }
  }

  /** What a reader makes of written attributes is plain as a whole only if it is what was given. */
  lemma PlainOfTranslated(ns: Scope, raws: seq<Attr>, attrs: seq<Attr>)
    requires |raws| == |PlainAttrs(attrs)|
    ensures PlainAttrs(TranslateAttrs(ns, raws)) == PlainAttrs(attrs) <==> TranslateAttrs(ns, raws) == PlainAttrs(attrs)
  {
    hide PlainAttrs, Translate;
    var tr := TranslateAttrs(ns, raws);
    PlainIsPlain(tr);
    PlainIsPlain(attrs);
    if tr == PlainAttrs(attrs) {
      PlainAll(tr);
    }
  }

  /** Written attributes are none that a reader takes for declarations. */
  lemma RawsDeclareNothing(e: Env, raws: seq<Attr>, attrs: seq<Attr>)
    requires Sound(e) && SpellsAttrs(e, raws, PlainAttrs(attrs))
    ensures Undeclaring(raws)
  {
    hide PlainAttrs;
    var pa := PlainAttrs(attrs);
    PlainIsPlain(attrs);
    forall i | 0 <= i < |raws|
      ensures !IsPrefixDecl(raws[i]) && !IsDefaultDecl(raws[i])
    {
      assert Spells(e, raws[i].name.space, pa[i].name.space, false) && !IsNamespace(pa[i].name);
    }
  }

  /** The scope in which a reader takes a start tag, if its written attributes declare nothing. */
  lemma ScopeInside(ns: Scope, e: Env, e': Env, decls: seq<Attr>, raws: seq<Attr>)
    requires EnvFits(e, ns) && Sound(e') && Undeclaring(raws)
    requires forall i :: 0 <= i < |decls| ==> DeclOf(e', decls[i])
    requires forall p :: !Declared(decls, p) ==> SameAt(e, e', p)
    ensures EnvFits(e', Declare(ns, decls + raws))
  {
    hide Declare, Sound, DeclOf, Declared, SameAt;
    DeclareAppend(ns, decls, raws);
    DeclareNothing(Declare(ns, decls), raws);
    DeclareAgrees(e, e', ns, decls);
  }

  /** A start tag is read back exactly if its name and attributes read back in the environment inside it. */
  lemma StartMeaning(ns: Scope, e: Env, e': Env, prefix: string, name: Name, attrs: seq<Attr>, decls: seq<Attr>,
                     raws: seq<Attr>)
    requires EnvFits(e, ns) && Sound(e')
    requires forall i :: 0 <= i < |decls| ==> DeclOf(e', decls[i])
    requires forall p :: !Declared(decls, p) ==> SameAt(e, e', p)
    requires Spells(e', prefix, name.space, true) && SpellsAttrs(e', raws, PlainAttrs(attrs))
    ensures var ns' := Declare(ns, decls + raws);
            && (TagReadsBack(e', name, attrs) <==>
                  && Translate(ns', Name(prefix, name.local), true) == name
                  && PlainAttrs(TranslateAttrs(ns', decls + raws)) == PlainAttrs(attrs))
            && EnvFits(e', ns')
  {
    hide *;
    var ns' := Declare(ns, decls + raws);
    TagParts(e', name, attrs);
    SpelledLength(e', raws, PlainAttrs(attrs));
    TranslateWritten(e', ns', decls, raws);
    PlainOfTranslated(ns', raws, attrs);
    RawsDeclareNothing(e', raws, attrs);
    ScopeInside(ns, e, e', decls, raws);
    EnvFitsParts(e', ns');
    TranslateSpelled(e', ns', prefix, name.space, name.local, true);
    TranslateRaws(e', ns', raws, attrs);
  }

  lemma TagParts(e: Env, name: Name, attrs: seq<Attr>)
    ensures TagReadsBack(e, name, attrs) <==> NameReadsBack(e, name, true) && AttrsReadBack(e, PlainAttrs(attrs))
  {}

  lemma SpelledLength(e: Env, raws: seq<Attr>, attrs: seq<Attr>)
    requires SpellsAttrs(e, raws, attrs)
    ensures |raws| == |attrs|
  {}

  lemma EnvFitsParts(e: Env, ns: Scope)
    ensures EnvFits(e, ns) <==> Sound(e) && Agree(e, ns)
  {}

  /** After a start tag the stream reads back exactly if the tag does. */
  lemma StartReadsBack(rd: Reading, e: Env, e': Env, saved: seq<Env>, tags: seq<Name>, written: seq<Tag>,
                       prefix: string, name: Name, attrs: seq<Attr>, decls: seq<Attr>, raws: seq<Attr>)
    requires ReadsBack(rd, e, saved, tags, written) && Sound(e')
    requires forall i :: 0 <= i < |decls| ==> DeclOf(e', decls[i])
    requires forall p :: !Declared(decls, p) ==> SameAt(e, e', p)
    requires Spells(e', prefix, name.space, true) && SpellsAttrs(e', raws, PlainAttrs(attrs))
    ensures var rd' := Extend(rd, Start(Name(prefix, name.local), decls + raws));
            && (TagReadsBack(e', name, attrs) ==>
              ReadsBack(rd', e', saved + [e], tags + [name], written + [Start(name, attrs)]))
            && (!TagReadsBack(e', name, attrs) ==> !Returns(rd', written + [Start(name, attrs)]))
  {
    hide Declare, Sound, Agree, Spells, DeclOf, SpellsAttrs, PlainAttrs, TranslateAttrs, Translate, TagReadsBack,
      SameAt, Declared;
    var ns' := Declare(rd.reader.ns, decls + raws);
    StartMeaning(rd.reader.ns, e, e', prefix, name, attrs, decls, raws);
    var t := Start(Translate(ns', Name(prefix, name.local), true), TranslateAttrs(ns', decls + raws));
    SameSnoc(rd.tokens, t, written, Start(name, attrs));
  }

  lemma SameSnoc(tokens: seq<Tag>, t: Tag, written: seq<Tag>, w: Tag)
    ensures SameTokens(tokens + [t], written + [w]) <==> SameTokens(tokens, written) && Plain(t) == Plain(w)
  {
    if SameTokens(tokens + [t], written + [w]) {
      forall i | 0 <= i < |written|
        ensures Plain(tokens[i]) == Plain(written[i])
      {
        assert (tokens + [t])[i] == tokens[i] && (written + [w])[i] == written[i];
      }
      assert (tokens + [t])[|tokens|] == t && (written + [w])[|written|] == w;
    }
  }

  lemma EndReadsBack(rd: Reading, e: Env, saved: seq<Env>, tags: seq<Name>, written: seq<Tag>, prefix: string,
                     name: Name)
    requires ReadsBack(rd, e, saved, tags, written) && tags != [] && tags[|tags| - 1] == name
    requires Spells(e, prefix, name.space, true) && NameReadsBack(e, name, true)
    ensures ReadsBack(Extend(rd, End(Name(prefix, name.local))), saved[|saved| - 1], saved[..|saved| - 1],
      tags[..|tags| - 1], written + [End(name)])
  {
    hide NameReadsBack, Translate, Spells, Sound, Agree, PlainAttrs;
    TranslateSpelled(e, rd.reader.ns, prefix, name.space, name.local, true);
  }

  /** A stream that does not return its tokens never will. */
  lemma LostStaysLost(rd: Reading, raw: Tag, written: seq<Tag>, w: Tag)
    requires !Returns(rd, written)
    ensures !Returns(Extend(rd, raw), written + [w])
  {
    hide Read, SameTokens;
    if Extend(rd, raw).Reading? {
      SameSnoc(rd.tokens, Read(rd.reader, raw).token, written, w);
    }
  }

  /** Some prefix, or none, spells an element of this namespace. */
  predicate CanSpell(e: Env, url: string) {
    url == XML_URL || url == e.dflt || url in e.ns.Values
  }

  function Inside(saved: seq<Env>, e: Env, i: nat): Env
    requires i < |saved|
  {
    if i + 1 < |saved| then saved[i + 1] else e
  }

  /** The end tag of each open element can be written and read back. */
  predicate EndsSpelled(e: Env, saved: seq<Env>, tags: seq<Name>) {
    |tags| == |saved| && forall i :: 0 <= i < |tags| ==>
      CanSpell(Inside(saved, e, i), tags[i].space) && NameReadsBack(Inside(saved, e, i), tags[i], true)
  }

  lemma EndsPush(e: Env, e': Env, saved: seq<Env>, tags: seq<Name>, name: Name)
    requires EndsSpelled(e, saved, tags) && CanSpell(e', name.space) && NameReadsBack(e', name, true)
    ensures EndsSpelled(e', saved + [e], tags + [name])
  {
    hide CanSpell, NameReadsBack;
    forall i | 0 <= i < |tags|
      ensures Inside(saved + [e], e', i) == Inside(saved, e, i)
    {}
  }

  lemma EndsPop(e: Env, saved: seq<Env>, tags: seq<Name>)
    requires EndsSpelled(e, saved, tags) && tags != []
    ensures CanSpell(e, tags[|tags| - 1].space) && NameReadsBack(e, tags[|tags| - 1], true)
    ensures EndsSpelled(saved[|saved| - 1], saved[..|saved| - 1], tags[..|tags| - 1])
  {
    hide CanSpell, NameReadsBack;
    assert Inside(saved, e, |saved| - 1) == e;
    forall i | 0 <= i < |tags| - 1
      ensures Inside(saved[..|saved| - 1], saved[|saved| - 1], i) == Inside(saved, e, i)
    {}
  }
}
