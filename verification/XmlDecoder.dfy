/**
 The decoder's stack: open elements, below each the undo records of the declarations in
 its start tag, and injected end-of-file marks.  Cells that are popped go to a free list
 and are used again.  The decoder refines the reader of module XmlSpec.
 */
module XmlDecoder {
  import opened Wrappers
  import opened XmlSpec

  datatype Kind = StkStart | StkNs | StkEOF

  /** The content of a cell: an element, the old value of a prefix, or a mark. */
  datatype Rec = Elem(name: Name) | Old(prefix: string, url: string, ok: bool) | Mark

  function UndoOne(ns: Scope, prefix: string, url: string, ok: bool): Scope {
    if ok then ns[prefix := url] else ns - {prefix}
  }

  /** The records under an element, played back from `ns`, give the scope around it. */
  predicate UndoesTo(recs: seq<Rec>, ns: Scope, outer: Scope, open: seq<Frame>)
    decreases |recs|, 1
  {
    if recs != [] && recs[0].Old? then UndoesTo(recs[1..], UndoOne(ns, recs[0].prefix, recs[0].url, recs[0].ok),
      outer, open)
    else ns == outer && Stands(recs, ns, open)
  }

  /** The records, top first, stand for the open frames, innermost last. */
  predicate Stands(recs: seq<Rec>, ns: Scope, open: seq<Frame>)
    decreases |recs|, 0
  {
    if recs == [] then open == []
    else match recs[0]
      case Elem(n) =>
        && open != [] && open[|open| - 1].Element? && open[|open| - 1].name == n
        && UndoesTo(recs[1..], ns, open[|open| - 1].outer, open[..|open| - 1])
      case Mark => open != [] && open[|open| - 1] == Stop && Stands(recs[1..], ns, open[..|open| - 1])
      case Old(_, _, _) => false
  }

  // ---------- opening an element ----------

  lemma DeclarePush(recs: seq<Rec>, ns: Scope, outer: Scope, open: seq<Frame>, prefix: string, value: string)
    requires UndoesTo(recs, ns, outer, open)
    ensures var was := Old(prefix, if prefix in ns then ns[prefix] else "", prefix in ns);
            UndoesTo([was] + recs, ns[prefix := value], outer, open)
  {
    var was := Old(prefix, if prefix in ns then ns[prefix] else "", prefix in ns);
    assert ([was] + recs)[1..] == recs;
    assert UndoOne(ns[prefix := value], prefix, was.url, was.ok) == ns;
  }

  lemma StandsUndoes(recs: seq<Rec>, ns: Scope, open: seq<Frame>)
    requires Stands(recs, ns, open)
    ensures UndoesTo(recs, ns, ns, open)
  {}

  lemma ElementPush(recs: seq<Rec>, ns: Scope, outer: Scope, open: seq<Frame>, n: Name)
    requires UndoesTo(recs, ns, outer, open)
    ensures Stands([Elem(n)] + recs, ns, open + [Element(n, outer)])
  {
    assert ([Elem(n)] + recs)[1..] == recs;
    assert (open + [Element(n, outer)])[..|open|] == open;
  }

  // ---------- marking the end of an element ----------

  /** The frames with a mark under the innermost element. */
  function Marked(open: seq<Frame>): seq<Frame> {
    if open == [] then [] else if open[|open| - 1].Element? then open[..|open| - 1] + [Stop] + open[|open| - 1..]
    else Marked(open[..|open| - 1]) + [open[|open| - 1]]
  }

  predicate HasElement(open: seq<Frame>) {
    exists i :: 0 <= i < |open| && open[i].Element?
  }

  /** Where a mark goes: under the topmost element's record and the undo records below that. */
  function MarkAt(recs: seq<Rec>): nat
    decreases |recs|
  {
    if recs == [] then 0 else if recs[0].Elem? then 1 + OldRun(recs[1..]) else 1 + MarkAt(recs[1..])
  }

  function OldRun(recs: seq<Rec>): (n: nat)
    ensures n <= |recs|
    decreases |recs|
  {
    if recs != [] && recs[0].Old? then 1 + OldRun(recs[1..]) else 0
  }

  lemma {:induction false} MarkUnderUndo(recs: seq<Rec>, ns: Scope, outer: Scope, open: seq<Frame>)
    requires UndoesTo(recs, ns, outer, open)
    ensures UndoesTo(WithMark(recs, OldRun(recs)), ns, outer, open + [Stop])
    decreases |recs|
  {
    if recs != [] && recs[0].Old? {
      MarkUnderUndo(recs[1..], UndoOne(ns, recs[0].prefix, recs[0].url, recs[0].ok), outer, open);
      WithMarkTail(recs, OldRun(recs));
    } else {
      var marked := WithMark(recs, 0);
      assert marked == [Mark] + recs && marked[1..] == recs;
      assert (open + [Stop])[..|open|] == open;
    }
  }

  lemma {:induction false} MarkUnderElement(recs: seq<Rec>, ns: Scope, open: seq<Frame>)
    requires Stands(recs, ns, open) && HasElement(open)
    ensures MarkAt(recs) <= |recs| && Stands(WithMark(recs, MarkAt(recs)), ns, Marked(open))
    decreases |recs|
  {
    var inner, outer := open[|open| - 1], open[..|open| - 1];
    if recs[0].Elem? {
      MarkUnderUndo(recs[1..], ns, inner.outer, outer);
      WithMarkTail(recs, MarkAt(recs));
      assert Marked(open)[..|open|] == outer + [Stop];
    } else {
      var i :| 0 <= i < |open| && open[i].Element?;
      assert outer[i].Element?;
      MarkUnderElement(recs[1..], ns, outer);
      WithMarkTail(recs, MarkAt(recs));
      assert Marked(open)[..|Marked(open)| - 1] == Marked(outer);
    }
  }

  /** The records with a mark after the first `n`. */
  function WithMark(recs: seq<Rec>, n: nat): seq<Rec>
    requires n <= |recs|
  {
    recs[..n] + [Mark] + recs[n..]
  }

  lemma WithMarkTail(recs: seq<Rec>, n: nat)
    ensures 0 < n <= |recs| ==> WithMark(recs, n)[0] == recs[0] && WithMark(recs, n)[1..] == WithMark(recs[1..], n - 1)
  {
    if 0 < n <= |recs| {
      assert recs[..n][1..] == recs[1..][..n - 1];
    }
  }

  predicate HasElem(recs: seq<Rec>) {
    recs != [] && (recs[0].Elem? || HasElem(recs[1..]))
  }

  lemma {:induction false} ElementRec(recs: seq<Rec>, ns: Scope, open: seq<Frame>)
    requires Stands(recs, ns, open) && HasElement(open)
    ensures HasElem(recs)
    decreases |recs|
  {
    if !recs[0].Elem? {
      var i :| 0 <= i < |open| && open[i].Element?;
      assert open[..|open| - 1][i].Element?;
      ElementRec(recs[1..], ns, open[..|open| - 1]);
    }
  }

  // ---------- the cells ----------

  class Cell {
    var next: Cell?
    var kind: Kind
    var name: Name
    var ok: bool
    ghost var rank: int  // height above the bottom of the stack; negative in the free list

    constructor ()

    {
      next, kind, name, ok := null, StkStart, Name("", ""), false;
    }
  }

  function RecOf(kind: Kind, name: Name, ok: bool): Rec {
    match kind
    case StkStart => Elem(name)
    case StkNs => Old(name.local, name.space, ok)
    case StkEOF => Mark
  }

  /** The cells are linked in order, from `head` to null. */
  ghost predicate Chain(head: Cell?, cells: seq<Cell>)
    reads cells`next
  {
    && (if cells == [] then head == null else head == cells[0] && cells[|cells| - 1].next == null)
    && forall i :: 0 <= i < |cells| - 1 ==> cells[i].next == cells[i + 1]
  }

  datatype TokenResult = Got(token: Tag) | AtEof | SyntaxError

  class Decoder {
    var stk: Cell?
    var free: Cell?
    var ns: Scope
    var input: seq<Tag>
    var failed: bool
    ghost var live: seq<Cell>     // the stack, top first
    ghost var spare: seq<Cell>    // the free list
    ghost var recs: seq<Rec>      // what the live cells say
    ghost var open: seq<Frame>

    /** Stack and free list are two acyclic lists without a common cell. */
    ghost predicate Lists()
      reads this`stk, this`free, this`live, this`spare, live`next, spare`next, live`rank, spare`rank
    {
      && Chain(stk, live) && Chain(free, spare)
      && (forall i :: 0 <= i < |live| ==> live[i].rank == |live| - 1 - i)
      && (forall i :: 0 <= i < |spare| ==> spare[i].rank == i - |spare|)
    }

    ghost predicate Contents()
      reads this`live, this`recs, live`kind, live`name, live`ok
    {
      |recs| == |live| && forall i :: 0 <= i < |live| ==> recs[i] == RecOf(live[i].kind, live[i].name, live[i].ok)
    }

    ghost predicate Valid()
      reads this, live, spare
    {
      Lists() && Contents() && (!failed ==> Stands(recs, ns, open))
    }

    constructor (input: seq<Tag>)
      ensures Valid() && ns == map[] && open == [] && this.input == input && !failed
      ensures live == [] && spare == []
    {
      stk, free, ns, this.input, failed := null, null, map[], input, false;
      live, spare, recs, open := [], [], [], [];
    }

    /** In neither list. */
    ghost predicate Loose(s: Cell)
      reads this`live, this`spare
    {
      (forall i :: 0 <= i < |live| ==> live[i] != s) && (forall i :: 0 <= i < |spare| ==> spare[i] != s)
    }

    /** A cell from the free list, or a new one. */
    method Take() returns (s: Cell)
      requires Lists() && Contents()
      modifies this`free, this`spare
      ensures Lists() && Contents() && Loose(s) && (s in old(spare) || fresh(s))
      ensures spare == old(spare) || (old(spare) != [] && spare == old(spare)[1..])
    {
      if free != null {
        s := free;
        free := s.next;
        spare := spare[1..];
      } else {
        s := new Cell();
      }
    }

    twostate lemma ChainOnTop(new s: Cell)
      requires old(Lists()) && live == [s] + old(live) && stk == s && spare == old(spare) && free == old(free)
      requires s.next == old(stk) && s.rank == |old(live)|
      requires forall i :: 0 <= i < |old(live)| ==>
        old(live)[i].next == old(live[i].next) && old(live)[i].rank == old(live[i].rank)
      requires forall i :: 0 <= i < |spare| ==>
        spare[i].next == old(spare[i].next) && spare[i].rank == old(spare[i].rank)
      ensures Lists()
    {
      assert forall i :: 0 < i < |live| ==> live[i] == old(live)[i - 1];
    }

    twostate lemma ContentsOnTop(new s: Cell)
      requires old(Contents()) && live == [s] + old(live) && recs == [RecOf(s.kind, s.name, s.ok)] + old(recs)
      requires forall i :: 0 <= i < |old(live)| ==>
        old(live)[i].kind == old(live[i].kind) && old(live)[i].name == old(live[i].name) &&
          old(live)[i].ok == old(live[i].ok)
      ensures Contents()
    {
      assert forall i :: 0 < i < |live| ==> live[i] == old(live)[i - 1] && recs[i] == old(recs)[i - 1];
    }

    method Link(s: Cell, kind: Kind, name: Name, ok: bool)
      requires Lists() && Contents() && Loose(s)
      modifies this`stk, this`live, this`recs, s
      ensures Lists() && Contents() && recs == [RecOf(kind, name, ok)] + old(recs)
      ensures live == [s] + old(live)
    {
      hide Lists, Contents, RecOf;
      s.next := stk;
      s.kind := kind;
      stk := s;
      s.name := name;
      s.ok := ok;
      s.rank := |live|;
      live := [s] + live;
      recs := [RecOf(kind, name, ok)] + recs;
      ChainOnTop(s);
      ContentsOnTop(s);
    }

    method Push(kind: Kind, name: Name, ok: bool)
      requires Lists() && Contents()
      modifies this`stk, this`free, this`live, this`spare, this`recs, spare
      ensures Lists() && Contents() && recs == [RecOf(kind, name, ok)] + old(recs)
      ensures Fresh(old(live), old(spare))
    {
      hide Lists, Contents;
      var s := Take();
      Link(s, kind, name, ok);
    }

    /** Every cell in use now was in use before or is new. */
    twostate predicate Fresh(cells: seq<Cell>, cells': seq<Cell>)
      reads this`live, this`spare
    {
      && (forall i :: 0 <= i < |live| ==> live[i] in cells || live[i] in cells' || fresh(live[i]))
      && (forall i :: 0 <= i < |spare| ==> spare[i] in cells || spare[i] in cells' || fresh(spare[i]))
    }

    method Unlink() returns (s: Cell)
      requires Lists() && Contents() && live != []
      modifies this`stk, this`live, this`recs
      ensures Lists() && Contents() && recs == old(recs)[1..] && Loose(s)
      ensures RecOf(s.kind, s.name, s.ok) == old(recs)[0]
      ensures live == old(live)[1..] && s == old(live)[0]
    {
      s := stk;
      stk := s.next;
      live := live[1..];
      recs := recs[1..];
    }

    method Give(s: Cell)
      requires Lists() && Contents() && Loose(s)
      modifies this`free, this`spare, s`next, s`rank
      ensures Lists() && Contents() && spare == [s] + old(spare)
    {
      s.next := free;
      free := s;
      s.rank := -1 - |spare|;
      spare := [s] + spare;
    }

    method Pop() returns (s: Cell)
      requires Lists() && Contents() && live != []
      modifies this`stk, this`free, this`live, this`spare, this`recs, live`next, live`rank
      ensures Lists() && Contents() && recs == old(recs)[1..]
      ensures RecOf(s.kind, s.name, s.ok) == old(recs)[0]
      ensures live == old(live)[1..] && spare == [s] + old(spare) && s == old(live)[0]
    {
      s := Unlink();
      Give(s);
    }

    // ---------- tokens ----------

    lemma TopOf()
      requires Lists() && Contents()
      ensures stk == null <==> recs == []
      ensures recs != [] ==> live != [] && stk == live[0] && recs[0] == RecOf(stk.kind, stk.name, stk.ok)
    {}

    /** Records each declaration's old value and brings the new one into force. */
    method DeclareAttrs(attrs: seq<Attr>)
      requires Lists() && Contents() && Stands(recs, ns, open)
      modifies this`stk, this`free, this`live, this`spare, this`recs, this`ns, live, spare
      ensures Lists() && Contents() && ns == Declare(old(ns), attrs) && UndoesTo(recs, ns, old(ns), open)
      ensures Fresh(old(live), old(spare))
    {
      hide Lists, Contents, Declare, UndoesTo;
      DeclareEnds(attrs);
      StandsUndoes(recs, ns, open);
      for i := 0 to |attrs|
        invariant Lists() && Contents() && UndoesTo(recs, ns, old(ns), open)
        invariant Declare(ns, attrs[i..]) == Declare(old(ns), attrs)
        invariant Fresh(old(live), old(spare))
      {
        DeclareFirst(ns, attrs, i);
        DeclareAttr(attrs[i], old(ns));
      }
      DeclareEnds(attrs);
    }

    static lemma DeclareEnds(attrs: seq<Attr>)
      ensures attrs[0..] == attrs
      ensures forall ns :: Declare(ns, attrs[|attrs|..]) == ns
    {}

    static lemma DeclareFirst(ns: Scope, attrs: seq<Attr>, i: nat)
      requires i < |attrs|
      ensures Declare(ns, attrs[i..]) == Declare(DeclareOne(ns, attrs[i]), attrs[i + 1..])
    {
      assert attrs[i..][1..] == attrs[i + 1..];
    }

    method DeclareAttr(a: Attr, ghost outer: Scope)
      requires Lists() && Contents() && UndoesTo(recs, ns, outer, open)
      modifies this`stk, this`free, this`live, this`spare, this`recs, this`ns, live, spare
      ensures Lists() && Contents() && ns == DeclareOne(old(ns), a) && UndoesTo(recs, ns, outer, open)
      ensures Fresh(old(live), old(spare))
    {
      hide Lists, Contents, UndoesTo;
      if a.name.space == "xmlns" {
        DeclarePush(recs, ns, outer, open, a.name.local, a.value);
        PushNs(a.name.local);
        ns := ns[a.name.local := a.value];
      }
      if a.name.space == "" && a.name.local == "xmlns" {
        DeclarePush(recs, ns, outer, open, "", a.value);
        PushNs("");
        ns := ns["" := a.value];
      }
    }

    method PushNs(prefix: string)
      requires Lists() && Contents()
      modifies this`stk, this`free, this`live, this`spare, this`recs, spare
      ensures Lists() && Contents()
      ensures recs == [Old(prefix, if prefix in ns then ns[prefix] else "", prefix in ns)] + old(recs)
      ensures Fresh(old(live), old(spare))
    {
      hide Lists, Contents;
      Push(StkNs, Name(if prefix in ns then ns[prefix] else "", prefix), prefix in ns);
    }

    /** Ends the innermost element if the name is right, and undoes its declarations. */
    method PopElement(name: Name) returns (ok: bool)
      requires Lists() && Contents() && Stands(recs, ns, open) && (open != [] ==> open[|open| - 1].Element?)
      modifies this`stk, this`free, this`live, this`spare, this`recs, this`ns, this`open, live`next, live`rank
      ensures Lists() && Contents()
      ensures ok <==> old(open) != [] && old(open)[|old(open)| - 1].name == name
      ensures ok ==>
        && open == old(open)[..|old(open)| - 1] && ns == old(open)[|old(open)| - 1].outer
        && Stands(recs, ns, open)
      ensures Fresh(old(live), old(spare))
    {
      hide Lists, Contents;
      TopOf();
      if stk == null {
        return false;
      }
      var s := Pop();
      if s.kind != StkStart || s.name.local != name.local || s.name.space != name.space {
        return false;
      }

      ghost var frame := open[|open| - 1];
      open := open[..|open| - 1];
      UndoDeclarations(frame.outer);
      return true;
    }

    /** Pops the undo records on top of the stack and applies them. */
    method UndoDeclarations(ghost outer: Scope)
      requires Lists() && Contents() && UndoesTo(recs, ns, outer, open)
      modifies this`stk, this`free, this`live, this`spare, this`recs, this`ns, live`next, live`rank
      ensures Lists() && Contents() && ns == outer && Stands(recs, ns, open)
      ensures Fresh(old(live), old(spare))
    {
      hide Lists, Contents;
      TopOf();
      while stk != null && stk.kind != StkStart && stk.kind != StkEOF
        invariant Lists() && Contents() && UndoesTo(recs, ns, outer, open)
        invariant stk == null <==> recs == []
        invariant recs != [] ==> live != [] && stk == live[0] && recs[0] == RecOf(stk.kind, stk.name, stk.ok)
        invariant Fresh(old(live), old(spare)) && (forall i :: 0 <= i < |live| ==> live[i] in old(live))
        decreases |recs|
      {
        var s := Pop();
        ns := UndoOne(ns, s.name.local, s.name.space, s.ok);
        TopOf();
      }
    }

    /**
     One token: the reader's step on the next raw tag.  At a mark, and when the input is
     exhausted, it is the end of the file and nothing is consumed.
     */
    method Token() returns (r: TokenResult)
      requires Valid()
      modifies this, live, spare
      ensures Valid() && Fresh(old(live), old(spare))
      ensures old(failed) ==> failed && !r.Got?
      ensures !old(failed) ==>
        if old(AtStop()) || old(input) == [] then
          r == AtEof && input == old(input) && ns == old(ns) && open == old(open) && !failed
        else
          && input == old(input)[1..]
          && match Read(Reader(old(ns), old(open)), old(input)[0])
             case Token(reader, token) => r == Got(token) && ns == reader.ns && open == reader.open && !failed
             case _ => r == SyntaxError && failed
    {
      hide Lists, Contents, Stands, Declare, Translate, TranslateAttrs;
      TopOf();
      if !failed {
        TopIsStop();
      }
      if stk != null && stk.kind == StkEOF {
        return AtEof;
      }
      if failed {
        return SyntaxError;
      }
      if input == [] {
        return AtEof;
      }
      var t := input[0];
      input := input[1..];
      match t
      case Start(name, attrs) =>
        var token := ReadStart(name, attrs);
        r := Got(token);
      case End(name) =>
        var n := Translate(ns, name, true);
        var ok := PopElement(n);
        if !ok {
          failed := true;
          return SyntaxError;
        }
        r := Got(End(n));
    }

    lemma TopIsStop()
      requires Lists() && Contents() && Stands(recs, ns, open)
      ensures stk != null && stk.kind == StkEOF <==> AtStop()
      ensures !AtStop() ==> (open != [] ==> open[|open| - 1].Element?)
    {
      TopOf();
    }

    /** Opens an element: its declarations come into force, and its own names are read with them. */
    method ReadStart(name: Name, attrs: seq<Attr>) returns (token: Tag)
      requires Lists() && Contents() && Stands(recs, ns, open)
      modifies this`stk, this`free, this`live, this`spare, this`recs, this`ns, this`open, live, spare
      ensures Lists() && Contents() && Stands(recs, ns, open) && Fresh(old(live), old(spare))
      ensures ns == Declare(old(ns), attrs)
      ensures var n := Translate(ns, name, true);
              token == Start(n, TranslateAttrs(ns, attrs)) && open == old(open) + [Element(n, old(ns))]
    {
      hide Lists, Contents, Stands, UndoesTo, Declare, Translate, TranslateAttrs;
      ghost var outer := ns;
      DeclareAttrs(attrs);
      var n := Translate(ns, name, true);
      token := Start(n, TranslateAttrs(ns, attrs));
      ElementPush(recs, ns, outer, open, n);
      open := open + [Element(n, outer)];
      Push(StkStart, n, false);
    }

    /** The innermost thing on the stack is an end-of-file mark. */
    /** Where the decoder is: the reader, and what it has not read. */
    ghost function At(): Place
      reads this`ns, this`open, this`input
    {
      Place(Reader(ns, open), input)
    }

    ghost predicate AtStop()
      reads this`open
    {
      open != [] && open[|open| - 1].Stop?
    }

    // ---------- the end-of-file mark ----------

    /** As `Lists`, with one rank left free below `live[k]`. */
    ghost predicate Gapped(k: nat)
      reads this`stk, this`free, this`live, this`spare, live`next, spare`next, live`rank, spare`rank
    {
      && Chain(stk, live) && Chain(free, spare)
      && (forall i :: 0 <= i < |live| ==> live[i].rank == if i <= k then |live| - i else |live| - 1 - i)
      && (forall i :: 0 <= i < |spare| ==> spare[i].rank == i - |spare|)
    }

    ghost method Raise(k: nat)
      requires Lists() && k < |live|
      modifies live`rank
      ensures Gapped(k)
    {
      forall i | 0 <= i <= k {
        live[i].rank := |live| - i;
      }
    }

    twostate lemma ChainWith(k: nat, new s: Cell)
      requires old(Gapped(k)) && k < |old(live)|
      requires live == old(live)[..k + 1] + [s] + old(live)[k + 1..] && stk == old(stk) && spare == old(spare) &&
        free == old(free)
      requires forall i :: 0 <= i < |old(live)| ==> old(live)[i].next == if i == k then s else old(live[i].next)
      requires s.next == old(live[k].next) && forall i :: 0 <= i < |spare| ==> spare[i].next == old(spare[i].next)
      ensures Chain(stk, live) && Chain(free, spare)
    {
      assert forall i :: 0 <= i <= k ==> live[i] == old(live)[i];
      assert forall i :: k + 1 < i < |live| ==> live[i] == old(live)[i - 1];
    }

    twostate lemma ContentsWith(k: nat, new s: Cell)
      requires old(Contents()) && k < |old(live)| && s.kind == StkEOF
      requires live == old(live)[..k + 1] + [s] + old(live)[k + 1..]
      requires recs == old(recs)[..k + 1] + [Mark] + old(recs)[k + 1..]
      requires forall i :: 0 <= i < |old(live)| ==>
        old(live)[i].kind == old(live[i].kind) && old(live)[i].name == old(live[i].name) &&
          old(live)[i].ok == old(live[i].ok)
      ensures Contents()
    {
      assert forall i :: 0 <= i <= k ==> live[i] == old(live)[i] && recs[i] == old(recs)[i];
      assert forall i :: k + 1 < i < |live| ==> live[i] == old(live)[i - 1] && recs[i] == old(recs)[i - 1];
    }

    twostate lemma RanksWith(k: nat, new s: Cell)
      requires old(Gapped(k)) && k < |old(live)| && Chain(stk, live) && Chain(free, spare)
      requires live == old(live)[..k + 1] + [s] + old(live)[k + 1..] && spare == old(spare)
      requires s.rank == |old(live)| - 1 - k
      requires forall i :: 0 <= i < |old(live)| ==> old(live)[i].rank == old(live[i].rank)
      requires forall i :: 0 <= i < |spare| ==> spare[i].rank == old(spare[i].rank)
      ensures Lists()
    {
      hide Chain;
      assert forall i :: 0 <= i <= k ==> live[i] == old(live)[i];
      assert forall i :: k + 1 < i < |live| ==> live[i] == old(live)[i - 1];
    }

    /** Links `s` in as a mark, below the cell `start`. */
    method Insert(start: Cell, s: Cell, ghost k: nat)
      requires Gapped(k) && Contents() && Loose(s) && k < |live| == |recs| && live[k] == start
      modifies this`live, this`recs, s, start`next
      ensures Lists() && Contents()
      ensures recs == old(recs)[..k + 1] + [Mark] + old(recs)[k + 1..]
      ensures live == old(live)[..k + 1] + [s] + old(live)[k + 1..]
    {
      hide Chain, Contents, Gapped, Lists;
      GapChains(k);
      s.kind := StkEOF;
      s.next := start.next;
      start.next := s;
      s.rank := |live| - 1 - k;
      live := live[..k + 1] + [s] + live[k + 1..];
      recs := recs[..k + 1] + [Mark] + recs[k + 1..];
      ChainWith(k, s);
      RanksWith(k, s);
      ContentsWith(k, s);
    }

    /** A cell is linked once. */
    lemma GapChains(k: nat)
      requires Gapped(k)
      ensures forall i, j :: 0 <= i < j < |live| ==> live[i] != live[j]
      ensures forall i, j :: 0 <= i < |live| && 0 <= j < |spare| ==> live[i] != spare[j]
    {}

    lemma NextOf(i: nat)
      requires Lists() && Contents() && i < |live|
      ensures if i + 1 < |live| then live[i].next == live[i + 1] else live[i].next == null
      ensures recs[i] == RecOf(live[i].kind, live[i].name, live[i].ok)
      ensures (recs[i].Elem? <==> live[i].kind == StkStart) && (recs[i].Old? <==> live[i].kind == StkNs)
    {}

    /** Walks to the topmost element and past the undo records under it. */
    method CellToMark() returns (start: Cell, ghost k: nat)
      requires Lists() && Contents() && HasElem(recs)
      ensures k < |live| && live[k] == start && MarkAt(recs) == k + 1
    {
      hide *;
      StackSize();
      start, k := TopmostElement();
      while start.next != null && start.next.kind == StkNs
        invariant 0 <= k < |live| && start == live[k] && MarkAt(recs) == k + 1 + OldRun(recs[k + 1..])
        decreases |live| - k
      {
        NextOf(k);
        NextOf(k + 1);
        OldRunStep(k + 1);
        start := start.next;
        k := k + 1;
      }
      NextOf(k);
      OldRunStep(k + 1);
      if k + 1 < |live| {
        NextOf(k + 1);
      }
    }

    method TopmostElement() returns (start: Cell, ghost k: nat)
      requires Lists() && Contents() && HasElem(recs)
      ensures k < |live| && live[k] == start && MarkAt(recs) == k + 1 + OldRun(recs[k + 1..])
    {
      hide *;
      StackSize();
      HasElemStep(0);
      TopOf();
      start := stk;
      k := 0;
      while start.kind != StkStart
        invariant 0 <= k < |live| && start == live[k] && HasElem(recs[k..])
        invariant MarkAt(recs) == k + MarkAt(recs[k..])
        decreases |live| - k
      {
        NextOf(k);
        HasElemStep(k);
        start := start.next;
        k := k + 1;
      }
      NextOf(k);
      HasElemStep(k);
    }

    lemma HasElemStep(k: nat)
      requires k < |recs| || k == 0
      ensures recs[0..] == recs && (HasElem(recs) ==> recs != [])
      ensures HasElem(recs[k..]) && !recs[k].Elem? ==>
        k + 1 < |recs| && HasElem(recs[k + 1..]) && MarkAt(recs[k..]) == 1 + MarkAt(recs[k + 1..])
      ensures HasElem(recs[k..]) && recs[k].Elem? ==> MarkAt(recs[k..]) == 1 + OldRun(recs[k + 1..])
    {
      assert recs[0..] == recs;
      if k < |recs| {
        var rest := recs[k + 1..];
        assert recs[k..][1..] == rest;
        assert HasElem(rest) ==> rest != [];
      }
    }

    lemma OldRunStep(k: nat)
      requires k <= |recs|
      ensures OldRun(recs[k..]) == if k < |recs| && recs[k].Old? then 1 + OldRun(recs[k + 1..]) else 0
    {
      if k < |recs| {
        assert recs[k..][1..] == recs[k + 1..];
      }
    }

    /** From here on, tokens end when the innermost element does.  There must be an open element. */
    method PushEOF()
      requires Valid() && !failed && HasElement(open)
      modifies this, live, spare
      ensures Valid() && !failed && ns == old(ns) && input == old(input) && open == Marked(old(open))
      ensures Fresh(old(live), old(spare))
    {
      hide Lists, Contents, Chain;
      MarkUnderElement(recs, ns, open);
      ElementRec(recs, ns, open);
      var start, k := CellToMark();
      InsertMark(start, k);
      open := Marked(open);
    }

    lemma StackSize()
      requires Contents()
      ensures |recs| == |live|
    {}

    method InsertMark(start: Cell, ghost k: nat)
      requires Lists() && Contents() && k < |live| && live[k] == start
      modifies this`live, this`recs, this`free, this`spare, live`next, live`rank, spare
      ensures Lists() && Contents()
      ensures recs == WithMark(old(recs), k + 1)
      ensures Fresh(old(live), old(spare))
    {
      hide Contents, Lists, Gapped;
      StackSize();
      var s := Take();
      Raise(k);
      Insert(start, s, k);
    }

    method PopEOF() returns (ok: bool)
      requires Valid() && !failed
      modifies this, live, spare
      ensures Valid() && !failed && ns == old(ns) && input == old(input)
      ensures ok <==> old(AtStop())
      ensures open == if ok then old(open)[..|old(open)| - 1] else old(open)
      ensures Fresh(old(live), old(spare))
    {
      hide Lists, Contents;
      TopOf();
      if stk == null || stk.kind != StkEOF {
        return false;
      }
      var _ := Pop();
      open := open[..|open| - 1];
      return true;
    }

    // ---------- reading one element ----------

    /** Consumes the rest of the innermost element, however deep, and nothing after it. */
    method Skip() returns (ok: bool)
      requires Valid() && !failed && open != [] && open[|open| - 1].Element?
      modifies this, live, spare
      ensures Valid() && Fresh(old(live), old(spare)) && |input| <= |old(input)|
      ensures var rest := ReadDownTo(Reader(old(ns), old(open)), old(input), |old(open)| - 1);
              && (ok <==> rest.Rest?)
              && (ok ==> !failed && rest == Rest(Reader(ns, open), input))
      ensures ok ==> open == old(open)[..|old(open)| - 1] && ns == old(open)[|old(open)| - 1].outer
      ensures !ok && !failed ==> old(open) <= open && input == []
      decreases |input|
    {
      hide Lists, Contents, Stands, Read, ReadDownTo;
      ghost var base := |open| - 1;
      while true
        invariant Valid() && !failed && open == old(open) && |input| <= |old(input)|
        invariant Fresh(old(live), old(spare))
        invariant ReadDownTo(Reader(ns, open), input, base) == ReadDownTo(Reader(old(ns), old(open)), old(input), base)
        decreases |input|
      {
        ghost var r, tags := Reader(ns, open), input;
        ReadDownToStep(r, tags, base);
        var tok := Token();
        if !tok.Got? {
          return false;
        }
        ReadMoves(r, tags[0]);
        if tok.token.End? {
          ReadDownToStep(Reader(ns, open), input, base);
          return true;
        }
        ReadDownToVia(Reader(ns, open), input, base + 1, base);
        ok := Skip();
        if !ok {
          return;
        }
      }
    }

    /** One step of a reader that has been handed the element `e`. */
    method ReaderTurn(step: ReaderStep, ghost base: seq<Frame>, ghost e: Frame, ghost inner: seq<Frame>)
      returns (ok: bool, ghost inner': seq<Frame>)
      requires Valid() && !failed && Guarded(base, e, inner, ns, open)
      modifies this, live, spare
      ensures Valid() && Fresh(old(live), old(spare))
      ensures ok <==> Turn(step, old(At())).Some?
      ensures ok ==> !failed && Guarded(base, e, inner', ns, open) && Turn(step, old(At())) == Some(At())
      ensures !failed ==> base + [Stop] <= open
      decreases step, 0
    {
      hide Lists, Contents, Stands, Guarded, ReadDownTo, Handed;
      Innermost(base, e, inner);
      match step
      case GiveUp =>
        return false, inner;
      case TakeToken =>
        ok, inner' := TakeOne(base, e, inner);
      case SkipElement =>
        if stk == null || stk.kind == StkEOF {
          return true, inner;
        }
        ok := Skip();
        inner' := inner[..|inner| - 1];
        AfterElement(base, e, inner, old(open), ns, open);
      case HandOn(script) =>
        if stk == null || stk.kind == StkEOF {
          return true, inner;
        }
        var u := UnmarshalInterface(script);
        ok := u == Consumed;
        inner' := inner[..|inner| - 1];
        AfterElement(base, e, inner, old(open), ns, open);
    }

    lemma Innermost(base: seq<Frame>, e: Frame, inner: seq<Frame>)
      requires Valid() && !failed && Guarded(base, e, inner, ns, open)
      ensures (AtStop() <==> inner == []) && (stk == null || stk.kind == StkEOF <==> inner == [])
      ensures inner != [] ==> open != [] && open[|open| - 1].Element? && |open| > |base| + 1
      ensures inner == [] ==> open[..|open| - 1] == base && ns == e.outer
      ensures base + [Stop] <= open && open[..|base| + 1] == base + [Stop]
    {
      hide Lists, Contents;
      TopOf();
      TopIsStop();
      InnermostOf(base, e, inner, ns, open);
    }

    method TakeOne(ghost base: seq<Frame>, ghost e: Frame, ghost inner: seq<Frame>)
      returns (ok: bool, ghost inner': seq<Frame>)
      requires Valid() && !failed && Guarded(base, e, inner, ns, open)
      modifies this, live, spare
      ensures Valid() && Fresh(old(live), old(spare))
      ensures ok <==> Turn(TakeToken, old(At())).Some?
      ensures ok ==> !failed && Guarded(base, e, inner', ns, open) && Turn(TakeToken, old(At())) == Some(At())
      ensures !failed ==> base + [Stop] <= open
    {
      hide Lists, Contents, Stands, Read;
      ghost var r, rest := Reader(ns, open), input;
      var tok := Token();
      ok := tok != SyntaxError;
      inner' := inner;
      if tok.Got? {
        inner' := StopIsKept(base, e, inner, r, rest[0]);
      }
    }

    /**
     Hands the innermost element to a reader.  What comes of it is what the reader's steps come
     to; it succeeds only if exactly the element has been consumed, and whatever happens nothing
     below the element is touched.
     */
    method UnmarshalInterface(script: Script) returns (u: Unmarshalled)
      requires Valid() && !failed && open != [] && open[|open| - 1].Element?
      modifies this, live, spare
      ensures Valid() && Fresh(old(live), old(spare))
      ensures u == Handed(script, old(At())).0 && (u != ReaderError ==> !failed && At() == Handed(script, old(At())).1)
      ensures u == Consumed ==>
        && open == old(open)[..|old(open)| - 1] && ns == old(open)[|old(open)| - 1].outer
        && ReadDownTo(Reader(old(ns), old(open)), old(input), |old(open)| - 1) == Rest(Reader(ns, open), input)
      ensures u == Unfinished ==>
        |open| > |old(open)| && open[..|old(open)|] == old(open)[..|old(open)| - 1] + [Stop]
      ensures u == ReaderError && !failed ==> old(open)[..|old(open)| - 1] <= open
      decreases script, 1
    {
      hide Lists, Contents, Stands, Guarded, Marked, Turns, Handed, ReadDownTo, HasElement, Valid;
      InnermostIsThere(open);
      ghost var p := At();
      HandedIs(script, p);
      ConsumedExactly(script, p);
      PushEOF();
      ghost var base, e, inner := GuardedFirst(old(open), ns, open);
      var ok;
      ok, inner := RunReader(script, base, e, inner);
      if !ok {
        Abandon(base);
        return ReaderError;
      }
      u := Finish(base, e, inner);
    }

    /** The mark is taken away if it is on top. */
    method Finish(ghost base: seq<Frame>, ghost e: Frame, ghost inner: seq<Frame>) returns (u: Unmarshalled)
      requires Valid() && !failed && Guarded(base, e, inner, ns, open)
      modifies this, live, spare
      ensures Valid() && Fresh(old(live), old(spare)) && !failed
      ensures u == if AtMark(old(At()).reader) then Consumed else Unfinished
      ensures ns == old(ns) && input == old(input)
      ensures u == Consumed ==> open == old(open)[..|old(open)| - 1] == base && ns == e.outer
      ensures u == Unfinished ==> open == old(open) && |open| > |base| + 1 && open[..|base| + 1] == base + [Stop]
    {
      hide Lists, Contents, Stands, Guarded;
      Innermost(base, e, inner);
      var ended := PopEOF();
      u := if ended then Consumed else Unfinished;
    }

    method Abandon(ghost base: seq<Frame>)
      requires Valid() && (!failed ==> base + [Stop] <= open)
      modifies this, live, spare
      ensures Valid() && Fresh(old(live), old(spare)) && (!failed ==> base <= open)
    {
      hide Lists, Contents, Stands;
      if !failed {
        var _ := PopEOF();
      }
    }

    /** The steps of a reader, one after the other. */
    method RunReader(script: Script, ghost base: seq<Frame>, ghost e: Frame, ghost inner0: seq<Frame>)
      returns (ok: bool, ghost inner: seq<Frame>)
      requires Valid() && !failed && Guarded(base, e, inner0, ns, open)
      modifies this, live, spare
      ensures Valid() && Fresh(old(live), old(spare))
      ensures ok <==> Turns(script, old(At())).Some?
      ensures ok ==> !failed && Guarded(base, e, inner, ns, open) && Turns(script, old(At())) == Some(At())
      ensures !failed ==> base + [Stop] <= open
      decreases script, 0
    {
      hide Lists, Contents, Stands, Guarded, Turn, Turns;
      inner := inner0;
      ghost var q := At();
      var left := script;
      while left.Then?
        invariant Valid() && !failed && Guarded(base, e, inner, ns, open) && Fresh(old(live), old(spare))
        invariant (left == script || left < script) && Turns(script, q) == Turns(left, At())
        decreases left
      {
        TurnsStep(left, At());
        ok, inner := ReaderTurn(left.step, base, e, inner);
        if !ok {
          return;
        }
        left := left.rest;
      }
      TurnsStep(left, At());
      Innermost(base, e, inner);
      ok := true;
    }
  }

  /** What a reader does when it is handed an element: tokens, elements skipped or handed on to others, or an error. */
  datatype ReaderStep = TakeToken | SkipElement | HandOn(script: Script) | GiveUp

  datatype Script = Return | Then(step: ReaderStep, rest: Script)

  datatype Unmarshalled = Consumed | Unfinished | ReaderError

  datatype Place = Place(reader: Reader, input: seq<Tag>)

  predicate AtMark(r: Reader) {
    r.open != [] && r.open[|r.open| - 1].Stop?
  }

  /** What one step of a reader comes to; nothing if it meets an error or makes one. */
  function Turn(step: ReaderStep, p: Place): Option<Place>
    decreases step, 0
  {
    match step
    case GiveUp => None
    case TakeToken =>
      if AtMark(p.reader) || p.input == [] then Some(p)
      else
        (match Read(p.reader, p.input[0])
         case Token(r, _) => Some(Place(r, p.input[1..]))
         case _ => None)
    case SkipElement =>
      if AtMark(p.reader) || p.reader.open == [] then Some(p)
      else
        (match ReadDownTo(p.reader, p.input, |p.reader.open| - 1)
         case Rest(r, input) => Some(Place(r, input))
         case NoRest => None)
    case HandOn(script) =>
      if AtMark(p.reader) || p.reader.open == [] then Some(p)
      else
        var (u, q) := Handed(script, p);
        if u == Consumed then Some(q) else None
  }

  function Turns(script: Script, p: Place): Option<Place>
    decreases script, 0
  {
    match script
    case Return => Some(p)
    case Then(step, rest) =>
      var q := Turn(step, p);
      if q.None? then None else Turns(rest, q.value)
  }

  /** What handing the innermost element on comes to: a mark, the steps of the reader, and a look at what is on top. */
  function Handed(script: Script, p: Place): (Unmarshalled, Place)
    decreases script, 1
  {
    var q := Turns(script, Place(Reader(p.reader.ns, Marked(p.reader.open)), p.input));
    if q.None? then (ReaderError, p)
    else
      var r := q.value.reader;
      if AtMark(r) then (Consumed, Place(Reader(r.ns, r.open[..|r.open| - 1]), q.value.input))
      else (Unfinished, q.value)
  }

  lemma HandedIs(script: Script, p: Place)
    ensures var q := Turns(script, Place(Reader(p.reader.ns, Marked(p.reader.open)), p.input));
            Handed(script, p) ==
            if q.None? then (ReaderError, p)
            else if AtMark(q.value.reader) then
              (Consumed, Place(Reader(q.value.reader.ns, q.value.reader.open[..|q.value.reader.open| - 1]),
                q.value.input))
            else (Unfinished, q.value)
  {}

  lemma InnermostIsThere(open: seq<Frame>)
    requires open != [] && open[|open| - 1].Element?
    ensures HasElement(open)
  {}

  lemma TurnsStep(script: Script, p: Place)
    ensures Turns(script, p) ==
            if script.Return? then Some(p)
            else if Turn(script.step, p).None? then None else Turns(script.rest, Turn(script.step, p).value)
  {}

  /** Reading on until only `base` elements and marks are open, and what is left to read then. */
  datatype Remains = Rest(reader: Reader, input: seq<Tag>) | NoRest

  function ReadDownTo(r: Reader, input: seq<Tag>, base: nat): Remains
    decreases |input|
  {
    if |r.open| <= base then Rest(r, input)
    else if input == [] || !Read(r, input[0]).Token? then NoRest
    else ReadDownTo(Read(r, input[0]).reader, input[1..], base)
  }

  lemma ReadDownToStep(r: Reader, input: seq<Tag>, base: nat)
    ensures ReadDownTo(r, input, base) ==
            if |r.open| <= base then Rest(r, input)
            else if input == [] || !Read(r, input[0]).Token? then NoRest
            else ReadDownTo(Read(r, input[0]).reader, input[1..], base)
  {}

  lemma ReadMoves(r: Reader, raw: Tag)
    requires Read(r, raw).Token?
    ensures var s := Read(r, raw);
            if s.token.Start? then |s.reader.open| == |r.open| + 1 && s.reader.open[..|r.open|] == r.open &&
              s.reader.open[|r.open|].Element?
            else r.open != [] && s.reader.open == r.open[..|r.open| - 1] && s.reader.ns == r.open[|r.open| - 1].outer
  {
    hide Declare, Translate, TranslateAttrs;
  }

  /** Reading down takes no detour: it first reads down to any depth in between. */
  lemma {:induction false} ReadDownToVia(r: Reader, input: seq<Tag>, above: nat, base: nat)
    requires base <= above
    ensures ReadDownTo(r, input, base) ==
            var m := ReadDownTo(r, input, above);
            if m.Rest? then ReadDownTo(m.reader, m.input, base) else NoRest
    decreases |input|
  {
    hide Read;
    if |r.open| > above && input != [] && Read(r, input[0]).Token? {
      ReadDownToVia(Read(r, input[0]).reader, input[1..], above, base);
    }
  }

  /** Over the frames `base` stands a mark, and over that what is left of the element `e`. */
  predicate Guarded(base: seq<Frame>, e: Frame, inner: seq<Frame>, ns: Scope, open: seq<Frame>) {
    && e.Element? && open == base + [Stop] + inner
    && (forall i :: 0 <= i < |inner| ==> inner[i].Element?)
    && (if inner == [] then ns == e.outer else inner[0] == e)
  }

  lemma InnermostOf(base: seq<Frame>, e: Frame, inner: seq<Frame>, ns: Scope, open: seq<Frame>)
    requires Guarded(base, e, inner, ns, open)
    ensures open != [] && open[|open| - 1] == if inner == [] then Stop else inner[|inner| - 1]
    ensures inner != [] ==> open[..|open| - 1] == base + [Stop] + inner[..|inner| - 1]
  {}

  lemma GuardedFirst(was: seq<Frame>, ns: Scope, open: seq<Frame>)
    returns (base: seq<Frame>, e: Frame, inner: seq<Frame>)
    requires was != [] && was[|was| - 1].Element? && open == Marked(was)
    ensures base == was[..|was| - 1] && e == was[|was| - 1] && inner == [e] && Guarded(base, e, inner, ns, open)
  {
    base, e, inner := was[..|was| - 1], was[|was| - 1], [was[|was| - 1]];
  }

  /** An element that has been consumed is gone, and its scope is back. */
  lemma AfterElement(base: seq<Frame>, e: Frame, inner: seq<Frame>, was: seq<Frame>, ns: Scope, open: seq<Frame>)
    requires inner != [] && exists ns0 :: Guarded(base, e, inner, ns0, was)
    ensures open == was[..|was| - 1] && ns == was[|was| - 1].outer ==> Guarded(base, e, inner[..|inner| - 1], ns, open)
    ensures open == was[..|was| - 1] || was <= open || was[..|was| - 1] <= open ==> base + [Stop] <= open
  {
    assert was == base + [Stop] + inner;
    assert was[..|was| - 1] == base + [Stop] + inner[..|inner| - 1];
  }

  /** While the element is open a reader can take tags of it; then it is at the end, whatever comes next. */
  lemma EofExactlyAtTheEnd(base: seq<Frame>, e: Frame, inner: seq<Frame>, r: Reader, raw: Tag)
    requires Guarded(base, e, inner, r.ns, r.open)
    ensures Read(r, raw).Eof? <==> inner == []
  {
    if inner != [] {
      assert r.open[|r.open| - 1] == inner[|inner| - 1];
    }
  }

  /** A tag taken does not touch the mark or what is under it. */
  lemma StopIsKept(base: seq<Frame>, e: Frame, inner: seq<Frame>, r: Reader, raw: Tag) returns (inner': seq<Frame>)
    requires Guarded(base, e, inner, r.ns, r.open) && Read(r, raw).Token?
    ensures Guarded(base, e, inner', Read(r, raw).reader.ns, Read(r, raw).reader.open)
  {
    hide Declare, Translate, TranslateAttrs;
    EofExactlyAtTheEnd(base, e, inner, r, raw);
    var r' := Read(r, raw).reader;
    if raw.Start? {
      inner' := inner + [r'.open[|r.open|]];
      assert r'.open == base + [Stop] + inner';
    } else {
      inner' := inner[..|inner| - 1];
      assert r.open[|r.open| - 1] == inner[|inner| - 1];
      assert r'.open == base + [Stop] + inner';
    }
  }

  // ---------- exactly the element ----------

  /** The frames without the mark. */
  predicate Unmarks(base: seq<Frame>, inner: seq<Frame>, r: Reader, r': Reader) {
    && r == Reader(r'.ns, base + [Stop] + inner) && r'.open == base + inner
    && forall i :: 0 <= i < |inner| ==> inner[i].Element?
  }

  /** While the marked element is open, reading is the same without the mark. */
  lemma ReadUnderMark(base: seq<Frame>, inner: seq<Frame>, r: Reader, r': Reader, raw: Tag) returns (inner': seq<Frame>)
    requires Unmarks(base, inner, r, r') && inner != []
    ensures Read(r, raw).Token? <==> Read(r', raw).Token?
    ensures Read(r, raw).Token? ==>
      && Unmarks(base, inner', Read(r, raw).reader, Read(r', raw).reader)
      && |inner'| == if raw.Start? then |inner| + 1 else |inner| - 1
  {
    hide Declare, Translate, TranslateAttrs;
    assert r.open[|r.open| - 1] == inner[|inner| - 1] == r'.open[|r'.open| - 1];
    inner' := if raw.End? then inner[..|inner| - 1] else inner;
    if Read(r, raw).Token? {
      if raw.Start? {
        inner' := inner + [Read(r', raw).reader.open[|r'.open|]];
      }
      assert Read(r, raw).reader.open == base + [Stop] + inner';
      assert Read(r', raw).reader.open == base + inner';
    }
  }

  lemma {:induction false} DownUnderMark(base: seq<Frame>, inner: seq<Frame>, r: Reader, r': Reader, input: seq<Tag>,
                                         k: nat)
    returns (inner': seq<Frame>)
    requires Unmarks(base, inner, r, r')
    ensures var (m, m') := (ReadDownTo(r, input, |base| + 1 + k), ReadDownTo(r', input, |base| + k));
            && (m.Rest? <==> m'.Rest?)
            && (m.Rest? ==> m.input == m'.input && Unmarks(base, inner', m.reader, m'.reader))
    decreases |input|
  {
    hide Read;
    inner' := inner;
    if |inner| > k && input != [] {
      inner' := ReadUnderMark(base, inner, r, r', input[0]);
      if Read(r, input[0]).Token? {
        inner' := DownUnderMark(base, inner', Read(r, input[0]).reader, Read(r', input[0]).reader, input[1..], k);
      }
    }
  }

  /** Under the mark, what is still to be read of the element stays the same. */
  ghost predicate OnTheWay(base: seq<Frame>, p: Place, q: Place) {
    exists inner, r ::
      Unmarks(base, inner, q.reader, r) && ReadDownTo(r, q.input, |base|) == ReadDownTo(p.reader, p.input, |base|)
  }

  lemma StillOnTheWay(base: seq<Frame>, inner: seq<Frame>, r: Reader, p: Place, q: Place)
    requires Unmarks(base, inner, q.reader, r)
    requires ReadDownTo(r, q.input, |base|) == ReadDownTo(p.reader, p.input, |base|)
    ensures OnTheWay(base, p, q)
  {}

  lemma {:induction false} TurnKeepsTheWay(base: seq<Frame>, p: Place, q: Place, step: ReaderStep)
    requires OnTheWay(base, p, q) && Turn(step, q).Some?
    ensures OnTheWay(base, p, Turn(step, q).value)
    decreases step, 0
  {
    hide Read, ReadDownTo, Handed, Unmarks;
    var inner, r :| Unmarks(base, inner, q.reader, r) &&
      ReadDownTo(r, q.input, |base|) == ReadDownTo(p.reader, p.input, |base|);
    TopUnderMark(base, inner, q.reader, r);
    if inner == [] {
      return;
    }
    match step
    case TakeToken =>
      if q.input != [] {
        var inner' := ReadUnderMark(base, inner, q.reader, r, q.input[0]);
        ReadDownToStep(r, q.input, |base|);
        StillOnTheWay(base, inner', Read(r, q.input[0]).reader, p, Turn(step, q).value);
      }
    case SkipElement =>
      SkipKeepsTheWay(base, inner, r, p, q);
    case HandOn(script) =>
      ConsumedExactly(script, q);
      SkipKeepsTheWay(base, inner, r, p, q);
    case GiveUp =>
  }

  lemma TopUnderMark(base: seq<Frame>, inner: seq<Frame>, q: Reader, r: Reader)
    requires Unmarks(base, inner, q, r)
    ensures q.open != [] && |q.open| == |base| + 1 + |inner| && |r.open| == |base| + |inner|
    ensures AtMark(q) <==> inner == []
    ensures inner != [] ==> q.open[|q.open| - 1].Element?
  {
    assert q.open[|q.open| - 1] == if inner == [] then Stop else inner[|inner| - 1];
  }

  lemma SkipKeepsTheWay(base: seq<Frame>, inner: seq<Frame>, r: Reader, p: Place, q: Place)
    requires Unmarks(base, inner, q.reader, r) && inner != []
    requires ReadDownTo(r, q.input, |base|) == ReadDownTo(p.reader, p.input, |base|)
    ensures var m := ReadDownTo(q.reader, q.input, |q.reader.open| - 1);
            m.Rest? ==> OnTheWay(base, p, Place(m.reader, m.input))
  {
    hide Read, ReadDownTo;
    var inner' := DownUnderMark(base, inner, q.reader, r, q.input, |inner| - 1);
    ReadDownToVia(r, q.input, |base| + |inner| - 1, |base|);
    var m, m' := ReadDownTo(q.reader, q.input, |q.reader.open| - 1), ReadDownTo(r, q.input, |base| + |inner| - 1);
    if m.Rest? {
      StillOnTheWay(base, inner', m'.reader, p, Place(m.reader, m.input));
    }
  }

  lemma {:induction false} TurnsKeepTheWay(base: seq<Frame>, p: Place, q: Place, script: Script)
    requires OnTheWay(base, p, q) && Turns(script, q).Some?
    ensures OnTheWay(base, p, Turns(script, q).value)
    decreases script, 0
  {
    hide OnTheWay, Turn;
    if script.Then? {
      TurnKeepsTheWay(base, p, q, script.step);
      TurnsKeepTheWay(base, p, Turn(script.step, q).value, script.rest);
    }
  }

  /** A reader that is successful has consumed exactly the rest of its element, as if it had been skipped. */
  lemma ConsumedExactly(script: Script, p: Place)
    requires p.reader.open != [] && p.reader.open[|p.reader.open| - 1].Element?
    ensures var (u, q) := Handed(script, p);
            u == Consumed ==> ReadDownTo(p.reader, p.input, |p.reader.open| - 1) == Rest(q.reader, q.input)
    decreases script, 1
  {
    hide Read, ReadDownTo, Turns;
    var base, e := p.reader.open[..|p.reader.open| - 1], p.reader.open[|p.reader.open| - 1];
    var q := Place(Reader(p.reader.ns, Marked(p.reader.open)), p.input);
    assert p.reader.open == base + [e];
    StillOnTheWay(base, [e], p.reader, p, q);
    if Turns(script, q).Some? && AtMark(Turns(script, q).value.reader) {
      TurnsKeepTheWay(base, p, q, script);
      AtItsEnd(base, p, Turns(script, q).value);
    }
  }

  lemma AtItsEnd(base: seq<Frame>, p: Place, q: Place)
    requires OnTheWay(base, p, q) && AtMark(q.reader)
    ensures ReadDownTo(p.reader, p.input, |base|) ==
            Rest(Reader(q.reader.ns, q.reader.open[..|q.reader.open| - 1]), q.input)
  {
    hide Read;
    var inner, r :| Unmarks(base, inner, q.reader, r) &&
      ReadDownTo(r, q.input, |base|) == ReadDownTo(p.reader, p.input, |base|);
    TopUnderMark(base, inner, q.reader, r);
    assert q.reader.open[..|q.reader.open| - 1] == base + inner;
  }

  // ---------- readers that succeed ----------

  function TakeTokens(k: nat): Script {
    if k == 0 then Return else Then(TakeToken, TakeTokens(k - 1))
  }

  lemma {:induction false} RestIsShorter(r: Reader, input: seq<Tag>, base: nat)
    ensures var m := ReadDownTo(r, input, base);
            m.Rest? ==> |m.input| <= |input| && (|r.open| > base ==> |m.input| < |input|)
    decreases |input|
  {
    hide Read;
    if |r.open| > base && input != [] && Read(r, input[0]).Token? {
      RestIsShorter(Read(r, input[0]).reader, input[1..], base);
    }
  }

  lemma {:induction false} DownExactly(r: Reader, input: seq<Tag>, base: nat)
    requires |r.open| >= base
    ensures var m := ReadDownTo(r, input, base); m.Rest? ==> |m.reader.open| == base
    decreases |input|
  {
    hide Read;
    if |r.open| > base && input != [] && Read(r, input[0]).Token? {
      ReadMoves(r, input[0]);
      DownExactly(Read(r, input[0]).reader, input[1..], base);
    }
  }

  lemma {:induction false} TakersAt(base: seq<Frame>, inner: seq<Frame>, r: Reader, q: Place, k: nat)
    requires Unmarks(base, inner, q.reader, r)
    ensures var (m, t) := (ReadDownTo(r, q.input, |base|), Turns(TakeTokens(k), q));
            t.Some? && AtMark(t.value.reader) <==> m.Rest? && k >= |q.input| - |m.input|
    decreases k
  {
    hide Read, ReadDownTo, Unmarks, AtMark;
    TopUnderMark(base, inner, q.reader, r);
    ReadDownToStep(r, q.input, |base|);
    RestIsShorter(r, q.input, |base|);
    TurnsStep(TakeTokens(k), q);
    if k > 0 {
      if inner == [] || q.input == [] {
        TakersAt(base, inner, r, q, k - 1);
      } else {
        var inner' := ReadUnderMark(base, inner, q.reader, r, q.input[0]);
        if Read(q.reader, q.input[0]).Token? {
          TakersAt(base, inner', Read(r, q.input[0]).reader, Turn(TakeToken, q).value, k - 1);
        }
      }
    }
  }

  /**
   A reader that takes tokens is successful exactly if the element can be read to its end and
   the reader takes at least the tokens up to there; one that skips the element, exactly if it
   can be read; and one that gives up never is.
   */
  lemma ReadersSucceed(p: Place, k: nat)
    requires p.reader.open != [] && p.reader.open[|p.reader.open| - 1].Element?
    ensures var m := ReadDownTo(p.reader, p.input, |p.reader.open| - 1);
            && (Handed(TakeTokens(k), p).0 == Consumed <==> m.Rest? && k >= |p.input| - |m.input|)
            && (Handed(Then(SkipElement, Return), p).0 == Consumed <==> m.Rest?)
            && Handed(Then(GiveUp, Return), p).0 == ReaderError
  {
    hide Read, ReadDownTo, Turns, TakeTokens, Turn;
    var base, e := p.reader.open[..|p.reader.open| - 1], p.reader.open[|p.reader.open| - 1];
    var q := Place(Reader(p.reader.ns, Marked(p.reader.open)), p.input);
    assert p.reader.open == base + [e];
    TakersAt(base, [e], p.reader, q, k);
    SkipperAt(base, [e], p.reader, q);
    TurnsStep(Then(GiveUp, Return), q);
    NobodyGivesUp(q);
  }

  lemma NobodyGivesUp(q: Place)
    ensures Turn(GiveUp, q) == None
  {}

  lemma SkipperAt(base: seq<Frame>, inner: seq<Frame>, r: Reader, q: Place)
    requires Unmarks(base, inner, q.reader, r) && |inner| == 1
    ensures var (m, t) := (ReadDownTo(r, q.input, |base|), Turns(Then(SkipElement, Return), q));
            t.Some? && AtMark(t.value.reader) <==> m.Rest?
  {
    hide Read, ReadDownTo, Unmarks;
    TopUnderMark(base, inner, q.reader, r);
    var inner' := DownUnderMark(base, inner, q.reader, r, q.input, 0);
    TurnsStep(Then(SkipElement, Return), q);
    TurnsStep(Return, q);
    var m, m' := ReadDownTo(q.reader, q.input, |base| + 1), ReadDownTo(r, q.input, |base|);
    if m.Rest? {
      TurnsStep(Return, Place(m.reader, m.input));
      TopUnderMark(base, inner', m.reader, m'.reader);
      DownExactly(r, q.input, |base|);
    }
  }
}
