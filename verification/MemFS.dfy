/**
 The in-memory file system: nodes that point to their children.  `at` is the tree the
 nodes form, as a map from names to nodes; it never occurs twice with the same node, so
 nothing is shared and there is no cycle.
 */
module MemoryFiles {
  import opened FileTree
  import opened Paths
  import opened Strings
  import opened Wrappers

  class Node {
    const isDir: bool
    const perm: nat
    var children: map<string, Node>
    var data: seq<bv8>

    constructor (isDir: bool, perm: nat)
      ensures this.isDir == isDir && this.perm == perm && children == map[] && data == []
    {
      this.isDir := isDir;
      this.perm := perm;
      children := map[];
      data := [];
    }
  }

  function Last(p: Name): string
    requires p != []
  {
    p[|p| - 1]
  }

  /** What a clean name reads as once its leading slash is stripped, from component `i` on. */
  function Rest(p: Name, i: nat): string
    requires i <= |p|
  {
    if i == |p| then "" else Join(p[i..])[1..]
  }

  lemma NextFragment(p: Name, i: nat)
    requires IsClean(p) && i < |p|
    ensures Rest(p, i) != ""
    ensures i + 1 == |p| ==> IndexOf(Rest(p, i), '/') == -1 && Rest(p, i) == p[i]
    ensures i + 1 < |p| ==>
      var j := IndexOf(Rest(p, i), '/');
      j >= 0 && Rest(p, i)[..j] == p[i] && Rest(p, i)[j + 1..] == Rest(p, i + 1)
  {
    var s := Rest(p, i);
    assert IsComponent(p[i]);
    assert p[i..][0] == p[i] && p[i..][1..] == p[i + 1..];
    assert s == p[i] + Join(p[i + 1..]);
    if i + 1 == |p| {
      assert Join(p[i + 1..]) == "";
      assert s == p[i];
    } else {
      assert s[|p[i]|] == '/';
      assert forall k :: 0 <= k < |p[i]| ==> s[k] == p[i][k] != '/';
      assert IndexOf(s, '/') == |p[i]|;
      assert s[|p[i]| + 1..] == Join(p[i + 1..])[1..];
    }
  }

  class MemFS {
    const root: Node
    ghost var at: map<Name, Node>

    /** The node of `p + [c]` is the child `c` of the node of `p`. */
    ghost predicate LinkAt(p: Name, c: string)
      reads this, at.Values`children
    {
      && (p + [c] in at <==> p in at && c in at[p].children)
      && (p + [c] in at ==> at[p + [c]] == at[p].children[c])
    }

    ghost predicate Rooted()
      reads this
    {
      [] in at && at[[]] == root && root.isDir
    }

    /** No node has two names. */
    ghost predicate Unshared()
      reads this
    {
      forall p, q :: p in at && q in at && at[p] == at[q] ==> p == q
    }

    ghost predicate Linked()
      reads this, at.Values`children
    {
      && (forall p, c :: LinkAt(p, c))
      && (forall p :: p in at && !at[p].isDir ==> at[p].children == map[])
    }

    ghost predicate Valid()
      reads this, at.Values`children
    {
      Rooted() && Unshared() && Linked() && Named()
    }

    ghost predicate Named()
      reads this
    {
      forall p :: p in at ==> IsClean(p)
    }

    ghost function EntryAt(p: Name): Entry
      requires p in at
      reads this, at.Values`data
    {
      if at[p].isDir then Dir(at[p].perm) else File(at[p].perm, at[p].data)
    }

    /** The tree, without the nodes. */
    ghost function View(): Tree
      reads this, at.Values`data
    {
      map p | p in at :: EntryAt(p)
    }

    lemma ViewIsTree()
      requires Valid()
      ensures IsTree(View())
    {
      forall p | p in at && p != []
        ensures IsDirAt(View(), Parent(p))
      {
        assert Parent(p) + [Last(p)] == p;
        assert LinkAt(Parent(p), Last(p));
      }
    }

    constructor ()
      ensures Valid() && View() == map[[] := Dir(432)]
    {
      root := new Node(true, 432);
      new;
      at := map[[] := root];
      assert forall p, c :: LinkAt(p, c) by {
        forall p: Name, c: string
          ensures LinkAt(p, c)
        {
          assert |p + [c]| > 0;
        }
      }
    }

    method Find(fullname: string) returns (err: Option<FsError>, parent: Node?, frag: string)
      requires Valid()
      ensures var p := SlashClean(fullname);
              && err == WalkError(View(), p, 0)
              && (err.None? ==>
                    if p == [] then parent == null
                    else
                      && Parent(p) in at && at[Parent(p)].isDir && parent == at[Parent(p)]
                      && frag == Last(p))
    {
      hide *;
      ghost var p := SlashClean(fullname);
      SlashCleanIsClean(fullname);
      WalkBegins(p);
      var rest := Render(SlashClean(fullname))[1..];
      var dir := root;
      ghost var i := 0;
      while true
        invariant Walking(p, i, dir, rest)
        decreases |p| - i
      {
        WalkStep(p, i, dir, rest);
        var j := IndexOf(rest, '/');
        frag := if j < 0 then rest else rest[..j];
        if frag == "" && dir != root {
          assert false;
        }
        if j < 0 {
          parent := if frag != "" then dir else null;
          return None, parent, frag;
        }
        if frag !in dir.children {
          return Some(NotExist), null, "";
        }
        var child := dir.children[frag];
        if !child.isDir {
          return Some(Invalid), null, "";
        }
        dir, rest := child, rest[j + 1..];
        i := i + 1;
      }
    }

    /** The walk to `p` has reached `dir`, its first `i` components, and `rest` is still to be read. */
    ghost predicate Walking(p: Name, i: nat, dir: Node, rest: string)
      reads this, at.Values`data
    {
      && i <= |p| && (p != [] ==> i < |p|) && rest == Rest(p, i)
      && p[..i] in at && dir == at[p[..i]] && dir.isDir && (dir == root ==> i == 0)
      && WalkError(View(), p, 0) == WalkError(View(), p, i)
    }

    lemma WalkBegins(p: Name)
      requires Valid()
      ensures Render(p) != "" && Walking(p, 0, root, Render(p)[1..])
    {
      hide WalkError, View;
      assert p[..0] == [] && p[0..] == p;
    }

    /** What the walk sees next: the last component, an error, or a directory to go on from. */
    lemma WalkStep(p: Name, i: nat, dir: Node, rest: string)
      requires Valid() && Walking(p, i, dir, rest) && IsClean(p)
      ensures i <= |p|
      ensures p == [] ==> IndexOf(rest, '/') < 0 && rest == "" && dir == root && WalkError(View(), p, 0) == None
      ensures p != [] && IndexOf(rest, '/') < 0 ==>
        rest != "" && Parent(p) in at && at[Parent(p)] == dir && dir.isDir && Last(p) == rest &&
          WalkError(View(), p, 0) == None
      ensures IndexOf(rest, '/') >= 0 ==>
        var frag := rest[..IndexOf(rest, '/')];
        && i < |p| && frag != ""
        && (frag !in dir.children ==> WalkError(View(), p, 0) == Some(NotExist))
        && (frag in dir.children && !dir.children[frag].isDir ==> WalkError(View(), p, 0) == Some(Invalid))
        && (frag in dir.children && dir.children[frag].isDir ==>
              Walking(p, i + 1, dir.children[frag], rest[IndexOf(rest, '/') + 1..]))
    {
      hide View, Rest, IsClean, Linked, Named;
      if p == [] {
        NothingToWalk();
      } else {
        NextFragment(p, i);
        ComponentNotEmpty(p, i);
        ChildOfPrefix(p, i);
        WalkErrorStep(p, i);
      }
    }

    lemma NothingToWalk()
      ensures Rest([], 0) == "" && IndexOf("", '/') < 0 && forall t: Tree :: WalkError(t, [], 0) == None
    {}

    static lemma ComponentNotEmpty(p: Name, i: nat)
      requires IsClean(p) && i < |p|
      ensures p[i] != ""
    {
      assert IsComponent(p[i]);
    }

    lemma ChildOfPrefix(p: Name, i: nat)
      requires Valid() && i < |p| && p[..i] in at
      ensures p[..i + 1] in at <==> p[i] in at[p[..i]].children
      ensures p[..i + 1] in at ==> at[p[..i + 1]] == at[p[..i]].children[p[i]] && at[p[..i + 1]] != root
    {
      assert LinkAt(p[..i], p[i]);
      assert p[..i] + [p[i]] == p[..i + 1];
      assert at[[]] == root;
    }

    lemma WalkErrorStep(p: Name, i: nat)
      requires i < |p| && p[..i] in at
      ensures i + 1 == |p| ==> Parent(p) == p[..i] && Last(p) == p[i] && WalkError(View(), p, i) == None
      ensures i + 1 < |p| ==>
        WalkError(View(), p, i) ==
          if p[..i + 1] !in at then Some(NotExist)
          else if !at[p[..i + 1]].isDir then Some(Invalid)
          else WalkError(View(), p, i + 1)
    {
      EntryKind(p[..i + 1]);
    }

    lemma EntryKind(p: Name)
      ensures p in View() <==> p in at
      ensures p in at ==> (View()[p].Dir? <==> at[p].isDir)
    {}

    /** Puts a new node where nothing is. */
    method Attach(ghost p: Name, dir: Node, frag: string, isDir: bool, perm: nat) returns (n: Node)
      requires Valid() && p != [] && p !in at && IsClean(p) && Parent(p) in at && dir == at[Parent(p)] && dir.isDir &&
        frag == Last(p)
      modifies this`at, dir`children
      ensures Valid() && fresh(n) && at == old(at)[p := n] && n.isDir == isDir && n.perm == perm && n.children == map[]
      ensures View() == old(View())[p := if isDir then Dir(perm) else File(perm, [])]
    {
      n := new Node(isDir, perm);
      ghost var q := Parent(p);
      assert q + [frag] == p;
      forall c
        ensures p + [c] !in at
      {
        assert LinkAt(p, c);
      }
      dir.children := dir.children[frag := n];
      at := at[p := n];
      forall r, c
        ensures LinkAt(r, c)
      {
        assert old(LinkAt(r, c));
        LastOf(r, c, p);
      }
    }

    lemma LastOf(r: Name, c: string, p: Name)
      requires p != []
      ensures r + [c] == p <==> r == Parent(p) && c == Last(p)
    {
      assert Parent(p) + [Last(p)] == p;
      if r + [c] == p {
        assert r == p[..|p| - 1];
      }
    }

    method Mkdir(name: string, perm: nat) returns (err: Option<FsError>)
      requires Valid()
      modifies this`at, at.Values`children
      ensures Valid()
      ensures (err, View()) == FileTree.Mkdir(old(View()), SlashClean(name), perm)
      ensures fresh(at.Values - old(at.Values))
    {
      hide WalkError, SlashClean, Rooted, Unshared, Linked, Named;
      SlashCleanIsClean(name);
      var dir, frag;
      err, dir, frag := Find(name);
      if err.Some? {
        return;
      }
      if dir == null {
        return Some(Invalid);
      }
      ChildIs(SlashClean(name), dir, frag);
      if frag in dir.children {
        return Some(Exist);
      }
      var n := Attach(SlashClean(name), dir, frag, true, perm);
    }

    lemma ChildIs(p: Name, dir: Node, frag: string)
      requires Valid() && p != [] && Parent(p) in at && dir == at[Parent(p)] && frag == Last(p)
      ensures frag in dir.children <==> p in at
      ensures p in at ==> dir.children[frag] == at[p]
    {
      assert Parent(p) + [Last(p)] == p;
      assert LinkAt(Parent(p), frag);
    }

    /** The names of a directory's children, in some order. */
    method Snapshot(n: Node) returns (names: seq<string>)
      ensures forall c :: c in names <==> c in n.children
      ensures forall i, j :: 0 <= i < j < |names| ==> names[i] != names[j]
    {
      var left := n.children.Keys;
      names := [];
      while left != {}
        invariant left <= n.children.Keys
        invariant forall c :: c in names <==> c in n.children && c !in left
        invariant forall i, j :: 0 <= i < j < |names| ==> names[i] != names[j]
        decreases left
      {
        var c :| c in left;
        left := left - {c};
        names := names + [c];
      }
    }

    method OpenFile(name: string, f: Flags, perm: nat) returns (err: Option<FsError>, file: MemFile?)
      requires Valid()
      modifies this`at, at.Values`children, at.Values`data
      ensures Valid()
      ensures (err, View()) == FileTree.Open(old(View()), SlashClean(name), f, perm)
      ensures fresh(at.Values - old(at.Values))
      ensures
        if f.create then old(at.Keys) <= at.Keys && forall q :: q in old(at) ==> at[q] == old(at)[q]
        else at == old(at)
      ensures err.None? ==>
        && file != null && fresh(file) && SlashClean(name) in at && file.node == at[SlashClean(name)] && file.pos == 0
        && (forall c :: c in file.names <==> c in file.node.children)
        && (forall i, j :: 0 <= i < j < |file.names| ==> file.names[i] != file.names[j])
    {
      hide WalkError, SlashClean, Rooted, Unshared, Linked, Named;
      SlashCleanIsClean(name);
      var dir, frag, n;
      file := null;
      err, dir, frag := Find(name);
      if err.Some? {
        return;
      }
      if dir == null {
        if f.write {
          return Some(Permission), null;
        }
        RootIs();
        n := root;
      } else {
        err, n := OpenChild(SlashClean(name), dir, frag, f, perm);
        if err.Some? {
          return;
        }
      }
      var names := Snapshot(n);
      file := new MemFile(n, names);
      return None, file;
    }

    method OpenChild(ghost p: Name, dir: Node, frag: string, f: Flags, perm: nat)
      returns (err: Option<FsError>, n: Node)
      requires Valid() && p != [] && Parent(p) in at && dir == at[Parent(p)] && dir.isDir && frag == Last(p)
      requires WalkError(View(), p, 0).None? && IsClean(p)
      modifies this`at, dir`children, at.Values`data
      ensures Valid()
      ensures (err, View()) == FileTree.Open(old(View()), p, f, perm)
      ensures fresh(at.Values - old(at.Values))
      ensures
        if f.create then old(at.Keys) <= at.Keys && forall q :: q in old(at) ==> at[q] == old(at)[q]
        else at == old(at)
      ensures err.None? ==> p in at && n == at[p]
    {
      hide WalkError, Rooted, Unshared, Linked, Named;
      n := dir;
      ChildIs(p, dir, frag);
      if f.unsupported {
        return Some(Invalid), n;
      }
      if f.create && f.excl && frag in dir.children {
        return Some(Exist), n;
      }
      if frag in dir.children {
        n := dir.children[frag];
        if f.write && f.trunc {
          Truncate(n, p);
        }
      } else if f.create {
        n := Attach(p, dir, frag, false, perm);
        if f.write && f.trunc {
          Truncate(n, p);
        }
        assert View() == old(View())[p := File(perm, [])];
      } else {
        return Some(NotExist), n;
      }
      return None, n;
    }

    lemma RootIs()
      requires Valid()
      ensures [] in at && at[[]] == root
    {}

    method Truncate(n: Node, ghost p: Name)
      requires Valid() && p in at && at[p] == n
      modifies n`data
      ensures Valid()
      ensures n.data == []
      ensures View() == if n.isDir then old(View()) else old(View())[p := File(n.perm, [])]
    {
      n.data := [];
      forall q | q in at
        ensures q == p || EntryAt(q) == old(EntryAt(q))
      {
        assert at[q] == n ==> q == p;
      }
    }

    /** Writing to one node changes one entry of the tree. */
    twostate lemma OneFileWritten(new p: Name)
      requires old(Valid()) && at == old(at) && p in at && !at[p].isDir
      requires forall q :: q in at ==> at[q].children == old(at[q].children)
      requires forall q :: q in at && at[q] != at[p] ==> at[q].data == old(at[q].data)
      ensures Valid() && View() == old(View())[p := File(at[p].perm, at[p].data)]
    {
      forall q, c
        ensures LinkAt(q, c)
      {
        assert old(LinkAt(q, c));
      }
    }

    method RemoveAll(name: string) returns (err: Option<FsError>)
      requires Valid()
      modifies this`at, at.Values`children
      ensures Valid()
      ensures (err, View()) == FileTree.RemoveAll(old(View()), SlashClean(name))
      ensures at.Values <= old(at.Values)
      ensures at == if err.None? then Without(old(at), SlashClean(name)) else old(at)
    {
      hide WalkError, SlashClean, Rooted, Unshared, Linked, Named;
      SlashCleanIsClean(name);
      var dir, frag;
      err, dir, frag := Find(name);
      if err.Some? {
        return;
      }
      if dir == null {
        return Some(Invalid);
      }
      Detach(SlashClean(name), dir, frag);
    }

    method Detach(ghost p: Name, dir: Node, frag: string)
      requires Valid() && p != [] && Parent(p) in at && dir == at[Parent(p)] && dir.isDir && frag == Last(p)
      modifies this`at, dir`children
      ensures Valid() && at == Without(old(at), p) && View() == Without(old(View()), p)
    {
      dir.children := dir.children - {frag};
      at := Without(at, p);
      GraftRoot(p);
      forall r, c
        ensures LinkAt(r, c)
      {
        assert old(LinkAt(r, c));
        LastOf(r, c, p);
        assert p <= r + [c] <==> p <= r || p == r + [c];
      }
    }

    method Stat(name: string) returns (err: Option<FsError>, entry: Option<Node>)
      requires Valid()
      ensures err == FileTree.Stat(View(), SlashClean(name))
      ensures err.None? ==> SlashClean(name) in at && entry == Some(at[SlashClean(name)])
    {
      hide WalkError, SlashClean, Rooted, Unshared, Linked, Named;
      var dir, frag;
      entry := None;
      err, dir, frag := Find(name);
      if err.Some? {
        return;
      }
      if dir == null {
        RootIs();
        return None, Some(root);
      }
      ChildIs(SlashClean(name), dir, frag);
      if frag in dir.children {
        return None, Some(dir.children[frag]);
      }
      return Some(NotExist), None;
    }

    method Rename(oldName: string, newName: string) returns (err: Option<FsError>)
      requires Valid()
      modifies this`at, at.Values`children
      ensures Valid()
      ensures (err, View()) == FileTree.Rename(old(View()), SlashClean(oldName), SlashClean(newName))
      ensures at.Values <= old(at.Values)
    {
      hide WalkError, Rooted, Unshared, Linked, Named, SlashClean, Moved;
      ghost var o, n := SlashClean(oldName), SlashClean(newName);
      SlashCleanIsClean(oldName);
      SlashCleanIsClean(newName);
      SameRendering(o, n);
      var oldPath, newPath := Render(SlashClean(oldName)), Render(SlashClean(newName));
      if oldPath == newPath {
        return None;
      }
      BelowItself(o, n);
      if oldPath + "/" <= newPath {
        return Some(Invalid);
      }
      var oDir, oFrag, nDir, nFrag;
      CleanAgain(o);
      CleanAgain(n);
      RootWalk(View());
      err, oDir, oFrag := Find(oldPath);
      if err.Some? {
        return;
      }
      if oDir == null {
        return Some(Invalid);
      }
      err, nDir, nFrag := Find(newPath);
      if err.Some? {
        return;
      }
      if nDir == null {
        return Some(Invalid);
      }
      ChildIs(o, oDir, oFrag);
      ChildIs(n, nDir, nFrag);
      if oFrag !in oDir.children {
        return Some(NotExist);
      }
      var oNode := oDir.children[oFrag];
      if oNode.isDir && nFrag in nDir.children {
        var nNode := nDir.children[nFrag];
        if !nNode.isDir {
          return Some(NotADirectory);
        }
        ChildrenOf(n);
        if |nNode.children| != 0 {
          return Some(DirectoryNotEmpty);
        }
      }
      Move(o, n, oDir, oFrag, nDir, nFrag, oNode);
    }

    lemma ChildrenOf(p: Name)
      requires Valid() && p in at
      ensures at[p].children.Keys == Children(View(), p)
    {
      forall c
        ensures c in at[p].children <==> c in Children(View(), p)
      {
        assert LinkAt(p, c);
        ChildrenAre(View(), p, c);
      }
    }

    /** The children of the node that was at `q`, once `node` has been moved from `o` to `n`. */
    static function Relinked(kids: map<string, Node>, q: Name, o: Name, n: Name, node: Node): map<string, Node>
      requires o != [] && n != []
    {
      var kept := if q == Parent(o) then kids - {Last(o)} else kids;
      if q == Parent(n) then kept[Last(n) := node] else kept
    }

    twostate lemma MovedLink(new o: Name, new n: Name, new r: Name, new c: string)
      requires o in old(at) && o != [] && n != [] && !(o <= n)
      requires old(Valid()) && at == Moved(old(at), o, n)
      requires forall q :: q in old(at) ==> old(at)[q].children == Relinked(old(at[q].children), q, o, n, old(at)[o])
      requires Parent(n) in old(at)
      ensures LinkAt(r, c)
    {
      hide Moved, Rooted, Unshared, Linked, Named, LinkAt;
      if n <= r {
        MovedLinkInside(o, n, r, c);
      } else {
        MovedLinkOutside(o, n, r, c);
      }
    }

    /** Inside the moved subtree. */
    twostate lemma MovedLinkInside(new o: Name, new n: Name, new r: Name, new c: string)
      requires o in old(at) && o != [] && n != [] && !(o <= n) && n <= r
      requires old(Valid()) && at == Moved(old(at), o, n)
      requires forall q :: q in old(at) ==> old(at)[q].children == Relinked(old(at[q].children), q, o, n, old(at)[o])
      ensures LinkAt(r, c)
    {
      hide Moved, Rooted, Unshared, Named;
      var x := r + [c];
      var r0 := o + r[|n|..];
      MovedAt(old(at), o, n, r);
      MovedAt(old(at), o, n, x);
      assert n <= x && o + x[|n|..] == r0 + [c];
      assert old(LinkAt(r0, c));
      assert o <= r0 && |Parent(o)| < |o|;
      assert Parent(n) <= n && (r0 == Parent(n) ==> o <= n);
    }

    /** The new name itself is linked from its new parent. */
    twostate lemma MovedLinkNew(new o: Name, new n: Name)
      requires o in old(at) && o != [] && n != [] && !(o <= n)
      requires old(Valid()) && at == Moved(old(at), o, n) && Parent(n) in old(at)
      requires forall q :: q in old(at) ==> old(at)[q].children == Relinked(old(at[q].children), q, o, n, old(at)[o])
      ensures LinkAt(Parent(n), Last(n))
    {
      hide Moved, Rooted, Unshared, Named;
      assert Parent(n) + [Last(n)] == n && Parent(n) <= n;
      MovedAt(old(at), o, n, Parent(n));
      MovedAt(old(at), o, n, n);
      assert o + n[|n|..] == o;
    }

    /** Elsewhere. */
    twostate lemma MovedLinkOutside(new o: Name, new n: Name, new r: Name, new c: string)
      requires o in old(at) && o != [] && n != [] && !(o <= n) && !(n <= r)
      requires old(Valid()) && at == Moved(old(at), o, n) && Parent(n) in old(at)
      requires forall q :: q in old(at) ==> old(at)[q].children == Relinked(old(at[q].children), q, o, n, old(at)[o])
      ensures LinkAt(r, c)
    {
      hide Moved, Rooted, Unshared, Named, LinkAt;
      LastOf(r, c, n);
      if r + [c] == n {
        MovedLinkNew(o, n);
      } else {
        MovedLinkKept(o, n, r, c);
      }
    }

    twostate lemma MovedLinkKept(new o: Name, new n: Name, new r: Name, new c: string)
      requires o in old(at) && o != [] && n != [] && !(o <= n) && !(n <= r) && r + [c] != n
      requires old(Valid()) && at == Moved(old(at), o, n) && Parent(n) in old(at)
      requires forall q :: q in old(at) ==> old(at)[q].children == Relinked(old(at[q].children), q, o, n, old(at)[o])
      ensures LinkAt(r, c)
    {
      hide Moved, Rooted, Unshared, Named;
      var x := r + [c];
      MovedAt(old(at), o, n, r);
      MovedAt(old(at), o, n, x);
      LastOf(r, c, o);
      LastOf(r, c, n);
      SnocPrefix(n, r, c);
      SnocPrefix(o, r, c);
      assert old(LinkAt(r, c));
    }

    method Move(ghost o: Name, ghost n: Name, oDir: Node, oFrag: string, nDir: Node, nFrag: string, oNode: Node)
      requires Valid() && o in at && o != [] && n != [] && !(o <= n) && IsClean(n)
      requires Parent(o) in at && oDir == at[Parent(o)] && oFrag == Last(o) && oNode == at[o]
      requires Parent(n) in at && nDir == at[Parent(n)] && nFrag == Last(n) && nDir.isDir && oDir.isDir
      modifies this`at, oDir`children, nDir`children
      ensures Valid() && at == Moved(old(at), o, n) && View() == Moved(old(View()), o, n)
      ensures at.Values <= old(at.Values)
    {
      hide Moved;
      oDir.children := oDir.children - {oFrag};
      nDir.children := nDir.children[nFrag := oNode];
      at := Moved(at, o, n);
      MovedNodes(o, n);
      forall q | q in old(at)
        ensures old(at)[q].children == Relinked(old(at[q].children), q, o, n, old(at)[o])
      {
        assert old(at)[q] == oDir ==> q == Parent(o);
        assert old(at)[q] == nDir ==> q == Parent(n);
      }
      forall r, c
        ensures LinkAt(r, c)
      {
        MovedLink(o, n, r, c);
      }
      forall p | p in at && !at[p].isDir
        ensures at[p].children == map[]
      {
        assert at[p] in old(at.Values);
      }
    }

    twostate lemma MovedNodes(new o: Name, new n: Name)
      requires o in old(at) && o != [] && n != [] && !(o <= n)
      requires old(Rooted() && Unshared() && Named()) && at == Moved(old(at), o, n) && IsClean(n)
      requires forall q :: q in old(at) ==> old(at)[q].data == old(at[q].data)
      ensures Rooted() && Unshared() && Named() && at.Values <= old(at.Values) && View() == Moved(old(View()), o, n)
    {
      hide Moved;
      GraftRoot(n);
      MovedAt(old(at), o, n, []);
      forall p | p in at
        ensures at[p] in old(at.Values) && IsClean(p)
      {
        MovedAt(old(at), o, n, p);
        if n <= p {
          CleanParts(o, p[|n|..]);
          CleanParts(n, p[|n|..]);
          assert p == n + p[|n|..];
        }
      }
      forall p, q | p in at && q in at && at[p] == at[q]
        ensures p == q
      {
        MovedAt(old(at), o, n, p);
        MovedAt(old(at), o, n, q);
        SameSource(o, n, p, q);
      }
      forall p
        ensures p in View() <==> p in Moved(old(View()), o, n)
        ensures p in View() ==> View()[p] == Moved(old(View()), o, n)[p]
      {
        MovedAt(old(at), o, n, p);
        MovedAt(old(View()), o, n, p);
      }
    }

    static lemma CleanParts(a: Name, b: Name)
      ensures IsClean(a + b) <==> IsClean(a) && IsClean(b)
    {
      assert forall i :: 0 <= i < |a| ==> (a + b)[i] == a[i];
      assert forall i :: 0 <= i < |b| ==> (a + b)[|a| + i] == b[i];
    }

    static lemma SameSource(o: Name, n: Name, p: Name, q: Name)
      requires (if n <= p then o + p[|n|..] else p) == (if n <= q then o + q[|n|..] else q)
      requires !(n <= p) ==> !(o <= p)
      requires !(n <= q) ==> !(o <= q)
      ensures p == q
    {
      if n <= p && n <= q {
        assert (o + p[|n|..])[|o|..] == p[|n|..] && (o + q[|n|..])[|o|..] == q[|n|..];
        assert p == n + p[|n|..] && q == n + q[|n|..];
      }
    }
  }

  lemma RootWalk(t: Tree)
    ensures WalkError(t, [], 0) == None
  {}

  lemma SameRendering(o: Name, n: Name)
    requires IsClean(o) && IsClean(n)
    ensures Render(o) == Render(n) <==> o == n
  {
    if Render(o) == Render(n) {
      RenderInjective(o, n);
    }
  }

  lemma CleanAgain(p: Name)
    requires IsClean(p)
    ensures SlashClean(Render(p)) == p
  {
    SlashCleanRender(p);
  }

  /** The prefix test of a rename; the root needs none, because it has no parent to be found in. */
  lemma BelowItself(o: Name, n: Name)
    requires IsClean(o) && IsClean(n)
    ensures o != [] ==> (Render(o) + "/" <= Render(n) <==> o < n)
    ensures o == [] ==> !(Render(o) + "/" <= Render(n))
  {
    if o != [] {
      SlashPrefixIsStrictPrefix(o, n);
      JoinIsEmpty(o);
      if n == [] {
        assert Join(o)[0] == '/' && |Join(o) + "/"| > 1;
      }
    } else if n != [] {
      assert IsComponent(n[0]);
      assert Render(n)[1] == n[0][0] != '/';
    }
  }

  // ---------- reading and writing ----------

  function Zeros(n: nat): seq<bv8> {
    seq(n, _ => 0)
  }

  /** `d` with `p` written at `pos`; a gap before `pos` is filled with zeros. */
  function Overwritten(d: seq<bv8>, pos: nat, p: seq<bv8>): seq<bv8> {
    if pos > |d| then d + Zeros(pos - |d|) + p
    else d[..pos] + p + (if pos + |p| < |d| then d[pos + |p|..] else [])
  }

  /** Byte by byte: what was written, what was there, and zeros between; and it reads back. */
  lemma OverwrittenBytes(d: seq<bv8>, pos: nat, p: seq<bv8>)
    ensures var r := Overwritten(d, pos, p);
            && |r| == (if pos + |p| > |d| then pos + |p| else |d|)
            && r[pos..pos + |p|] == p
            && forall i :: 0 <= i < |r| && !(pos <= i < pos + |p|) ==> r[i] == if i < |d| then d[i] else 0
  {
    var r := Overwritten(d, pos, p);
    assert forall k :: 0 <= k < |p| ==> r[pos + k] == p[k];
  }

  datatype Whence = FromStart | FromHere | FromEnd | FromNowhere

  /** A read and write position on a node, with the names of its children when it was opened. */
  class MemFile {
    const node: Node
    const names: seq<string>
    var pos: nat

    constructor (n: Node, names: seq<string>)
      ensures node == n && this.names == names && pos == 0
    {
      node := n;
      this.names := names;
      pos := 0;
    }

    /** At most `max` bytes; none at the end of the file. */
    method Read(max: nat) returns (chunk: seq<bv8>, eof: bool, err: Option<FsError>)
      modifies this`pos
      ensures node.isDir ==> err == Some(Invalid) && chunk == [] && pos == old(pos)
      ensures !node.isDir ==> err.None? && eof == (old(pos) >= |node.data|) && pos == old(pos) + |chunk|
      ensures !node.isDir && !eof ==>
        |chunk| == (if max < |node.data| - old(pos) then max else |node.data| - old(pos)) &&
          chunk == node.data[old(pos)..pos]
      ensures eof ==> chunk == []
    {
      if node.isDir {
        return [], false, Some(Invalid);
      }
      if pos >= |node.data| {
        return [], true, None;
      }
      var n := if max < |node.data| - pos then max else |node.data| - pos;
      chunk := node.data[pos..pos + n];
      pos := pos + n;
      return chunk, false, None;
    }

    /** A position before the start is refused; one past the end is not. */
    method Seek(offset: int, whence: Whence) returns (at: int, err: Option<FsError>)
      modifies this`pos
      ensures var npos := match whence
                          case FromStart => offset
                          case FromHere => old(pos) + offset
                          case FromEnd => |node.data| + offset
                          case FromNowhere => -1;
              if npos < 0 then err == Some(Invalid) && pos == old(pos) else err.None? && at == pos == npos
    {
      var npos: int := pos;
      match whence {
        case FromStart => npos := offset;
        case FromHere => npos := npos + offset;
        case FromEnd => npos := |node.data| + offset;
        case FromNowhere => npos := -1;
      }
      if npos < 0 {
        return 0, Some(Invalid);
      }
      pos := npos;
      return pos, None;
    }

    method Write(p0: seq<bv8>) returns (n: nat, err: Option<FsError>)
      modifies this`pos, node`data
      ensures node.isDir ==> err == Some(Invalid) && pos == old(pos) && node.data == old(node.data)
      ensures !node.isDir ==>
        err.None? && n == |p0| && pos == old(pos) + |p0| && node.data == Overwritten(old(node.data), old(pos), p0)
    {
      if node.isDir {
        return 0, Some(Invalid);
      }
      var p := p0;
      if pos < |node.data| {
        var k := if |p| < |node.data| - pos then |p| else |node.data| - pos;
        node.data := node.data[..pos] + p[..k] + node.data[pos + k..];
        pos := pos + k;
        p := p[k..];
      } else if pos > |node.data| {
        node.data := node.data + Zeros(pos - |node.data|);
      }
      if |p| > 0 {
        assert pos == |node.data|;
        node.data := node.data + p;
        pos := |node.data|;
      }
      return |p0|, None;
    }
  }

  /** The entry of a file that has been opened and then written from its start. */
  function FileWritten(t: Tree, p: Name, f: Flags, perm: nat, data: seq<bv8>): Entry {
    if p !in t then File(perm, data)
    else if t[p].Dir? then t[p]
    else File(t[p].perm, if f.write && f.trunc then data else Overwritten(t[p].data, 0, data))
  }

  method WriteFromStart(fs: MemFS, file: MemFile, ghost p: Name, data: seq<bv8>) returns (err: Option<FsError>)
    requires fs.Valid() && p in fs.at && file.node == fs.at[p] && file.pos == 0
    modifies file`pos, file.node`data
    ensures fs.Valid() && p in old(fs.View())
    ensures var t := old(fs.View());
            && (err.None? <==> t[p].File?)
            && fs.View() == if t[p].File? then t[p := File(t[p].perm, Overwritten(t[p].data, 0, data))] else t
  {
    hide fs.Rooted, fs.Unshared, fs.Linked, fs.Named, Overwritten;
    var n;
    n, err := file.Write(data);
    if !file.node.isDir {
      fs.OneFileWritten(p);
    }
  }

  lemma OverEmpty(data: seq<bv8>)
    ensures Overwritten([], 0, data) == data
  {}

  /**
   Opens a file and writes to it.  With truncation its contents are what has been written and
   no more; without, what has been written is put over the old contents.  Every other entry is
   as it was, and so is the whole tree when this fails.
   */
  method OpenThenWrite(fs: MemFS, name: string, f: Flags, perm: nat, data: seq<bv8>) returns (err: Option<FsError>)
    requires fs.Valid()
    modifies fs, fs.at.Values
    ensures fs.Valid()
    ensures var (p, t) := (SlashClean(name), old(fs.View()));
            && (err.None? <==>
                && p != [] && IsDirAt(t, Parent(p)) && !f.unsupported && (p !in t ==> f.create)
                && (p in t ==> t[p].File? && !(f.create && f.excl)))
            && fs.View() == if err.None? then t[p := FileWritten(t, p, f, perm, data)] else t
  {
    hide *;
    ghost var p, t := SlashClean(name), fs.View();
    fs.ViewIsTree();
    OpenedThenWritten(t, p, f, perm, data);
    var file;
    err, file := fs.OpenFile(name, f, perm);
    if err.None? {
      err := WriteFromStart(fs, file, p, data);
    }
  }

  /** The two steps on the tree. */
  lemma OpenedThenWritten(t: Tree, p: Name, f: Flags, perm: nat, data: seq<bv8>)
    requires IsTree(t)
    ensures var (err, t') := Open(t, p, f, perm);
            var written := p != [] && IsDirAt(t, Parent(p)) && !f.unsupported && (p !in t ==> f.create) &&
              (p in t ==> t[p].File? && !(f.create && f.excl));
            && (written ==> err.None?) && (err.Some? ==> t' == t)
            && (err.None? ==>
                  && p in t' && (t'[p].File? <==> written)
                  && (if written then t'[p := File(t'[p].perm, Overwritten(t'[p].data, 0, data))] else t') ==
                    if written then t[p := FileWritten(t, p, f, perm, data)] else t)
  {
    hide WalkError, Overwritten, Open;
    if p == [] {
      RootStays(t, f, perm);
    } else {
      OpenChanges(t, p, f, perm);
      OverEmpty(data);
      var t' := Open(t, p, f, perm).1;
      assert p in t && t[p].Dir? ==> t' == t;
      var e := FileWritten(t, p, f, perm, data);
      assert t'[p := e] == t[p := e];
    }
  }

  lemma RootStays(t: Tree, f: Flags, perm: nat)
    requires IsTree(t)
    ensures Open(t, [], f, perm).1 == t && [] in t && t[[]].Dir?
  {}

  lemma WrittenAtTheEnd(d: seq<bv8>, p: seq<bv8>)
    ensures Overwritten(d, |d|, p) == d + p
  {}

  lemma CopiedOn(d: seq<bv8>, s: seq<bv8>, a: nat, b: nat, c: nat)
    requires a <= b <= c <= |s|
    ensures d + s[a..b] + s[b..c] == d + s[a..c]
  {
    assert s[a..b] + s[b..c] == s[a..c];
  }

  /** Copies one buffer, unless there is nothing left. */
  method CopyChunk(dst: MemFile, src: MemFile) returns (eof: bool)
    requires dst.node != src.node && dst != src && !dst.node.isDir && !src.node.isDir
    requires dst.pos == |dst.node.data| && src.pos <= |src.node.data|
    modifies dst`pos, dst.node`data, src`pos
    ensures dst.pos == |dst.node.data| && old(src.pos) <= src.pos <= |src.node.data|
    ensures eof <==> old(src.pos) == |src.node.data|
    ensures !eof ==> src.pos > old(src.pos)
    ensures dst.node.data == old(dst.node.data) + src.node.data[old(src.pos)..src.pos]
  {
    hide Overwritten;
    var chunk, err;
    chunk, eof, err := src.Read(32768);
    WrittenAtTheEnd(dst.node.data, chunk);
    if !eof {
      var n, werr := dst.Write(chunk);
    }
  }

  /** Copies what is left of one file to the end of another, a buffer at a time. */
  method CopyContents(dst: MemFile, src: MemFile)
    requires dst.node != src.node && dst != src && !dst.node.isDir && !src.node.isDir
    requires dst.pos == |dst.node.data| && src.pos <= |src.node.data|
    modifies dst`pos, dst.node`data, src`pos
    ensures dst.node.data == old(dst.node.data) + old(src.node.data[src.pos..])
  {
    ghost var d, s, from := dst.node.data, src.node.data, src.pos;
    var eof := false;
    while !eof
      invariant dst.pos == |dst.node.data| && from <= src.pos <= |s| && src.node.data == s
      invariant dst.node.data == d + s[from..src.pos] && (eof ==> src.pos == |s|)
      decreases !eof, |s| - src.pos
    {
      ghost var at := src.pos;
      eof := CopyChunk(dst, src);
      CopiedOn(d, s, from, at, src.pos);
    }
  }
}
