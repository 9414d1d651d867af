/**
 COPY and MOVE on the in-memory file system (RFC 4918, sections 9.8 and 9.9).  A copy
 opens its source, clears its destination and then copies child by child, changing the
 tree as it goes; what it does to the whole tree is stated on the map of paths.
 */
module CopyMove {
  import opened FileTree
  import opened MemoryFiles
  import opened Paths
  import opened Wrappers

  // ---------- what a copy does ----------

  predicate Disjoint(p: Name, q: Name) {
    !(p <= q) && !(q <= p)
  }

  /**
   The copy does not come to what it makes: the two names are apart, or the destination is
   inside the source and no members are copied, or it is a new member of the source.
   */
  predicate Untouched(t: Tree, p: Name, q: Name, infinite: bool) {
    Disjoint(p, q) || (p < q && (!infinite || (|q| == |p| + 1 && q !in t)))
  }

  /** The destination is a member of the source that is there, so that a copy with members comes to itself. */
  predicate Member(t: Tree, p: Name, q: Name) {
    p < q && |q| == |p| + 1 && q in t
  }

  /**
   Where what is at `x` has been copied from, once the members `done` of `p` have been copied
   into its member `q`: `q` itself was copied into `q` when it had only the members `before`.
   */
  function Origin(p: Name, q: Name, before: set<string>, done: set<string>, x: Name): Option<Name>
    requires p < q <= x && |q| == |p| + 1
  {
    if x == q then Some(p)
    else if x[|q|] !in done then None
    else if x[|q|] != q[|p|] then Some(p + x[|q|..])
    else if |x| == |q| + 1 then Some(p)
    else if x[|q| + 1] in before then Some(p + x[|q| + 1..])
    else None
  }

  ghost predicate Nested(t: Tree, p: Name, q: Name, before: set<string>, done: set<string>, t': Tree)
    requires p < q && |q| == |p| + 1
  {
    forall x :: q <= x ==>
      var o := Origin(p, q, before, done, x);
      (x in t' <==> o.Some? && o.value in t) && (x in t' ==> t'[x] == t[o.value])
  }

  /** The copy of a collection with its members over one of them: it depends on which members come before that one. */
  ghost predicate OverMember(t: Tree, p: Name, q: Name, overwrite: bool, recursion: nat, status: Status, t': Tree)
    requires Member(t, p, q)
  {
    if recursion == RECURSION_LIMIT then status == ServerError && t' == t
    else if Refused(t, q, overwrite).Some? then status == Refused(t, q, overwrite).value && t' == t
    else if status == NoContent then NestedSomehow(t, p, q, Children(t, p), t')
    else status == ServerError && TooDeep(t, p, recursion + 1)
  }

  ghost predicate NestedSomehow(t: Tree, p: Name, q: Name, done: set<string>, t': Tree)
    requires p < q && |q| == |p| + 1
  {
    exists before: set<string> :: before <= done - {q[|p|]} && Nested(t, p, q, before, done, t')
  }

  /** The destination is further inside the source, so that a copy with members meets itself again and again. */
  predicate Inside(p: Name, q: Name) {
    p < q && |q| > |p| + 1
  }

  /** Something below `p` is so deep that the recursion does not reach it. */
  ghost predicate TooDeep(t: Tree, p: Name, recursion: nat) {
    exists s :: s in t && p <= s && |s| - |p| + recursion >= RECURSION_LIMIT
  }

  function SetOf(names: seq<string>): set<string> {
    set c | c in names
  }

  /** The copy of `p` at `q` with only the children in `done`. */
  function Partial(t: Tree, p: Name, q: Name, done: set<string>): Tree {
    var c := Copied(t, p, q);
    map x | x in c && (q < x ==> x[|q|] in done) :: c[x]
  }

  /** Without the members of a collection when its depth is 0. */
  function CopiedTree(t: Tree, p: Name, q: Name, infinite: bool): Tree {
    if infinite then Copied(t, p, q) else Partial(t, p, q, {})
  }

  /** Why the destination may not be cleared. */
  function Refused(t: Tree, q: Name, overwrite: bool): Option<Status> {
    if Stat(t, q).Some? && Stat(t, q) != Some(NotExist) then Some(Forbidden)
    else if q in t && !overwrite then Some(PreconditionFailed)
    else if q in t && q == [] then Some(Forbidden)
    else None
  }

  /** Why the copy itself may fail. */
  ghost function Failure(t: Tree, p: Name, q: Name, infinite: bool, recursion: nat): Option<Status> {
    if WalkError(t, q, 0).Some? then Some(if p in t && t[p].Dir? then Forbidden else Conflict)
    else if infinite && TooDeep(t, p, recursion) then Some(ServerError)
    else None
  }

  ghost function CopyStatus(t: Tree, p: Name, q: Name, overwrite: bool, infinite: bool, recursion: nat): Status {
    if recursion == RECURSION_LIMIT then ServerError
    else if Stat(t, p).Some? then (if Stat(t, p) == Some(NotExist) then NotFound else ServerError)
    else if Refused(t, q, overwrite).Some? then Refused(t, q, overwrite).value
    else if Failure(t, p, q, infinite, recursion).Some? then Failure(t, p, q, infinite, recursion).value
    else if q in t then NoContent else Created
  }

  /** The copy of a collection with its members to a place further inside it: it goes on to the recursion limit. */
  function Endless(t: Tree, p: Name, q: Name, overwrite: bool, recursion: nat): Status {
    if recursion == RECURSION_LIMIT then ServerError
    else if Stat(t, p).Some? then (if Stat(t, p) == Some(NotExist) then NotFound else ServerError)
    else if Refused(t, q, overwrite).Some? then Refused(t, q, overwrite).value
    else if WalkError(t, q, 0).Some? then Forbidden
    else ServerError
  }

  /** So such a copy never succeeds, and fails with 500 once there is a source and a place to put it. */
  lemma CopyFurtherInside(t: Tree, p: Name, q: Name, overwrite: bool)
    requires IsTree(t) && Inside(p, q)
    ensures !Succeeded(Endless(t, p, q, overwrite, 0))
    ensures IsDirAt(t, Parent(q)) && (q in t ==> overwrite) ==> Endless(t, p, q, overwrite, 0) == ServerError
  {
    hide WalkError;
    StatMeaning(t, p);
    StatMeaning(t, q);
    if IsDirAt(t, Parent(q)) {
      InsideADir(t, p, q);
    }
  }

  lemma InsideADir(t: Tree, p: Name, q: Name)
    requires IsTree(t) && p < q && IsDirAt(t, Parent(q))
    ensures IsDirAt(t, p) && p + [q[|p|]] <= q && (Inside(p, q) ==> p + [q[|p|]] in t)
  {
    hide IsTree;
    var c := p + [q[|p|]];
    assert p <= Parent(q);
    if p != Parent(q) {
      AncestorsAreDirs(t, p, Parent(q));
    }
    if Inside(p, q) && c != Parent(q) {
      assert c <= Parent(q);
      AncestorsAreDirs(t, c, Parent(q));
    }
  }

  /**
   A copy onto the source itself or onto a collection that the source is in: the source is
   removed with its destination, and only what has been opened can still be copied.
   */
  function Onto(t: Tree, p: Name, q: Name, overwrite: bool, infinite: bool, recursion: nat): (Status, Tree) {
    if recursion == RECURSION_LIMIT then (ServerError, t)
    else if Stat(t, p).Some? then (if Stat(t, p) == Some(NotExist) then NotFound else ServerError, t)
    else if Refused(t, q, overwrite).Some? then (Refused(t, q, overwrite).value, t)
    else (if Lost(t, p, infinite, recursion + 1).Some? then Lost(t, p, infinite, recursion + 1).value else NoContent,
          if p in t then Without(t, q)[q := t[p]] else t)
  }

  /** The first member of a collection that has been removed cannot be copied. */
  function Lost(t: Tree, p: Name, infinite: bool, recursion: nat): Option<Status> {
    if infinite && Children(t, p) != {} then Some(if recursion == RECURSION_LIMIT then ServerError else NotFound)
      else None
  }

  /**
   A collection that is copied with its members onto itself or onto a collection around it is
   lost: nothing but an empty collection is left at the destination, and the answer is 404
   unless there was nothing in it.  The rest is as it was.
   */
  lemma CopyOntoAncestor(t: Tree, p: Name, q: Name)
    requires IsTree(t) && p in t && t[p].Dir? && q <= p && q != []
    ensures var (status, t') := Onto(t, p, q, true, true, 0);
            && status == (if Children(t, p) == {} then NoContent else NotFound)
            && IsTree(t') && SameOutside(t, t', q)
            && (forall x :: x in t' && q <= x ==> x == q) && q in t' && t'[q] == t[p]
  {
    hide WalkError, Children;
    StatMeaning(t, p);
    StatMeaning(t, q);
    AncestorThere(t, p, q);
    WithoutKeepsTree(t, q);
    EntryKeepsTree(Without(t, q), q, t[p]);
    PartialNone(t, p, q);
    PartialOutside(t, p, q, {});
  }

  lemma AncestorThere(t: Tree, p: Name, q: Name)
    requires IsTree(t) && p in t && q <= p
    ensures q in t && (q != [] ==> IsDirAt(t, Parent(q)))
  {
    if q != p {
      AncestorsAreDirs(t, q, p);
    }
  }

  /**
   When source and destination are apart, or the destination is a new member of the source,
   a copy of unlimited depth succeeds exactly when there is a source, a directory to put it
   in, leave to replace what is there, and nothing deeper than the recursion limit.  It
   answers 201 exactly when nothing was there.
   */
  lemma CopySucceeds(t: Tree, p: Name, q: Name, overwrite: bool)
    requires IsTree(t) && Untouched(t, p, q, true)
    ensures Succeeded(CopyStatus(t, p, q, overwrite, true, 0)) <==>
            p in t && IsDirAt(t, Parent(q)) && (q in t ==> overwrite) && forall s :: s in t && p <= s ==>
              |s| - |p| < RECURSION_LIMIT
    ensures Succeeded(CopyStatus(t, p, q, overwrite, true, 0)) ==>
            (CopyStatus(t, p, q, overwrite, true, 0) == Created <==> q !in t)
  {
    hide WalkError;
    WalkMeaning(t, p);
    WalkMeaning(t, q);
    if p in t {
      assert p != [] ==> IsDirAt(t, Parent(p));
    }
    if q in t {
      assert q != [] ==> IsDirAt(t, Parent(q));
    }
  }

  /** A file stands where the path needs a collection. */
  ghost predicate FileAbove(t: Tree, p: Name) {
    exists q :: q < p && q in t && t[q].File?
  }

  /** The other answers: why there is no copy, and what is said when there is one. */
  lemma CopyAnswers(t: Tree, p: Name, q: Name, overwrite: bool, infinite: bool)
    requires IsTree(t)
    ensures var status := CopyStatus(t, p, q, overwrite, infinite, 0);
            && (p !in t ==> status == if FileAbove(t, p) then ServerError else NotFound)
            && (p in t && FileAbove(t, q) ==> status == Forbidden)
            && (p in t && q in t && !overwrite ==> status == PreconditionFailed)
            && (p in t && q == [] && overwrite ==> status == Forbidden)
            && (p in t && q != [] && IsDirAt(t, Parent(q)) && (q in t ==> overwrite) ==>
                  status == if infinite && TooDeep(t, p, 0) then ServerError else if q in t then NoContent else Created)
  {
    hide WalkError, TooDeep;
    StatMeaning(t, p);
    StatMeaning(t, q);
    AboveIsWalk(t, p);
    AboveIsWalk(t, q);
    assert [] in t;
    ParentOfPresent(t, q);
  }

  lemma AboveIsWalk(t: Tree, p: Name)
    requires IsTree(t)
    ensures FileAbove(t, p) <==> WalkError(t, p, 0) == Some(Invalid)
  {
    hide WalkError;
    WalkMeaning(t, p);
    if q :| q < p && q in t && t[q].File? {
      assert q == p[..|q|] && q != [];
    }
    if k :| 0 < k < |p| && p[..k] in t && t[p[..k]].File? {
      assert p[..k] < p;
    }
  }

  /** Where the parent of the destination is missing, a file is refused as a conflict and a collection as forbidden. */
  lemma MissingParent(t: Tree, p: Name, q: Name, overwrite: bool, infinite: bool, recursion: nat)
    requires IsTree(t) && Disjoint(p, q) && p in t && WalkError(t, q, 0) == Some(NotExist) &&
      recursion < RECURSION_LIMIT
    ensures CopyStatus(t, p, q, overwrite, infinite, recursion) == Conflict <==> t[p].File?
    ensures CopyStatus(t, p, q, overwrite, infinite, recursion) == Forbidden <==> t[p].Dir?
  {
    hide WalkError, TooDeep;
    StatMeaning(t, p);
    StatMeaning(t, q);
    ParentOfPresent(t, p);
    ParentOfPresent(t, q);
  }

  /** The copy is the source: the two subtrees are equal, the rest is as it was. */
  lemma CopyIsTheSource(t: Tree, p: Name, q: Name)
    requires IsTree(t) && p in t && q != [] && IsDirAt(t, Parent(q))
    ensures var t' := Copied(t, p, q);
            && IsTree(t')
            && (forall r :: q + r in t' <==> p + r in t)
            && (forall r :: p + r in t ==> t'[q + r] == t[p + r])
            && (forall x :: !(q <= x) ==> (x in t' <==> x in t) && (x in t ==> t'[x] == t[x]))
  {
    hide Copied;
    CopiedKeepsTree(t, p, q);
    forall r
      ensures q + r in Copied(t, p, q) <==> p + r in t
      ensures p + r in t ==> Copied(t, p, q)[q + r] == t[p + r]
    {
      CopiedAt(t, p, q, q + r);
      assert (q + r)[|q|..] == r;
    }
    forall x | !(q <= x)
      ensures x in Copied(t, p, q) <==> x in t
      ensures x in t ==> Copied(t, p, q)[x] == t[x]
    {
      CopiedAt(t, p, q, x);
    }
  }

  lemma PartialAt(t: Tree, p: Name, q: Name, done: set<string>, x: Name)
    ensures x in Partial(t, p, q, done) <==>
            if q <= x then p + x[|q|..] in t && (x != q ==> x[|q|] in done) else x in t
    ensures x in Partial(t, p, q, done) ==> Partial(t, p, q, done)[x] == t[if q <= x then p + x[|q|..] else x]
  {
    hide Copied;
    CopiedAt(t, p, q, x);
    assert q < x <==> q <= x && x != q;
  }

  lemma PartialNone(t: Tree, p: Name, q: Name)
    requires p in t
    ensures Partial(t, p, q, {}) == Without(t, q)[q := t[p]]
  {
    hide Partial;
    var a, b := Partial(t, p, q, {}), Without(t, q)[q := t[p]];
    forall x
      ensures x in a <==> x in b
      ensures x in b ==> a[x] == b[x]
    {
      PartialAt(t, p, q, {}, x);
      if x == q {
        assert p + x[|q|..] == p;
      }
    }
    assert a == b;
  }

  lemma FileIsAlone(t: Tree, p: Name, q: Name, done: set<string>)
    requires IsTree(t) && p in t && (t[p].File? || Children(t, p) <= done)
    ensures Partial(t, p, q, done) == Copied(t, p, q)
  {
    hide Partial, Copied, Children;
    var a, b := Partial(t, p, q, done), Copied(t, p, q);
    forall x
      ensures x in a <==> x in b
      ensures x in b ==> a[x] == b[x]
    {
      PartialAt(t, p, q, done, x);
      CopiedAt(t, p, q, x);
      if q <= x && x != q && p + x[|q|..] in t {
        FirstChild(t, p, p + x[|q|..]);
      }
    }
    assert a == b;
  }

  /** Whatever is below a name is below one of its children. */
  lemma FirstChild(t: Tree, p: Name, s: Name)
    requires IsTree(t) && s in t && p < s
    ensures p in t && t[p].Dir? && s[|p|] in Children(t, p) && p + [s[|p|]] in t
  {
    hide IsTree, Children;
    AncestorsAreDirs(t, p, s);
    ChildrenAre(t, p, s[|p|]);
    var c := p + [s[|p|]];
    assert c <= s;
    if c != s {
      AncestorsAreDirs(t, c, s);
    }
  }

  /** A child that is not the one on the way to the destination is apart from it. */
  lemma ChildApart(p: Name, q: Name, c: string)
    requires !(q <= p) && (p < q ==> c != q[|p|])
    ensures Disjoint(p + [c], q)
  {
    SnocPrefix(p, q, c);
    if q <= p + [c] {
      PrefixesCompare(p, q, p + [c]);
    }
  }

  lemma ChildrenDisjoint(p: Name, q: Name, c: string)
    requires Disjoint(p + [c], q)
    ensures Disjoint(p + [c], q + [c])
  {
    SnocPrefix(q, p + [c], c);
    if p + [c] <= q + [c] {
      PrefixesCompare(p + [c], q, q + [c]);
    }
  }

  /** Copying one more child. */
  lemma ChildCopied(t: Tree, p: Name, q: Name, done: set<string>, c: string)
    requires Disjoint(p + [c], q)
    ensures Copied(Partial(t, p, q, done), p + [c], q + [c]) == Partial(t, p, q, done + {c})
  {
    hide Partial, Copied;
    var s := Partial(t, p, q, done);
    var a, b := Copied(s, p + [c], q + [c]), Partial(t, p, q, done + {c});
    forall x
      ensures x in a <==> x in b
      ensures x in b ==> a[x] == b[x]
    {
      CopiedAt(s, p + [c], q + [c], x);
      PartialAt(t, p, q, done + {c}, x);
      PartialAt(t, p, q, done, x);
      if q + [c] <= x {
        var y := p + [c] + x[|q| + 1..];
        assert y == p + x[|q|..] by {
          assert x[|q|] == c;
        }
        PartialAt(t, p, q, done, y);
        ChildNotBelow(p, q, c, x[|q| + 1..]);
        assert q <= x && x != q && x[|q|] == c;
      } else if q < x {
        assert q + [x[|q|]] == x[..|q| + 1];
      }
    }
    assert a == b;
  }

  lemma ChildNotBelow(p: Name, q: Name, c: string, r: Name)
    requires Disjoint(p + [c], q)
    ensures !(q <= p + [c] + r)
  {
    assert p + [c] <= p + [c] + r;
    PrefixesCompare(p + [c], q, p + [c] + r);
  }

  /** What is apart from the destination is as it was. */
  lemma SameAway(t: Tree, s: Tree, q: Name, p: Name, x: Name)
    requires SameOutside(t, s, q) && Disjoint(p, q) && p <= x
    ensures (x in s <==> x in t) && (x in t ==> s[x] == t[x])
  {
    if q <= x {
      PrefixesCompare(p, q, x);
    }
    WithoutAt(t, q, x);
    WithoutAt(s, q, x);
  }

  /** In the middle of a copy a child is copied to a free name, and fails only by being too deep. */
  lemma ChildStatus(t: Tree, s: Tree, p: Name, q: Name, c: string, overwrite: bool, recursion: nat)
    requires IsTree(s) && SameOutside(t, s, q) && Disjoint(p + [c], q) && IsDirAt(s, q)
    requires p + [c] in t && q + [c] !in s && recursion <= RECURSION_LIMIT
    ensures CopyStatus(s, p + [c], q + [c], overwrite, true, recursion) ==
            if TooDeep(t, p + [c], recursion) then ServerError else Created
  {
    hide IsTree, WalkError, SameOutside;
    var pc, qc := p + [c], q + [c];
    assert Parent(qc) == q;
    forall x | pc <= x
      ensures x in s <==> x in t
    {
      SameAway(t, s, q, pc, x);
    }
    StatMeaning(s, pc);
    StatMeaning(s, qc);
    AtTheLimit(t, pc, recursion);
  }

  lemma AtTheLimit(t: Tree, p: Name, recursion: nat)
    requires p in t
    ensures recursion >= RECURSION_LIMIT ==> TooDeep(t, p, recursion)
  {
    assert p <= p;
  }

  /** A copy goes too deep exactly when one of its children's copies does. */
  lemma DeepChild(t: Tree, p: Name, recursion: nat)
    requires IsTree(t) && p in t && recursion < RECURSION_LIMIT
    ensures TooDeep(t, p, recursion) <==> SomeChildDeep(t, p, recursion + 1)
  {
    hide Children, IsTree;
    if TooDeep(t, p, recursion) {
      var s :| s in t && p <= s && |s| - |p| + recursion >= RECURSION_LIMIT;
      FirstChild(t, p, s);
      assert p + [s[|p|]] <= s;
      assert TooDeep(t, p + [s[|p|]], recursion + 1);
    }
    if SomeChildDeep(t, p, recursion + 1) {
      var c :| c in Children(t, p) && TooDeep(t, p + [c], recursion + 1);
      var s :| s in t && p + [c] <= s && |s| - |p + [c]| + (recursion + 1) >= RECURSION_LIMIT;
      assert p <= s;
    }
  }

  // ---------- how a copy does it ----------

  lemma {:induction false} WalkIgnoresTarget(t: Tree, q: Name, i: nat)
    ensures WalkError(Without(t, q), q, i) == WalkError(t, q, i)
    decreases |q| - i
  {
    if i + 1 < |q| {
      WithoutAt(t, q, q[..i + 1]);
      assert !(q <= q[..i + 1]);
      WalkIgnoresTarget(t, q, i + 1);
    }
  }

  /** Looks at the destination and clears it. */
  method ClearDestination(fs: MemFS, dst: string, overwrite: bool) returns (refused: Option<Status>, created: bool)
    requires fs.Valid()
    modifies fs`at, fs.at.Values`children
    ensures fs.Valid() && fs.at.Values <= old(fs.at.Values)
    ensures var t, q := old(fs.View()), SlashClean(dst);
            && refused == Refused(t, q, overwrite)
            && (refused.None? ==> (created <==> q !in t))
    ensures if refused.None? then fs.at == Without(old(fs.at), SlashClean(dst)) &&
      fs.View() == Without(old(fs.View()), SlashClean(dst))
            else fs.View() == old(fs.View())
  {
    hide WalkError, SlashClean, Without;
    fs.ViewIsTree();
    WalkMeaning(fs.View(), SlashClean(dst));
    created := false;
    var err, entry := fs.Stat(dst);
    if err.Some? {
      if err == Some(NotExist) {
        NothingThere(fs, SlashClean(dst));
        return None, true;
      }
      return Some(Forbidden), false;
    }
    if !overwrite {
      return Some(PreconditionFailed), false;
    }
    err := fs.RemoveAll(dst);
    refused := if err.Some? && err != Some(NotExist) then Some(Forbidden) else None;
  }

  lemma NothingThere(fs: MemFS, q: Name)
    requires fs.Valid() && IsTree(fs.View()) && Stat(fs.View(), q) == Some(NotExist)
    requires WalkError(fs.View(), q, 0).None? <==> IsDirAt(fs.View(), Parent(q))
    ensures q !in fs.at && Without(fs.at, q) == fs.at && Without(fs.View(), q) == fs.View()
  {
    hide WalkError;
    NoneBelow(fs.View(), q);
    assert forall x :: x in fs.at ==> x in fs.View();
  }

  /** Creates the destination file and copies the contents. */
  method CopyFile(fs: MemFS, dst: string, srcFile: MemFile) returns (status: Option<Status>)
    requires fs.Valid() && !srcFile.node.isDir && srcFile.pos == 0
    requires SlashClean(dst) != [] && SlashClean(dst) !in fs.at &&
      WalkError(fs.View(), SlashClean(dst), 0) != Some(Invalid)
    modifies fs`at, fs.at.Values`children, fs.at.Values`data, srcFile`pos
    ensures fs.Valid() && fresh(fs.at.Values - old(fs.at.Values))
    ensures WalkError(old(fs.View()), SlashClean(dst), 0).Some? ==>
      status == Some(Conflict) && fs.View() == old(fs.View())
    ensures WalkError(old(fs.View()), SlashClean(dst), 0).None? ==>
      status == None && fs.View() == old(fs.View())[SlashClean(dst) := File(srcFile.node.perm, old(srcFile.node.data))]
  {
    hide WalkError, SlashClean, FileTree.Open, fs.View, fs.Valid;
    ghost var nodes, t, data := fs.at, fs.View(), srcFile.node.data;
    Linked(fs, srcFile.node);
    OpenNew(t, SlashClean(dst), srcFile.node.perm);
    var err, dstFile := fs.OpenFile(dst, Flags(true, true, false, true, false), srcFile.node.perm);
    if err.Some? {
      return if err == Some(NotExist) then Some(Conflict) else Some(Forbidden);
    }
    SameContents(fs, srcFile.node, nodes, t, data);
    NewNode(fs, srcFile.node, nodes, SlashClean(dst));
    FillFile(fs, dstFile, srcFile, SlashClean(dst));
    status := None;
  }

  /** A node that was in the tree has the contents it had, if nothing that was there has changed. */
  lemma SameContents(fs: MemFS, n: Node, nodes: map<Name, Node>, t: Tree, data: seq<bv8>)
    requires forall x :: x in nodes && nodes[x] == n ==> x in t && t[x] == File(n.perm, data)
    requires forall x :: x in nodes ==> x in fs.at && fs.at[x] == nodes[x] && x in t && fs.View()[x] == t[x]
    ensures n in nodes.Values ==> n.data == data
  {
    if n in nodes.Values {
      var x :| x in nodes && nodes[x] == n;
      assert x in fs.View() && fs.View()[x] == File(n.perm, n.data);
    }
  }

  lemma OpenNew(t: Tree, q: Name, perm: nat)
    requires q != [] && q !in t
    ensures Open(t, q, Flags(true, true, false, true, false), perm) ==
            if WalkError(t, q, 0).Some? then (WalkError(t, q, 0), t) else (None, t[q := File(perm, [])])
  {
    hide WalkError;
  }

  lemma NewNode(fs: MemFS, n: Node, nodes: map<Name, Node>, q: Name)
    requires fs.Valid() && q in fs.at && q !in nodes && forall x :: x in nodes ==> x in fs.at && fs.at[x] == nodes[x]
    ensures n in nodes.Values ==> fs.at[q] != n
  {}

  lemma Linked(fs: MemFS, n: Node)
    requires !n.isDir
    ensures fs.at.Keys == fs.View().Keys && forall x :: x in fs.at && fs.at[x] == n ==>
      fs.View()[x] == File(n.perm, n.data)
  {}

  method FillFile(fs: MemFS, dstFile: MemFile, srcFile: MemFile, ghost q: Name)
    requires fs.Valid() && q in fs.at && srcFile != dstFile && srcFile.node != dstFile.node
    requires !srcFile.node.isDir && srcFile.pos == 0
    requires dstFile.node == fs.at[q] && dstFile.pos == 0 && fs.View()[q] == File(srcFile.node.perm, [])
    modifies dstFile.node`data, dstFile`pos, srcFile`pos
    ensures fs.Valid() && fs.View() == old(fs.View())[q := File(srcFile.node.perm, old(srcFile.node.data))]
  {
    hide *;
    EntryOf(fs, q);
    assert [] + srcFile.node.data[0..] == srcFile.node.data;
    CopyContents(dstFile, srcFile);
    fs.OneFileWritten(q);
  }

  lemma EntryOf(fs: MemFS, p: Name)
    requires p in fs.at
    ensures p in fs.View() && fs.View()[p] == if fs.at[p].isDir then Dir(fs.at[p].perm)
      else File(fs.at[p].perm, fs.at[p].data)
  {}

  // A copy of one child is a copy; a copy of a directory is a copy of its children.

  /** What is copied, from which tree to where, and how; and whether anything below the source is too deep. */
  ghost predicate CopyDone(t: Tree, p: Name, q: Name, overwrite: bool, infinite: bool, recursion: nat, status: Status,
                           t': Tree)
  {
    && SameOutside(t, t', q)
    && (Untouched(t, p, q, infinite) ==>
          && status == CopyStatus(t, p, q, overwrite, infinite, recursion)
          && (Succeeded(status) ==> t' == CopiedTree(t, p, q, infinite))
          && (!Succeeded(status) && !TooDeep(t, p, recursion) ==> t' == t))
    && (q <= p ==> (status, t') == Onto(t, p, q, overwrite, infinite, recursion))
    && (infinite && Inside(p, q) ==> status == Endless(t, p, q, overwrite, recursion))
    && (infinite && Member(t, p, q) ==> OverMember(t, p, q, overwrite, recursion, status, t'))
    && (recursion == RECURSION_LIMIT || Stat(t, p).Some? || Refused(t, q, overwrite).Some? ==> t' == t)
  }

  /** A copy is answered with 412 exactly when it would replace something and may not; then nothing is changed. */
  lemma CopyMayNotReplace(t: Tree, p: Name, q: Name, overwrite: bool, infinite: bool, status: Status, t': Tree)
    requires IsTree(t) && CopyDone(t, p, q, overwrite, infinite, 0, status, t')
    ensures status == PreconditionFailed <==> p in t && q in t && !overwrite
    ensures status == PreconditionFailed ==> t' == t
  {
    hide WalkError, TooDeep, CopiedTree, NestedSomehow, SameOutside, IsTree;
    StatMeaning(t, p);
    StatMeaning(t, q);
    if Disjoint(p, q) || (!(q <= p) && !infinite) {
      assert Untouched(t, p, q, infinite);
    } else if q <= p {
      if p in t {
        AncestorThere(t, p, q);
      }
    } else if |q| > |p| + 1 {
      assert Inside(p, q);
    } else if q in t {
      assert Member(t, p, q);
      AncestorsAreDirs(t, p, q);
    } else {
      assert Untouched(t, p, q, infinite);
    }
  }

  method CopyFiles(fs: MemFS, src: string, dst: string, overwrite: bool, infinite: bool, recursion: nat)
    returns (status: Status)
    requires fs.Valid() && recursion <= RECURSION_LIMIT
    modifies fs`at, fs.at.Values`children, fs.at.Values`data
    ensures fs.Valid() && fresh(fs.at.Values - old(fs.at.Values))
    ensures CopyDone(old(fs.View()), SlashClean(src), SlashClean(dst), overwrite, infinite, recursion, status,
      fs.View())
    decreases RECURSION_LIMIT - recursion, 0
  {
    hide *;
    ghost var t, p, q := fs.View(), SlashClean(src), SlashClean(dst);
    fs.ViewIsTree();
    CopyRefused(t, p, q, overwrite, infinite, recursion);
    if recursion == RECURSION_LIMIT {
      return ServerError;
    }
    var err, srcFile := fs.OpenFile(src, Flags(false, false, false, false, false), 0);
    OpenForReading(t, p);
    if err.Some? {
      return if err == Some(NotExist) then NotFound else ServerError;
    }
    NamesAreChildren(fs, p, srcFile.names);
    EntryOf(fs, p);
    var refused, created := ClearDestination(fs, dst, overwrite);
    if refused.Some? {
      return refused.value;
    }
    var failed := CopyOver(fs, src, dst, srcFile, overwrite, infinite, recursion + 1, t);
    CopyEnds(t, p, q, overwrite, infinite, recursion, failed, fs.View());
    if failed.Some? {
      return failed.value;
    }
    return if created then Created else NoContent;
  }

  /** What `CopyOver` has done, when the destination had been cleared. */
  ghost predicate OverDone(t: Tree, p: Name, q: Name, infinite: bool, recursion: nat, failed: Option<Status>,
                           t': Tree)
  {
    && SameOutside(t, t', q)
    && (Untouched(t, p, q, infinite) ==>
          && failed == Failure(t, p, q, infinite, recursion)
          && (failed.None? ==> t' == CopiedTree(t, p, q, infinite))
          && (failed.Some? && !TooDeep(t, p, recursion) ==> t' == t))
    && (q <= p && p in t ==> failed == Lost(t, p, infinite, recursion + 1) && t' == Without(t, q)[q := t[p]])
    && (infinite && Inside(p, q) ==> failed == Some(if WalkError(t, q, 0).Some? then Forbidden else ServerError))
    && (infinite && Member(t, p, q) ==> MembersDone(t, p, q, recursion + 1, failed, t'))
  }

  /** The cases in which nothing is copied. */
  lemma CopyRefused(t: Tree, p: Name, q: Name, overwrite: bool, infinite: bool, recursion: nat)
    requires IsTree(t)
    ensures recursion == RECURSION_LIMIT ==> CopyDone(t, p, q, overwrite, infinite, recursion, ServerError, t)
    ensures recursion != RECURSION_LIMIT && Stat(t, p).Some? ==>
      CopyDone(t, p, q, overwrite, infinite, recursion,
               if Stat(t, p) == Some(NotExist) then NotFound else ServerError, t)
    ensures recursion != RECURSION_LIMIT && Stat(t, p).None? && Refused(t, q, overwrite).Some? ==>
      CopyDone(t, p, q, overwrite, infinite, recursion, Refused(t, q, overwrite).value, t)
    ensures Stat(t, p).None? <==> p in t
    ensures WalkError(t, q, 0).None? <==> IsDirAt(t, Parent(q))
    ensures Refused(t, q, overwrite).None? ==> q != [] && WalkError(t, q, 0) != Some(Invalid)
  {
    hide TooDeep, WalkError, CopiedTree, Children, NestedSomehow, Without, IsTree;
    StatMeaning(t, p);
    StatMeaning(t, q);
    OutsideSelf(t, q);
    ParentOfPresent(t, q);
    assert p < q && |q| == |p| + 1 ==> Parent(q) == p;
    RootThere(t);
  }

  lemma RootThere(t: Tree)
    requires IsTree(t)
    ensures [] in t
  {}

  lemma CopyEnds(t: Tree, p: Name, q: Name, overwrite: bool, infinite: bool, recursion: nat, failed: Option<Status>,
                 t': Tree)
    requires IsTree(t) && p in t && recursion < RECURSION_LIMIT && Refused(t, q, overwrite).None?
    requires OverDone(t, p, q, infinite, recursion, failed, t')
    ensures CopyDone(t, p, q, overwrite, infinite, recursion,
                     if failed.Some? then failed.value else if q in t then NoContent else Created, t')
  {
    hide TooDeep, WalkError, CopiedTree, Children;
    StatMeaning(t, p);
    if q <= p {
      AncestorThere(t, p, q);
    }
  }

  /** Makes the destination and, for a collection of unlimited depth, what belongs in it. */
  method CopyOver(fs: MemFS, src: string, dst: string, srcFile: MemFile, overwrite: bool, infinite: bool,
                  recursion: nat, ghost t: Tree)
    returns (failed: Option<Status>)
    requires fs.Valid() && 0 < recursion <= RECURSION_LIMIT
    requires IsTree(t) && SlashClean(src) in t && SlashClean(dst) != []
    requires fs.View() == Without(t, SlashClean(dst)) && WalkError(t, SlashClean(dst), 0) != Some(Invalid)
    requires srcFile.pos == 0 && NamesOf(t, SlashClean(src), srcFile.names)
    requires t[SlashClean(src)] == if srcFile.node.isDir then Dir(srcFile.node.perm)
      else File(srcFile.node.perm, srcFile.node.data)
    modifies fs`at, fs.at.Values`children, fs.at.Values`data, srcFile`pos
    ensures fs.Valid() && fresh(fs.at.Values - old(fs.at.Values))
    ensures OverDone(t, SlashClean(src), SlashClean(dst), infinite, recursion - 1, failed, fs.View())
    decreases RECURSION_LIMIT - recursion, 3
  {
    hide *;
    ghost var p, q := SlashClean(src), SlashClean(dst);
    OverParts(t, p, q, infinite, recursion);
    WalkIgnoresTarget(t, q, 0);
    Cleared(fs, t, q);
    if srcFile.node.isDir {
      var err := fs.Mkdir(dst, srcFile.node.perm);
      MkdirCleared(t, q, srcFile.node.perm);
      if err.Some? {
        return Some(Forbidden);
      }
      failed := None;
      if infinite {
        failed := CopyChildren(fs, src, dst, overwrite, recursion, srcFile.names, t);
        ChildrenEnd(t, p, q, recursion, srcFile.names, failed, fs.View());
      }
    } else {
      failed := CopyFile(fs, dst, srcFile);
    }
  }

  lemma OverParts(t: Tree, p: Name, q: Name, infinite: bool, recursion: nat)
    requires IsTree(t) && p in t && q != [] && 0 < recursion <= RECURSION_LIMIT && WalkError(t, q, 0) != Some(Invalid)
    ensures WalkError(t, q, 0).None? <==> IsDirAt(t, Parent(q))
    ensures WalkError(t, q, 0).Some? ==>
      OverDone(t, p, q, infinite, recursion - 1, Some(if t[p].Dir? then Forbidden else Conflict), t)
    ensures WalkError(t, q, 0).None? && (t[p].File? || !infinite) ==>
      OverDone(t, p, q, infinite, recursion - 1, None, Without(t, q)[q := t[p]])
    ensures Partial(t, p, q, {}) == Without(t, q)[q := t[p]]
    ensures IsDirAt(t, p) <==> t[p].Dir?
  {
    hide WalkError, Partial, Copied, TooDeep, Children, IsTree;
    StatMeaning(t, q);
    OutsideSelf(t, q);
    PartialNone(t, p, q);
    PartialOutside(t, p, q, {});
    if q <= p {
      AncestorThere(t, p, q);
    }
    InsideAFile(t, p, q);
    if t[p].File? {
      FileIsAlone(t, p, q, {});
      FileNotDeep(t, p, recursion - 1);
      FileHasNone(t, p);
    }
  }

  lemma InsideAFile(t: Tree, p: Name, q: Name)
    requires IsTree(t) && p in t
    ensures p < q && t[p].File? ==> WalkError(t, q, 0) == Some(Invalid)
  {
    if p < q && t[p].File? {
      WalkMeaning(t, q);
      assert q[..|p|] == p;
      RootIsDir(t, p);
    }
  }

  lemma RootIsDir(t: Tree, p: Name)
    requires IsTree(t) && p in t && t[p].File?
    ensures p != []
  {}

  lemma FileHasNone(t: Tree, p: Name)
    requires IsTree(t) && p in t && t[p].File?
    ensures Children(t, p) == {}
  {
    forall c | c in Children(t, p)
      ensures false
    {
      ChildrenAre(t, p, c);
      AncestorsAreDirs(t, p, p + [c]);
    }
  }

  /** What copying the members has done. */
  ghost predicate ChildrenDone(t: Tree, p: Name, q: Name, recursion: nat, names: seq<string>, failed: Option<Status>,
                               t': Tree)
  {
    && SameOutside(t, t', q)
    && (Untouched(t, p, q, true) ==>
          failed == (if SomeChildDeep(t, p, recursion) then Some(ServerError) else None) &&
            (failed.None? ==> t' == Copied(t, p, q)))
    && (q <= p ==>
          failed == (if names == [] then None else Some(LostStatus(recursion))) && t' == Partial(t, p, q, {}))
    && (Inside(p, q) ==> failed == Some(ServerError))
    && (Member(t, p, q) ==> MembersDone(t, p, q, recursion, failed, t'))
  }

  /** The same, when the destination is one of the members. */
  ghost predicate MembersDone(t: Tree, p: Name, q: Name, recursion: nat, failed: Option<Status>, t': Tree)
    requires Member(t, p, q)
  {
    if failed.None? then NestedSomehow(t, p, q, Children(t, p), t')
    else failed == Some(ServerError) && TooDeep(t, p, recursion)
  }

  function LostStatus(recursion: nat): Status {
    if recursion == RECURSION_LIMIT then ServerError else NotFound
  }

  lemma ChildrenEnd(t: Tree, p: Name, q: Name, recursion: nat, names: seq<string>, failed: Option<Status>, t': Tree)
    requires IsTree(t) && IsDirAt(t, p) && WalkError(t, q, 0).None? && 0 < recursion <= RECURSION_LIMIT &&
      NamesOf(t, p, names)
    requires ChildrenDone(t, p, q, recursion, names, failed, t')
    ensures OverDone(t, p, q, true, recursion - 1, failed, t')
  {
    hide WalkError, Partial, Copied, TooDeep, Children, IsTree, SomeChildDeep;
    PartialNone(t, p, q);
    DeepChild(t, p, recursion - 1);
    AllNames(t, p, names);
    if names != [] {
      ChildrenAre(t, p, names[0]);
    }
  }

  /** The members called `names[..i]` have been copied. */
  ghost predicate SoFar(t: Tree, p: Name, q: Name, recursion: nat, names: seq<string>, i: nat, t': Tree) {
    && i <= |names| && SameOutside(t, t', q)
    && (Untouched(t, p, q, true) || Inside(p, q) ==>
          && t' == Partial(t, p, q, SetOf(names[..i]))
          && (forall j :: 0 <= j < i ==> !TooDeep(t, p + [names[j]], recursion))
          && (Inside(p, q) ==> q[|p|] !in names[..i]))
    && (Member(t, p, q) ==>
          if q[|p|] in names[..i] then NestedSomehow(t, p, q, SetOf(names[..i]), t')
          else t' == Partial(t, p, q, SetOf(names[..i])))
    && (q <= p ==> i == 0 && t' == Partial(t, p, q, {}))
  }

  method CopyChildren(fs: MemFS, src: string, dst: string, overwrite: bool, recursion: nat, names: seq<string>,
                      ghost t: Tree)
    returns (failed: Option<Status>)
    requires fs.Valid() && recursion <= RECURSION_LIMIT
    requires IsTree(t) && IsDirAt(t, SlashClean(src)) && IsDirAt(t, Parent(SlashClean(dst))) && SlashClean(dst) != []
    requires fs.View() == Partial(t, SlashClean(src), SlashClean(dst), {})
    requires NamesOf(t, SlashClean(src), names)
    modifies fs`at, fs.at.Values`children, fs.at.Values`data
    ensures fs.Valid() && fresh(fs.at.Values - old(fs.at.Values))
    ensures ChildrenDone(t, SlashClean(src), SlashClean(dst), recursion, names, failed, fs.View())
    decreases RECURSION_LIMIT - recursion, 2
  {
    hide *;
    ghost var p, q := SlashClean(src), SlashClean(dst);
    NoneSoFar(t, p, q, recursion, names);
    var i := 0;
    while i < |names|
      invariant 0 <= i <= |names|
      invariant fs.Valid() && fresh(fs.at.Values - old(fs.at.Values))
      invariant SoFar(t, p, q, recursion, names, i, fs.View())
    {
      ghost var s := fs.View();
      fs.ViewIsTree();
      NextName(t, p, names, i);
      CleanChild(src, names[i]);
      CleanChild(dst, names[i]);
      var status := CopyFiles(fs, src + "/" + names[i], dst + "/" + names[i], overwrite, true, recursion);
      ChildDone(t, p, q, overwrite, recursion, names, i, s, status, fs.View());
      SucceededIs(status);
      if !Succeeded(status) {
        return Some(status);
      }
      i := i + 1;
    }
    AllSoFar(t, p, q, recursion, names, fs.View());
    return None;
  }

  lemma NoneSoFar(t: Tree, p: Name, q: Name, recursion: nat, names: seq<string>)
    ensures SoFar(t, p, q, recursion, names, 0, Partial(t, p, q, {}))
  {
    hide Partial;
    PartialOutside(t, p, q, {});
    assert SetOf(names[..0]) == {};
  }

  lemma AllSoFar(t: Tree, p: Name, q: Name, recursion: nat, names: seq<string>, t': Tree)
    requires IsTree(t) && IsDirAt(t, p) && IsDirAt(t, Parent(q)) && NamesOf(t, p, names)
    requires SoFar(t, p, q, recursion, names, |names|, t')
    ensures ChildrenDone(t, p, q, recursion, names, None, t')
  {
    hide Partial, Copied, TooDeep, IsTree, NamesOf, Children, SomeChildDeep;
    assert names[..|names|] == names;
    AllNames(t, p, names);
    if Inside(p, q) {
      InsideADir(t, p, q);
      AChild(t, p, q[|p|], names);
    }
    if Member(t, p, q) {
      assert p + [q[|p|]] == q;
      AChild(t, p, q[|p|], names);
      NamesOfAll(t, p, names);
    }
    if Untouched(t, p, q, true) {
      NoDeepChild(t, p, names, recursion);
      FileIsAlone(t, p, q, SetOf(names));
    }
  }

  /** One more child has been copied, or the copy has failed at it. */
  lemma ChildDone(t: Tree, p: Name, q: Name, overwrite: bool, recursion: nat, names: seq<string>, i: nat, s: Tree,
                  status: Status, s': Tree)
    requires IsTree(t) && IsDirAt(t, p) && IsDirAt(t, Parent(q)) && q != [] && NamesOf(t, p, names) && i < |names|
    requires IsTree(s) && recursion <= RECURSION_LIMIT
    requires SoFar(t, p, q, recursion, names, i, s)
    requires CopyDone(s, p + [names[i]], q + [names[i]], overwrite, true, recursion, status, s')
    ensures Succeeded(status) ==> SoFar(t, p, q, recursion, names, i + 1, s')
    ensures !Succeeded(status) ==> ChildrenDone(t, p, q, recursion, names, Some(status), s')
  {
    hide Partial, Copied, TooDeep, IsTree, CopyStatus, CopyDone, SomeChildDeep, Onto, Endless, NestedSomehow;
    var c := names[i];
    CopyDoneOutside(s, p + [c], q + [c], overwrite, recursion, status, s');
    OutsideChild(s, s', q, c);
    OutsideAgain(t, s, s', q);
    NextName(t, p, names, i);
    if Inside(p, q) && c == q[|p|] {
      ChildInside(t, s, p, q, overwrite, recursion, SetOf(names[..i]), status, s');
    } else if Member(t, p, q) {
      MemberDone(t, p, q, overwrite, recursion, names, i, s, status, s');
    } else if Untouched(t, p, q, true) || Inside(p, q) {
      NotOnTheWay(t, p, q, names, c);
      ChildCopiedToo(t, p, q, overwrite, recursion, names, i, status, s');
    }
    if q <= p {
      ChildLost(t, p, q, overwrite, recursion, c, status, s');
    }
  }

  lemma CopyDoneOutside(t: Tree, p: Name, q: Name, overwrite: bool, recursion: nat, status: Status, t': Tree)
    requires CopyDone(t, p, q, overwrite, true, recursion, status, t')
    ensures SameOutside(t, t', q)
  {}

  lemma ChildCopiedToo(t: Tree, p: Name, q: Name, overwrite: bool, recursion: nat, names: seq<string>, i: nat,
                       status: Status, s': Tree)
    requires IsTree(t) && IsDirAt(t, p) && IsDirAt(t, Parent(q)) && NamesOf(t, p, names) && i < |names| &&
      recursion <= RECURSION_LIMIT
    requires !(q <= p) && Disjoint(p + [names[i]], q) && IsTree(Partial(t, p, q, SetOf(names[..i])))
    requires CopyDone(Partial(t, p, q, SetOf(names[..i])), p + [names[i]], q + [names[i]], overwrite, true, recursion,
      status, s')
    ensures Succeeded(status) <==> !TooDeep(t, p + [names[i]], recursion)
    ensures Succeeded(status) ==> s' == Partial(t, p, q, SetOf(names[..i + 1]))
    ensures !Succeeded(status) ==> status == ServerError && SomeChildDeep(t, p, recursion)
  {
    hide Partial, Copied, TooDeep, IsTree, CopyStatus, NamesOf, SomeChildDeep, Disjoint, Onto, SameOutside, Endless;
    var c, done := names[i], SetOf(names[..i]);
    NextName(t, p, names, i);
    ChildrenDisjoint(p, q, c);
    PartialOutside(t, p, q, done);
    PartialAt(t, p, q, done, q);
    PartialAt(t, p, q, done, q + [c]);
    assert p + [] == p && q[|q|..] == [] && q <= q + [c] && (q + [c])[|q|] == c;
    ChildStatus(t, Partial(t, p, q, done), p, q, c, overwrite, recursion);
    ChildCopied(t, p, q, done, c);
    CopiedTreeUnfolds(Partial(t, p, q, done), p + [c], q + [c]);
    assert SetOf(names[..i + 1]) == done + {c} by {
      assert names[..i + 1] == names[..i] + [c];
    }
    if TooDeep(t, p + [c], recursion) {
      ADeepChild(t, p, c, recursion);
    }
  }

  lemma NamesOfAll(t: Tree, p: Name, names: seq<string>)
    requires NamesOf(t, p, names)
    ensures SetOf(names) == Children(t, p)
  {
    hide Children;
    forall c
      ensures c in Children(t, p) <==> p + [c] in t
    {
      ChildrenAre(t, p, c);
    }
  }

  lemma AChild(t: Tree, p: Name, c: string, names: seq<string>)
    requires NamesOf(t, p, names) && p + [c] in t
    ensures c in names
  {}

  lemma NotOnTheWay(t: Tree, p: Name, q: Name, names: seq<string>, c: string)
    requires Untouched(t, p, q, true) || (Inside(p, q) && c != q[|p|])
    requires NamesOf(t, p, names) && c in names
    ensures !(q <= p) && Disjoint(p + [c], q)
  {
    if p < q {
      assert c == q[|p|] && |q| == |p| + 1 ==> p + [c] == q;
    }
    ChildApart(p, q, c);
  }

  /** The child on the way to the destination is copied to a place as far inside it. */
  lemma ChildInside(t: Tree, s: Tree, p: Name, q: Name, overwrite: bool, recursion: nat, done: set<string>,
                    status: Status, s': Tree)
    requires IsTree(t) && IsTree(s) && IsDirAt(t, Parent(q)) && Inside(p, q) && q[|p|] !in done
    requires s == Partial(t, p, q, done) && recursion <= RECURSION_LIMIT
    requires CopyDone(s, p + [q[|p|]], q + [q[|p|]], overwrite, true, recursion, status, s')
    ensures status == ServerError
  {
    hide Partial, IsTree, SameOutside, WalkError, CopyStatus, Onto, TooDeep;
    var c := q[|p|];
    InsideADir(t, p, q);
    PartialAt(t, p, q, done, p + [c]);
    PartialAt(t, p, q, done, q + [c]);
    PartialAt(t, p, q, done, q);
    assert p + q[|q|..] == p && q <= q + [c] && Parent(q + [c]) == q;
    StatMeaning(s, p + [c]);
    StatMeaning(s, q + [c]);
    assert p + [c] < q + [c] && |q + [c]| > |p + [c]| + 1;
  }

  /** One more member has been copied into one of them, or the copy has failed at it. */
  lemma MemberDone(t: Tree, p: Name, q: Name, overwrite: bool, recursion: nat, names: seq<string>, i: nat, s: Tree,
                   status: Status, s': Tree)
    requires IsTree(t) && IsDirAt(t, p) && NamesOf(t, p, names) && i < |names| && Member(t, p, q)
    requires IsTree(s) && recursion <= RECURSION_LIMIT && SoFar(t, p, q, recursion, names, i, s)
    requires CopyDone(s, p + [names[i]], q + [names[i]], overwrite, true, recursion, status, s')
    ensures Succeeded(status) && q[|p|] in names[..i + 1] ==> NestedSomehow(t, p, q, SetOf(names[..i + 1]), s')
    ensures Succeeded(status) && q[|p|] !in names[..i + 1] ==> s' == Partial(t, p, q, SetOf(names[..i + 1]))
    ensures !Succeeded(status) ==> status == ServerError && TooDeep(t, p, recursion)
  {
    hide Partial, Copied, TooDeep, IsTree, NamesOf, NestedSomehow, CopyDone;
    var c := names[i];
    NextName(t, p, names, i);
    assert names[..i + 1] == names[..i] + [c];
    assert SetOf(names[..i + 1]) == SetOf(names[..i]) + {c};
    if c == q[|p|] {
      assert p + [c] == q;
      SelfCopied(t, s, p, q, overwrite, recursion, SetOf(names[..i]), status, s');
    } else {
      ChildApart(p, q, c);
      FreeMember(t, p, q, names, i, s, recursion);
      SiblingCopied(t, s, p, q, overwrite, recursion, c, status, s');
      if q[|p|] in names[..i] {
        SiblingNested(t, s, p, q, SetOf(names[..i]), c);
      } else {
        ChildCopied(t, p, q, SetOf(names[..i]), c);
      }
    }
  }

  /** The destination is there, and has none of the members that come later. */
  lemma FreeMember(t: Tree, p: Name, q: Name, names: seq<string>, i: nat, s: Tree, recursion: nat)
    requires IsDirAt(t, p) && Member(t, p, q) && i < |names| && names[i] !in names[..i]
    requires SoFar(t, p, q, recursion, names, i, s)
    ensures IsDirAt(s, q) && q + [names[i]] !in s
  {
    hide Partial, Untouched, SameOutside, TooDeep;
    var c, done := names[i], SetOf(names[..i]);
    PartialAt(t, p, q, done, q);
    PartialAt(t, p, q, done, q + [c]);
    assert p + q[|q|..] == p && q <= q && q <= q + [c] && (q + [c])[|q|] == c;
  }

  /** The member that is the destination is copied into itself, as far as it has come. */
  lemma SelfCopied(t: Tree, s: Tree, p: Name, q: Name, overwrite: bool, recursion: nat, done: set<string>,
                   status: Status, s': Tree)
    requires Member(t, p, q) && IsTree(s) && IsDirAt(t, p) && s == Partial(t, p, q, done) && q[|p|] !in done
    requires CopyDone(s, q, q + [q[|p|]], overwrite, true, recursion, status, s') && recursion <= RECURSION_LIMIT
    ensures Succeeded(status) ==> NestedSomehow(t, p, q, done + {q[|p|]}, s')
    ensures !Succeeded(status) ==> status == ServerError && TooDeep(t, p, recursion)
  {
    hide Partial, Copied, IsTree, WalkError, SameOutside, Onto, Endless, OverMember, Nested;
    var b := q[|p|];
    PartialAt(t, p, q, done, q);
    PartialAt(t, p, q, done, q + [b]);
    assert p + q[|q|..] == p && q <= q + [b] && (q + [b])[|q|] == b && Parent(q + [b]) == q;
    StatMeaning(s, q);
    StatMeaning(s, q + [b]);
    assert !Disjoint(q, q + [b]) && Untouched(s, q, q + [b], true);
    if TooDeep(s, q, recursion) {
      DeepInPart(t, p, q, done, recursion);
    } else {
      AtTheLimit(s, q, recursion);
      SelfNested(t, p, q, done);
    }
  }

  lemma DeepInPart(t: Tree, p: Name, q: Name, done: set<string>, recursion: nat)
    requires TooDeep(Partial(t, p, q, done), q, recursion)
    ensures TooDeep(t, p, recursion)
  {
    hide Partial;
    var s := Partial(t, p, q, done);
    var x :| x in s && q <= x && |x| - |q| + recursion >= RECURSION_LIMIT;
    PartialAt(t, p, q, done, x);
    assert p <= p + x[|q|..];
  }

  lemma SelfNested(t: Tree, p: Name, q: Name, done: set<string>)
    requires p < q && |q| == |p| + 1 && q[|p|] !in done
    ensures NestedSomehow(t, p, q, done + {q[|p|]}, Copied(Partial(t, p, q, done), q, q + [q[|p|]]))
  {
    hide Partial, Copied;
    var b := q[|p|];
    var s := Partial(t, p, q, done);
    var s' := Copied(s, q, q + [b]);
    forall x | q <= x
      ensures var o := Origin(p, q, done, done + {b}, x);
              (x in s' <==> o.Some? && o.value in t) && (x in s' ==> s'[x] == t[o.value])
    {
      CopiedAt(s, q, q + [b], x);
      PartialAt(t, p, q, done, x);
      if q + [b] <= x {
        var y := q + x[|q| + 1..];
        PartialAt(t, p, q, done, y);
        assert y[|q|..] == x[|q| + 1..] && x[|q|] == b;
        assert |x| == |q| + 1 ==> y == q && p + y[|q|..] == p;
        assert |x| > |q| + 1 ==> y != q && y[|q|] == x[|q| + 1];
      } else if x != q {
        assert q + [x[|q|]] <= x;
      } else {
        assert p + x[|q|..] == p;
      }
    }
    assert Nested(t, p, q, done, done + {b}, s');
  }

  /** Another member is copied beside what is there. */
  lemma SiblingCopied(t: Tree, s: Tree, p: Name, q: Name, overwrite: bool, recursion: nat, c: string, status: Status,
                      s': Tree)
    requires IsTree(t) && IsTree(s) && SameOutside(t, s, q) && Disjoint(p + [c], q) && IsDirAt(s, q)
    requires IsDirAt(t, p) && p + [c] in t && q + [c] !in s && recursion <= RECURSION_LIMIT
    requires CopyDone(s, p + [c], q + [c], overwrite, true, recursion, status, s')
    ensures Succeeded(status) ==> s' == Copied(s, p + [c], q + [c])
    ensures !Succeeded(status) ==> status == ServerError && TooDeep(t, p, recursion)
  {
    hide Partial, Copied, IsTree, TooDeep, SameOutside, Onto, Endless, OverMember, CopyStatus;
    ChildrenDisjoint(p, q, c);
    ChildStatus(t, s, p, q, c, overwrite, recursion);
    if TooDeep(t, p + [c], recursion) {
      DeepBelow(t, p, c, recursion);
    }
  }

  lemma DeepBelow(t: Tree, p: Name, c: string, recursion: nat)
    requires TooDeep(t, p + [c], recursion)
    ensures TooDeep(t, p, recursion)
  {
    var x :| x in t && p + [c] <= x && |x| - |p + [c]| + recursion >= RECURSION_LIMIT;
    assert p <= x;
  }

  lemma SiblingNested(t: Tree, s: Tree, p: Name, q: Name, done: set<string>, c: string)
    requires p < q && |q| == |p| + 1 && c != q[|p|] && c !in done && Disjoint(p + [c], q) && SameOutside(t, s, q)
    requires NestedSomehow(t, p, q, done, s)
    ensures NestedSomehow(t, p, q, done + {c}, Copied(s, p + [c], q + [c]))
  {
    hide Copied, SameOutside;
    var before :| before <= done - {q[|p|]} && Nested(t, p, q, before, done, s);
    var s' := Copied(s, p + [c], q + [c]);
    forall x | q <= x
      ensures var o := Origin(p, q, before, done + {c}, x);
              (x in s' <==> o.Some? && o.value in t) && (x in s' ==> s'[x] == t[o.value])
    {
      CopiedAt(s, p + [c], q + [c], x);
      if q + [c] <= x {
        SameAway(t, s, q, p + [c], p + [c] + x[|q| + 1..]);
        assert p + [c] + x[|q| + 1..] == p + x[|q|..];
      } else if x != q {
        assert q + [x[|q|]] <= x;
      }
    }
    assert Nested(t, p, q, before, done + {c}, s');
  }

  /** A child of a collection that has been removed is not there. */
  lemma ChildLost(t: Tree, p: Name, q: Name, overwrite: bool, recursion: nat, c: string, status: Status, s': Tree)
    requires IsTree(t) && IsDirAt(t, p) && q <= p && q != [] && recursion <= RECURSION_LIMIT
    requires CopyDone(Partial(t, p, q, {}), p + [c], q + [c], overwrite, true, recursion, status, s')
    ensures status == LostStatus(recursion) && s' == Partial(t, p, q, {})
  {
    hide Partial, IsTree, SameOutside, WalkError, Refused, Failure;
    var s := Partial(t, p, q, {});
    ChildMissing(t, p, q, c);
    assert q + [c] <= p + [c] || Disjoint(p + [c], q + [c]) by {
      SnocPrefix(q, p + [c], c);
      SnocPrefix(p, q + [c], c);
    }
    assert !TooDeep(s, p + [c], recursion) by {
      hide Partial, IsTree, CopyDone;
    }
  }

  lemma ChildMissing(t: Tree, p: Name, q: Name, c: string)
    requires IsTree(t) && IsDirAt(t, p) && q <= p && q != []
    ensures var s := Partial(t, p, q, {}); Stat(s, p + [c]) == Some(NotExist) && forall x :: p + [c] <= x ==> x !in s
  {
    hide Partial, WalkError;
    var s, y := Partial(t, p, q, {}), p + [c];
    forall x | p + [c] <= x
      ensures x !in s
    {
      PartialAt(t, p, q, {}, x);
    }
    PartialNone(t, p, q);
    WithoutKeepsTree(t, q);
    AncestorThere(t, p, q);
    EntryKeepsTree(Without(t, q), q, t[p]);
    EmptyDir(s, q, y);
  }

  /** There is nothing in an empty directory. */
  lemma EmptyDir(s: Tree, q: Name, y: Name)
    requires IsTree(s) && IsDirAt(s, q) && q < y && forall x :: q < x ==> x !in s
    ensures Stat(s, y) == Some(NotExist)
  {
    hide IsTree, WalkError;
    WalkMeaning(s, y);
    forall k | 0 < k < |y| && y[..k] in s
      ensures s[y[..k]].Dir?
    {
      assert y[..|q|] == q;
      if k < |q| {
        assert y[..k] <= q;
        AncestorsAreDirs(s, y[..k], q);
      }
    }
  }

  // ---------- moving ----------

  /** The destination is removed before the rename is tried; what happens when that fails is left as it is. */
  function Move(t: Tree, p: Name, q: Name, overwrite: bool): (Status, Tree) {
    if Stat(t, q).Some? && Stat(t, q) != Some(NotExist) then (Forbidden, t)
    else if Stat(t, q).None? && !overwrite then (PreconditionFailed, t)
    else if Stat(t, q).None? && RemoveAll(t, q).0.Some? then (Forbidden, t)
    else
      var cleared := if Stat(t, q).None? then RemoveAll(t, q).1 else t;
      var (err, moved) := Rename(cleared, p, q);
      if err.Some? then (Forbidden, cleared)
      else (if Stat(t, q).None? then NoContent else Created, moved)
  }

  method MoveFiles(fs: MemFS, src: string, dst: string, overwrite: bool) returns (status: Status)
    requires fs.Valid()
    modifies fs`at, fs.at.Values`children
    ensures fs.Valid()
    ensures (status, fs.View()) == Move(old(fs.View()), SlashClean(src), SlashClean(dst), overwrite)
  {
    hide WalkError, SlashClean, Without, FileTree.Rename, FileTree.RemoveAll, FileTree.Stat;
    var created := false;
    var err, entry := fs.Stat(dst);
    if err.Some? {
      if err != Some(NotExist) {
        return Forbidden;
      }
      created := true;
    } else if overwrite {
      RemoveKeeps(fs.View(), SlashClean(dst));
      err := fs.RemoveAll(dst);
      if err.Some? {
        return Forbidden;
      }
    } else {
      return PreconditionFailed;
    }
    RenameKeeps(fs.View(), SlashClean(src), SlashClean(dst));
    err := fs.Rename(src, dst);
    if err.Some? {
      return Forbidden;
    }
    return if created then Created else NoContent;
  }

  /** A move is answered with 412 exactly when it would replace something and may not; then nothing is changed. */
  lemma MoveMayNotReplace(t: Tree, p: Name, q: Name, overwrite: bool)
    requires IsTree(t)
    ensures Move(t, p, q, overwrite).0 == PreconditionFailed <==> q in t && !overwrite
    ensures q in t && !overwrite ==> Move(t, p, q, overwrite).1 == t
    ensures !Succeeded(Move(t, p, q, overwrite).0) && !(q in t && !overwrite) ==>
      Move(t, p, q, overwrite).0 == Forbidden
  {
    hide WalkError, FileTree.Rename, FileTree.RemoveAll, FileTree.Stat, IsTree;
    StatMeaning(t, q);
  }

  lemma RemoveKeeps(t: Tree, p: Name)
    ensures RemoveAll(t, p).0.Some? ==> RemoveAll(t, p).1 == t
  {}

  /** The move is reported as a success, and something that was at `p` is now at `q`. */
  predicate HasMoved(t: Tree, p: Name, q: Name, overwrite: bool) {
    Succeeded(Move(t, p, q, overwrite).0) && p in t && q in Move(t, p, q, overwrite).1
  }

  /**
   Something is moved exactly when neither name contains the other, the source exists, and
   the destination has a directory to go in and may be replaced.  The move is then a copy
   followed by the removal of the source, and answers 201 exactly when nothing was at the
   destination.  A move that is reported as a success has moved something exactly if the two
   names differ.
   */
  lemma MoveSucceeds(t: Tree, p: Name, q: Name, overwrite: bool)
    requires IsTree(t)
    ensures HasMoved(t, p, q, overwrite) <==>
      Disjoint(p, q) && p in t && IsDirAt(t, Parent(q)) && (q in t ==> overwrite)
    ensures HasMoved(t, p, q, overwrite) ==>
            var (status, t') := Move(t, p, q, overwrite);
            t' == Moved(t, p, q) == Without(Copied(t, p, q), p) && (status == Created <==> q !in t)
    ensures Succeeded(Move(t, p, q, overwrite).0) ==> (HasMoved(t, p, q, overwrite) <==> p != q)
  {
    hide Move, Moved, Copied, Without, WalkError;
    if p == q {
      MoveOntoItself(t, p, overwrite);
      WithoutAt(t, p, p);
    } else if Disjoint(p, q) {
      MoveApart(t, p, q, overwrite);
      MoveIsCopyThenDelete(t, p, q);
      MovedAt(t, p, q, q);
      assert p + q[|q|..] == p;
    } else {
      MoveNested(t, p, q, overwrite);
    }
  }

  lemma StatMeaning(t: Tree, p: Name)
    requires IsTree(t)
    ensures Stat(t, p).None? <==> p in t
    ensures WalkError(t, p, 0).None? <==> IsDirAt(t, Parent(p))
  {
    hide WalkError;
    WalkMeaning(t, p);
  }

  lemma MoveApart(t: Tree, p: Name, q: Name, overwrite: bool)
    requires IsTree(t) && Disjoint(p, q)
    ensures var (status, t') := Move(t, p, q, overwrite);
            && (Succeeded(status) <==> p in t && IsDirAt(t, Parent(q)) && (q in t ==> overwrite))
            && (Succeeded(status) ==> t' == Moved(t, p, q) && (status == Created <==> q !in t))
  {
    hide WalkError, Moved, Without, Children, IsTree;
    SameOutsideSelf(t, p, q);
    SameOutsideSelf(t, q, p);
    StatMeaning(t, q);
    WalkIgnoresTarget(t, q, 0);
    WithoutAt(t, q, p);
    WithoutAt(t, q, q);
    WithoutKeepsTree(t, q);
    StatMeaning(Without(t, q), p);
    StatMeaning(t, p);
    ParentOfPresent(t, p);
    ParentOfPresent(Without(t, q), p);
    ParentOfPresent(t, q);
    MovedCleared(t, p, q);
  }

  lemma ParentOfPresent(t: Tree, p: Name)
    requires IsTree(t)
    ensures p in t && p != [] ==> IsDirAt(t, Parent(p))
  {}

  lemma MoveNested(t: Tree, p: Name, q: Name, overwrite: bool)
    requires IsTree(t) && p != q && !Disjoint(p, q)
    ensures !Succeeded(Move(t, p, q, overwrite).0)
  {
    hide WalkError, Moved, Without, Children, IsTree;
    StatMeaning(t, q);
    if p < q {
    } else {
      WithoutAt(t, q, p);
      if q !in t {
        NoneBelow(t, q);
      }
    }
  }

  lemma MovedCleared(t: Tree, p: Name, q: Name)
    requires Disjoint(p, q)
    ensures Moved(Without(t, q), p, q) == Moved(t, p, q)
  {
    hide Moved;
    var a, b := Moved(Without(t, q), p, q), Moved(t, p, q);
    forall x
      ensures x in a <==> x in b
      ensures x in b ==> a[x] == b[x]
    {
      MovedAt(Without(t, q), p, q, x);
      MovedAt(t, p, q, x);
      if q <= x {
        assert p <= p + x[|q|..];
        PrefixesCompare(p, q, p + x[|q|..]);
      }
    }
    assert a == b;
  }

  lemma MoveIsCopyThenDelete(t: Tree, p: Name, q: Name)
    requires Disjoint(p, q)
    ensures Moved(t, p, q) == Without(Copied(t, p, q), p)
  {
    hide Moved, Copied;
    var a, b := Moved(t, p, q), Without(Copied(t, p, q), p);
    forall x
      ensures x in a <==> x in b
      ensures x in b ==> a[x] == b[x]
    {
      MovedAt(t, p, q, x);
      CopiedAt(t, p, q, x);
      PrefixesCompare(p, q, x);
    }
    assert a == b;
  }

  /** A move that fails leaves the tree as it was exactly when it had not begun to replace the destination. */
  lemma FailedMove(t: Tree, p: Name, q: Name, overwrite: bool)
    requires IsTree(t) && !Succeeded(Move(t, p, q, overwrite).0)
    ensures Move(t, p, q, overwrite).1 == t <==> !(q in t && overwrite && q != [])
  {
    hide WalkError, Moved, Children, IsTree;
    StatMeaning(t, q);
    if q != [] {
      ParentOfPresent(t, q);
      WithoutAt(t, q, q);
      RenameKeeps(Without(t, q), p, q);
    }
    RenameKeeps(t, p, q);
  }

  /** That is how a destination is lost: when it is there and may be replaced, and the source is not there. */
  lemma LostDestination(t: Tree, p: Name, q: Name)
    requires IsTree(t) && p !in t && q in t && q != [] && p != q
    ensures Move(t, p, q, true) == (Forbidden, Without(t, q))
  {
    hide WalkError, Moved, Without, Children, IsTree;
    StatMeaning(t, q);
    ParentOfPresent(t, q);
    WithoutAt(t, q, p);
    WithoutAt(t, q, q);
    RenameKeeps(Without(t, q), p, q);
  }

  lemma RenameKeeps(t: Tree, p: Name, q: Name)
    ensures Rename(t, p, q).0.Some? ==> Rename(t, p, q).1 == t
  {
    hide WalkError, Moved;
  }

  /**
   A move of a name onto itself, spelled in another way, moves nothing, yet it succeeds
   exactly in two cases: the resource is there and is removed, or there is none, no file is
   in the way, and the answer is that one has been created.
   */
  lemma MoveOntoItself(t: Tree, p: Name, overwrite: bool)
    requires IsTree(t)
    ensures Succeeded(Move(t, p, p, overwrite).0) <==>
            (p !in t && WalkError(t, p, 0) != Some(Invalid)) || (p in t && overwrite && p != [])
    ensures p !in t && WalkError(t, p, 0) != Some(Invalid) ==> Move(t, p, p, overwrite) == (Created, t)
    ensures p in t && overwrite && p != [] ==> Move(t, p, p, overwrite) == (NoContent, Without(t, p))
  {
    hide WalkError;
    StatMeaning(t, p);
    ParentOfPresent(t, p);
  }

  // ---------- walking ----------

  datatype Depth = Zero | One | Infinite

  /** What a visitor says to a walk. */
  datatype Answer = Continue | SkipDir | Stop

  function DepthInside(d: Depth): Depth {
    if d == One then Zero else d
  }

  /** What is below `p` within a depth. */
  predicate Within(t: Tree, p: Name, d: Depth, x: Name) {
    x in t && p <= x && (d == Infinite || |x| - |p| <= if d == Zero then 0 else 1)
  }

  /** What a walk from `p` comes to if no visitor stops it: all that no directory above it has been told to skip. */
  predicate Reached(t: Tree, p: Name, d: Depth, visit: Name -> Answer, x: Name) {
    Within(t, p, d, x) && forall k :: |p| <= k < |x| ==> visit(x[..k]) == Continue
  }

  function Below(t: Tree, p: Name): set<Name> {
    set x | x in t && p <= x
  }

  predicate NoRepeats(s: seq<Name>) {
    forall i, j :: 0 <= i < j < |s| ==> s[i] != s[j]
  }

  /** Every directory comes before what is in it. */
  predicate ParentsFirst(s: seq<Name>) {
    forall i :: 0 < i < |s| ==> Parent(s[i]) in s[..i]
  }

  /** No visitor stopped the walk, or skipped the rest of a directory at a file. */
  predicate Undisturbed(t: Tree, visit: Name -> Answer, visited: seq<Name>) {
    forall x :: x in visited ==> visit(x) == Continue || (visit(x) == SkipDir && IsDirAt(t, x))
  }

  /** The walk ends at the first node whose visitor stops it, and only there. */
  predicate EndsAtStop(visit: Name -> Answer, visited: seq<Name>, answer: Answer) {
    forall i :: 0 <= i < |visited| ==> (visit(visited[i]) == Stop <==> answer == Stop && i == |visited| - 1)
  }

  /**
   Visits what can be reached from `name` within the depth, each node once and a directory
   before what is in it.  Nothing that can be reached is left out, unless a visitor stops the
   walk or skips the rest of a directory at one of its files.
   */
  method WalkFS(fs: MemFS, name: string, depth: Depth, visit: Name -> Answer)
    returns (visited: seq<Name>, answer: Answer)
    requires fs.Valid() && SlashClean(name) in fs.at
    modifies fs`at, fs.at.Values`children, fs.at.Values`data
    ensures fs.Valid() && fs.at == old(fs.at) && fs.View() == old(fs.View())
    ensures forall x :: x in visited ==> Reached(fs.View(), SlashClean(name), depth, visit, x)
    ensures Undisturbed(fs.View(), visit, visited) ==>
      answer == Continue && forall x :: Reached(fs.View(), SlashClean(name), depth, visit, x) ==> x in visited
    ensures EndsAtStop(visit, visited, answer)
    ensures NoRepeats(visited) && ParentsFirst(visited)
    ensures |visited| > 0 && visited[0] == SlashClean(name)
    decreases Below(fs.View(), SlashClean(name)), 1
  {
    hide *;
    ghost var t, p := fs.View(), SlashClean(name);
    fs.ViewIsTree();
    EntryOf(fs, p);
    DirAt(t, p);
    WalkStart(t, p, depth, visit);
    OpenForReading(t, p);
    var err, entry := fs.Stat(name);
    visited, answer := [SlashClean(name)], visit(SlashClean(name));
    if answer != Continue {
      return visited, if entry.value.isDir && answer == SkipDir then Continue else answer;
    }
    if !entry.value.isDir || depth == Zero {
      return;
    }
    var err2, f := fs.OpenFile(name, Flags(false, false, false, false, false), 0);
    NamesAreChildren(fs, p, f.names);
    visited, answer := WalkMembers(fs, name, depth, visit, f.names);
  }

  /** The rest of a walk that has been to the directory itself. */
  method WalkMembers(fs: MemFS, name: string, depth: Depth, visit: Name -> Answer, names: seq<string>)
    returns (visited: seq<Name>, answer: Answer)
    requires fs.Valid() && SlashClean(name) in fs.at && IsTree(fs.View()) && depth != Zero
    requires visit(SlashClean(name)) == Continue && NamesOf(fs.View(), SlashClean(name), names)
    modifies fs`at, fs.at.Values`children, fs.at.Values`data
    ensures fs.Valid() && fs.at == old(fs.at) && fs.View() == old(fs.View())
    ensures forall x :: x in visited ==> Reached(fs.View(), SlashClean(name), depth, visit, x)
    ensures Undisturbed(fs.View(), visit, visited) ==>
      answer == Continue && forall x :: Reached(fs.View(), SlashClean(name), depth, visit, x) ==> x in visited
    ensures EndsAtStop(visit, visited, answer)
    ensures NoRepeats(visited) && ParentsFirst(visited)
    ensures |visited| > 0 && visited[0] == SlashClean(name)
    decreases Below(fs.View(), SlashClean(name)), 0
  {
    hide *;
    ghost var t, p := fs.View(), SlashClean(name);
    EntryIn(fs, p);
    WalkStart(t, p, depth, visit);
    visited := [SlashClean(name)];
    var i := 0;
    while i < |names|
      invariant 0 <= i <= |names|
      invariant fs.Valid() && fs.at == old(fs.at) && fs.View() == t
      invariant Progress(t, p, depth, visit, names[..i], visited)
      invariant EndsAtStop(visit, visited, Continue)
      invariant NoRepeats(visited) && ParentsFirst(visited) && |visited| > 0 && visited[0] == p
    {
      AtChild(fs, name, p, names, i);
      var err, info := fs.Stat(name + "/" + names[i]);
      var more, a := WalkFS(fs, name + "/" + names[i], DepthInside(depth), visit);
      VisitMore(t, p, depth, visit, names, i, visited, more, a);
      visited := visited + more;
      if a == Stop || (a == SkipDir && !info.value.isDir) {
        return visited, a;
      }
      i := i + 1;
    }
    assert names[..i] == names;
    WalkEnd(t, p, depth, visit, names, visited);
    return visited, Continue;
  }

  ghost predicate ReachedBelow(t: Tree, p: Name, depth: Depth, visit: Name -> Answer, names: seq<string>, x: Name) {
    exists c :: c in names && Reached(t, p + [c], DepthInside(depth), visit, x)
  }

  /** The walk has been to `p` and its children called `names`. */
  ghost predicate Progress(t: Tree, p: Name, depth: Depth, visit: Name -> Answer, names: seq<string>,
                           visited: seq<Name>)
  {
    && (forall x :: x in visited ==> x == p || ReachedBelow(t, p, depth, visit, names, x))
    && (Undisturbed(t, visit, visited) ==> forall x :: x == p || ReachedBelow(t, p, depth, visit, names, x) ==>
      x in visited)
  }

  lemma WalkStart(t: Tree, p: Name, depth: Depth, visit: Name -> Answer)
    requires IsTree(t) && p in t
    ensures forall x :: x in [p] ==> Reached(t, p, depth, visit, x)
    ensures visit(p) != Continue || t[p].File? || depth == Zero ==> forall x :: Reached(t, p, depth, visit, x) ==>
      x in [p]
    ensures Undisturbed(t, visit, [p]) <==> visit(p) == Continue || (visit(p) == SkipDir && IsDirAt(t, p))
    ensures forall a :: (visit(p) == Stop <==> a == Stop) ==> EndsAtStop(visit, [p], a)
    ensures NoRepeats([p]) && ParentsFirst([p]) && Progress(t, p, depth, visit, [], [p])
    ensures Stat(t, p).None?
  {
    hide IsTree;
    StatMeaning(t, p);
    forall x | Reached(t, p, depth, visit, x) && (visit(p) != Continue || t[p].File? || depth == Zero)
      ensures x == p
    {
      if x != p {
        assert x[..|p|] == p;
        FirstChild(t, p, x);
      }
    }
  }

  /** The next child is there, and its path is the path of the directory with the child's name. */
  lemma AtChild(fs: MemFS, name: string, p: Name, names: seq<string>, i: nat)
    requires IsTree(fs.View()) && p == SlashClean(name) && p in fs.at && NamesOf(fs.View(), p, names) && i < |names|
    ensures SlashClean(name + "/" + names[i]) == p + [names[i]]
    ensures p + [names[i]] in fs.at && Stat(fs.View(), p + [names[i]]).None?
    ensures Below(fs.View(), p + [names[i]]) < Below(fs.View(), p)
  {
    hide *;
    NextName(fs.View(), p, names, i);
    CleanChild(name, names[i]);
    EntryIn(fs, p);
    EntryIn(fs, p + [names[i]]);
    BelowChild(fs.View(), p, names[i]);
    StatMeaning(fs.View(), p + [names[i]]);
  }

  lemma EntryIn(fs: MemFS, p: Name)
    ensures p in fs.View() <==> p in fs.at
  {}

  lemma BelowChild(t: Tree, p: Name, c: string)
    requires p + [c] in t && p in t
    ensures Below(t, p + [c]) < Below(t, p)
  {
    assert p in Below(t, p) && p !in Below(t, p + [c]);
    forall x | x in Below(t, p + [c])
      ensures x in Below(t, p)
    {
      SnocPrefix(p, x, c);
    }
  }

  /** What is reached from a child is reached from its parent, unless that has been told to be skipped. */
  lemma ReachedFromChild(t: Tree, p: Name, depth: Depth, visit: Name -> Answer, c: string, x: Name)
    requires depth != Zero && visit(p) == Continue && Reached(t, p + [c], DepthInside(depth), visit, x)
    ensures Reached(t, p, depth, visit, x) && |x| > |p| && x[|p|] == c
  {
    SnocPrefix(p, x, c);
    assert x[..|p|] == p;
  }

  /** Whatever else is reached is reached through a child. */
  lemma ReachedThroughChild(t: Tree, p: Name, depth: Depth, visit: Name -> Answer, x: Name)
    requires IsTree(t) && depth != Zero && Reached(t, p, depth, visit, x) && x != p
    ensures p + [x[|p|]] in t && Reached(t, p + [x[|p|]], DepthInside(depth), visit, x)
  {
    hide IsTree, Children;
    FirstChild(t, p, x);
    assert p + [x[|p|]] <= x;
  }

  lemma VisitMore(t: Tree, p: Name, depth: Depth, visit: Name -> Answer, names: seq<string>, i: nat,
                  visited: seq<Name>, more: seq<Name>, a: Answer)
    requires NamesOf(t, p, names) && i < |names| && depth != Zero && visit(p) == Continue
    requires Progress(t, p, depth, visit, names[..i], visited) && EndsAtStop(visit, visited, Continue)
    requires NoRepeats(visited) && ParentsFirst(visited) && |visited| > 0 && visited[0] == p
    requires forall x :: x in more ==> Reached(t, p + [names[i]], DepthInside(depth), visit, x)
    requires Undisturbed(t, visit, more) ==>
      a == Continue && forall x :: Reached(t, p + [names[i]], DepthInside(depth), visit, x) ==> x in more
    requires EndsAtStop(visit, more, a) && NoRepeats(more) && ParentsFirst(more) && |more| > 0 &&
      more[0] == p + [names[i]]
    ensures Progress(t, p, depth, visit, names[..i + 1], visited + more)
    ensures a != Continue ==> !Undisturbed(t, visit, visited + more)
    ensures forall a' :: (a == Stop <==> a' == Stop) ==> EndsAtStop(visit, visited + more, a')
    ensures NoRepeats(visited + more) && ParentsFirst(visited + more) && (visited + more)[0] == p
    ensures forall x :: x in visited + more ==> x == p || Reached(t, p, depth, visit, x)
  {
    hide Reached, ReachedBelow, NoRepeats, ParentsFirst, Undisturbed, EndsAtStop;
    forall x
      ensures x in more ==> x !in visited
      ensures ReachedBelow(t, p, depth, visit, names[..i + 1], x) <==>
              ReachedBelow(t, p, depth, visit, names[..i], x) ||
                Reached(t, p + [names[i]], DepthInside(depth), visit, x)
      ensures ReachedBelow(t, p, depth, visit, names[..i + 1], x) ==> Reached(t, p, depth, visit, x)
    {
      VisitNext(t, p, depth, visit, names, i, x);
    }
    Appended(visited, more, p, names[i]);
    StopsAppended(visit, visited, more, a);
    UndisturbedAppended(t, visit, visited, more);
  }

  lemma VisitNext(t: Tree, p: Name, depth: Depth, visit: Name -> Answer, names: seq<string>, i: nat, x: Name)
    requires NamesOf(t, p, names) && i < |names| && depth != Zero && visit(p) == Continue
    ensures var here := Reached(t, p + [names[i]], DepthInside(depth), visit, x);
            && (ReachedBelow(t, p, depth, visit, names[..i + 1], x) <==>
              ReachedBelow(t, p, depth, visit, names[..i], x) || here)
            && (here ==> x != p && !ReachedBelow(t, p, depth, visit, names[..i], x))
    ensures ReachedBelow(t, p, depth, visit, names[..i + 1], x) ==> Reached(t, p, depth, visit, x)
  {
    hide Reached;
    assert names[..i + 1] == names[..i] + [names[i]];
    forall c | Reached(t, p + [c], DepthInside(depth), visit, x)
      ensures Reached(t, p, depth, visit, x) && |x| > |p| && x[|p|] == c
    {
      ReachedFromChild(t, p, depth, visit, c, x);
    }
    assert names[i] !in names[..i];
    assert forall c :: c in names[..i + 1] <==> c in names[..i] || c == names[i];
  }

  lemma Appended(a: seq<Name>, b: seq<Name>, p: Name, c: string)
    requires NoRepeats(a) && NoRepeats(b) && forall x :: x in b ==> x !in a
    requires ParentsFirst(a) && ParentsFirst(b) && |a| > 0 && a[0] == p && |b| > 0 && b[0] == p + [c]
    ensures NoRepeats(a + b) && ParentsFirst(a + b)
  {
    forall j, k | 0 <= j < k < |a + b|
      ensures (a + b)[j] != (a + b)[k]
    {
      if j < |a| <= k {
        assert (a + b)[j] in a && (a + b)[k] in b;
      }
    }
    forall i | 0 < i < |a + b|
      ensures Parent((a + b)[i]) in (a + b)[..i]
    {
      if i < |a| {
        assert (a + b)[..i] == a[..i];
      } else {
        assert (a + b)[..i] == a + b[..i - |a|];
        assert Parent(p + [c]) == p;
      }
    }
  }

  lemma StopsAppended(visit: Name -> Answer, a: seq<Name>, b: seq<Name>, answer: Answer)
    requires EndsAtStop(visit, a, Continue) && EndsAtStop(visit, b, answer) && |b| > 0
    ensures forall a' :: (answer == Stop <==> a' == Stop) ==> EndsAtStop(visit, a + b, a')
  {}

  lemma UndisturbedAppended(t: Tree, visit: Name -> Answer, a: seq<Name>, b: seq<Name>)
    ensures Undisturbed(t, visit, a + b) <==> Undisturbed(t, visit, a) && Undisturbed(t, visit, b)
  {}

  lemma WalkEnd(t: Tree, p: Name, depth: Depth, visit: Name -> Answer, names: seq<string>, visited: seq<Name>)
    requires IsTree(t) && p in t && NamesOf(t, p, names) && depth != Zero && visit(p) == Continue
    requires Progress(t, p, depth, visit, names, visited)
    ensures forall x :: x in visited ==> Reached(t, p, depth, visit, x)
    ensures Undisturbed(t, visit, visited) ==> forall x :: Reached(t, p, depth, visit, x) ==> x in visited
  {
    hide Reached, ReachedBelow, NamesOf, IsTree, Undisturbed;
    forall x
      ensures Reached(t, p, depth, visit, x) <==> x == p || ReachedBelow(t, p, depth, visit, names, x)
    {
      ReachedSomewhere(t, p, depth, visit, names, x);
    }
  }

  lemma ReachedSomewhere(t: Tree, p: Name, depth: Depth, visit: Name -> Answer, names: seq<string>, x: Name)
    requires IsTree(t) && p in t && NamesOf(t, p, names) && depth != Zero && visit(p) == Continue
    ensures Reached(t, p, depth, visit, x) <==> x == p || ReachedBelow(t, p, depth, visit, names, x)
  {
    hide IsTree, Reached;
    ReachedSelf(t, p, depth, visit);
    if Reached(t, p, depth, visit, x) && x != p {
      ReachedThroughChild(t, p, depth, visit, x);
      assert x[|p|] in names;
    }
    if ReachedBelow(t, p, depth, visit, names, x) {
      var c :| c in names && Reached(t, p + [c], DepthInside(depth), visit, x);
      ReachedFromChild(t, p, depth, visit, c, x);
    }
  }

  lemma ReachedSelf(t: Tree, p: Name, depth: Depth, visit: Name -> Answer)
    requires p in t
    ensures Reached(t, p, depth, visit, p)
    ensures forall x :: Reached(t, p, depth, visit, x) && x != p ==> |x| > |p|
  {}

  // ---------- the steps of the proof ----------

  lemma DirAt(t: Tree, p: Name)
    ensures IsDirAt(t, p) <==> p in t && t[p].Dir?
  {}

  lemma SucceededIs(s: Status)
    ensures Succeeded(s) <==> s == Created || s == NoContent
  {}

  lemma SameOutsideSelf(t: Tree, p: Name, q: Name)
    requires Disjoint(p, q)
    ensures SameOutside(t, t, q) && q != []
  {
    assert q == [] ==> q <= p;
  }

  lemma CopiedTreeUnfolds(t: Tree, p: Name, q: Name)
    ensures CopiedTree(t, p, q, true) == Copied(t, p, q) && CopiedTree(t, p, q, false) == Partial(t, p, q, {})
  {}

  lemma OpenForReading(t: Tree, p: Name)
    requires IsTree(t)
    ensures Open(t, p, Flags(false, false, false, false, false), 0) == (Stat(t, p), t)
  {
    hide WalkError;
  }

  lemma NamesAreChildren(fs: MemFS, p: Name, names: seq<string>)
    requires fs.Valid() && p in fs.at
    requires forall c :: c in names <==> c in fs.at[p].children
    requires forall i, j :: 0 <= i < j < |names| ==> names[i] != names[j]
    ensures NamesOf(fs.View(), p, names)
  {
    forall c
      ensures c in names <==> p + [c] in fs.View()
      ensures c in names ==> IsComponent(c)
    {
      assert fs.LinkAt(p, c);
      if p + [c] in fs.at {
        assert IsClean(p + [c]) && (p + [c])[|p|] == c;
      }
    }
  }

  lemma Cleared(fs: MemFS, t: Tree, q: Name)
    requires IsTree(t) && fs.View() == Without(t, q)
    requires WalkError(t, q, 0).None? <==> IsDirAt(t, Parent(q))
    ensures q !in fs.at
    ensures WalkError(t, q, 0).Some? && q != [] ==> Without(t, q) == t
  {
    hide WalkError;
    assert fs.at.Keys == fs.View().Keys;
    WithoutAt(t, q, q);
    if !IsDirAt(t, Parent(q)) && q != [] {
      assert q !in t;
      NoneBelow(t, q);
    }
  }

  lemma MkdirCleared(t: Tree, q: Name, perm: nat)
    requires q != [] && WalkError(Without(t, q), q, 0) == WalkError(t, q, 0)
    ensures Mkdir(Without(t, q), q, perm) ==
      if WalkError(t, q, 0).Some? then (WalkError(t, q, 0), Without(t, q)) else (None, Without(t, q)[q := Dir(perm)])
  {
    hide WalkError;
    WithoutAt(t, q, q);
  }

  lemma PartialOutside(t: Tree, p: Name, q: Name, done: set<string>)
    ensures SameOutside(t, Partial(t, p, q, done), q)
  {
    hide Partial;
    var a, b := Without(Partial(t, p, q, done), q), Without(t, q);
    forall x
      ensures x in a <==> x in b
      ensures x in b ==> a[x] == b[x]
    {
      PartialAt(t, p, q, done, x);
    }
    assert a == b;
  }

  /** A file has nothing below it. */
  lemma FileNotDeep(t: Tree, p: Name, recursion: nat)
    requires IsTree(t) && p in t && t[p].File? && recursion < RECURSION_LIMIT
    ensures !TooDeep(t, p, recursion)
  {
    if TooDeep(t, p, recursion) {
      var s :| s in t && p <= s && |s| - |p| + recursion >= RECURSION_LIMIT;
      AncestorsAreDirs(t, p, s);
    }
  }

  ghost predicate SomeChildDeep(t: Tree, p: Name, recursion: nat) {
    exists c :: c in Children(t, p) && TooDeep(t, p + [c], recursion)
  }

  ghost predicate NamesOf(t: Tree, p: Name, names: seq<string>) {
    && (forall c :: c in names <==> p + [c] in t)
    && (forall c :: c in names ==> IsComponent(c))
    && forall i, j :: 0 <= i < j < |names| ==> names[i] != names[j]
  }

  lemma NextName(t: Tree, p: Name, names: seq<string>, i: nat)
    requires NamesOf(t, p, names) && i < |names|
    ensures IsComponent(names[i]) && p + [names[i]] in t && names[i] !in SetOf(names[..i])
  {
    assert names[i] in names;
  }

  lemma ADeepChild(t: Tree, p: Name, c: string, recursion: nat)
    requires p + [c] in t && TooDeep(t, p + [c], recursion)
    ensures SomeChildDeep(t, p, recursion)
  {
    ChildrenAre(t, p, c);
  }

  lemma NoDeepChild(t: Tree, p: Name, names: seq<string>, recursion: nat)
    requires NamesOf(t, p, names) && forall j :: 0 <= j < |names| ==> !TooDeep(t, p + [names[j]], recursion)
    ensures !SomeChildDeep(t, p, recursion)
  {
    forall c | c in Children(t, p)
      ensures !TooDeep(t, p + [c], recursion)
    {
      ChildrenAre(t, p, c);
      assert c in names;
    }
  }

  lemma AllNames(t: Tree, p: Name, names: seq<string>)
    requires NamesOf(t, p, names)
    ensures Children(t, p) <= SetOf(names)
  {
    forall c | c in Children(t, p)
      ensures c in names
    {
      ChildrenAre(t, p, c);
    }
  }
}
