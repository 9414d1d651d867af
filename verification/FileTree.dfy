/**
 A file tree as a map from clean names to entries, and what the in-memory file system's
 operations do to it.  Every directory entry names its whole path, so there is nothing to
 share and no cycle to make: that the pointer structure agrees with such a map at every
 step is what its proofs show.
 */
module FileTree {
  import opened Paths
  import opened Wrappers

  datatype Entry = Dir(perm: nat) | File(perm: nat, data: seq<bv8>)

  type Tree = map<Name, Entry>

  datatype FsError = NotExist | Exist | Invalid | Permission | NotADirectory | DirectoryNotEmpty

  /** The statuses of requests: 201, 204, 403, 404, 405, 409, 412, 500 and 507. */
  datatype Status =
    Created | NoContent | Forbidden | NotFound | MethodNotAllowed | Conflict | PreconditionFailed | ServerError
    | InsufficientStorage

  predicate Succeeded(s: Status) {
    s == Created || s == NoContent
  }

  /** How deep a copy may recurse. */
  const RECURSION_LIMIT: nat := 1000

  /** The root is a directory, and so is the parent of everything. */
  predicate IsTree(t: Tree) {
    && [] in t && t[[]].Dir?
    && forall p :: p in t && p != [] ==> IsDirAt(t, Parent(p))
  }

  predicate IsDirAt(t: Tree, p: Name) {
    p in t && t[p].Dir?
  }

  lemma {:induction false} AncestorsAreDirs(t: Tree, p: Name, q: Name)
    requires IsTree(t) && q in t && p <= q && p != q
    ensures IsDirAt(t, p)
  {
    assert IsDirAt(t, Parent(q));
    if p != Parent(q) {
      AncestorsAreDirs(t, p, Parent(q));
    }
  }

  // ---------- walking ----------

  /** The first component on the way to `p` that is missing or not a directory; the last one is not looked at. */
  function WalkError(t: Tree, p: Name, i: nat): (r: Option<FsError>)
    ensures r.None? || r == Some(NotExist) || r == Some(Invalid)
    decreases |p| - i
  {
    if i + 1 >= |p| then None
    else if p[..i + 1] !in t then Some(NotExist)
    else if !t[p[..i + 1]].Dir? then Some(Invalid)
    else WalkError(t, p, i + 1)
  }

  /** A walk succeeds exactly when the parent is a directory; it fails as invalid exactly when it meets a file. */
  lemma WalkMeaning(t: Tree, p: Name)
    requires IsTree(t)
    ensures WalkError(t, p, 0).None? <==> IsDirAt(t, Parent(p))
    ensures WalkError(t, p, 0) == Some(Invalid) <==> exists k :: 0 < k < |p| && p[..k] in t && t[p[..k]].File?
  {
    WalkFrom(t, p, 0);
    if p != [] {
      assert Parent(p) == p[..|p| - 1];
    }
  }

  lemma {:induction false} WalkFrom(t: Tree, p: Name, i: nat)
    requires IsTree(t) && i <= |p| && forall k :: 0 <= k <= i && k < |p| ==> IsDirAt(t, p[..k])
    ensures WalkError(t, p, i).None? <==> p == [] || IsDirAt(t, p[..|p| - 1])
    ensures WalkError(t, p, i) == Some(Invalid) <==> exists k :: 0 < k < |p| && p[..k] in t && t[p[..k]].File?
    decreases |p| - i
  {
    hide IsTree;
    if i + 1 < |p| {
      if IsDirAt(t, p[..i + 1]) {
        WalkFrom(t, p, i + 1);
      } else {
        NothingBelow(t, p, i + 1);
      }
    }
  }

  lemma NothingBelow(t: Tree, p: Name, i: nat)
    requires IsTree(t) && i < |p| && !IsDirAt(t, p[..i])
    ensures forall k :: i < k <= |p| ==> p[..k] !in t
  {
    forall k | i < k <= |p| && p[..k] in t
      ensures false
    {
      assert p[..i] <= p[..k];
      AncestorsAreDirs(t, p[..i], p[..k]);
    }
  }

  // ---------- the operations ----------

  function Children(t: Tree, p: Name): set<string> {
    set q | q in t && |q| == |p| + 1 && p <= q :: q[|p|]
  }

  lemma ChildrenAre(t: Tree, p: Name, c: string)
    ensures c in Children(t, p) <==> p + [c] in t
  {
    if c in Children(t, p) {
      var q :| q in t && |q| == |p| + 1 && p <= q && q[|p|] == c;
      assert q == p + [c];
    }
    if p + [c] in t {
      assert p <= p + [c] && (p + [c])[|p|] == c;
    }
  }

  /** Everything but the subtree at `p`. */
  function Without<V>(t: map<Name, V>, p: Name): map<Name, V> {
    map q | q in t && !(p <= q) :: t[q]
  }

  /** The keys of the subtree at `from`, as they read below `to`. */
  function Grafted<V>(t: map<Name, V>, from: Name, to: Name): set<Name> {
    set q | q in t && from <= q :: to + q[|from|..]
  }

  /** What is at `to` and below is replaced by what is at `from` and below. */
  function Copied<V>(t: map<Name, V>, from: Name, to: Name): map<Name, V> {
    GraftedAre(t, from, to);
    map q | q in Without(t, to).Keys + Grafted(t, from, to) ::
      if to <= q then t[from + q[|to|..]] else t[q]
  }

  /** The same, and nothing is left at `from`. */
  function Moved<V>(t: map<Name, V>, from: Name, to: Name): map<Name, V> {
    GraftedAre(t, from, to);
    map q | q in Without(Without(t, from), to).Keys + Grafted(t, from, to) ::
      if to <= q then t[from + q[|to|..]] else t[q]
  }

  lemma GraftedAre<V>(t: map<Name, V>, from: Name, to: Name)
    ensures forall q :: q in Grafted(t, from, to) <==> to <= q && from + q[|to|..] in t
  {
    forall q
      ensures q in Grafted(t, from, to) <==> to <= q && from + q[|to|..] in t
    {
      if to <= q && from + q[|to|..] in t {
        var s := from + q[|to|..];
        assert s[|from|..] == q[|to|..] && to + s[|from|..] == q;
      }
      if q in Grafted(t, from, to) {
        var s :| s in t && from <= s && q == to + s[|from|..];
        assert q[|to|..] == s[|from|..] && from + q[|to|..] == s;
      }
    }
  }

  lemma WithoutAt<V>(t: map<Name, V>, p: Name, q: Name)
    ensures q in Without(t, p) <==> q in t && !(p <= q)
    ensures q in Without(t, p) ==> Without(t, p)[q] == t[q]
  {}

  lemma CopiedAt<V>(t: map<Name, V>, from: Name, to: Name, q: Name)
    ensures q in Copied(t, from, to) <==> if to <= q then from + q[|to|..] in t else q in t
    ensures q in Copied(t, from, to) ==> Copied(t, from, to)[q] == t[if to <= q then from + q[|to|..] else q]
  {
    hide Grafted;
    GraftedAre(t, from, to);
  }

  lemma MovedAt<V>(t: map<Name, V>, from: Name, to: Name, q: Name)
    ensures q in Moved(t, from, to) <==> if to <= q then from + q[|to|..] in t else q in t && !(from <= q)
    ensures q in Moved(t, from, to) ==> Moved(t, from, to)[q] == t[if to <= q then from + q[|to|..] else q]
  {
    hide Grafted;
    GraftedAre(t, from, to);
  }

  function Mkdir(t: Tree, p: Name, perm: nat): (Option<FsError>, Tree) {
    if WalkError(t, p, 0).Some? then (WalkError(t, p, 0), t)
    else if p == [] then (Some(Invalid), t)
    else if p in t then (Some(Exist), t)
    else (None, t[p := Dir(perm)])
  }

  /** `unsupported` stands for the append and synchronous flags. */
  datatype Flags = Flags(write: bool, create: bool, excl: bool, trunc: bool, unsupported: bool)

  function Open(t: Tree, p: Name, f: Flags, perm: nat): (Option<FsError>, Tree) {
    if WalkError(t, p, 0).Some? then (WalkError(t, p, 0), t)
    else if p == [] then (if f.write then Some(Permission) else None, t)
    else if f.unsupported then (Some(Invalid), t)
    else if f.create && f.excl && p in t then (Some(Exist), t)
    else if !f.create && p !in t then (Some(NotExist), t)
    else if p !in t then (None, t[p := File(perm, [])])
    else if f.write && f.trunc && t[p].File? then (None, t[p := File(t[p].perm, [])])
    else (None, t)
  }

  function RemoveAll(t: Tree, p: Name): (Option<FsError>, Tree) {
    if WalkError(t, p, 0).Some? then (WalkError(t, p, 0), t)
    else if p == [] then (Some(Invalid), t)
    else (None, Without(t, p))
  }

  function Rename(t: Tree, o: Name, n: Name): (Option<FsError>, Tree) {
    if o == n then (None, t)
    else if o < n then (Some(Invalid), t)
    else if WalkError(t, o, 0).Some? then (WalkError(t, o, 0), t)
    else if WalkError(t, n, 0).Some? then (WalkError(t, n, 0), t)
    else if n == [] then (Some(Invalid), t)
    else if o !in t then (Some(NotExist), t)
    else if t[o].Dir? && n in t && t[n].File? then (Some(NotADirectory), t)
    else if t[o].Dir? && n in t && Children(t, n) != {} then (Some(DirectoryNotEmpty), t)
    else (None, Moved(t, o, n))
  }

  function Stat(t: Tree, p: Name): (r: Option<FsError>)
    ensures r.None? && IsTree(t) ==> p in t
  {
    if WalkError(t, p, 0).Some? then WalkError(t, p, 0)
    else if p == [] || p in t then None
    else Some(NotExist)
  }

  // ---------- every operation keeps the tree ----------

  lemma OpsKeepTree(t: Tree, p: Name, f: Flags, perm: nat)
    requires IsTree(t)
    ensures IsTree(Mkdir(t, p, perm).1) && IsTree(Open(t, p, f, perm).1) && IsTree(RemoveAll(t, p).1)
  {
    hide WalkError, IsTree, Without;
    WalkMeaning(t, p);
    if p != [] && WalkError(t, p, 0).None? {
      WithoutKeepsTree(t, p);
      EntryKeepsTree(t, p, Dir(perm));
      EntryKeepsTree(t, p, File(perm, []));
      if p in t {
        EntryKeepsTree(t, p, File(t[p].perm, []));
      }
    }
  }

  /**
   What opening does to the tree.  It succeeds with a directory to look in and what the flags
   ask for; a file that was there loses its data exactly when it is opened to be written with
   truncation, one that was not there is made empty, and nothing else changes.
   */
  lemma OpenChanges(t: Tree, p: Name, f: Flags, perm: nat)
    requires IsTree(t) && p != []
    ensures var (err, t') := Open(t, p, f, perm);
            && (err.None? <==>
                && IsDirAt(t, Parent(p)) && !f.unsupported
                && (p in t ==> !(f.create && f.excl)) && (p !in t ==> f.create))
            && (forall q :: q in t' <==> q in t || (q == p && err.None?))
            && (forall q :: q in t && q != p ==> t'[q] == t[q])
            && (err.None? ==>
                  t'[p] == if p !in t then File(perm, [])
                           else if t[p].File? && f.write && f.trunc then File(t[p].perm, []) else t[p])
            && (err.Some? ==> t' == t)
  {
    hide WalkError;
    WalkMeaning(t, p);
  }

  /** When the other operations succeed, and what is there then. */
  lemma OpsSucceed(t: Tree, p: Name, perm: nat)
    requires IsTree(t)
    ensures Mkdir(t, p, perm) == if p !in t && IsDirAt(t, Parent(p)) then (None, t[p := Dir(perm)])
                                 else (Mkdir(t, p, perm).0, t)
    ensures Mkdir(t, p, perm).0.None? <==> p !in t && IsDirAt(t, Parent(p))
    ensures RemoveAll(t, p).0.None? <==> p != [] && IsDirAt(t, Parent(p))
    ensures forall q :: q in RemoveAll(t, p).1 <==> q in t && !(RemoveAll(t, p).0.None? && p <= q)
    ensures forall q :: q in RemoveAll(t, p).1 ==> RemoveAll(t, p).1[q] == t[q]
    ensures Stat(t, p).None? <==> p in t
  {
    hide WalkError;
    WalkMeaning(t, p);
  }

  /** A new entry in a directory, or a file in place of a file. */
  lemma EntryKeepsTree(t: Tree, p: Name, e: Entry)
    requires IsTree(t) && p != [] && IsDirAt(t, Parent(p))
    ensures e.Dir? || p !in t || t[p].File? ==> IsTree(t[p := e])
  {
    if e.Dir? || p !in t || t[p].File? {
      var t' := t[p := e];
      forall q | q in t' && q != []
        ensures IsDirAt(t', Parent(q))
      {
        if q == p {
          assert Parent(p) != p;
        } else {
          assert IsDirAt(t, Parent(q));
        }
      }
    }
  }

  lemma WithoutKeepsTree(t: Tree, p: Name)
    requires IsTree(t) && p != []
    ensures IsTree(Without(t, p))
  {
    forall q | q in Without(t, p) && q != []
      ensures IsDirAt(Without(t, p), Parent(q))
    {
      assert IsDirAt(t, Parent(q));
      assert p <= Parent(q) ==> p <= q;
    }
  }

  lemma CopiedKeepsTree(t: Tree, from: Name, to: Name)
    requires IsTree(t) && from in t && to != [] && IsDirAt(t, Parent(to))
    ensures IsTree(Copied(t, from, to))
  {
    hide Copied;
    var t' := Copied(t, from, to);
    GraftRoot(to);
    CopiedAt(t, from, to, []);
    forall q | q in t' && q != []
      ensures IsDirAt(t', Parent(q))
    {
      CopiedAt(t, from, to, q);
      CopiedAt(t, from, to, Parent(q));
      GraftParent(t, from, to, q);
    }
  }

  lemma GraftRoot(to: Name)
    requires to != []
    ensures !(to <= []) && !(to <= Parent(to))
  {}

  lemma MovedKeepsTree(t: Tree, from: Name, to: Name)
    requires IsTree(t) && from in t && from != [] && to != [] && IsDirAt(t, Parent(to)) && !(from <= to)
    ensures IsTree(Moved(t, from, to))
  {
    hide Moved;
    var t' := Moved(t, from, to);
    GraftRoot(to);
    MovedAt(t, from, to, []);
    assert !(from <= Parent(to)) by {
      assert Parent(to) <= to;
    }
    forall q | q in t' && q != []
      ensures IsDirAt(t', Parent(q))
    {
      MovedAt(t, from, to, q);
      MovedAt(t, from, to, Parent(q));
      GraftParent(t, from, to, q);
      assert Parent(q) <= q;
    }
  }

  lemma GraftParent(t: Tree, from: Name, to: Name, q: Name)
    requires IsTree(t) && q != [] && to != []
    requires if to <= q then from + q[|to|..] in t else q in t
    ensures if to <= q && q != to then to <= Parent(q) && from + Parent(q)[|to|..] in t &&
      t[from + Parent(q)[|to|..]].Dir?
            else q == to || (!(to <= Parent(q)) && IsDirAt(t, Parent(q)))
    ensures !(to <= Parent(to))
  {
    if to <= q && q != to {
      var s := from + q[|to|..];
      assert Parent(s) == from + Parent(q)[|to|..];
      assert IsDirAt(t, Parent(s));
    } else if !(to <= q) {
      assert IsDirAt(t, Parent(q));
      assert to <= Parent(q) ==> to <= q;
    }
  }

  // ---------- what a rename does ----------

  /**
   A rename that succeeds moves exactly the old subtree to the new name, drops what was
   there, leaves everything else, and never puts a directory below itself.
   */
  lemma RenameMoves(t: Tree, o: Name, n: Name)
    requires IsTree(t) && Rename(t, o, n).0.None? && o != n
    ensures var t' := Rename(t, o, n).1;
            && IsTree(t') && o in t && !(o < n)
            && (forall r :: n + r in t' <==> o + r in t)
            && (forall r :: o + r in t ==> t'[n + r] == t[o + r])
            && (forall q :: !(o <= q) && !(n <= q) ==> (q in t' <==> q in t) && (q in t ==> t'[q] == t[q]))
            && (forall q :: o <= q && !(n <= q) ==> q !in t')
  {
    hide Moved, WalkError;
    var t' := Rename(t, o, n).1;
    WalkMeaning(t, n);
    MovedKeepsTree(t, o, n);
    forall r
      ensures n + r in t' <==> o + r in t
      ensures o + r in t ==> t'[n + r] == t[o + r]
    {
      MovedAt(t, o, n, n + r);
      assert (n + r)[|n|..] == r && n <= n + r;
    }
    forall q | !(n <= q)
      ensures q in t' <==> q in t && !(o <= q)
      ensures q in t' ==> t'[q] == t[q]
    {
      MovedAt(t, o, n, q);
    }
  }

  /**
   When a rename succeeds: always to the name itself; otherwise nothing goes below itself or
   to a place that is not there, and a directory replaces only an empty directory.
   */
  lemma RenameSucceeds(t: Tree, o: Name, n: Name)
    requires IsTree(t)
    ensures Rename(t, o, n).0.None? <==>
      || o == n
      || (&& o in t && o != [] && n != [] && !(o < n) && IsDirAt(t, Parent(n))
          && (t[o].Dir? && n in t ==> t[n].Dir? && forall q :: q in t && n <= q ==> q == n))
    ensures Rename(t, o, n).0.Some? || o == n ==> Rename(t, o, n).1 == t
  {
    hide WalkError, Moved, Children;
    WalkMeaning(t, o);
    WalkMeaning(t, n);
    EmptyHasNoChildren(t, n);
    if o in t && o != [] {
      assert IsDirAt(t, Parent(o));
    }
  }

  lemma EmptyHasNoChildren(t: Tree, n: Name)
    requires IsTree(t)
    ensures Children(t, n) == {} <==> forall q :: q in t && n <= q ==> q == n
  {
    hide Children;
    if Children(t, n) == {} {
      forall q | q in t && n <= q
        ensures q == n
      {
        if q != n {
          ChildThere(t, n, q);
        }
      }
    }
    forall c | c in Children(t, n)
      ensures n + [c] in t && n <= n + [c] && n + [c] != n
    {
      ChildrenAre(t, n, c);
    }
    if c :| c in Children(t, n) {
      assert n + [c] in t && n <= n + [c];
    }
  }

  lemma ChildThere(t: Tree, n: Name, q: Name)
    requires IsTree(t) && q in t && n <= q && q != n
    ensures q[|n|] in Children(t, n)
  {
    hide IsTree, Children;
    var m := q[..|n| + 1];
    if m != q {
      AncestorsAreDirs(t, m, q);
    }
    assert m == n + [q[|n|]];
    ChildrenAre(t, n, q[|n|]);
  }

  /** Moving to a free name and back again restores the tree. */
  lemma RenameBack(t: Tree, o: Name, n: Name)
    requires IsTree(t) && n !in t && Rename(t, o, n).0.None? && o != n
    ensures Rename(Rename(t, o, n).1, n, o) == (None, t)
  {
    hide Moved, WalkError, Children;
    var t' := Rename(t, o, n).1;
    WalkMeaning(t, o);
    WalkMeaning(t, n);
    NoneBelow(t, n);
    MovedKeepsTree(t, o, n);
    ParentStays(t, o, n);
    WalkMeaning(t', o);
    WalkMeaning(t', n);
    MovedAt(t, o, n, o);
    MovedAt(t, o, n, n);
    assert n[|n|..] == [] && o + [] == o;
    MovedBack(t, o, n);
  }

  lemma ParentStays(t: Tree, o: Name, n: Name)
    requires IsTree(t) && o in t && o != [] && n != [] && !(o <= n) && !(n <= o) && IsDirAt(t, Parent(n))
    ensures IsDirAt(Moved(t, o, n), Parent(o)) && IsDirAt(Moved(t, o, n), Parent(n))
  {
    hide Moved;
    GraftRoot(o);
    GraftRoot(n);
    MovedAt(t, o, n, Parent(o));
    MovedAt(t, o, n, Parent(n));
    assert Parent(o) <= o && Parent(n) <= n;
    assert n <= Parent(o) ==> n <= o;
    assert o <= Parent(n) ==> o <= n;
  }

  lemma MovedBack(t: Tree, o: Name, n: Name)
    requires !(o <= n) && !(n <= o) && forall q :: q in t ==> !(n <= q)
    ensures Moved(Moved(t, o, n), n, o) == t
  {
    hide Moved;
    var t' := Moved(t, o, n);
    var t'' := Moved(t', n, o);
    forall q
      ensures q in t'' <==> q in t
      ensures q in t ==> t''[q] == t[q]
    {
      MovedAt(t', n, o, q);
      if o <= q {
        var m := n + q[|o|..];
        MovedAt(t, o, n, m);
        assert m[|n|..] == q[|o|..] && q == o + q[|o|..];
      } else {
        MovedAt(t, o, n, q);
      }
    }
    assert t'' == t;
  }

  lemma NoneBelow(t: Tree, n: Name)
    requires IsTree(t) && n !in t
    ensures forall q :: q in t ==> !(n <= q)
  {
    forall q | q in t && n <= q
      ensures false
    {
      AncestorsAreDirs(t, n, q);
    }
  }

  // ---------- changes in one place ----------

  /** Outside `q` nothing has changed. */
  ghost predicate SameOutside(t: Tree, t': Tree, q: Name) {
    Without(t', q) == Without(t, q)
  }

  lemma OutsideSelf(t: Tree, q: Name)
    ensures SameOutside(t, t, q)
  {}

  lemma OutsideAgain(t: Tree, s: Tree, s': Tree, q: Name)
    requires SameOutside(t, s, q) && SameOutside(s, s', q)
    ensures SameOutside(t, s', q)
  {}

  lemma OutsideChild(s: Tree, s': Tree, q: Name, c: string)
    requires SameOutside(s, s', q + [c])
    ensures SameOutside(s, s', q)
    ensures q in s ==> q in s'
  {
    forall x | !(q <= x) || x == q
      ensures x in s' <==> x in s
      ensures x in s ==> s'[x] == s[x]
    {
      SnocPrefix(q, x, c);
      WithoutAt(s', q + [c], x);
      WithoutAt(s, q + [c], x);
    }
    assert Without(s', q) == Without(s, q);
  }
}
