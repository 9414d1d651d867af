/**
 The user's file system with its usage ledger.  Every operation that changes the bytes
 in the tree commits the change to the recorded usage; a commit may fail, after the
 tree has been changed, and then exactly that change is lost.  The operating system may
 refuse any removal, rename or write, without effect.
 */
module Quota {
  import CopyMove
  import opened FileTree
  import opened Paths
  import opened TreeSize
  import opened Wrappers

  datatype Error = Missing | NotADir | Exists | Denied | Refused | CommitFailed | QuotaExceeded

  /** The part of a path's resolution that is about its text; a relative path that climbs out is refused. */
  function LexicalPath(name: string): Option<Name> {
    if (name == "" || name[0] != '/') && Climbs(Split(name), []).0 > 0 then None
    else Some(SlashClean(name))
  }

  /**
   For a relative name, the file that is opened and the name that is locked are the same
   path below the user's root whenever the name is accepted; for an absolute one they
   agree exactly when no ".." climbs above it, although the file is always inside.
   */
  lemma FileAndLockAgree(base: Name, name: string)
    requires base != [] && LexicalPath(name).Some?
    ensures ScopedName(base, name) == base + LexicalPath(name).value <==> !Underflows(Split(name), 0)
    ensures name == "" || name[0] != '/' ==> !Underflows(Split(name), 0)
  {
    ClimbsIsUnderflow(Split(name), []);
    ScopedNameStaysInside(base, name);
  }

  /** A name is refused exactly if it is relative and climbs out of where it starts. */
  lemma RefusedNames(name: string)
    ensures LexicalPath(name).Some? <==> "/" <= name || !Underflows(Split(name), 0)
    ensures LexicalPath(name).Some? ==> LexicalPath(name).value == SlashClean(name)
  {
    hide Split, SlashClean;
    ClimbsIsUnderflow(Split(name), []);
  }

  /** Adds up the sizes of the files at and below `p`, in whatever order they come. */
  method PathSize(t: Tree, p: Name) returns (total: nat)
    ensures total == Bytes(Subtree(t, p))
  {
    var left := set q | q in t && p <= q;
    ghost var seen: Tree := map[];
    total := 0;
    assert left == Subtree(t, p).Keys;
    while left != {}
      invariant left <= Subtree(t, p).Keys && seen == Subtree(t, p) - left
      invariant total == Bytes(seen)
      decreases left
    {
      var q :| q in left;
      BytesUpdate(seen, q, t[q]);
      total := total + Size(t[q]);
      left := left - {q};
      seen := seen[q := t[q]];
      assert seen == Subtree(t, p) - left;
    }
    assert seen == Subtree(t, p);
  }

  class RestrictedFS {
    const readOnly: bool
    const quota: int
    /** What is under the user's root. */
    var tree: Tree
    /** The usage in the database, and the copy of it that a request works with. */
    var recorded: int
    var used: int
    /** Changes whose commit failed, how many commits did, and how often the operating system refused something. */
    ghost var lost: int
    ghost var failures: nat
    ghost var refusals: nat

    ghost predicate Valid()
      reads this
    {
      IsTree(tree) && used == recorded
    }

    /** What the ledger says beyond what is in the tree, apart from the commits that failed. */
    ghost function Drift(): int
      reads this
    {
      recorded + lost - Bytes(tree)
    }

    method Commit(delta: int) returns (ok: bool)
      modifies this`recorded, this`lost, this`failures
      ensures recorded + lost == old(recorded + lost) + delta
      ensures failures == old(failures) + if ok then 0 else 1
      ensures ok ==> lost == old(lost)
      ensures !ok ==> recorded == old(recorded)
    {
      ok := *;
      if ok {
        recorded := recorded + delta;
      } else {
        lost := lost + delta;
        failures := failures + 1;
      }
    }

    /** Nothing was refused, and no commit failed. */
    twostate predicate Undisturbed()
      reads this
    {
      refusals == old(refusals) && failures == old(failures)
    }

    /** Disturbances are only counted up, and without one no change is lost. */
    twostate predicate Counted()
      reads this
    {
      && refusals >= old(refusals) && failures >= old(failures)
      && (failures == old(failures) ==> lost == old(lost))
    }

    /** Whether the operating system carries an operation out. */
    method Allowed() returns (ok: bool)
      modifies this`refusals
      ensures refusals == old(refusals) + if ok then 0 else 1
    {
      ok := *;
      if !ok {
        refusals := refusals + 1;
      }
    }

    function PathError(p: Name, allowMissing: bool): Option<Error>
      reads this`tree
    {
      if p in tree then None
      else if allowMissing then (if Parent(p) in tree then None else Some(Missing))
      else if WalkError(tree, p, 0) == Some(Invalid) then Some(NotADir)
      else Some(Missing)
    }

    method Mkdir(p: Name, perm: nat) returns (err: Option<Error>)
      requires Valid()
      modifies this`tree, this`refusals
      ensures Valid() && Drift() == old(Drift()) && refusals >= old(refusals)
      ensures if err.None? then p != [] && !readOnly && p !in old(tree) && tree == old(tree)[p := Dir(perm)]
        else tree == old(tree)
      ensures Undisturbed() ==>
        (err.None? <==> !readOnly && p != [] && p !in old(tree) && IsDirAt(old(tree), Parent(p)))
    {
      if readOnly {
        return Some(Denied);
      }
      err := PathError(p, true);
      if err.Some? {
        return;
      }
      if p in tree {
        return Some(Exists);
      }
      if !tree[Parent(p)].Dir? {
        return Some(NotADir);
      }
      var ok := Allowed();
      if !ok {
        return Some(Refused);
      }
      BytesUpdate(tree, p, Dir(perm));
      EntryKeepsTree(tree, p, Dir(perm));
      tree := tree[p := Dir(perm)];
    }

    method RemoveAll(p: Name) returns (err: Option<Error>)
      requires Valid()
      modifies this`tree, this`recorded, this`used, this`lost, this`failures, this`refusals
      ensures Valid() && Drift() == old(Drift()) && Counted()
      ensures recorded <= old(recorded)
      ensures tree == old(tree) || tree == Without(old(tree), p)
      ensures err.None? ==> p in old(tree) && p != [] && !readOnly && tree == Without(old(tree), p)
      ensures Undisturbed() ==> (err.None? <==> !readOnly && p in old(tree) && p != [])
      ensures p in old(tree) && p != [] && !readOnly && refusals == old(refusals) ==> tree == Without(old(tree), p)
    {
      hide Without, Subtree, Bytes, WalkError;
      if readOnly {
        return Some(Denied);
      }
      err := PathError(p, false);
      if err.Some? {
        return;
      }
      if p == [] {
        return Some(Denied);
      }
      var bytes: int;
      bytes := PathSize(tree, p);
      var ok := Allowed();
      if !ok {
        return Some(Refused);
      }
      BytesWithout(tree, p);
      WithoutKeepsTree(tree, p);
      tree := Without(tree, p);
      if bytes > 0 {
        ok := Commit(-bytes);
        if !ok {
          return Some(CommitFailed);
        }
        used := used - bytes;
      }
    }

    /**
     A file or a directory takes the place of a file or of nothing; renaming something to its own
     name does nothing.
     */
    method Rename(o: Name, n: Name) returns (err: Option<Error>)
      requires Valid()
      modifies this`tree, this`recorded, this`used, this`lost, this`failures, this`refusals
      ensures Valid() && Counted()
      ensures recorded <= old(recorded)
      ensures Undisturbed() ==>
        (err.None? <==>
          && !readOnly && o in old(tree) && n != [] && !(o < n) && IsDirAt(old(tree), Parent(n))
          && (n in old(tree) ==> old(tree)[n].File? && old(tree)[o].File?))
      ensures err.None? ==>
        o in old(tree) && !(n in old(tree) && old(tree)[n].Dir?) && tree == if o == n then old(tree)
          else Moved(old(tree), o, n)
      ensures tree == old(tree) || (o != n && tree == Moved(old(tree), o, n))
      ensures Drift() == old(Drift()) -
        if o == n && (err.None? || err == Some(CommitFailed)) then SizeAt(old(tree), n) else 0
    {
      hide Moved, WalkError, Bytes, IsTree;
      if readOnly {
        return Some(Denied);
      }
      err := PathError(o, false);
      if err.Some? {
        return;
      }
      err := PathError(n, true);
      if err.Some? {
        return;
      }
      if n in tree && tree[n].Dir? {
        return Some(Exists);
      }
      var replaced: int := SizeAt(tree, n);
      if o < n || n == [] || !IsDirAt(tree, Parent(n)) || (n in tree && tree[o].Dir?) {
        return Some(Refused);
      }
      var ok := Allowed();
      if !ok {
        return Some(Refused);
      }
      if o != n {
        RenameAccounts(tree, o, n);
        tree := Moved(tree, o, n);
      }
      if replaced > 0 {
        ok := Commit(-replaced);
        if !ok {
          return Some(CommitFailed);
        }
        used := used - replaced;
      }
    }
  }

  /** A file that is written to a temporary place and takes its own place when it is closed. */
  class QuotaFile {
    const fs: RestrictedFS
    const destination: Name
    const perm: nat
    const previous: nat
    var data: seq<bv8>
    var count: nat
    var failed: bool
    var closed: bool

    /** Unless a write was refused, what has been counted still fits in the quota. */
    ghost predicate Valid()
      reads this, fs`used
    {
      && count == |data|
      && (fs.quota > 0 && !failed && count > 0 ==> fs.used + count - previous <= fs.quota)
    }

    constructor (fs: RestrictedFS, destination: Name, perm: nat, previous: nat)
      ensures this.fs == fs && this.destination == destination && this.perm == perm && this.previous == previous
      ensures Valid() && data == [] && !failed && !closed
    {
      this.fs, this.destination, this.perm, this.previous := fs, destination, perm, previous;
      data, count, failed, closed := [], 0, false, false;
    }

    /** Nothing of a chunk that would exceed the quota is written; the medium may take less than it is given. */
    method Write(chunk: seq<bv8>) returns (n: nat, err: Option<Error>)
      requires Valid()
      modifies this`data, this`count, this`failed, fs`refusals
      ensures Valid() && fs.refusals >= old(fs.refusals)
      ensures n <= |chunk| && data == old(data) + chunk[..n]
      ensures err == Some(QuotaExceeded) <==> fs.quota > 0 && fs.used + old(count) + |chunk| - previous > fs.quota
      ensures failed == (old(failed) || err == Some(QuotaExceeded))
      ensures err == Some(QuotaExceeded) ==> n == 0
      ensures err.None? ==> n == |chunk|
      ensures fs.refusals == old(fs.refusals) ==> err.None? || err == Some(QuotaExceeded)
    {
      if fs.quota > 0 && fs.used + count + |chunk| - previous > fs.quota {
        failed := true;
        return 0, Some(QuotaExceeded);
      }
      var ok := fs.Allowed();
      if ok {
        n := |chunk|;
      } else {
        n :| 0 <= n <= |chunk|;
      }
      data := data + chunk[..n];
      count := count + n;
      err := if ok then None else Some(Refused);
    }

    /** The file takes its place, and the ledger the difference to what was there when it was opened. */
    method Close() returns (err: Option<Error>)
      requires Valid() && fs.Valid()
      modifies this`closed, fs`tree, fs`recorded, fs`used, fs`lost, fs`failures, fs`refusals
      ensures fs.Valid() && closed && fs.Counted()
      ensures fs.Undisturbed() && !old(closed) && !old(failed) ==>
        (err.None? <==>
          && destination != [] && IsDirAt(old(fs.tree), Parent(destination))
          && (destination in old(fs.tree) ==> old(fs.tree)[destination].File?))
      ensures old(failed) || old(closed) ==>
        fs.tree == old(fs.tree) && fs.recorded == old(fs.recorded) && fs.lost == old(fs.lost)
      ensures var published := old(fs.tree)[destination := File(perm, data)];
              || (fs.tree == old(fs.tree) && fs.Drift() == old(fs.Drift()) && fs.recorded == old(fs.recorded) &&
                fs.lost == old(fs.lost))
              || (fs.tree == published && fs.Drift() == old(fs.Drift()) + SizeAt(old(fs.tree), destination) - previous)
      ensures err.None? && !old(failed) && !old(closed) ==> fs.tree == old(fs.tree)[destination := File(perm, data)]
      ensures fs.quota > 0 ==> fs.recorded <= old(fs.recorded) || fs.recorded <= fs.quota
    {
      hide Bytes, IsTree;
      if closed {
        return None;
      }
      closed := true;
      var ok := fs.Allowed();
      if !ok || failed {
        return if ok then None else Some(Refused);
      }
      if destination == [] || !IsDirAt(fs.tree, Parent(destination)) || IsDirAt(fs.tree, destination) {
        return Some(Refused);
      }
      ok := fs.Allowed();
      if !ok {
        return Some(Refused);
      }
      BytesUpdate(fs.tree, destination, File(perm, data));
      EntryKeepsTree(fs.tree, destination, File(perm, data));
      fs.tree := fs.tree[destination := File(perm, data)];
      var delta := count - previous;
      ok := fs.Commit(delta);
      if !ok {
        return Some(CommitFailed);
      }
      fs.used := fs.used + delta;
      return None;
    }
  }

  // ---------- requests ----------

  /** What every request keeps: the ledger's drift, and usage that has not grown beyond the quota. */
  twostate predicate Kept(fs: RestrictedFS)
    reads fs
  {
    && fs.Valid() && fs.Drift() == old(fs.Drift()) && fs.Counted()
    && (fs.quota > 0 ==> fs.recorded <= old(fs.recorded) || fs.recorded <= fs.quota)
  }

  function Concat(chunks: seq<seq<bv8>>): seq<bv8> {
    if chunks == [] then [] else Concat(chunks[..|chunks| - 1]) + chunks[|chunks| - 1]
  }

  /** Opens a file for replacement. */
  method OpenQuotaFile(fs: RestrictedFS, p: Name, perm: nat) returns (err: Option<Error>, f: QuotaFile?)
    requires fs.Valid()
    modifies fs`refusals
    ensures fs.refusals >= old(fs.refusals)
    ensures err.None? ==>
      f != null && fresh(f) && f.Valid() && f.fs == fs && f.destination == p && f.perm == perm && f.data == [] &&
        !f.failed && !f.closed
      && !fs.readOnly && f.previous == SizeAt(fs.tree, p)
    ensures err.Some? ==>
      || fs.readOnly || fs.refusals > old(fs.refusals)
      || (p !in fs.tree && !IsDirAt(fs.tree, Parent(p)))
    ensures err.None? ==> p in fs.tree || IsDirAt(fs.tree, Parent(p))
    ensures err == Some(Missing) <==> !fs.readOnly && p !in fs.tree && Parent(p) !in fs.tree
  {
    f := null;
    if fs.readOnly {
      return Some(Denied), null;
    }
    err := fs.PathError(p, true);
    if err.Some? {
      return;
    }
    var ok := fs.Allowed();
    if !ok {
      return Some(Refused), null;
    }
    if p !in fs.tree && !IsDirAt(fs.tree, Parent(p)) {
      return Some(NotADir), null;
    }
    f := new QuotaFile(fs, p, perm, SizeAt(fs.tree, p));
  }

  /** There is room for the body in place of a file of `previous` bytes; where nothing is written, none is needed. */
  predicate BodyFits(quota: int, used: int, previous: int, chunks: seq<seq<bv8>>) {
    quota <= 0 || chunks == [] || used + |Concat(chunks)| - previous <= quota
  }

  /** Writes until a write fails. */
  method CopyAll(f: QuotaFile, chunks: seq<seq<bv8>>) returns (err: Option<Error>)
    requires f.Valid() && f.data == [] && !f.failed
    modifies f`data, f`count, f`failed, f.fs`refusals
    ensures f.Valid() && f.fs.refusals >= old(f.fs.refusals)
    ensures f.failed <==> err == Some(QuotaExceeded)
    ensures f.data <= Concat(chunks) && (err.None? ==> f.data == Concat(chunks))
    ensures f.fs.refusals == old(f.fs.refusals) ==>
      err == if BodyFits(f.fs.quota, f.fs.used, f.previous, chunks) then None else Some(QuotaExceeded)
    ensures err == Some(QuotaExceeded) ==> !BodyFits(f.fs.quota, f.fs.used, f.previous, chunks)
  {
    hide Concat;
    var i := 0;
    ConcatSteps(chunks, 0);
    while i < |chunks|
      invariant 0 <= i <= |chunks| && f.Valid() && !f.failed && f.fs.refusals >= old(f.fs.refusals)
      invariant f.data == Concat(chunks[..i]) && f.count == |f.data|
      invariant f.fs.quota > 0 && i > 0 ==> f.fs.used + |Concat(chunks[..i])| - f.previous <= f.fs.quota
    {
      var n;
      ConcatSteps(chunks, i);
      assert chunks[i][..|chunks[i]|] == chunks[i];
      n, err := f.Write(chunks[i]);
      if err.Some? {
        return;
      }
      assert chunks[i][..n] == chunks[i];
      i := i + 1;
    }
    ConcatSteps(chunks, i);
    return None;
  }

  /** The first `i` chunks, and a part of the next one, begin the whole. */
  lemma {:induction false} ConcatSteps(chunks: seq<seq<bv8>>, i: nat)
    requires i <= |chunks|
    ensures Concat([]) == [] && chunks[..0] == [] && chunks[..|chunks|] == chunks
    ensures Concat(chunks[..i]) <= Concat(chunks)
    ensures i < |chunks| ==> Concat(chunks[..i + 1]) == Concat(chunks[..i]) + chunks[i]
    ensures i < |chunks| ==> forall n :: 0 <= n <= |chunks[i]| ==>
      Concat(chunks[..i]) + chunks[i][..n] <= Concat(chunks)
    decreases |chunks| - i
  {
    if i < |chunks| {
      assert chunks[..i + 1][..i] == chunks[..i];
      ConcatSteps(chunks, i + 1);
    } else {
      assert chunks[..i] == chunks;
    }
  }

  /** A body that breaks off is published as far as it came. */
  method Put(fs: RestrictedFS, p: Name, chunks: seq<seq<bv8>>, breaksOff: bool) returns (status: Status)
    requires fs.Valid()
    modifies fs
    ensures Kept(fs)
    ensures status == Created ==> !breaksOff && fs.tree == old(fs.tree)[p := File(438, Concat(chunks))]
    ensures status == InsufficientStorage ==> fs.tree == old(fs.tree) && fs.recorded == old(fs.recorded)
    ensures var (t, fits) := (old(fs.tree), BodyFits(fs.quota, old(fs.used), SizeAt(old(fs.tree), p), chunks));
            && (status == InsufficientStorage ==> !fits)
            && (status == Conflict <==> !fs.readOnly && p !in t && Parent(p) !in t)
            && (fs.Undisturbed() ==>
                  && (status == Created <==>
                        && !fs.readOnly && p != [] && IsDirAt(t, Parent(p)) && (p in t ==> t[p].File?)
                        && fits && !breaksOff)
                  && (status == InsufficientStorage <==>
                        !fs.readOnly && (p in t || IsDirAt(t, Parent(p))) && !fits))
    ensures fs.tree == old(fs.tree) || exists data ::
      && data <= Concat(chunks)
      && fs.tree == old(fs.tree)[p := File(438, data)]
  {
    hide Concat, Bytes, IsTree;
    var err, f := OpenQuotaFile(fs, p, 438);
    if err.Some? {
      return if err == Some(Missing) then Conflict else NotFound;
    }
    var copyErr := CopyAll(f, chunks);
    var closeErr := f.Close();
    if copyErr.Some? {
      return if copyErr == Some(QuotaExceeded) then InsufficientStorage else MethodNotAllowed;
    }
    if breaksOff || closeErr.Some? {
      return MethodNotAllowed;
    }
    return Created;
  }

  method Delete(fs: RestrictedFS, p: Name) returns (status: Status)
    requires fs.Valid()
    modifies fs
    ensures Kept(fs)
    ensures status == NotFound <==> p !in old(fs.tree) && !CopyMove.FileAbove(old(fs.tree), p)
    ensures p !in old(fs.tree) ==> fs.tree == old(fs.tree)
    ensures status == NoContent ==> p in old(fs.tree) && fs.tree == Without(old(fs.tree), p)
    ensures fs.Undisturbed() ==> (status == NoContent <==> !fs.readOnly && p in old(fs.tree) && p != [])
    ensures fs.tree == old(fs.tree) || fs.tree == Without(old(fs.tree), p)
  {
    hide Bytes, IsTree, WalkError, Without, CopyMove.FileAbove;
    CopyMove.AboveIsWalk(fs.tree, p);
    var err := fs.PathError(p, false);
    if err.Some? {
      return if err == Some(Missing) then NotFound else MethodNotAllowed;
    }
    err := fs.RemoveAll(p);
    return if err.Some? then MethodNotAllowed else NoContent;
  }

  /** A lock on a name where nothing is makes an empty file. */
  method CreateForLock(fs: RestrictedFS, p: Name) returns (ok: bool, created: bool)
    requires fs.Valid()
    modifies fs
    ensures Kept(fs)
    ensures p in old(fs.tree) ==> ok && !created && fs.tree == old(fs.tree)
    ensures p !in old(fs.tree) ==>
      created == ok && (fs.tree == old(fs.tree) || (ok && fs.tree == old(fs.tree)[p := File(438, [])]))
    ensures p !in old(fs.tree) && fs.Undisturbed() ==>
      (ok <==> !fs.readOnly && IsDirAt(old(fs.tree), Parent(p))) &&
      (ok ==> fs.tree == old(fs.tree)[p := File(438, [])])
    ensures p !in old(fs.tree) && !ok ==> fs.readOnly || !IsDirAt(fs.tree, Parent(p)) || fs.refusals > old(fs.refusals)
  {
    hide Bytes, IsTree, WalkError;
    if p in fs.tree {
      return true, false;
    }
    var err, f := OpenQuotaFile(fs, p, 438);
    if err.Some? {
      return false, false;
    }
    var closeErr := f.Close();
    return true, true;
  }

  /** Removing the destination leaves its place, and the source unless that is there too. */
  lemma PlaceCleared(t: Tree, p: Name, q: Name)
    ensures p in Without(t, q) <==> p in t && !(q <= p)
    ensures q !in Without(t, q) && (q != [] ==> (IsDirAt(Without(t, q), Parent(q)) <==> IsDirAt(t, Parent(q))))
    ensures CopyMove.Disjoint(p, q) <==> !(p < q) && !(q <= p)
  {
    Apart(p, q);
  }

  method MoveFiles(fs: RestrictedFS, src: Name, dst: Name, overwrite: bool) returns (status: Status)
    requires fs.Valid()
    modifies fs
    ensures Kept(fs)
    ensures Succeeded(status) ==>
      && src != dst && fs.tree == Moved(Without(old(fs.tree), dst), src, dst)
      && (status == Created <==> dst !in old(fs.tree))
    ensures status == PreconditionFailed <==> dst in old(fs.tree) && !overwrite
    ensures fs.Undisturbed() ==>
      (Succeeded(status) <==>
        && !fs.readOnly && src in old(fs.tree) && CopyMove.Disjoint(src, dst)
        && IsDirAt(old(fs.tree), Parent(dst)) && (dst in old(fs.tree) ==> overwrite))
  {
    hide Bytes, IsTree, WalkError, Without, Moved;
    var created := false;
    WalkMeaning(fs.tree, dst);
    PlaceCleared(fs.tree, src, dst);
    var err := fs.PathError(dst, false);
    if err.Some? {
      if err != Some(Missing) {
        return Forbidden;
      }
      created := true;
      AbsentIsWithout(fs.tree, dst);
    } else if overwrite {
      err := fs.RemoveAll(dst);
      if err.Some? {
        return Forbidden;
      }
    } else {
      return PreconditionFailed;
    }
    err := fs.Rename(src, dst);
    if err.Some? {
      return Forbidden;
    }
    return if created then Created else NoContent;
  }

  ghost predicate NothingAt(t: Tree, p: Name) {
    forall q :: q in t ==> !(p <= q)
  }

  /** The bytes that are copied: those of a whole subtree, or of one entry. */
  ghost function BytesToCopy(t: Tree, src: Name, infinite: bool): nat {
    if infinite then Bytes(Subtree(t, src)) else SizeAt(t, src)
  }

  /** There is room for the copy once the destination has been removed. */
  ghost predicate Fits(quota: int, used: int, t: Tree, src: Name, dst: Name, infinite: bool) {
    var bytes := BytesToCopy(t, src, infinite);
    quota <= 0 || bytes == 0 || used - Bytes(Subtree(t, dst)) + bytes <= quota
  }

  /** There is room for the tree to grow from `base`, where `used` is used, to `t`. */
  ghost predicate Room(quota: int, used: int, base: Tree, t: Tree) {
    quota <= 0 || Bytes(t) == Bytes(base) || used + Bytes(t) - Bytes(base) <= quota
  }

  lemma FitsIsRoom(quota: int, used: int, t: Tree, src: Name, dst: Name, infinite: bool)
    requires IsTree(t) && src in t
    ensures Fits(quota, used, t, src, dst, infinite) <==>
      Room(quota, used - Bytes(Subtree(t, dst)), Without(t, dst), CopyMove.CopiedTree(t, src, dst, infinite))
  {
    hide Bytes, Subtree, Without, Copied, CopyMove.Partial;
    CopyMove.CopiedTreeUnfolds(t, src, dst);
    if infinite {
      BytesCopied(t, src, dst);
    } else {
      CopyMove.PartialNone(t, src, dst);
      WithoutAt(t, dst, dst);
      BytesUpdate(Without(t, dst), dst, t[src]);
    }
  }

  /** What is still asked once the destination has been cleared. */
  ghost predicate CanFill(quota: int, used: int, t: Tree, src: Name, dst: Name, infinite: bool, recursion: nat)
    requires src in t
  {
    && IsDirAt(Without(t, dst), Parent(dst))
    && match t[src]
       case File(_, data) => quota <= 0 || data == [] || used + |data| <= quota
       case Dir(_) =>
         infinite ==>
           Room(quota, used, Without(t, dst), Copied(t, src, dst)) && !CopyMove.SomeChildDeep(t, src, recursion + 1)
  }

  /** The same apart from room. */
  ghost predicate Fillable(t: Tree, src: Name, dst: Name, infinite: bool, recursion: nat)
    requires src in t
  {
    && IsDirAt(Without(t, dst), Parent(dst))
    && !(infinite && t[src].Dir? && CopyMove.SomeChildDeep(t, src, recursion + 1))
  }

  lemma CopyAsks(quota: int, used: int, t: Tree, src: Name, dst: Name, overwrite: bool, infinite: bool, recursion: nat)
    requires IsTree(t) && src in t && recursion < RECURSION_LIMIT && dst != [] && (dst in t ==> overwrite)
    ensures CanCopy(quota, used, t, src, dst, overwrite, infinite, recursion) <==>
      CanFill(quota, used - Bytes(Subtree(t, dst)), t, src, dst, infinite, recursion)
    ensures Placed(t, src, dst, overwrite, infinite, recursion) ==> Fillable(t, src, dst, infinite, recursion)
  {
    hide Bytes, Subtree, Without, Copied, Room, CopyMove.TooDeep, CopyMove.SomeChildDeep, IsTree;
    PlaceCleared(t, src, dst);
    if t[src].Dir? {
      CopyMove.DeepChild(t, src, recursion);
      CopyMove.CopiedTreeUnfolds(t, src, dst);
      FitsIsRoom(quota, used, t, src, dst, true);
    } else {
      CopyMove.FileNotDeep(t, src, recursion);
      NothingBelowAFile(t, src);
    }
  }

  /**
   What a copy asks for, apart from room: a source, a place to put it, leave to replace what is
   there, and a depth that the recursion reaches.
   */
  ghost predicate Placed(t: Tree, src: Name, dst: Name, overwrite: bool, infinite: bool, recursion: nat) {
    && src in t && dst != [] && IsDirAt(t, Parent(dst)) && (dst in t ==> overwrite)
    && recursion < RECURSION_LIMIT && !(infinite && CopyMove.TooDeep(t, src, recursion))
  }

  ghost predicate CanCopy(quota: int, used: int, t: Tree, src: Name, dst: Name, overwrite: bool, infinite: bool,
                          recursion: nat) {
    Placed(t, src, dst, overwrite, infinite, recursion) && Fits(quota, used, t, src, dst, infinite)
  }

  /** The copy succeeded, or there was no room for it. */
  predicate OnlyRoom(failed: Option<Status>) {
    failed.None? || failed == Some(InsufficientStorage)
  }

  /**
   A copy keeps the ledger whatever it does and however far it gets.  When it is refused
   for lack of space, nothing is left at the destination, unless the operating system
   refused to remove it.  When it succeeds, the destination is the copy of the source and
   the rest is as it was; but over the source itself, or over a collection around it, only
   the entry is copied, and a copy with members to a place inside the source never succeeds.
   Between names that are apart, or without members, a copy that nothing disturbs succeeds
   exactly when it can; it answers 201 exactly when nothing was there.
   */
  method CopyFiles(fs: RestrictedFS, src: Name, dst: Name, overwrite: bool, infinite: bool, recursion: nat)
    returns (status: Status)
    requires fs.Valid() && recursion <= RECURSION_LIMIT
    modifies fs
    ensures Kept(fs) && SameOutside(old(fs.tree), fs.tree, dst)
    ensures status == InsufficientStorage && fs.refusals == old(fs.refusals) ==> NothingAt(fs.tree, dst)
    ensures Succeeded(status) ==>
      && src in old(fs.tree) && !(infinite && src < dst)
      && fs.tree == CopyMove.CopiedTree(old(fs.tree), src, dst, infinite && !(dst <= src))
      && (status == Created <==> dst !in old(fs.tree))
    ensures fs.Undisturbed() && (CopyMove.Disjoint(src, dst) || !infinite) ==>
      (Succeeded(status) <==>
        !fs.readOnly && CanCopy(fs.quota, old(fs.used), old(fs.tree), src, dst, overwrite, infinite, recursion))
      && (!fs.readOnly && Placed(old(fs.tree), src, dst, overwrite, infinite, recursion) ==>
            Succeeded(status) || status == InsufficientStorage)
    ensures recursion < RECURSION_LIMIT && src !in old(fs.tree) ==>
      status == (if CopyMove.FileAbove(old(fs.tree), src) then ServerError else NotFound) && fs.tree == old(fs.tree)
    ensures recursion < RECURSION_LIMIT && src in old(fs.tree) && fs.Undisturbed() ==>
      && (dst in old(fs.tree) && !overwrite ==> status == PreconditionFailed)
      && (CopyMove.FileAbove(old(fs.tree), dst) ==> status == Forbidden)
    decreases RECURSION_LIMIT - recursion, 0
  {
    hide SameOutside, Bytes, IsTree, Without, NothingAt, WalkError, CopyMove.CopiedTree, CopyMove.Disjoint, Fits,
      CanFill, Fillable, CopyMove.TooDeep, Subtree;
    OutsideSelf(fs.tree, dst);
    if recursion == RECURSION_LIMIT {
      return ServerError;
    }
    var err, entry := OpenSource(fs, src);
    if err.Some? {
      return if err == Some(Missing) then NotFound else ServerError;
    }
    var refused, created := ClearDestination(fs, dst, overwrite);
    OutsideCleared(old(fs.tree), fs.tree, dst);
    if refused.Some? {
      return refused.value;
    }

    hide CanCopy, Placed;
    ghost var before := fs.tree;
    if fs.Undisturbed() {
      BytesWithout(old(fs.tree), dst);
      CopyAsks(fs.quota, old(fs.used), old(fs.tree), src, dst, overwrite, infinite, recursion);
    }
    var failed := CopyEntry(fs, src, dst, entry, overwrite, infinite, recursion + 1, old(fs.tree));
    OutsideAgain(old(fs.tree), before, fs.tree, dst);
    return if failed.Some? then failed.value else if created then Created else NoContent;
  }

  /** Copies what was at the source to the cleared destination. */
  method CopyEntry(fs: RestrictedFS, src: Name, dst: Name, entry: Entry, overwrite: bool, infinite: bool,
                   recursion: nat, ghost t: Tree)
    returns (failed: Option<Status>)
    requires fs.Valid() && 0 < recursion <= RECURSION_LIMIT && NothingAt(fs.tree, dst)
    requires IsTree(t) && src in t && t[src] == entry && fs.tree == Without(t, dst)
    modifies fs
    ensures Kept(fs) && SameOutside(old(fs.tree), fs.tree, dst)
    ensures failed == Some(InsufficientStorage) && fs.refusals == old(fs.refusals) ==> NothingAt(fs.tree, dst)
    ensures failed.Some? ==> !Succeeded(failed.value)
    ensures failed.None? ==>
      !(infinite && src < dst) && fs.tree == CopyMove.CopiedTree(t, src, dst, infinite && !(dst <= src))
    ensures fs.Undisturbed() && (CopyMove.Disjoint(src, dst) || !infinite) ==>
      (failed.None? <==> !fs.readOnly && CanFill(fs.quota, old(fs.used), t, src, dst, infinite, recursion - 1))
      && (!fs.readOnly && Fillable(t, src, dst, infinite, recursion - 1) ==> OnlyRoom(failed))
    decreases RECURSION_LIMIT - recursion, 3
  {
    hide SameOutside, Bytes, IsTree, Without, NothingAt, WalkError, CopyMove.CopiedTree, CopyMove.Disjoint, Room,
      CopyMove.SomeChildDeep, Copied;
    match entry {
      case Dir(perm) => failed := CopyDir(fs, src, dst, perm, overwrite, infinite, recursion, t);
      case File(perm, data) => failed := CopyFile(fs, dst, perm, data);
    }
    OneCopied(t, src, dst, infinite && !(dst <= src), fs.tree);
  }

  /** An open file can be read even after it has been removed. */
  method OpenSource(fs: RestrictedFS, src: Name) returns (err: Option<Error>, entry: Entry)
    requires fs.Valid()
    modifies fs`refusals
    ensures fs.Valid() && fs.refusals >= old(fs.refusals)
    ensures err.None? ==> src in fs.tree && entry == fs.tree[src]
    ensures err.Some? ==> src !in fs.tree || (err == Some(Refused) && fs.refusals > old(fs.refusals))
    ensures err == Some(Missing) <==> src !in fs.tree && !CopyMove.FileAbove(fs.tree, src)
  {
    CopyMove.AboveIsWalk(fs.tree, src);
    hide CopyMove.FileAbove, WalkError;
    err := fs.PathError(src, false);
    if err.Some? {
      return err, Dir(0);
    }
    var ok := fs.Allowed();
    return if ok then None else Some(Refused), fs.tree[src];
  }

  method ClearDestination(fs: RestrictedFS, dst: Name, overwrite: bool) returns (refused: Option<Status>, created: bool)
    requires fs.Valid()
    modifies fs
    ensures Kept(fs)
    ensures refused.Some? ==> !Succeeded(refused.value) && refused != Some(InsufficientStorage)
    ensures refused.Some? ==> fs.tree == old(fs.tree) || fs.tree == Without(old(fs.tree), dst)
    ensures refused.None? ==> fs.tree == Without(old(fs.tree), dst)
    ensures refused.None? ==> (created <==> dst !in old(fs.tree))
    ensures refused == Some(PreconditionFailed) <==> dst in old(fs.tree) && !overwrite
    ensures CopyMove.FileAbove(old(fs.tree), dst) ==> refused == Some(Forbidden)
    ensures refused.None? ==> dst != [] && (dst in old(fs.tree) ==> overwrite && !fs.readOnly)
    ensures fs.Undisturbed() && refused.Some? ==>
      if dst in old(fs.tree) then !overwrite || dst == [] || fs.readOnly else !IsDirAt(old(fs.tree), Parent(dst))
  {
    hide Bytes, IsTree, WalkError, Without;
    WalkMeaning(fs.tree, dst);
    CopyMove.AboveIsWalk(fs.tree, dst);
    if dst in fs.tree {
      NothingBelowFile(fs.tree, dst);
    }
    hide CopyMove.FileAbove;
    var err := fs.PathError(dst, false);
    if err.Some? {
      if err != Some(Missing) {
        return Some(Forbidden), false;
      }
      AbsentIsWithout(fs.tree, dst);
      return None, true;
    }
    if !overwrite {
      return Some(PreconditionFailed), false;
    }
    err := fs.RemoveAll(dst);
    return if err.Some? then Some(Forbidden) else None, false;
  }

  lemma NothingBelowFile(t: Tree, p: Name)
    requires IsTree(t) && p in t
    ensures !CopyMove.FileAbove(t, p)
  {
    if q :| q < p && q in t && t[q].File? {
      AncestorsAreDirs(t, q, p);
    }
  }

  method CopyFile(fs: RestrictedFS, dst: Name, perm: nat, data: seq<bv8>) returns (failed: Option<Status>)
    requires fs.Valid() && NothingAt(fs.tree, dst)
    modifies fs
    ensures Kept(fs) && SameOutside(old(fs.tree), fs.tree, dst)
    ensures failed == Some(InsufficientStorage) ==> NothingAt(fs.tree, dst)
    ensures failed.None? ==> fs.tree == old(fs.tree)[dst := File(perm, data)]
    ensures failed.Some? ==> !Succeeded(failed.value)
    ensures fs.Undisturbed() ==>
      (failed.None? <==>
        && !fs.readOnly && IsDirAt(old(fs.tree), Parent(dst))
        && (fs.quota <= 0 || data == [] || old(fs.used) + |data| <= fs.quota))
      && (!fs.readOnly && IsDirAt(old(fs.tree), Parent(dst)) ==> OnlyRoom(failed))
  {
    hide Bytes, IsTree, WalkError, Concat;
    var err, f := OpenQuotaFile(fs, dst, perm);
    if err.Some? {
      return if err == Some(Missing) then Some(Conflict) else Some(Forbidden);
    }
    var chunks := Chunks(data);
    var copyErr := CopyAll(f, chunks);
    var closeErr := f.Close();
    OutsideOne(old(fs.tree), dst, File(perm, f.data));
    if copyErr.Some? {
      return if copyErr == Some(QuotaExceeded) then Some(InsufficientStorage) else Some(ServerError);
    }
    return if closeErr.Some? then Some(ServerError) else None;
  }

  /** What is read from a file, a buffer at a time. */
  method Chunks(data: seq<bv8>) returns (chunks: seq<seq<bv8>>)
    ensures Concat(chunks) == data && (chunks == [] <==> data == [])
  {
    chunks := [];
    var i := 0;
    while i < |data|
      invariant 0 <= i <= |data| && Concat(chunks) == data[..i] && (chunks == [] <==> i == 0)
    {
      var n := if |data| - i < 32768 then |data| - i else 32768;
      assert (chunks + [data[i..i + n]])[..|chunks|] == chunks;
      chunks := chunks + [data[i..i + n]];
      i := i + n;
    }
    assert data[..i] == data;
  }

  method CopyDir(fs: RestrictedFS, src: Name, dst: Name, perm: nat, overwrite: bool, infinite: bool, recursion: nat,
                 ghost t: Tree)
    returns (failed: Option<Status>)
    requires fs.Valid() && recursion <= RECURSION_LIMIT && NothingAt(fs.tree, dst)
    requires IsTree(t) && src in t && t[src] == Dir(perm) && fs.tree == Without(t, dst)
    modifies fs
    ensures Kept(fs) && SameOutside(old(fs.tree), fs.tree, dst)
    ensures failed == Some(InsufficientStorage) && fs.refusals == old(fs.refusals) ==> NothingAt(fs.tree, dst)
    ensures failed.Some? ==> !Succeeded(failed.value)
    ensures failed.None? ==>
      !(infinite && src < dst) && fs.tree == CopyMove.CopiedTree(t, src, dst, infinite && !(dst <= src))
    ensures fs.Undisturbed() && (CopyMove.Disjoint(src, dst) || !infinite) ==>
      (failed.None? <==>
        && !fs.readOnly && IsDirAt(old(fs.tree), Parent(dst))
        && (infinite ==>
              && Room(fs.quota, old(fs.used), old(fs.tree), Copied(t, src, dst))
              && !CopyMove.SomeChildDeep(t, src, recursion)))
      && (!fs.readOnly && IsDirAt(old(fs.tree), Parent(dst)) && !(infinite && CopyMove.SomeChildDeep(t, src, recursion))
          ==> OnlyRoom(failed))
    decreases RECURSION_LIMIT - recursion, 2
  {
    hide SameOutside, Bytes, IsTree, Without, NothingAt, WalkError, CopyMove.Disjoint, CopyMove.Partial, Copied;
    CopyMove.PartialNone(t, src, dst);
    CopyMove.CopiedTreeUnfolds(t, src, dst);
    OutsideSelf(fs.tree, dst);
    NotTheRoot(fs.tree, dst);
    BytesUpdate(fs.tree, dst, Dir(perm));
    var err := fs.Mkdir(dst, perm);
    if err.Some? {
      return Some(Forbidden);
    }
    OutsideOne(old(fs.tree), dst, Dir(perm));
    if !infinite {
      return None;
    }

    ghost var before := fs.tree;
    Apart(src, dst);
    if dst <= src {
      var ok := ReadRemoved();
      return if ok then None else Some(Forbidden);
    }
    var names := ReadDir(fs.tree, src);
    SameChildren(t, src, dst, fs.tree);
    failed := CopyChildren(fs, src, dst, names, overwrite, recursion, t);
    OutsideAgain(old(fs.tree), before, fs.tree, dst);
  }

  lemma NotTheRoot(t: Tree, p: Name)
    requires IsTree(t) && NothingAt(t, p)
    ensures p != [] && p !in t
  {
    assert p <= p;
  }

  /** A directory that has been removed while it was open has no members, if it can be read at all. */
  method ReadRemoved() returns (ok: bool) {
    ok := *;
  }

  /** The children of a directory that is still there, in some order. */
  method ReadDir(t: Tree, p: Name) returns (names: seq<string>)
    ensures forall c :: c in names <==> p + [c] in t
    ensures forall i, j :: 0 <= i < j < |names| ==> names[i] != names[j]
  {
    var left := Children(t, p);
    names := [];
    forall c
      ensures c in left <==> p + [c] in t
    {
      ChildrenAre(t, p, c);
    }
    while left != {}
      invariant forall c :: c in left ==> p + [c] in t
      invariant forall c :: c in names <==> p + [c] in t && c !in left
      invariant forall i, j :: 0 <= i < j < |names| ==> names[i] != names[j]
      decreases left
    {
      var c :| c in left;
      left := left - {c};
      names := names + [c];
    }
  }

  method CopyChildren(fs: RestrictedFS, src: Name, dst: Name, names: seq<string>, overwrite: bool, recursion: nat,
                      ghost t: Tree)
    returns (failed: Option<Status>)
    requires fs.Valid() && recursion <= RECURSION_LIMIT && dst in fs.tree && dst != [] && !fs.readOnly
    requires IsTree(t) && src in t && fs.tree == CopyMove.Partial(t, src, dst, {})
    requires !(dst <= src) && (src < dst ==> dst[|src|] in names)
    requires CopyMove.Disjoint(src, dst) ==> forall c :: c in names <==> src + [c] in t
    requires t[src].Dir? && forall i, j :: 0 <= i < j < |names| ==> names[i] != names[j]
    modifies fs
    ensures Kept(fs) && SameOutside(old(fs.tree), fs.tree, dst)
    ensures failed == Some(InsufficientStorage) && fs.refusals == old(fs.refusals) ==> NothingAt(fs.tree, dst)
    ensures failed.Some? ==> !Succeeded(failed.value)
    ensures failed.None? ==> CopyMove.Disjoint(src, dst) && fs.tree == Copied(t, src, dst)
    ensures fs.Undisturbed() && CopyMove.Disjoint(src, dst) ==>
      (failed.None? <==>
        && Room(fs.quota, old(fs.used), old(fs.tree), Copied(t, src, dst))
        && !CopyMove.SomeChildDeep(t, src, recursion))
      && (!CopyMove.SomeChildDeep(t, src, recursion) ==> OnlyRoom(failed))
    decreases RECURSION_LIMIT - recursion, 1
  {
    hide SameOutside, Bytes, IsTree, Without, NothingAt, CopyMove.Disjoint, CopyMove.Partial, Copied,
      CopyMove.CopiedTree, CanCopy, Placed, Fits, CopyMove.TooDeep, CopyMove.SomeChildDeep;
    OutsideSelf(fs.tree, dst);
    ghost var done: set<string> := {};
    ghost var base, used := fs.tree, fs.used;
    var i := 0;
    while i < |names|
      invariant 0 <= i <= |names| && Kept(fs) && SameOutside(old(fs.tree), fs.tree, dst) && dst in fs.tree
      invariant fs.Undisturbed() && CopyMove.Disjoint(src, dst) ==>
        && Grown(fs.quota, fs.used, base, fs.tree)
        && forall j :: 0 <= j < i ==> !CopyMove.TooDeep(t, src + [names[j]], recursion)
      invariant done == set c | c in names[..i]
      invariant CopyMove.Disjoint(src, dst) ==> fs.tree == CopyMove.Partial(t, src, dst, done)
      invariant src < dst ==> dst[|src|] !in names[..i]
    {
      ghost var before := fs.tree;
      OneMoreChild(t, src, dst, done, names[i]);
      if fs.Undisturbed() && CopyMove.Disjoint(src, dst) {
        ChildOutcome(t, src, dst, done, names[i], overwrite, recursion, fs.quota, fs.used, used, fs.tree);
      }
      var status := CopyFiles(fs, src + [names[i]], dst + [names[i]], overwrite, true, recursion);
      OutsideChild(before, fs.tree, dst, names[i]);
      OutsideAgain(old(fs.tree), before, fs.tree, dst);
      if !Succeeded(status) {
        if status == InsufficientStorage {
          before := fs.tree;
          var ignored := fs.RemoveAll(dst);
          OutsideCleared(before, fs.tree, dst);
          OutsideAgain(old(fs.tree), before, fs.tree, dst);
        }
        return Some(status);
      }
      done := done + {names[i]};
      i := i + 1;
      assert names[..i] == names[..i - 1] + [names[i - 1]];
    }
    assert names[..i] == names;
    Apart(src, dst);
    AllCopied(t, src, dst, names, done);
    if fs.Undisturbed() && CopyMove.Disjoint(src, dst) {
      NoneTooDeep(t, src, names, recursion);
    }
    return None;
  }

  /** What has been copied so far had room. */
  ghost predicate Grown(quota: int, used: int, base: Tree, t: Tree) {
    quota <= 0 || Bytes(t) == Bytes(base) || used <= quota
  }

  lemma NoneTooDeep(t: Tree, p: Name, names: seq<string>, recursion: nat)
    requires forall c :: c in names <==> p + [c] in t
    requires forall j :: 0 <= j < |names| ==> !CopyMove.TooDeep(t, p + [names[j]], recursion)
    ensures !CopyMove.SomeChildDeep(t, p, recursion)
  {
    hide CopyMove.TooDeep, Children;
    forall c | c in Children(t, p)
      ensures !CopyMove.TooDeep(t, p + [c], recursion)
    {
      ChildrenAre(t, p, c);
      assert c in names;
    }
  }

  lemma PartsOfCopy(t: Tree, p: Name, q: Name, done: set<string>, c: string)
    ensures var (b, b', n) := (Bytes(CopyMove.Partial(t, p, q, done)), Bytes(CopyMove.Partial(t, p, q, done + {c})),
            Bytes(CopyMove.Partial(t, p, q, {})));
            n <= b <= b' <= Bytes(Copied(t, p, q))
  {
    hide Copied, Bytes;
    BytesOfPart(CopyMove.Partial(t, p, q, {}), CopyMove.Partial(t, p, q, done));
    BytesOfPart(CopyMove.Partial(t, p, q, done), CopyMove.Partial(t, p, q, done + {c}));
    BytesOfPart(CopyMove.Partial(t, p, q, done + {c}), Copied(t, p, q));
  }

  /** In the middle of a copy a child has its place. */
  lemma ChildHasPlace(t: Tree, p: Name, q: Name, done: set<string>, c: string)
    requires CopyMove.Disjoint(p, q) && p in t && t[p].Dir? && p + [c] in t && c !in done
    ensures var s := CopyMove.Partial(t, p, q, done);
            && p + [c] in s && q + [c] !in s && q + [c] != [] && IsDirAt(s, Parent(q + [c]))
    ensures Subtree(CopyMove.Partial(t, p, q, done), p + [c]) == Subtree(t, p + [c])
  {
    hide CopyMove.Partial;
    var s := CopyMove.Partial(t, p, q, done);
    CopyMove.PartialAt(t, p, q, done, q);
    assert p + q[|q|..] == p && Parent(q + [c]) == q;
    CopyMove.PartialAt(t, p, q, done, q + [c]);
    assert (q + [c])[|q|] == c;
    Apart(p, q);
    CopyMove.ChildApart(p, q, c);
    forall x | p + [c] <= x
      ensures x in s <==> x in t
      ensures x in s ==> s[x] == t[x]
    {
      CopyMove.PartialAt(t, p, q, done, x);
      if q <= x {
        PrefixesCompare(p + [c], q, x);
      }
    }
    assert Subtree(s, p + [c]) == Subtree(t, p + [c]);
  }

  lemma SameDepth(s: Tree, t: Tree, p: Name, recursion: nat)
    requires Subtree(s, p) == Subtree(t, p)
    ensures CopyMove.TooDeep(s, p, recursion) <==> CopyMove.TooDeep(t, p, recursion)
  {
    forall x | p <= x
      ensures x in s <==> x in t
    {
      assert x in Subtree(s, p) <==> x in Subtree(t, p);
    }
  }

  lemma ChildCan(t: Tree, p: Name, q: Name, done: set<string>, c: string, overwrite: bool, recursion: nat, quota: int,
                 used: int)
    requires CopyMove.Disjoint(p, q) && p in t && t[p].Dir? && p + [c] in t && c !in done
    requires IsTree(CopyMove.Partial(t, p, q, done))
    requires recursion <= RECURSION_LIMIT
    ensures var s := CopyMove.Partial(t, p, q, done);
            CanCopy(quota, used, s, p + [c], q + [c], overwrite, true, recursion) <==>
              && Room(quota, used, s, CopyMove.Partial(t, p, q, done + {c}))
              && !CopyMove.TooDeep(t, p + [c], recursion)
    ensures !CopyMove.TooDeep(t, p + [c], recursion) ==>
      Placed(CopyMove.Partial(t, p, q, done), p + [c], q + [c], overwrite, true, recursion)
  {
    hide CopyMove.Partial, CopyMove.Disjoint, CopyMove.TooDeep, CopyMove.CopiedTree, Copied, Bytes, Subtree, IsTree,
      Without, Room, Fits;
    var s := CopyMove.Partial(t, p, q, done);
    ChildHasPlace(t, p, q, done, c);
    OneMoreChild(t, p, q, done, c);
    SameDepth(s, t, p + [c], recursion);
    CopyMove.AtTheLimit(t, p + [c], recursion);
    AbsentIsWithout(s, q + [c]);
    NothingToReplace(s, q + [c]);
    FitsIsRoom(quota, used, s, p + [c], q + [c], true);
  }

  lemma NothingToReplace(t: Tree, p: Name)
    requires IsTree(t) && p !in t
    ensures Bytes(Subtree(t, p)) == 0
  {
    NoneBelow(t, p);
    NoBytes();
    assert Subtree(t, p) == map[];
  }

  /** A child that can be copied keeps what has been copied within the quota; if one cannot, the whole could not. */
  lemma ChildOutcome(t: Tree, p: Name, q: Name, done: set<string>, c: string, overwrite: bool, recursion: nat,
                     quota: int, used: int, usedBefore: int, s: Tree)
    requires CopyMove.Disjoint(p, q) && p in t && t[p].Dir? && p + [c] in t && c !in done
    requires s == CopyMove.Partial(t, p, q, done) && IsTree(s) && recursion <= RECURSION_LIMIT
    requires used - Bytes(s) == usedBefore - Bytes(CopyMove.Partial(t, p, q, {}))
    requires Grown(quota, used, CopyMove.Partial(t, p, q, {}), s)
    ensures var (base, s', can) := (CopyMove.Partial(t, p, q, {}), CopyMove.Partial(t, p, q, done + {c}),
            CanCopy(quota, used, s, p + [c], q + [c], overwrite, true, recursion));
            && (can ==> Grown(quota, used + Bytes(s') - Bytes(s), base, s'))
            && (can ==> !CopyMove.TooDeep(t, p + [c], recursion))
            && (!can ==> !Room(quota, usedBefore, base, Copied(t, p, q)) || CopyMove.SomeChildDeep(t, p, recursion))
            && (Placed(s, p + [c], q + [c], overwrite, true, recursion) || CopyMove.SomeChildDeep(t, p, recursion))
  {
    hide CopyMove.Partial, CopyMove.TooDeep, CopyMove.SomeChildDeep, CopyMove.Disjoint, CanCopy, Copied, Bytes, IsTree;
    ChildCan(t, p, q, done, c, overwrite, recursion, quota, used);
    PartsOfCopy(t, p, q, done, c);
    if CopyMove.TooDeep(t, p + [c], recursion) {
      CopyMove.ADeepChild(t, p, c, recursion);
    }
  }

  lemma Apart(p: Name, q: Name)
    ensures CopyMove.Disjoint(p, q) <==> !(p < q) && !(q <= p)
  {}

  /** A file, and a collection without its members, is copied by its entry alone; and nothing is inside a file. */
  lemma OneCopied(t: Tree, p: Name, q: Name, infinite: bool, t': Tree)
    requires IsTree(t) && p in t
    ensures t[p].File? ==> Without(t, q)[q := t[p]] == CopyMove.CopiedTree(t, p, q, infinite)
    ensures t[p].File? && IsTree(t') && t' == Without(t, q)[q := t[p]] ==> !(p < q)
  {
    hide CopyMove.Partial, Copied, Without, IsTree;
    CopyMove.PartialNone(t, p, q);
    CopyMove.CopiedTreeUnfolds(t, p, q);
    if t[p].File? {
      CopyMove.FileIsAlone(t, p, q, {});
    }
    if p < q && t[p].File? && IsTree(t') && t' == Without(t, q)[q := t[p]] {
      WithoutAt(t, q, p);
      AncestorsAreDirs(t', p, q);
    }
  }

  /** Making the destination leaves the source's children as they were, or adds the way to it. */
  lemma SameChildren(t: Tree, p: Name, q: Name, t': Tree)
    requires IsTree(t') && t' == CopyMove.Partial(t, p, q, {}) && q in t'
    ensures CopyMove.Disjoint(p, q) ==> forall c :: p + [c] in t' <==> p + [c] in t
    ensures p < q ==> p + [q[|p|]] in t'
  {
    hide CopyMove.Partial, IsTree;
    if CopyMove.Disjoint(p, q) {
      forall c
        ensures p + [c] in CopyMove.Partial(t, p, q, {}) <==> p + [c] in t
      {
        CopyMove.PartialAt(t, p, q, {}, p + [c]);
        CopyMove.ChildApart(p, q, c);
        CopyMove.ChildNotBelow(p, q, c, []);
        assert p + [c] + [] == p + [c];
      }
    }
    if p < q {
      CopyMove.FirstChild(t', p, q);
    }
  }

  lemma OneMoreChild(t: Tree, p: Name, q: Name, done: set<string>, c: string)
    ensures CopyMove.Disjoint(p, q) ==>
      && CopyMove.Disjoint(p + [c], q + [c])
      && CopyMove.CopiedTree(CopyMove.Partial(t, p, q, done), p + [c], q + [c], true) ==
        CopyMove.Partial(t, p, q, done + {c})
    ensures !(q <= p) ==> !(q + [c] <= p + [c])
    ensures p < q && c == q[|p|] ==> p + [c] < q + [c]
  {
    hide CopyMove.Disjoint, CopyMove.Partial, Copied;
    SnocPrefix(q, p + [c], c);
    if CopyMove.Disjoint(p, q) {
      Apart(p, q);
      CopyMove.ChildApart(p, q, c);
      CopyMove.ChildrenDisjoint(p, q, c);
      CopyMove.ChildCopied(t, p, q, done, c);
    }
  }

  lemma AllCopied(t: Tree, p: Name, q: Name, names: seq<string>, done: set<string>)
    requires IsTree(t) && p in t && done == set c | c in names
    ensures (forall c :: c in names <==> p + [c] in t) ==> CopyMove.Partial(t, p, q, done) == Copied(t, p, q)
  {
    hide CopyMove.Partial, Copied, IsTree;
    if forall c :: c in names <==> p + [c] in t {
      forall c | c in Children(t, p)
        ensures c in done
      {
        ChildrenAre(t, p, c);
      }
      CopyMove.FileIsAlone(t, p, q, done);
    }
  }

  lemma OutsideCleared(t: Tree, t': Tree, q: Name)
    requires t' == t || t' == Without(t, q)
    ensures SameOutside(t, t', q)
    ensures t' == Without(t, q) ==> NothingAt(t', q)
  {}

  lemma OutsideOne(t: Tree, q: Name, e: Entry)
    ensures SameOutside(t, t[q := e], q) && SameOutside(t, t, q)
  {}

  lemma AbsentIsWithout(t: Tree, p: Name)
    requires IsTree(t) && p !in t
    ensures Without(t, p) == t && p != []
  {
    NoneBelow(t, p);
  }

  lemma RenameAccounts(t: Tree, o: Name, n: Name)
    requires IsTree(t) && o in t && o != n && !(o < n) && n != [] && IsDirAt(t, Parent(n)) && (n in t ==> t[n].File?)
    ensures IsTree(Moved(t, o, n)) && Bytes(Moved(t, o, n)) == Bytes(t) - SizeAt(t, n)
  {
    hide Moved, Bytes;
    if n < o {
      AncestorsAreDirs(t, n, o);
    }
    assert o != [];
    MovedKeepsTree(t, o, n);
    BytesMoved(t, o, n);
    if n in t {
      NothingBelowAFile(t, n);
    } else {
      NoneBelow(t, n);
      NoBytes();
      assert Subtree(t, n) == map[];
    }
  }

  lemma NoBytes()
    ensures Bytes(map[]) == 0
  {}

  // ---------- runs ----------

  datatype Request =
    | PutRequest(p: Name, chunks: seq<seq<bv8>>, breaksOff: bool)
    | DeleteRequest(p: Name)
    | MkcolRequest(p: Name)
    | CopyRequest(src: Name, dst: Name, overwrite: bool, infinite: bool)
    | MoveRequest(src: Name, dst: Name, overwrite: bool)
    | LockRequest(p: Name)

  method ServeOne(fs: RestrictedFS, r: Request)
    requires fs.Valid()
    modifies fs
    ensures Kept(fs)
  {
    hide Bytes, IsTree, WalkError;
    match r {
      case PutRequest(p, chunks, breaksOff) => var status := Put(fs, p, chunks, breaksOff);
      case DeleteRequest(p) => var status := Delete(fs, p);
      case MkcolRequest(p) => var err := fs.Mkdir(p, 511);
      case CopyRequest(src, dst, overwrite, infinite) => var status := CopyFiles(fs, src, dst, overwrite, infinite, 0);
      case MoveRequest(src, dst, overwrite) => var status := MoveFiles(fs, src, dst, overwrite);
      case LockRequest(p) => var ok, created := CreateForLock(fs, p);
    }
  }

  /**
   Over any run of serial requests, refused or not, the ledger stays as far from the bytes
   in the tree as it was, up to the commits that failed; and usage never grows beyond the
   larger of what it was and the quota.
   */
  method Serve(fs: RestrictedFS, requests: seq<Request>)
    requires fs.Valid()
    modifies fs
    ensures Kept(fs)
    ensures old(fs.recorded == Bytes(fs.tree)) && fs.lost == old(fs.lost) ==> fs.recorded == Bytes(fs.tree)
  {
    hide Bytes, IsTree;
    for i := 0 to |requests|
      invariant Kept(fs)
    {
      ServeOne(fs, requests[i]);
    }
  }
}
