/**
 How many bytes a tree holds, and how the operations on it change that number.
 */
module TreeSize {
  import opened FileTree
  import opened Paths

  function Size(e: Entry): nat {
    match e
    case Dir(_) => 0
    case File(_, data) => |data|
  }

  function SizeAt(t: Tree, p: Name): nat {
    if p in t then Size(t[p]) else 0
  }

  ghost function Bytes(t: Tree): nat
    decreases |t|
  {
    if t == map[] then 0
    else
      var p :| p in t;
      Size(t[p]) + Bytes(t - {p})
  }

  lemma {:induction false} BytesRemove(t: Tree, p: Name)
    requires p in t
    ensures Bytes(t) == Size(t[p]) + Bytes(t - {p})
    decreases |t|
  {
    var q :| q in t && Bytes(t) == Size(t[q]) + Bytes(t - {q});
    if q != p {
      BytesRemove(t - {q}, p);
      BytesRemove(t - {p}, q);
      assert t - {q} - {p} == t - {p} - {q};
    }
  }

  /** Writing an entry changes the total by its size less the size of what was there. */
  lemma BytesUpdate(t: Tree, p: Name, e: Entry)
    ensures Bytes(t[p := e]) == Bytes(t) + Size(e) - SizeAt(t, p)
  {
    BytesRemove(t[p := e], p);
    if p in t {
      BytesRemove(t, p);
      assert t[p := e] - {p} == t - {p};
    } else {
      assert t[p := e] - {p} == t;
    }
  }

  function Subtree(t: Tree, p: Name): Tree {
    map q | q in t && p <= q :: t[q]
  }

  lemma {:induction false} BytesSplit(t: Tree, keys: set<Name>)
    ensures Bytes(t) == Bytes(t - keys) + Bytes(map q | q in t && q in keys :: t[q])
    decreases |t|
  {
    var inside := map q | q in t && q in keys :: t[q];
    if p :| p in t {
      BytesRemove(t, p);
      BytesSplit(t - {p}, keys);
      var inside' := map q | q in t - {p} && q in keys :: (t - {p})[q];
      if p in keys {
        BytesRemove(inside, p);
        assert inside - {p} == inside' && t - keys == t - {p} - keys;
      } else {
        BytesRemove(t - keys, p);
        assert inside == inside' && t - keys - {p} == t - {p} - keys;
      }
    } else {
      assert t == map[] && t - keys == map[] && inside == map[];
    }
  }

  /** Removing a subtree takes away exactly its bytes. */
  lemma BytesWithout(t: Tree, p: Name)
    ensures Bytes(t) == Bytes(Without(t, p)) + Bytes(Subtree(t, p))
  {
    var keys := set q | q in t && p <= q;
    BytesSplit(t, keys);
    assert t - keys == Without(t, p);
    assert (map q | q in t && q in keys :: t[q]) == Subtree(t, p);
  }

  /** The subtree at `from`, with its names as they read below `to`. */
  function Renamed(t: Tree, from: Name, to: Name): Tree {
    GraftedAre(t, from, to);
    map q | q in Grafted(t, from, to) :: t[from + q[|to|..]]
  }

  lemma {:induction false} BytesRenamed(t: Tree, from: Name, to: Name)
    ensures Bytes(Renamed(t, from, to)) == Bytes(Subtree(t, from))
    decreases |t|
  {
    hide Renamed, Grafted;
    var s := Subtree(t, from);
    if p :| p in s {
      RenamedOne(t, from, to, p);
      BytesRemove(s, p);
      BytesRemove(Renamed(t, from, to), to + p[|from|..]);
      BytesRenamed(t - {p}, from, to);
      assert Subtree(t - {p}, from) == s - {p};
    } else {
      RenamedNone(t, from, to);
      assert s == map[];
    }
  }

  lemma RenamedAt(t: Tree, from: Name, to: Name, x: Name)
    ensures x in Renamed(t, from, to) <==> to <= x && from + x[|to|..] in t
    ensures x in Renamed(t, from, to) ==> Renamed(t, from, to)[x] == t[from + x[|to|..]]
  {
    GraftedAre(t, from, to);
  }

  lemma RenamedNone(t: Tree, from: Name, to: Name)
    requires Subtree(t, from) == map[]
    ensures Renamed(t, from, to) == map[]
  {
    hide Renamed;
    forall x
      ensures x !in Renamed(t, from, to)
    {
      RenamedAt(t, from, to, x);
      var y := if to <= x then from + x[|to|..] else from;
      assert y in Subtree(t, from) <==> y in t;
    }
  }

  lemma RenamedOne(t: Tree, from: Name, to: Name, p: Name)
    requires p in t && from <= p
    ensures var q := to + p[|from|..];
            && q in Renamed(t, from, to) && Renamed(t, from, to)[q] == t[p]
            && Renamed(t - {p}, from, to) == Renamed(t, from, to) - {q}
  {
    hide Renamed;
    var q := to + p[|from|..];
    assert q[|to|..] == p[|from|..] && from + q[|to|..] == p;
    RenamedAt(t, from, to, q);
    var a, b := Renamed(t - {p}, from, to), Renamed(t, from, to) - {q};
    forall x
      ensures x in a <==> x in b
      ensures x in a ==> a[x] == b[x]
    {
      RenamedAt(t, from, to, x);
      RenamedAt(t - {p}, from, to, x);
      if to <= x && from + x[|to|..] == p {
        assert (from + x[|to|..])[|from|..] == x[|to|..];
        assert x == to + x[|to|..];
      }
    }
    assert a == b;
  }

  /** A move to a place that neither contains the source nor is contained in it keeps all bytes but those replaced. */
  lemma BytesMoved(t: Tree, from: Name, to: Name)
    requires !(from <= to) && !(to <= from)
    ensures Bytes(Moved(t, from, to)) == Bytes(t) - Bytes(Subtree(t, to))
  {
    hide Moved, Renamed, Without, Subtree;
    var m := Moved(t, from, to);
    BytesWithout(m, to);
    BytesWithout(t, to);
    BytesWithout(Without(t, to), from);
    BytesRenamed(t, from, to);
    MovedParts(t, from, to);
  }

  lemma MovedParts(t: Tree, from: Name, to: Name)
    requires !(from <= to) && !(to <= from)
    ensures Without(Moved(t, from, to), to) == Without(Without(t, to), from)
    ensures Subtree(Moved(t, from, to), to) == Renamed(t, from, to)
    ensures Subtree(Without(t, to), from) == Subtree(t, from)
  {
    hide Moved, Grafted;
    var m := Moved(t, from, to);
    GraftedAre(t, from, to);
    forall x
      ensures x in m <==> if to <= x then from + x[|to|..] in t else x in t && !(from <= x)
      ensures x in m ==> m[x] == t[if to <= x then from + x[|to|..] else x]
    {
      MovedAt(t, from, to, x);
    }
    assert Without(m, to) == Without(Without(t, to), from);
    assert Subtree(m, to) == Renamed(t, from, to);
    forall x | x in t && from <= x
      ensures !(to <= x)
    {
      PrefixesCompare(from, to, x);
    }
    assert Subtree(Without(t, to), from) == Subtree(t, from);
  }

  /** A copy puts the bytes of the source in place of those at the destination. */
  lemma BytesCopied(t: Tree, from: Name, to: Name)
    ensures Bytes(Copied(t, from, to)) == Bytes(Without(t, to)) + Bytes(Subtree(t, from))
  {
    hide Copied, Renamed, Without, Subtree, Grafted;
    var c := Copied(t, from, to);
    BytesWithout(c, to);
    BytesRenamed(t, from, to);
    forall x
      ensures x in Without(c, to) <==> x in Without(t, to)
      ensures x in Without(t, to) ==> Without(c, to)[x] == Without(t, to)[x]
      ensures x in Subtree(c, to) <==> x in Renamed(t, from, to)
      ensures x in Renamed(t, from, to) ==> Subtree(c, to)[x] == Renamed(t, from, to)[x]
    {
      CopiedAt(t, from, to, x);
      RenamedAt(t, from, to, x);
      WithoutAt(c, to, x);
      WithoutAt(t, to, x);
      SubtreeAt(c, to, x);
    }
    assert Without(c, to) == Without(t, to);
    assert Subtree(c, to) == Renamed(t, from, to);
  }

  lemma SubtreeAt(t: Tree, p: Name, x: Name)
    ensures x in Subtree(t, p) <==> x in t && p <= x
    ensures x in Subtree(t, p) ==> Subtree(t, p)[x] == t[x]
  {}

  /** A part of a tree has no more bytes than the tree. */
  lemma BytesOfPart(part: Tree, t: Tree)
    requires part.Keys <= t.Keys && forall p :: p in part ==> part[p] == t[p]
    ensures Bytes(part) <= Bytes(t)
  {
    BytesSplit(t, part.Keys);
    assert (map q | q in t && q in part.Keys :: t[q]) == part;
  }

  lemma NothingBelowAFile(t: Tree, p: Name)
    requires IsTree(t) && p in t && t[p].File?
    ensures Bytes(Subtree(t, p)) == Size(t[p])
  {
    forall q | q in t && p <= q
      ensures q == p
    {
      if q != p {
        AncestorsAreDirs(t, p, q);
      }
    }
    assert Subtree(t, p) == map[p := t[p]];
    BytesRemove(Subtree(t, p), p);
    assert Subtree(t, p) - {p} == map[];
  }
}
