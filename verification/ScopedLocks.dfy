/**
 The lock system shared by all users: each user's resource names are joined to the
 user's root before they reach it.
 */
module ScopedLocks {
  import opened Paths
  import opened LockSpec

  predicate Disjoint(a: Name, b: Name) {
    !(a <= b) && !(b <= a)
  }

  /** The lock is below some other root. */
  ghost predicate Elsewhere(base: Name, l: Lock) {
    exists b :: Disjoint(base, b) && b <= l.details.root
  }

  lemma ElsewhereIsDisjoint(base: Name, l: Lock)
    ensures Elsewhere(base, l) <==> Disjoint(base, l.details.root)
  {
    var n := l.details.root;
    if b :| Disjoint(base, b) && b <= n {
      PrefixesCompare(base, b, n);
      assert n <= base ==> b <= base;
    }
    if Disjoint(base, n) {
      assert n <= n;
    }
  }

  /**
   No lock of another user stands in the way of a request exactly when the name it asks for
   is below the user's own root, or is on the way to it and asked for with depth zero.
   */
  lemma NoneBlocks(base: Name, x: Name, zeroDepth: bool)
    requires base != []
    ensures (forall l :: Elsewhere(base, l) ==> !Conflicts(l, x, zeroDepth)) <==> base <= x || (zeroDepth && x <= base)
  {
    if base <= x || (zeroDepth && x <= base) {
      forall l | Elsewhere(base, l)
        ensures !Conflicts(l, x, zeroDepth)
      {
        ElsewhereIsDisjoint(base, l);
        PrefixesCompare(base, l.details.root, x);
        PrefixesCompare(l.details.root, x, base);
      }
    } else {
      var other := if x <= base then x + [base[|x|] + "'"] else x;
      var l := NewLock(0, LockDetails(other, -1, "", true));
      assert Disjoint(base, other) by {
        if x <= base {
          assert other[|x|] != base[|x|];
        }
      }
      ElsewhereIsDisjoint(base, l);
      assert Conflicts(l, x, zeroDepth);
    }
  }

  /**
   The same on the text of a request path: cleaned, it climbs `ups` levels and then follows
   `rest`; no other user is in its way exactly when `rest` leads back into the part of the
   root that was left, or, with depth zero, does not leave the way to it.
   */
  lemma OthersNeverBlock(base: Name, value: string, zeroDepth: bool)
    requires base != []
    ensures var (ups, rest) := Climbs(Split(value), []);
            var left := base[|Climbed(base, ups)|..];
            (forall l :: Elsewhere(base, l) ==> !Conflicts(l, ScopedName(base, value), zeroDepth)) <==>
            left <= rest || (zeroDepth && rest <= left)
  {
    var (ups, rest) := Climbs(Split(value), []);
    var kept := Climbed(base, ups);
    var left := base[|kept|..];
    assert base == kept + left;
    ScopedNameClimbs(base, value);
    SamePrefix(kept, left, rest);
    SamePrefix(kept, rest, left);
    NoneBlocks(base, ScopedName(base, value), zeroDepth);
  }

  lemma SamePrefix(a: Name, m: Name, n: Name)
    ensures a + m <= a + n <==> m <= n
  {
    assert m == (a + m)[|a|..] && n == (a + n)[|a|..];
    if a + m <= a + n {
      assert m == (a + n)[|a|..|a| + |m|];
    }
  }

  /** In particular a path from which no ".." climbs out is clear of everybody else. */
  lemma InsideIsClear(base: Name, value: string, zeroDepth: bool)
    requires base != [] && !Underflows(Split(value), 0)
    ensures forall l :: Elsewhere(base, l) ==> !Conflicts(l, ScopedName(base, value), zeroDepth)
  {
    ScopedNameStaysInside(base, value);
    NoneBlocks(base, ScopedName(base, value), zeroDepth);
  }

  /** Two users whose requests stay below their roots neither conflict nor cover each other's resources. */
  lemma UsersDoNotBlock(l: Lock, base: Name, value: string, base': Name, value': string, zeroDepth: bool)
    requires Disjoint(base, base') && l.details.root == ScopedName(base, value)
    requires base <= ScopedName(base, value) && base' <= ScopedName(base', value')
    ensures !Conflicts(l, ScopedName(base', value'), zeroDepth)
    ensures !Covers(l, ScopedName(base', value'))
  {
    var x := ScopedName(base', value');
    assert [] <= base;
    NoneBlocks(base', x, zeroDepth);
    NoneBlocks(base', x, true);
    assert Disjoint(base', base) && base <= l.details.root;
    ElsewhereIsDisjoint(base', l);
    PrefixesCompare(base', l.details.root, x);
  }

  /** One user's path can name another's root; the other's lock there then refuses and covers the request. */
  lemma UsersMayBlock()
    ensures var x := ScopedName(["alice"], "/../bob");
            var l := NewLock(0, LockDetails(["bob"], -1, "", false));
            && Elsewhere(["alice"], l) && x == ["bob"]
            && Conflicts(l, x, true) && Conflicts(l, x, false) && Covers(l, x)
  {
    hide Split, Resolve, Underflows, IsComponent;
    assert IsComponent("bob") by {
      PlainComponent();
    }
    assert "/../bob" == "/.." + "/" + "bob" && "/.." == "" + "/" + "..";
    SplitSlash("/..", "bob");
    SplitSlash("", "..");
    SplitEmpty();
    SplitComponent("..", "");
    SplitComponent("bob", "");
    assert ".." + "" == ".." && "bob" + "" == "bob" && [""][1..] == [];
    assert Split("..") == [".."] && Split("bob") == ["bob"];
    assert Split("/../bob") == ["", "..", "bob"];
    UpAndDown("alice", "bob");
    assert |"alice"| != |"bob"|;
    assert ["alice"][0] != ["bob"][0];
    ElsewhereIsDisjoint(["alice"], NewLock(0, LockDetails(["bob"], -1, "", false)));
  }

  lemma PlainComponent()
    ensures IsComponent("bob")
  {}

  lemma UpAndDown(a: string, b: string)
    requires IsComponent(b)
    ensures Resolve(["", "..", b], [a]) == [b] && Underflows(["", "..", b], 0)
  {
    assert ["", "..", b][1..] == ["..", b] && ["..", b][1..] == [b] && [b][1..] == [];
    assert Parent([a]) == [] && Resolve([b], []) == [] + [b];
    assert Resolve(["..", b], [a]) == Resolve([b], []);
  }

  /** On clean names two requests of the same user meet exactly when the resources do. */
  lemma SameUserConflicts(l: Lock, base: Name, m: Name, n: Name, zeroDepth: bool)
    requires IsClean(m) && IsClean(n) && l.details.root == ScopedName(base, Render(m))
    ensures Conflicts(l, ScopedName(base, Render(n)), zeroDepth) <==>
      Conflicts(l.(details := l.details.(root := m)), n, zeroDepth)
  {
    ScopedNameOnClean(base, m, n);
    ScopedNameOnClean(base, n, m);
  }
}
