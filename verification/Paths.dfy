/**
 Slash-separated names and the sequences of components they stand for.

 The lock system and the in-memory file system both canonicalise every name they are
 given and then work on the string: they cut it at its last slash, or test whether it
 starts with another name and a slash.  The lemmas below show that on clean names these
 string operations are exactly "drop the last component" and "is below".
 */
module Paths {
  import opened Wrappers

  /** A clean absolute name, as its components from the root down; the root is `[]`. */
  type Name = seq<string>

  predicate IsComponent(c: string) {
    c != "" && c != "." && c != ".." && '/' !in c
  }

  predicate IsClean(n: Name) {
    forall i :: 0 <= i < |n| ==> IsComponent(n[i])
  }

  function Split(s: string): (parts: seq<string>)
    ensures |parts| > 0
  {
    if s == "" then [""]
    else
      var rest := Split(s[1..]);
      if s[0] == '/' then [""] + rest else [[s[0]] + rest[0]] + rest[1..]
  }

  function Parent(n: Name): Name {
    if n == [] then [] else n[..|n| - 1]
  }

  /** Follows the parts of a path from `base`, never above the root. */
  function Resolve(parts: seq<string>, base: Name): Name {
    if parts == [] then base
    else
      var p := parts[0];
      Resolve(parts[1..], if p == "" || p == "." then base else if p == ".." then Parent(base) else base + [p])
  }

  /** The canonical form of a name; a missing leading slash is supplied. */
  function SlashClean(s: string): Name {
    Resolve(Split(s), [])
  }

  /** The components, each with a slash in front. */
  function Join(n: Name): string {
    if n == [] then "" else "/" + n[0] + Join(n[1..])
  }

  function Render(n: Name): string {
    if n == [] then "/" else Join(n)
  }

  lemma PrefixesCompare(a: Name, b: Name, n: Name)
    ensures a <= n && b <= n ==> a <= b || b <= a
  {
    if |a| <= |n| && |b| <= |n| {
      assert n[..|a|] <= n[..|b|] || n[..|b|] <= n[..|a|];
    }
  }

  lemma SnocPrefix(a: Name, b: Name, c: string)
    ensures a <= b + [c] <==> a <= b || a == b + [c]
    ensures a + [c] <= b ==> a <= b
  {
    assert (b + [c])[..|b|] == b;
  }

  // ---------- canonical names ----------

  lemma {:induction false} SplitComponent(c: string, s: string)
    requires '/' !in c
    ensures Split(c + s) == [c + Split(s)[0]] + Split(s)[1..]
  {
    if c == "" {
      assert c + s == s && c + Split(s)[0] == Split(s)[0];
    } else {
      SplitComponent(c[1..], s);
      assert (c + s)[1..] == c[1..] + s;
      assert [c[0]] + (c[1..] + Split(s)[0]) == c + Split(s)[0];
    }
  }

  lemma {:induction false} SplitJoin(n: Name)
    requires IsClean(n)
    ensures Split(Join(n)) == [""] + n
  {
    if n != [] {
      SplitJoin(n[1..]);
      SplitComponent(n[0], Join(n[1..]));
      assert Join(n)[1..] == n[0] + Join(n[1..]);
      assert n[0] + "" == n[0];
      assert n == [n[0]] + n[1..];
    }
  }

  lemma {:induction false} ResolveClean(parts: Name, base: Name)
    requires IsClean(parts)
    ensures Resolve(parts, base) == base + parts
  {
    if parts == [] {
      assert base + parts == base;
    } else {
      ResolveClean(parts[1..], base + [parts[0]]);
      assert base + [parts[0]] + parts[1..] == base + parts;
    }
  }

  /** Canonicalising a canonical name gives it back. */
  lemma SlashCleanRender(n: Name)
    requires IsClean(n)
    ensures SlashClean(Render(n)) == n
  {
    if n == [] {
      assert Split("/")[1..] == Split("");
    } else {
      SplitJoin(n);
      ResolveClean(n, []);
      assert ([""] + n)[1..] == n && [] + n == n;
    }
  }

  lemma {:induction false} SplitHasNoSlash(s: string)
    ensures forall i :: 0 <= i < |Split(s)| ==> '/' !in Split(s)[i]
  {
    if s != "" {
      SplitHasNoSlash(s[1..]);
    }
  }

  lemma {:induction false} ResolveIsClean(parts: seq<string>, base: Name)
    requires IsClean(base)
    requires forall i :: 0 <= i < |parts| ==> '/' !in parts[i]
    ensures IsClean(Resolve(parts, base))
  {
    if parts != [] {
      var p := parts[0];
      ResolveIsClean(parts[1..], if p == "" || p == "." then base else if p == ".." then Parent(base) else base + [p]);
    }
  }

  lemma SlashCleanIsClean(s: string)
    ensures IsClean(SlashClean(s))
  {
    SplitHasNoSlash(s);
    ResolveIsClean(Split(s), []);
  }

  /** Distinct clean names are distinct strings. */
  lemma RenderInjective(m: Name, n: Name)
    requires IsClean(m) && IsClean(n) && Render(m) == Render(n)
    ensures m == n
  {
    SlashCleanRender(m);
    SlashCleanRender(n);
  }

  // ---------- a directory of the operating system ----------

  /** Where a request name is looked for in the directory `dir`; a name with a NUL is refused. */
  function InDirectory(dir: Name, name: string): Option<Name> {
    if '\0' in name then None else Some(dir + SlashClean(name))
  }

  /** Whatever the name, the file is inside the directory; distinct canonical names are distinct files. */
  lemma InDirectoryIsInside(dir: Name, name: string, m: Name)
    requires IsClean(dir) && IsClean(m)
    ensures match InDirectory(dir, name)
            case None => '\0' in name
            case Some(p) => dir <= p && IsClean(p) && (p == dir + m <==> SlashClean(name) == m)
  {
    SlashCleanIsClean(name);
    var p := dir + SlashClean(name);
    assert forall i :: 0 <= i < |p| ==> p[i] == if i < |dir| then dir[i] else SlashClean(name)[i - |dir|];
    assert p[|dir|..] == SlashClean(name) && (dir + m)[|dir|..] == m;
  }

  // ---------- a child's name ----------

  lemma SplitStep(s: string)
    requires s != ""
    ensures var rest := Split(s[1..]); Split(s) == if s[0] == '/' then [""] + rest else [[s[0]] + rest[0]] + rest[1..]
  {}

  lemma {:induction false} SplitSlash(a: string, b: string)
    ensures Split(a + "/" + b) == Split(a) + Split(b)
  {
    hide Split;
    var s := a + "/" + b;
    SplitStep(s);
    if a == "" {
      assert s == "/" + b && s[1..] == b;
      SplitEmpty();
    } else {
      SplitStep(a);
      assert s[1..] == a[1..] + "/" + b && s[0] == a[0];
      SplitSlash(a[1..], b);
      assert (Split(a[1..]) + Split(b))[1..] == Split(a[1..])[1..] + Split(b);
    }
  }

  lemma SplitEmpty()
    ensures Split("") == [""]
  {}

  lemma {:induction false} ResolveTwice(a: seq<string>, b: seq<string>, base: Name)
    ensures Resolve(a + b, base) == Resolve(b, Resolve(a, base))
  {
    if a == [] {
      assert a + b == b;
    } else {
      var p := a[0];
      assert (a + b)[1..] == a[1..] + b;
      ResolveTwice(a[1..], b, if p == "" || p == "." then base else if p == ".." then Parent(base) else base + [p]);
    }
  }

  /** Joining a component to a name and cleaning the result appends it to the clean name. */
  lemma CleanChild(s: string, c: string)
    requires IsComponent(c)
    ensures SlashClean(s + "/" + c) == SlashClean(s) + [c]
  {
    SplitSlash(s, c);
    SplitComponent(c, "");
    assert c + "" == c && Split("")[1..] == [];
    assert Split(c) == [c];
    ResolveTwice(Split(s), [c], []);
    assert [c][1..] == [] && Resolve([c], SlashClean(s)) == Resolve([], SlashClean(s) + [c]);
  }

  /** A slash more and a single dot change nothing, and two dots lead to the parent; above the root there is nothing. */
  lemma CleanDots(s: string)
    ensures SlashClean("") == [] && SlashClean(s + "/") == SlashClean(s) && SlashClean(s + "/.") == SlashClean(s)
    ensures SlashClean(s + "/..") == Parent(SlashClean(s)) && Parent([]) == []
  {
    SplitEmpty();
    SplitSlash(s, "");
    ResolveOne(s, "");
    SplitSlash(s, ".");
    SplitDots();
    ResolveOne(s, ".");
    SplitSlash(s, "..");
    ResolveOne(s, "..");
    assert s + "/" + "" == s + "/" && s + "/" + "." == s + "/." && s + "/" + ".." == s + "/..";
  }

  lemma SplitDots()
    ensures Split(".") == ["."] && Split("..") == [".."]
  {
    assert "."[1..] == "" && ".."[1..] == ".";
    SplitEmpty();
    assert ['.'] + "" == "." && ['.'] + "." == "..";
  }

  lemma ResolveOne(s: string, part: string)
    ensures Resolve(Split(s) + [part], []) ==
            if part == "" || part == "." then SlashClean(s) else if part == ".." then Parent(SlashClean(s))
            else SlashClean(s) + [part]
  {
    hide Split;
    ResolveTwice(Split(s), [part], []);
    assert [part][1..] == [];
  }

  // ---------- cutting a name at its last slash ----------

  function LastSlash(s: string): (i: int)
    ensures -1 <= i < |s|
  {
    if s == "" then -1 else if s[|s| - 1] == '/' then |s| - 1 else LastSlash(s[..|s| - 1])
  }

  lemma {:induction false} LastSlashBeforeComponent(a: string, c: string)
    requires '/' !in c
    ensures LastSlash(a + "/" + c) == |a|
  {
    if c == "" {
      assert a + "/" + c == a + "/";
    } else {
      LastSlashBeforeComponent(a, c[..|c| - 1]);
      assert (a + "/" + c)[..|a + "/" + c| - 1] == a + "/" + c[..|c| - 1];
    }
  }

  lemma {:induction false} JoinSnoc(n: Name, c: string)
    ensures Join(n + [c]) == Join(n) + "/" + c
  {
    if n == [] {
      assert n + [c] == [c] && [c][1..] == [];
    } else {
      JoinSnoc(n[1..], c);
      assert (n + [c])[1..] == n[1..] + [c];
      assert "/" + n[0] + (Join(n[1..]) + "/" + c) == "/" + n[0] + Join(n[1..]) + "/" + c;
    }
  }

  /** What the walk to the root does to a name that is not the root. */
  function CutLast(s: string): string
    requires '/' in s
  {
    LastSlashExists(s);
    var p := s[..LastSlash(s)];
    if p == "" then "/" else p
  }

  lemma {:induction false} LastSlashExists(s: string)
    requires '/' in s
    ensures LastSlash(s) >= 0
  {
    if s[|s| - 1] != '/' {
      LastSlashExists(s[..|s| - 1]);
    }
  }

  lemma RenderStartsWithSlash(n: Name)
    ensures '/' in Render(n)
  {
    assert Render(n)[0] == '/';
  }

  lemma JoinIsEmpty(n: Name)
    ensures Join(n) == "" <==> n == []
  {}

  lemma CutLastIsParent(n: Name)
    requires IsClean(n) && n != []
    ensures '/' in Render(n)
    ensures CutLast(Render(n)) == Render(Parent(n))
  {
    var p, c := Parent(n), n[|n| - 1];
    assert n == p + [c];
    JoinSnoc(p, c);
    RenderStartsWithSlash(n);
    assert IsComponent(c);
    LastSlashBeforeComponent(Join(p), c);
    assert Render(n)[..|Join(p)|] == Join(p);
    JoinIsEmpty(p);
  }

  /**
   The walk from a name to the root visits exactly its prefixes, longest first; it
   terminates because each step drops a component.
   */
  method WalkToRoot(n: Name) returns (visited: seq<string>)
    requires IsClean(n)
    ensures |visited| == |n| + 1
    ensures forall k :: 0 <= k <= |n| ==> visited[k] == Render(n[..|n| - k])
  {
    var name := Render(n);
    ghost var at := n;
    assert n[..|n|] == n;
    visited := [];
    while true
      invariant at == n[..|at|] && |at| <= |n| && |visited| == |n| - |at|
      invariant name == Render(at) && IsClean(at)
      invariant forall k :: 0 <= k < |visited| ==> visited[k] == Render(n[..|n| - k])
      decreases |at|
    {
      visited := visited + [name];
      if name == "/" {
        if at != [] {
          SlashCleanRender(at);
          SlashCleanRender([]);
        }
        return;
      }
      CutLastIsParent(at);
      name := CutLast(name);
      at := Parent(at);
    }
  }

  // ---------- "starts with the name and a slash" ----------

  lemma {:induction false} SlashEndsComponent(a: string, b: string, x: string, y: string)
    requires '/' !in a && '/' !in b
    requires a + "/" + x <= b + y
    requires y == "" || y[0] == '/'
    ensures a == b && "/" + x <= y
  {
    var l, r := a + "/" + x, b + y;
    assert l[|a|] == '/' == r[|a|];
    assert forall k :: 0 <= k < |a| ==> a[k] == l[k] == r[k];
    assert |b| < |r| ==> r[|b|] == '/';
    assert forall k :: 0 <= k < |b| ==> b[k] == r[k];
    assert |a| == |b|;
    assert a == l[..|a|] && b == r[..|b|];
    assert "/" + x == l[|a|..] && y == r[|a|..];
  }

  lemma {:induction false} SlashPrefixIsStrictPrefix(r: Name, n: Name)
    requires IsClean(r) && IsClean(n)
    ensures Join(r) + "/" <= Join(n) <==> r < n
  {
    if r == [] {
      assert Join(r) + "/" == "/";
    } else if n == [] {
    } else {
      assert IsComponent(r[0]) && IsComponent(n[0]);
      SlashPrefixIsStrictPrefix(r[1..], n[1..]);
      assert r == [r[0]] + r[1..] && n == [n[0]] + n[1..];
      assert Join(r) + "/" == "/" + (r[0] + (Join(r[1..]) + "/"));
      assert Join(n) == "/" + (n[0] + Join(n[1..]));
      TailPrefix("/", r[0] + (Join(r[1..]) + "/"), n[0] + Join(n[1..]));
      if Join(r) + "/" <= Join(n) {
        JoinTail(r[0], n[0], r[1..], n[1..]);
      }
    }
  }

  lemma TailPrefix(p: string, l: string, r: string)
    ensures p + l <= p + r <==> l <= r
  {
    assert l == (p + l)[|p|..] && r == (p + r)[|p|..];
  }

  lemma JoinTail(a: string, b: string, r: Name, n: Name)
    requires '/' !in a && '/' !in b
    requires a + (Join(r) + "/") <= b + Join(n)
    ensures a == b && Join(r) + "/" <= Join(n)
  {
    var x := (Join(r) + "/")[1..];
    assert (Join(r) + "/")[0] == '/';
    assert a + (Join(r) + "/") == a + "/" + x;
    SlashEndsComponent(a, b, x, Join(n));
    assert "/" + x == Join(r) + "/";
  }

  /**
   The test by which an infinite lock on `r` is taken to cover `n` holds exactly when
   `n` is `r` or lies below it.  The slash matters: "/a" does not cover "/ab".
   */
  lemma CoverTest(r: Name, n: Name)
    requires IsClean(r) && IsClean(n)
    ensures Render(n) == Render(r) || Render(r) == "/" || Render(r) + "/" <= Render(n) <==> r <= n
  {
    SlashPrefixIsStrictPrefix(r, n);
    if Render(n) == Render(r) {
      RenderInjective(n, r);
    }
    if Render(r) == "/" && r != [] {
      RenderInjective(r, []);
    }
    if r != [] {
      JoinIsEmpty(r);
      assert r <= n <==> r == n || r < n;
    }
  }

  // ---------- joining a request path to a user's root ----------

  /**
   The lock name of a request path, for a user whose root is `base`: the two are joined
   and the result is cleaned, so ".." parts are followed across the joint.
   */
  function ScopedName(base: Name, value: string): Name {
    Resolve(Split(value), base)
  }

  /** Some ".." part is met when the path so far has no component left to remove. */
  predicate Underflows(parts: seq<string>, depth: nat) {
    parts != [] &&
    var p := parts[0];
    if p == "" || p == "." then Underflows(parts[1..], depth)
    else if p == ".." then depth == 0 || Underflows(parts[1..], depth - 1)
    else Underflows(parts[1..], depth + 1)
  }

  function Depth(parts: seq<string>, d: nat): nat {
    if parts == [] then d
    else
      var p := parts[0];
      Depth(parts[1..], if p == "" || p == "." then d else if p == ".." then (if d == 0 then 0 else d - 1) else d + 1)
  }

  /** Cleaning a relative path: how many ".." are left in front, and what follows them. */
  function Climbs(parts: seq<string>, base: Name): (nat, Name) {
    if parts == [] then (0, base)
    else
      var p := parts[0];
      if p == "" || p == "." then Climbs(parts[1..], base)
      else if p != ".." then Climbs(parts[1..], base + [p])
      else if base != [] then Climbs(parts[1..], Parent(base))
      else
        var (n, rest) := Climbs(parts[1..], []);
        (n + 1, rest)
  }

  lemma {:induction false} ClimbsIsUnderflow(parts: seq<string>, base: Name)
    ensures Climbs(parts, base).0 > 0 <==> Underflows(parts, |base|)
    ensures Climbs(parts, base).1 == Resolve(parts, base)
  {
    if parts != [] {
      var p := parts[0];
      if p == "" || p == "." {
        ClimbsIsUnderflow(parts[1..], base);
      } else if p != ".." {
        ClimbsIsUnderflow(parts[1..], base + [p]);
      } else {
        ClimbsIsUnderflow(parts[1..], Parent(base));
      }
    }
  }

  lemma CleanRelative(name: string)
    ensures Climbs(Split(name), []).0 > 0 <==> Underflows(Split(name), 0)
    ensures Climbs(Split(name), []).1 == SlashClean(name)
  {
    ClimbsIsUnderflow(Split(name), []);
  }

  /** What is left of `base` after climbing `ups` levels. */
  function Climbed(base: Name, ups: nat): Name {
    base[..if ups < |base| then |base| - ups else 0]
  }

  lemma {:induction false} ResolveClimbs(parts: seq<string>, base: Name, acc: Name)
    ensures Resolve(parts, base + acc) == Climbed(base, Climbs(parts, acc).0) + Climbs(parts, acc).1
  {
    if parts == [] {
      assert Climbed(base, 0) == base;
    } else {
      var p := parts[0];
      if p == "" || p == "." {
        ResolveClimbs(parts[1..], base, acc);
      } else if p != ".." {
        assert base + acc + [p] == base + (acc + [p]);
        ResolveClimbs(parts[1..], base, acc + [p]);
      } else if acc != [] {
        assert Parent(base + acc) == base + Parent(acc);
        ResolveClimbs(parts[1..], base, Parent(acc));
      } else {
        assert base + acc == base && Parent(base) + [] == Parent(base);
        ResolveClimbs(parts[1..], Parent(base), []);
        assert Climbed(Parent(base), Climbs(parts[1..], []).0) == Climbed(base, Climbs(parts[1..], []).0 + 1);
      }
    }
  }

  /** On the text: joining to a root climbs it as often as the cleaned path begins with "..", and goes on from there. */
  lemma ScopedNameClimbs(base: Name, value: string)
    ensures ScopedName(base, value) == Climbed(base, Climbs(Split(value), []).0) + Climbs(Split(value), []).1
  {
    assert base + [] == base;
    ResolveClimbs(Split(value), base, []);
  }

  lemma {:induction false} ResolveDepth(parts: seq<string>, base: Name)
    ensures |Resolve(parts, base)| == Depth(parts, |base|)
  {
    if parts != [] {
      var p := parts[0];
      ResolveDepth(parts[1..], if p == "" || p == "." then base else if p == ".." then Parent(base) else base + [p]);
    }
  }

  lemma {:induction false} DepthShift(parts: seq<string>, b: nat, d: nat)
    ensures Depth(parts, b + d) <= b + Depth(parts, d)
    ensures b > 0 && Underflows(parts, d) ==> Depth(parts, b + d) < b + Depth(parts, d)
  {
    if parts != [] {
      var p := parts[0];
      if p == "" || p == "." {
        DepthShift(parts[1..], b, d);
      } else if p == ".." {
        if d > 0 {
          DepthShift(parts[1..], b, d - 1);
        } else if b > 0 {
          DepthShift(parts[1..], b - 1, 0);
        }
      } else {
        DepthShift(parts[1..], b, d + 1);
      }
    }
  }

  lemma {:induction false} ResolveShift(parts: seq<string>, base: Name, acc: Name)
    requires !Underflows(parts, |acc|)
    ensures Resolve(parts, base + acc) == base + Resolve(parts, acc)
  {
    if parts != [] {
      var p := parts[0];
      if p == "" || p == "." {
        ResolveShift(parts[1..], base, acc);
      } else if p == ".." {
        assert Parent(base + acc) == base + Parent(acc);
        ResolveShift(parts[1..], base, Parent(acc));
      } else {
        assert base + acc + [p] == base + (acc + [p]);
        ResolveShift(parts[1..], base, acc + [p]);
      }
    }
  }

  /**
   The joined lock name is the cleaned request path under the user's root exactly when
   no ".." part of the request path reaches above the request's own root (or the user's
   root is the root itself).  Otherwise the lock name is a different resource.
   */
  lemma ScopedNameStaysInside(base: Name, value: string)
    ensures ScopedName(base, value) == base + SlashClean(value) <==> base == [] || !Underflows(Split(value), 0)
  {
    hide Split, Resolve, Underflows;
    var parts := Split(value);
    assert base + [] == base;
    if !Underflows(parts, 0) {
      ResolveShift(parts, base, []);
    } else if base == [] {
      assert base + SlashClean(value) == SlashClean(value);
    } else {
      DepthShift(parts, |base|, 0);
      ResolveDepth(parts, base);
      ResolveDepth(parts, []);
    }
  }

  lemma {:induction false} CleanNeverUnderflows(n: Name, d: nat)
    requires IsClean(n)
    ensures !Underflows(n, d)
  {
    if n != [] {
      assert IsComponent(n[0]);
      CleanNeverUnderflows(n[1..], d + 1);
    }
  }

  /** A clean name written without the slash before it reads back, and does not climb. */
  lemma RelativeRender(n: Name)
    requires IsClean(n) && n != []
    ensures Join(n) != ""
    ensures var relative := Join(n)[1..];
            && SlashClean(relative) == n && !("/" <= relative) && !Underflows(Split(relative), 0)
  {
    hide Resolve, Underflows, Split;
    var relative := Join(n)[1..];
    SplitJoin(n);
    SplitStep(Join(n));
    assert Join(n) == "/" + n[0] + Join(n[1..]);
    assert Join(n)[0] == '/' && ([""] + Split(relative))[1..] == ([""] + n)[1..];
    assert Split(relative) == n;
    ResolveClean(n, []);
    CleanNeverUnderflows(n, 0);
    assert relative == n[0] + Join(n[1..]) && IsComponent(n[0]);
  }

  /** On clean request names, scoping is joining, so it is injective and keeps "is below" both ways. */
  lemma ScopedNameOnClean(base: Name, m: Name, n: Name)
    requires IsClean(m) && IsClean(n)
    ensures ScopedName(base, Render(m)) == base + m
    ensures ScopedName(base, Render(m)) <= ScopedName(base, Render(n)) <==> m <= n
    ensures ScopedName(base, Render(m)) == ScopedName(base, Render(n)) <==> m == n
  {
    ScopedOnClean(base, m);
    ScopedOnClean(base, n);
    assert m == (base + m)[|base|..] && n == (base + n)[|base|..];
    if base + m <= base + n {
      assert m == (base + n)[|base|..|base| + |m|];
    }
  }

  lemma ScopedOnClean(base: Name, m: Name)
    requires IsClean(m)
    ensures ScopedName(base, Render(m)) == base + m
  {
    if m == [] {
      assert Split("/")[1..] == [""] && [""][1..] == [];
      assert Resolve([""], base) == base;
      assert base + m == base;
    } else {
      SplitJoin(m);
      assert ([""] + m)[1..] == m;
      ResolveClean(m, base);
    }
  }
}
