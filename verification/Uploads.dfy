/**
 The upload manager: a session collects chunks in order in a temporary file, and
 completing it publishes that file and commits the difference to the usage ledger.
 Names are storage names; the user's files are those at and below `root`.
 */
module Uploads {
  import opened Decimal
  import opened FileTree
  import opened Paths
  import opened TreeSize
  import opened Wrappers

  /** `payload` is the temporary file, which the first chunk creates. */
  datatype SessionData = SessionData(
    relative: Name, total: int, received: int, previousSize: int, next: int, strategy: string, created: int,
      payload: Option<seq<bv8>>)

  datatype Error = BadRequest | IsDirectory | Blocked | Precheck | OutOfOrder | TooLarge | Unknown | SizeMismatch
      | CommitFailed

  // ---------- one session ----------

  function Stored(s: SessionData): seq<bv8> {
    match s.payload
    case None => []
    case Some(data) => data
  }

  predicate Consistent(s: SessionData) {
    && 0 <= s.received <= s.total && s.received == |Stored(s)|
    && 0 <= s.next && (s.next == 0 <==> s.payload.None?) && s.previousSize >= 0
    && s.strategy in {"overwrite", "skip", "rename"} && (s.strategy != "overwrite" ==> s.previousSize == 0)
  }

  /** One byte more than is allowed is read, to notice that there is one; the session is then given up. */
  function AcceptChunk(s: SessionData, n: int, body: seq<bv8>): (Option<Error>, Option<SessionData>) {
    var remaining := s.total - s.received;
    if n != s.next then (Some(OutOfOrder), Some(s))
    else if |body| > remaining then (Some(TooLarge), None)
    else (None, Some(s.(received := s.received + |body|, next := s.next + 1, payload := Some(Stored(s) + body))))
  }

  /**
   A chunk is accepted exactly if it is the next one and there is room for it, and then is
   appended whole; one that is too long ends the session, one out of order leaves it alone.
   */
  lemma AcceptedInOrder(s: SessionData, n: int, body: seq<bv8>)
    requires Consistent(s)
    ensures var (err, s') := AcceptChunk(s, n, body);
            && (s'.Some? ==> Consistent(s'.value) && s'.value.total == s.total && s'.value.strategy == s.strategy)
            && (err.None? ==> n == s.next && s'.Some? && s'.value.next == n + 1 && Stored(s'.value) == Stored(s) + body)
            && (err.None? <==> n == s.next && |Stored(s)| + |body| <= s.total)
            && (n != s.next ==> err == Some(OutOfOrder) && s' == Some(s))
            && (n == s.next && |Stored(s)| + |body| > s.total ==> err == Some(TooLarge) && s' == None)
  {}

  /** What can come of completing a session: it publishes only what is whole, and is skipped only on request. */
  predicate Completes(s: Option<SessionData>, publishes: bool, ok: bool) {
    && (publishes ==> s.Some? && s.value.received == s.value.total && s.value.payload.Some?)
    && (ok && !publishes ==> s.Some? && s.value.received == s.value.total && s.value.strategy == "skip")
  }

  class Session {
    const relative: Name
    const total: int
    const previousSize: int
    const strategy: string
    const created: int
    var received: int
    var next: int
    var payload: Option<seq<bv8>>

    constructor (relative: Name, total: int, previousSize: int, strategy: string, created: int)
      ensures Data() == SessionData(relative, total, 0, previousSize, 0, strategy, created, None)
    {
      this.relative, this.total, this.previousSize, this.strategy, this.created :=
        relative, total, previousSize, strategy, created;
      received, next, payload := 0, 0, None;
    }

    function Data(): SessionData
      reads this
    {
      SessionData(relative, total, received, previousSize, next, strategy, created, payload)
    }
  }

  // ---------- names that are free ----------

  function LastDot(s: string): (i: int)
    ensures -1 <= i < |s|
  {
    if s == "" then -1 else if s[|s| - 1] == '.' then |s| - 1 else LastDot(s[..|s| - 1])
  }

  /** The number goes before the extension; a name that begins with its only dot is all extension. */
  function NumberedName(c: string, i: nat): string {
    var k := if LastDot(c) < 0 then |c| else LastDot(c);
    c[..k] + " (" + Itoa(i) + ")" + c[k..]
  }

  lemma NumberedDiffer(c: string, i: nat, j: nat)
    requires NumberedName(c, i) == NumberedName(c, j)
    ensures i == j
  {
    var k := if LastDot(c) < 0 then |c| else LastDot(c);
    var a, z := c[..k] + " (", ")" + c[k..];
    var s, t := NumberedName(c, i), NumberedName(c, j);
    assert s == a + Itoa(i) + z && t == a + Itoa(j) + z;
    assert |Itoa(i)| == |Itoa(j)|;
    assert Itoa(i) == s[|a|..|a| + |Itoa(i)|] == t[|a|..|a| + |Itoa(j)|] == Itoa(j);
    ItoaInjective(i, j);
  }

  lemma {:induction false} LastDotBefore(stem: string, ext: string)
    requires '.' !in ext
    ensures LastDot(stem + "." + ext) == |stem|
    ensures LastDot(ext) == -1
  {
    var s := stem + "." + ext;
    if ext == "" {
      assert s == stem + ".";
    } else {
      var less := ext[..|ext| - 1];
      LastDotBefore(stem, less);
      assert s[..|s| - 1] == stem + "." + less && s[|s| - 1] == ext[|ext| - 1];
    }
  }

  /** The number is put before the last dot, or at the end of a name that has none. */
  lemma NumberBeforeExtension(stem: string, ext: string, i: nat)
    requires '.' !in ext
    ensures NumberedName(stem + "." + ext, i) == stem + " (" + Itoa(i) + ")" + "." + ext
    ensures NumberedName(ext, i) == ext + " (" + Itoa(i) + ")"
  {
    hide LastDot;
    LastDotBefore(stem, ext);
    var c := stem + "." + ext;
    assert c[..|stem|] == stem && c[|stem|..] == "." + ext;
    assert ext[..|ext|] == ext && ext[|ext|..] == "";
  }

  function Candidate(p: Name, i: nat): Name
    requires p != []
  {
    Parent(p) + [NumberedName(p[|p| - 1], i)]
  }

  lemma CandidatesDiffer(p: Name, i: nat, j: nat)
    requires p != [] && Candidate(p, i) == Candidate(p, j)
    ensures i == j
  {
    assert Candidate(p, i)[|p| - 1] == NumberedName(p[|p| - 1], i);
    assert Candidate(p, j)[|p| - 1] == NumberedName(p[|p| - 1], j);
    NumberedDiffer(p[|p| - 1], i, j);
  }

  ghost predicate Tried(p: Name, i: nat, tried: set<Name>)
    requires p != []
  {
    forall x :: x in tried ==> exists j: nat :: 1 <= j < i && x == Candidate(p, j)
  }

  lemma TryNext(p: Name, i: nat, tried: set<Name>)
    requires p != [] && i >= 1 && Tried(p, i, tried)
    ensures Candidate(p, i) !in tried && Tried(p, i + 1, tried + {Candidate(p, i)})
  {
    hide Candidate;
    forall j: nat | Candidate(p, i) == Candidate(p, j)
      ensures i == j
    {
      CandidatesDiffer(p, i, j);
    }
  }

  /** The first number whose name is free; there is one, because the tree is finite. */
  method UniqueName(t: Tree, p: Name) returns (q: Name, i: nat)
    requires p != []
    ensures i >= 1 && q == Candidate(p, i) && q !in t
    ensures forall j :: 1 <= j < i ==> Candidate(p, j) in t
  {
    hide Candidate, Tried;
    i := 1;
    ghost var tried: set<Name> := {};
    NothingTried(p);
    while true
      invariant i >= 1 && tried <= t.Keys && |tried| == i - 1 && Tried(p, i, tried)
      invariant forall j :: 1 <= j < i ==> Candidate(p, j) in t
      decreases |t.Keys| - |tried|
    {
      q := Candidate(p, i);
      if q !in t {
        return;
      }
      TryNext(p, i, tried);
      SubsetSize(tried + {q}, t.Keys);
      tried := tried + {q};
      i := i + 1;
    }
  }

  lemma NothingTried(p: Name)
    requires p != []
    ensures Tried(p, 1, {})
  {}

  /** Makes the directories on the way to `p`, unless a file is in the way. */
  function MkdirAll(t: Tree, p: Name): Option<Tree> {
    if p == [] then Some(t)
    else
      match MkdirAll(t, Parent(p))
      case None => None
      case Some(t') => if p !in t' then Some(t'[p := Dir(488)]) else if t'[p].Dir? then Some(t') else None
  }

  ghost function BytesUnder(t: Tree, root: Name): (n: nat) {
    Bytes(Subtree(t, root))
  }

  lemma UnderUpdate(t: Tree, root: Name, p: Name, e: Entry)
    ensures BytesUnder(t[p := e], root) == BytesUnder(t, root) + if root <= p then Size(e) - SizeAt(t, p) else 0
  {
    if root <= p {
      BytesUpdate(Subtree(t, root), p, e);
      assert Subtree(t[p := e], root) == Subtree(t, root)[p := e];
    } else {
      assert Subtree(t[p := e], root) == Subtree(t, root);
    }
  }

  /** Only directories have been added. */
  ghost predicate OnlyDirsAdded(t: Tree, t': Tree) {
    && (forall q :: q in t ==> q in t' && t'[q] == t[q])
    && (forall q :: q in t' && q !in t ==> t'[q].Dir?)
  }

  /** What making the directories on the way to `p` has done. */
  ghost predicate DirsMade(t: Tree, t': Tree, p: Name, root: Name) {
    && IsTree(t') && IsDirAt(t', p) && OnlyDirsAdded(t, t') && BytesUnder(t', root) == BytesUnder(t, root)
    && forall q :: q in t' && q !in t ==> q <= p
  }

  lemma {:induction false} MkdirAllKeeps(t: Tree, p: Name, root: Name)
    requires IsTree(t)
    ensures MkdirAll(t, p).Some? ==> DirsMade(t, MkdirAll(t, p).value, p, root)
    decreases |p|
  {
    hide DirsMade, IsTree;
    if p == [] {
      NothingMade(t, root);
    } else {
      MkdirAllKeeps(t, Parent(p), root);
      if MkdirAll(t, Parent(p)).Some? {
        OneMade(t, MkdirAll(t, Parent(p)).value, p, root);
      }
    }
  }

  lemma NothingMade(t: Tree, root: Name)
    requires IsTree(t)
    ensures DirsMade(t, t, [], root)
  {}

  lemma OneMade(t: Tree, t1: Tree, p: Name, root: Name)
    requires p != [] && DirsMade(t, t1, Parent(p), root)
    ensures p !in t1 ==> DirsMade(t, t1[p := Dir(488)], p, root)
    ensures p in t1 && t1[p].Dir? ==> DirsMade(t, t1, p, root)
    ensures p in t1 ==> p in t && t1[p] == t[p]
  {
    hide BytesUnder, IsTree;
    assert !(p <= Parent(p)) && Parent(p) <= p;
    if p !in t1 {
      UnderUpdate(t1, root, p, Dir(488));
      EntryKeepsTree(t1, p, Dir(488));
    }
  }

  /** The only thing that can be in the way is a file. */
  lemma {:induction false} FileInTheWay(t: Tree, p: Name)
    requires IsTree(t)
    ensures MkdirAll(t, p).None? <==> exists k :: 0 < k <= |p| && p[..k] in t && t[p[..k]].File?
    decreases |p|
  {
    hide DirsMade, IsTree;
    if p != [] {
      var d := Parent(p);
      FileInTheWay(t, d);
      MkdirAllKeeps(t, d, []);
      assert forall k :: 0 <= k < |p| ==> d[..k] == p[..k];
      assert p[..|p|] == p;
      if MkdirAll(t, d).Some? {
        OneMade(t, MkdirAll(t, d).value, p, []);
        MadeKeeps(t, MkdirAll(t, d).value, d);
      }
    }
  }

  lemma MadeKeeps(t: Tree, t1: Tree, d: Name)
    requires DirsMade(t, t1, d, [])
    ensures forall q :: q in t ==> q in t1
  {}

  /** One file has been put in place: at the name asked for, or, to keep what is there, at a free one. */
  ghost predicate Replaced(t: Tree, t': Tree, root: Name, s: SessionData, destination: Name) {
    && root != [] && s.payload.Some? && destination in t' && t'[destination] == File(384, s.payload.value)
    && (forall q :: q in t && q != destination ==> q in t' && t'[q] == t[q])
    && (forall q :: q in t' && q !in t && q != destination ==> t'[q].Dir?)
    && !IsDirAt(t, destination)
    && (s.strategy != "overwrite" ==> destination !in t)
    && Chosen(t, root + s.relative, s.strategy, destination)
  }

  ghost predicate Chosen(t: Tree, p: Name, strategy: string, destination: Name) {
    p != [] && if p in t && strategy == "rename"
               then exists i: nat :: FirstFree(t, p, i) && destination == Candidate(p, i) else destination == p
  }

  predicate FirstFree(t: Tree, p: Name, i: nat)
    requires p != []
  {
    i >= 1 && Candidate(p, i) !in t && forall j :: 1 <= j < i ==> Candidate(p, j) in t
  }

  /** What it takes to publish a session: all its bytes, no file above its place, and nothing in its way there. */
  ghost predicate Publishable(t: Tree, root: Name, s: SessionData) {
    && s.received == s.total && s.payload.Some? && !FileOnTheWay(t, root + s.relative)
    && (root + s.relative in t ==>
          s.strategy == "rename" || (s.strategy == "overwrite" && t[root + s.relative].File?))
  }

  /** What a publication adds to the drift: what was replaced, less what was there when the session began. */
  function Excess(t: Tree, root: Name, s: SessionData, destination: Name): int {
    (if root <= destination then SizeAt(t, destination) else s.total) - s.previousSize
  }

  /**
   A publication leaves the ledger exact precisely when, for an overwrite, the destination
   has the size it had when the session began, and otherwise always, except that a
   renaming upload addressed to the root itself lands beside the root.
   */
  lemma LedgerExact(t: Tree, t': Tree, root: Name, s: SessionData, destination: Name)
    requires Consistent(s) && Replaced(t, t', root, s, destination)
    ensures Excess(t, root, s, destination) == 0 <==>
            if s.strategy == "overwrite" then SizeAt(t, root + s.relative) == s.previousSize
            else (s.strategy == "rename" && s.relative == [] && root in t ==> s.total == 0)
  {
    var p := root + s.relative;
    if p in t && s.strategy == "rename" {
      var i: nat :| destination == Candidate(p, i);
      if s.relative == [] {
        assert p == root && |destination| == |root|;
      } else {
        assert Parent(p) == root + Parent(s.relative);
        assert root <= destination;
      }
    } else {
      assert root <= destination;
      assert s.relative == [] ==> p == root;
    }
  }

  /** A renaming upload addressed to an existing root is published beside it, and none of its bytes are below. */
  lemma BesideTheRoot(t: Tree, t': Tree, root: Name, s: SessionData, destination: Name)
    requires Consistent(s) && Replaced(t, t', root, s, destination)
    requires s.strategy == "rename" && s.relative == [] && root in t
    ensures !(root <= destination) && Parent(destination) == Parent(root) && Excess(t, root, s, destination) == s.total
  {
    assert root + s.relative == root;
    var i: nat :| destination == Candidate(root, i);
    assert |destination| == |root|;
  }

  /** There is such a publication for every whole upload of this kind, unless the first numbered name is taken. */
  lemma BesideTheRootHappens(t: Tree, root: Name, s: SessionData)
    requires root != [] && root in t && Consistent(s) && s.payload.Some? && Candidate(root, 1) !in t
    requires s.strategy == "rename" && s.relative == []
    ensures var d := Candidate(root, 1); Replaced(t, t[d := File(384, s.payload.value)], root, s, d)
  {
    assert root + s.relative == root;
    assert Chosen(t, root + s.relative, s.strategy, Candidate(root, 1));
  }

  ghost predicate FileOnTheWay(t: Tree, p: Name) {
    exists k :: 0 < k < |p| && p[..k] in t && t[p[..k]].File?
  }

  lemma RootIsADir(t: Tree)
    requires IsTree(t)
    ensures [] in t && t[[]].Dir?
  {}

  lemma WayIsWalk(t: Tree, p: Name)
    requires IsTree(t)
    ensures FileOnTheWay(t, p) <==> WalkError(t, p, 0) == Some(Invalid)
    ensures FileOnTheWay(t, p) ==> p !in t
  {
    WalkMeaning(t, p);
    if FileOnTheWay(t, p) {
      var k :| 0 < k < |p| && p[..k] in t && t[p[..k]].File?;
      NothingBelow(t, p, k);
    }
  }

  // ---------- the manager ----------

  class Manager {
    const root: Name
    var tree: Tree
    var sessions: map<string, Session>
    var recorded: int
    /** Deltas whose commit failed; the ids given out so far; the ids published, in order. */
    ghost var lost: int
    /** How often the operating system or the database refused something. */
    ghost var refusals: nat
    ghost var issued: set<string>
    ghost var published: seq<string>

    ghost predicate Valid()
      reads this, sessions.Values
    {
      Grounded() && Separate() && Collecting() && Recorded()
    }

    ghost predicate Grounded()
      reads this`tree
    {
      root != [] && IsTree(tree) && IsDirAt(tree, Parent(root))
    }

    ghost predicate Separate()
      reads this`sessions
    {
      forall a, b :: a in sessions && b in sessions && sessions[a] == sessions[b] ==> a == b
    }

    ghost predicate Collecting()
      reads this`sessions, sessions.Values
    {
      forall a :: a in sessions ==> Consistent(sessions[a].Data())
    }

    /** An id is given out once, and published at most once, when its session has ended. */
    ghost predicate Recorded()
      reads this`sessions, this`issued, this`published
    {
      && sessions.Keys <= issued
      && (forall i :: 0 <= i < |published| ==> published[i] in issued && published[i] !in sessions)
      && (forall i, j :: 0 <= i < j < |published| ==> published[i] != published[j])
    }

    /** The open sessions, as values. */
    ghost function Open(): map<string, SessionData>
      reads this`sessions, sessions.Values
    {
      map id | id in sessions :: sessions[id].Data()
    }

    /** What the ledger says beyond the user's bytes, apart from the commits that failed. */
    ghost function Drift(): int
      reads this
    {
      recorded + lost - BytesUnder(tree, root)
    }

    /** Whether the operating system, or the database, carries something out. */
    method Allowed() returns (ok: bool)
      modifies this`refusals
      ensures refusals == old(refusals) + if ok then 0 else 1
    {
      ok := *;
      if !ok {
        refusals := refusals + 1;
      }
    }

    /** Unknown strategies mean "overwrite". */
    static function StrategyOf(strategy: string): string {
      if strategy in {"overwrite", "skip", "rename"} then strategy else "overwrite"
    }

    /** Why an upload is refused: a bad request, a directory or a file in the way, or no room. */
    ghost function Refusal(relative: string, total: int, strategy: string, precheck: bool): Option<Error>
      reads this`tree
    {
      var destination := root + SlashClean(relative);
      if total < 0 || "/" <= relative || Underflows(Split(relative), 0) then Some(BadRequest)
      else if IsDirAt(tree, destination) && StrategyOf(strategy) != "rename" then Some(IsDirectory)
      else if FileOnTheWay(tree, destination) then Some(Blocked)
      else if !precheck then Some(Precheck)
      else None
    }

    /** An upload to a clean name is accepted over a file; in the way are only a collection, and a file above. */
    lemma OrdinaryUpload(n: Name, total: int, strategy: string)
      requires IsTree(tree) && IsClean(n) && n != [] && total >= 0
      ensures var (destination, refusal) := (root + n, Refusal(Join(n)[1..], total, strategy, true));
              && (destination in tree && tree[destination].File? ==> refusal.None?)
              && (IsDirAt(tree, destination) ==> (refusal.None? <==> strategy == "rename"))
              && (destination !in tree ==>
                    (refusal.None? <==> !exists q :: q < destination && q in tree && tree[q].File?))
    {
      hide IsTree, SlashClean, Underflows, Split, Join;
      var destination := root + n;
      RelativeRender(n);
      WayIsWalk(tree, destination);
      if q :| q < destination && q in tree && tree[q].File? {
        assert q == destination[..|q|];
        RootIsADir(tree);
        assert FileOnTheWay(tree, destination);
      }
    }

    method Create(id: string, relative: string, total: int, strategy0: string, precheck: bool, now: int)
      returns (err: Option<Error>)
      requires Valid() && id !in issued
      modifies this`sessions, this`issued
      ensures Valid()
      ensures err == Refusal(relative, total, strategy0, precheck)
      ensures err.Some? ==> Open() == old(Open())
      ensures var p := SlashClean(relative);
              var strategy := StrategyOf(strategy0);
              var replaced := if strategy == "overwrite" then SizeAt(tree, root + p) else 0;
              err.None? ==>
                && Open() == old(Open())[id := SessionData(p, total, 0, replaced, 0, strategy, now, None)]
                && total >= 0 && precheck && !Underflows(Split(relative), 0)
                && (IsDirAt(tree, root + p) ==> strategy == "rename")
      ensures published == old(published) && old(issued) <= issued
      ensures fresh(sessions.Values - old(sessions.Values))
    {
      hide IsTree, WalkError, SlashClean, Split, Climbs, Underflows, Consistent, FileOnTheWay;
      if total < 0 {
        return Some(BadRequest);
      }
      CleanRelative(relative);
      if (relative != "" && relative[0] == '/') || Climbs(Split(relative), []).0 > 0 {
        return Some(BadRequest);
      }
      var p := Climbs(Split(relative), []).1;
      var strategy := strategy0;
      if strategy != "overwrite" && strategy != "skip" && strategy != "rename" {
        strategy := "overwrite";
      }
      var destination := root + p;
      WayIsWalk(tree, destination);
      var previousSize := 0;
      if destination in tree {
        if tree[destination].Dir? && strategy != "rename" {
          return Some(IsDirectory);
        }
        if strategy == "overwrite" && tree[destination].File? {
          previousSize := Size(tree[destination]);
        }
      } else if WalkError(tree, destination, 0) == Some(Invalid) {
        return Some(Blocked);
      }
      if !precheck {
        return Some(Precheck);
      }
      var s := new Session(p, total, previousSize, strategy, now);
      NewIsConsistent(s.Data());
      Register(id, s);
      return None;
    }

    lemma NewIsConsistent(s: SessionData)
      requires s.total >= 0 && s.received == 0 && s.next == 0 && s.payload == None && s.previousSize >= 0
      requires s.strategy in {"overwrite", "skip", "rename"} && (s.strategy != "overwrite" ==> s.previousSize == 0)
      ensures Consistent(s)
    {}

    method Register(id: string, s: Session)
      requires Valid() && id !in issued && Consistent(s.Data()) && s !in sessions.Values
      modifies this`sessions, this`issued
      ensures Valid() && Open() == old(Open())[id := s.Data()] && sessions == old(sessions)[id := s]
      ensures published == old(published) && old(issued) <= issued
    {
      hide Grounded, Consistent;
      sessions := sessions[id := s];
      issued := issued + {id};
    }

    /** A session ends. */
    method Drop(id: string)
      requires Valid() && id in sessions
      modifies this`sessions
      ensures Valid() && sessions == old(sessions) - {id} && Open() == old(Open()) - {id}
    {
      hide Grounded, Consistent;
      sessions := sessions - {id};
    }

    method Chunk(id: string, n: int, body: seq<bv8>) returns (err: Option<Error>)
      requires Valid()
      modifies this`sessions, sessions.Values`received, sessions.Values`next, sessions.Values`payload
      ensures Valid()
      ensures if id !in old(sessions) then err == Some(OutOfOrder) && Open() == old(Open())
              else var (e, s) := AcceptChunk(old(Open())[id], n, body);
                   err == e && Open() == if s.Some? then old(Open())[id := s.value] else old(Open()) - {id}
    {
      if id !in sessions {
        return Some(OutOfOrder);
      }
      var s := sessions[id];
      if n != s.next {
        return Some(OutOfOrder);
      }
      var remaining := s.total - s.received;
      if remaining < 0 {
        assert false;
      }
      var written := if |body| <= remaining then |body| else remaining + 1;
      if written > remaining {
        Drop(id);
        return Some(TooLarge);
      }
      assert body[..written] == body;
      Append(id, s, body);
      return None;
    }

    method Append(id: string, s: Session, body: seq<bv8>)
      requires Valid() && id in sessions && s == sessions[id] && s.received + |body| <= s.total
      modifies s`received, s`next, s`payload
      ensures Valid()
      ensures Open() == old(Open())[id := AcceptChunk(old(s.Data()), old(s.next), body).1.value]
    {
      hide Grounded, Consistent, AcceptChunk, Stored;
      assert Consistent(s.Data());
      AcceptsWhole(s.Data(), body);
      s.payload := Some(Stored(s.Data()) + body);
      s.received := s.received + |body|;
      s.next := s.next + 1;
    }

    static lemma AcceptsWhole(s: SessionData, body: seq<bv8>)
      requires Consistent(s) && s.received + |body| <= s.total
      ensures var s' := s.(received := s.received + |body|, next := s.next + 1, payload := Some(Stored(s) + body));
              AcceptChunk(s, s.next, body) == (None, Some(s')) && Consistent(s')
    {}

    /** The session is over whatever happens; its bytes are published, once, only if all of them have come. */
    method Complete(id: string) returns (err: Option<Error>, destination: Name, ghost done: bool)
      requires Valid()
      modifies this`sessions, this`tree, this`recorded, this`lost, this`refusals, this`published
      ensures Valid() && refusals >= old(refusals)
      ensures id in old(sessions) && refusals == old(refusals) ==>
        var s := old(Open())[id];
        && (done <==> Publishable(old(tree), root, s))
        && (err.None? <==>
              done || (s.received == s.total && s.strategy == "skip" && root + s.relative in old(tree)))
      ensures err == Some(SizeMismatch) <==> id in old(sessions) && old(Open())[id].received != old(Open())[id].total
      ensures id !in old(sessions) ==> err == Some(Unknown) && !done && sessions == old(sessions)
      ensures id in old(sessions) ==> Open() == old(Open()) - {id}
      ensures !done ==>
        OnlyDirsAdded(old(tree), tree) && recorded == old(recorded) && lost == old(lost) && Drift() == old(Drift()) &&
          published == old(published)
      ensures done ==>
        && id in old(sessions) && published == old(published) + [id]
        && Finished(old(tree), old(Drift()), old(Open())[id], destination)
      ensures err.None? && !done ==> id in old(sessions) && root + old(Open())[id].relative in old(tree)
      ensures Completes(if id in old(sessions) then Some(old(Open())[id]) else None, done, err.None?)
    {
      hide Grounded, Consistent, BytesUnder, MkdirAll;
      destination, done := [], false;
      if id !in sessions {
        return Some(Unknown), destination, false;
      }
      var s := sessions[id].Data();
      assert Consistent(s);
      NotYetPublished(id);
      Drop(id);
      if s.received != s.total {
        return Some(SizeMismatch), destination, false;
      }
      err, destination, done := Publish(id, s);
    }

    lemma NotYetPublished(id: string)
      requires Recorded() && id in sessions
      ensures id in issued && forall i :: 0 <= i < |published| ==> published[i] != id
    {}

    /**
     What a publication amounts to; the drift changes by what was there less what was there when the
     session began.
     */
    ghost predicate Finished(t: Tree, drift: int, s: SessionData, destination: Name)
      reads this
    {
      && s.received == s.total && Replaced(t, tree, root, s, destination)
      && Drift() == drift + Excess(t, root, s, destination)
    }

    method Publish(ghost id: string, s: SessionData) returns (err: Option<Error>, destination: Name, ghost done: bool)
      requires Valid() && Consistent(s) && s.received == s.total
      requires id in issued && id !in sessions && forall i :: 0 <= i < |published| ==> published[i] != id
      modifies this`tree, this`recorded, this`lost, this`refusals, this`published
      ensures Valid() && refusals >= old(refusals)
      ensures refusals == old(refusals) ==>
        && (done <==> Publishable(old(tree), root, s))
        && (err.None? <==> done || (s.strategy == "skip" && root + s.relative in old(tree)))
      ensures err != Some(SizeMismatch)
      ensures !done ==>
        OnlyDirsAdded(old(tree), tree) && recorded == old(recorded) && lost == old(lost) && Drift() == old(Drift()) &&
          published == old(published)
      ensures done ==> published == old(published) + [id] && Finished(old(tree), old(Drift()), s, destination)
      ensures err.None? && !done ==> s.strategy == "skip" && root + s.relative in old(tree)
    {
      hide BytesUnder, Separate, Collecting, OnlyDirsAdded, Replaced, Chosen, IsTree, Size,
        FileOnTheWay;
      done := false;
      WayIsWalk(tree, root + s.relative);
      var skip;
      err, destination, skip := ChooseDestination(s);
      if err.Some? || skip {
        return err, destination, false;
      }

      hide Publishable;
      ghost var before := tree;
      PlaceIsFree(old(tree), before, root, s, destination);
      err, done := PutInPlace(id, s, destination);
      if done {
        PutAfterDirs(old(tree), before, tree, root, s, destination);
      }
    }

    /** Makes the directories and settles the name. */
    method ChooseDestination(s: SessionData) returns (err: Option<Error>, destination: Name, skip: bool)
      requires Grounded()
      modifies this`tree, this`refusals
      ensures refusals >= old(refusals) && err != Some(SizeMismatch)
      ensures refusals == old(refusals) ==> (err.Some? <==> FileOnTheWay(old(tree), root + s.relative))
      ensures !skip ==> !(s.strategy == "skip" && root + s.relative in old(tree)) || err.Some?
      ensures Grounded() && OnlyDirsAdded(old(tree), tree) && BytesUnder(tree, root) == old(BytesUnder(tree, root))
      ensures err.Some? ==> !skip
      ensures skip ==> s.strategy == "skip" && root + s.relative in old(tree)
      ensures err.None? && !skip ==>
        && Chosen(old(tree), root + s.relative, s.strategy, destination) &&
          (s.strategy in {"skip", "rename"} ==> destination !in old(tree))
        && destination != [] && IsDirAt(tree, Parent(destination)) &&
          (destination in tree <==> destination in old(tree))
    {
      hide BytesUnder, MkdirAll, IsTree;
      destination := root + s.relative;
      var made := MkdirAll(tree, Parent(destination));
      MkdirAllKeeps(tree, Parent(destination), root);
      ParentNotBelow(destination);
      RootStays(tree, made);
      FileInTheWay(tree, Parent(destination));
      SameWay(tree, destination);
      var ok := Allowed();
      if made.None? || !ok {
        return Some(Blocked), [], false;
      }
      tree := made.value;
      if destination in tree {
        if s.strategy == "skip" {
          return None, destination, true;
        }
        if s.strategy == "rename" {
          var i;
          destination, i := UniqueName(tree, destination);
        }
      }
      return None, destination, false;
    }

    /** Renames the temporary file and commits the difference. */
    method PutInPlace(ghost id: string, s: SessionData, destination: Name)
      returns (err: Option<Error>, ghost done: bool)
      requires Grounded() && Recorded() && Consistent(s) && s.received == s.total
      requires destination != [] && IsDirAt(tree, Parent(destination))
      requires id in issued && id !in sessions && forall i :: 0 <= i < |published| ==> published[i] != id
      modifies this`tree, this`recorded, this`lost, this`refusals, this`published
      ensures Grounded() && Recorded() && refusals >= old(refusals) && err != Some(SizeMismatch)
      ensures refusals == old(refusals) ==>
        (done <==> s.payload.Some? && !IsDirAt(old(tree), destination)) && (err.None? <==> done)
      ensures !done ==>
        && err.Some? && tree == old(tree) && recorded == old(recorded) && lost == old(lost)
        && published == old(published)
      ensures done ==>
        && s.payload.Some? && !IsDirAt(old(tree), destination) && published == old(published) + [id]
        && tree == old(tree)[destination := File(384, s.payload.value)]
        && Drift() == old(Drift()) + Excess(old(tree), root, s, destination)
    {
      hide BytesUnder, Size, IsTree;
      done := false;
      var ok := Allowed();
      if s.payload.None? || IsDirAt(tree, destination) || !ok {
        return Some(Blocked), false;
      }
      UnderUpdate(tree, root, destination, File(384, s.payload.value));
      EntryKeepsTree(tree, destination, File(384, s.payload.value));
      SizeOfFile(384, s.payload.value);
      tree := tree[destination := File(384, s.payload.value)];
      published, done := published + [id], true;
      var delta := s.received - s.previousSize;
      ok := Allowed();
      if !ok {
        lost := lost + delta;
        return Some(CommitFailed), true;
      }
      recorded := recorded + delta;
      return None, true;
    }

    lemma PlaceIsFree(t: Tree, t1: Tree, root: Name, s: SessionData, destination: Name)
      requires OnlyDirsAdded(t, t1) && (destination in t1 <==> destination in t) && Consistent(s)
      requires Chosen(t, root + s.relative, s.strategy, destination) && s.received == s.total
      requires s.strategy in {"skip", "rename"} ==> destination !in t
      requires root + s.relative in t ==> s.strategy != "skip"
      ensures Publishable(t, root, s) <==>
        s.payload.Some? && !FileOnTheWay(t, root + s.relative) && !IsDirAt(t1, destination)
    {
      hide FileOnTheWay;
    }

    lemma PutAfterDirs(t: Tree, t1: Tree, t': Tree, root: Name, s: SessionData, destination: Name)
      requires OnlyDirsAdded(t, t1) && root != [] && s.payload.Some? &&
        t' == t1[destination := File(384, s.payload.value)]
      requires !IsDirAt(t1, destination) && (destination in t1 <==> destination in t)
      requires Consistent(s) && (s.strategy in {"skip", "rename"} ==> destination !in t)
      requires Chosen(t, root + s.relative, s.strategy, destination)
      ensures Replaced(t, t', root, s, destination) &&
        Excess(t1, root, s, destination) == Excess(t, root, s, destination)
    {
      hide Chosen;
    }

    lemma SizeOfFile(perm: nat, data: seq<bv8>)
      ensures Size(File(perm, data)) == |data|
    {}

    lemma SameWay(t: Tree, p: Name)
      requires p != []
      ensures FileOnTheWay(t, p) <==> exists k :: 0 < k <= |Parent(p)| && Parent(p)[..k] in t && t[Parent(p)[..k]].File?
    {
      assert forall k :: 0 <= k <= |Parent(p)| ==> Parent(p)[..k] == p[..k];
    }

    lemma ParentNotBelow(p: Name)
      requires p != []
      ensures !(p <= Parent(p))
      ensures forall i: nat :: !(Candidate(p, i) <= Parent(p)) && Parent(Candidate(p, i)) == Parent(p)
    {}

    lemma RootStays(t: Tree, made: Option<Tree>)
      requires root != [] && IsDirAt(t, Parent(root)) && (made.Some? ==> OnlyDirsAdded(t, made.value))
      ensures made.Some? ==> IsDirAt(made.value, Parent(root))
    {}

    method Cleanup(cut: int)
      requires Valid()
      modifies this`sessions
      ensures Valid()
      ensures Open() == map id | id in old(Open()) && old(Open())[id].created >= cut :: old(Open())[id]
    {
      hide *;
      var left := sessions.Keys;
      ghost var all := Open();
      OpenKeys();
      RecentAtFirst(all, cut);
      while left != {}
        invariant Valid() && left <= sessions.Keys && left <= all.Keys
        invariant Open() == Recent(all, left, cut)
        decreases left
      {
        var id :| id in left;
        RecentStep(all, left, cut, id);
        OpenKeys();
        left := left - {id};
        if sessions[id].created < cut {
          Drop(id);
        }
      }
      RecentAtLast(all, cut);
    }

    lemma UploadAccepted(n: Name, total: int, strategy: string)
      requires Valid() && IsClean(n) && n != [] && total >= 0 && root + n in tree && tree[root + n].File?
      ensures Refusal(Join(n)[1..], total, strategy, true).None?
    {
      hide IsTree, Join;
      OrdinaryUpload(n, total, strategy);
    }

    lemma TreeIsTree()
      requires Valid()
      ensures IsTree(tree) && root != []
    {}

    lemma RootIsClear()
      requires Valid() && root in tree
      ensures !FileOnTheWay(tree, root)
    {
      WayIsWalk(tree, root);
    }

    lemma OpenKeys()
      ensures Open().Keys == sessions.Keys
      ensures forall id :: id in sessions ==> Open()[id].created == sessions[id].created
    {}
  }

  /** A renaming upload to the root itself is accepted. */
  method CreateAtTheRoot(m: Manager, id: string, total: nat)
    requires m.Valid() && id !in m.issued && IsDirAt(m.tree, m.root)
    modifies m`sessions, m`issued
    ensures m.Valid() && fresh(m.sessions.Values - old(m.sessions.Values))
    ensures id in m.Open() && m.Open()[id] == SessionData([], total, 0, 0, 0, "rename", 0, None)
  {
    hide IsTree, m.Valid;
    EmptyRelative();
    m.RootIsClear();
    assert m.root + [] == m.root;
    var err := m.Create(id, "", total, "rename", true, 0);
  }

  /** If it is published, the ledger has counted bytes that are not below the root. */
  method UploadToTheRoot(m: Manager, id: string, data: seq<bv8>) returns (destination: Name, ghost done: bool)
    requires m.Valid() && id !in m.issued && IsDirAt(m.tree, m.root)
    modifies m, m.sessions.Values
    ensures m.Valid()
    ensures done ==> !(m.root <= destination) && destination in m.tree && m.tree[destination] == File(384, data)
    ensures done ==> m.Drift() == old(m.Drift()) + |data|
  {
    hide IsTree, BytesUnder, Replaced, m.Valid;
    CreateAtTheRoot(m, id, |data|);
    ghost var before := m.tree;
    assert [] + data == data;
    var err := m.Chunk(id, 0, data);
    ghost var s := m.Open()[id];
    err, destination, done := m.Complete(id);
    if done {
      PublishedData(before, m.tree, m.root, s, destination);
      BesideTheRoot(before, m.tree, m.root, s, destination);
    }
  }

  lemma PublishedData(t: Tree, t': Tree, root: Name, s: SessionData, destination: Name)
    requires Replaced(t, t', root, s, destination)
    ensures s.payload.Some? && destination in t' && t'[destination] == File(384, s.payload.value)
  {}

  /** An upload in one chunk, up to its completion; the session has the strategy asked for, or overwrites. */
  method OneChunk(m: Manager, id: string, n: Name, data: seq<bv8>, strategy: string)
    requires m.Valid() && id !in m.issued && IsClean(n) && n != []
    requires m.root + n in m.tree && m.tree[m.root + n].File?
    modifies m`sessions, m`issued, m.sessions.Values
    ensures m.Valid() && id in m.Open()
    ensures var s := m.Open()[id];
            && s.relative == n && s.received == s.total && s.payload == Some(data)
            && s.strategy == if strategy == "skip" || strategy == "rename" then strategy else "overwrite"
  {
    hide IsTree, m.Valid, Join, Split, SlashClean, Underflows, m.Refusal;
    RelativeRender(n);
    m.UploadAccepted(n, |data|, strategy);
    assert [] + data == data;
    var err := m.Create(id, Join(n)[1..], |data|, strategy, true, 0);
    err := m.Chunk(id, 0, data);
  }

  /** What has become of a file when an upload over it has been completed. */
  ghost predicate Outcome(t: Tree, t': Tree, p: Name, data: seq<bv8>, strategy: string, destination: Name)
    requires p != []
  {
    && p in t && p in t'
    && (strategy == "skip" ==> OnlyDirsAdded(t, t'))
    && (strategy == "rename" ==>
          && t'[p] == t[p] && destination in t' && t'[destination] == File(384, data)
          && exists i: nat :: FirstFree(t, p, i) && destination == Candidate(p, i))
    && (strategy != "skip" && strategy != "rename" ==> t'[p] == File(384, data))
  }

  lemma CompletedOver(t: Tree, t': Tree, root: Name, s: SessionData, strategy: string, destination: Name, done: bool)
    requires IsTree(t) && root != [] && root + s.relative in t && t[root + s.relative].File?
    requires s.payload.Some? && s.received == s.total
    requires s.strategy == if strategy == "skip" || strategy == "rename" then strategy else "overwrite"
    requires done <==> Publishable(t, root, s)
    requires if done then Replaced(t, t', root, s, destination) else OnlyDirsAdded(t, t')
    ensures Outcome(t, t', root + s.relative, s.payload.value, strategy, destination)
  {
    hide FirstFree, IsTree, FileOnTheWay;
    WayIsWalk(t, root + s.relative);
  }

  /**
   An upload in one chunk over a file that is there, when nothing is refused: "skip" keeps the
   file, "rename" keeps it and adds a new one, and anything else replaces it.
   */
  method UploadOver(m: Manager, id: string, n: Name, data: seq<bv8>, strategy: string)
    returns (err: Option<Error>, destination: Name)
    requires m.Valid() && id !in m.issued && IsClean(n) && n != []
    requires m.root + n in m.tree && m.tree[m.root + n].File?
    modifies m, m.sessions.Values
    ensures m.Valid() && m.refusals >= old(m.refusals)
    ensures m.refusals == old(m.refusals) ==>
      err.None? && Outcome(old(m.tree), m.tree, m.root + n, data, strategy, destination)
  {
    hide IsTree, BytesUnder, m.Valid, Outcome, Publishable, Replaced, OnlyDirsAdded;
    m.TreeIsTree();
    OneChunk(m, id, n, data, strategy);
    ghost var before, s := m.tree, m.Open()[id];
    ghost var done;
    err, destination, done := m.Complete(id);
    if m.refusals == old(m.refusals) {
      CompletedOver(before, m.tree, m.root, s, strategy, destination, done);
      SkippedOrDone(before, m.root, s);
    }
  }

  lemma SkippedOrDone(t: Tree, root: Name, s: SessionData)
    requires IsTree(t) && root + s.relative in t && t[root + s.relative].File? && s.payload.Some?
    requires s.received == s.total && s.strategy in {"overwrite", "rename", "skip"}
    ensures Publishable(t, root, s) <==> s.strategy != "skip"
  {
    hide FileOnTheWay, IsTree;
    WayIsWalk(t, root + s.relative);
  }

  lemma EmptyRelative()
    ensures SlashClean("") == [] && !Underflows(Split(""), 0)
  {}

  /** The sessions not yet looked at, and those that are recent enough. */
  function Recent(all: map<string, SessionData>, left: set<string>, cut: int): map<string, SessionData> {
    map id | id in all && (id in left || all[id].created >= cut) :: all[id]
  }

  lemma RecentAtFirst(all: map<string, SessionData>, cut: int)
    ensures Recent(all, all.Keys, cut) == all
  {}

  lemma RecentAtLast(all: map<string, SessionData>, cut: int)
    ensures Recent(all, {}, cut) == map id | id in all && all[id].created >= cut :: all[id]
  {}

  lemma RecentStep(all: map<string, SessionData>, left: set<string>, cut: int, id: string)
    requires id in left && id in all
    ensures id in Recent(all, left, cut) && Recent(all, left, cut)[id] == all[id]
    ensures Recent(all, left - {id}, cut) == if all[id].created < cut then Recent(all, left, cut) - {id}
      else Recent(all, left, cut)
  {}
}
