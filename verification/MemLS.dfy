/**
 The in-memory lock system: a name tree with reference counts, a token table, and a
 min-heap of expiry times in which every node records its own slot.
 */
module MemoryLocks {
  import opened Paths
  import opened LockSpec
  import opened HeapOrder
  import opened Wrappers
  import Decimal

  class Node {
    var details: LockDetails
    var token: string
    var refCount: int
    var expiry: int
    var byExpiryIndex: int
    var held: bool

    constructor (name: Name)
      ensures details.root == name && token == "" && refCount == 0 && byExpiryIndex == -1 && !held
    {
      details := LockDetails(name, 0, "", false);
      token, refCount, expiry, byExpiryIndex, held := "", 0, 0, -1, false;
    }
  }

  /** The locked roots at or below `n`. */
  function Below(roots: set<Name>, n: Name): set<Name> {
    set r | r in roots && n <= r
  }

  function RootsOf(ls: Locks): set<Name> {
    set t | t in ls :: ls[t].details.root
  }

  /** Every lock is on a canonical name. */
  predicate CleanRoots(ls: Locks) {
    forall t :: t in ls ==> IsClean(ls[t].details.root)
  }

  lemma RootsWith(ls: Locks, token: string, l: Lock)
    requires token !in ls
    ensures RootsOf(ls[token := l]) == RootsOf(ls) + {l.details.root}
  {
    forall r | r in RootsOf(ls)
      ensures r in RootsOf(ls[token := l])
    {
      var t :| t in ls && ls[t].details.root == r;
      assert ls[token := l][t].details.root == r;
    }
    assert ls[token := l][token].details.root in RootsOf(ls[token := l]);
  }

  lemma RootsSame(ls: Locks, token: string, l: Lock)
    requires token in ls && l.details.root == ls[token].details.root
    ensures RootsOf(ls[token := l]) == RootsOf(ls)
  {
    forall r | r in RootsOf(ls)
      ensures r in RootsOf(ls[token := l])
    {
      var t :| t in ls && ls[t].details.root == r;
      assert ls[token := l][t].details.root == r;
    }
  }

  lemma RootsWithout(ls: Locks, token: string)
    requires token in ls && forall t :: t in ls && t != token ==> ls[t].details.root != ls[token].details.root
    ensures ls[token].details.root !in RootsOf(ls - {token})
    ensures RootsOf(ls) == RootsOf(ls - {token}) + {ls[token].details.root}
  {
    forall r | r in RootsOf(ls)
      ensures r in RootsOf(ls - {token}) + {ls[token].details.root}
    {
      var t :| t in ls && ls[t].details.root == r;
      assert t == token || t in ls - {token};
    }
  }

  /** The tokens of the locks with their root at or below `n`. */
  function TokensBelow(ls: Locks, n: Name): set<string> {
    set t | t in ls && n <= ls[t].details.root
  }

  predicate DistinctRoots(ls: Locks) {
    forall t, u :: t in ls && u in ls && t != u ==> ls[t].details.root != ls[u].details.root
  }

  lemma TokensBelowWithout(ls: Locks, t: string, n: Name)
    requires t in ls
    ensures |TokensBelow(ls, n)| == |TokensBelow(ls - {t}, n)| + if n <= ls[t].details.root then 1 else 0
  {
    assert TokensBelow(ls, n) == TokensBelow(ls - {t}, n) + if n <= ls[t].details.root then {t} else {};
  }

  lemma {:induction false} CountTokensOrRoots(ls: Locks, n: Name)
    requires DistinctRoots(ls)
    ensures |Below(RootsOf(ls), n)| == |TokensBelow(ls, n)|
    decreases |ls|
  {
    if ls == map[] {
      assert Below(RootsOf(ls), n) == {} && TokensBelow(ls, n) == {};
    } else {
      var t :| t in ls;
      var rest := ls - {t};
      hide RootsOf, Below, TokensBelow;
      CountTokensOrRoots(rest, n);
      RootsWithout(ls, t);
      BelowAdd(RootsOf(rest), ls[t].details.root, n);
      TokensBelowWithout(ls, t, n);
    }
  }

  lemma BelowAdd(roots: set<Name>, r: Name, n: Name)
    requires r !in roots
    ensures Below(roots + {r}, n) == if n <= r then Below(roots, n) + {r} else Below(roots, n)
    ensures |Below(roots + {r}, n)| == |Below(roots, n)| + if n <= r then 1 else 0
  {
    assert Below(roots + {r}, n) == if n <= r then Below(roots, n) + {r} else Below(roots, n);
  }

  ghost predicate SameElements(s: seq<Node>, s': seq<Node>) {
    (forall i :: 0 <= i < |s| ==> s[i] in s') && (forall i :: 0 <= i < |s'| ==> s'[i] in s)
  }

  lemma SwapKeepsElements(s: seq<Node>, i: nat, j: nat)
    requires i < |s| && j < |s|
    ensures SameElements(Swapped(s, i, j), s)
  {
    var s' := Swapped(s, i, j);
    forall k | 0 <= k < |s|
      ensures s[k] in s'
    {
      assert s'[if k == i then j else if k == j then i else k] == s[k];
    }
  }

  /** The names from `name` up, as long as they have more than `len` components. */
  function Longer(name: Name, len: int): set<Name> {
    set k | 0 <= k <= |name| && len < k :: name[..k]
  }

  lemma LongerStep(name: Name, cur: Name)
    requires cur <= name
    ensures cur !in Longer(name, |cur|) && Longer(name, |cur|) + {cur} == Longer(name, |cur| - 1)
  {
    assert cur == name[..|cur|];
  }

  lemma LongerAll(name: Name)
    ensures forall n :: n in Longer(name, -1) <==> n <= name
    ensures Longer(name, |name|) == {}
  {
    forall n | n <= name
      ensures n in Longer(name, -1)
    {
      assert n == name[..|n|];
    }
  }

  /** The names from `name` up that have at most `len` components. */
  function Shorter(name: Name, len: int): set<Name> {
    set k | 0 <= k <= |name| && k <= len :: name[..k]
  }

  lemma ShorterStep(name: Name, cur: Name)
    requires cur <= name
    ensures cur in Shorter(name, |cur|) && Shorter(name, |cur|) - {cur} == Shorter(name, |cur| - 1)
  {
    assert cur == name[..|cur|];
  }

  lemma ShorterAll(name: Name)
    ensures Longer(name, -1) == Shorter(name, |name|) && Shorter(name, -1) == {}
  {}

  /** No lock conflicts whose root is `name` or above it, with more than `len` components. */
  predicate ClearAbove(ls: Locks, name: Name, zeroDepth: bool, len: int) {
    forall t :: t in ls && ls[t].details.root <= name && |ls[t].details.root| > len ==>
      !Conflicts(ls[t], name, zeroDepth)
  }

  lemma ClearStart(ls: Locks, name: Name, zeroDepth: bool)
    ensures ClearAbove(ls, name, zeroDepth, |name|)
  {}

  lemma ClearEnd(ls: Locks, name: Name, zeroDepth: bool)
    requires ClearAbove(ls, name, zeroDepth, -1)
    requires !zeroDepth ==> forall t :: t in ls ==> !(name <= ls[t].details.root)
    ensures CanLock(ls, name, zeroDepth)
  {}

  lemma ClearStep(ls: Locks, name: Name, zeroDepth: bool, cur: Name)
    requires cur <= name && ClearAbove(ls, name, zeroDepth, |cur|)
    requires forall t :: t in ls && ls[t].details.root == cur ==> !Conflicts(ls[t], name, zeroDepth)
    ensures ClearAbove(ls, name, zeroDepth, |cur| - 1)
  {
    forall t | t in ls && ls[t].details.root <= name && |ls[t].details.root| == |cur|
      ensures ls[t].details.root == cur
    {
      assert ls[t].details.root == name[..|cur|] == cur;
    }
  }

  class MemLS {
    var byName: map<Name, Node>
    var byToken: map<string, Node>
    var gen: nat
    var byExpiry: seq<Node>
    ghost var Repr: set<Node>
    ghost var locks: Locks  // the locks that exist: the abstract value
    ghost var keys: seq<int>  // the expiry times in heap order

    /** Names, tokens and nodes agree. */
    ghost predicate Linked()
      reads this`byName, this`byToken, this`Repr, Repr`details, Repr`token, Repr`held
    {
      && (forall n :: n in byName ==> byName[n] in Repr && byName[n].details.root == n)
      && (forall t :: t in byToken ==> byToken[t] in Repr && byToken[t].token == t)
      && (forall t :: t in byToken ==>
        byToken[t].details.root in byName && byName[byToken[t].details.root] == byToken[t])
      && (forall n :: n in byName && byName[n].token != "" ==>
        byName[n].token in byToken && byToken[byName[n].token] == byName[n])
      && (forall n :: n in byName && byName[n].token == "" ==> !byName[n].held)
    }

    static ghost function LockOf(x: Node): Lock
      reads x`details, x`expiry, x`held
    {
      Lock(x.details, if x.details.duration >= 0 then At(x.expiry) else Never, x.held)
    }

    ghost predicate Abstracts()
      reads this`byToken, this`locks, byToken.Values`details, byToken.Values`expiry, byToken.Values`held
    {
      && byToken.Keys == locks.Keys
      && forall t :: t in byToken ==> LockOf(byToken[t]) == locks[t]
    }

    ghost predicate TokensIssued()
      reads this`byToken, this`gen
    {
      forall t :: t in byToken ==> exists k: nat :: k <= gen && t == Decimal.Itoa(k)
    }

    // ---------- the expiry heap ----------

    ghost predicate Slots()
      reads this`byExpiry, this`keys, byExpiry`byExpiryIndex, byExpiry`expiry
    {
      && |keys| == |byExpiry|
      && forall i :: 0 <= i < |byExpiry| ==> byExpiry[i].byExpiryIndex == i && byExpiry[i].expiry == keys[i]
    }

    method Swap(i: nat, j: nat)
      requires i < |byExpiry| && j < |byExpiry| && Slots()
      modifies this`byExpiry, this`keys, byExpiry`byExpiryIndex
      ensures byExpiry == Swapped(old(byExpiry), i, j)
      ensures Slots() && SameElements(byExpiry, old(byExpiry)) && keys == Swapped(old(keys), i, j)
    {
      SwapKeepsElements(byExpiry, i, j);
      byExpiry := byExpiry[i := byExpiry[j]][j := byExpiry[i]];
      keys := Swapped(keys, i, j);
      byExpiry[i].byExpiryIndex := i;
      byExpiry[j].byExpiryIndex := j;
    }

    method SiftUp(j0: nat, ghost m: nat)
      requires j0 < m <= |byExpiry| && Slots() && OrderedBut(keys, m, j0) && Bridged(keys, m, j0)
      modifies this`byExpiry, this`keys, byExpiry`byExpiryIndex
      ensures Slots() && SameElements(byExpiry, old(byExpiry))
      ensures |byExpiry| == old(|byExpiry|) && byExpiry[m..] == old(byExpiry[m..])
      ensures OrderedBut(keys, m, -1)
    {
      var j := j0;
      while true
        invariant 0 <= j < m <= |byExpiry| && |byExpiry| == old(|byExpiry|)
        invariant Slots() && SameElements(byExpiry, old(byExpiry))
        invariant byExpiry[m..] == old(byExpiry[m..])
        invariant OrderedBut(keys, m, j) && Bridged(keys, m, j)
        decreases j
      {
        var i := if j == 0 then 0 else (j - 1) / 2;
        if i == j || !(byExpiry[j].expiry < byExpiry[i].expiry) {
          assert j > 0 ==> EdgeOk(keys, j);
          break;
        }
        SiftUpStep(keys, m, j);
        Swap(i, j);
        j := i;
      }
    }

    method SoonerChild(i: nat, n: nat) returns (j: nat)
      requires 2 * i + 1 < n <= |byExpiry| && Slots()
      ensures i < j < n && Up(j) == i && LeastChild(keys, n, i, j)
    {
      j := 2 * i + 1;
      if j + 1 < n && byExpiry[j + 1].expiry < byExpiry[j].expiry {
        j := j + 1;
      }
      LesserChild(keys, n, i, j);
    }

    method SiftDown(i0: nat, n: nat) returns (moved: bool)
      requires i0 < n <= |byExpiry| && Slots() && Sinking(keys, n, i0, i0)
      modifies this`byExpiry, this`keys, byExpiry`byExpiryIndex
      ensures Slots() && SameElements(byExpiry, old(byExpiry))
      ensures |byExpiry| == old(|byExpiry|) && byExpiry[n..] == old(byExpiry[n..])
      ensures if moved then OrderedBut(keys, n, -1) else OrderedBut(keys, n, i0) && Bridged(keys, n, i0)
    {
      var i := i0;
      while true
        invariant i0 <= i < n <= |byExpiry| && |byExpiry| == old(|byExpiry|)
        invariant Slots() && SameElements(byExpiry, old(byExpiry))
        invariant byExpiry[n..] == old(byExpiry[n..])
        invariant Sinking(keys, n, i0, i)
        decreases n - i
      {
        if 2 * i + 1 >= n {
          SiftDownStop(keys, n, i0, i, i);
          break;
        }
        var j := SoonerChild(i, n);
        if !(byExpiry[j].expiry < byExpiry[i].expiry) {
          SiftDownStop(keys, n, i0, i, j);
          break;
        }
        SiftDownStep(keys, n, i0, i, j);
        Swap(i, j);
        i := j;
      }
      moved := i > i0;
    }

    ghost predicate Heap()
      reads this`byExpiry, this`keys, byExpiry`byExpiryIndex, byExpiry`expiry
    {
      Slots() && OrderedBut(keys, |byExpiry|, -1)
    }

    method HeapPush(n: Node)
      requires Heap() && n !in byExpiry
      modifies this`byExpiry, this`keys, byExpiry`byExpiryIndex, n`byExpiryIndex
      ensures Heap() && n in byExpiry
      ensures forall i :: 0 <= i < |byExpiry| ==> byExpiry[i] == n || byExpiry[i] in old(byExpiry)
      ensures forall x :: x in old(byExpiry) ==> x in byExpiry
    {
      n.byExpiryIndex := |byExpiry|;
      byExpiry := byExpiry + [n];
      keys := keys + [n.expiry];
      AppendKey(old(keys), n.expiry);
      ghost var appended := byExpiry;
      SiftUp(|byExpiry| - 1, |byExpiry|);
      assert appended[|appended| - 1] == n;
      assert forall k :: 0 <= k < |old(byExpiry)| ==> appended[k] == old(byExpiry)[k];
    }

    method HeapRemove(i: nat)
      requires Heap() && i < |byExpiry|
      modifies this`byExpiry, this`keys, byExpiry`byExpiryIndex
      ensures Heap() && |byExpiry| == old(|byExpiry|) - 1
      ensures forall k :: 0 <= k < |byExpiry| ==> byExpiry[k] in old(byExpiry)
      ensures forall x :: x in old(byExpiry) ==> x in byExpiry || x == old(byExpiry[i])
      ensures old(byExpiry[i]) !in byExpiry && old(byExpiry[i]).byExpiryIndex == -1
    {
      hide Slots, OrderedBut;
      MoveToEnd(i);
      Pop();
    }

    /** Exchanges an entry with the last one, which then finds its place among the others. */
    method MoveToEnd(i: nat)
      requires Heap() && i < |byExpiry|
      modifies this`byExpiry, this`keys, byExpiry`byExpiryIndex
      ensures Slots() && SameElements(byExpiry, old(byExpiry)) && |byExpiry| == old(|byExpiry|)
      ensures byExpiry[|byExpiry| - 1] == old(byExpiry[i]) && OrderedBut(keys, |byExpiry| - 1, -1)
    {
      hide Sinking, OrderedBut, Bridged, Slots;
      var n := |byExpiry| - 1;
      SameSize();
      OrderedPrefix(keys);
      SameSelf(byExpiry);
      if n != i {
        MoveLast(keys, i);
        Swap(i, n);
        ghost var swapped := byExpiry;
        var moved := SiftDown(i, n);
        if !moved {
          SiftUp(i, n);
        }
        assert byExpiry[n..][0] == swapped[n..][0];
      }
    }

    lemma SameSize()
      requires Slots()
      ensures |keys| == |byExpiry|
    {}

    static lemma SameSelf(s: seq<Node>)
      ensures SameElements(s, s)
    {}

    method Pop()
      requires |byExpiry| > 0 && Slots() && OrderedBut(keys, |byExpiry| - 1, -1)
      modifies this`byExpiry, this`keys, byExpiry`byExpiryIndex
      ensures Heap() && byExpiry == old(byExpiry[..|byExpiry| - 1])
      ensures old(byExpiry[|byExpiry| - 1]) !in byExpiry && old(byExpiry[|byExpiry| - 1]).byExpiryIndex == -1
    {
      var i := |byExpiry| - 1;
      byExpiry[i].byExpiryIndex := -1;
      byExpiry, keys := byExpiry[..i], keys[..i];
      DropLastKey(old(keys));
    }

    // ---------- the invariant ----------

    static ghost predicate Timed(x: Node)
      reads x`held, x`details
    {
      !x.held && x.details.duration >= 0
    }

    /** The heap and the locks agree, except perhaps about `n`; a node outside the heap knows it. */
    ghost predicate ScheduledBut(n: Node?)
      reads this`byExpiry, this`keys, byExpiry`byExpiryIndex, byExpiry`expiry
      reads this`byToken, this`Repr
      reads byExpiry`token, byExpiry`held, byExpiry`details, Repr`held, Repr`details, Repr`byExpiryIndex
    {
      && Heap()
      && (forall i :: 0 <= i < |byExpiry| ==> byExpiry[i] in Repr)
      && (forall i :: 0 <= i < |byExpiry| && byExpiry[i] != n ==>
            byExpiry[i].token in byToken && byToken[byExpiry[i].token] == byExpiry[i] && Timed(byExpiry[i]))
      && (forall t :: t in byToken && byToken[t] in Repr && byToken[t] != n && Timed(byToken[t]) ==>
        byToken[t] in byExpiry)
      && (forall x :: x in Repr && x !in byExpiry ==> x.byExpiryIndex == -1)
    }

    /** The heap holds exactly the locks that can expire. */
    ghost predicate Scheduled()
      reads this`byExpiry, this`keys, byExpiry`byExpiryIndex, byExpiry`expiry
      reads this`byToken, this`Repr
      reads byExpiry`token, byExpiry`held, byExpiry`details, Repr`held, Repr`details, Repr`byExpiryIndex
    {
      ScheduledBut(null)
    }

    ghost predicate Valid()
      reads this, Repr, byExpiry
    {
      Linked() && Abstracts() && Counts(RootsOf(locks)) && TokensIssued() && Scheduled() && CleanRoots(locks)
    }

    constructor (now: nat)
      ensures Valid() && fresh(Repr) && locks == map[]
    {
      byName, byToken, gen, byExpiry := map[], map[], now, [];
      keys, Repr, locks := [], {}, map[];
    }

    // ---------- the name tree ----------

    /** The names in the tree are those at or above a root, and those in `extra`. */
    ghost predicate Present(roots: set<Name>, extra: set<Name>)
      reads this`byName
    {
      forall n :: n in byName <==> Below(roots, n) != {} || n in extra
    }

    /** Each node counts the roots below it, and one more if its name is in `extra`. */
    ghost predicate Tallied(roots: set<Name>, extra: set<Name>)
      reads this`byName, this`Repr, Repr`refCount
    {
      forall n :: n in byName ==>
        byName[n] in Repr && byName[n].refCount == |Below(roots, n)| + if n in extra then 1 else 0
    }

    ghost predicate CountsPlus(roots: set<Name>, extra: set<Name>)
      reads this`byName, this`Repr, Repr`refCount
    {
      Present(roots, extra) && Tallied(roots, extra)
    }

    ghost predicate Counts(roots: set<Name>)
      reads this`byName, this`Repr, Repr`refCount
    {
      CountsPlus(roots, {})
    }

    lemma CountsAtWalkStart(roots: set<Name>, name: Name)
      requires Counts(roots)
      ensures CountsPlus(roots, Longer(name, |name|))
    {
      LongerAll(name);
    }

    lemma CountsAfterWalk(roots: set<Name>, name: Name)
      requires name !in roots
      ensures CountsPlus(roots, Longer(name, -1)) <==> Counts(roots + {name})
    {
      var path := Longer(name, -1);
      LongerAll(name);
      forall n
        ensures |Below(roots + {name}, n)| == |Below(roots, n)| + if n in path then 1 else 0
        ensures Below(roots + {name}, n) != {} <==> Below(roots, n) != {} || n in path
      {
        BelowAdd(roots, name, n);
      }
    }

    twostate lemma LinkedWithNewNode(cur: Name, new n: Node)
      requires old(Linked()) && byToken == old(byToken)
      requires cur !in old(byName) && byName == old(byName)[cur := n]
      requires Repr == old(Repr) + {n} && n !in old(Repr)
      requires n.details.root == cur && n.token == "" && !n.held
      requires forall x :: x in old(Repr) ==> unchanged(x)
      ensures Linked()
    {}

    twostate lemma ScheduledWithNewNode(new n: Node)
      requires old(Scheduled()) && old(Linked())
      requires byExpiry == old(byExpiry) && keys == old(keys) && byToken == old(byToken)
      requires Repr == old(Repr) + {n} && n !in old(Repr) && n.byExpiryIndex == -1
      requires forall x :: x in old(Repr) ==> unchanged(x)
      ensures Scheduled()
    {}

    method AddNode(cur: Name, ghost roots: set<Name>, ghost extra: set<Name>)
      requires Linked() && Scheduled() && CountsPlus(roots, extra) && cur !in byName
      modifies this`byName, this`Repr
      ensures Linked() && Scheduled() && Present(roots, extra + {cur}) && Tallied(roots, extra)
      ensures cur in byName && byName == old(byName)[cur := byName[cur]]
      ensures Repr == old(Repr) + {byName[cur]} && fresh(Repr - old(Repr))
    {
      hide Scheduled, Linked;
      LinkedRepr();
      var n := new Node(cur);
      byName := byName[cur := n];
      Repr := Repr + {n};
      LinkedWithNewNode(cur, n);
      ScheduledWithNewNode(n);
    }

    lemma LinkedRepr()
      requires Linked()
      ensures forall n :: n in byName ==> byName[n] in Repr
    {}

    lemma NodesDistinct(cur: Name)
      requires Linked() && cur in byName
      ensures byName[cur] in Repr && forall n :: n in byName && n != cur ==>
        byName[n] in Repr && byName[n] != byName[cur]
    {}

    method CountOne(cur: Name, ghost roots: set<Name>, ghost extra: set<Name>)
      requires Linked() && Scheduled() && CountsPlus(roots, extra) && cur !in extra
      modifies this`byName, this`Repr, Repr`refCount
      ensures Linked() && Scheduled() && CountsPlus(roots, extra + {cur})
      ensures cur in byName && byName == old(byName)[cur := byName[cur]]
      ensures Repr == old(Repr) + {byName[cur]} && fresh(Repr - old(Repr))
    {
      hide Linked, Scheduled;
      if cur !in byName {
        AddNode(cur, roots, extra);
      }
      NodesDistinct(cur);
      byName[cur].refCount := byName[cur].refCount + 1;
    }

    method CountRoot(name: Name, ghost roots: set<Name>) returns (ret: Node)
      requires Linked() && Scheduled() && Counts(roots) && name !in roots
      modifies this`byName, this`Repr, Repr`refCount
      ensures Linked() && Scheduled() && Counts(roots + {name})
      ensures fresh(Repr - old(Repr)) && old(Repr) <= Repr
      ensures name in byName && ret == byName[name] && ret in Repr
    {
      hide Longer, CountsPlus, Linked, Scheduled;
      CountsAtWalkStart(roots, name);
      var cur := name;
      var first := true;
      var n: Node? := null;
      while true
        invariant cur <= name && (first <==> cur == name)
        invariant Linked() && Scheduled() && CountsPlus(roots, Longer(name, |cur|))
        invariant fresh(Repr - old(Repr)) && old(Repr) <= Repr
        invariant !first ==> name in byName && n == byName[name]
        decreases |cur|
      {
        LongerStep(name, cur);
        CountOne(cur, roots, Longer(name, |cur|));
        if first {
          n := byName[cur];
        }
        if cur == [] {
          break;
        }
        cur := Parent(cur);
        first := false;
      }
      CountsAfterWalk(roots, name);
      LinkedRepr();
      return n;
    }

    ghost predicate RootsIn(roots: set<Name>)
      reads this`byToken, byToken.Values`details
    {
      forall t :: t in byToken ==> byToken[t].details.root in roots
    }

    method UncountOne(cur: Name, ghost roots: set<Name>, ghost extra: set<Name>)
      requires Linked() && RootsIn(roots) && CountsPlus(roots, extra) && cur in extra
      modifies this`byName, Repr`refCount
      ensures Linked() && RootsIn(roots) && CountsPlus(roots, extra - {cur})
    {
      hide Linked;
      NodesDistinct(cur);
      var x := byName[cur];
      x.refCount := x.refCount - 1;
      if x.refCount == 0 {
        DropNode(cur, roots, extra);
      }
    }

    method DropNode(cur: Name, ghost roots: set<Name>, ghost extra: set<Name>)
      requires Linked() && RootsIn(roots) && Present(roots, extra) && Tallied(roots, extra - {cur})
      requires cur in extra && cur in byName && byName[cur].refCount == 0
      modifies this`byName
      ensures Linked() && CountsPlus(roots, extra - {cur})
    {
      NoRootAt(roots, cur);
      byName := byName - {cur};
    }

    lemma NoRootAt(roots: set<Name>, cur: Name)
      ensures Below(roots, cur) == {} ==> cur !in roots
      ensures |Below(roots, cur)| == 0 ==> Below(roots, cur) == {}
    {
      if cur in roots {
        assert cur in Below(roots, cur);
      }
    }

    method UncountRoot(name: Name, ghost roots: set<Name>)
      requires Linked() && RootsIn(roots) && Counts(roots + {name}) && name !in roots
      modifies this`byName, Repr`refCount
      ensures Linked() && Counts(roots)
    {
      hide Longer, Shorter, CountsPlus, Linked;
      CountsAfterWalk(roots, name);
      ShorterAll(name);
      var cur := name;
      while true
        invariant cur <= name
        invariant Linked() && RootsIn(roots) && CountsPlus(roots, Shorter(name, |cur|))
        decreases |cur|
      {
        ShorterStep(name, cur);
        UncountOne(cur, roots, Shorter(name, |cur|));
        if cur == [] {
          break;
        }
        cur := Parent(cur);
      }
    }

    // ---------- taking a node out of the heap and putting it back ----------

    method Unschedule(n: Node)
      requires ScheduledBut(n) && n in Repr
      modifies this`byExpiry, this`keys, byExpiry`byExpiryIndex
      ensures ScheduledBut(n) && n !in byExpiry
    {
      if n.byExpiryIndex >= 0 {
        HeapRemove(n.byExpiryIndex);
      }
    }

    method Schedule(n: Node)
      requires ScheduledBut(n) && n in Repr && n !in byExpiry
      modifies this`byExpiry, this`keys, byExpiry`byExpiryIndex, n`byExpiryIndex
      ensures ScheduledBut(n) && n in byExpiry
    {
      HeapPush(n);
    }

    lemma Settled(n: Node)
      requires ScheduledBut(n) && n in Repr
      requires if n.token in byToken && byToken[n.token] == n && Timed(n) then n in byExpiry else n !in byExpiry
      requires Linked()
      ensures Scheduled()
    {}

    // ---------- removing a lock ----------

    twostate lemma LinkedWithoutToken(n: Node)
      requires old(Linked()) && n in Repr && old(n.token) in old(byToken) && old(byToken)[old(n.token)] == n && !n.held
      requires byName == old(byName) && Repr == old(Repr)
      requires byToken == old(byToken) - {old(n.token)} && n.token == ""
      requires forall x :: x in Repr ==>
        x.details == old(x.details) && x.held == old(x.held) && (x != n ==> x.token == old(x.token))
      ensures Linked()
    {}

    twostate lemma ScheduledWithoutToken(n: Node)
      requires old(Scheduled()) && n in Repr && old(n.token) in old(byToken) && old(byToken)[old(n.token)] == n
      requires byExpiry == old(byExpiry) && keys == old(keys) && Repr == old(Repr)
      requires byToken == old(byToken) - {old(n.token)}
      requires forall x :: x in Repr ==>
        x.details == old(x.details) && x.held == old(x.held) && (x != n ==> x.token == old(x.token))
      requires forall x :: x in Repr ==> x.byExpiryIndex == old(x.byExpiryIndex) && x.expiry == old(x.expiry)
      ensures ScheduledBut(n)
    {}

    twostate lemma AbstractsWithoutToken(n: Node)
      requires old(Abstracts()) && old(Linked()) && Repr == old(Repr) && old(n.token) in old(byToken)
      requires byToken == old(byToken) - {old(n.token)} && locks == old(locks) - {old(n.token)}
      requires forall x :: x in Repr ==>
        x.details == old(x.details) && x.expiry == old(x.expiry) && x.held == old(x.held)
      ensures Abstracts()
    {}

    lemma RootsKnown()
      requires Abstracts()
      ensures RootsIn(RootsOf(locks))
    {
      forall t | t in byToken
        ensures byToken[t].details.root in RootsOf(locks)
      {
        assert LockOf(byToken[t]) == locks[t];
      }
    }

    lemma RootOfToken(token: string)
      requires Linked() && Abstracts() && token in byToken
      ensures token in locks && locks[token].details == byToken[token].details
      ensures forall t :: t in locks && t != token ==> locks[t].details.root != locks[token].details.root
    {
      hide RootsOf;
      forall t | t in locks
        ensures LockOf(byToken[t]) == locks[t]
      {}
    }

    method DropToken(n: Node)
      requires Valid() && n.token in byToken && byToken[n.token] == n && !n.held && n in Repr
      modifies this`byToken, this`locks, n`token
      ensures Linked() && Abstracts() && TokensIssued() && ScheduledBut(n)
      ensures n.details.root !in RootsOf(locks) && Counts(RootsOf(locks) + {n.details.root}) && RootsIn(RootsOf(locks))
      ensures locks == old(locks) - {old(n.token)} && n.token == "" && n.token !in byToken
      ensures byToken == old(byToken) - {old(n.token)}
    {
      hide CountsPlus, Linked, ScheduledBut, TokensIssued, Abstracts, RootsOf;
      NoEmptyToken();
      RootOfToken(n.token);
      RootsWithout(locks, n.token);
      byToken := byToken - {n.token};
      locks := locks - {n.token};
      n.token := "";
      LinkedWithoutToken(n);
      ScheduledWithoutToken(n);
      AbstractsWithoutToken(n);
      IssuedLater();
      RootsKnown();
    }

    method Remove(n: Node)
      requires Valid() && n.token in byToken && byToken[n.token] == n && !n.held && n in Repr
      modifies this`byName, this`byToken, this`byExpiry, this`keys, this`locks
      modifies Repr`refCount, n`token, byExpiry`byExpiryIndex
      ensures Valid() && locks == old(locks) - {old(n.token)}
      ensures byToken == old(byToken) - {old(n.token)}
    {
      hide Linked, ScheduledBut, CountsPlus, Abstracts, TokensIssued;
      DropToken(n);
      UncountRoot(n.details.root, RootsOf(locks));
      Unschedule(n);
      Settled(n);
    }

    // ---------- forgetting expired locks ----------

    lemma QueuedLock(i: nat)
      requires Valid() && i < |byExpiry|
      ensures var n := byExpiry[i]; n in Repr && n.token in byToken && byToken[n.token] == n && !n.held
      ensures var n := byExpiry[i]; n.token in locks && locks[n.token].expires == At(n.expiry) && !locks[n.token].held
    {
      assert LockOf(byToken[byExpiry[i].token]) == locks[byExpiry[i].token];
    }

    lemma TimedIsQueued(t: string) returns (i: nat)
      requires Valid() && t in locks && !locks[t].held && locks[t].expires.At?
      ensures i < |byExpiry| && keys[i] == locks[t].expires.time
    {
      hide CountsPlus, TokensIssued;
      assert LockOf(byToken[t]) == locks[t];
      assert byToken[t] in byExpiry;
      i :| 0 <= i < |byExpiry| && byExpiry[i] == byToken[t];
    }

    lemma NothingExpired(now: int)
      requires Valid() && (byExpiry == [] || now < byExpiry[0].expiry)
      ensures forall t :: t in locks ==> !Expired(locks[t], now)
    {
      hide CountsPlus, TokensIssued, Linked, Abstracts;
      forall t | t in locks && !locks[t].held && locks[t].expires.At?
        ensures now < locks[t].expires.time
      {
        var i := TimedIsQueued(t);
        RootIsLeast(keys, i);
      }
    }

    method CollectExpiredNodes(now: int)
      requires Valid()
      modifies this, Repr
      ensures Valid() && Repr == old(Repr) && gen == old(gen)
      ensures locks == Unexpired(old(locks), now)
      ensures forall t :: t in byToken ==> t in old(byToken) && byToken[t] == old(byToken)[t]
    {
      hide Valid;
      while |byExpiry| > 0
        invariant Valid() && Repr == old(Repr) && gen == old(gen)
        invariant forall t :: t in locks ==> t in old(locks) && locks[t] == old(locks)[t]
        invariant forall t :: t in byToken ==> t in old(byToken) && byToken[t] == old(byToken)[t]
        invariant forall t :: t in old(locks) && t !in locks ==> Expired(old(locks)[t], now)
        decreases |locks|
      {
        QueuedLock(0);
        if now < byExpiry[0].expiry {
          break;
        }
        ValidRepr();
        ghost var token := byExpiry[0].token;
        assert locks[token] == old(locks)[token] && Expired(locks[token], now);
        Remove(byExpiry[0]);
      }
      NothingExpired(now);
    }

    lemma ValidRepr()
      requires Valid()
      ensures forall i :: 0 <= i < |byExpiry| ==> byExpiry[i] in Repr
      ensures forall n :: n in byName ==> byName[n] in Repr
      ensures forall t :: t in byToken ==> byToken[t] in Repr
    {}

    // ---------- may a lock be created? ----------

    /** The only lock with its root at `name` is the one its node carries. */
    lemma LocksAt(name: Name)
      requires Valid()
      ensures forall t :: t in locks && locks[t].details.root == name ==>
        name in byName && byName[name].token == t && byName[name].details == locks[t].details
      ensures name in byName && byName[name].token != "" ==>
        byName[name].token in locks && byName[name].details == locks[byName[name].token].details
      ensures name in byName ==> byName[name].details.root == name
    {
      hide CountsPlus, TokensIssued, ScheduledBut;
      forall t | t in locks
        ensures LockOf(byToken[t]) == locks[t]
      {}
    }

    lemma NoEmptyToken()
      requires TokensIssued() && Abstracts()
      ensures "" !in locks && "" !in byToken
    {
      if "" in byToken {
        var k: nat :| k <= gen && "" == Decimal.Itoa(k);
        Decimal.ItoaNonEmpty(k);
      }
    }

    /** A name is in the tree exactly when some lock has its root there or below. */
    lemma InTree(name: Name)
      requires Valid()
      ensures name in byName <==> exists t :: t in locks && name <= locks[t].details.root
    {
      hide Linked, Abstracts, Tallied, TokensIssued, ScheduledBut;
      if name in byName {
        var r :| r in Below(RootsOf(locks), name);
      }
      if t :| t in locks && name <= locks[t].details.root {
        assert locks[t].details.root in Below(RootsOf(locks), name);
      }
    }

    /** What the walk from `name` to the root asks of the node at `cur`. */
    method Admits(cur: Name, first: bool, name: Name, zeroDepth: bool) returns (ok: bool)
      requires Valid() && cur <= name && (first <==> cur == name)
      ensures ok ==> forall t :: t in locks && locks[t].details.root == cur ==> !Conflicts(locks[t], name, zeroDepth)
      ensures ok && first && !zeroDepth ==> forall t :: t in locks ==> !(name <= locks[t].details.root)
      ensures !ok ==> !CanLock(locks, name, zeroDepth)
    {
      hide Valid;
      ValidParts();
      LocksAt(cur);
      if cur !in byName {
        InTree(cur);
        return true;
      }
      var n := byName[cur];
      if first {
        if n.token != "" {
          return false;
        }
        if !zeroDepth {
          InTree(cur);
          return false;
        }
      } else if n.token != "" && !n.details.zeroDepth {
        return false;
      }
      return true;
    }

    lemma ValidParts()
      requires Valid()
      ensures "" !in locks
    {
      NoEmptyToken();
    }

    /** The answer looks only at the path to the root, yet speaks about every lock. */
    method CanCreate(name: Name, zeroDepth: bool) returns (ok: bool)
      requires Valid()
      ensures ok <==> CanLock(locks, name, zeroDepth)
    {
      hide Valid, ClearAbove, CanLock, Conflicts;
      ClearStart(locks, name, zeroDepth);
      var cur := name;
      var first := true;
      while true
        invariant cur <= name && (first <==> cur == name)
        invariant ClearAbove(locks, name, zeroDepth, |cur|)
        invariant !first && !zeroDepth ==> forall t :: t in locks ==> !(name <= locks[t].details.root)
        decreases |cur|
      {
        ok := Admits(cur, first, name, zeroDepth);
        if !ok {
          return;
        }
        ClearStep(locks, name, zeroDepth, cur);
        if cur == [] {
          break;
        }
        cur := Parent(cur);
        first := false;
      }
      ClearEnd(locks, name, zeroDepth);
    }

    /** A node's reference count is the number of locks with their root at its name or below it. */
    lemma RefCountIsLocksBelow(name: Name)
      requires Valid()
      ensures name in byName <==> TokensBelow(locks, name) != {}
      ensures name in byName ==> byName[name].refCount == |TokensBelow(locks, name)|
    {
      InTree(name);
      assert TokensBelow(locks, name) != {} <==> exists t :: t in locks && name <= locks[t].details.root by {
        if t :| t in locks && name <= locks[t].details.root {
          assert t in TokensBelow(locks, name);
        }
        if TokensBelow(locks, name) != {} {
          var t :| t in TokensBelow(locks, name);
        }
      }
      LocksHaveDistinctRoots();
      CountTokensOrRoots(locks, name);
    }

    lemma LocksHaveDistinctRoots()
      requires Valid()
      ensures DistinctRoots(locks)
    {
      hide CountsPlus, TokensIssued, ScheduledBut;
      forall t | t in locks
        ensures locks[t].details == byToken[t].details
      {
        assert LockOf(byToken[t]) == locks[t];
      }
    }

    /** The heap holds exactly the locks that can expire, each node knows its slot, and the first expires first. */
    lemma HeapIsTheExpiringLocks(t: string)
      requires Valid() && t in locks
      ensures byToken[t] in byExpiry <==> !locks[t].held && locks[t].expires.At?
      ensures if byToken[t] in byExpiry then 0 <= byToken[t].byExpiryIndex < |byExpiry| &&
        byExpiry[byToken[t].byExpiryIndex] == byToken[t]
              else byToken[t].byExpiryIndex == -1
      ensures byToken[t] in byExpiry ==> byExpiry[0].expiry <= locks[t].expires.time
    {
      hide CountsPlus, TokensIssued;
      assert LockOf(byToken[t]) == locks[t];
      if byToken[t] in byExpiry {
        RootIsLeast(keys, byToken[t].byExpiryIndex);
      }
    }

    // ---------- Create ----------

    twostate lemma LinkedWithToken(n: Node, new name: Name)
      requires old(Linked()) && old(n.token) == "" && "" !in old(byToken) && name in byName && byName[name] == n
      requires byName == old(byName) && Repr == old(Repr)
      requires n.token !in old(byToken) && n.token != "" && byToken == old(byToken)[n.token := n]
      requires n.details.root == name
      requires forall x :: x in Repr && x != n ==>
        x.details == old(x.details) && x.token == old(x.token) && x.held == old(x.held)
      ensures Linked()
    {}

    twostate lemma ScheduledWithToken(n: Node)
      requires old(Scheduled()) && n in Repr && n !in old(byExpiry)
      requires byExpiry == old(byExpiry) && keys == old(keys) && Repr == old(Repr)
      requires n.token !in old(byToken) && byToken == old(byToken)[n.token := n]
      requires forall x :: x in Repr && x != n ==>
        x.details == old(x.details) && x.token == old(x.token) && x.held == old(x.held)
      requires forall x :: x in Repr ==>
        x.byExpiryIndex == old(x.byExpiryIndex) && (x != n ==> x.expiry == old(x.expiry))
      ensures ScheduledBut(n)
    {}

    lemma LockOfNew(n: Node, now: int)
      requires !n.held && (n.details.duration >= 0 ==> n.expiry == now + n.details.duration)
      ensures LockOf(n) == NewLock(now, n.details)
    {}

    twostate lemma AbstractsWithToken(n: Node, new l: Lock)
      requires old(Abstracts()) && old(Linked()) && n in Repr && LockOf(n) == l
      requires n.token !in old(byToken) && byToken == old(byToken)[n.token := n] && locks == old(locks)[n.token := l]
      requires Repr == old(Repr) && forall t :: t in old(byToken) ==> old(byToken)[t] != n
      requires forall x :: x in Repr && x != n ==>
        x.details == old(x.details) && x.expiry == old(x.expiry) && x.held == old(x.held)
      ensures Abstracts()
    {}

    /** A node without a token is neither in the token table nor in the heap. */
    lemma Unlocked(n: Node, name: Name)
      requires Linked() && Abstracts() && TokensIssued() && Scheduled() && n.token == ""
      requires name in byName && byName[name] == n
      ensures n !in byExpiry && !n.held && forall t :: t in byToken ==> byToken[t] != n
      ensures "" !in byToken
    {
      hide CountsPlus, LockOf;
      NoEmptyToken();
    }

    lemma KnownTokens()
      requires Abstracts()
      ensures byToken.Keys == locks.Keys
    {}

    lemma FreshToken(token: string)
      requires TokensIssued() && token == Decimal.Itoa(gen + 1)
      ensures token !in byToken && token != ""
    {
      Decimal.ItoaNonEmpty(gen + 1);
      if token in byToken {
        var k: nat :| k <= gen && token == Decimal.Itoa(k);
        Decimal.ItoaInjective(k, gen + 1);
      }
    }

    twostate lemma IssuedLater()
      requires old(TokensIssued()) && byToken.Keys <= old(byToken).Keys && gen >= old(gen)
      ensures TokensIssued()
    {}

    twostate lemma IssuedNow(token: string)
      requires old(TokensIssued()) && byToken.Keys == old(byToken).Keys + {token} && gen >= old(gen) &&
        token == Decimal.Itoa(gen)
      ensures TokensIssued()
    {}

    method NextToken() returns (token: string)
      requires TokensIssued()
      modifies this`gen
      ensures TokensIssued() && gen == old(gen) + 1 && token == Decimal.Itoa(gen)
      ensures token !in byToken && token != ""
    {
      hide TokensIssued;
      FreshToken(Decimal.Itoa(gen + 1));
      gen := gen + 1;
      IssuedLater();
      token := Decimal.Itoa(gen);
    }

    /** Gives the node its token and details, but does not yet schedule its expiry. */
    method Attach(n: Node, now: int, d: LockDetails)
      requires Linked() && Abstracts() && TokensIssued() && Scheduled()
      requires d.root in byName && byName[d.root] == n && n in Repr && n.token == ""
      modifies this`gen, this`byToken, this`locks, n`token, n`details, n`expiry
      ensures Linked() && Abstracts() && TokensIssued() && ScheduledBut(n)
      ensures n !in byExpiry && n.token == Decimal.Itoa(gen) && gen == old(gen) + 1 && n.token !in old(locks)
      ensures n.details == d && !n.held && byToken == old(byToken)[n.token := n] && n.token !in old(byToken)
      ensures locks == old(locks)[n.token := NewLock(now, d)]
    {
      hide Linked, Abstracts, TokensIssued, ScheduledBut, LockOf, NewLock, LockSpec.DeadlineAfter;
      ghost var name, l := d.root, NewLock(now, d);
      KnownTokens();
      Unlocked(n, name);
      var token := NextToken();
      n.token := token;
      byToken := byToken[n.token := n];
      n.details := d;
      n.expiry := if d.duration >= 0 then now + d.duration else n.expiry;
      locks := locks[n.token := l];
      LockOfNew(n, now);
      LinkedWithToken(n, name);
      ScheduledWithToken(n);
      AbstractsWithToken(n, l);
      IssuedNow(token);
    }

    lemma NewRoot(name: Name, zeroDepth: bool)
      requires Linked() && Abstracts() && CanLock(locks, name, zeroDepth)
      ensures name !in RootsOf(locks)
      ensures name in byName ==> byName[name].token == ""
    {
      forall t | t in locks
        ensures LockOf(byToken[t]) == locks[t] && locks[t].details.root != name
      {
        assert !Conflicts(locks[t], name, zeroDepth);
      }
    }

    lemma QueueRepr(n: Node?)
      requires ScheduledBut(n)
      ensures forall i :: 0 <= i < |byExpiry| ==> byExpiry[i] in Repr
    {}

    /** Puts a lock into the heap if it can expire; then the whole invariant holds. */
    method Enlist(n: Node)
      requires Linked() && Abstracts() && TokensIssued() && ScheduledBut(n) && Counts(RootsOf(locks)) &&
        CleanRoots(locks)
      requires n in Repr && n.token in byToken && byToken[n.token] == n && !n.held && n !in byExpiry
      modifies this`byExpiry, this`keys, Repr`byExpiryIndex
      ensures Valid()
    {
      hide Linked, Abstracts, TokensIssued, ScheduledBut, CountsPlus, RootsOf, CleanRoots;
      if n.details.duration >= 0 {
        QueueRepr(n);
        Schedule(n);
      }
      Settled(n);
    }

    /** The part of `Create` after the check that the lock may be created. */
    method Insert(now: int, d: LockDetails) returns (token: string)
      requires Valid() && CanLock(locks, d.root, d.zeroDepth) && IsClean(d.root)
      modifies this, Repr
      ensures Valid() && fresh(Repr - old(Repr))
      ensures gen == old(gen) + 1 && token == Decimal.Itoa(gen)
      ensures byToken.Keys == old(byToken).Keys + {token} && forall t :: t in old(byToken) ==>
        byToken[t] == old(byToken)[t]
      ensures locks == old(locks)[token := NewLock(now, d)]
    {
      hide Linked, Abstracts, TokensIssued, ScheduledBut, CountsPlus, RootsOf, CanLock, Decimal.Itoa;
      NewRoot(d.root, d.zeroDepth);
      var n := CountRoot(d.root, RootsOf(locks));
      NewRoot(d.root, d.zeroDepth);
      FreshToken(Decimal.Itoa(gen + 1));
      KnownTokens();
      RootsWith(locks, Decimal.Itoa(gen + 1), NewLock(now, d));
      Attach(n, now, d);
      Enlist(n);
      return n.token;
    }

    method Create(now: int, root: string, duration: int, owner: string, zeroDepth: bool) returns (r: Result<string>)
      requires Valid()
      modifies this, Repr
      ensures Valid() && fresh(Repr - old(Repr))
      ensures forall t :: t in old(byToken) && t in byToken ==> byToken[t] == old(byToken)[t]
      ensures var ls := Unexpired(old(locks), now);
              var d := LockDetails(SlashClean(root), duration, owner, zeroDepth);
              if CanLock(ls, d.root, zeroDepth) then
                && gen == old(gen) + 1 && r == Ok(Decimal.Itoa(gen)) && r.value !in old(locks)
                && locks == ls[r.value := NewLock(now, d)]
              else
                r == Err(ErrLocked) && locks == ls && gen == old(gen)
    {
      hide *;
      UnissuedToken();
      TokenStaysUnissued(Decimal.Itoa(gen + 1), now);
      CollectExpiredNodes(now);
      var d := LockDetails(SlashClean(root), duration, owner, zeroDepth);
      SlashCleanIsClean(root);
      var ok := CanCreate(d.root, zeroDepth);
      if !ok {
        return Err(ErrLocked);
      }
      var token := Insert(now, d);
      return Ok(token);
    }

    lemma TokenStaysUnissued(token: string, now: int)
      requires token !in locks
      ensures token !in Unexpired(locks, now)
    {}

    lemma UnissuedToken()
      requires Valid()
      ensures Decimal.Itoa(gen + 1) !in locks && Decimal.Itoa(gen + 1) !in byToken
    {
      hide ScheduledBut, Linked, CountsPlus;
      FreshToken(Decimal.Itoa(gen + 1));
    }

    // ---------- changing one lock in place ----------

    twostate lemma LinkedUpdate(n: Node)
      requires old(Linked()) && n in Repr && n.token != "" && n.details.root == old(n.details.root)
      requires byName == old(byName) && byToken == old(byToken) && Repr == old(Repr)
      requires forall x :: x in Repr ==> x.token == old(x.token)
      requires forall x :: x in Repr && x != n ==> x.details == old(x.details) && x.held == old(x.held)
      ensures Linked()
    {}

    twostate lemma AbstractsUpdate(n: Node)
      requires old(Abstracts()) && old(Linked()) && n in Repr && n.token in byToken && byToken[n.token] == n
      requires byToken == old(byToken) && Repr == old(Repr) && locks == old(locks)[n.token := LockOf(n)]
      requires n.token == old(n.token)
      requires forall x :: x in Repr && x != n ==>
        x.details == old(x.details) && x.expiry == old(x.expiry) && x.held == old(x.held)
      ensures Abstracts()
    {
      forall t | t in byToken && t != n.token
        ensures byToken[t] in Repr && byToken[t] != n
      {}
    }

    twostate lemma ScheduledUpdate(n: Node)
      requires old(ScheduledBut(n)) && n in Repr
      requires byExpiry == old(byExpiry) && keys == old(keys) && Repr == old(Repr) && byToken == old(byToken)
      requires forall x :: x in Repr ==> x.token == old(x.token) && x.byExpiryIndex == old(x.byExpiryIndex)
      requires forall x :: x in Repr && x != n ==>
        x.details == old(x.details) && x.held == old(x.held) && x.expiry == old(x.expiry)
      requires n in byExpiry ==> n.expiry == old(n.expiry)
      ensures ScheduledBut(n)
    {}

    lemma ScheduledButOne(n: Node)
      requires Scheduled()
      ensures ScheduledBut(n)
    {}

    /** The lock that a live node carries. */
    lemma LockOfNode(n: Node)
      requires Valid() && n.token in byToken && byToken[n.token] == n
      ensures n.token in locks && locks[n.token] == LockOf(n) && n.token != "" && n in Repr
      ensures Timed(n) <==> n in byExpiry
    {
      hide CountsPlus;
      NoEmptyToken();
    }

    lemma RootsUpdate(token: string, l: Lock)
      requires CleanRoots(locks) && token in locks && l.details.root == locks[token].details.root
      ensures RootsOf(locks[token := l]) == RootsOf(locks) && CleanRoots(locks[token := l])
    {
      RootsSame(locks, token, l);
    }

    /** Changes whether the lock is held, but not yet whether its expiry is scheduled. */
    method SetFlag(n: Node, held: bool)
      requires Valid() && n.token in byToken && byToken[n.token] == n && n in Repr && n.held != held
      modifies this`locks, n`held
      ensures Linked() && Abstracts() && TokensIssued() && ScheduledBut(n) && Counts(RootsOf(locks)) &&
        CleanRoots(locks)
      ensures n.token in old(locks) && locks == old(locks)[n.token := old(locks)[n.token].(held := held)] &&
        n.held == held
      ensures n in byExpiry <==> !old(n.held) && n.details.duration >= 0
    {
      hide Linked, Abstracts, TokensIssued, ScheduledBut, CountsPlus, RootsOf, CleanRoots;
      LockOfNode(n);
      ScheduledButOne(n);
      RootsUpdate(n.token, locks[n.token].(held := held));
      locks := locks[n.token := locks[n.token].(held := held)];
      n.held := held;
      LinkedUpdate(n);
      AbstractsUpdate(n);
      ScheduledUpdate(n);
    }

    /** Claims the lock; the panic on a node held twice is the precondition. */
    method Hold(n: Node)
      requires Valid() && n.token in byToken && byToken[n.token] == n && n in Repr && !n.held
      modifies this`locks, n`held, this`byExpiry, this`keys, byExpiry`byExpiryIndex
      ensures Valid() && n.token in old(locks) && locks == old(locks)[n.token := old(locks)[n.token].(held := true)]
    {
      hide Linked, Abstracts, TokensIssued, ScheduledBut, CountsPlus, RootsOf, CleanRoots;
      SetFlag(n, true);
      if n.details.duration >= 0 {
        Unschedule(n);
      }
      Settled(n);
    }

    method Unhold(n: Node)
      requires Valid() && n.token in byToken && byToken[n.token] == n && n in Repr && n.held
      modifies this`locks, n`held, this`byExpiry, this`keys, Repr`byExpiryIndex
      ensures Valid() && n.token in old(locks) && locks == old(locks)[n.token := old(locks)[n.token].(held := false)]
    {
      hide Linked, Abstracts, TokensIssued, ScheduledBut, CountsPlus, RootsOf, CleanRoots;
      SetFlag(n, false);
      Enlist(n);
    }

    // ---------- Confirm and its release ----------

    /** The node of a claimed lock, or null when nothing was to be claimed. */
    ghost predicate IsNodeOf(n: Node?, t: Option<string>)
      reads this`byToken
    {
      if t.None? then n == null else n != null && t.value in byToken && byToken[t.value] == n
    }

    method LookupNode(name: Name, conditions: seq<Condition>) returns (n: Node?)
      requires Valid() && IsClean(name)
      ensures IsNodeOf(n, Lookup(locks, name, conditions))
    {
      hide Valid;
      var i := 0;
      while i < |conditions|
        invariant 0 <= i <= |conditions|
        invariant Lookup(locks, name, conditions) == Lookup(locks, name, conditions[i..])
      {
        var c := conditions[i];
        assert conditions[i..][1..] == conditions[i + 1..];
        i := i + 1;
        LiveTokens(c.token);
        n := if c.token in byToken then byToken[c.token] else null;
        if n == null || n.held {
          continue;
        }
        RootIsClean(n);
        CoverTest(n.details.root, name);
        if Render(name) == Render(n.details.root) {
          RenderInjective(name, n.details.root);
          return;
        }
        if n.details.zeroDepth {
          continue;
        }
        if Render(n.details.root) == "/" || Render(n.details.root) + "/" <= Render(name) {
          return;
        }
      }
      return null;
    }

    lemma LiveTokens(token: string)
      requires Valid()
      ensures token in byToken <==> token in locks
      ensures token in byToken ==> byToken[token].token == token && locks[token] == LockOf(byToken[token])
    {
      hide CountsPlus, TokensIssued, ScheduledBut;
    }

    lemma RootIsClean(n: Node)
      requires Valid() && n.token in byToken && byToken[n.token] == n
      ensures IsClean(n.details.root)
    {
      hide CountsPlus, TokensIssued, ScheduledBut;
      LockOfNode(n);
    }

    /** An empty name asks for nothing; it is not the root. */
    static function NameArg(name: string): Option<Name> {
      if name == "" then None else Some(SlashClean(name))
    }

    static ghost function TokensOf(n0: Node?, n1: Node?): set<string>
      reads n0, n1
    {
      (if n0 == null then {} else {n0.token}) + (if n1 == null then {} else {n1.token})
    }

    /** The nodes stand for locks that exist, no lock twice. */
    ghost predicate Handles(n0: Node?, n1: Node?)
      reads this`byToken, n0, n1
    {
      && (n0 != null ==> n0.token in byToken && byToken[n0.token] == n0 && n0 != n1)
      && (n1 != null ==> n1.token in byToken && byToken[n1.token] == n1)
    }

    method Find(name: string, conditions: seq<Condition>) returns (n: Node?)
      requires Valid() && name != ""
      ensures IsNodeOf(n, Lookup(locks, SlashClean(name), conditions))
      ensures n != null ==> n.token in byToken && byToken[n.token] == n && n in Repr && !n.held
      ensures n != null ==>
        && n.token in locks && locks[n.token] == LockOf(n)
        && Lookup(locks, SlashClean(name), conditions) == Some(n.token)
      ensures n == null ==> Lookup(locks, SlashClean(name), conditions) == None
    {
      hide Valid, SlashClean;
      SlashCleanIsClean(name);
      n := LookupNode(SlashClean(name), conditions);
      if n != null {
        LiveTokens(Lookup(locks, SlashClean(name), conditions).value);
        LockOfNode(n);
      }
    }

    method HoldBoth(n0: Node?, n1: Node?)
      requires Valid() && Handles(n0, n1) && (n0 != null ==> !n0.held && n0 in Repr) &&
        (n1 != null ==> !n1.held && n1 in Repr)
      modifies this`locks, Repr`held, this`byExpiry, this`keys, Repr`byExpiryIndex
      ensures Valid() && Handles(n0, n1) && locks == SetHeld(old(locks), TokensOf(n0, n1), true)
    {
      hide Valid;
      SetHeldNone(locks, true);
      if n0 != null {
        QueueInRepr();
        SetHeldOne(locks, {}, n0.token, true);
        Hold(n0);
      }
      if n1 != null {
        QueueInRepr();
        SetHeldOne(old(locks), if n0 == null then {} else {n0.token}, n1.token, true);
        Hold(n1);
      }
    }

    lemma QueueInRepr()
      requires Valid()
      ensures forall i :: 0 <= i < |byExpiry| ==> byExpiry[i] in Repr
      ensures byToken.Keys == locks.Keys
    {}

    /**
     Claims a lock for each name given, or changes nothing but the expiry of old locks.
     The nodes returned are what the release function remembers.
     */
    method Confirm(now: int, name0: string, name1: string, conditions: seq<Condition>)
      returns (ok: bool, n0: Node?, n1: Node?)
      requires Valid()
      modifies this, Repr
      ensures Valid() && Repr == old(Repr) && gen == old(gen)
      ensures forall t :: t in byToken ==> t in old(byToken) && byToken[t] == old(byToken)[t]
      ensures var ls := Unexpired(old(locks), now);
              var claims := Claims(ls, NameArg(name0), NameArg(name1), conditions);
              && ok == claims.Some?
              && (if ok then Handles(n0, n1) && TokensOf(n0, n1) == claims.value &&
                locks == SetHeld(ls, claims.value, true)
                  else locks == ls)
    {
      hide Valid, SetHeld, Lookup, SlashClean, Unexpired, LockOf;
      CollectExpiredNodes(now);
      ok, n0, n1 := false, null, null;
      if name0 != "" {
        n0 := Find(name0, conditions);
        if n0 == null {
          return;
        }
      }
      if name1 != "" {
        n1 := Find(name1, conditions);
        if n1 == null {
          return;
        }
      }
      if n1 == n0 {
        n1 := null;
      }
      HoldBoth(n0, n1);
      ok := true;
    }

    method Release(n0: Node?, n1: Node?)
      requires Valid() && Handles(n0, n1) && (n0 != null ==> n0.held) && (n1 != null ==> n1.held)
      modifies this, Repr
      ensures Valid() && Repr == old(Repr) && gen == old(gen) && byToken == old(byToken)
      ensures locks == SetHeld(old(locks), old(TokensOf(n0, n1)), false)
    {
      hide Valid;
      SetHeldNone(locks, false);
      QueueInRepr();
      if n1 != null {
        LockOfNode(n1);
        SetHeldOne(locks, {}, n1.token, false);
        Unhold(n1);
      }
      if n0 != null {
        LockOfNode(n0);
        SetHeldOne(old(locks), if n1 == null then {} else {n1.token}, n0.token, false);
        Unhold(n0);
      }
    }

    // ---------- Refresh and Unlock ----------

    method Refresh(now: int, token: string, duration: int) returns (r: Result<LockDetails>)
      requires Valid()
      modifies this, Repr
      ensures Valid() && Repr == old(Repr) && gen == old(gen)
      ensures forall t :: t in byToken ==> t in old(byToken) && byToken[t] == old(byToken)[t]
      ensures var ls := Unexpired(old(locks), now);
              if token !in ls then r == Err(ErrNoSuchLock) && locks == ls
              else if ls[token].held then r == Err(ErrLocked) && locks == ls
              else locks == Refreshed(ls, now, token, duration) && r == Ok(locks[token].details)
    {
      hide Valid, Unexpired, LockOf, Refreshed;
      CollectExpiredNodes(now);
      LiveTokens(token);
      if token !in byToken {
        return Err(ErrNoSuchLock);
      }
      var n := byToken[token];
      LockOfNode(n);
      HeldOf(n);
      if n.held {
        return Err(ErrLocked);
      }
      Renew(n, now, duration);
      return Ok(n.details);
    }

    lemma HeldOf(n: Node)
      ensures LockOf(n).held == n.held && LockOf(n).details == n.details
    {}

    method SetDuration(n: Node, now: int, duration: int)
      requires Linked() && Abstracts() && ScheduledBut(n) && CleanRoots(locks)
      requires n.token in byToken && byToken[n.token] == n && n in Repr && n !in byExpiry
      requires n.token in locks && n.token != "" && locks[n.token] == LockOf(n) && !n.held
      modifies this`locks, n`details, n`expiry
      ensures Linked() && Abstracts() && ScheduledBut(n) && CleanRoots(locks)
      ensures locks == Refreshed(old(locks), now, n.token, duration) && RootsOf(locks) == RootsOf(old(locks))
      ensures n.details == old(n.details).(duration := duration)
    {
      hide Linked, Abstracts, ScheduledBut, RootsOf, CleanRoots;
      n.details := n.details.(duration := duration);
      if n.details.duration >= 0 {
        n.expiry := now + n.details.duration;
      }
      RootsUpdate(n.token, LockOf(n));
      locks := locks[n.token := LockOf(n)];
      LinkedUpdate(n);
      AbstractsUpdate(n);
      ScheduledUpdate(n);
    }

    method Renew(n: Node, now: int, duration: int)
      requires Valid() && n.token in byToken && byToken[n.token] == n && n in Repr && !n.held
      modifies this`locks, n`details, n`expiry, this`byExpiry, this`keys, Repr`byExpiryIndex
      ensures Valid() && n.token in old(locks) && locks == Refreshed(old(locks), now, n.token, duration)
      ensures n.details == old(n.details).(duration := duration) && locks[n.token].details == n.details
    {
      hide Linked, Abstracts, TokensIssued, ScheduledBut, CountsPlus, RootsOf, CleanRoots;
      LockOfNode(n);
      ScheduledButOne(n);
      QueueRepr(n);
      Unschedule(n);
      SetDuration(n, now, duration);
      Enlist(n);
    }

    method Unlock(now: int, token: string) returns (r: Result<()>)
      requires Valid()
      modifies this, Repr
      ensures Valid() && Repr == old(Repr) && gen == old(gen)
      ensures forall t :: t in byToken ==> t in old(byToken) && byToken[t] == old(byToken)[t]
      ensures var ls := Unexpired(old(locks), now);
              if token !in ls then r == Err(ErrNoSuchLock) && locks == ls
              else if ls[token].held then r == Err(ErrLocked) && locks == ls
              else r == Ok(()) && locks == ls - {token}
    {
      hide Valid, Unexpired, LockOf;
      CollectExpiredNodes(now);
      LiveTokens(token);
      if token !in byToken {
        return Err(ErrNoSuchLock);
      }
      var n := byToken[token];
      LockOfNode(n);
      HeldOf(n);
      if n.held {
        return Err(ErrLocked);
      }
      QueueInRepr();
      Remove(n);
      return Ok(());
    }
  }

  /**
   A lock that is refreshed lives for the new duration from then on: at a later time it can be
   unlocked exactly if that has not passed, and otherwise it is gone.
   */
  method RefreshThenUnlock(ls: MemLS, now: int, later: int, token: string, duration: int)
    returns (refreshed: Result<LockDetails>, unlocked: Result<()>)
    requires ls.Valid() && now <= later
    modifies ls, ls.Repr
    ensures ls.Valid() && ls.Repr == old(ls.Repr)
    ensures refreshed.Ok? <==> token in Unexpired(old(ls.locks), now) && !old(ls.locks)[token].held
    ensures refreshed.Ok? ==>
      && refreshed.value == old(ls.locks)[token].details.(duration := duration)
      && unlocked == (if duration < 0 || later < now + duration then Ok(()) else Err(ErrNoSuchLock))
      && ls.locks == Unexpired(old(ls.locks), later) - {token}
  {
    hide ls.Valid, Unexpired;
    ghost var u := Unexpired(ls.locks, now);
    SameIfUnexpired(ls.locks, now, token);
    refreshed := ls.Refresh(now, token, duration);
    ghost var renewed := ls.locks;
    unlocked := ls.Unlock(later, token);
    if refreshed.Ok? {
      RefreshMeans(u, now, token, duration, later);
      SameIfUnexpired(renewed, later, token);
      UnexpiredTwice(old(ls.locks), now, later);
    }
  }

  lemma SameIfUnexpired(ls: Locks, now: int, token: string)
    ensures token in Unexpired(ls, now) ==> token in ls && Unexpired(ls, now)[token] == ls[token]
  {}
}
