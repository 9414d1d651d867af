/**
 What a WebDAV lock system promises, on a plain map from tokens to locks
 (RFC 4918, sections 6 and 7).  Every operation first forgets the locks that have
 expired; a lock that a request has claimed ("held") does not expire.
 */
module LockSpec {
  import opened Paths
  import opened Wrappers

  datatype LockDetails = LockDetails(root: Name, duration: int, owner: string, zeroDepth: bool)

  datatype Deadline = Never | At(time: int)

  /** `details.duration < 0` means that the lock never expires. */
  datatype Lock = Lock(details: LockDetails, expires: Deadline, held: bool)

  type Locks = map<string, Lock>

  datatype LockError = ErrLocked | ErrNoSuchLock | ErrConfirmationFailed

  datatype Result<+T> = Ok(value: T) | Err(error: LockError)

  function DeadlineAfter(now: int, duration: int): Deadline {
    if duration < 0 then Never else At(now + duration)
  }

  predicate Expired(l: Lock, now: int) {
    !l.held && l.expires.At? && l.expires.time <= now
  }

  function Unexpired(ls: Locks, now: int): Locks {
    map t | t in ls && !Expired(ls[t], now) :: ls[t]
  }

  // ---------- exclusive locks ----------

  predicate CoversName(root: Name, zeroDepth: bool, n: Name) {
    if zeroDepth then n == root else root <= n
  }

  predicate Covers(l: Lock, n: Name) {
    CoversName(l.details.root, l.details.zeroDepth, n)
  }

  /** The cases in which a lock that exists forbids a new one. */
  predicate Conflicts(l: Lock, root: Name, zeroDepth: bool) {
    || l.details.root == root
    || (!l.details.zeroDepth && l.details.root < root)
    || (!zeroDepth && root < l.details.root)
  }

  predicate CanLock(ls: Locks, root: Name, zeroDepth: bool) {
    forall t :: t in ls ==> !Conflicts(ls[t], root, zeroDepth)
  }

  /** Two locks conflict exactly when some resource would be covered by both. */
  lemma ConflictIsOverlap(l: Lock, root: Name, zeroDepth: bool)
    ensures Conflicts(l, root, zeroDepth) <==> exists n :: Covers(l, n) && CoversName(root, zeroDepth, n)
  {
    if Conflicts(l, root, zeroDepth) {
      var n := if l.details.root <= root then root else l.details.root;
      assert Covers(l, n) && CoversName(root, zeroDepth, n);
    }
    if n :| Covers(l, n) && CoversName(root, zeroDepth, n) {
      PrefixesCompare(l.details.root, root, n);
    }
  }

  /** No two locks conflict. */
  predicate Exclusive(ls: Locks) {
    forall t, u :: t in ls && u in ls && t != u ==>
      !Conflicts(ls[t], ls[u].details.root, ls[u].details.zeroDepth)
  }

  /** In an exclusive state at most one lock covers a resource. */
  lemma AtMostOneCover(ls: Locks, t: string, u: string, n: Name)
    requires Exclusive(ls) && t in ls && u in ls && Covers(ls[t], n) && Covers(ls[u], n)
    ensures t == u
  {
    ConflictIsOverlap(ls[t], ls[u].details.root, ls[u].details.zeroDepth);
  }

  // ---------- the operations ----------

  function NewLock(now: int, d: LockDetails): Lock {
    Lock(d, DeadlineAfter(now, d.duration), false)
  }

  /** Only the token of a condition is looked at; an ETag condition has the empty token. */
  datatype Condition = Condition(negated: bool, token: string, etag: string)

  predicate Claimable(ls: Locks, n: Name, token: string) {
    token in ls && !ls[token].held && Covers(ls[token], n)
  }

  /** The first presented token whose unheld lock covers `n`. */
  function Lookup(ls: Locks, n: Name, conditions: seq<Condition>): (r: Option<string>)
    ensures r.Some? ==> Claimable(ls, n, r.value)
    ensures r.None? ==> forall i :: 0 <= i < |conditions| ==> !Claimable(ls, n, conditions[i].token)
  {
    if conditions == [] then None
    else if Claimable(ls, n, conditions[0].token) then Some(conditions[0].token)
    else Lookup(ls, n, conditions[1..])
  }

  /** The locks that a confirmation claims: one for each name given. */
  function Claims(ls: Locks, n0: Option<Name>, n1: Option<Name>, conditions: seq<Condition>): Option<set<string>> {
    var t0 := if n0.Some? then Lookup(ls, n0.value, conditions) else None;
    var t1 := if n1.Some? then Lookup(ls, n1.value, conditions) else None;
    if (n0.Some? && t0.None?) || (n1.Some? && t1.None?) then None
    else Some((if t0.Some? then {t0.value} else {}) + (if t1.Some? then {t1.value} else {}))
  }

  function SetHeld(ls: Locks, tokens: set<string>, held: bool): Locks {
    map t | t in ls :: if t in tokens then ls[t].(held := held) else ls[t]
  }

  lemma SetHeldNone(ls: Locks, held: bool)
    ensures SetHeld(ls, {}, held) == ls
  {}

  lemma SetHeldOne(ls: Locks, tokens: set<string>, t: string, held: bool)
    requires t in ls && t !in tokens
    ensures SetHeld(ls, tokens, held)[t := ls[t].(held := held)] == SetHeld(ls, tokens + {t}, held)
  {}

  function Refreshed(ls: Locks, now: int, token: string, duration: int): Locks
    requires token in ls
  {
    ls[token := Lock(ls[token].details.(duration := duration), DeadlineAfter(now, duration), ls[token].held)]
  }

  /**
   A refresh changes nothing but the time a lock has left: it is gone at a later time exactly
   if nobody holds it and its new duration has passed, counted from the refresh.
   */
  lemma RefreshMeans(ls: Locks, now: int, token: string, duration: int, later: int)
    requires token in ls
    ensures var (l, l', ls') := (ls[token], Refreshed(ls, now, token, duration)[token],
            Refreshed(ls, now, token, duration));
            && l'.details.root == l.details.root && l'.details.zeroDepth == l.details.zeroDepth
            && l'.details.owner == l.details.owner && l'.details.duration == duration && l'.held == l.held
            && ls'.Keys == ls.Keys && (forall t :: t in ls && t != token ==> ls'[t] == ls[t])
            && (token in Unexpired(ls', later) <==> l.held || duration < 0 || later < now + duration)
            && Unexpired(ls', later) - {token} == Unexpired(ls, later) - {token}
  {
    var ls' := Refreshed(ls, now, token, duration);
    assert Unexpired(ls', later) - {token} == Unexpired(ls, later) - {token};
  }

  /** A new lock is gone at a later time exactly if its duration has passed. */
  lemma NewLockMeans(ls: Locks, now: int, token: string, d: LockDetails, later: int)
    requires token !in ls
    ensures var ls' := ls[token := NewLock(now, d)];
            && ls'[token].details == d && !ls'[token].held
            && (token in Unexpired(ls', later) <==> d.duration < 0 || later < now + d.duration)
            && Unexpired(ls', later) - {token} == Unexpired(ls, later)
  {
    var ls' := ls[token := NewLock(now, d)];
    assert Unexpired(ls', later) - {token} == Unexpired(ls, later);
  }

  // ---------- exclusivity is kept ----------

  lemma UnexpiredKeepsExclusive(ls: Locks, now: int)
    requires Exclusive(ls)
    ensures Exclusive(Unexpired(ls, now))
  {}

  lemma CreateKeepsExclusive(ls: Locks, token: string, l: Lock)
    requires Exclusive(ls) && token !in ls && CanLock(ls, l.details.root, l.details.zeroDepth)
    ensures Exclusive(ls[token := l])
  {
    var ls' := ls[token := l];
    forall t, u | t in ls' && u in ls' && t != u
      ensures !Conflicts(ls'[t], ls'[u].details.root, ls'[u].details.zeroDepth)
    {
      if t == token {
        assert !Conflicts(ls[u], l.details.root, l.details.zeroDepth);
      }
    }
  }

  /** Holding, releasing and refreshing change neither the extent nor the tokens of the locks. */
  lemma SameExtentKeepsExclusive(ls: Locks, ls': Locks)
    requires Exclusive(ls) && ls'.Keys <= ls.Keys
    requires forall t :: t in ls' ==>
      ls'[t].details.root == ls[t].details.root && ls'[t].details.zeroDepth == ls[t].details.zeroDepth
    ensures Exclusive(ls')
  {}

  /** Expiry is monotone: forgetting at one time and then at a later one is forgetting at the later one. */
  lemma UnexpiredTwice(ls: Locks, now: int, later: int)
    requires now <= later
    ensures Unexpired(Unexpired(ls, now), later) == Unexpired(ls, later)
  {}
}
