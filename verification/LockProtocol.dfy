/**
 All interleavings of LOCK, UNLOCK and write requests on one lock system.

 Every operation of the lock system is one atomic step, at whatever time its caller read
 from the clock.  A write request acquires its resources step by step, by temporary locks
 or by claiming locks, and gives them up step by step.  Clients present only tokens that
 a LOCK request handed out; temporary tokens are never shown to anybody.
 */
module LockProtocol {
  import opened Paths
  import opened LockSpec
  import opened Wrappers

  /** How a request holds a resource: the lock, and whether it is the request's own temporary one. */
  datatype Entry = Entry(token: string, temporary: bool)

  type Request = map<Name, Entry>

  datatype State = State(locks: Locks, used: set<string>, issued: set<string>, requests: map<nat, Request>)

  datatype Event =
    | Expire(now: int)                             // any operation that is refused
    | Lock(now: int, details: LockDetails, token: string)
    | Unlock(now: int, token: string)
    | Refresh(now: int, token: string, duration: int)
    | TemporaryLock(now: int, id: nat, name: Name, token: string)
    | TemporaryUnlock(now: int, id: nat, name: Name)
    | Claim(now: int, id: nat, n0: Option<Name>, n1: Option<Name>, conditions: seq<Condition>)
    | Release(id: nat)

  const INITIAL := State(map[], {}, {}, map[])

  function Entries(s: State, id: nat): Request {
    if id in s.requests then s.requests[id] else map[]
  }

  function TemporaryDetails(n: Name): LockDetails {
    LockDetails(n, -1, "", true)
  }

  function Claimed(ls: Locks, n: Option<Name>, conditions: seq<Condition>): Request {
    if n.None? || Lookup(ls, n.value, conditions).None? then map[]
    else map[n.value := Entry(Lookup(ls, n.value, conditions).value, false)]
  }

  function Tokens(r: Request): set<string> {
    set n | n in r :: r[n].token
  }

  predicate Next(s: State, e: Event, s': State) {
    match e
    case Expire(now) =>
      s' == s.(locks := Unexpired(s.locks, now))
    case Lock(now, d, token) =>
      var ls := Unexpired(s.locks, now);
      && CanLock(ls, d.root, d.zeroDepth) && token !in s.used && token != ""
      && s' == s.(locks := ls[token := NewLock(now, d)], used := s.used + {token}, issued := s.issued + {token})
    case Unlock(now, token) =>
      var ls := Unexpired(s.locks, now);
      && token in s.issued && token in ls && !ls[token].held
      && s' == s.(locks := ls - {token})
    case Refresh(now, token, duration) =>
      var ls := Unexpired(s.locks, now);
      && token in s.issued && token in ls && !ls[token].held
      && s' == s.(locks := Refreshed(ls, now, token, duration))
    case TemporaryLock(now, id, n, token) =>
      var ls := Unexpired(s.locks, now);
      && CanLock(ls, n, true) && token !in s.used && token != ""
      && s' == s.(locks := ls[token := NewLock(now, TemporaryDetails(n))], used := s.used + {token},
                  requests := s.requests[id := Entries(s, id)[n := Entry(token, true)]])
    case TemporaryUnlock(now, id, n) =>
      var ls := Unexpired(s.locks, now);
      && n in Entries(s, id) && Entries(s, id)[n].temporary
      && s' == s.(locks := ls - {Entries(s, id)[n].token}, requests := s.requests[id := Entries(s, id) - {n}])
    case Claim(now, id, n0, n1, conditions) =>
      var ls := Unexpired(s.locks, now);
      var r := Claimed(ls, n0, conditions) + Claimed(ls, n1, conditions);
      && id !in s.requests && Claims(ls, n0, n1, conditions).Some?
      && (forall i :: 0 <= i < |conditions| && conditions[i].token in ls ==> conditions[i].token in s.issued)
      && s' == s.(locks := SetHeld(ls, Claims(ls, n0, n1, conditions).value, true), requests := s.requests[id := r])
    case Release(id) =>
      && id in s.requests && (forall n :: n in s.requests[id] ==> !s.requests[id][n].temporary)
      && s' == s.(locks := SetHeld(s.locks, Tokens(s.requests[id]), false), requests := s.requests - {id})
  }

  // ---------- the invariant ----------

  predicate EntryOk(s: State, n: Name, e: Entry) {
    && e.token in s.locks && Covers(s.locks[e.token], n)
    && (if e.temporary then s.locks[e.token].details.zeroDepth && s.locks[e.token].expires.Never? &&
      !s.locks[e.token].held && e.token !in s.issued
        else s.locks[e.token].held && e.token in s.issued)
  }

  predicate EntriesOk(s: State) {
    forall id, n :: id in s.requests && n in s.requests[id] ==> EntryOk(s, n, s.requests[id][n])
  }

  /** No lock is held for two requests. */
  predicate Apart(s: State) {
    forall i, j, m, n :: i in s.requests && j in s.requests && m in s.requests[i] && n in s.requests[j] && i != j ==>
      s.requests[i][m].token != s.requests[j][n].token
  }

  /** Every held lock is held for some request. */
  ghost predicate HeldForSomeone(s: State) {
    forall t :: t in s.locks && s.locks[t].held ==> exists id, n :: HeldFor(s, t, id, n)
  }

  predicate HeldFor(s: State, t: string, id: nat, n: Name) {
    id in s.requests && n in s.requests[id] && s.requests[id][n] == Entry(t, false)
  }

  predicate TokensOk(s: State) {
    s.locks.Keys <= s.used && s.issued <= s.used && "" !in s.locks
  }

  ghost predicate Inv(s: State) {
    Exclusive(s.locks) && TokensOk(s) && EntriesOk(s) && Apart(s) && HeldForSomeone(s)
  }

  /** What a request holds does not expire, and stays if its locks stay. */
  lemma EntriesSurvive(s: State, now: int)
    requires EntriesOk(s)
    ensures EntriesOk(s.(locks := Unexpired(s.locks, now)))
  {
    var s' := s.(locks := Unexpired(s.locks, now));
    forall id, n | id in s'.requests && n in s'.requests[id]
      ensures EntryOk(s', n, s'.requests[id][n])
    {
      assert EntryOk(s, n, s.requests[id][n]);
    }
  }

  lemma ExpireKeeps(s: State, now: int)
    requires Inv(s)
    ensures Inv(s.(locks := Unexpired(s.locks, now)))
  {
    EntriesSurvive(s, now);
    UnexpiredKeepsExclusive(s.locks, now);
    var s' := s.(locks := Unexpired(s.locks, now));
    forall t | t in s'.locks && s'.locks[t].held
      ensures exists id, n :: HeldFor(s', t, id, n)
    {
      var id, n :| HeldFor(s, t, id, n);
      assert HeldFor(s', t, id, n);
    }
  }

  lemma LockKeeps(s: State, d: LockDetails, token: string, now: int)
    requires Inv(s) && CanLock(s.locks, d.root, d.zeroDepth) && token !in s.used && token != ""
    ensures Inv(s.(locks := s.locks[token := NewLock(now, d)], used := s.used + {token}, issued := s.issued + {token}))
  {
    var s' := s.(locks := s.locks[token := NewLock(now, d)], used := s.used + {token}, issued := s.issued + {token});
    CreateKeepsExclusive(s.locks, token, NewLock(now, d));
    forall id, n | id in s'.requests && n in s'.requests[id]
      ensures EntryOk(s', n, s'.requests[id][n])
    {
      assert EntryOk(s, n, s.requests[id][n]);
    }
    forall t | t in s'.locks && s'.locks[t].held
      ensures exists id, n :: HeldFor(s', t, id, n)
    {
      var id, n :| HeldFor(s, t, id, n);
      assert HeldFor(s', t, id, n);
    }
  }

  predicate SameExtent(l: Lock, l': Lock) {
    !l.held && l.details.root == l'.details.root && l.details.zeroDepth == l'.details.zeroDepth
  }

  /** Changing or removing one lock that no request has. */
  lemma OthersKeep(s: State, ls': Locks, token: string)
    requires Inv(s) && token in s.issued && token in s.locks && !s.locks[token].held
    requires ls' == s.locks - {token} ||
      (token in ls' && ls' == s.locks[token := ls'[token]] && SameExtent(ls'[token], s.locks[token]))
    ensures Inv(s.(locks := ls'))
  {
    var s' := s.(locks := ls');
    SameExtentKeepsExclusive(s.locks, ls');
    forall id, n | id in s'.requests && n in s'.requests[id]
      ensures EntryOk(s', n, s'.requests[id][n])
    {
      assert EntryOk(s, n, s.requests[id][n]);
    }
    forall t | t in s'.locks && s'.locks[t].held
      ensures exists id, n :: HeldFor(s', t, id, n)
    {
      assert t != token && s.locks[t].held;
      var id, n :| HeldFor(s, t, id, n);
      assert HeldFor(s', t, id, n);
    }
  }

  function WithTemporary(s: State, now: int, id: nat, n: Name, token: string): State {
    s.(locks := s.locks[token := NewLock(now, TemporaryDetails(n))], used := s.used + {token},
       requests := s.requests[id := Entries(s, id)[n := Entry(token, true)]])
  }

  /** What one request has, no other can lock. */
  lemma EnteredIsLocked(s: State, id: nat, n: Name)
    requires EntriesOk(s)
    ensures n in Entries(s, id) ==> !CanLock(s.locks, n, true)
  {
    if n in Entries(s, id) {
      assert EntryOk(s, n, s.requests[id][n]);
    }
  }

  lemma TemporaryEntries(s: State, now: int, id: nat, n: Name, token: string)
    requires EntriesOk(s) && Apart(s) && TokensOk(s) && token !in s.used && token != ""
    ensures var s' := WithTemporary(s, now, id, n, token); EntriesOk(s') && Apart(s') && TokensOk(s')
  {
    var s' := WithTemporary(s, now, id, n, token);
    forall i, m | i in s'.requests && m in s'.requests[i]
      ensures EntryOk(s', m, s'.requests[i][m])
      ensures if i == id && m == n then s'.requests[i][m].token == token else
        i in s.requests && m in s.requests[i] && s'.requests[i][m] == s.requests[i][m] &&
          s.requests[i][m].token != token
    {
      if i != id || m != n {
        assert EntryOk(s, m, s.requests[i][m]);
      }
    }
  }

  lemma TemporaryLockKeeps(s: State, now: int, id: nat, n: Name, token: string)
    requires Inv(s) && CanLock(s.locks, n, true) && token !in s.used && token != ""
    ensures Inv(WithTemporary(s, now, id, n, token))
  {
    var s' := WithTemporary(s, now, id, n, token);
    CreateKeepsExclusive(s.locks, token, NewLock(now, TemporaryDetails(n)));
    EnteredIsLocked(s, id, n);
    TemporaryEntries(s, now, id, n, token);
    forall t | t in s'.locks && s'.locks[t].held
      ensures exists i, m :: HeldFor(s', t, i, m)
    {
      var i, m :| HeldFor(s, t, i, m);
      assert HeldFor(s', t, i, m);
    }
  }

  function WithoutTemporary(s: State, id: nat, n: Name): State
    requires n in Entries(s, id)
  {
    s.(locks := s.locks - {Entries(s, id)[n].token}, requests := s.requests[id := Entries(s, id) - {n}])
  }

  lemma RemainingEntry(s: State, id: nat, n: Name, i: nat, m: Name)
    requires Inv(s) && n in Entries(s, id) && Entries(s, id)[n].temporary
    requires var s' := WithoutTemporary(s, id, n); i in s'.requests && m in s'.requests[i]
    ensures var s' := WithoutTemporary(s, id, n);
            i in s.requests && m in s.requests[i] && s'.requests[i][m] == s.requests[i][m] &&
              EntryOk(s', m, s.requests[i][m])
  {
    TokenOfOne(s, id, n, i, m);
    assert EntryOk(s, m, s.requests[i][m]);
  }

  lemma TemporaryUnlockKeeps(s: State, id: nat, n: Name)
    requires Inv(s) && n in Entries(s, id) && Entries(s, id)[n].temporary
    ensures Inv(WithoutTemporary(s, id, n))
  {
    hide Exclusive, HeldForSomeone;
    var s' := WithoutTemporary(s, id, n);
    SameExtentKeepsExclusive(s.locks, s'.locks);
    forall i, m | i in s'.requests && m in s'.requests[i]
      ensures i in s.requests && m in s.requests[i] && s'.requests[i][m] == s.requests[i][m] &&
        EntryOk(s', m, s'.requests[i][m])
    {
      RemainingEntry(s, id, n, i, m);
    }
    TemporaryUnlockHeld(s, id, n);
  }

  lemma TemporaryUnlockHeld(s: State, id: nat, n: Name)
    requires EntriesOk(s) && HeldForSomeone(s) && n in Entries(s, id) && Entries(s, id)[n].temporary
    ensures HeldForSomeone(WithoutTemporary(s, id, n))
  {
    hide EntriesOk;
    var s' := WithoutTemporary(s, id, n);
    EntryIsOk(s, id, n);
    forall t | t in s'.locks && s'.locks[t].held
      ensures exists i, m :: HeldFor(s', t, i, m)
    {
      var i, m :| HeldFor(s, t, i, m);
      assert HeldFor(s', t, i, m);
    }
  }

  /** A temporary lock is entered once. */
  lemma TokenOfOne(s: State, id: nat, n: Name, i: nat, m: Name)
    requires EntriesOk(s) && Apart(s) && n in Entries(s, id) && Entries(s, id)[n].temporary
    requires m in Entries(s, i) && (i != id || m != n)
    ensures Entries(s, i)[m].token != Entries(s, id)[n].token
  {
    assert EntryOk(s, n, s.requests[id][n]) && EntryOk(s, m, s.requests[i][m]);
  }

  // ---------- claiming and releasing ----------

  lemma ClaimedTokens(ls: Locks, n0: Option<Name>, n1: Option<Name>, conditions: seq<Condition>)
    requires Claims(ls, n0, n1, conditions).Some?
    ensures var r := Claimed(ls, n0, conditions) + Claimed(ls, n1, conditions);
            && Tokens(r) == Claims(ls, n0, n1, conditions).value
            && (forall n :: n in r ==> Claimable(ls, n, r[n].token) && !r[n].temporary)
            && (forall n :: n in r ==> Presented(conditions, r[n].token))
  {
    var r := Claimed(ls, n0, conditions) + Claimed(ls, n1, conditions);
    if n0.Some? {
      LookupPresented(ls, n0.value, conditions);
      assert n0.value in r && r[n0.value].token == Lookup(ls, n0.value, conditions).value;
    }
    if n1.Some? {
      LookupPresented(ls, n1.value, conditions);
      assert n1.value in r;
    }
    forall t | t in Claims(ls, n0, n1, conditions).value
      ensures t in Tokens(r)
    {
      var n := if n0.Some? && t == Lookup(ls, n0.value, conditions).value then n0.value else n1.value;
      assert n in r && r[n].token == t;
    }
  }

  predicate Presented(conditions: seq<Condition>, t: string) {
    exists i :: 0 <= i < |conditions| && conditions[i].token == t
  }

  lemma {:induction false} LookupPresented(ls: Locks, n: Name, conditions: seq<Condition>)
    ensures Lookup(ls, n, conditions).Some? ==> Presented(conditions, Lookup(ls, n, conditions).value)
  {
    if conditions != [] && !Claimable(ls, n, conditions[0].token) {
      LookupPresented(ls, n, conditions[1..]);
      if Lookup(ls, n, conditions).Some? {
        var i :| 0 <= i < |conditions[1..]| && conditions[1..][i].token == Lookup(ls, n, conditions).value;
        assert conditions[i + 1].token == Lookup(ls, n, conditions).value;
      }
    }
  }

  /** Giving a new request the unheld locks that `r` names. */
  lemma ClaimKeeps(s: State, id: nat, r: Request)
    requires Inv(s) && id !in s.requests
    requires forall n :: n in r ==> Claimable(s.locks, n, r[n].token) && !r[n].temporary && r[n].token in s.issued
    ensures Inv(s.(locks := SetHeld(s.locks, Tokens(r), true), requests := s.requests[id := r]))
  {
    hide Exclusive, HeldForSomeone, Apart;
    var s' := s.(locks := SetHeld(s.locks, Tokens(r), true), requests := s.requests[id := r]);
    SameExtentKeepsExclusive(s.locks, s'.locks);
    forall i, m | i in s'.requests && m in s'.requests[i]
      ensures EntryOk(s', m, s'.requests[i][m])
    {
      OldEntryNotClaimed(s, r, i, m);
      assert i == id ==> r[m].token in Tokens(r);
    }
    ClaimApart(s, id, r);
    ClaimHeld(s, id, r);
  }

  lemma ClaimApart(s: State, id: nat, r: Request)
    requires EntriesOk(s) && Apart(s) && id !in s.requests
    requires forall n :: n in r ==> Claimable(s.locks, n, r[n].token) && !r[n].temporary && r[n].token in s.issued
    ensures Apart(s.(locks := SetHeld(s.locks, Tokens(r), true), requests := s.requests[id := r]))
  {
    hide EntriesOk, SetHeld;
    forall i, m | i in s.requests && m in s.requests[i]
      ensures s.requests[i][m].token !in Tokens(r)
    {
      OldEntryNotClaimed(s, r, i, m);
    }
    assert forall m :: m in r ==> r[m].token in Tokens(r);
  }

  lemma ClaimHeld(s: State, id: nat, r: Request)
    requires HeldForSomeone(s) && id !in s.requests && forall n :: n in r ==> !r[n].temporary
    ensures HeldForSomeone(s.(locks := SetHeld(s.locks, Tokens(r), true), requests := s.requests[id := r]))
  {
    var s' := s.(locks := SetHeld(s.locks, Tokens(r), true), requests := s.requests[id := r]);
    forall t | t in s'.locks && s'.locks[t].held
      ensures exists i, m :: HeldFor(s', t, i, m)
    {
      if t in Tokens(r) {
        var m :| m in r && r[m].token == t;
        assert HeldFor(s', t, id, m);
      } else {
        var i, m :| HeldFor(s, t, i, m);
        assert HeldFor(s', t, i, m);
      }
    }
  }

  lemma OldEntryNotClaimed(s: State, r: Request, i: nat, m: Name)
    requires EntriesOk(s)
    requires forall n :: n in r ==> Claimable(s.locks, n, r[n].token) && !r[n].temporary && r[n].token in s.issued
    ensures m in Entries(s, i) ==> EntryOk(s, m, Entries(s, i)[m]) && Entries(s, i)[m].token !in Tokens(r)
  {
    if m in Entries(s, i) {
      assert EntryOk(s, m, s.requests[i][m]);
    }
  }

  lemma ReleaseKeeps(s: State, id: nat)
    requires Inv(s) && id in s.requests && forall n :: n in s.requests[id] ==> !s.requests[id][n].temporary
    ensures Inv(s.(locks := SetHeld(s.locks, Tokens(s.requests[id]), false), requests := s.requests - {id}))
  {
    var ts := Tokens(s.requests[id]);
    var s' := s.(locks := SetHeld(s.locks, ts, false), requests := s.requests - {id});
    SameExtentKeepsExclusive(s.locks, s'.locks);
    forall i, m | i in s'.requests && m in s'.requests[i]
      ensures EntryOk(s', m, s'.requests[i][m])
    {
      assert EntryOk(s, m, s.requests[i][m]);
    }
    forall t | t in s'.locks && s'.locks[t].held
      ensures exists i, m :: HeldFor(s', t, i, m)
    {
      var i, m :| HeldFor(s, t, i, m);
      assert s.requests[i][m].token in Tokens(s.requests[i]);
      assert HeldFor(s', t, i, m);
    }
  }

  // ---------- every run ----------

  lemma NextKeepsInv(s: State, e: Event, s': State)
    requires Inv(s) && Next(s, e, s')
    ensures Inv(s')
  {
    match e
    case Expire(now) => ExpireKeeps(s, now);
    case Lock(now, d, token) =>
      ExpireKeeps(s, now);
      LockKeeps(s.(locks := Unexpired(s.locks, now)), d, token, now);
    case Unlock(now, token) =>
      ExpireKeeps(s, now);
      OthersKeep(s.(locks := Unexpired(s.locks, now)), s'.locks, token);
    case Refresh(now, token, duration) =>
      ExpireKeeps(s, now);
      OthersKeep(s.(locks := Unexpired(s.locks, now)), s'.locks, token);
    case TemporaryLock(now, id, n, token) =>
      ExpireKeeps(s, now);
      TemporaryLockKeeps(s.(locks := Unexpired(s.locks, now)), now, id, n, token);
    case TemporaryUnlock(now, id, n) =>
      ExpireKeeps(s, now);
      TemporaryUnlockKeeps(s.(locks := Unexpired(s.locks, now)), id, n);
    case Claim(now, id, n0, n1, conditions) =>
      ExpireKeeps(s, now);
      ClaimedTokens(Unexpired(s.locks, now), n0, n1, conditions);
      ClaimKeeps(s.(locks := Unexpired(s.locks, now)), id, s'.requests[id]);
    case Release(id) => ReleaseKeeps(s, id);
  }

  ghost predicate Run(states: seq<State>, events: seq<Event>) {
    && |states| == |events| + 1 && states[0] == INITIAL
    && forall i :: 0 <= i < |events| ==> Next(states[i], events[i], states[i + 1])
  }

  lemma {:induction false} RunKeepsInv(states: seq<State>, events: seq<Event>, k: nat)
    requires Run(states, events) && k < |states|
    ensures Inv(states[k])
  {
    if k > 0 {
      RunKeepsInv(states, events, k - 1);
      NextKeepsInv(states[k - 1], events[k - 1], states[k]);
    }
  }

  /** Exclusive access: no two requests have confirmed the same resource at the same time. */
  lemma ExclusiveAccess(states: seq<State>, events: seq<Event>, k: nat, i: nat, j: nat, n: Name)
    requires Run(states, events) && k < |states|
    requires n in Entries(states[k], i) && n in Entries(states[k], j)
    ensures i == j
  {
    RunKeepsInv(states, events, k);
    var s := states[k];
    var ei, ej := s.requests[i][n], s.requests[j][n];
    assert EntryOk(s, n, ei) && EntryOk(s, n, ej);
    AtMostOneCover(s.locks, ei.token, ej.token, n);
  }

  /** At most one lock that exists covers a resource, at every moment of every run. */
  lemma ExclusiveCover(states: seq<State>, events: seq<Event>, k: nat, t: string, u: string, n: Name)
    requires Run(states, events) && k < |states| && t in states[k].locks && u in states[k].locks
    requires Covers(states[k].locks[t], n) && Covers(states[k].locks[u], n)
    ensures t == u
  {
    RunKeepsInv(states, events, k);
    AtMostOneCover(states[k].locks, t, u, n);
  }

  /** A held lock changes in no way until the request that holds it releases it. */
  lemma HeldLockIsPinned(states: seq<State>, events: seq<Event>, k: nat, t: string)
    requires Run(states, events) && k < |events| && t in states[k].locks && states[k].locks[t].held
    requires events[k].Release? ==> t !in Tokens(Entries(states[k], events[k].id))
    ensures t in states[k + 1].locks && states[k + 1].locks[t] == states[k].locks[t]
  {
    hide Next, Inv;
    RunKeepsInv(states, events, k);
    StepPins(states[k], events[k], states[k + 1], t);
  }

  lemma StepPins(s: State, e: Event, s': State, t: string)
    requires Inv(s) && Next(s, e, s') && t in s.locks && s.locks[t].held
    requires e.Release? ==> t !in Tokens(Entries(s, e.id))
    ensures t in s'.locks && s'.locks[t] == s.locks[t]
  {
    hide Exclusive, Apart, HeldForSomeone, EntriesOk, Claimed, Claims, Lookup, CanLock, Conflicts;
    match e
    case TemporaryUnlock(_, id, n) => EntryIsOk(s, id, n);
    case Lock(_, _, token) => assert t in s.used;
    case TemporaryLock(_, _, _, token) => assert t in s.used;
    case _ =>
  }

  lemma EntryIsOk(s: State, id: nat, n: Name)
    requires EntriesOk(s) && n in Entries(s, id)
    ensures EntryOk(s, n, Entries(s, id)[n])
  {}

  /** The locks that are held are exactly those of the requests that claimed them, each of one request only. */
  lemma HeldIsPartitioned(states: seq<State>, events: seq<Event>, k: nat, t: string)
    requires Run(states, events) && k < |states|
    ensures t in states[k].locks && states[k].locks[t].held <==> exists i, n :: HeldFor(states[k], t, i, n)
    ensures forall i, j, m, n :: HeldFor(states[k], t, i, m) && HeldFor(states[k], t, j, n) ==> i == j
  {
    RunKeepsInv(states, events, k);
    if i, n :| HeldFor(states[k], t, i, n) {
      assert EntryOk(states[k], n, states[k].requests[i][n]);
    }
  }
}
