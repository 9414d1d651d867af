/**
 The lock system while requests come and go.  A server keeps one `MemLS` and, for every
 request that has claimed locks, the nodes that its release function remembers.  Every call
 on the server is one step of `LockProtocol`, so what holds of all runs of the protocol holds
 of the server; and a release can be run whatever was done since the claim.
 */
module LockServer {
  import opened Paths
  import opened LockSpec
  import opened LockProtocol
  import opened MemoryLocks
  import opened Wrappers
  import Decimal

  /** The numerals that the lock system has used up. */
  ghost predicate Numerals(used: set<string>, gen: nat) {
    forall t :: t in used ==> exists k: nat :: k <= gen && t == Decimal.Itoa(k)
  }

  lemma NextNumeral(used: set<string>, gen: nat)
    requires Numerals(used, gen)
    ensures Decimal.Itoa(gen + 1) !in used && Decimal.Itoa(gen + 1) != ""
    ensures Numerals(used + {Decimal.Itoa(gen + 1)}, gen + 1)
  {
    Decimal.ItoaNonEmpty(gen + 1);
    forall k: nat | k <= gen
      ensures Decimal.Itoa(k) != Decimal.Itoa(gen + 1)
    {
      Decimal.ItoaInjective(k, gen + 1);
    }
  }

  lemma RunOn(states: seq<State>, events: seq<Event>, e: Event, s: State)
    requires Run(states, events) && Next(states[|events|], e, s)
    ensures Run(states + [s], events + [e])
  {
    hide Next;
  }

  /** A request has temporary locks or claimed ones. */
  predicate AllTemporary(r: Request, temporary: bool) {
    forall n :: n in r ==> r[n].temporary == temporary
  }

  lemma TokensApart(s: State, i: nat, j: nat)
    requires Apart(s) && i in s.requests && j in s.requests && i != j
    ensures Tokens(s.requests[i]) !! Tokens(s.requests[j])
  {}

  lemma TokensHeld(s: State, id: nat, t: string)
    requires EntriesOk(s) && id in s.requests && AllTemporary(s.requests[id], false)
    ensures t in Tokens(s.requests[id]) ==> t in s.locks && s.locks[t].held
  {
    if t in Tokens(s.requests[id]) {
      var n :| n in s.requests[id] && s.requests[id][n].token == t;
      assert EntryOk(s, n, s.requests[id][n]);
    }
  }

  /** What a request has claimed stays held through every step but its own release. */
  lemma ClaimPinned(s: State, e: Event, s': State, id: nat)
    requires Inv(s) && Next(s, e, s') && id in s.requests && AllTemporary(s.requests[id], false)
    requires e.Release? ==> e.id != id
    ensures forall t :: t in Tokens(s.requests[id]) ==> t in s'.locks && s'.locks[t].held
  {
    hide Next, Exclusive, HeldForSomeone, EntriesOk, Tokens, AllTemporary;
    forall t | t in Tokens(s.requests[id])
      ensures t in s'.locks && s'.locks[t].held
    {
      TokensHeld(s, id, t);
      if e.Release? && e.id in s.requests {
        TokensApart(s, id, e.id);
      }
      NoTokens();
      StepPins(s, e, s', t);
    }
  }

  lemma NoTokens()
    ensures Tokens(map[]) == {}
  {}

  function TemporaryRequest(tokens: map<Name, string>): Request {
    map n | n in tokens :: Entry(tokens[n], true)
  }

  /** A request has a claim or temporary locks. */
  ghost predicate Sorted(claims: set<nat>, tokens: map<nat, map<Name, string>>, requests: map<nat, Request>) {
    && claims + tokens.Keys == requests.Keys && claims !! tokens.Keys
    && forall id :: id in tokens ==> requests[id] == TemporaryRequest(tokens[id])
  }

  function TokensOfRequest(tokens: map<nat, map<Name, string>>, id: nat): map<Name, string> {
    if id in tokens then tokens[id] else map[]
  }

  lemma ExpireStep(s: State, now: int)
    ensures Next(s, Expire(now), State(Unexpired(s.locks, now), s.used, s.issued, s.requests))
  {}

  lemma TemporaryLockStep(s: State, now: int, id: nat, n: Name, t: string, claims: set<nat>,
                          tokens: map<nat, map<Name, string>>)
    requires Sorted(claims, tokens, s.requests) && id !in claims && t !in s.used && t != ""
    requires CanLock(Unexpired(s.locks, now), n, true)
    ensures var tokens' := tokens[id := TokensOfRequest(tokens, id)[n := t]];
            var requests' := s.requests[id := TemporaryRequest(tokens'[id])];
            && Sorted(claims, tokens', requests')
            && Next(s, Event.TemporaryLock(now, id, n, t),
                    State(Unexpired(s.locks, now)[t := NewLock(now, LockDetails(n, -1, "", true))], s.used + {t},
                      s.issued, requests'))
  {
    var had := TokensOfRequest(tokens, id);
    assert TemporaryRequest(had[n := t]) == TemporaryRequest(had)[n := Entry(t, true)];
    assert Entries(s, id) == TemporaryRequest(had);
  }

  lemma TemporaryUnlockStep(s: State, now: int, id: nat, n: Name, claims: set<nat>, tokens: map<nat, map<Name, string>>)
    requires Sorted(claims, tokens, s.requests) && Inv(s) && id in tokens && n in tokens[id]
    ensures var t := tokens[id][n];
            var tokens' := tokens[id := tokens[id] - {n}];
            var requests' := s.requests[id := TemporaryRequest(tokens'[id])];
            && t in Unexpired(s.locks, now) && !s.locks[t].held
            && Sorted(claims, tokens', requests')
            && Next(s, Event.TemporaryUnlock(now, id, n),
              State(Unexpired(s.locks, now) - {t}, s.used, s.issued, requests'))
  {
    hide Exclusive, HeldForSomeone, Apart;
    EntryIsOk(s, id, n);
    assert TemporaryRequest(tokens[id] - {n}) == TemporaryRequest(tokens[id]) - {n};
  }

  lemma ClaimStep(s: State, now: int, id: nat, x0: Option<Name>, x1: Option<Name>, conditions: seq<Condition>,
                  claims: set<nat>, tokens: map<nat, map<Name, string>>)
    requires Sorted(claims, tokens, s.requests) && id !in claims && id !in tokens
    requires Claims(Unexpired(s.locks, now), x0, x1, conditions).Some?
    requires forall i :: 0 <= i < |conditions| && conditions[i].token in s.locks ==> conditions[i].token in s.issued
    ensures var u := Unexpired(s.locks, now);
            var requests' := s.requests[id := Claimed(u, x0, conditions) + Claimed(u, x1, conditions)];
            && Sorted(claims + {id}, tokens, requests')
            && Next(s, Event.Claim(now, id, x0, x1, conditions),
                    State(SetHeld(u, Claims(u, x0, x1, conditions).value, true), s.used, s.issued, requests'))
  {
    hide Claims, Claimed, SetHeld;
    var u := Unexpired(s.locks, now);
    assert forall t :: t in u ==> t in s.locks;
  }

  lemma ReleaseStep(s: State, id: nat, claims: set<nat>, tokens: map<nat, map<Name, string>>)
    requires Sorted(claims, tokens, s.requests) && id in claims && AllTemporary(s.requests[id], false)
    ensures Sorted(claims - {id}, tokens, s.requests - {id})
    ensures Next(s, Event.Release(id),
      State(SetHeld(s.locks, Tokens(s.requests[id]), false), s.used, s.issued, s.requests - {id}))
  {
    hide SetHeld, Tokens;
  }

  /** The lock is there at that time, and no request has claimed it. */
  predicate IsFree(ls: Locks, now: int, token: string) {
    var u := Unexpired(ls, now); token in u && !u[token].held
  }

  class Server {
    const ls: MemLS
    var issued: set<string>                   // the tokens that clients have been shown
    var tokens: map<nat, map<Name, string>>   // the temporary locks of each request that has some
    var nodes: map<nat, (Node?, Node?)>       // what the release function of each claim remembers
    ghost var requests: map<nat, Request>
    ghost var used: set<string>
    ghost var states: seq<State>
    ghost var trace: seq<Event>

    ghost function S(): State
      reads this`requests, this`issued, this`used, ls`locks
    {
      State(ls.locks, used, issued, requests)
    }

    /** A remembered node still stands for its lock, which is held. */
    ghost predicate Grip(n: Node?)
      reads ls, ls.Repr
    {
      n != null ==> n in ls.Repr && n.token in ls.byToken && ls.byToken[n.token] == n && n.held
    }

    /** The nodes remembered are those of the locks that the request has claimed. */
    ghost predicate Remembers(id: nat)
      reads this`requests, this`nodes, ls, ls.Repr
    {
      id in nodes ==>
        && id in requests && AllTemporary(requests[id], false)
        && Grip(nodes[id].0) && Grip(nodes[id].1) && (nodes[id].0 != null ==> nodes[id].0 != nodes[id].1)
        && MemLS.TokensOf(nodes[id].0, nodes[id].1) == Tokens(requests[id])
    }

    ghost predicate Valid()
      reads this, ls, ls.Repr, ls.byExpiry
    {
      && ls.Valid() && Numerals(used, ls.gen)
      && Run(states, trace) && states[|trace|] == S()
      && (forall id :: Remembers(id)) && Sorted(nodes.Keys, tokens, requests)
    }

    constructor (gen: nat)
      ensures Valid() && fresh(ls) && fresh(ls.Repr) && states == [INITIAL] && nodes == map[]
    {
      hide MemLS.Valid, Next, Inv;
      ls := new MemLS(gen);
      requests, issued, tokens, nodes, used := map[], {}, map[], map[], {};
      states, trace := [INITIAL], [];
    }

    lemma Parts()
      requires Valid()
      ensures ls.Valid() && Numerals(used, ls.gen) && Run(states, trace) && states[|trace|] == S() &&
        Sorted(nodes.Keys, tokens, requests)
      ensures (forall id :: Remembers(id)) && nodes.Keys <= requests.Keys
      ensures Inv(S())
    {
      hide ls.Valid, Next, Inv;
      RunKeepsInv(states, trace, |trace|);
    }

    lemma Current()
      requires Valid()
      ensures Run(states, trace) && |states| == |trace| + 1 && states[|trace|] == S()
    {}

    /** What a request has is either claimed or temporary. */
    lemma Places(id: nat)
      requires Valid()
      ensures id in requests <==> id in nodes || id in tokens
      ensures id in nodes ==> id !in tokens && AllTemporary(Entries(S(), id), false)
      ensures id !in nodes ==> AllTemporary(Entries(S(), id), true)
      ensures Entries(S(), id) == if id in nodes then requests[id] else TemporaryRequest(TokensOfRequest(tokens, id))
    {
      hide ls.Valid, Run, Numerals;
      assert Remembers(id);
    }

    // ---------- a claim survives whatever else is done ----------

    /** Tokens that were live before and are now have the same nodes. */
    twostate predicate SameNodes()
      reads ls
    {
      forall t :: t in old(ls.byToken) && t in ls.byToken ==> ls.byToken[t] == old(ls.byToken)[t]
    }

    /** The node of a claimed lock keeps standing for it. */
    twostate lemma GripKept(n: Node?)
      requires old(Grip(n)) && ls.Valid() && SameNodes()
      requires n != null ==> old(n.token) in ls.locks && ls.locks[old(n.token)].held
      ensures Grip(n) && (n != null ==> n.token == old(n.token))
    {
      hide ls.Valid;
      if n != null {
        ls.LiveTokens(old(n.token));
        HeldNode(n);
      }
    }

    lemma HeldNode(n: Node)
      requires ls.Valid() && n.token in ls.byToken && ls.byToken[n.token] == n
      ensures n in ls.Repr && n.token in ls.locks && ls.locks[n.token].held == n.held
    {
      hide ls.Valid;
      ls.LockOfNode(n);
    }

    twostate lemma ClaimKept(id: nat)
      requires old(Remembers(id)) && ls.Valid() && SameNodes()
      requires id in old(nodes) && id in nodes && nodes[id] == old(nodes)[id]
      requires id in requests && requests[id] == old(requests)[id]
      requires forall t :: t in Tokens(old(requests)[id]) ==> t in ls.locks && ls.locks[t].held
      ensures Remembers(id)
    {
      hide ls.Valid, Grip, Tokens;
      GripKept(nodes[id].0);
      GripKept(nodes[id].1);
    }

    /** A step of the lock system and of the protocol: every claim that stays is still remembered. */
    twostate lemma Stepped(e: Event)
      requires old(Valid()) && ls.Valid() && SameNodes() && Numerals(used, ls.gen) &&
        Sorted(nodes.Keys, tokens, requests)
      requires Next(old(S()), e, S()) && states == old(states) + [S()] && trace == old(trace) + [e]
      requires forall id :: id in nodes && id !in old(nodes) ==> Remembers(id)
      requires forall id :: id in nodes && id in old(nodes) ==>
        nodes[id] == old(nodes)[id] && id in requests && id in old(requests) && requests[id] == old(requests)[id] &&
          (e.Release? ==> e.id != id)
      ensures Valid()
    {
      hide ls.Valid, Next, Inv, Numerals, SameNodes, Remembers, Sorted;
      RunKeepsInv(old(states), old(trace), |old(trace)|);
      RunOn(old(states), old(trace), e, S());
      forall id
        ensures Remembers(id)
      {
        if id in nodes && id in old(nodes) {
          WasClaim(id);
          ClaimPinned(old(S()), e, S(), id);
          ClaimKept(id);
        } else {
          NotRemembered(id);
        }
      }
    }

    twostate lemma WasClaim(id: nat)
      requires old(Remembers(id)) && id in old(nodes)
      ensures id in old(requests) && AllTemporary(old(requests)[id], false)
    {}

    lemma NotRemembered(id: nat)
      ensures id !in nodes ==> Remembers(id)
    {}

    // ---------- the calls ----------

    /** A client presents a live token only if it has been shown it. */
    ghost predicate Presentable(token: string)
      reads this`issued, ls`locks
    {
      token in ls.locks ==> token in issued
    }

    method TakeLock(now: int, path: string, duration: int, owner: string, zeroDepth: bool) returns (r: Result<string>)
      requires Valid()
      modifies this, ls, ls.Repr
      ensures Valid() && fresh(ls.Repr - old(ls.Repr)) && nodes == old(nodes)
      ensures states == old(states) + [S()] && old(issued) <= issued
      ensures trace == old(trace) +
        [if r.Ok? then Event.Lock(now, LockDetails(SlashClean(path), duration, owner, zeroDepth), r.value)
          else Expire(now)]
      ensures r.Ok? <==> CanLock(Unexpired(old(ls.locks), now), SlashClean(path), zeroDepth)
    {
      hide ls.Valid, Numerals, Remembers, Run, CanLock, SlashClean, Unexpired, Sorted;
      Parts();
      NextNumeral(used, ls.gen);
      r := ls.Create(now, path, duration, owner, zeroDepth);
      if r.Ok? {
        used, issued := used + {r.value}, issued + {r.value};
      }
      ghost var e := if r.Ok? then Event.Lock(now, LockDetails(SlashClean(path), duration, owner, zeroDepth), r.value)
        else Expire(now);
      states, trace := states + [S()], trace + [e];
      Stepped(e);
    }

    method DropLock(now: int, token: string) returns (r: Result<()>)
      requires Valid() && Presentable(token)
      modifies this, ls, ls.Repr
      ensures Valid() && fresh(ls.Repr - old(ls.Repr)) && nodes == old(nodes)
      ensures states == old(states) + [S()] && old(issued) <= issued
      ensures trace == old(trace) + [if r.Ok? then Event.Unlock(now, token) else Expire(now)]
      ensures r.Ok? <==> IsFree(old(ls.locks), now, token)
    {
      hide ls.Valid, Numerals, Remembers, Run, Sorted;
      Parts();
      r := ls.Unlock(now, token);
      ghost var e := if r.Ok? then Event.Unlock(now, token) else Expire(now);
      states, trace := states + [S()], trace + [e];
      Stepped(e);
    }

    method RefreshLock(now: int, token: string, duration: int) returns (r: Result<LockDetails>)
      requires Valid() && Presentable(token)
      modifies this, ls, ls.Repr
      ensures Valid() && fresh(ls.Repr - old(ls.Repr)) && nodes == old(nodes)
      ensures states == old(states) + [S()] && old(issued) <= issued
      ensures trace == old(trace) + [if r.Ok? then Event.Refresh(now, token, duration) else Expire(now)]
      ensures r.Ok? <==> IsFree(old(ls.locks), now, token)
    {
      hide ls.Valid, Numerals, Remembers, Run, Refreshed, Sorted;
      Parts();
      r := ls.Refresh(now, token, duration);
      ghost var e := if r.Ok? then Event.Refresh(now, token, duration) else Expire(now);
      states, trace := states + [S()], trace + [e];
      Stepped(e);
    }

    /** Takes a temporary lock for a request. */
    method LockForRequest(now: int, id: nat, path: string) returns (ok: bool)
      requires Valid() && id !in nodes
      modifies this, ls, ls.Repr
      ensures Valid() && fresh(ls.Repr - old(ls.Repr)) && nodes == old(nodes)
      ensures states == old(states) + [S()] && old(issued) <= issued
      ensures ok ==> id in tokens && SlashClean(path) in tokens[id]
      ensures ok <==> CanLock(Unexpired(old(ls.locks), now), SlashClean(path), true)
      ensures trace == old(trace) + [if ok then Event.TemporaryLock(now, id, SlashClean(path),
        tokens[id][SlashClean(path)]) else Expire(now)]
    {
      hide ls.Valid, Numerals, Remembers, Run, Next, Inv, Sorted, CanLock, SlashClean, Unexpired, NewLock,
        TemporaryRequest;
      Parts();
      NextNumeral(used, ls.gen);
      var r := ls.Create(now, path, -1, "", true);
      ok := r.Ok?;
      if !ok {
        ExpireStep(old(S()), now);
        states, trace := states + [S()], trace + [Expire(now)];
        Stepped(Expire(now));
        return;
      }
      ghost var n, e := SlashClean(path), Event.TemporaryLock(now, id, SlashClean(path), r.value);
      TemporaryLockStep(old(S()), now, id, n, r.value, nodes.Keys, tokens);
      used := used + {r.value};
      tokens := tokens[id := TokensOfRequest(tokens, id)[SlashClean(path) := r.value]];
      requests := requests[id := TemporaryRequest(tokens[id])];
      states, trace := states + [S()], trace + [e];
      Stepped(e);
    }

    /** Gives up a temporary lock; it is there. */
    method UnlockForRequest(now: int, id: nat, n: Name)
      requires Valid() && id in tokens && n in tokens[id]
      modifies this, ls, ls.Repr
      ensures Valid() && fresh(ls.Repr - old(ls.Repr)) && nodes == old(nodes)
      ensures states == old(states) + [S()] && old(issued) <= issued
      ensures trace == old(trace) + [Event.TemporaryUnlock(now, id, n)]
      ensures old(tokens)[id][n] !in ls.locks
    {
      hide ls.Valid, Numerals, Remembers, Run, Next, Inv, Sorted, SlashClean, Unexpired, TemporaryRequest;
      Parts();
      TemporaryUnlockStep(S(), now, id, n, nodes.Keys, tokens);
      IdsOf(id);
      SameLock(ls.locks, now, tokens[id][n]);
      var _ := ls.Unlock(now, tokens[id][n]);
      tokens := tokens[id := tokens[id] - {n}];
      requests := requests[id := TemporaryRequest(tokens[id])];
      ghost var e := Event.TemporaryUnlock(now, id, n);
      states, trace := states + [S()], trace + [e];
      Stepped(e);
    }

    lemma IdsOf(id: nat)
      requires Sorted(nodes.Keys, tokens, requests)
      ensures !(id in nodes && id in tokens) && nodes.Keys <= requests.Keys
    {}

    lemma SameLock(locks: Locks, now: int, t: string)
      ensures t in Unexpired(locks, now) ==> t in locks && Unexpired(locks, now)[t] == locks[t]
    {}

    /** Claims locks for a request that has none. */
    method Confirm(now: int, id: nat, name0: string, name1: string, conditions: seq<Condition>) returns (ok: bool)
      requires Valid() && id !in nodes && id !in tokens
      requires forall i :: 0 <= i < |conditions| ==> Presentable(conditions[i].token)
      modifies this, ls, ls.Repr
      ensures Valid() && fresh(ls.Repr - old(ls.Repr))
      ensures states == old(states) + [S()] && old(issued) <= issued
      ensures ok <==>
        Claims(Unexpired(old(ls.locks), now), MemLS.NameArg(name0), MemLS.NameArg(name1), conditions).Some?
      ensures nodes.Keys == old(nodes).Keys + if ok then {id} else {}
      ensures forall i :: i in old(nodes) ==> nodes[i] == old(nodes)[i]
      ensures trace == old(trace) + [if ok then Event.Claim(now, id, MemLS.NameArg(name0), MemLS.NameArg(name1),
        conditions) else Expire(now)]
    {
      hide ls.Valid, ls.Handles, Numerals, Remembers, Run, Next, Inv, Sorted, Unexpired, Claims, Claimed, SetHeld,
        Lookup, SlashClean, MemLS.NameArg, MemLS.TokensOf, Tokens, AllTemporary, Grip;
      Parts();
      ghost var u, x0, x1 := Unexpired(ls.locks, now), MemLS.NameArg(name0), MemLS.NameArg(name1);
      var n0, n1;
      ok, n0, n1 := ls.Confirm(now, name0, name1, conditions);
      if !ok {
        ExpireStep(old(S()), now);
        states, trace := states + [S()], trace + [Expire(now)];
        Stepped(Expire(now));
        return;
      }
      ghost var e := Event.Claim(now, id, x0, x1, conditions);
      ClaimStep(old(S()), now, id, x0, x1, conditions, nodes.Keys, tokens);
      nodes := nodes[id := (n0, n1)];
      requests := requests[id := Claimed(u, x0, conditions) + Claimed(u, x1, conditions)];
      ClaimRemembered(id, u, x0, x1, conditions);
      states, trace := states + [S()], trace + [e];
      assert nodes.Keys == old(nodes).Keys + {id};
      Stepped(e);
    }

    lemma ClaimRemembered(id: nat, u: Locks, x0: Option<Name>, x1: Option<Name>, conditions: seq<Condition>)
      requires ls.Valid() && id in nodes && ls.Handles(nodes[id].0, nodes[id].1)
      requires id in requests && requests[id] == Claimed(u, x0, conditions) + Claimed(u, x1, conditions)
      requires Claims(u, x0, x1, conditions) == Some(MemLS.TokensOf(nodes[id].0, nodes[id].1))
      requires ls.locks == SetHeld(u, MemLS.TokensOf(nodes[id].0, nodes[id].1), true)
      ensures Remembers(id)
    {
      hide ls.Valid, Claims, Claimed, Tokens;
      ClaimedTokens(u, x0, x1, conditions);
      if nodes[id].0 != null {
        HeldNode(nodes[id].0);
      }
      if nodes[id].1 != null {
        HeldNode(nodes[id].1);
      }
    }

    lemma Outstanding(id: nat)
      requires Remembers(id) && id in nodes
      ensures id in requests && AllTemporary(requests[id], false)
      ensures var (n0, n1) := nodes[id];
              && ls.Handles(n0, n1) && (n0 != null ==> n0.held) && (n1 != null ==> n1.held)
              && MemLS.TokensOf(n0, n1) == Tokens(requests[id])
    {
      hide Tokens, AllTemporary;
    }

    /** Releases a claim.  Nothing that was done since has freed or removed one of its locks. */
    method Release(id: nat)
      requires Valid() && id in nodes
      modifies this, ls, ls.Repr
      ensures Valid() && fresh(ls.Repr - old(ls.Repr)) && nodes == old(nodes) - {id}
      ensures states == old(states) + [S()] && old(issued) <= issued
      ensures trace == old(trace) + [Event.Release(id)]
    {
      hide ls.Valid, Numerals, Remembers, Run, Next, Inv, Sorted, SetHeld, Tokens, SlashClean, MemLS.TokensOf;
      Parts();
      Outstanding(id);
      ReleaseStep(S(), id, nodes.Keys, tokens);
      var n0, n1 := nodes[id].0, nodes[id].1;
      ls.Release(n0, n1);
      nodes := nodes - {id};
      requests := requests - {id};
      ghost var e := Event.Release(id);
      states, trace := states + [S()], trace + [e];
      assert nodes.Keys == old(nodes).Keys - {id};
      Stepped(e);
    }

    // ---------- what holds of every server ----------

    /** No two requests have the same resource, by whatever locks. */
    lemma ExclusiveRequests(i: nat, j: nat, n: Name)
      requires Valid() && n in Entries(S(), i) && n in Entries(S(), j)
      ensures i == j
    {
      hide ls.Valid, Next;
      ExclusiveAccess(states, trace, |trace|, i, j, n);
    }

    /** The nodes that releases remember are held, and no resource is under two of them. */
    lemma ExclusiveClaims(i: nat, j: nat, x: Node, y: Node, n: Name)
      requires Valid() && i in nodes && j in nodes
      requires x in {nodes[i].0, nodes[i].1} && y in {nodes[j].0, nodes[j].1}
      requires Covers(MemLS.LockOf(x), n) && Covers(MemLS.LockOf(y), n)
      ensures x.held && i == j && x == y
    {
      hide ls.Valid, Next, Inv, Covers, Sorted, AllTemporary, Tokens;
      Parts();
      assert Remembers(i) && Remembers(j);
      ls.LiveTokens(x.token);
      ls.LiveTokens(y.token);
      ExclusiveCover(states, trace, |trace|, x.token, y.token, n);
      assert x.token in Tokens(requests[i]) && x.token in Tokens(requests[j]);
      InvApart(S());
      if i != j {
        TokensApart(S(), i, j);
      }
    }
  }

  lemma InvApart(s: State)
    requires Inv(s)
    ensures Apart(s)
  {}
}
