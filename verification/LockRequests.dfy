/**
 Requests on a lock server.  Any calls may be made in any order; and a write request confirms
 its locks, works and releases them while other requests come in between its steps.
 */
module LockRequests {
  import opened Paths
  import opened LockSpec
  import opened LockProtocol
  import opened LockServer
  import opened MemoryLocks
  import opened Wrappers
  import Decimal
  import IfHeaders
  import LockHandler

  // ---------- any calls in any order ----------

  datatype Call =
    | TakeLock(now: int, path: string, duration: int, owner: string, zeroDepth: bool)
    | DropLock(now: int, token: string)
    | RefreshLock(now: int, token: string, duration: int)
    | LockForRequest(now: int, id: nat, path: string)
    | UnlockForRequest(now: int, id: nat, name: Name)
    | Confirm(now: int, id: nat, name0: string, name1: string, conditions: seq<Condition>)
    | Release(id: nat)

  /** The write request that makes the call. */
  function CallId(c: Call): Option<nat> {
    if c.LockForRequest? || c.UnlockForRequest? || c.Confirm? || c.Release? then Some(c.id) else None
  }

  function EventId(e: Event): Option<nat> {
    if e.TemporaryLock? || e.TemporaryUnlock? || e.Claim? || e.Release? then Some(e.id) else None
  }

  predicate Unseen(s: State, token: string) {
    token in s.locks && token !in s.issued
  }

  /**
   The event by which a call is answered; a call that is refused lets old locks expire.  Not
   made are only calls that nobody can make: with a live token that nobody was shown, with a
   release that was not handed out, or a first confirmation of a request that has one.
   */
  predicate Answers(s: State, call: Call, made: Option<Event>) {
    match call
    case TakeLock(now, path, duration, owner, zeroDepth) =>
      var d := LockDetails(SlashClean(path), duration, owner, zeroDepth);
      made.Some? &&
      if CanLock(Unexpired(s.locks, now), d.root, zeroDepth)
      then made.value.Lock? && made.value.now == now && made.value.details == d
      else made.value == Expire(now)
    case DropLock(now, token) =>
      if Unseen(s, token) then made == None
      else made == Some(if IsFree(s.locks, now, token) then Event.Unlock(now, token) else Expire(now))
    case RefreshLock(now, token, duration) =>
      if Unseen(s, token) then made == None
      else made == Some(if IsFree(s.locks, now, token) then Event.Refresh(now, token, duration) else Expire(now))
    case LockForRequest(now, id, path) =>
      if made.None? then id in s.requests && AllTemporary(s.requests[id], false)
      else if CanLock(Unexpired(s.locks, now), SlashClean(path), true)
      then
        && made.value.TemporaryLock? && made.value.now == now
        && made.value.id == id && made.value.name == SlashClean(path)
      else made.value == Expire(now)
    case UnlockForRequest(now, id, n) =>
      if n in Entries(s, id) && Entries(s, id)[n].temporary then made == Some(Event.TemporaryUnlock(now, id, n))
      else made == None
    case Confirm(now, id, name0, name1, conditions) =>
      if id in s.requests || exists i :: 0 <= i < |conditions| && Unseen(s, conditions[i].token) then made == None
      else
        var (n0, n1) := (MemLS.NameArg(name0), MemLS.NameArg(name1));
        made == Some(if Claims(Unexpired(s.locks, now), n0, n1, conditions).Some?
                     then Event.Claim(now, id, n0, n1, conditions) else Expire(now))
    case Release(id) =>
      if made.None? then AllTemporary(Entries(s, id), true) else made.value == Event.Release(id)
  }

  lemma LastStep(states: seq<State>, events: seq<Event>)
    requires Run(states, events) && events != []
    ensures Next(states[|events| - 1], events[|events| - 1], states[|events|])
  {
    hide Next;
  }

  predicate SameFor(s: State, s': State, id: nat) {
    Entries(s', id) == Entries(s, id) && (id in s'.requests <==> id in s.requests)
  }

  /** A step for one request leaves the others what they have. */
  lemma OthersSame(s: State, e: Event, s': State, id: nat)
    requires Next(s, e, s') && EventId(e) != Some(id)
    ensures SameFor(s, s', id)
  {}

  /** Whether a client could present this token. */
  method CanPresent(server: Server, token: string) returns (ok: bool)
    requires server.Valid()
    ensures ok == server.Presentable(token)
  {
    server.Parts();
    server.ls.LiveTokens(token);
    return token in server.issued || token !in server.ls.byToken;
  }

  method CanPresentAll(server: Server, conditions: seq<Condition>) returns (ok: bool)
    requires server.Valid()
    ensures ok <==> forall i :: 0 <= i < |conditions| ==> server.Presentable(conditions[i].token)
  {
    hide server.Valid, server.Presentable;
    for i := 0 to |conditions|
      invariant forall k :: 0 <= k < i ==> server.Presentable(conditions[k].token)
    {
      ok := CanPresent(server, conditions[i].token);
      if !ok {
        return;
      }
    }
    return true;
  }

  /** Makes a call if it can be made. */
  method Make(server: Server, call: Call) returns (ghost made: Option<Event>)
    requires server.Valid()
    modifies server, server.ls, server.ls.Repr
    ensures server.Valid() && fresh(server.ls.Repr - old(server.ls.Repr)) && old(server.issued) <= server.issued
    ensures Answers(old(server.S()), call, made)
    ensures if made.Some? then
              server.trace == old(server.trace) + [made.value] && server.states == old(server.states) + [server.S()]
            else
              && server.trace == old(server.trace) && server.states == old(server.states)
              && server.S() == old(server.S())
    ensures forall id :: CallId(call) != Some(id) ==> (id in server.nodes <==> id in old(server.nodes))
  {
    hide server.Valid, CanLock, IsFree, Unexpired, Claims, MemLS.NameArg, SlashClean;
    made := None;
    match call {
      case TakeLock(now, path, duration, owner, zeroDepth) =>
        var _ := server.TakeLock(now, path, duration, owner, zeroDepth);
        made := Some(server.trace[|server.trace| - 1]);
      case DropLock(now, token) =>
        var ok := CanPresent(server, token);
        if ok {
          var _ := server.DropLock(now, token);
          made := Some(server.trace[|server.trace| - 1]);
        }
      case RefreshLock(now, token, duration) =>
        var ok := CanPresent(server, token);
        if ok {
          var _ := server.RefreshLock(now, token, duration);
          made := Some(server.trace[|server.trace| - 1]);
        }
      case LockForRequest(now, id, path) =>
        server.Places(id);
        if id !in server.nodes {
          var _ := server.LockForRequest(now, id, path);
          made := Some(server.trace[|server.trace| - 1]);
        }
      case UnlockForRequest(now, id, name) =>
        server.Places(id);
        if id in server.tokens && name in server.tokens[id] {
          server.UnlockForRequest(now, id, name);
          made := Some(server.trace[|server.trace| - 1]);
        }
      case Confirm(now, id, name0, name1, conditions) =>
        server.Places(id);
        var ok := CanPresentAll(server, conditions);
        if ok && id !in server.nodes && id !in server.tokens {
          var _ := server.Confirm(now, id, name0, name1, conditions);
          made := Some(server.trace[|server.trace| - 1]);
        }
      case Release(id) =>
        server.Places(id);
        if id in server.nodes {
          server.Release(id);
          made := Some(server.trace[|server.trace| - 1]);
        }
    }
  }

  function Somes(made: seq<Option<Event>>): seq<Event> {
    if made == [] then []
    else Somes(made[..|made| - 1]) + if made[|made| - 1].Some? then [made[|made| - 1].value] else []
  }

  predicate Avoids(calls: seq<Call>, id: nat) {
    forall i :: 0 <= i < |calls| ==> CallId(calls[i]) != Some(id)
  }

  /** From a state on, the request has what it has there. */
  ghost predicate Keeps(states: seq<State>, from: nat, id: nat) {
    from < |states| && forall k :: from <= k < |states| ==> SameFor(states[from], states[k], id)
  }

  lemma AnswerId(s: State, call: Call, made: Option<Event>)
    requires Answers(s, call, made) && made.Some?
    ensures EventId(made.value) == None || EventId(made.value) == CallId(call)
  {
    hide CanLock, Unexpired, Claims, IsFree, SlashClean, MemLS.NameArg;
  }

  lemma StepKeeps(before: seq<State>, states: seq<State>, events: seq<Event>, from: nat, call: Call)
    requires Run(states, events) && from < |events| == |before| && before <= states
    requires var e := events[|events| - 1]; EventId(e) == None || EventId(e) == CallId(call)
    ensures forall id: nat :: CallId(call) != Some(id) && Keeps(before, from, id) ==> Keeps(states, from, id)
  {
    hide Next, Entries;
    LastStep(states, events);
    forall id: nat | CallId(call) != Some(id) && Keeps(before, from, id)
      ensures Keeps(states, from, id)
    {
      OthersSame(states[|events| - 1], events[|events| - 1], states[|events|], id);
      assert SameFor(before[from], before[|events| - 1], id);
      forall k | from <= k < |states|
        ensures SameFor(states[from], states[k], id)
      {
        if k < |events| {
          assert before[k] == states[k];
        }
      }
    }
  }

  /** The call is answered as the state it found demands. */
  ghost predicate Answered(states: seq<State>, from: nat, calls: seq<Call>, made: seq<Option<Event>>, i: nat)
    requires i < |made| <= |calls|
  {
    var k := from + |Somes(made[..i])|;
    k < |states| && Answers(states[k], calls[i], made[i])
  }

  ghost predicate Served(states: seq<State>, trace: seq<Event>, from: nat, calls: seq<Call>, made: seq<Option<Event>>) {
    && |made| <= |calls| && |states| == |trace| + 1 && from <= |trace| && trace[from..] == Somes(made)
    && forall i :: 0 <= i < |made| ==> Answered(states, from, calls, made, i)
  }

  lemma AnsweredLater(states: seq<State>, from: nat, calls: seq<Call>, made: seq<Option<Event>>, one: Option<Event>,
                      states': seq<State>, i: nat)
    requires i < |made| < |calls| && Answered(states, from, calls, made, i) && states <= states'
    ensures Answered(states', from, calls, made + [one], i)
  {
    hide Answers, Somes;
    assert (made + [one])[..i] == made[..i];
  }

  lemma ServedMore(states: seq<State>, trace: seq<Event>, from: nat, calls: seq<Call>, made: seq<Option<Event>>,
                   one: Option<Event>, states': seq<State>, trace': seq<Event>)
    requires Served(states, trace, from, calls, made) && |made| < |calls|
    requires Answers(states[|trace|], calls[|made|], one) && states <= states' && |states'| == |trace'| + 1
    requires trace' == if one.Some? then trace + [one.value] else trace
    ensures Served(states', trace', from, calls, made + [one])
  {
    hide Answers, Answered;
    var more := made + [one];
    assert more[..|made|] == made;
    assert trace'[from..] == Somes(more);
    forall i | 0 <= i < |more|
      ensures Answered(states', from, calls, more, i)
    {
      if i < |made| {
        AnsweredLater(states, from, calls, made, one, states', i);
      } else {
        AnsweredNow(states', from, calls, more, |trace|);
      }
    }
  }

  lemma AnsweredNow(states: seq<State>, from: nat, calls: seq<Call>, more: seq<Option<Event>>, k: nat)
    requires more != [] && |more| <= |calls| && k < |states| && k == from + |Somes(more[..|more| - 1])|
    requires Answers(states[k], calls[|more| - 1], more[|more| - 1])
    ensures Answered(states, from, calls, more, |more| - 1)
  {
    hide Answers, Somes;
  }

  /**
   Serves any calls in any order: each is answered as the state it finds demands, by one event
   or by none.  A request that makes none of the calls has the same resources all along.
   */
  method Serve(server: Server, calls: seq<Call>) returns (ghost made: seq<Option<Event>>)
    requires server.Valid()
    modifies server, server.ls, server.ls.Repr
    ensures server.Valid() && fresh(server.ls.Repr - old(server.ls.Repr)) && old(server.issued) <= server.issued
    ensures old(server.trace) <= server.trace && old(server.states) <= server.states
    ensures |made| == |calls| && Served(server.states, server.trace, |old(server.trace)|, calls, made)
    ensures forall id: nat :: Avoids(calls, id) ==>
      Keeps(server.states, |old(server.trace)|, id) && (id in server.nodes <==> id in old(server.nodes))
  {
    hide server.Valid, Answers, Next, Run, Entries, Served, Keeps, Somes, server.S;
    made := [];
    server.Current();
    ServedNone(server.states, server.trace, calls);
    for i := 0 to |calls|
      invariant server.Valid() && fresh(server.ls.Repr - old(server.ls.Repr)) && old(server.issued) <= server.issued
      invariant |made| == i && Served(server.states, server.trace, |old(server.trace)|, calls, made)
      invariant old(server.trace) <= server.trace && old(server.states) <= server.states
      invariant |server.states| == |server.trace| + 1
      invariant forall id: nat :: Avoids(calls, id) ==>
        Keeps(server.states, |old(server.trace)|, id) && (id in server.nodes <==> id in old(server.nodes))
    {
      server.Current();
      ghost var before, states, trace := server.S(), server.states, server.trace;
      var one := Make(server, calls[i]);
      server.Current();
      ServedMore(states, trace, |old(server.trace)|, calls, made, one, server.states, server.trace);
      made := made + [one];
      if one.Some? {
        AnswerId(before, calls[i], one);
        StepKeeps(states, server.states, server.trace, |old(server.trace)|, calls[i]);
      }
    }
  }

  lemma ServedNone(states: seq<State>, trace: seq<Event>, calls: seq<Call>)
    requires |states| == |trace| + 1
    ensures Served(states, trace, |trace|, calls, []) && forall id: nat :: Keeps(states, |trace|, id)
  {}

  // ---------- a write request among others ----------

  /** The names that a confirmation for these paths is about. */
  function Wanted(src: string, dst: string): set<Name> {
    (if src == "" then {} else {SlashClean(src)}) + (if dst == "" then {} else {SlashClean(dst)})
  }

  /** A token that LOCK has handed out, or that is none of this server's. */
  ghost predicate Shown(issued: set<string>, token: string) {
    token in issued || forall k: nat :: token != Decimal.Itoa(k)
  }

  ghost predicate AllShown(issued: set<string>, conditions: seq<Condition>) {
    forall i :: 0 <= i < |conditions| ==> Shown(issued, conditions[i].token)
  }

  lemma ShownIsPresentable(server: Server, issued: set<string>, conditions: seq<Condition>)
    requires server.Valid() && issued <= server.issued && AllShown(issued, conditions)
    ensures forall i :: 0 <= i < |conditions| ==> server.Presentable(conditions[i].token)
  {
    hide server.ls.Valid, Run, Sorted;
    server.Parts();
  }

  /** The request has the name, if one is given, by a lock that covers it. */
  predicate HasLock(s: State, id: nat, name: string) {
    name == "" ||
    var n := SlashClean(name);
    n in Entries(s, id) && Entries(s, id)[n].token in s.locks && Covers(s.locks[Entries(s, id)[n].token], n)
  }

  /** And that lock is held for it, because one of the conditions presented its token. */
  predicate HasClaim(s: State, id: nat, name: string, conditions: seq<Condition>) {
    name == "" ||
    var n := SlashClean(name);
    && HasLock(s, id, name) && s.locks[Entries(s, id)[n].token].held
    && Presented(conditions, Entries(s, id)[n].token)
  }

  predicate ListConfirmed(s: State, id: nat, url: string -> LockHandler.Target, l: IfHeaders.IfList, src: string,
                          dst: string, path: string) {
    LockHandler.IsAbout(url, l, src, path) && HasClaim(s, id, path, l.conditions) && HasClaim(s, id, dst, l.conditions)
  }

  /** In some state from `from` on, at the time it was looked at, the list's condition was false. */
  ghost predicate Failed(states: seq<State>, from: nat, url: string -> LockHandler.Target, l: IfHeaders.IfList,
                         time: int, src: string, dst: string) {
    exists k :: from <= k < |states| && LockHandler.Fails(Unexpired(states[k].locks, time), url, l, src, dst)
  }

  /** All lists before the one at `at` failed, and that one gave the request what it asked for, or 404. */
  ghost predicate ListDecides(states: seq<State>, from: nat, s: State, id: nat, url: string -> LockHandler.Target,
                              lists: seq<IfHeaders.IfList>, times: seq<int>, src: string, dst: string,
                              status: LockHandler.Status, path: string, at: nat)
    requires at <= |lists| == |times|
  {
    && (forall j :: 0 <= j < at ==> Failed(states, from, url, lists[j], times[j], src, dst))
    && if at == |lists| then status == LockHandler.PreconditionFailed
       else if lists[at].resourceTag != "" && url(lists[at].resourceTag).OutsidePrefix?
       then status == LockHandler.NotFound
       else status == LockHandler.Proceed && ListConfirmed(s, id, url, lists[at], src, dst, path)
  }

  /** In some state from `from` on a lock stood in the way of a temporary one. */
  ghost predicate NoRoom(states: seq<State>, from: nat, now: int, name: string) {
    name != "" &&
    exists k :: from <= k < |states| && !CanLock(Unexpired(states[k].locks, now), SlashClean(name), true)
  }

  /** How a confirmation ends that begins at `from`, with `s` the state it leaves. */
  ghost predicate Outcome(states: seq<State>, from: nat, s: State, id: nat, url: string -> LockHandler.Target,
                          header: string, times: seq<int>, src: string, dst: string, status: LockHandler.Status,
                          path: string)
    requires |times| == LockHandler.Readings(header)
  {
    if header == "" then
      if status == LockHandler.Proceed then path == src && HasLock(s, id, src) && HasLock(s, id, dst)
      else
        status == LockHandler.StatusLocked &&
        (NoRoom(states, from, times[0], src) || NoRoom(states, from, times[0], dst))
    else if IfHeaders.Header(header).None? then status == LockHandler.BadRequest
    else
      var lists := IfHeaders.Header(header).value;
      exists at :: 0 <= at <= |lists| && ListDecides(states, from, s, id, url, lists, times, src, dst, status, path, at)
  }

  lemma FailedLater(states: seq<State>, states': seq<State>, from: nat, url: string -> LockHandler.Target,
                    l: IfHeaders.IfList, time: int, src: string, dst: string)
    requires states <= states' && Failed(states, from, url, l, time, src, dst)
    ensures Failed(states', from, url, l, time, src, dst)
  {
    hide LockHandler.Fails, Unexpired;
    var k :| from <= k < |states| && LockHandler.Fails(Unexpired(states[k].locks, time), url, l, src, dst);
    assert states'[k] == states[k];
  }

  lemma AllFailedLater(states: seq<State>, states': seq<State>, from: nat, url: string -> LockHandler.Target,
                       lists: seq<IfHeaders.IfList>, times: seq<int>, src: string, dst: string, at: nat)
    requires states <= states' && at <= |lists| == |times|
    requires forall j :: 0 <= j < at ==> Failed(states, from, url, lists[j], times[j], src, dst)
    ensures forall j :: 0 <= j < at ==> Failed(states', from, url, lists[j], times[j], src, dst)
  {
    hide Failed;
    forall j | 0 <= j < at
      ensures Failed(states', from, url, lists[j], times[j], src, dst)
    {
      FailedLater(states, states', from, url, lists[j], times[j], src, dst);
    }
  }

  lemma OutcomeLater(states: seq<State>, states': seq<State>, from: nat, s: State, id: nat,
                     url: string -> LockHandler.Target, header: string, times: seq<int>, src: string, dst: string,
                     status: LockHandler.Status, path: string)
    requires |times| == LockHandler.Readings(header) && states <= states'
    requires Outcome(states, from, s, id, url, header, times, src, dst, status, path)
    ensures Outcome(states', from, s, id, url, header, times, src, dst, status, path)
  {
    hide Failed, CanLock, Unexpired, SlashClean, ListConfirmed, HasLock, IfHeaders.Header;
    if header != "" && IfHeaders.Header(header).Some? {
      var lists := IfHeaders.Header(header).value;
      var at :| 0 <= at <= |lists| && ListDecides(states, from, s, id, url, lists, times, src, dst, status, path, at);
      AllFailedLater(states, states', from, url, lists, times, src, dst, at);
      assert ListDecides(states', from, s, id, url, lists, times, src, dst, status, path, at);
    }
  }

  /** A list that is skipped, or whose confirmation is refused in the state at `k`, has failed. */
  lemma RefusedFails(states: seq<State>, from: nat, k: nat, url: string -> LockHandler.Target, l: IfHeaders.IfList,
                     time: int, src: string, dst: string, path: string)
    requires from <= k < |states|
    requires LockHandler.TargetOf(url, l).Unusable? ||
      (LockHandler.IsAbout(url, l, src, path) &&
      Claims(Unexpired(states[k].locks, time), MemLS.NameArg(path), MemLS.NameArg(dst), l.conditions).None?)
    ensures Failed(states, from, url, l, time, src, dst)
  {
    hide Claims, Unexpired, MemLS.NameArg, LockHandler.Presented;
    LockHandler.ClaimsFound(Unexpired(states[k].locks, time), path, dst, l.conditions);
    assert LockHandler.Fails(Unexpired(states[k].locks, time), url, l, src, dst);
  }

  lemma NameIsLocked(states: seq<State>, trace: seq<Event>, id: nat, name: string)
    requires Run(states, trace) && (name != "" ==> SlashClean(name) in Entries(states[|trace|], id))
    ensures HasLock(states[|trace|], id, name)
  {
    hide Next, SlashClean, Exclusive, Apart, HeldForSomeone, TokensOk;
    RunKeepsInv(states, trace, |trace|);
    if name != "" {
      var (s, n) := (states[|trace|], SlashClean(name));
      assert EntryOk(s, n, s.requests[id][n]);
    }
  }

  lemma WantedLocked(states: seq<State>, trace: seq<Event>, id: nat, src: string, dst: string)
    requires Run(states, trace) && Entries(states[|trace|], id).Keys == Wanted(src, dst)
    ensures HasLock(states[|trace|], id, src) && HasLock(states[|trace|], id, dst)
  {
    hide Run, Entries, SlashClean, HasLock;
    NameIsLocked(states, trace, id, src);
    NameIsLocked(states, trace, id, dst);
  }

  /** A claim gives the request the names it asked for, by locks that it presented. */
  lemma NameIsClaimed(states: seq<State>, trace: seq<Event>, now: int, id: nat, src: string, dst: string,
                      conditions: seq<Condition>)
    requires Run(states, trace) && trace != []
    requires trace[|trace| - 1] == Event.Claim(now, id, MemLS.NameArg(src), MemLS.NameArg(dst), conditions)
    ensures HasClaim(states[|trace|], id, src, conditions) && HasClaim(states[|trace|], id, dst, conditions)
  {
    hide Lookup, SlashClean, Claims, Unexpired, LockProtocol.Presented;
    LastStep(states, trace);
    var s := states[|trace| - 1];
    ClaimedTokens(Unexpired(s.locks, now), MemLS.NameArg(src), MemLS.NameArg(dst), conditions);
    NamesClaimed(states, trace, now, id, src, dst, conditions);
    forall n | n in Entries(states[|trace|], id)
      ensures var t := Entries(states[|trace|], id)[n].token;
              && t in states[|trace|].locks && states[|trace|].locks[t].held && Covers(states[|trace|].locks[t], n)
              && Presented(conditions, t)
    {
      assert Entries(states[|trace|], id)[n].token in Tokens(Entries(states[|trace|], id));
    }
    assert Wanted(src, dst) == Entries(states[|trace|], id).Keys;
  }

  /** A step has given the request one more name, or taken one. */
  lemma NameTaken(states: seq<State>, trace: seq<Event>, now: int, id: nat, n: Name, t: string)
    requires Run(states, trace) && trace != [] && trace[|trace| - 1] == Event.TemporaryLock(now, id, n, t)
    ensures var (s, s') := (states[|trace| - 1], states[|trace|]);
            Entries(s', id).Keys == Entries(s, id).Keys + {n} && n !in Entries(s, id)
  {
    hide Inv, CanLock;
    LastStep(states, trace);
    RunKeepsInv(states, trace, |trace| - 1);
    var s := states[|trace| - 1];
    ExpireKeeps(s, now);
    FreeIsNotEntered(s.(locks := Unexpired(s.locks, now)), id, n);
  }

  lemma FreeIsNotEntered(s: State, id: nat, n: Name)
    requires Inv(s) && CanLock(s.locks, n, true)
    ensures n !in Entries(s, id)
  {
    EnteredIsLocked(s, id, n);
  }

  lemma NameGivenUp(states: seq<State>, trace: seq<Event>, now: int, id: nat, n: Name)
    requires Run(states, trace) && trace != [] && trace[|trace| - 1] == Event.TemporaryUnlock(now, id, n)
    ensures Entries(states[|trace|], id).Keys == Entries(states[|trace| - 1], id).Keys - {n}
  {
    LastStep(states, trace);
  }

  lemma NamesClaimed(states: seq<State>, trace: seq<Event>, now: int, id: nat, src: string, dst: string,
                     conditions: seq<Condition>)
    requires Run(states, trace) && trace != []
    requires trace[|trace| - 1] == Event.Claim(now, id, MemLS.NameArg(src), MemLS.NameArg(dst), conditions)
    ensures Entries(states[|trace|], id).Keys == Wanted(src, dst)
  {
    hide Lookup, SlashClean;
    LastStep(states, trace);
  }

  lemma AllReleased(states: seq<State>, trace: seq<Event>, id: nat)
    requires Run(states, trace) && trace != [] && trace[|trace| - 1] == Event.Release(id)
    ensures Entries(states[|trace|], id) == map[]
  {
    LastStep(states, trace);
  }

  /** Other requests come in between two steps of this one. */
  method Others(server: Server, id: nat, calls: seq<Call>)
    requires server.Valid() && Avoids(calls, id)
    modifies server, server.ls, server.ls.Repr
    ensures server.Valid() && fresh(server.ls.Repr - old(server.ls.Repr)) && old(server.issued) <= server.issued
    ensures |server.states| == |server.trace| + 1 && old(server.states) <= server.states
    ensures Keeps(server.states, |old(server.trace)|, id) && SameFor(old(server.S()), server.S(), id)
    ensures id in server.nodes <==> id in old(server.nodes)
  {
    hide server.Valid, Run, Served, Entries, Answers, Avoids;
    server.Current();
    ghost var from := |server.trace|;
    assert server.states[from] == server.S();
    var _ := Serve(server, calls);
    server.Current();
    assert server.states[|server.trace|] == server.S();
  }

  method TakeName(server: Server, now: int, id: nat, path: string) returns (ok: bool)
    requires server.Valid() && id !in server.nodes
    modifies server, server.ls, server.ls.Repr
    ensures server.Valid() && fresh(server.ls.Repr - old(server.ls.Repr)) && old(server.issued) <= server.issued
    ensures old(server.states) <= server.states && id !in server.nodes
    ensures ok <==> CanLock(Unexpired(old(server.S()).locks, now), SlashClean(path), true)
    ensures if ok then
              && SlashClean(path) !in old(Entries(server.S(), id))
              && Entries(server.S(), id).Keys == old(Entries(server.S(), id)).Keys + {SlashClean(path)}
            else Entries(server.S(), id) == old(Entries(server.S(), id))
  {
    hide server.Valid, Run, Entries, SlashClean, CanLock, Unexpired;
    server.Current();
    ok := server.LockForRequest(now, id, path);
    server.Current();
    ghost var e := server.trace[|server.trace| - 1];
    if ok {
      NameTaken(server.states, server.trace, now, id, SlashClean(path), e.token);
    } else {
      LastStep(server.states, server.trace);
      OthersSame(old(server.S()), e, server.S(), id);
    }
  }

  method GiveUpName(server: Server, now: int, id: nat, n: Name)
    requires server.Valid() && id !in server.nodes && n in Entries(server.S(), id)
    modifies server, server.ls, server.ls.Repr
    ensures server.Valid() && fresh(server.ls.Repr - old(server.ls.Repr)) && old(server.issued) <= server.issued
    ensures old(server.states) <= server.states && id !in server.nodes
    ensures Entries(server.S(), id).Keys == old(Entries(server.S(), id)).Keys - {n}
  {
    hide server.Valid, Run, Entries;
    server.Current();
    server.Places(id);
    server.UnlockForRequest(now, id, n);
    server.Current();
    NameGivenUp(server.states, server.trace, now, id, n);
  }

  /** Without an If header: temporary locks on both names, or on neither. */
  method ConfirmTemporarily(server: Server, id: nat, now: int, src: string, dst: string, between: seq<Call>)
    returns (ok: bool)
    requires server.Valid() && id !in server.nodes && Entries(server.S(), id) == map[] && Avoids(between, id)
    modifies server, server.ls, server.ls.Repr
    ensures server.Valid() && fresh(server.ls.Repr - old(server.ls.Repr)) && old(server.issued) <= server.issued
    ensures old(server.states) <= server.states && id !in server.nodes
    ensures Entries(server.S(), id).Keys == if ok then Wanted(src, dst) else {}
    ensures ok && src != "" && dst != "" ==> SlashClean(src) != SlashClean(dst)
    ensures !ok ==>
      NoRoom(server.states, |old(server.trace)|, now, src) || NoRoom(server.states, |old(server.trace)|, now, dst)
  {
    hide server.Valid, Entries, SlashClean, Avoids, Keeps, CanLock, Unexpired, Run;
    ok := true;
    server.Current();
    if src != "" {
      ok := TakeName(server, now, id, src);
      if !ok {
        assert server.states[|old(server.trace)|] == old(server.S());
        return;
      }
    }
    Others(server, id, between);
    if dst != "" {
      server.Current();
      ghost var k, s := |server.trace|, server.S();
      ok := TakeName(server, now, id, dst);
      assert server.states[k] == s;
      if !ok && src != "" {
        GiveUpName(server, now, id, SlashClean(src));
      }
    }
  }

  /** Tries one list: it is confirmed, or it fails in the state that it finds. */
  method ConfirmList(server: Server, id: nat, url: string -> LockHandler.Target, l: IfHeaders.IfList, time: int,
                     src: string, dst: string)
    returns (ok: bool, path: string)
    requires server.Valid() && id !in server.nodes && id !in server.tokens && Entries(server.S(), id) == map[]
    requires AllShown(server.issued, l.conditions) && !LockHandler.TargetOf(url, l).OutsidePrefix?
    modifies server, server.ls, server.ls.Repr
    ensures server.Valid() && fresh(server.ls.Repr - old(server.ls.Repr)) && old(server.issued) <= server.issued
    ensures old(server.states) <= server.states
    ensures ok ==>
      && id in server.nodes && Entries(server.S(), id).Keys == Wanted(path, dst)
      && ListConfirmed(server.S(), id, url, l, src, dst, path)
    ensures !ok ==>
      && id !in server.nodes && id !in server.tokens && Entries(server.S(), id) == map[]
      && Failed(server.states, |old(server.trace)|, url, l, time, src, dst)
  {
    hide server.Valid, Run, Entries, SlashClean, AllShown, Wanted, MemLS.NameArg, HasClaim, Claims, Unexpired, Failed;
    ok, path := false, src;
    server.Places(id);
    server.Current();
    ghost var before, k := server.S(), |server.trace|;
    if LockHandler.TargetOf(url, l).Unusable? {
      RefusedFails(server.states, k, k, url, l, time, src, dst, src);
      return;
    }
    ShownIsPresentable(server, server.issued, l.conditions);
    path := LockHandler.Path(url, l, src);
    ok := server.Confirm(time, id, path, dst, l.conditions);
    server.Current();
    server.Places(id);
    if ok {
      NamesClaimed(server.states, server.trace, time, id, path, dst, l.conditions);
      NameIsClaimed(server.states, server.trace, time, id, path, dst, l.conditions);
    } else {
      LastStep(server.states, server.trace);
      OthersSame(before, Expire(time), server.S(), id);
      assert server.states[k] == before;
      RefusedFails(server.states, k, k, url, l, time, src, dst, path);
    }
  }

  /** The first list that does not fail decides. */
  method ConfirmLists(server: Server, id: nat, url: string -> LockHandler.Target, lists: seq<IfHeaders.IfList>,
                      times: seq<int>, src: string, dst: string, between: seq<seq<Call>>)
    returns (status: LockHandler.Status, path: string)
    requires server.Valid() && id !in server.nodes && id !in server.tokens
    requires |times| == |lists| == |between| && forall i :: 0 <= i < |between| ==> Avoids(between[i], id)
    requires forall i :: 0 <= i < |lists| ==> AllShown(server.issued, lists[i].conditions)
    modifies server, server.ls, server.ls.Repr
    ensures server.Valid() && fresh(server.ls.Repr - old(server.ls.Repr)) && old(server.issued) <= server.issued
    ensures old(server.states) <= server.states
    ensures status == LockHandler.Proceed ==> id in server.nodes && Entries(server.S(), id).Keys == Wanted(path, dst)
    ensures status != LockHandler.Proceed ==> id !in server.nodes && Entries(server.S(), id) == map[]
    ensures exists at ::
      0 <= at <= |lists| && ListDecides(server.states, |old(server.trace)|, server.S(), id, url, lists, times, src, dst,
        status, path, at)
  {
    hide server.Valid, Run, Entries, SlashClean, Avoids, Keeps, AllShown, Wanted, ListConfirmed, Failed;
    path := src;
    server.Places(id);
    assert TemporaryRequest(map[]) == map[];
    server.Current();
    ghost var from := |server.trace|;
    for i := 0 to |lists|
      invariant server.Valid() && fresh(server.ls.Repr - old(server.ls.Repr)) && old(server.issued) <= server.issued
      invariant old(server.states) <= server.states && id !in server.nodes && id !in server.tokens
      invariant Entries(server.S(), id) == map[]
      invariant from <= |server.trace| && |server.states| == |server.trace| + 1
      invariant forall j :: 0 <= j < i ==> Failed(server.states, from, url, lists[j], times[j], src, dst)
    {
      if LockHandler.TargetOf(url, lists[i]).OutsidePrefix? {
        assert ListDecides(server.states, from, server.S(), id, url, lists, times, src, dst, LockHandler.NotFound, path,
          i);
        return LockHandler.NotFound, path;
      }
      ghost var states, k := server.states, |server.trace|;
      AllShownStill(old(server.issued), server.issued, lists[i].conditions);
      var ok;
      ok, path := ConfirmList(server, id, url, lists[i], times[i], src, dst);
      AllFailedLater(states, server.states, from, url, lists, times, src, dst, i);
      if ok {
        assert ListDecides(server.states, from, server.S(), id, url, lists, times, src, dst, LockHandler.Proceed, path,
          i);
        return LockHandler.Proceed, path;
      }
      FailedSince(server.states, k, from, url, lists[i], times[i], src, dst);
      states := server.states;
      server.Places(id);
      server.Current();
      Others(server, id, between[i]);
      server.Places(id);
      AllFailedLater(states, server.states, from, url, lists, times, src, dst, i + 1);
    }
    assert ListDecides(server.states, from, server.S(), id, url, lists, times, src, dst,
      LockHandler.PreconditionFailed, src, |lists|);
    return LockHandler.PreconditionFailed, src;
  }

  lemma AllShownStill(issued: set<string>, issued': set<string>, conditions: seq<Condition>)
    requires issued <= issued' && AllShown(issued, conditions)
    ensures AllShown(issued', conditions)
  {}

  lemma FailedSince(states: seq<State>, k: nat, from: nat, url: string -> LockHandler.Target, l: IfHeaders.IfList,
                    time: int, src: string, dst: string)
    requires from <= k && Failed(states, k, url, l, time, src, dst)
    ensures Failed(states, from, url, l, time, src, dst)
  {
    hide LockHandler.Fails, Unexpired;
  }

  /**
   Confirms the locks of a request that has none, while others come in between: a request that
   may proceed has the names it asked for, and any other has nothing.
   */
  method ConfirmLocks(server: Server, id: nat, url: string -> LockHandler.Target, header: string, times: seq<int>,
                      src: string, dst: string, between: seq<seq<Call>>)
    returns (status: LockHandler.Status, path: string)
    requires server.Valid() && id !in server.nodes && id !in server.tokens
    requires |times| == |between| == LockHandler.Readings(header)
    requires forall i :: 0 <= i < |between| ==> Avoids(between[i], id)
    requires HeaderShown(server.issued, header)
    modifies server, server.ls, server.ls.Repr
    ensures server.Valid() && fresh(server.ls.Repr - old(server.ls.Repr)) && old(server.states) <= server.states
    ensures Outcome(server.states, |old(server.trace)|, server.S(), id, url, header, times, src, dst, status, path)
    ensures status == LockHandler.Proceed ==> Releasable(server, id, path, dst)
    ensures status != LockHandler.Proceed ==> Entries(server.S(), id) == map[]
  {
    hide server.Valid, Entries, SlashClean, Avoids, AllShown, Wanted, IfHeaders.Header, HasLock, HasClaim, Run;
    server.Places(id);
    assert TemporaryRequest(map[]) == map[];
    if header == "" {
      var ok := ConfirmTemporarily(server, id, times[0], src, dst, between[0]);
      if ok {
        server.Current();
        WantedLocked(server.states, server.trace, id, src, dst);
      }
      return if ok then LockHandler.Proceed else LockHandler.StatusLocked, src;
    }
    var wellFormed, lists := IfHeaders.ParseIfHeader(header);
    if !wellFormed {
      return LockHandler.BadRequest, src;
    }
    status, path := ConfirmLists(server, id, url, lists, times, src, dst, between);
  }

  ghost predicate HeaderShown(issued: set<string>, header: string) {
    header != "" && IfHeaders.Header(header).Some? ==>
      var lists := IfHeaders.Header(header).value;
      forall i :: 0 <= i < |lists| ==> AllShown(issued, lists[i].conditions)
  }

  /** The request has these names, and if it has them by temporary locks, each by its own. */
  ghost predicate Releasable(server: Server, id: nat, src: string, dst: string)
    reads server, server.ls
  {
    && Entries(server.S(), id).Keys == Wanted(src, dst)
    && (id !in server.nodes && src != "" && dst != "" ==> SlashClean(src) != SlashClean(dst))
  }

  /** Gives back what has been confirmed, whichever way that was. */
  method ReleaseLocks(server: Server, id: nat, now: int, src: string, dst: string, between: seq<Call>)
    requires server.Valid() && Releasable(server, id, src, dst) && Avoids(between, id)
    modifies server, server.ls, server.ls.Repr
    ensures server.Valid() && fresh(server.ls.Repr - old(server.ls.Repr)) && old(server.states) <= server.states
    ensures Entries(server.S(), id) == map[]
  {
    hide server.Valid, Run, Entries, SlashClean, Avoids, Keeps;
    if id in server.nodes {
      server.Current();
      server.Release(id);
      server.Current();
      AllReleased(server.states, server.trace, id);
      return;
    }
    if dst != "" {
      GiveUpName(server, now, id, SlashClean(dst));
    }
    Others(server, id, between);
    if src != "" {
      GiveUpName(server, now, id, SlashClean(src));
    }
  }

  /**
   A write request from its confirmation to the end of its release, with any calls of others
   before, during and after each of its steps.  From the state in which it is confirmed to the
   one in which it begins to release, it has the names it asked for and no other request has
   any of them; and when it is over it has nothing.
   */
  method HandleWrite(server: Server, id: nat, url: string -> LockHandler.Target, header: string, times: seq<int>,
                     src: string, dst: string, between: seq<seq<Call>>, during: seq<Call>, later: seq<Call>)
    returns (status: LockHandler.Status, path: string, ghost confirmed: nat, ghost released: nat)
    requires server.Valid() && id !in server.nodes && id !in server.tokens
    requires |times| == |between| == LockHandler.Readings(header)
    requires forall i :: 0 <= i < |between| ==> Avoids(between[i], id)
    requires Avoids(during, id) && Avoids(later, id) && HeaderShown(server.issued, header)
    modifies server, server.ls, server.ls.Repr
    ensures server.Valid() && old(server.states) <= server.states
    ensures status == LockHandler.Proceed ==>
      && confirmed <= released < |server.states|
      && forall k, n :: confirmed <= k <= released && n in Wanted(path, dst) ==> HasAlone(server.states[k], id, n)
    ensures confirmed < |server.states| &&
      Outcome(server.states, |old(server.trace)|, server.states[confirmed], id, url, header, times, src, dst, status,
        path)
    ensures Entries(server.S(), id) == map[]
  {
    hide server.Valid, Run, Entries, SlashClean, Avoids, Keeps, HeaderShown, Outcome, Wanted;
    status, path := ConfirmLocks(server, id, url, header, times, src, dst, between);
    server.Current();
    confirmed, released := |server.trace|, |server.trace|;
    ghost var atFirst := server.states;
    if status == LockHandler.Proceed {
      Others(server, id, during);
      server.Current();
      released := |server.trace|;
      ghost var states := server.states;
      HadAlone(server.states, server.trace, confirmed, id, Wanted(path, dst));
      var now := if |times| > 0 then times[0] else 0;
      ReleaseLocks(server, id, now, path, dst, later);
      assert states <= server.states;
    }
    OutcomeLater(atFirst, server.states, |old(server.trace)|, atFirst[confirmed], id, url, header, times, src, dst,
      status, path);
  }

  /** The request has the name, and no other request has it. */
  predicate HasAlone(s: State, id: nat, n: Name) {
    n in Entries(s, id) && forall j :: j in s.requests && j != id ==> n !in s.requests[j]
  }

  lemma HadAlone(states: seq<State>, trace: seq<Event>, from: nat, id: nat, names: set<Name>)
    requires Run(states, trace) && Keeps(states, from, id) && Entries(states[from], id).Keys == names
    ensures forall k, n :: from <= k < |states| && n in names ==> HasAlone(states[k], id, n)
  {
    hide Next;
    forall k, n | from <= k < |states| && n in names
      ensures HasAlone(states[k], id, n)
    {
      assert SameFor(states[from], states[k], id);
      forall j | j in states[k].requests && j != id
        ensures n !in states[k].requests[j]
      {
        if n in states[k].requests[j] {
          ExclusiveAccess(states, trace, k, id, j, n);
        }
      }
    }
  }
}
