/**
 How a write request makes sure that it may touch its resources: with temporary locks
 when it presents no lock tokens, and otherwise by claiming the locks it names.
 */
module LockHandler {
  import opened Paths
  import opened LockSpec
  import opened Wrappers
  import opened MemoryLocks
  import IfHeaders

  type IfList = IfHeaders.IfList

  /** What one list of the If header is about. */
  datatype Target =
    | RequestPath          // there is no tag
    | Unusable             // the tag is not a URL of this host; the list is skipped
    | OutsidePrefix        // the tag is outside the handler's prefix; the request fails
    | Tagged(path: string)

  /** `url` stands for the parsing of URLs and the stripping of the handler's prefix. */
  function TargetOf(url: string -> Target, l: IfList): Target {
    if l.resourceTag == "" then RequestPath else url(l.resourceTag)
  }

  datatype Status = Proceed | NoContent | BadRequest | NotFound | Conflict | PreconditionFailed | StatusLocked
      | ServerError

  /** What the release function remembers. */
  datatype Release = Nothing | Unlocks(now: int, src: string, dst: string) | Unholds(n0: Node?, n1: Node?)

  /** The two states differ only in locks that have expired by `now`. */
  ghost predicate SameFrom(a: Locks, b: Locks, now: int) {
    forall later :: now <= later ==> Unexpired(a, later) == Unexpired(b, later)
  }

  lemma CollectedSame(a: Locks, now: int)
    ensures SameFrom(Unexpired(a, now), a, now)
  {
    forall later | now <= later
      ensures Unexpired(Unexpired(a, now), later) == Unexpired(a, later)
    {
      UnexpiredTwice(a, now, later);
    }
  }

  /** Adding a lock that never expires and taking it away again. */
  lemma AddedAndRemoved(a: Locks, now: int, token: string, l: Lock)
    requires token !in a
    ensures SameFrom(Unexpired(a[token := l], now) - {token}, a, now)
  {
    forall later | now <= later
      ensures Unexpired(Unexpired(a[token := l], now) - {token}, later) == Unexpired(a, later)
    {}
  }

  // ---------- temporary locks ----------

  /** `ls` and, when `name` is given, a zero-depth lock on it that never expires. */
  function WithTemporary(ls: Locks, now: int, name: string, token: string): Locks {
    if name == "" then ls else ls[token := NewLock(now, LockDetails(SlashClean(name), -1, "", true))]
  }

  function Without(ls: Locks, token: string): Locks {
    if token == "" then ls else ls - {token}
  }

  method LockTemporarily(ls: MemLS, now: int, name: string) returns (ok: bool, token: string)
    requires ls.Valid()
    modifies ls, ls.Repr
    ensures ls.Valid() && fresh(ls.Repr - old(ls.Repr))
    ensures ok ==> (token == "" <==> name == "") && token !in old(ls.locks)
    ensures ls.locks ==
      if ok then WithTemporary(if name == "" then old(ls.locks) else Unexpired(old(ls.locks), now), now, name, token)
      else Unexpired(old(ls.locks), now)
    ensures name != "" ==> (ok <==> CanLock(Unexpired(old(ls.locks), now), SlashClean(name), true))
    ensures name == "" ==> ok
  {
    hide ls.Valid, Unexpired, CanLock, SlashClean, NewLock;
    ls.ValidParts();
    if name == "" {
      return true, "";
    }
    var r := ls.Create(now, name, -1, "", true);
    if r.Err? {
      return false, "";
    }
    ls.ValidParts();
    return true, r.value;
  }

  method UnlockTemporary(ls: MemLS, now: int, token: string)
    requires ls.Valid()
    requires token != "" ==> token in ls.locks && ls.locks[token].expires == Never && !ls.locks[token].held
    modifies ls, ls.Repr
    ensures ls.Valid() && ls.Repr == old(ls.Repr)
    ensures ls.locks == if token == "" then old(ls.locks) else Unexpired(old(ls.locks), now) - {token}
  {
    hide ls.Valid;
    if token != "" {
      var _ := ls.Unlock(now, token);
    }
  }

  function Temporary(name: string): LockDetails {
    LockDetails(SlashClean(name), -1, "", true)
  }

  /** Temporary locks can be taken: no lock is in the way, and the two names differ. */
  predicate CanLockBoth(ls: Locks, src: string, dst: string) {
    && (src != "" ==> CanLock(ls, SlashClean(src), true))
    && (dst != "" ==> CanLock(ls, SlashClean(dst), true))
    && (src != "" && dst != "" ==> SlashClean(src) != SlashClean(dst))
  }

  lemma TemporaryInTheWay(ls: Locks, now: int, src: string, token: string, n: Name)
    requires token !in ls
    ensures CanLock(ls[token := NewLock(now, Temporary(src))], n, true) <==>
      CanLock(ls, n, true) && SlashClean(src) != n
  {
    var ls' := ls[token := NewLock(now, Temporary(src))];
    if CanLock(ls', n, true) {
      forall t | t in ls
        ensures !Conflicts(ls[t], n, true)
      {
        assert !Conflicts(ls'[t], n, true);
      }
      assert !Conflicts(ls'[token], n, true);
    }
  }

  lemma TemporaryStays(ls: Locks, now: int, token: string, l: Lock)
    requires l.expires.Never?
    ensures Unexpired(Unexpired(ls, now)[token := l], now) == Unexpired(ls, now)[token := l]
  {}

  method ConfirmTemporarily(ls: MemLS, now: int, src: string, dst: string)
    returns (ok: bool, srcToken: string, dstToken: string)
    requires ls.Valid()
    modifies ls, ls.Repr
    ensures ls.Valid() && fresh(ls.Repr - old(ls.Repr))
    ensures ok <==> CanLockBoth(Unexpired(old(ls.locks), now), src, dst)
    ensures src == dst == "" ==> ls.locks == old(ls.locks)
    ensures ok ==> (srcToken == "" <==> src == "") && (dstToken == "" <==> dst == "")
    ensures ok ==>
      && srcToken !in old(ls.locks) && dstToken !in Unexpired(old(ls.locks), now)
      && (src != "" ==> srcToken != dstToken)
    ensures ok && (src != "" || dst != "") ==>
      ls.locks == WithTemporary(WithTemporary(Unexpired(old(ls.locks), now), now, src, srcToken), now, dst, dstToken)
    ensures !ok ==> SameFrom(ls.locks, old(ls.locks), now)
  {
    hide ls.Valid, CanLock, SlashClean, Unexpired;
    ghost var before := ls.locks;
    CollectedSame(before, now);
    ok, srcToken := LockTemporarily(ls, now, src);
    dstToken := "";
    if !ok {
      return;
    }
    TemporaryAdded(before, now, src, srcToken, dst);
    ok, dstToken := LockTemporarily(ls, now, dst);
    if !ok && srcToken != "" {
      UnlockTemporary(ls, now, srcToken);
    }
  }

  /** After the source has been locked. */
  lemma TemporaryAdded(before: Locks, now: int, src: string, token: string, dst: string)
    requires token !in before && (token == "" <==> src == "")
    ensures var u := Unexpired(before, now);
            var added := WithTemporary(u, now, src, token);
            && Unexpired(added, now) == added && u.Keys <= before.Keys && u.Keys <= added.Keys
            && (src != "" ==> SameFrom(Unexpired(added, now) - {token}, before, now))
            && (src != "" ==> (CanLock(added, SlashClean(dst), true) <==>
              CanLock(u, SlashClean(dst), true) && SlashClean(src) != SlashClean(dst)))
  {
    var u := Unexpired(before, now);
    var added := WithTemporary(u, now, src, token);
    if src == "" {
      UnexpiredTwice(before, now, now);
    } else {
      TemporaryStays(before, now, token, NewLock(now, Temporary(src)));
      TemporaryInTheWay(u, now, src, token, SlashClean(dst));
      assert Unexpired(added, now) - {token} == u;
      CollectedSame(before, now);
    }
  }

  // ---------- claiming locks ----------

  function Path(url: string -> Target, l: IfList, src: string): string
    requires TargetOf(url, l).RequestPath? || TargetOf(url, l).Tagged?
  {
    if TargetOf(url, l).Tagged? then TargetOf(url, l).path else src
  }

  /** The locks that one list of the header claims at a time. */
  function ListClaims(ls: Locks, url: string -> Target, l: IfList, now: int, src: string,
                      dst: string): Option<set<string>>
    requires TargetOf(url, l).RequestPath? || TargetOf(url, l).Tagged?
  {
    Claims(Unexpired(ls, now), MemLS.NameArg(Path(url, l, src)), MemLS.NameArg(dst), l.conditions)
  }

  predicate Skipped(ls: Locks, url: string -> Target, l: IfList, now: int, src: string, dst: string) {
    TargetOf(url, l).Unusable? || (!TargetOf(url, l).OutsidePrefix? && ListClaims(ls, url, l, now, src, dst).None?)
  }

  /** The first list from `i` on that is not skipped. */
  function Decisive(ls: Locks, url: string -> Target, lists: seq<IfList>, times: seq<int>, src: string, dst: string,
                    i: nat): (at: nat)
    requires i <= |lists| == |times|
    ensures i <= at <= |lists| && (at < |lists| ==> !Skipped(ls, url, lists[at], times[at], src, dst))
    ensures forall j :: i <= j < at ==> Skipped(ls, url, lists[j], times[j], src, dst)
    decreases |lists| - i
  {
    if i == |lists| || !Skipped(ls, url, lists[i], times[i], src, dst) then i
      else Decisive(ls, url, lists, times, src, dst, i + 1)
  }

  /** What the lists of a header come to; `at` is the one that decides. */
  function Verdict(url: string -> Target, lists: seq<IfList>, at: nat): Status
    requires at <= |lists|
  {
    if at == |lists| then PreconditionFailed else if TargetOf(url, lists[at]).OutsidePrefix? then NotFound else Proceed
  }

  /** Some condition presents the token of an unheld lock that covers the name, if a name is given. */
  predicate Presented(u: Locks, name: string, conditions: seq<Condition>) {
    name == "" || exists i :: 0 <= i < |conditions| && Claimable(u, SlashClean(name), conditions[i].token)
  }

  /** One of the tokens is that of an unheld lock that covers the name, if a name is given. */
  predicate CoveredBy(u: Locks, tokens: set<string>, name: string) {
    name == "" || exists t :: t in tokens && Claimable(u, SlashClean(name), t)
  }

  /** The list's condition is false; an untagged list is about the path of the request. */
  predicate Fails(u: Locks, url: string -> Target, l: IfList, src: string, dst: string) {
    if l.resourceTag == "" then !Presented(u, src, l.conditions) || !Presented(u, dst, l.conditions)
    else
      match url(l.resourceTag)
      case Unusable => true
      case OutsidePrefix => false
      case RequestPath => !Presented(u, src, l.conditions) || !Presented(u, dst, l.conditions)
      case Tagged(path) => !Presented(u, path, l.conditions) || !Presented(u, dst, l.conditions)
  }

  /** The list is about this path: without a tag that of the request, otherwise that of its tag. */
  predicate IsAbout(url: string -> Target, l: IfList, src: string, path: string) {
    if l.resourceTag == "" || url(l.resourceTag) == RequestPath then path == src
    else url(l.resourceTag) == Tagged(path)
  }

  lemma {:induction false} LookupFinds(u: Locks, n: Name, conditions: seq<Condition>)
    ensures Lookup(u, n, conditions).Some? <==>
      exists i :: 0 <= i < |conditions| && Claimable(u, n, conditions[i].token)
  {
    hide Claimable;
    if conditions != [] && !Claimable(u, n, conditions[0].token) {
      LookupFinds(u, n, conditions[1..]);
      if i :| 0 <= i < |conditions| && Claimable(u, n, conditions[i].token) {
        assert conditions[1..][i - 1] == conditions[i];
      }
    }
  }

  lemma ClaimsFound(u: Locks, name0: string, name1: string, conditions: seq<Condition>)
    ensures var claims := Claims(u, MemLS.NameArg(name0), MemLS.NameArg(name1), conditions);
            && (claims.Some? <==> Presented(u, name0, conditions) && Presented(u, name1, conditions))
            && (claims.Some? ==> CoveredBy(u, claims.value, name0) && CoveredBy(u, claims.value, name1))
  {
    hide Claimable, SlashClean, Lookup;
    LookupFinds(u, SlashClean(name0), conditions);
    LookupFinds(u, SlashClean(name1), conditions);
  }

  lemma SkippedFails(ls: Locks, url: string -> Target, l: IfList, now: int, src: string, dst: string)
    ensures Skipped(ls, url, l, now, src, dst) <==> Fails(Unexpired(ls, now), url, l, src, dst)
  {
    hide Claims, Presented, Unexpired;
    match TargetOf(url, l) {
      case RequestPath => ClaimsFound(Unexpired(ls, now), src, dst, l.conditions);
      case Tagged(path) => ClaimsFound(Unexpired(ls, now), path, dst, l.conditions);
      case _ =>
    }
  }

  /** What a confirmation that succeeds has claimed covers the path that its list is about. */
  lemma ClaimsCover(ls: Locks, url: string -> Target, l: IfList, now: int, src: string, dst: string)
    requires TargetOf(url, l).RequestPath? || TargetOf(url, l).Tagged?
    requires ListClaims(ls, url, l, now, src, dst).Some?
    ensures var (u, tokens) := (Unexpired(ls, now), ListClaims(ls, url, l, now, src, dst).value);
            exists path :: IsAbout(url, l, src, path) && CoveredBy(u, tokens, path) && CoveredBy(u, tokens, dst)
  {
    hide Claims, CoveredBy, Unexpired;
    var path := if l.resourceTag == "" || url(l.resourceTag) == RequestPath then src else url(l.resourceTag).path;
    ClaimsFound(Unexpired(ls, now), path, dst, l.conditions);
    assert IsAbout(url, l, src, path);
  }

  /**
   The list at `at` is the first that does not fail, each looked at in its own time.  It is
   answered with 404 if its tag is outside the prefix; otherwise the request proceeds.  When
   all lists fail the answer is 412.
   */
  predicate DecidedBy(ls: Locks, url: string -> Target, lists: seq<IfList>, times: seq<int>, src: string, dst: string,
                      at: nat, status: Status)
    requires |lists| == |times|
  {
    && at <= |lists|
    && (forall j :: 0 <= j < at ==> Fails(Unexpired(ls, times[j]), url, lists[j], src, dst))
    && (at < |lists| ==> !Fails(Unexpired(ls, times[at]), url, lists[at], src, dst))
    && status == if at == |lists| then PreconditionFailed
                 else if lists[at].resourceTag != "" && url(lists[at].resourceTag) == OutsidePrefix then NotFound
                 else Proceed
  }

  lemma VerdictMeaning(ls: Locks, url: string -> Target, lists: seq<IfList>, times: seq<int>, src: string, dst: string)
    requires |lists| == |times|
    ensures var at := Decisive(ls, url, lists, times, src, dst, 0);
            DecidedBy(ls, url, lists, times, src, dst, at, Verdict(url, lists, at))
  {
    hide Skipped, Fails, Unexpired;
    var at := Decisive(ls, url, lists, times, src, dst, 0);
    forall j | 0 <= j <= at && j < |lists|
      ensures Skipped(ls, url, lists[j], times[j], src, dst) <==>
        Fails(Unexpired(ls, times[j]), url, lists[j], src, dst)
    {
      SkippedFails(ls, url, lists[j], times[j], src, dst);
    }
  }

  predicate Nondecreasing(times: seq<int>) {
    forall i, j :: 0 <= i < j < |times| ==> times[i] <= times[j]
  }

  /**
   The lists are alternatives: the first that is not skipped decides.  Only the lists
   before it have been looked at, and the only trace they leave is that old locks expire.
   */
  method ConfirmLists(ls: MemLS, url: string -> Target, lists: seq<IfList>, times: seq<int>, src: string, dst: string)
    returns (status: Status, n0: Node?, n1: Node?, at: nat)
    requires ls.Valid() && |times| == |lists| && Nondecreasing(times)
    modifies ls, ls.Repr
    ensures ls.Valid() && ls.Repr == old(ls.Repr)
    ensures at == Decisive(old(ls.locks), url, lists, times, src, dst, 0) && status == Verdict(url, lists, at)
    ensures DecidedBy(old(ls.locks), url, lists, times, src, dst, at, status)
    ensures status == Proceed ==>
      var (u, tokens) := (Unexpired(old(ls.locks), times[at]), MemLS.TokensOf(n0, n1));
      exists path :: IsAbout(url, lists[at], src, path) && CoveredBy(u, tokens, path) && CoveredBy(u, tokens, dst)
    ensures status == Proceed ==>
      && !TargetOf(url, lists[at]).Unusable?
      && ls.Handles(n0, n1)
      && ListClaims(old(ls.locks), url, lists[at], times[at], src, dst) == Some(MemLS.TokensOf(n0, n1))
      && ls.locks == SetHeld(Unexpired(old(ls.locks), times[at]), MemLS.TokensOf(n0, n1), true)
    ensures status != Proceed && |times| > 0 ==> SameFrom(ls.locks, old(ls.locks), times[|times| - 1])
  {
    hide ls.Valid, Unexpired, Claims, SetHeld, SameFrom, MemLS.NameArg, MemLS.TokensOf, DecidedBy, CoveredBy;
    ghost var before := ls.locks;
    VerdictMeaning(before, url, lists, times, src, dst);
    ghost var seen: Option<int> := None;
    at, n0, n1 := 0, null, null;
    while at < |lists|
      invariant 0 <= at <= |lists| && n0 == n1 == null
      invariant ls.Valid() && ls.Repr == old(ls.Repr)
      invariant Decisive(before, url, lists, times, src, dst, 0) == Decisive(before, url, lists, times, src, dst, at)
      invariant seen.None? ==> ls.locks == before
      invariant seen.Some? ==> seen.value in times[..at] && ls.locks == Unexpired(before, seen.value)
    {
      var l := lists[at];
      if TargetOf(url, l).OutsidePrefix? {
        SeenSame(before, ls.locks, seen, times);
        return NotFound, null, null, at;
      }
      if !TargetOf(url, l).Unusable? {
        SeenThen(before, ls.locks, seen, times[..at], times[at]);
        var ok, m0, m1 := ls.Confirm(times[at], Path(url, l, src), dst, l.conditions);
        if ok {
          ClaimsCover(before, url, l, times[at], src, dst);
          return Proceed, m0, m1, at;
        }
        seen := Some(times[at]);
      }
      at := at + 1;
    }
    SeenSame(before, ls.locks, seen, times);
    status := PreconditionFailed;
  }

  lemma SeenThen(before: Locks, now: Locks, seen: Option<int>, times: seq<int>, time: int)
    requires if seen.None? then now == before else now == Unexpired(before, seen.value) && seen.value in times
    requires Nondecreasing(times + [time])
    ensures Unexpired(now, time) == Unexpired(before, time)
  {
    if seen.Some? {
      var i :| 0 <= i < |times| && times[i] == seen.value;
      assert (times + [time])[i] <= (times + [time])[|times|];
      UnexpiredTwice(before, seen.value, time);
    }
  }

  lemma SeenSame(before: Locks, now: Locks, seen: Option<int>, times: seq<int>)
    requires if seen.None? then now == before else now == Unexpired(before, seen.value) && seen.value in times
    requires Nondecreasing(times)
    ensures |times| > 0 ==> SameFrom(now, before, times[|times| - 1])
  {
    if seen.Some? {
      var i :| 0 <= i < |times| && times[i] == seen.value;
      assert times[i] <= times[|times| - 1];
      CollectedSame(before, seen.value);
    }
  }

  // ---------- a request's confirmation and its release ----------

  /** How often the clock is read at most: once for temporary locks, otherwise once for each list. */
  function Readings(header: string): nat {
    if header == "" || IfHeaders.Header(header).None? then 1 else |IfHeaders.Header(header).value|
  }

  /**
   `times` are the clock readings.
   A request that may not proceed leaves every unexpired lock as it was.
   */
  method ConfirmLocks(ls: MemLS, url: string -> Target, header: string, times: seq<int>, src: string, dst: string)
    returns (status: Status, release: Release)
    requires ls.Valid() && Nondecreasing(times) && |times| == Readings(header)
    modifies ls, ls.Repr
    ensures ls.Valid() && fresh(ls.Repr - old(ls.Repr))
    ensures status != Proceed ==>
      && release == Nothing
      && (|times| > 0 ==> SameFrom(ls.locks, old(ls.locks), times[|times| - 1]))
    ensures status == Proceed ==> Undoes(ls, release, old(ls.locks), if |times| > 0 then times[|times| - 1] else 0)
    ensures header == "" ==> status == if CanLockBoth(Unexpired(old(ls.locks), times[0]), src, dst) then Proceed
      else StatusLocked
    ensures header == "" && status == Proceed && (src != "" || dst != "") ==>
      release.Unlocks? &&
      ls.locks == WithTemporary(WithTemporary(Unexpired(old(ls.locks), times[0]), times[0], src, release.src),
        times[0], dst, release.dst)
    ensures header != "" && IfHeaders.Header(header).None? ==> status == BadRequest && ls.locks == old(ls.locks)
    ensures header != "" && IfHeaders.Header(header).Some? ==>
      var lists := IfHeaders.Header(header).value;
      var at := Decisive(old(ls.locks), url, lists, times, src, dst, 0);
      && status == Verdict(url, lists, at) && DecidedBy(old(ls.locks), url, lists, times, src, dst, at, status)
      && (status == Proceed ==>
            release.Unholds? &&
            var (u, tokens) := (Unexpired(old(ls.locks), times[at]), MemLS.TokensOf(release.n0, release.n1));
            exists path ::
              IsAbout(url, lists[at], src, path) && CoveredBy(u, tokens, path) && CoveredBy(u, tokens, dst))
      && (status == Proceed ==>
            && release.Unholds? && ListClaims(old(ls.locks), url, lists[at], times[at], src, dst) ==
              Some(MemLS.TokensOf(release.n0, release.n1))
            && ls.locks == SetHeld(Unexpired(old(ls.locks), times[at]), MemLS.TokensOf(release.n0, release.n1), true))
  {
    hide ls.Valid, Unexpired, SetHeld, MemLS.NameArg, MemLS.TokensOf, CanLockBoth, SlashClean,
      IfHeaders.Header, DecidedBy, CoveredBy;
    release := Nothing;
    ls.ValidParts();
    if header == "" {
      var ok, s, d := ConfirmTemporarily(ls, times[0], src, dst);
      if !ok {
        return StatusLocked, release;
      }
      TemporaryUndone(old(ls.locks), times[0], src, s, dst, d);
      return Proceed, Unlocks(times[0], s, d);
    }
    var wellFormed, lists := IfHeaders.ParseIfHeader(header);
    if !wellFormed {
      return BadRequest, release;
    }
    var n0, n1, at;
    status, n0, n1, at := ConfirmLists(ls, url, lists, times, src, dst);
    if status == Proceed {
      release := Unholds(n0, n1);
      ClaimUndone(old(ls.locks), times[at], MemLS.TokensOf(n0, n1), url, lists[at], src, dst);
      LaterSame(old(ls.locks), times[at], times[|times| - 1]);
      NodesHeld(ls, n0, n1);
    }
  }

  /** The release can be run now, and would bring back the unexpired locks of `before`. */
  ghost predicate Undoes(ls: MemLS, release: Release, before: Locks, now: int)
    reads ls, if release.Unholds? then {release.n0, release.n1} else {}
  {
    match release
    case Nothing => false
    case Unlocks(time, s, d) =>
      && time <= now
      && TemporaryToken(ls.locks, s) && TemporaryToken(ls.locks, d) && (s != "" ==> s != d)
      && SameFrom(Without(Without(ls.locks, d), s), before, now)
    case Unholds(n0, n1) =>
      && ls.Handles(n0, n1) && (n0 != null ==> n0.held) && (n1 != null ==> n1.held)
      && SameFrom(SetHeld(ls.locks, MemLS.TokensOf(n0, n1), false), before, now)
  }

  predicate TemporaryToken(ls: Locks, token: string) {
    token != "" ==> token in ls && ls[token].expires == Never && !ls[token].held
  }

  lemma TemporaryUndone(before: Locks, now: int, src: string, s: string, dst: string, d: string)
    requires (s == "" <==> src == "") && (d == "" <==> dst == "") && (src != "" ==> s != d)
    requires s !in before && d !in Unexpired(before, now) && "" !in before
    ensures var ls := WithTemporary(WithTemporary(Unexpired(before, now), now, src, s), now, dst, d);
            && TemporaryToken(ls, s) && TemporaryToken(ls, d)
            && SameFrom(Without(Without(ls, d), s), before, now)
  {
    var u := Unexpired(before, now);
    var ls := WithTemporary(WithTemporary(u, now, src, s), now, dst, d);
    assert Without(Without(ls, d), s) == u;
    CollectedSame(before, now);
  }

  lemma ClaimsUnheld(ls: Locks, url: string -> Target, l: IfList, now: int, src: string, dst: string, t: string)
    requires !TargetOf(url, l).Unusable? && !TargetOf(url, l).OutsidePrefix? &&
      ListClaims(ls, url, l, now, src, dst).Some?
    requires t in ListClaims(ls, url, l, now, src, dst).value
    ensures t in Unexpired(ls, now) && !ls[t].held
  {}

  lemma ClaimUndone(before: Locks, now: int, tokens: set<string>, url: string -> Target, l: IfList, src: string,
                    dst: string)
    requires !TargetOf(url, l).Unusable? && !TargetOf(url, l).OutsidePrefix? &&
      ListClaims(before, url, l, now, src, dst) == Some(tokens)
    ensures var u := Unexpired(before, now); SetHeld(SetHeld(u, tokens, true), tokens, false) == u
    ensures forall t :: t in tokens ==>
      t in SetHeld(Unexpired(before, now), tokens, true) && SetHeld(Unexpired(before, now), tokens, true)[t].held
  {
    forall t | t in tokens
      ensures t in Unexpired(before, now) && !before[t].held
    {
      ClaimsUnheld(before, url, l, now, src, dst, t);
    }
  }

  lemma LaterSame(before: Locks, now: int, later: int)
    requires now <= later
    ensures SameFrom(Unexpired(before, now), before, later)
  {
    CollectedSame(before, now);
  }

  /** Nodes whose locks are held know that they are. */
  lemma NodesHeld(ls: MemLS, n0: Node?, n1: Node?)
    requires ls.Valid() && ls.Handles(n0, n1)
    requires forall t :: t in MemLS.TokensOf(n0, n1) ==> t in ls.locks && ls.locks[t].held
    ensures n0 != null ==> n0.held
    ensures n1 != null ==> n1.held
  {
    hide ls.Valid;
    if n0 != null {
      ls.LiveTokens(n0.token);
      assert n0.token in MemLS.TokensOf(n0, n1);
    }
    if n1 != null {
      ls.LiveTokens(n1.token);
      assert n1.token in MemLS.TokensOf(n0, n1);
    }
  }

  /** Runs the release; the order is the reverse of the confirmation's. */
  method RunRelease(ls: MemLS, release: Release, ghost before: Locks, ghost now: int)
    requires ls.Valid() && Undoes(ls, release, before, now)
    modifies ls, ls.Repr
    ensures ls.Valid() && ls.Repr == old(ls.Repr)
    ensures SameFrom(ls.locks, before, now)
  {
    hide ls.Valid, SameFrom, Unexpired, SetHeld, MemLS.TokensOf, Without;
    match release
    case Unlocks(time, s, d) =>
      TemporaryFirst(ls.locks, time, s, d);
      UnlockTemporary(ls, time, d);
      UnlockTemporary(ls, time, s);
      UnlockedBoth(old(ls.locks), time, s, d, before, now);
    case Unholds(n0, n1) =>
      ls.Release(n0, n1);
  }

  /** Unlocking the destination leaves the source's temporary lock in place. */
  lemma TemporaryFirst(ls: Locks, time: int, s: string, d: string)
    requires TemporaryToken(ls, s) && (s != "" ==> s != d)
    ensures TemporaryToken(if d == "" then ls else Unexpired(ls, time) - {d}, s)
  {}

  lemma UnlockedBoth(ls: Locks, time: int, s: string, d: string, before: Locks, now: int)
    requires time <= now && SameFrom(Without(Without(ls, d), s), before, now)
    requires TemporaryToken(ls, s) && TemporaryToken(ls, d) && (s != "" ==> s != d)
    ensures var l1 := if d == "" then ls else Unexpired(ls, time) - {d};
            SameFrom(if s == "" then l1 else Unexpired(l1, time) - {s}, before, now)
  {
    var l1 := if d == "" then ls else Unexpired(ls, time) - {d};
    var l2 := if s == "" then l1 else Unexpired(l1, time) - {s};
    forall later | now <= later
      ensures Unexpired(l2, later) == Unexpired(before, later)
    {
      assert Unexpired(l2, later) == Unexpired(Without(Without(ls, d), s), later);
    }
  }

  /**
   A request that comes and goes with nothing in between leaves exactly the locks that
   had not expired: its temporary locks are gone and the locks it claimed are free again.
   */
  method ConfirmThenRelease(ls: MemLS, url: string -> Target, header: string, times: seq<int>, src: string, dst: string)
    requires ls.Valid() && Nondecreasing(times) && |times| == Readings(header)
    modifies ls, ls.Repr
    ensures ls.Valid()
    ensures |times| > 0 ==> SameFrom(ls.locks, old(ls.locks), times[|times| - 1])
  {
    hide ls.Valid, SameFrom;
    var status, release := ConfirmLocks(ls, url, header, times, src, dst);
    if status == Proceed {
      RunRelease(ls, release, old(ls.locks), if |times| > 0 then times[|times| - 1] else 0);
    }
  }

  // ---------- LOCK and UNLOCK ----------

  /** An empty body asks for a refresh of the one lock that the If header names. */
  datatype LockRequest =
    | RefreshRequest(ifHeader: string, duration: int)
    | NewRequest(path: string, duration: int, owner: string, zeroDepth: bool)

  function RefreshToken(header: string): Option<string> {
    match IfHeaders.Header(header)
    case None => None
    case Some(lists) =>
      if |lists| == 1 && |lists[0].conditions| == 1 &&
        lists[0].conditions[0].token != "" then Some(lists[0].conditions[0].token) else None
  }

  function CodedUrl(token: string): string {
    "<" + token + ">"
  }

  /** The token in a Lock-Token header. */
  function TokenOfHeader(header: string): Option<string> {
    if |header| < 2 || header[0] != '<' || header[|header| - 1] != '>' then None else Some(header[1..|header| - 1])
  }

  lemma CodedUrlBack(token: string)
    ensures TokenOfHeader(CodedUrl(token)) == Some(token)
  {
    assert CodedUrl(token)[1..|CodedUrl(token)| - 1] == token;
  }

  /**
   A new lock is given up again when the resource cannot be created.  `resourceReady` says
   that the resource exists or has been created.
   */
  method HandleLock(ls: MemLS, now: int, request: LockRequest, resourceReady: bool)
    returns (status: Status, lockToken: string)
    requires ls.Valid()
    modifies ls, ls.Repr
    ensures ls.Valid() && fresh(ls.Repr - old(ls.Repr))
    ensures var u := Unexpired(old(ls.locks), now);
      match request
      case RefreshRequest(header, duration) =>
        (match RefreshToken(header)
         case None => status == BadRequest && ls.locks == old(ls.locks)
         case Some(t) =>
           if t !in u then status == PreconditionFailed && ls.locks == u
           else if u[t].held then status == ServerError && ls.locks == u
           else status == Proceed && ls.locks == Refreshed(u, now, t, duration))
      case NewRequest(path, duration, owner, zeroDepth) =>
        if !CanLock(u, SlashClean(path), zeroDepth) then status == StatusLocked && ls.locks == u
        else if !resourceReady then status == ServerError && SameFrom(ls.locks, old(ls.locks), now)
        else
          status == Proceed && exists t ::
            lockToken == CodedUrl(t) && t !in old(ls.locks)
            && ls.locks == u[t := NewLock(now, LockDetails(SlashClean(path), duration, owner, zeroDepth))]
  {
    hide ls.Valid, Unexpired, CanLock, Refreshed, IfHeaders.Header, SameFrom;
    lockToken := "";
    match request {
      case RefreshRequest(header, duration) =>
        var ok, lists := IfHeaders.ParseIfHeader(header);
        if !ok || |lists| != 1 || |lists[0].conditions| != 1 || lists[0].conditions[0].token == "" {
          return BadRequest, lockToken;
        }
        var r := ls.Refresh(now, lists[0].conditions[0].token, duration);
        status := match r
                  case Ok(_) => Proceed
                  case Err(e) => if e == ErrNoSuchLock then PreconditionFailed else ServerError;
      case NewRequest(path, duration, owner, zeroDepth) =>
        ghost var before := ls.locks;
        var r := ls.Create(now, path, duration, owner, zeroDepth);
        if r.Err? {
          return StatusLocked, lockToken;
        }
        if !resourceReady {
          var _ := ls.Unlock(now, r.value);
          JustMade(before, now, r.value, NewLock(now, LockDetails(SlashClean(path), duration, owner, zeroDepth)));
          GivenUp(before, now, now, r.value, NewLock(now, LockDetails(SlashClean(path), duration, owner, zeroDepth)),
            ls.locks);
          return ServerError, lockToken;
        }
        return Proceed, CodedUrl(r.value);
    }
  }

  lemma JustMade(before: Locks, now: int, token: string, l: Lock)
    requires !l.held
    ensures var u := Unexpired(Unexpired(before, now)[token := l], now); token in u ==> !u[token].held
    ensures var u := Unexpired(Unexpired(before, now)[token := l], now); token !in u ==> u - {token} == u
  {}

  /** A lock that is unlocked, or has expired by then, leaves the others as they were. */
  lemma GivenUp(before: Locks, now: int, later: int, token: string, l: Lock, after: Locks)
    requires now <= later && token !in before
    requires var u := Unexpired(Unexpired(before, now)[token := l], later);
      after == if token in u then u - {token} else u
    ensures SameFrom(after, before, later)
  {
    var a := Unexpired(before, now);
    assert after == Unexpired(a[token := l], later) - {token};
    AddedAndRemoved(a, later, token, l);
    forall t | later <= t
      ensures Unexpired(after, t) == Unexpired(before, t)
    {
      UnexpiredTwice(before, now, t);
    }
  }

  method HandleUnlock(ls: MemLS, now: int, header: string) returns (status: Status)
    requires ls.Valid()
    modifies ls, ls.Repr
    ensures ls.Valid() && ls.Repr == old(ls.Repr)
    ensures var u := Unexpired(old(ls.locks), now);
      match TokenOfHeader(header)
      case None => status == BadRequest && ls.locks == old(ls.locks)
      case Some(t) =>
        if t !in u then status == Conflict && ls.locks == u
        else if u[t].held then status == StatusLocked && ls.locks == u
        else status == NoContent && ls.locks == u - {t}
  {
    hide ls.Valid, Unexpired;
    if |header| < 2 || header[0] != '<' || header[|header| - 1] != '>' {
      return BadRequest;
    }
    var r := ls.Unlock(now, header[1..|header| - 1]);
    return match r
      case Ok(_) => NoContent
      case Err(e) => if e == ErrLocked then StatusLocked else Conflict;
  }

  /**
   The header that LOCK answers with is the one UNLOCK takes: as long as the new lock lives it
   is found and removed, after that there is a conflict, and the other locks are as they were.
   */
  method LockThenUnlock(ls: MemLS, now: int, later: int, request: LockRequest)
    returns (locked: Status, unlocked: Status)
    requires ls.Valid() && now <= later && request.NewRequest?
    modifies ls, ls.Repr
    ensures ls.Valid()
    ensures locked == Proceed ==>
      && unlocked == (if request.duration < 0 || later < now + request.duration then NoContent else Conflict)
      && SameFrom(ls.locks, old(ls.locks), later)
  {
    hide ls.Valid, CanLock, SameFrom, NewLock, Unexpired;
    ghost var before := ls.locks;
    var header;
    locked, header := HandleLock(ls, now, request, true);
    unlocked := NoContent;
    if locked == Proceed {
      ghost var d := LockDetails(SlashClean(request.path), request.duration, request.owner, request.zeroDepth);
      ghost var u := Unexpired(before, now);
      ghost var t :| header == CodedUrl(t) && t !in before && ls.locks == u[t := NewLock(now, d)];
      SameIfUnexpired(before, now, t);
      CodedUrlBack(t);
      NewLockMeans(u, now, t, d, later);
      SameIfUnexpired(u[t := NewLock(now, d)], later, t);
      unlocked := HandleUnlock(ls, later, header);
      GivenUp(before, now, later, t, NewLock(now, d), ls.locks);
    }
  }

  /** A refresh is refused with 400 unless its header is one list with the one token of a lock. */
  lemma RefreshHeader(lists: seq<IfList>)
    requires IfHeaders.Printable(lists)
    ensures var c := lists[0].conditions;
            RefreshToken(IfHeaders.Print(lists)) ==
            if |lists| == |c| == 1 && c[0].token != "" then Some(c[0].token) else None
  {
    hide IfHeaders.Print, IfHeaders.Header, IfHeaders.Printable;
    IfHeaders.ParsePrint(lists);
  }

  /** A lock that LOCK refreshes lives for the new duration from then on. */
  method RefreshThenUnlock(ls: MemLS, now: int, later: int, token: string, duration: int, header: string)
    returns (refreshed: Status, unlocked: Status)
    requires ls.Valid() && now <= later && RefreshToken(header) == Some(token)
    modifies ls, ls.Repr
    ensures ls.Valid()
    ensures refreshed == Proceed <==> token in Unexpired(old(ls.locks), now) && !old(ls.locks)[token].held
    ensures refreshed == Proceed ==>
      && unlocked == (if duration < 0 || later < now + duration then NoContent else Conflict)
      && ls.locks == Unexpired(old(ls.locks), later) - {token}
  {
    hide ls.Valid, Unexpired, RefreshToken, Refreshed;
    ghost var u := Unexpired(ls.locks, now);
    SameIfUnexpired(ls.locks, now, token);
    var shown;
    refreshed, shown := HandleLock(ls, now, RefreshRequest(header, duration), true);
    ghost var renewed := ls.locks;
    CodedUrlBack(token);
    unlocked := HandleUnlock(ls, later, CodedUrl(token));
    if refreshed == Proceed {
      RefreshMeans(u, now, token, duration, later);
      SameIfUnexpired(renewed, later, token);
      UnexpiredTwice(old(ls.locks), now, later);
    }
  }
}
