/**
 How an upload can end: which states can still lead to success, and when an upload fails
 although nothing is lost.
 */
module UploadOutcome {
  import opened UploadRun
  import opened Uploads
  import opened Wrappers

  // ---------- states that cannot succeed ----------

  predicate Answer(s: State, r: nat) {
    r in s.replies && s.replies[r]
  }

  /**
   The worker waits for a chunk that the server has already accepted, and no good answer to its
   request is on the way.
   */
  ghost predicate Stuck(s: State, w: nat) {
    w < |s.workers| && s.workers[w].Waiting? && s.workers[w].index < |s.accepted| && !Answer(s, s.workers[w].request)
  }

  /** The worker's last attempt has been refused. */
  ghost predicate Spent(s: State, w: nat) {
    && w < |s.workers| && s.workers[w].Waiting? && s.workers[w].attempt >= MAX_ATTEMPTS
    && s.workers[w].request !in s.inFlight && !Answer(s, s.workers[w].request)
  }

  /** The session is gone before the completion has been answered well. */
  predicate Orphaned(s: State) {
    s.session.None? && (s.phase == Working || (s.phase.Completing? && !Answer(s, s.phase.request)))
  }

  ghost predicate Doomed(s: State) {
    s.failure || s.phase == GaveUp || Orphaned(s) || exists w: nat :: Stuck(s, w) || Spent(s, w)
  }

  lemma LostStays(data: seq<bv8>, s: State, e: Event)
    requires ClientInv(data, s) && Next(data, s, e).Some?
    ensures s.failure ==> Next(data, s, e).value.failure
    ensures s.phase == GaveUp ==> Next(data, s, e).value.phase == GaveUp
  {
    hide ChunkCount, Busy, Part;
  }

  lemma OrphanStays(data: seq<bv8>, s: State, e: Event)
    requires NetInv(data, s) && Orphaned(s) && Next(data, s, e).Some?
    ensures var s' := Next(data, s, e).value; Orphaned(s') || s'.failure || s'.phase == GaveUp
  {
    hide ChunkCount, Part;
  }

  lemma StuckStays(data: seq<bv8>, s: State, e: Event, w: nat)
    requires Inv(data, s) && (Stuck(s, w) || Spent(s, w)) && Next(data, s, e).Some?
    ensures var s' := Next(data, s, e).value; s'.failure || s'.phase == GaveUp || Stuck(s', w) || Spent(s', w)
  {
    hide Next, Inv, Stuck, Spent;
    if e.Take? || e.Answered? || e.Broken? {
      StuckAtWorker(data, s, e, w);
    } else {
      StuckElsewhere(data, s, e, w);
    }
  }

  lemma StuckAtWorker(data: seq<bv8>, s: State, e: Event, w: nat)
    requires Inv(data, s) && (Stuck(s, w) || Spent(s, w)) && Next(data, s, e).Some? &&
      (e.Take? || e.Answered? || e.Broken?)
    ensures var s' := Next(data, s, e).value; s'.failure || s'.phase == GaveUp || Stuck(s', w) || Spent(s', w)
  {
    hide ChunkCount, Prefix, Part, Busy, Indices, ServerInv;
  }

  lemma StuckElsewhere(data: seq<bv8>, s: State, e: Event, w: nat)
    requires Inv(data, s) && (Stuck(s, w) || Spent(s, w)) && Next(data, s, e).Some? && !e.Take? && !e.Answered? &&
      !e.Broken?
    ensures var s' := Next(data, s, e).value; s'.failure || s'.phase == GaveUp || Stuck(s', w) || Spent(s', w)
  {
    hide ChunkCount, Prefix, Part, Busy, Indices, Consistent, Stored;
  }

  lemma DoomedStays(data: seq<bv8>, s: State, e: Event)
    requires Inv(data, s) && Doomed(s) && Next(data, s, e).Some?
    ensures Doomed(Next(data, s, e).value)
  {
    hide ServerInv, NetInv, ClientInv, Stuck, Spent, Orphaned, Next;
    if s.failure || s.phase == GaveUp {
      LostStays(data, s, e);
    } else if Orphaned(s) {
      OrphanStays(data, s, e);
    } else {
      var w: nat :| Stuck(s, w) || Spent(s, w);
      StuckStays(data, s, e, w);
    }
  }

  lemma {:induction false} DoomedRun(data: seq<bv8>, s: State, more: seq<Event>)
    requires Inv(data, s) && Doomed(s) && Run(data, s, more).Some?
    ensures Inv(data, Run(data, s, more).value) && Doomed(Run(data, s, more).value)
    decreases |more|
  {
    hide Inv, Next, Doomed;
    if more != [] {
      DoomedRun(data, s, more[..|more| - 1]);
      StepInv(data, Run(data, s, more[..|more| - 1]).value, more[|more| - 1]);
      DoomedStays(data, Run(data, s, more[..|more| - 1]).value, more[|more| - 1]);
    }
  }

  lemma DoomedFails(data: seq<bv8>, s: State)
    requires Inv(data, s) && Doomed(s)
    ensures s.phase != Succeeded
  {
    hide ServerInv, NetInv, ChunkCount, Busy;
    assert AllStopped(s) ==> forall w: nat :: !Stuck(s, w) && !Spent(s, w);
  }

  /**
   Once the answer to an accepted chunk is lost, or given up before it comes, its worker
   can only be refused: the upload does not succeed, however the run goes on.
   */
  lemma LostReplyIsFatal(data: seq<bv8>, s: State, w: nat, more: seq<Event>)
    requires Inv(data, s) && Stuck(s, w) && Run(data, s, more).Some?
    ensures Run(data, s, more).value.phase != Succeeded
  {
    hide Inv, Next, Run, Stuck, Spent;
    DoomedRun(data, s, more);
    DoomedFails(data, Run(data, s, more).value);
  }

  lemma RunOneMore(data: seq<bv8>, s: State, events: seq<Event>, e: Event)
    requires Run(data, s, events).Some?
    ensures Run(data, s, events + [e]) == Next(data, Run(data, s, events).value, e)
  {
    hide Next;
    assert (events + [e])[..|events|] == events;
  }

  /** It happens in every upload: the first chunk is accepted, its answer is lost, and the worker is stuck. */
  lemma StuckIsReachable(data: seq<bv8>, session: SessionData)
    requires Begun(data, session)
    ensures var r := Run(data, Start(data, session), [Take(0), DeliverChunk(0), Broken(0)]);
            r.Some? && Inv(data, r.value) && Stuck(r.value, 0)
  {
    hide Next, Start, Inv, Stuck, Begun;
    var s := Start(data, session);
    FirstTaken(data, session);
    var s1 := Next(data, s, Take(0)).value;
    FirstAccepted(data, s1);
    var s2 := Next(data, s1, DeliverChunk(0)).value;
    FirstAnswerLost(data, s2);
    RunThree(data, s, Take(0), DeliverChunk(0), Broken(0));
    RunInv(data, session, [Take(0), DeliverChunk(0), Broken(0)]);
  }

  /** The first worker has asked for the first chunk to be stored, once. */
  predicate AskedFirst(s: State) {
    && s.phase == Working && !s.failure && |s.workers| > 0 && s.workers[0] == Waiting(0, 1, 0)
    && s.sent == [ChunkMessage(0)]
  }

  lemma FirstTaken(data: seq<bv8>, session: SessionData)
    requires Begun(data, session)
    ensures var r := Next(data, Start(data, session), Take(0));
            r.Some? && AskedFirst(r.value) && r.value.session == Some(session) && r.value.accepted == []
            && 0 in r.value.inFlight && r.value.replies == map[]
            && |Part(data, 0)| <= session.total - session.received && session.next == 0
  {
    hide ChunkCount, Part;
    FirstFits(data);
  }

  lemma FirstAccepted(data: seq<bv8>, s: State)
    requires AskedFirst(s) && 0 in s.inFlight && s.replies == map[] && s.session.Some? && s.accepted == []
    requires |Part(data, 0)| <= s.session.value.total - s.session.value.received && s.session.value.next == 0
    ensures var r := Next(data, s, DeliverChunk(0));
            r.Some? && AskedFirst(r.value) && r.value.accepted == [0] && 1 !in r.value.replies
  {
    hide Part;
  }

  lemma FirstAnswerLost(data: seq<bv8>, s: State)
    requires AskedFirst(s) && s.accepted == [0] && 1 !in s.replies
    ensures var r := Next(data, s, Broken(0)); r.Some? && Stuck(r.value, 0)
  {}

  lemma FirstFits(data: seq<bv8>)
    ensures |Part(data, 0)| <= |data| && ChunkCount(|data|) >= 1
    ensures ChunkCount(|data|) == 1 ==> Part(data, 0) == data
  {
    ChunksMakeTheFile(data, 0);
    ChunksMakeTheFile(data, 1);
    assert Prefix(data, 0) == [];
  }

  // ---------- failing without a fault ----------

  /** Nothing is lost and nothing expires: a worker retries only after it has been refused. */
  predicate FaultlessStep(s: State, e: Event) {
    match e
    case Broken(w) =>
      w < |s.workers| && s.workers[w].Waiting? && s.workers[w].request in s.replies && !s.replies[s.workers[w].request]
    case CompleteBroken => false
    case Expire => false
    case _ => true
  }

  predicate Faultless(data: seq<bv8>, s: State, events: seq<Event>)
    decreases |events|
  {
    events == [] ||
    (var before := Run(data, s, events[..|events| - 1]);
     Faultless(data, s, events[..|events| - 1]) && before.Some? && FaultlessStep(before.value, events[|events| - 1]))
  }

  /** A request for a chunk whose turn has not come is waiting to be refused. */
  ghost predicate TooEarly(s: State, w: nat, attempt: nat) {
    && w < |s.workers| && s.workers[w].Waiting? && s.workers[w].attempt == attempt
    && var Waiting(i, _, r) := s.workers[w];
       r < |s.sent| && s.sent[r] == ChunkMessage(i) && r in s.inFlight && s.session.Some? && s.session.value.next != i
  }

  lemma RefusedOnce(data: seq<bv8>, s: State, events: seq<Event>, w: nat, attempt: nat)
    returns (events': seq<Event>)
    requires Run(data, s, events).Some? && Faultless(data, s, events) &&
      TooEarly(Run(data, s, events).value, w, attempt)
    ensures Run(data, s, events').Some? && Faultless(data, s, events')
    ensures var t := Run(data, s, events').value;
      if attempt >= MAX_ATTEMPTS then t.failure else TooEarly(t, w, attempt + 1)
  {
    hide Part;
    var t := Run(data, s, events).value;
    var r := t.workers[w].request;
    var middle := events + [DeliverChunk(r)];
    assert middle[..|middle| - 1] == events;
    var u := Run(data, s, middle).value;
    assert u.workers == t.workers && u.sent == t.sent && r in u.replies && !u.replies[r] && u.session == t.session;
    events' := middle + [Broken(w)];
    assert events'[..|events'| - 1] == middle;
  }

  /**
   With more than one chunk, two workers are enough to fail an upload with nothing lost:
   the second chunk arrives three times before the first.
   */
  lemma OvertakingFails(data: seq<bv8>, session: SessionData) returns (events: seq<Event>)
    requires Begun(data, session) && ChunkCount(|data|) >= 2
    ensures Run(data, Start(data, session), events).Some? && Faultless(data, Start(data, session), events)
    ensures Run(data, Start(data, session), events).value.failure
  {
    var s := Start(data, session);
    events := TwoTaken(data, session);
    events := RefusedOnce(data, s, events, 1, 1);
    events := RefusedOnce(data, s, events, 1, 2);
    events := RefusedOnce(data, s, events, 1, 3);
  }

  lemma TwoTaken(data: seq<bv8>, session: SessionData) returns (events: seq<Event>)
    requires Begun(data, session) && ChunkCount(|data|) >= 2
    ensures Run(data, Start(data, session), events).Some? && Faultless(data, Start(data, session), events)
    ensures TooEarly(Run(data, Start(data, session), events).value, 1, 1)
  {
    hide ChunkCount;
    var s := Start(data, session);
    var one := [Take(0)];
    assert one[..0] == [];
    var t := Run(data, s, one).value;
    assert t.queue[0] == 1 && t.workers[1] == Ready;
    events := one + [Take(1)];
    assert events[..1] == one;
  }

  /**
   With one chunk: its one request is under way to a session that will take it, or has been answered
   well, or is over.
   */
  ghost predicate OnCourse(s: State) {
    && !s.failure && |s.workers| == 1
    && match s.workers[0]
       case Ready => s.queue == [] || (s.queue == [0] && s.sent == [] && s.session.Some? && s.accepted == [])
       case Waiting(i, _, r) =>
         && i == 0 && r == 0 && s.queue == [] && s.sent == [ChunkMessage(0)]
         && (0 in s.replies ==> s.replies[0]) && (0 !in s.replies ==> s.session.Some? && s.accepted == [])
       case Done => true
  }

  lemma OneChunkStep(data: seq<bv8>, s: State, e: Event)
    requires ChunkCount(|data|) == 1 && Inv(data, s) && OnCourse(s) && FaultlessStep(s, e) && Next(data, s, e).Some?
    ensures OnCourse(Next(data, s, e).value)
  {
    hide Next, Inv, OnCourse, FaultlessStep;
    if e.Take? || e.Answered? || e.Broken? {
      OneWorkerStep(data, s, e);
    } else {
      OneDelivery(data, s, e);
    }
  }

  lemma OneWorkerStep(data: seq<bv8>, s: State, e: Event)
    requires ChunkCount(|data|) == 1 && Inv(data, s) && OnCourse(s) && FaultlessStep(s, e) && Next(data, s, e).Some?
    requires e.Take? || e.Answered? || e.Broken?
    ensures OnCourse(Next(data, s, e).value)
  {
    hide ChunkCount, ServerInv, Part, Prefix, Busy, Indices;
  }

  lemma OneDelivery(data: seq<bv8>, s: State, e: Event)
    requires ChunkCount(|data|) == 1 && Inv(data, s) && OnCourse(s) && FaultlessStep(s, e) && Next(data, s, e).Some?
    requires !e.Take? && !e.Answered? && !e.Broken?
    ensures OnCourse(Next(data, s, e).value)
  {
    hide ChunkCount, Part, Prefix, Busy, Stored, Consistent, Indices, ClientInv;
    FirstFits(data);
    NothingYet(data, s);
  }

  lemma NothingYet(data: seq<bv8>, s: State)
    requires ServerInv(data, s)
    ensures s.session.Some? && s.accepted == [] ==>
      s.session.value.next == 0 && s.session.value.received == 0 && s.session.value.total == |data|
  {
    ChunksMakeTheFile(data, 0);
    assert Prefix(data, 0) == [];
  }

  lemma {:induction false} OneChunkRun(data: seq<bv8>, session: SessionData, events: seq<Event>)
    requires Begun(data, session) && ChunkCount(|data|) == 1
    requires Run(data, Start(data, session), events).Some? && Faultless(data, Start(data, session), events)
    ensures OnCourse(Run(data, Start(data, session), events).value)
    decreases |events|
  {
    hide Inv, Next, OnCourse, FaultlessStep, Start;
    var s := Start(data, session);
    if events == [] {
      StartOnCourse(data, session);
    } else {
      var before := events[..|events| - 1];
      OneChunkRun(data, session, before);
      RunInv(data, session, before);
      OneChunkStep(data, Run(data, s, before).value, events[|events| - 1]);
    }
  }

  lemma StartOnCourse(data: seq<bv8>, session: SessionData)
    requires ChunkCount(|data|) == 1
    ensures OnCourse(Start(data, session))
  {
    hide ChunkCount;
    assert Indices(1) == [0];
  }

  ghost predicate FailsFaultlessly(data: seq<bv8>, session: SessionData, events: seq<Event>) {
    var s := Start(data, session);
    Run(data, s, events).Some? && Faultless(data, s, events) && Run(data, s, events).value.failure
  }

  /** An upload can fail with nothing lost exactly when it has more than one chunk. */
  lemma FaultlessFailure(data: seq<bv8>, session: SessionData)
    requires Begun(data, session)
    ensures (exists events :: FailsFaultlessly(data, session, events)) <==> ChunkCount(|data|) >= 2
  {
    hide Run, Start, Faultless, ChunkCount;
    FirstFits(data);
    if ChunkCount(|data|) >= 2 {
      var events := OvertakingFails(data, session);
      assert FailsFaultlessly(data, session, events);
    } else {
      forall events
        ensures !FailsFaultlessly(data, session, events)
      {
        if Run(data, Start(data, session), events).Some? && Faultless(data, Start(data, session), events) {
          OneChunkRun(data, session, events);
        }
      }
    }
  }

  // ---------- states that can still succeed ----------

  /** Every chunk taken from the queue is accepted or held by a waiting worker, and by one only. */
  ghost predicate Covered(data: seq<bv8>, s: State) {
    var n := ChunkCount(|data|);
    && |s.queue| <= n && s.queue == Indices(n)[n - |s.queue|..] && |s.accepted| <= n - |s.queue|
    && (forall r :: 0 <= r < |s.sent| && s.sent[r].ChunkMessage? ==> s.sent[r].index < n - |s.queue|)
    && (forall r :: r in s.replies && s.replies[r] && r < |s.sent| && s.sent[r].ChunkMessage? ==>
      s.sent[r].index < |s.accepted|)
    && (forall w :: 0 <= w < |s.workers| && s.workers[w].Waiting? ==> s.workers[w].index < n - |s.queue|)
    && (forall v, w :: 0 <= v < w < |s.workers| && s.workers[v].Waiting? && s.workers[w].Waiting? ==>
          s.workers[v].index != s.workers[w].index)
    && (!s.failure ==> forall i: nat :: |s.accepted| <= i < n - |s.queue| ==> Held(s, i))
    && (s.phase == Working ==> forall r :: 0 <= r < |s.sent| ==> s.sent[r].ChunkMessage?)
  }

  ghost predicate Held(s: State, i: nat) {
    exists w :: 0 <= w < |s.workers| && s.workers[w].Waiting? && s.workers[w].index == i
  }

  lemma StartCovered(data: seq<bv8>, session: SessionData)
    ensures Covered(data, Start(data, session))
  {
    hide ChunkCount;
  }

  lemma TakeCovered(data: seq<bv8>, s: State, w: nat)
    requires Inv(data, s) && Covered(data, s) && Next(data, s, Take(w)).Some?
    ensures Covered(data, Next(data, s, Take(w)).value)
  {
    hide Next, Inv, Covered;
    if s.queue == [] || s.failure {
      StopCovered(data, s, w);
    } else {
      ChunkTakenCovered(data, s, w);
    }
  }

  lemma StopCovered(data: seq<bv8>, s: State, w: nat)
    requires Inv(data, s) && Covered(data, s) && Next(data, s, Take(w)).Some? && (s.queue == [] || s.failure)
    ensures Covered(data, Next(data, s, Take(w)).value)
  {
    hide ChunkCount, Busy, ServerInv, NetInv, Part, Held;
    var s' := Next(data, s, Take(w)).value;
    forall i: nat
      ensures Held(s, i) ==> Held(s', i)
    {
      StillHeld(s, s', i, w);
    }
  }

  lemma ChunkTakenCovered(data: seq<bv8>, s: State, w: nat)
    requires Inv(data, s) && Covered(data, s) && Next(data, s, Take(w)).Some? && s.queue != [] && !s.failure
    ensures Covered(data, Next(data, s, Take(w)).value)
  {
    hide ChunkCount, Busy, ServerInv, Part, Held;
    var s' := Next(data, s, Take(w)).value;
    forall i: nat
      ensures Held(s, i) || i == s.queue[0] ==> Held(s', i)
    {
      StillHeld(s, s', i, w);
      if i == s.queue[0] {
        HoldsNow(s', w, i);
      }
    }
  }

  lemma HoldsNow(s: State, w: nat, i: nat)
    requires w < |s.workers| && s.workers[w].Waiting? && s.workers[w].index == i
    ensures Held(s, i)
  {}

  /** A change of one worker that did not hold `i`, or still does, leaves it held. */
  lemma StillHeld(s: State, s': State, i: nat, w: nat)
    requires |s'.workers| == |s.workers| && forall v :: 0 <= v < |s.workers| && v != w ==> s'.workers[v] == s.workers[v]
    requires w < |s.workers| && (s.workers[w].Waiting? && s.workers[w].index == i ==>
      s'.workers[w].Waiting? && s'.workers[w].index == i)
    ensures Held(s, i) ==> Held(s', i)
  {
    if Held(s, i) {
      var v :| 0 <= v < |s.workers| && s.workers[v].Waiting? && s.workers[v].index == i;
      assert s'.workers[v].Waiting? && s'.workers[v].index == i;
    }
  }

  lemma DeliverCovered(data: seq<bv8>, s: State, r: nat)
    requires Inv(data, s) && Covered(data, s) && Next(data, s, DeliverChunk(r)).Some?
    ensures Covered(data, Next(data, s, DeliverChunk(r)).value)
  {
    hide ChunkCount, Busy, Part, Prefix, AcceptChunk, Consistent, Stored, Held;
    var s' := Next(data, s, DeliverChunk(r)).value;
    if s.session.Some? {
      AcceptedInOrder(s.session.value, s.sent[r].index, Part(data, s.sent[r].index));
    }
    forall i: nat
      ensures Held(s', i) == Held(s, i)
    {
      SameHeld(s, s', i);
    }
  }

  lemma SameHeld(s: State, s': State, i: nat)
    requires s'.workers == s.workers
    ensures Held(s', i) == Held(s, i)
  {}

  lemma WorkerCovered(data: seq<bv8>, s: State, e: Event)
    requires Inv(data, s) && Covered(data, s) && Next(data, s, e).Some? && (e.Answered? || e.Broken?)
    ensures Covered(data, Next(data, s, e).value)
  {
    hide Next, Inv, Covered;
    if e.Answered? {
      AnsweredCovered(data, s, e.w);
    } else {
      BrokenCovered(data, s, e.w);
    }
  }

  lemma AnsweredCovered(data: seq<bv8>, s: State, w: nat)
    requires Inv(data, s) && Covered(data, s) && Next(data, s, Answered(w)).Some?
    ensures Covered(data, Next(data, s, Answered(w)).value)
  {
    hide ChunkCount, Busy, Part, Prefix, ServerInv, Held;
    var s' := Next(data, s, Answered(w)).value;
    forall i: nat | |s.accepted| <= i
      ensures Held(s, i) ==> Held(s', i)
    {
      StillHeld(s, s', i, w);
    }
  }

  lemma BrokenCovered(data: seq<bv8>, s: State, w: nat)
    requires Inv(data, s) && Covered(data, s) && Next(data, s, Broken(w)).Some?
    ensures Covered(data, Next(data, s, Broken(w)).value)
  {
    hide ChunkCount, Busy, Part, Prefix, ServerInv, Held;
    var s' := Next(data, s, Broken(w)).value;
    forall i: nat | |s.accepted| <= i
      ensures !s'.failure && Held(s, i) ==> Held(s', i)
    {
      if !s'.failure {
        StillHeld(s, s', i, w);
      }
    }
  }

  lemma OtherCovered(data: seq<bv8>, s: State, e: Event)
    requires Inv(data, s) && Covered(data, s) && Next(data, s, e).Some?
    requires e.DeliverComplete? || e.AllDone? || e.CompleteAnswered? || e.CompleteBroken? || e.Expire?
    ensures Covered(data, Next(data, s, e).value)
  {
    hide ChunkCount, Part, ServerInv, ClientInv, Covered;
    CoveredAlike(data, s, Next(data, s, e).value);
  }

  /** Nothing has changed for chunks and workers; at most one request to complete has been made or answered. */
  lemma CoveredAlike(data: seq<bv8>, s: State, s': State)
    requires Covered(data, s) && s'.workers == s.workers && s'.queue == s.queue && s'.accepted == s.accepted &&
      s'.failure == s.failure
    requires s'.sent == s.sent || (s'.sent == s.sent + [CompleteMessage] && s'.phase != Working)
    requires s'.phase == Working ==> s.phase == Working
    requires forall r :: r in s'.replies && s'.replies[r] && r < |s'.sent| && s'.sent[r].ChunkMessage? ==>
               r < |s.sent| && r in s.replies && s.replies[r]
    ensures Covered(data, s')
  {
    hide ChunkCount, Held;
    forall i: nat
      ensures Held(s', i) == Held(s, i)
    {
      SameHeld(s, s', i);
    }
  }

  lemma StepCovered(data: seq<bv8>, s: State, e: Event)
    requires Inv(data, s) && Covered(data, s) && Next(data, s, e).Some?
    ensures Covered(data, Next(data, s, e).value)
  {
    hide *;
    match e
    case Take(w) => TakeCovered(data, s, w);
    case DeliverChunk(r) => DeliverCovered(data, s, r);
    case Answered(_) => WorkerCovered(data, s, e);
    case Broken(_) => WorkerCovered(data, s, e);
    case _ => OtherCovered(data, s, e);
  }

  lemma {:induction false} RunCovered(data: seq<bv8>, session: SessionData, events: seq<Event>)
    requires Begun(data, session) && Run(data, Start(data, session), events).Some?
    ensures Covered(data, Run(data, Start(data, session), events).value)
    decreases |events|
  {
    hide Inv, Next, Start, Covered;
    if events == [] {
      StartCovered(data, session);
    } else {
      RunCovered(data, session, events[..|events| - 1]);
      RunInv(data, session, events[..|events| - 1]);
      StepCovered(data, Run(data, Start(data, session), events[..|events| - 1]).value, events[|events| - 1]);
    }
  }

  // ---------- finishing ----------

  /**
   A waiting worker whose chunk is accepted has its answer on the way; any other has its request
   under way, or may try again.
   */
  predicate Hopeful(s: State, w: nat)
    requires w < |s.workers|
  {
    match s.workers[w]
    case Waiting(i, attempt, r) => if i < |s.accepted| then Answer(s, r) else r in s.inFlight || attempt < MAX_ATTEMPTS
    case _ => true
  }

  predicate Recoverable(s: State) {
    !s.failure && s.session.Some? && forall w :: 0 <= w < |s.workers| ==> Hopeful(s, w)
  }

  ghost predicate Unfinished(data: seq<bv8>, s: State) {
    Inv(data, s) && Covered(data, s) && s.phase == Working && Recoverable(s)
  }

  /** How far a worker is from being done with what it holds. */
  function Weight(x: Worker, inFlight: set<nat>): nat {
    match x
    case Done => 0
    case Ready => 1
    case Waiting(_, _, r) => if r in inFlight then 2 else 3
  }

  function Weights(ws: seq<Worker>, inFlight: set<nat>): nat {
    if ws == [] then 0 else Weights(ws[..|ws| - 1], inFlight) + Weight(ws[|ws| - 1], inFlight)
  }

  lemma {:induction false} LighterWorker(ws: seq<Worker>, w: nat, x: Worker, inFlight: set<nat>, inFlight': set<nat>)
    requires w < |ws| && Weight(x, inFlight') < Weight(ws[w], inFlight)
    requires forall v :: 0 <= v < |ws| && v != w ==> Weight(ws[v], inFlight') == Weight(ws[v], inFlight)
    ensures Weights(ws[w := x], inFlight') < Weights(ws, inFlight)
  {
    var k := |ws| - 1;
    if w == k {
      assert ws[w := x][..k] == ws[..k];
      SameWeights(ws[..k], inFlight, inFlight');
    } else {
      assert ws[w := x][..k] == ws[..k][w := x];
      LighterWorker(ws[..k], w, x, inFlight, inFlight');
    }
  }

  lemma {:induction false} SameWeights(ws: seq<Worker>, inFlight: set<nat>, inFlight': set<nat>)
    requires forall v :: 0 <= v < |ws| ==> Weight(ws[v], inFlight') == Weight(ws[v], inFlight)
    ensures Weights(ws, inFlight') == Weights(ws, inFlight)
  {
    if ws != [] {
      SameWeights(ws[..|ws| - 1], inFlight, inFlight');
    }
  }

  /** One step nearer to the end. */
  ghost predicate Nearer(data: seq<bv8>, s: State, e: Event) {
    && Next(data, s, e).Some?
    && var s' := Next(data, s, e).value;
       && Recoverable(s') && s'.phase == Working && |s.accepted| <= |s'.accepted|
       && (|s'.accepted| > |s.accepted| || |s'.queue| < |s.queue|
           || (|s'.queue| == |s.queue| && Weights(s'.workers, s'.inFlight) < Weights(s.workers, s.inFlight)))
  }

  lemma AnswerIt(data: seq<bv8>, s: State, w: nat)
    requires Unfinished(data, s) && w < |s.workers| && s.workers[w].Waiting? && s.workers[w].index < |s.accepted|
    ensures Nearer(data, s, Answered(w))
  {
    hide Inv, Covered, Weights;
    assert Hopeful(s, w);
    LighterWorker(s.workers, w, Ready, s.inFlight, s.inFlight);
    var s' := Next(data, s, Answered(w)).value;
    forall v | 0 <= v < |s.workers|
      ensures Hopeful(s', v)
    {
      assert Hopeful(s, v);
    }
  }

  /** The chunk whose turn it is has been taken: its request is carried out, or made again. */
  lemma DeliverIt(data: seq<bv8>, s: State, w: nat)
    requires Unfinished(data, s) && w < |s.workers| && s.workers[w].Waiting? && s.workers[w].index == |s.accepted|
    requires forall v :: 0 <= v < |s.workers| && s.workers[v].Waiting? ==> s.workers[v].index >= |s.accepted|
    requires s.workers[w].request in s.inFlight
    ensures Nearer(data, s, DeliverChunk(s.workers[w].request))
  {
    hide Covered, Weights, ChunkCount, Busy, NetInv;
    var r, k := s.workers[w].request, |s.accepted|;
    NextFits(data, s);
    var s' := Next(data, s, DeliverChunk(r)).value;
    forall v | 0 <= v < |s.workers|
      ensures Hopeful(s', v)
    {
      assert Hopeful(s, v);
      if s.workers[v].Waiting? {
        DistinctHeld(data, s, v, w);
      }
    }
  }

  lemma DistinctHeld(data: seq<bv8>, s: State, v: nat, w: nat)
    requires Covered(data, s) && v < |s.workers| && w < |s.workers| && s.workers[v].Waiting? && s.workers[w].Waiting?
    ensures v != w ==> s.workers[v].index != s.workers[w].index
  {
    hide ChunkCount, Held;
    assert v < w || w < v || v == w;
  }

  lemma NextFits(data: seq<bv8>, s: State)
    requires ServerInv(data, s) && s.session.Some?
    ensures AcceptChunk(s.session.value, |s.accepted|, Part(data, |s.accepted|)).0.None?
  {
    hide ChunkCount;
    ChunksMakeTheFile(data, |s.accepted|);
    assert |Prefix(data, |s.accepted|) + Part(data, |s.accepted|)| <= |data|;
  }

  lemma TryAgain(data: seq<bv8>, s: State, w: nat)
    requires Unfinished(data, s) && w < |s.workers| && s.workers[w].Waiting? && s.workers[w].index >= |s.accepted|
    requires s.workers[w].request !in s.inFlight
    ensures Nearer(data, s, Broken(w))
  {
    hide Covered, Weights, ChunkCount, Busy, ServerInv;
    assert Hopeful(s, w);
    var s' := Next(data, s, Broken(w)).value;
    LighterWorker(s.workers, w, s'.workers[w], s.inFlight, s'.inFlight);
    forall v | 0 <= v < |s.workers|
      ensures Hopeful(s', v)
    {
      assert Hopeful(s, v);
    }
  }

  lemma QueueAhead(data: seq<bv8>, s: State)
    requires Covered(data, s)
    ensures s.queue != [] ==> s.queue[0] == ChunkCount(|data|) - |s.queue| >= |s.accepted|
  {
    hide ChunkCount, Held;
  }

  lemma TakeIt(data: seq<bv8>, s: State, w: nat)
    requires Unfinished(data, s) && w < |s.workers| && s.workers[w] == Ready
    ensures Nearer(data, s, Take(w))
  {
    hide Covered, Weights, ChunkCount, Busy, ServerInv;
    var s' := Next(data, s, Take(w)).value;
    QueueAhead(data, s);
    if s.queue == [] {
      LighterWorker(s.workers, w, Done, s.inFlight, s.inFlight);
    }
    forall v | 0 <= v < |s.workers|
      ensures Hopeful(s', v)
    {
      assert Hopeful(s, v);
    }
  }

  /** While some worker is not done, some step leads nearer to the end. */
  lemma Progress(data: seq<bv8>, s: State) returns (e: Event)
    requires Unfinished(data, s) && !AllStopped(s)
    ensures Nearer(data, s, e)
  {
    hide Nearer, Inv, Covered, Recoverable, ChunkCount, Next, Held;
    StillOpen(s);
    if w :| 0 <= w < |s.workers| && s.workers[w].Waiting? && s.workers[w].index < |s.accepted| {
      AnswerIt(data, s, w);
      return Answered(w);
    }
    if w :| 0 <= w < |s.workers| && s.workers[w].Waiting? {
      var v := HolderOfNext(data, s, w);
      if s.workers[v].request in s.inFlight {
        DeliverIt(data, s, v);
        return DeliverChunk(s.workers[v].request);
      }
      TryAgain(data, s, v);
      return Broken(v);
    }
    var w :| 0 <= w < |s.workers| && s.workers[w] != Done;
    TakeIt(data, s, w);
    return Take(w);
  }

  /** If any taken chunk is still to be accepted, so is the one whose turn it is, and a worker holds it. */
  lemma HolderOfNext(data: seq<bv8>, s: State, w: nat) returns (v: nat)
    requires Covered(data, s) && !s.failure && w < |s.workers| && s.workers[w].Waiting? &&
      s.workers[w].index >= |s.accepted|
    ensures v < |s.workers| && s.workers[v].Waiting? && s.workers[v].index == |s.accepted|
  {
    hide ChunkCount;
    assert Held(s, |s.accepted|);
    v :| 0 <= v < |s.workers| && s.workers[v].Waiting? && s.workers[v].index == |s.accepted|;
  }

  /** When all workers are done, all chunks have been accepted. */
  lemma AllAccepted(data: seq<bv8>, s: State)
    requires Inv(data, s) && Covered(data, s) && !s.failure && AllStopped(s)
    ensures |s.accepted| == ChunkCount(|data|)
  {
    hide ChunkCount, ServerInv, NetInv, Busy;
    assert s.workers[0] == Done;
    assert !Held(s, |s.accepted|);
  }

  /** The completion, carried out and answered. */
  lemma Finish(data: seq<bv8>, s: State) returns (more: seq<Event>)
    requires Unfinished(data, s) && AllStopped(s)
    ensures Run(data, s, more).Some? && Run(data, s, more).value.phase == Succeeded
  {
    hide Next, Inv, Covered, Recoverable, Completes, AllStopped, Run;
    StillOpen(s);
    WholeNow(data, s);
    Completed(data, s);
    var e := DeliverComplete(|s.sent|, true, true);
    more := [AllDone, e, CompleteAnswered];
    RunThree(data, s, AllDone, e, CompleteAnswered);
  }

  /** When all workers have stopped without failure, the session is whole. */
  lemma WholeNow(data: seq<bv8>, s: State)
    requires Unfinished(data, s) && AllStopped(s)
    ensures s.session.Some? && Completes(s.session, true, true)
  {
    hide ChunkCount, Covered, Prefix, ClientInv, NetInv, Busy, Recoverable, Hopeful;
    StillOpen(s);
    AllAccepted(data, s);
    ChunksMakeTheFile(data, |s.accepted|);
    FirstFits(data);
  }

  lemma Completed(data: seq<bv8>, s: State)
    requires s.phase == Working && !s.failure && AllStopped(s) && Completes(s.session, true, true)
    ensures var e := DeliverComplete(|s.sent|, true, true);
            var s1 := Next(data, s, AllDone);
            s1.Some? &&
            var s2 := Next(data, s1.value, e);
            s2.Some? &&
            var s3 := Next(data, s2.value, CompleteAnswered);
            s3.Some? && s3.value.phase == Succeeded
  {
    hide Completes, Part, AcceptChunk;
    var s1 := Next(data, s, AllDone).value;
    assert s1.sent[|s.sent|] == CompleteMessage && |s.sent| in s1.inFlight && s1.session == s.session;
    var s2 := Next(data, s1, DeliverComplete(|s.sent|, true, true)).value;
    assert |s.sent| in s2.replies && s2.replies[|s.sent|] && s2.phase == Completing(|s.sent|);
  }

  lemma RunThree(data: seq<bv8>, s: State, a: Event, b: Event, c: Event)
    requires Next(data, s, a).Some? && Next(data, Next(data, s, a).value, b).Some?
    ensures Run(data, s, [a, b, c]) == Next(data, Next(data, Next(data, s, a).value, b).value, c)
  {
    hide Next;
    RunOneMore(data, s, [], a);
    RunOneMore(data, s, [a], b);
    RunOneMore(data, s, [a, b], c);
    assert [] + [a] == [a] && [a] + [b] == [a, b] && [a, b] + [c] == [a, b, c];
  }

  lemma StillOpen(s: State)
    requires Recoverable(s)
    ensures !s.failure && s.session.Some?
  {}

  lemma {:induction false} RunOneFirst(data: seq<bv8>, s: State, e: Event, more: seq<Event>)
    requires Next(data, s, e).Some?
    ensures Run(data, s, [e] + more) == Run(data, Next(data, s, e).value, more)
    decreases |more|
  {
    hide Next;
    if more == [] {
      RunOneMore(data, s, [], e);
      assert [e] + more == [] + [e];
    } else {
      var k := |more| - 1;
      RunOneFirst(data, s, e, more[..k]);
      assert ([e] + more)[..k + 1] == [e] + more[..k];
    }
  }

  lemma {:induction false} CanFinish(data: seq<bv8>, s: State) returns (more: seq<Event>)
    requires Unfinished(data, s)
    ensures Run(data, s, more).Some? && Run(data, s, more).value.phase == Succeeded
    decreases ChunkCount(|data|) - |s.accepted|, |s.queue|, Weights(s.workers, s.inFlight)
  {
    hide Inv, Covered, Recoverable, ChunkCount, Next, Run, Weights, AllStopped;
    if AllStopped(s) {
      more := Finish(data, s);
    } else {
      var e := Progress(data, s);
      var s' := Next(data, s, e).value;
      StepInv(data, s, e);
      StepCovered(data, s, e);
      NeverTooMany(data, s');
      more := CanFinish(data, s');
      RunOneFirst(data, s, e, more);
      more := [e] + more;
    }
  }

  lemma NeverTooMany(data: seq<bv8>, s: State)
    requires Inv(data, s)
    ensures |s.accepted| <= ChunkCount(|data|)
  {
    hide ChunkCount;
  }

  ghost predicate Succeeds(data: seq<bv8>, s: State, more: seq<Event>) {
    Run(data, s, more).Some? && Run(data, s, more).value.phase == Succeeded
  }

  lemma NotRecoverableIsDoomed(data: seq<bv8>, s: State)
    requires Inv(data, s) && Covered(data, s) && s.phase == Working && !Recoverable(s)
    ensures Doomed(s)
  {
    hide ChunkCount, Busy, Prefix, Held;
    if !s.failure && s.session.Some? {
      var w :| 0 <= w < |s.workers| && !Hopeful(s, w);
      assert Stuck(s, w) || Spent(s, w);
    }
  }

  /**
   A run in which the workers are busy can still succeed exactly when nothing has failed, the
   session lives, every worker whose chunk is accepted has its answer on the way, and every
   other has its request under way or an attempt left.
   */
  lemma CanStillSucceed(data: seq<bv8>, session: SessionData, events: seq<Event>)
    requires Begun(data, session) && Run(data, Start(data, session), events).Some?
    requires Run(data, Start(data, session), events).value.phase == Working
    ensures var s := Run(data, Start(data, session), events).value;
            (exists more :: Succeeds(data, s, more)) <==> Recoverable(s)
  {
    hide Inv, Covered, Recoverable, Run, Start, Doomed;
    var s := Run(data, Start(data, session), events).value;
    RunInv(data, session, events);
    RunCovered(data, session, events);
    if Recoverable(s) {
      var more := CanFinish(data, s);
      assert Succeeds(data, s, more);
    } else {
      NotRecoverableIsDoomed(data, s);
      forall more
        ensures !Succeeds(data, s, more)
      {
        if Run(data, s, more).Some? {
          DoomedRun(data, s, more);
          DoomedFails(data, Run(data, s, more).value);
        }
      }
    }
  }
}
