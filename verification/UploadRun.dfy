/**
 A whole upload: a client whose workers take chunks from one queue and retry what
 fails, and a server that accepts chunks only in order.  Requests and replies may be
 delayed without bound or lost, and a request that the client has given up may still be
 carried out.
 */
module UploadRun {
  import opened Uploads
  import opened Wrappers

  const CHUNK_SIZE: nat := 8 * 1024 * 1024
  const MAX_ATTEMPTS: nat := 3
  const UPLOAD_CONCURRENCY: nat := 3

  // ---------- the state a page shows ----------

  datatype Status = Queued | Uploading | Retrying | Complete | Failed

  datatype UploadState = UploadState(status: Status, completed: nat, total: nat, attempts: nat)

  function StartUpload(total: nat): UploadState {
    UploadState(Queued, 0, total, 0)
  }

  function MarkChunk(u: UploadState): UploadState {
    u.(status := Uploading, completed := if u.total < u.completed + 1 then u.total else u.completed + 1, attempts := 0)
  }

  function MarkRetry(u: UploadState): UploadState {
    u.(attempts := u.attempts + 1, status := if u.attempts + 1 >= MAX_ATTEMPTS then Failed else Retrying)
  }

  function FinishUpload(u: UploadState): UploadState {
    u.(status := if u.completed == u.total then Complete else Failed)
  }

  /** The quotient rounded up; an empty file still has one chunk. */
  function ChunkCount(size: nat): nat {
    var n := (size + CHUNK_SIZE - 1) / CHUNK_SIZE;
    if n < 1 then 1 else n
  }

  // ---------- the parts of a file ----------

  function Min(a: int, b: int): int {
    if a < b then a else b
  }

  function Part(data: seq<bv8>, i: nat): seq<bv8> {
    data[Min(i * CHUNK_SIZE, |data|)..Min((i + 1) * CHUNK_SIZE, |data|)]
  }

  /** What the first `n` chunks contain. */
  function Prefix(data: seq<bv8>, n: nat): seq<bv8> {
    data[..Min(n * CHUNK_SIZE, |data|)]
  }

  /** The chunks, put together in order, are the file, and no smaller number of them is unless the file is empty. */
  lemma ChunksMakeTheFile(data: seq<bv8>, n: nat)
    ensures Prefix(data, n) + Part(data, n) == Prefix(data, n + 1)
    ensures n >= ChunkCount(|data|) ==> Prefix(data, n) == data
    ensures 0 < n && |Prefix(data, n)| == |data| ==> n >= ChunkCount(|data|)
  {
    var c := (|data| + CHUNK_SIZE - 1) / CHUNK_SIZE;
    assert c * CHUNK_SIZE >= |data| && (c - 1) * CHUNK_SIZE < |data|;
    if n >= ChunkCount(|data|) {
      assert n * CHUNK_SIZE >= c * CHUNK_SIZE;
    }
    if 0 < n && n < ChunkCount(|data|) {
      assert n * CHUNK_SIZE <= (c - 1) * CHUNK_SIZE;
    }
  }

  // ---------- the run ----------

  datatype Message = ChunkMessage(index: nat) | CompleteMessage

  datatype Worker = Ready | Waiting(index: nat, attempt: nat, request: nat) | Done

  datatype Phase = Working | Completing(request: nat) | Succeeded | GaveUp

  /** `sent` holds every request ever made, `accepted` the indices of the chunks the server has appended. */
  datatype State = State(
    queue: seq<nat>, workers: seq<Worker>, failure: bool, up: UploadState, phase: Phase,
    sent: seq<Message>, inFlight: set<nat>, replies: map<nat, bool>,
    session: Option<SessionData>, accepted: seq<nat>, published: seq<seq<bv8>>, skipped: bool)

  datatype Event =
    | Take(w: nat)
    | DeliverChunk(r: nat)
    | DeliverComplete(r: nat, publishes: bool, ok: bool)
    | Answered(w: nat)
    | Broken(w: nat)
    | AllDone
    | CompleteAnswered
    | CompleteBroken
    | Expire

  function Indices(n: nat): (q: seq<nat>)
    ensures |q| == n && forall i :: 0 <= i < n ==> q[i] == i
  {
    seq(n, i => i)
  }

  function Start(data: seq<bv8>, session: SessionData): State {
    var n := ChunkCount(|data|);
    State(Indices(n), seq(Min(UPLOAD_CONCURRENCY, n), _ => Ready), false, StartUpload(n).(status := Uploading), Working,
          [], {}, map[], Some(session), [], [], false)
  }

  function Send(s: State, m: Message): State {
    s.(sent := s.sent + [m], inFlight := s.inFlight + {|s.sent|})
  }

  function WithWorker(s: State, w: nat, x: Worker): State
    requires w < |s.workers|
  {
    s.(workers := s.workers[w := x])
  }

  /** One step, if it can be taken. */
  function Next(data: seq<bv8>, s: State, e: Event): Option<State> {
    match e
    case Take(w) =>
      if s.phase != Working || w >= |s.workers| || s.workers[w] != Ready then None
      else if s.queue == [] || s.failure then Some(WithWorker(s, w, Done))
      else
        var taken := WithWorker(s, w, Waiting(s.queue[0], 1, |s.sent|)).(queue := s.queue[1..]);
        Some(Send(taken, ChunkMessage(s.queue[0])))
    case DeliverChunk(r) =>
      if r !in s.inFlight || r >= |s.sent| || !s.sent[r].ChunkMessage? then None
      else
        var i := s.sent[r].index;
        var arrived := s.(inFlight := s.inFlight - {r});
        if s.session.None? then Some(arrived.(replies := s.replies[r := false]))
        else
          var (err, session) := AcceptChunk(s.session.value, i, Part(data, i));
          Some(arrived.(replies := s.replies[r := err.None?], session := session,
                        accepted := if err.None? then s.accepted + [i] else s.accepted))
    case DeliverComplete(r, publishes, ok) =>
      if r !in s.inFlight || r >= |s.sent| || !s.sent[r].CompleteMessage? then None
      else if !Completes(s.session, publishes, ok) then None
      else
        var arrived := s.(inFlight := s.inFlight - {r}, replies := s.replies[r := ok], session := None,
                          skipped := s.skipped || (ok && !publishes));
        Some(if publishes then arrived.(published := s.published + [s.session.value.payload.value]) else arrived)
    case Answered(w) =>
      if w >= |s.workers| || !s.workers[w].Waiting? then None
      else
        var r := s.workers[w].request;
        if r !in s.replies || !s.replies[r] then None
        else Some(WithWorker(s, w, Ready).(up := MarkChunk(s.up)))
    case Broken(w) =>
      if w >= |s.workers| || !s.workers[w].Waiting? then None
      else
        var x := s.workers[w];
        var marked := s.(up := MarkRetry(s.up));
        if x.attempt >= MAX_ATTEMPTS then Some(WithWorker(marked, w, Done).(failure := true))
        else Some(Send(WithWorker(marked, w, Waiting(x.index, x.attempt + 1, |s.sent|)), ChunkMessage(x.index)))
    case AllDone =>
      if s.phase != Working || exists w :: 0 <= w < |s.workers| && s.workers[w] != Done then None
      else if s.failure then Some(s.(phase := GaveUp, up := s.up.(status := Failed)))
      else Some(Send(s, CompleteMessage).(phase := Completing(|s.sent|)))
    case CompleteAnswered =>
      if !s.phase.Completing? || s.phase.request !in s.replies || !s.replies[s.phase.request] then None
      else Some(s.(phase := Succeeded, up := FinishUpload(s.up)))
    case CompleteBroken =>
      if !s.phase.Completing? then None
      else Some(s.(phase := GaveUp, up := s.up.(status := Failed)))
    case Expire => Some(s.(session := None))
  }

  /** The state after a sequence of steps. */
  function Run(data: seq<bv8>, s: State, events: seq<Event>): Option<State>
    decreases |events|
  {
    if events == [] then Some(s)
    else
      match Run(data, s, events[..|events| - 1])
      case None => None
      case Some(s') => Next(data, s', events[|events| - 1])
  }

  // ---------- what every step keeps ----------

  /** The server: accepted chunks are the first ones, in order, and what it has stored is what they contain. */
  ghost predicate ServerInv(data: seq<bv8>, s: State) {
    && s.accepted == Indices(|s.accepted|) && |s.accepted| <= ChunkCount(|data|)
    && (s.session.Some? ==>
          Consistent(s.session.value) && s.session.value.total == |data| && s.session.value.next == |s.accepted|
          && Stored(s.session.value) == Prefix(data, |s.accepted|) && s.published == [] && !s.skipped)
    && (s.published == [] || (s.published == [data] && |s.accepted| == ChunkCount(|data|)))
  }

  /** The network: requests are for chunks of the file, and a good answer to a completion is true. */
  ghost predicate NetInv(data: seq<bv8>, s: State) {
    && (forall r :: 0 <= r < |s.sent| && s.sent[r].ChunkMessage? ==> s.sent[r].index < ChunkCount(|data|))
    && (forall r :: r in s.inFlight ==> r < |s.sent|)
    && (forall r :: r in s.replies ==> r < |s.sent| && r !in s.inFlight)
    && (forall r :: r in s.replies && s.replies[r] && s.sent[r].CompleteMessage? ==> s.published == [data] || s.skipped)
  }

  function Busy(ws: seq<Worker>): nat {
    if ws == [] then 0 else Busy(ws[..|ws| - 1]) + if ws[|ws| - 1].Waiting? then 1 else 0
  }

  /** The client: while nothing has failed, every chunk is in the queue, with a worker, or done. */
  ghost predicate ClientInv(data: seq<bv8>, s: State) {
    && s.up.total == ChunkCount(|data|) && |s.workers| > 0
    && (!s.failure ==> s.up.completed + |s.queue| + Busy(s.workers) == s.up.total)
    && (forall i :: 0 <= i < |s.queue| ==> s.queue[i] < ChunkCount(|data|))
    && (forall w :: 0 <= w < |s.workers| ==>
          match s.workers[w]
          case Ready => true
          case Waiting(i, _, r) => i < ChunkCount(|data|) && r < |s.sent| && s.sent[r] == ChunkMessage(i)
          case Done => s.failure || s.queue == [])
    && (match s.phase
        case Working => true
        case Completing(r) => r < |s.sent| && s.sent[r] == CompleteMessage && !s.failure && AllStopped(s) &&
          s.up.completed == s.up.total
        case Succeeded => !s.failure && AllStopped(s) && s.up.completed == s.up.total && s.up.status == Complete &&
          (s.published == [data] || s.skipped)
        case GaveUp => AllStopped(s) && s.up.status == Failed)
  }

  ghost predicate AllStopped(s: State) {
    forall w :: 0 <= w < |s.workers| ==> s.workers[w] == Done
  }

  ghost predicate Inv(data: seq<bv8>, s: State) {
    ServerInv(data, s) && NetInv(data, s) && ClientInv(data, s)
  }

  lemma {:induction false} BusyUpdate(ws: seq<Worker>, w: nat, x: Worker)
    requires w < |ws|
    ensures Busy(ws[w := x]) == Busy(ws) - (if ws[w].Waiting? then 1 else 0) + (if x.Waiting? then 1 else 0)
  {
    var k := |ws| - 1;
    if w == k {
      assert ws[w := x][..k] == ws[..k];
    } else {
      assert ws[w := x][..k] == ws[..k][w := x];
      BusyUpdate(ws[..k], w, x);
    }
  }

  lemma {:induction false} NoneBusy(ws: seq<Worker>)
    requires forall w :: 0 <= w < |ws| ==> !ws[w].Waiting?
    ensures Busy(ws) == 0
  {
    if ws != [] {
      NoneBusy(ws[..|ws| - 1]);
    }
  }

  ghost predicate Begun(data: seq<bv8>, session: SessionData) {
    Consistent(session) && session.total == |data| && session.received == 0 && session.next == 0
  }

  lemma StartInv(data: seq<bv8>, session: SessionData)
    requires Begun(data, session)
    ensures Inv(data, Start(data, session))
  {
    NoneBusy(Start(data, session).workers);
  }

  // Each kind of step is taken apart: what it does to the server, the network and the client.

  lemma SameServer(data: seq<bv8>, s: State, s': State)
    requires ServerInv(data, s) && s'.session == s.session && s'.accepted == s.accepted &&
      s'.published == s.published && s'.skipped == s.skipped
    ensures ServerInv(data, s')
  {}

  /** At most one request more, for a chunk of the file. */
  lemma NetAfter(data: seq<bv8>, s: State, s': State)
    requires NetInv(data, s) && s'.replies == s.replies && s'.published == s.published && s'.skipped == s.skipped
    requires (s'.sent == s.sent && s'.inFlight == s.inFlight) ||
             (s'.inFlight == s.inFlight + {|s.sent|} &&
              (s'.sent == s.sent + [CompleteMessage] ||
               exists i: nat :: i < ChunkCount(|data|) && s'.sent == s.sent + [ChunkMessage(i)]))
    ensures NetInv(data, s')
  {
    hide ChunkCount;
  }

  lemma TakeInv(data: seq<bv8>, s: State, w: nat)
    requires Inv(data, s) && Next(data, s, Take(w)).Some?
    ensures Inv(data, Next(data, s, Take(w)).value)
  {
    hide ServerInv, NetInv, ChunkCount;
    var s' := Next(data, s, Take(w)).value;
    BusyUpdate(s.workers, w, s'.workers[w]);
    SameServer(data, s, s');
    NetAfter(data, s, s');
  }

  lemma DeliverChunkInv(data: seq<bv8>, s: State, r: nat)
    requires Inv(data, s) && Next(data, s, DeliverChunk(r)).Some?
    ensures Inv(data, Next(data, s, DeliverChunk(r)).value)
  {
    DeliveredServer(data, s, r);
    DeliveredRest(data, s, r);
  }

  lemma DeliveredServer(data: seq<bv8>, s: State, r: nat)
    requires ServerInv(data, s) && NetInv(data, s) && Next(data, s, DeliverChunk(r)).Some?
    ensures ServerInv(data, Next(data, s, DeliverChunk(r)).value)
  {
    hide ChunkCount, Prefix, Part, AcceptChunk, Consistent, Stored;
    var i := s.sent[r].index;
    if s.session.Some? {
      AcceptedInOrder(s.session.value, i, Part(data, i));
      ChunksMakeTheFile(data, |s.accepted|);
      if AcceptChunk(s.session.value, i, Part(data, i)).0.None? {
        assert s.accepted + [i] == Indices(|s.accepted + [i]|);
      }
    }
  }

  lemma DeliveredRest(data: seq<bv8>, s: State, r: nat)
    requires NetInv(data, s) && ClientInv(data, s) && Next(data, s, DeliverChunk(r)).Some?
    ensures NetInv(data, Next(data, s, DeliverChunk(r)).value) && ClientInv(data, Next(data, s, DeliverChunk(r)).value)
  {
    hide ChunkCount, Prefix, Part, AcceptChunk, Busy;
  }

  lemma DeliverCompleteInv(data: seq<bv8>, s: State, r: nat, publishes: bool, ok: bool)
    requires Inv(data, s) && Next(data, s, DeliverComplete(r, publishes, ok)).Some?
    ensures Inv(data, Next(data, s, DeliverComplete(r, publishes, ok)).value)
  {
    hide ChunkCount, Prefix, Part, Busy;
    ChunksMakeTheFile(data, |s.accepted|);
    PrefixWhole(data, |s.accepted|);
  }

  lemma PrefixWhole(data: seq<bv8>, n: nat)
    ensures |Prefix(data, n)| == |data| ==> Prefix(data, n) == data
  {}

  lemma AnsweredInv(data: seq<bv8>, s: State, w: nat)
    requires Inv(data, s) && Next(data, s, Answered(w)).Some?
    ensures Inv(data, Next(data, s, Answered(w)).value)
  {
    hide ServerInv, NetInv, ChunkCount;
    var s' := Next(data, s, Answered(w)).value;
    BusyUpdate(s.workers, w, Ready);
    SameServer(data, s, s');
    NetAfter(data, s, s');
  }

  lemma BrokenInv(data: seq<bv8>, s: State, w: nat)
    requires Inv(data, s) && Next(data, s, Broken(w)).Some?
    ensures Inv(data, Next(data, s, Broken(w)).value)
  {
    hide ServerInv, NetInv, ChunkCount;
    var s' := Next(data, s, Broken(w)).value;
    BusyUpdate(s.workers, w, s'.workers[w]);
    SameServer(data, s, s');
    NetAfter(data, s, s');
  }

  lemma AllDoneInv(data: seq<bv8>, s: State)
    requires Inv(data, s) && Next(data, s, AllDone).Some?
    ensures Inv(data, Next(data, s, AllDone).value)
  {
    hide ServerInv, NetInv, ChunkCount;
    var s' := Next(data, s, AllDone).value;
    NoneBusy(s.workers);
    assert s.workers[0] == Done;
    SameServer(data, s, s');
    NetAfter(data, s, s');
  }

  lemma OtherInv(data: seq<bv8>, s: State, e: Event)
    requires Inv(data, s) && Next(data, s, e).Some? && (e.CompleteAnswered? || e.CompleteBroken? || e.Expire?)
    ensures Inv(data, Next(data, s, e).value)
  {
    hide ChunkCount, Prefix, Consistent, Stored, Busy;
  }

  lemma StepInv(data: seq<bv8>, s: State, e: Event)
    requires Inv(data, s) && Next(data, s, e).Some?
    ensures Inv(data, Next(data, s, e).value)
  {
    hide *;
    match e
    case Take(w) => TakeInv(data, s, w);
    case DeliverChunk(r) => DeliverChunkInv(data, s, r);
    case DeliverComplete(r, publishes, ok) => DeliverCompleteInv(data, s, r, publishes, ok);
    case Answered(w) => AnsweredInv(data, s, w);
    case Broken(w) => BrokenInv(data, s, w);
    case AllDone => AllDoneInv(data, s);
    case _ => OtherInv(data, s, e);
  }

  lemma {:induction false} RunInv(data: seq<bv8>, session: SessionData, events: seq<Event>)
    requires Begun(data, session) && Run(data, Start(data, session), events).Some?
    ensures Inv(data, Run(data, Start(data, session), events).value)
    decreases |events|
  {
    hide Inv, Next, Start;
    if events == [] {
      StartInv(data, session);
    } else {
      RunInv(data, session, events[..|events| - 1]);
      StepInv(data, Run(data, Start(data, session), events[..|events| - 1]).value, events[|events| - 1]);
    }
  }

  // ---------- what a run means ----------

  /**
   In every interleaving, what is published is the client's file, it is published at most
   once, and the chunks were appended once each and in order.
   */
  lemma PublishedExactly(data: seq<bv8>, session: SessionData, events: seq<Event>)
    requires Begun(data, session) && Run(data, Start(data, session), events).Some?
    ensures var s := Run(data, Start(data, session), events).value;
            && (s.published == [] || s.published == [data])
            && s.accepted == Indices(|s.accepted|)
            && (s.published != [] ==> |s.accepted| == ChunkCount(|data|) && s.session.None?)
  {
    hide Run, Start, ChunkCount;
    RunInv(data, session, events);
  }

  lemma {:induction false} SkipOnlyWhenAsked(data: seq<bv8>, session: SessionData, events: seq<Event>)
    requires Run(data, Start(data, session), events).Some?
    ensures var s := Run(data, Start(data, session), events).value;
            && (s.session.Some? ==> s.session.value.strategy == session.strategy)
            && (s.skipped ==> session.strategy == "skip")
    decreases |events|
  {
    hide Part, Start, Send, WithWorker;
    if events == [] {
      StartNotSkipped(data, session);
    } else {
      SkipOnlyWhenAsked(data, session, events[..|events| - 1]);
      NextStrategy(data, Run(data, Start(data, session), events[..|events| - 1]).value, events[|events| - 1]);
    }
  }

  lemma StartNotSkipped(data: seq<bv8>, session: SessionData)
    ensures Start(data, session).session == Some(session) && !Start(data, session).skipped
  {}

  lemma NextStrategy(data: seq<bv8>, s: State, e: Event)
    requires Next(data, s, e).Some?
    ensures var s' := Next(data, s, e).value;
            && (s'.session.Some? ==> s.session.Some? && s'.session.value.strategy == s.session.value.strategy)
            && (s'.skipped ==> s.skipped || (s.session.Some? && s.session.value.strategy == "skip"))
  {
    hide Part;
  }

  /**
   An upload that succeeds ends as complete, and its file has been published, or skipped because its
   name was taken.
   */
  lemma SuccessIsComplete(data: seq<bv8>, session: SessionData, events: seq<Event>)
    requires Begun(data, session) && Run(data, Start(data, session), events).Some?
    ensures var s := Run(data, Start(data, session), events).value;
            s.phase == Succeeded ==>
              && s.up.status == Complete && s.up.completed == s.up.total == ChunkCount(|data|)
              && (s.published == [data] || (s.skipped && session.strategy == "skip"))
  {
    hide Run, Start, ChunkCount;
    RunInv(data, session, events);
    SkipOnlyWhenAsked(data, session, events);
  }
}
