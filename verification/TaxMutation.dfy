/** The write lifecycle of one queue row: posting a staged categorization to QuickBooks, undoing it,
    and finding out what became of a write whose response never arrived.

    The state is what the row's components hold; every handler and every answer from the server is
    one atomic step. A handler works with the mutation it captured when it was called. */
module TaxMutation {
  import opened Sequences

  type Id = nat

  datatype Kind = COMMIT | UNDO
  datatype Attempt = ATTEMPT_PREPARED | ATTEMPT_COMMITTING | ATTEMPT_UNCERTAIN
  datatype Outcome = PENDING | VERIFIED | UNCERTAIN | IN_PROGRESS | UNCHANGED | DRY_RUN | RETRYABLE
  datatype Phase = IDLE | WRITING | RECONCILING | RESOLVING
  datatype Resolution = KNOWN | BEING_RESOLVED | UNRESOLVED
  datatype Status = ROW_PENDING | ROW_POSTING | ROW_POSTED | ROW_ERROR | ROW_DRY_RUN | ROW_REVERTED

  datatype Mutation = Mutation(
    kind: Kind, requestId: Id, attemptStatus: Option<Attempt>, outcome: Outcome,
    busy: bool, phase: Phase, resolution: Resolution, reconciled: bool)

  /** The server's answer about a request id, and the attempt a freshly loaded row reports. */
  datatype Result = Result(outcome: Outcome, status: Status)
  datatype ServerAttempt = ServerAttempt(requestId: Id, kind: Kind, status: Attempt)

  /** The request in flight, with what its handler captured. */
  datatype Call =
    | Write(m: Mutation, before: Status)   // commit or undo
    | Reconcile(m: Mutation, retry: bool)
    | Resume(m: Mutation)
    | Fetch(m: Mutation)                   // loading the row after a lost resume
    | Replay(m: Mutation)

  /** The stage coordinator, as far as the row sees it. */
  datatype Stage = NONE | IN_FLIGHT | READY | FAILED | CONFLICT

  datatype State = State(
    status: Status, mutation: Option<Mutation>, stage: Stage, call: Option<Call>,
    unresolved: set<Id>,     // ids sent, or reported active, without a final answer recorded
    used: set<Id>)

  // ---------------------------------------------------------------- the pure parts

  function InitialMutation(attempt: Option<ServerAttempt>): Option<Mutation> {
    match attempt
    case None => None
    case Some(a) => Some(Mutation(
      a.kind, a.requestId, Some(a.status),
      if a.status == ATTEMPT_UNCERTAIN then UNCERTAIN else IN_PROGRESS, false, IDLE, KNOWN, false))
  }

  function InitialIds(attempt: Option<ServerAttempt>): set<Id> {
    if attempt.None? then {} else {attempt.value.requestId}
  }

  function InitialState(status: Status, attempt: Option<ServerAttempt>): State {
    State(status, InitialMutation(attempt), NONE, None, InitialIds(attempt), InitialIds(attempt))
  }

  predicate HasActiveMutation(s: State) {
    s.mutation.Some? &&
    (var m := s.mutation.value;
     m.attemptStatus.Some? || m.outcome in {PENDING, IN_PROGRESS, UNCERTAIN} || m.resolution != KNOWN)
  }

  /** `readyStageFor` has a result. */
  predicate ReadyStage(s: State) {
    !HasActiveMutation(s) && s.stage == READY
  }

  datatype Cell =
    | BusyNotice | UnresolvedNotice | ResumeButton | ReconcileButtons
    | Reverted | Posted(undo: bool) | RestageButton | PostButton(enabled: bool) | Nothing

  /** The branches of `taxStatusCell`, in order; `canUndo` is the age limit of an undo. */
  function TaxStatusCell(s: State, canUndo: bool): Cell {
    var m := s.mutation;
    if m.Some? && m.value.busy then BusyNotice
    else if m.Some? && m.value.resolution == UNRESOLVED then UnresolvedNotice
    else if m.Some? && m.value.attemptStatus == Some(ATTEMPT_PREPARED) then ResumeButton
    else if m.Some? && m.value.outcome in {UNCERTAIN, IN_PROGRESS} then ReconcileButtons
    else if m.Some? && m.value.kind == UNDO && m.value.outcome == VERIFIED then Reverted
    else if s.status == ROW_REVERTED then Reverted
    else if m.Some? && m.value.kind == COMMIT && m.value.outcome in {VERIFIED, DRY_RUN} then
      Posted(m.value.outcome == VERIFIED)
    else if s.status == ROW_POSTED then Posted(canUndo)
    else if m.Some? && m.value.outcome in {RETRYABLE, UNCHANGED} then RestageButton
    else if s.status == ROW_PENDING then PostButton(ReadyStage(s))
    else Nothing
  }

  /** `recordTaxMutation`. */
  function Recorded(m: Mutation, r: Result, reconciled: bool): Mutation {
    m.(attemptStatus := if r.outcome == UNCERTAIN then Some(ATTEMPT_UNCERTAIN)
                        else if r.outcome == IN_PROGRESS then Some(ATTEMPT_COMMITTING) else None,
       outcome := r.outcome, busy := false, phase := IDLE, resolution := KNOWN, reconciled := reconciled)
  }

  predicate Final(o: Outcome) {
    o in {VERIFIED, UNCHANGED, DRY_RUN, RETRYABLE}
  }

  /** What the server promises about its results: none says PENDING, and a verified write has moved the row. */
  predicate WellFormed(kind: Kind, r: Result) {
    && r.outcome != PENDING
    && (r.outcome == VERIFIED ==> r.status == if kind == UNDO then ROW_REVERTED else ROW_POSTED)
  }

  function FreshMutation(kind: Kind, id: Id): Mutation {
    Mutation(kind, id, None, PENDING, true, WRITING, KNOWN, false)
  }

  // ---------------------------------------------------------------- steps

  datatype Event =
    | ClickCommit(minted: Id)
    | ClickUndo(minted: Id, canUndo: bool)
    | ClickReconcile(retry: bool)
    | ClickResume
    | ClickRestage(started: bool)                       // `started`: there is something to stage
    | StageRequested                                    // an edit, or "Calculate tax"
    | StageRetried
    | StageReady | StageFailed
    | StageConflict(status: Status, attempt: Option<ServerAttempt>)
    | Answered(r: Result)                               // a result, also one inside an error
    | Rejected                                          // a coded error without a matching result
    | Lost(companyKnown: bool)                          // anything else: the response is unknown
    | Fetched(status: Status, attempt: Option<ServerAttempt>)
    | FetchedNothing

  predicate Enabled(s: State, e: Event) {
    match e
    case ClickCommit(minted) =>
      && minted !in s.used && s.status == ROW_PENDING && ReadyStage(s)
      && (s.mutation.Some? ==> s.mutation.value.outcome !in {RETRYABLE, UNCHANGED})
    case ClickUndo(minted, canUndo) => minted !in s.used && TaxStatusCell(s, canUndo) == Posted(true)
    case ClickReconcile(_) => TaxStatusCell(s, true) == ReconcileButtons
    case ClickResume => TaxStatusCell(s, true) == ResumeButton
    case ClickRestage(started) =>
      && TaxStatusCell(s, true) == RestageButton
      && (s.stage == READY || (s.stage == CONFLICT && (started ==> s.status == ROW_PENDING)))
    case StageRequested => s.status == ROW_PENDING && !HasActiveMutation(s)
    case StageRetried => s.stage == FAILED
    case StageReady => s.stage == IN_FLIGHT
    case StageFailed => s.stage == IN_FLIGHT
    case StageConflict(status, attempt) => s.stage == IN_FLIGHT
    case Answered(r) => s.call.Some? && !s.call.value.Fetch? && WellFormed(s.call.value.m.kind, r)
    case Rejected => s.call.Some? && !s.call.value.Fetch?
    case Lost(_) => s.call.Some? && !s.call.value.Fetch?
    case Fetched(_, _) => s.call.Some? && s.call.value.Fetch?
    case FetchedNothing => s.call.Some? && s.call.value.Fetch?
  }

  /** The update of the handlers of a resume: only if the row still shows the same request. */
  function IfSame(s: State, m: Mutation, busy: bool, phase: Phase, resolution: Resolution): Option<Mutation> {
    if s.mutation.Some? && s.mutation.value.requestId == m.requestId
    then Some(s.mutation.value.(busy := busy, phase := phase, resolution := resolution))
    else s.mutation
  }

  function Unlock(s: State): Option<Mutation> {
    if s.mutation.None? then None else Some(s.mutation.value.(busy := false, phase := IDLE))
  }

  function AfterResult(s: State, m: Mutation, r: Result, reconciled: bool): State {
    s.(status := r.status, mutation := Some(Recorded(m, r, reconciled)), call := None,
       unresolved := if Final(r.outcome) then s.unresolved - {m.requestId} else s.unresolved)
  }

  function AfterRejection(s: State, c: Call): State
    requires !c.Fetch?
  {
    match c
    case Write(m, before) =>
      s.(status := before, mutation := None, call := None, unresolved := s.unresolved - {m.requestId})
    case Reconcile(m, _) => s.(mutation := Unlock(s), call := None)
    case Resume(m) =>
      var resolution := if s.mutation.Some? then s.mutation.value.resolution else KNOWN;
      s.(mutation := IfSame(s, m, false, IDLE, resolution), call := None)
    case Replay(m) => s.(mutation := IfSame(s, m, false, IDLE, UNRESOLVED), call := None)
  }

  function AfterLoss(s: State, c: Call, companyKnown: bool): State
    requires !c.Fetch?
  {
    match c
    case Write(m, _) => AfterResult(s, m, Result(UNCERTAIN, ROW_ERROR), false)
    case Reconcile(m, _) => s.(mutation := Unlock(s), call := None)
    case Resume(m) =>
      if companyKnown
      then s.(mutation := IfSame(s, m, true, RESOLVING, BEING_RESOLVED), call := Some(Fetch(m)))
      else s.(mutation := IfSame(s, m, false, IDLE, UNRESOLVED), call := None)
    case Replay(m) => s.(mutation := IfSame(s, m, false, IDLE, UNRESOLVED), call := None)
  }

  function AfterFetch(s: State, m: Mutation, status: Status, attempt: Option<ServerAttempt>): State {
    match attempt
    case None => s.(status := status, call := Some(Replay(m)))
    case Some(a) =>
      if a.requestId != m.requestId || a.kind != m.kind
      then s.(mutation := IfSame(s, m, false, IDLE, UNRESOLVED), call := None)
      else s.(status := status, mutation := Some(m.(
                attemptStatus := Some(a.status),
                outcome := if a.status == ATTEMPT_UNCERTAIN then UNCERTAIN else IN_PROGRESS,
                busy := false, phase := IDLE, resolution := KNOWN, reconciled := false)),
              call := None)
  }

  function Next(s: State, e: Event): State
    requires Enabled(s, e)
  {
    match e
    case ClickCommit(minted) =>
      var m := FreshMutation(COMMIT, minted);
      s.(status := ROW_POSTING, mutation := Some(m), call := Some(Write(m, s.status)),
         unresolved := s.unresolved + {minted}, used := s.used + {minted})
    case ClickUndo(minted, _) =>
      var m := FreshMutation(UNDO, minted);
      s.(mutation := Some(m), call := Some(Write(m, s.status)),
         unresolved := s.unresolved + {minted}, used := s.used + {minted})
    case ClickReconcile(retry) =>
      var m := s.mutation.value;
      s.(mutation := Some(m.(busy := true, phase := RECONCILING)), call := Some(Reconcile(m, retry)))
    case ClickResume =>
      var m := s.mutation.value.(busy := true, phase := WRITING, resolution := KNOWN);
      s.(mutation := Some(m), call := Some(Resume(m)))
    case ClickRestage(started) =>
      s.(mutation := None, stage := if s.stage == READY || started then IN_FLIGHT else NONE)
    case StageRequested => s.(stage := IN_FLIGHT)
    case StageRetried => s.(stage := IN_FLIGHT)
    case StageReady => s.(mutation := None, stage := READY)
    case StageFailed => s.(stage := FAILED)
    case StageConflict(status, attempt) =>
      s.(status := status, mutation := InitialMutation(attempt), stage := CONFLICT,
         unresolved := s.unresolved + InitialIds(attempt), used := s.used + InitialIds(attempt))
    case Answered(r) => AfterResult(s, s.call.value.m, r, s.call.value.Reconcile?)
    case Rejected => AfterRejection(s, s.call.value)
    case Lost(companyKnown) => AfterLoss(s, s.call.value, companyKnown)
    case Fetched(status, attempt) => AfterFetch(s, s.call.value.m, status, attempt)
    case FetchedNothing => s.(mutation := IfSame(s, s.call.value.m, false, IDLE, UNRESOLVED), call := None)
  }

  /** The request id a step sends to the server, if it sends a write or a question about one. */
  function Sends(s: State, e: Event): Option<Id>
    requires Enabled(s, e)
  {
    match e
    case ClickCommit(minted) => Some(minted)
    case ClickUndo(minted, _) => Some(minted)
    case ClickReconcile(_) => Some(s.mutation.value.requestId)
    case ClickResume => Some(s.mutation.value.requestId)
    case Fetched(_, None) => Some(s.call.value.m.requestId)
    case _ => None
  }

  predicate Mints(e: Event) {
    e.ClickCommit? || e.ClickUndo?
  }

  /** The step records a final server answer about the request in flight: a result with a final
      outcome, or the coded rejection of a fresh write. */
  predicate Settles(s: State, e: Event)
    requires Enabled(s, e)
  {
    (e.Answered? && Final(e.r.outcome)) || (e.Rejected? && s.call.value.Write?)
  }

  // ---------------------------------------------------------------- the invariant

  /** One mutation by itself: busy exactly outside the idle phase, and pending only while busy. */
  predicate Sound(m: Mutation) {
    && (m.busy <==> m.phase != IDLE)
    && (m.outcome == PENDING ==> m.phase == WRITING)
    && (m.attemptStatus.Some? ==> m.outcome in {UNCERTAIN, IN_PROGRESS})
    && (m.resolution == BEING_RESOLVED <==> m.phase == RESOLVING)
    && (m.resolution != KNOWN ==> !Final(m.outcome))
    && (m.busy ==> !Final(m.outcome))
  }

  function PhaseOf(c: Call): Phase {
    match c
    case Write(_, _) => WRITING
    case Reconcile(_, _) => RECONCILING
    case Resume(_) => WRITING
    case Fetch(_) => RESOLVING
    case Replay(_) => RESOLVING
  }

  predicate Inv(s: State) {
    && (s.mutation.Some? ==> Sound(s.mutation.value))
    && s.unresolved <= s.used
    // exactly the id of a mutation without a final outcome is unresolved
    && s.unresolved == (if s.mutation.Some? && !Final(s.mutation.value.outcome)
                        then {s.mutation.value.requestId} else {})
    // a request is in flight exactly while the row is busy, and it is about the row's own id
    && (s.call.Some? <==> s.mutation.Some? && s.mutation.value.busy)
    && (s.call.Some? ==>
          && s.call.value.m.requestId == s.mutation.value.requestId
          && s.call.value.m.kind == s.mutation.value.kind
          && s.mutation.value.phase == PhaseOf(s.call.value)
          && (s.mutation.value.outcome == PENDING <==> s.call.value.Write?))
    // while the coordinator has a request in flight, or can repeat it, nothing about the row is open
    && (s.stage in {IN_FLIGHT, FAILED} ==> s.unresolved == {} && s.status !in {ROW_POSTED, ROW_REVERTED})
    && (s.stage in {IN_FLIGHT, FAILED} && s.mutation.Some? ==> s.mutation.value.outcome != VERIFIED)
    && (s.mutation.Some? && s.mutation.value.outcome == VERIFIED ==> s.status in {ROW_POSTED, ROW_REVERTED})
  }

  lemma InitialInv(status: Status, attempt: Option<ServerAttempt>)
    ensures Inv(InitialState(status, attempt))
  {
  }

  lemma ResultKeepsInv(s: State, m: Mutation, r: Result, reconciled: bool)
    requires Inv(s) && s.call.Some? && m == s.call.value.m && WellFormed(m.kind, r)
    ensures Inv(AfterResult(s, m, r, reconciled))
  {
  }

  lemma LossKeepsInv(s: State, c: Call, companyKnown: bool)
    requires Inv(s) && s.call == Some(c) && !c.Fetch?
    ensures Inv(AfterLoss(s, c, companyKnown))
  {
    if c.Write? {
      ResultKeepsInv(s, c.m, Result(UNCERTAIN, ROW_ERROR), false);
    }
  }

  lemma RejectionKeepsInv(s: State, c: Call)
    requires Inv(s) && s.call == Some(c) && !c.Fetch?
    ensures Inv(AfterRejection(s, c))
  {
  }

  lemma FetchKeepsInv(s: State, m: Mutation, status: Status, attempt: Option<ServerAttempt>)
    requires Inv(s) && s.call == Some(Fetch(m))
    ensures Inv(AfterFetch(s, m, status, attempt))
  {
  }

  lemma ClickKeepsInv(s: State, e: Event)
    requires Inv(s) && Enabled(s, e)
    requires !e.Answered? && !e.Rejected? && !e.Lost? && !e.Fetched?
    ensures Inv(Next(s, e))
  {
    hide AfterResult, AfterRejection, AfterLoss, AfterFetch;
    assert Inv(Next(s, e));
  }

  lemma StepKeepsInv(s: State, e: Event)
    requires Inv(s) && Enabled(s, e)
    ensures Inv(Next(s, e))
  {
    match e
    case Answered(r) => ResultKeepsInv(s, s.call.value.m, r, s.call.value.Reconcile?);
    case Rejected => RejectionKeepsInv(s, s.call.value);
    case Lost(companyKnown) => LossKeepsInv(s, s.call.value, companyKnown);
    case Fetched(status, attempt) => FetchKeepsInv(s, s.call.value.m, status, attempt);
    case _ => ClickKeepsInv(s, e);
  }

  /** A fresh id is minted only when no earlier id is unresolved, and it really is fresh. */
  lemma MintsOnlyWhenSettled(s: State, e: Event)
    requires Inv(s) && Enabled(s, e) && Mints(e)
    ensures s.unresolved == {} && Sends(s, e).value !in s.used
    ensures Next(s, e).unresolved == {Sends(s, e).value}
  {
  }

  /** While an id is unresolved, a step that sends anything sends that id; and only a final answer resolves it. */
  lemma StepKeepsId(s: State, e: Event, id: Id)
    requires Inv(s) && Enabled(s, e) && id in s.unresolved
    ensures !Mints(e)
    ensures Sends(s, e).None? || Sends(s, e) == Some(id)
    ensures id !in Next(s, e).unresolved <==> Settles(s, e)
  {
    match e
    case Answered(r) =>
    case Rejected =>
    case Lost(_) =>
    case Fetched(_, _) =>
    case _ =>
  }

  // ---------------------------------------------------------------- whole exchanges

  /** A write the server rejects leaves the row as it was before the click, without a mutation. */
  lemma RejectedWriteIsUndone(s: State, e: Event)
    requires Inv(s) && Mints(e) && Enabled(s, e)
    ensures Enabled(Next(s, e), Rejected)
    ensures Next(Next(s, e), Rejected) == s.(mutation := None, used := s.used + {e.minted})
  {
    MintsOnlyWhenSettled(s, e);
  }

  /** While the write is out, the row is busy; a commit shows it as posting. */
  lemma WriteShowsBusy(s: State, e: Event, canUndo: bool)
    requires Mints(e) && Enabled(s, e)
    ensures TaxStatusCell(Next(s, e), canUndo) == BusyNotice
    ensures Next(s, e).status == if e.ClickCommit? then ROW_POSTING else s.status
    ensures Next(s, e).mutation.Some? && Next(s, e).mutation.value.kind == if e.ClickCommit? then COMMIT else UNDO
  {
  }

  /** After a lost response the row offers to reconcile, about the id that was sent. */
  lemma LostWriteIsUncertain(s: State, e: Event, companyKnown: bool, canUndo: bool)
    requires Inv(s) && Mints(e) && Enabled(s, e)
    ensures var lost := Next(Next(s, e), Lost(companyKnown));
            && Enabled(Next(s, e), Lost(companyKnown))
            && lost.status == ROW_ERROR && lost.call == None && lost.unresolved == {e.minted}
            && TaxStatusCell(lost, canUndo) == ReconcileButtons
            && forall retry :: Enabled(lost, ClickReconcile(retry))
                               && Sends(lost, ClickReconcile(retry)) == Some(e.minted)
  {
    MintsOnlyWhenSettled(s, e);
  }

  /** One round of reconciling: an unanswered or rejected question changes nothing, and an answer is
      recorded for the id that was asked about. */
  lemma ReconcileRound(s: State, retry: bool, r: Result, companyKnown: bool)
    requires Inv(s) && Enabled(s, ClickReconcile(retry)) && WellFormed(s.mutation.value.kind, r)
    ensures var asked := Next(s, ClickReconcile(retry));
            && Enabled(asked, Answered(r)) && Enabled(asked, Lost(companyKnown)) && Enabled(asked, Rejected)
            && Next(asked, Lost(companyKnown)) == s && Next(asked, Rejected) == s
            && var answered := Next(asked, Answered(r));
               && answered.status == r.status && answered.call == None && answered.mutation.Some?
               && answered.mutation.value.requestId == s.mutation.value.requestId
               && answered.mutation.value.kind == s.mutation.value.kind
               && answered.mutation.value.outcome == r.outcome && answered.mutation.value.reconciled
               && answered.unresolved == if r.outcome in {UNCERTAIN, IN_PROGRESS} then s.unresolved else {}
  {
  }

  /** What the row offers once an answer is recorded. */
  lemma AnswerDecidesCell(s: State, r: Result, canUndo: bool)
    requires Inv(s) && Enabled(s, Answered(r))
    ensures var kind := s.call.value.m.kind;
            var cell := TaxStatusCell(Next(s, Answered(r)), canUndo);
            && (r.outcome in {UNCERTAIN, IN_PROGRESS} ==> cell == ReconcileButtons)
            && (r.outcome == VERIFIED && kind == COMMIT ==> cell == Posted(true))
            && (r.outcome == VERIFIED && kind == UNDO ==> cell == Reverted)
            && (r.outcome == DRY_RUN && kind == COMMIT && r.status != ROW_REVERTED ==> cell == Posted(false))
            && (r.outcome in {RETRYABLE, UNCHANGED} && r.status !in {ROW_POSTED, ROW_REVERTED} ==>
                  cell == RestageButton)
  {
  }

  /** What is known of the attempt once an answer is recorded. */
  lemma AnswerDecidesAttempt(s: State, r: Result)
    requires Enabled(s, Answered(r))
    ensures var m := Next(s, Answered(r)).mutation;
            && m.Some? && !m.value.busy && m.value.resolution == KNOWN
            && (r.outcome == UNCERTAIN ==> m.value.attemptStatus == Some(ATTEMPT_UNCERTAIN))
            && (r.outcome == IN_PROGRESS ==> m.value.attemptStatus == Some(ATTEMPT_COMMITTING))
            && (r.outcome !in {UNCERTAIN, IN_PROGRESS} ==> m.value.attemptStatus == None)
  {
  }

  /** A rejected resume leaves the row as it was; a replay that is rejected or lost, unresolved. */
  lemma ResumeAndReplayFail(s: State, companyKnown: bool, canUndo: bool)
    requires Inv(s)
    ensures Enabled(s, ClickResume) ==>
              Enabled(Next(s, ClickResume), Rejected) && Next(Next(s, ClickResume), Rejected) == s
    ensures s.call.Some? && s.call.value.Replay? ==>
              && TaxStatusCell(Next(s, Rejected), canUndo) == UnresolvedNotice
              && TaxStatusCell(Next(s, Lost(companyKnown)), canUndo) == UnresolvedNotice
              && Next(s, Rejected).call == None && Next(s, Rejected).unresolved == s.unresolved
              && Next(s, Lost(companyKnown)).call == None && Next(s, Lost(companyKnown)).unresolved == s.unresolved
  {
  }

  /** What the coordinator's answers do to the row: ready forgets the last mutation, a failure keeps it,
      and a conflict shows the row as it would be loaded now. */
  lemma StageAnswers(s: State, status: Status, attempt: Option<ServerAttempt>)
    requires s.stage == IN_FLIGHT
    ensures Next(s, StageReady) == s.(mutation := None, stage := READY)
    ensures Next(s, StageFailed) == s.(stage := FAILED)
    ensures var after, loaded := Next(s, StageConflict(status, attempt)), InitialState(status, attempt);
            && after.status == loaded.status && after.mutation == loaded.mutation && after.stage == CONFLICT
            && after.unresolved == s.unresolved + loaded.unresolved && after.call == s.call
  {
  }

  /** A prepared attempt found on loading is resumed under its own id. When the response is lost the row
      is loaded again: if the attempt is gone the request is replayed, if it is still there its state is
      shown, and if another attempt is there, or nothing is known, the row stays unresolved. */
  lemma ResumeAfterLoss(status: Status, kind: Kind, id: Id, now: Status, found: Option<ServerAttempt>)
    ensures var loaded := InitialState(status, Some(ServerAttempt(id, kind, ATTEMPT_PREPARED)));
            && TaxStatusCell(loaded, true) == ResumeButton && Enabled(loaded, ClickResume)
            && Sends(loaded, ClickResume) == Some(id)
            && var resumed := Next(loaded, ClickResume);
               && TaxStatusCell(Next(resumed, Lost(false)), true) == UnresolvedNotice
               && var lost := Next(resumed, Lost(true));
                  && TaxStatusCell(lost, true) == BusyNotice && Enabled(lost, Fetched(now, found))
                  && TaxStatusCell(Next(lost, FetchedNothing), true) == UnresolvedNotice
                  && var fetched := Next(lost, Fetched(now, found));
                     && (found.None? ==> Sends(lost, Fetched(now, found)) == Some(id) && fetched.call.Some?
                                         && fetched.call.value.Replay? && fetched.status == now)
                     && (found.Some? && (found.value.requestId != id || found.value.kind != kind) ==>
                           TaxStatusCell(fetched, true) == UnresolvedNotice && fetched.status == lost.status)
                     && (found.Some? && found.value.requestId == id && found.value.kind == kind ==>
                           fetched.mutation == InitialState(now, found).mutation && fetched.call == None)
                     && (found == Some(ServerAttempt(id, kind, ATTEMPT_PREPARED)) ==>
                           TaxStatusCell(fetched, true) == ResumeButton && fetched.status == now)
                     && (found == Some(ServerAttempt(id, kind, ATTEMPT_COMMITTING))
                         || found == Some(ServerAttempt(id, kind, ATTEMPT_UNCERTAIN)) ==>
                           TaxStatusCell(fetched, true) == ReconcileButtons && fetched.status == now)
  {
  }

  /** What a row offers when it is loaded: by its status, or by the attempt the server reports. */
  lemma LoadedCell(status: Status, attempt: Option<ServerAttempt>, canUndo: bool)
    ensures var cell := TaxStatusCell(InitialState(status, attempt), canUndo);
            match attempt
            case None =>
              && (status == ROW_PENDING ==> cell == PostButton(false))
              && (status == ROW_POSTED ==> cell == Posted(canUndo))
              && (status == ROW_REVERTED ==> cell == Reverted)
              && (status in {ROW_POSTING, ROW_ERROR, ROW_DRY_RUN} ==> cell == Nothing)
            case Some(a) =>
              && cell == (if a.status == ATTEMPT_PREPARED then ResumeButton else ReconcileButtons)
              && var m := InitialState(status, attempt).mutation;
                 && m.Some? && m.value.requestId == a.requestId && m.value.kind == a.kind
                 && m.value.attemptStatus == Some(a.status) && m.value.phase == IDLE && !m.value.reconciled
                 && (m.value.outcome == UNCERTAIN <==> a.status == ATTEMPT_UNCERTAIN)
  {
  }

  /** The button for posting does what it offers: it is shown enabled only when a commit would be sent. */
  lemma PostButtonCommits(s: State, canUndo: bool, minted: Id)
    requires Inv(s) && TaxStatusCell(s, canUndo) == PostButton(true) && minted !in s.used
    ensures Enabled(s, ClickCommit(minted)) && s.unresolved == {}
  {
  }

  /** Staging again: the old mutation is forgotten, and once the coordinator is ready the row can be posted. */
  lemma RestageReopensRow(s: State, started: bool, canUndo: bool)
    requires Inv(s) && Enabled(s, ClickRestage(started))
    ensures var restaged := Next(s, ClickRestage(started));
            && restaged.mutation == None && restaged.status == s.status
            && (started || s.stage == READY ==>
                  && Enabled(restaged, StageReady)
                  && (s.status == ROW_PENDING ==>
                        TaxStatusCell(Next(restaged, StageReady), canUndo) == PostButton(true))
                  && (s.status == ROW_PENDING ==>
                        TaxStatusCell(Next(restaged, StageFailed), canUndo) == PostButton(false)))
            && (!started && s.stage != READY ==> restaged.stage == NONE)
  {
  }

  // ---------------------------------------------------------------- whole runs

  predicate Legal(start: State, run: seq<Event>)
    decreases |run|, 0
  {
    run == [] || (Legal(start, run[..|run| - 1]) && Enabled(After(start, run[..|run| - 1]), run[|run| - 1]))
  }

  function After(start: State, run: seq<Event>): State
    requires Legal(start, run)
    decreases |run|, 1
  {
    if run == [] then start else Next(After(start, run[..|run| - 1]), run[|run| - 1])
  }

  /** A row as it is loaded, with or without an active attempt on the server. */
  ghost predicate Loaded(s: State) {
    exists status, attempt :: s == InitialState(status, attempt)
  }

  lemma {:induction false} RunKeepsInv(start: State, run: seq<Event>)
    requires Loaded(start) && Legal(start, run)
    ensures Inv(After(start, run))
  {
    if run == [] {
      var status, attempt :| start == InitialState(status, attempt);
      InitialInv(status, attempt);
    } else {
      RunKeepsInv(start, run[..|run| - 1]);
      StepKeepsInv(After(start, run[..|run| - 1]), run[|run| - 1]);
    }
  }

  lemma {:induction false} PrefixIsLegal(start: State, run: seq<Event>, k: nat)
    requires Legal(start, run) && k <= |run|
    ensures Legal(start, run[..k])
    decreases |run|
  {
    if k < |run| {
      PrefixIsLegal(start, run[..|run| - 1], k);
      assert run[..|run| - 1][..k] == run[..k];
    } else {
      assert run[..k] == run;
    }
  }

  function Before(start: State, run: seq<Event>, k: nat): State
    requires Legal(start, run) && k <= |run|
  {
    PrefixIsLegal(start, run, k);
    After(start, run[..k])
  }

  lemma StepAt(start: State, run: seq<Event>, k: nat)
    requires Loaded(start) && Legal(start, run) && k < |run|
    ensures Enabled(Before(start, run, k), run[k]) && Inv(Before(start, run, k))
    ensures Before(start, run, k + 1) == Next(Before(start, run, k), run[k])
  {
    PrefixIsLegal(start, run, k);
    PrefixIsLegal(start, run, k + 1);
    assert run[..k + 1][..k] == run[..k];
    RunKeepsInv(start, run[..k]);
  }

  ghost predicate SettlesAt(start: State, run: seq<Event>, k: nat)
    requires Loaded(start) && Legal(start, run) && k < |run|
  {
    StepAt(start, run, k);
    Settles(Before(start, run, k), run[k])
  }

  ghost predicate NoneSettles(start: State, run: seq<Event>, i: nat, j: nat)
    requires Loaded(start) && Legal(start, run) && i <= j <= |run|
  {
    forall k: nat :: i <= k < j ==> !SettlesAt(start, run, k)
  }

  /** From the write on, whatever is lost on the way, every request carries the same id until a final
      answer about it is recorded. */
  lemma {:induction false} SameIdUntilSettled(start: State, run: seq<Event>, i: nat, j: nat, id: Id)
    requires Loaded(start) && Legal(start, run) && i <= j < |run|
    requires id in Before(start, run, i).unresolved && NoneSettles(start, run, i, j)
    ensures id in Before(start, run, j).unresolved
    ensures Enabled(Before(start, run, j), run[j])
    ensures !Mints(run[j])
    ensures Sends(Before(start, run, j), run[j]).None? || Sends(Before(start, run, j), run[j]) == Some(id)
    decreases j
  {
    hide Next, Enabled, Inv, Sends, Settles, Mints, Legal, Before, Loaded;
    StepAt(start, run, j);
    if i < j {
      SameIdUntilSettled(start, run, i, j - 1, id);
      StepAt(start, run, j - 1);
      assert !SettlesAt(start, run, j - 1);
      StepKeepsId(Before(start, run, j - 1), run[j - 1], id);
    }
    var s := Before(start, run, j);
    StepKeepsId(s, run[j], id);
    assert id in s.unresolved && !Mints(run[j]) && (Sends(s, run[j]).None? || Sends(s, run[j]) == Some(id));
  }

  /** Two mints in one run: the first id was settled in between, and the ids differ. */
  lemma MintsAreSeparated(start: State, run: seq<Event>, i: nat, j: nat)
    requires Loaded(start) && Legal(start, run) && i < j < |run| && Mints(run[i]) && Mints(run[j])
    ensures !NoneSettles(start, run, i + 1, j)
    ensures run[i].minted != run[j].minted
  {
    StepAt(start, run, i);
    StepAt(start, run, j);
    var id := run[i].minted;
    if NoneSettles(start, run, i + 1, j) {
      SameIdUntilSettled(start, run, i + 1, j, id);
    }
    UsedIsKept(start, run, i + 1, j, id);
  }

  lemma {:induction false} UsedIsKept(start: State, run: seq<Event>, i: nat, j: nat, id: Id)
    requires Loaded(start) && Legal(start, run) && i <= j <= |run| && id in Before(start, run, i).used
    ensures id in Before(start, run, j).used
    decreases j
  {
    if i < j {
      hide Next, Enabled, Inv, Legal, Before, Loaded;
      StepAt(start, run, j - 1);
      UsedIsKept(start, run, i, j - 1, id);
      StepKeepsUsed(Before(start, run, j - 1), run[j - 1]);
    }
  }

  lemma StepKeepsUsed(s: State, e: Event)
    requires Enabled(s, e)
    ensures s.used <= Next(s, e).used
  {
  }

  /** In every reachable state: busy exactly outside the idle phase, a request in flight exactly while
      busy; and while an id is unresolved the row offers no button that would start another write. */
  lemma ReachableCell(start: State, run: seq<Event>, canUndo: bool)
    requires Loaded(start) && Legal(start, run)
    ensures var s := After(start, run);
            && (s.mutation.Some? ==> (s.mutation.value.busy <==> s.mutation.value.phase != IDLE))
            && (s.call.Some? <==> s.mutation.Some? && s.mutation.value.busy)
            && (TaxStatusCell(s, canUndo) in {BusyNotice, UnresolvedNotice, ResumeButton, ReconcileButtons} <==>
                  s.unresolved != {})
            && (HasActiveMutation(s) <==> s.unresolved != {})
  {
    RunKeepsInv(start, run);
  }
}
