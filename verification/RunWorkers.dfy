/**
  execute_run as a program: any number of workers interleave on one run, transaction by
  transaction, together with recovery, operator, cancel and audit traffic. A crash is a worker
  that takes no further step.
*/
module RunWorkers {
  import opened Wrappers
  import opened RunLedger
  import RunGuarantees

  type WorkerId = nat

  // Where a worker stands between two transactions of execute_run.
  datatype Pc =
    | Working(attempt: nat)
    | Raising(attempt: nat, retryable: bool)   // an exception is on its way to _finish_failure
    | Refused(attempt: nat)                    // the conditional COMPLETED update hit no row
    | SawCancelled                             // RunCancelled was raised
    | Counted(recorded: bool)                  // run.cancelled events were counted, not yet written
    | Returned(result: bool)
    | Raised

  datatype System = System(ledger: Ledger, workers: map<WorkerId, Pc>)

  datatype Move =
    | Start(w: WorkerId, now: int)
    | EmitMove(w: WorkerId, name: string)
    | RaiseMove(w: WorkerId, retryable: bool)
    | FinishMove(w: WorkerId)
    | CommitMove(w: WorkerId, acknowledged: bool)
    | InspectMove(w: WorkerId)
    | CountMove(w: WorkerId)
    | NoteMove(w: WorkerId)
    | Outside(step: Step)

  // Steps no worker takes on its own behalf.
  predicate Environmental(step: Step) {
    step in {RequeueStep, CancelStep} || step.RecoverStep? || step.AuditStep?
    || step.ReplacementQueuedStep? || step.ReplacesFailedStep?
  }

  function Move1(s: System, w: WorkerId, pc: Pc): System {
    s.(workers := s.workers[w := pc])
  }

  function Next(s: System, m: Move): System {
    match m
    case Start(w, now) =>
      if w in s.workers then s
      else if Claimable(s.ledger) then
        Move1(s, w, Working(s.ledger.run.attempts + 1)).(ledger := Claim(s.ledger, now))
      else Move1(s, w, Returned(false))
    case EmitMove(w, name) =>
      if w !in s.workers || !s.workers[w].Working? then s
      else if Holds(s.ledger, s.workers[w].attempt) then s.(ledger := Emit(s.ledger, s.workers[w].attempt, name))
      else Move1(s, w, if s.ledger.run.status == Cancelled then SawCancelled else Returned(false))
    case RaiseMove(w, retryable) =>
      if w !in s.workers || !s.workers[w].Working? then s
      else Move1(s, w, Raising(s.workers[w].attempt, retryable))
    case FinishMove(w) =>
      if w !in s.workers || !s.workers[w].Raising? then s
      else
        var pc := s.workers[w];
        Move1(s, w, if Holds(s.ledger, pc.attempt) then Raised else Returned(false))
          .(ledger := FinishFailure(s.ledger, pc.attempt, pc.retryable))
    case CommitMove(w, acknowledged) =>
      // An unacknowledged COMMIT is durable, yet the worker only sees an exception.
      if w !in s.workers || !s.workers[w].Working? then s
      else if Holds(s.ledger, s.workers[w].attempt) then
        Move1(s, w, if acknowledged then Returned(true) else Raising(s.workers[w].attempt, false))
          .(ledger := Complete(s.ledger, s.workers[w].attempt))
      else Move1(s, w, Refused(s.workers[w].attempt))
    case InspectMove(w) =>
      if w !in s.workers || !s.workers[w].Refused? then s
      else Move1(s, w, if s.ledger.run.status == Cancelled then SawCancelled else Returned(false))
    case CountMove(w) =>
      if w !in s.workers || !s.workers[w].SawCancelled? then s
      else Move1(s, w, Counted(Cancellations(s.ledger.events) > 0))
    case NoteMove(w) =>
      if w !in s.workers || !s.workers[w].Counted? then s
      else
        Move1(s, w, Returned(false))
          .(ledger := if s.workers[w].recorded then s.ledger else Append(s.ledger, RunCancelled))
    case Outside(step) => if Environmental(step) then s.(ledger := Apply(s.ledger, step)) else s
  }

  function RunMoves(s: System, moves: seq<Move>): System {
    if moves == [] then s else Next(RunMoves(s, Front(moves)), Last(moves))
  }

  function Initial(maxAttempts: nat): System {
    System(Fresh(maxAttempts), map[])
  }

  // The attempt a worker still stands for.
  function Token(pc: Pc): Option<nat> {
    match pc
    case Working(a) => Some(a)
    case Raising(a, _) => Some(a)
    case Refused(a) => Some(a)
    case _ => None
  }

  // Tokens are attempts already claimed, and no two workers hold the same one.
  ghost predicate TokensUnique(run: Run, workers: map<WorkerId, Pc>) {
    && (forall w :: w in workers && Token(workers[w]).Some? ==> 0 < Token(workers[w]).value <= run.attempts)
    && (forall v, w :: v in workers && w in workers && v != w ==>
          Token(workers[v]).None? || Token(workers[v]) != Token(workers[w]))
  }

  // At most one worker reports success, and only for a completed run. A worker that saw
  // CANCELLED finds the event that its cancellation committed.
  ghost predicate OutcomesHonest(run: Run, workers: map<WorkerId, Pc>) {
    && (forall w :: w in workers && workers[w] == Returned(true) ==> run.status == Completed)
    && (forall v, w :: v in workers && w in workers && v != w ==>
          workers[v] != Returned(true) || workers[w] != Returned(true))
    && (forall w :: w in workers && workers[w].SawCancelled? ==> run.status == Cancelled)
    && (forall w :: w in workers && workers[w].Counted? ==> workers[w].recorded)
  }

  ghost predicate SystemValid(s: System) {
    Valid(s.ledger) && TokensUnique(s.ledger.run, s.workers) && OutcomesHonest(s.ledger.run, s.workers)
  }

  // The attempt counter never falls, and finished runs stay finished.
  ghost predicate RunAdvances(before: Run, after: Run) {
    && before.attempts <= after.attempts
    && (before.status in {Completed, Cancelled} ==> after.status == before.status)
  }

  // The ledger steps a move amounts to.
  function Trace(s: System, m: Move): seq<Step> {
    match m
    case Start(w, now) => if w in s.workers then [] else [ClaimStep(now)]
    case EmitMove(w, name) =>
      if w in s.workers && s.workers[w].Working? then [EmitStep(s.workers[w].attempt, name)] else []
    case FinishMove(w) =>
      if w in s.workers && s.workers[w].Raising? then [FailStep(s.workers[w].attempt, s.workers[w].retryable)] else []
    case CommitMove(w, _) =>
      if w in s.workers && s.workers[w].Working? then [CompleteStep(s.workers[w].attempt)] else []
    case Outside(step) => if Environmental(step) then [step] else []
    case _ => []
  }

  function TraceAll(s: System, moves: seq<Move>): seq<Step> {
    if moves == [] then []
    else TraceAll(s, Front(moves)) + Trace(RunMoves(s, Front(moves)), Last(moves))
  }

  lemma MoveRefinesLedger(s: System, m: Move)
    requires SystemValid(s)
    ensures |Trace(s, m)| <= 1
    ensures Next(s, m).ledger == if Trace(s, m) == [] then s.ledger else Apply(s.ledger, Trace(s, m)[0])
  {
  }

  lemma StepAdvances(l: Ledger, step: Step)
    ensures RunAdvances(l.run, Apply(l, step).run)
  {
  }

  // What a worker may move to while the row becomes after.
  predicate MayMove(before: Run, after: Run, workers: map<WorkerId, Pc>, w: WorkerId, pc: Pc) {
    && (Token(pc).Some? ==>
          || (w in workers && Token(workers[w]) == Token(pc))
          || before.attempts < Token(pc).value <= after.attempts)
    && (pc == Returned(true) ==> before.status != Completed && after.status == Completed)
    && (pc.SawCancelled? ==> after.status == Cancelled)
    && (pc.Counted? ==> pc.recorded)
  }

  lemma WorkerMoves(before: Run, after: Run, workers: map<WorkerId, Pc>, w: WorkerId, pc: Pc)
    requires TokensUnique(before, workers) && OutcomesHonest(before, workers) && RunAdvances(before, after)
    requires MayMove(before, after, workers, w, pc)
    ensures TokensUnique(after, workers[w := pc]) && OutcomesHonest(after, workers[w := pc])
  {
  }

  lemma MoveKeepsLedgerValid(s: System, m: Move)
    requires SystemValid(s)
    ensures Valid(Next(s, m).ledger) && RunAdvances(s.ledger.run, Next(s, m).ledger.run)
  {
    MoveRefinesLedger(s, m);
    hide Valid, Next, Apply, TokensUnique, OutcomesHonest;
    if Trace(s, m) != [] {
      StepKeepsValid(s.ledger, Trace(s, m)[0]);
      StepAdvances(s.ledger, Trace(s, m)[0]);
    }
  }

  // A move changes at most the worker it names, and only as it may.
  ghost predicate MovesOne(s: System, m: Move) {
    var after := Next(s, m);
    after.workers == s.workers
    || (!m.Outside? && m.w in after.workers && after.workers == s.workers[m.w := after.workers[m.w]]
        && MayMove(s.ledger.run, after.ledger.run, s.workers, m.w, after.workers[m.w]))
  }

  // Cancelled rows have their event, so the count of a worker that saw CANCELLED finds it.
  lemma CountFindsTheEvent(s: System, w: WorkerId)
    requires SystemValid(s) && w in s.workers && s.workers[w].SawCancelled?
    ensures Cancellations(s.ledger.events) > 0
  {
  }

  lemma MoveMovesOne(s: System, m: Move)
    requires SystemValid(s)
    ensures MovesOne(s, m)
  {
    if m.CountMove? && m.w in s.workers && s.workers[m.w].SawCancelled? {
      CountFindsTheEvent(s, m.w);
    }
    hide SystemValid, Append, Recover, Requeue, Cancel;
  }

  lemma MoveKeepsSystemValid(s: System, m: Move)
    requires SystemValid(s)
    ensures SystemValid(Next(s, m))
  {
    MoveMovesOne(s, m);
    MoveKeepsLedgerValid(s, m);
    hide Next, Valid, TokensUnique, OutcomesHonest, MayMove, RunAdvances;
    var after := Next(s, m);
    if after.workers != s.workers {
      WorkerMoves(s.ledger.run, after.ledger.run, s.workers, m.w, after.workers[m.w]);
    } else {
      RunMovesOn(s.ledger.run, after.ledger.run, s.workers);
    }
  }

  lemma RunMovesOn(before: Run, after: Run, workers: map<WorkerId, Pc>)
    requires TokensUnique(before, workers) && OutcomesHonest(before, workers) && RunAdvances(before, after)
    ensures TokensUnique(after, workers) && OutcomesHonest(after, workers)
  {
  }

  lemma {:induction false} EveryInterleavingIsValid(maxAttempts: nat, moves: seq<Move>)
    requires maxAttempts > 0
    ensures SystemValid(RunMoves(Initial(maxAttempts), moves))
  {
    if moves != [] {
      EveryInterleavingIsValid(maxAttempts, Front(moves));
      MoveKeepsSystemValid(RunMoves(Initial(maxAttempts), Front(moves)), Last(moves));
    } else {
      EveryRunIsValid(maxAttempts, []);
    }
  }

  // The worker programs refine the ledger protocol: whatever workers do, the row and its log
  // are those of a run of ledger steps.
  lemma {:induction false} WorkersRefineLedger(maxAttempts: nat, moves: seq<Move>)
    requires maxAttempts > 0
    ensures RunMoves(Initial(maxAttempts), moves).ledger
         == Execute(Fresh(maxAttempts), TraceAll(Initial(maxAttempts), moves))
  {
    hide Next, Apply, SystemValid, Trace;
    if moves != [] {
      var start := Initial(maxAttempts);
      WorkersRefineLedger(maxAttempts, Front(moves));
      EveryInterleavingIsValid(maxAttempts, Front(moves));
      var before := RunMoves(start, Front(moves));
      MoveRefinesLedger(before, Last(moves));
      var trace := TraceAll(start, Front(moves));
      if Trace(before, Last(moves)) != [] {
        RunGuarantees.ExecuteMore(start.ledger, trace, Trace(before, Last(moves))[0]);
        assert TraceAll(start, moves) == trace + [Trace(before, Last(moves))[0]];
      } else {
        assert TraceAll(start, moves) == trace;
      }
    }
  }

  // Exactly once, seen from the workers: at most one of them ever returns True; if one does, the
  // work is committed; and no two workers ever hold the same fencing token.
  lemma AtMostOneWorkerSucceeds(maxAttempts: nat, moves: seq<Move>, v: WorkerId, w: WorkerId)
    requires maxAttempts > 0
    ensures var s := RunMoves(Initial(maxAttempts), moves);
            && (v in s.workers && s.workers[v] == Returned(true) ==>
                  s.ledger.run.status == Completed && s.ledger.commits == [s.ledger.run.attempts])
            && (v in s.workers && w in s.workers && s.workers[v] == s.workers[w] == Returned(true) ==> v == w)
            && (v in s.workers && w in s.workers && Token(s.workers[v]) == Token(s.workers[w]) ==>
                  v == w || Token(s.workers[v]).None?)
  {
    EveryInterleavingIsValid(maxAttempts, moves);
  }

  // run.cancelled is written exactly once for a cancelled run and never otherwise, although the
  // worker's count and its append are two unserialized steps: the only way into CANCELLED commits
  // its own event with the status, so a worker that saw CANCELLED always counts it.
  lemma CancellationIsRecordedOnce(maxAttempts: nat, moves: seq<Move>)
    requires maxAttempts > 0
    ensures var s := RunMoves(Initial(maxAttempts), moves);
            Cancellations(s.ledger.events) == if s.ledger.run.status == Cancelled then 1 else 0
  {
    EveryInterleavingIsValid(maxAttempts, moves);
  }

  // How a worker ends. With the attempt still held its commit completes the run and it returns True, or its error is
  // recorded and raised; with the attempt lost or the run cancelled it changes nothing and returns False.
  lemma WorkersEndAsTheRunStands(s: System, w: WorkerId, retryable: bool)
    requires SystemValid(s) && w in s.workers && s.workers[w].Working?
    ensures var (run, attempt) := (s.ledger.run, s.workers[w].attempt);
            var commit := Next(s, CommitMove(w, true));
            var failed := Next(Next(s, RaiseMove(w, retryable)), FinishMove(w));
            if run.status == Running && run.attempts == attempt then
              && commit.workers[w] == Returned(true) && commit.ledger.run.status == Completed
              && failed.workers[w] == Raised
              && failed.ledger.run.status == (if retryable && attempt < run.maxAttempts then Queued else Failed)
            else
              && commit.ledger == s.ledger && failed.ledger == s.ledger
              && failed.workers[w] == Returned(false)
              && Next(commit, InspectMove(w)).ledger == s.ledger
              && Next(commit, InspectMove(w)).workers[w] == if run.status == Cancelled then SawCancelled else Returned(false)
  {
  }

  // A worker finds work exactly in a queued run, and one that saw CANCELLED adds nothing and returns False.
  lemma WorkersStartAndStop(s: System, w: WorkerId, now: int)
    requires SystemValid(s)
    ensures w !in s.workers ==>
              Next(s, Start(w, now)).workers[w] ==
                if s.ledger.run.status == Queued then Working(s.ledger.run.attempts + 1) else Returned(false)
    ensures w in s.workers && s.workers[w].SawCancelled? ==>
              var stopped := Next(Next(s, CountMove(w)), NoteMove(w));
              stopped.workers[w] == Returned(false) && stopped.ledger == s.ledger
  {
    if w in s.workers && s.workers[w].SawCancelled? {
      CountFindsTheEvent(s, w);
    }
  }
}
