/** What every run of the paging protocol guarantees. */
module PagingGuarantees {
  import opened Wrappers
  import opened Paging

  function RunFrom(next: Pages, s: System, steps: seq<Step>): System {
    if steps == [] then s else Next(next, RunFrom(next, s, steps[..|steps| - 1]), steps[|steps| - 1])
  }

  // Once a page has no successor the chain starts over, so its pages are those before that point.
  lemma {:induction false} ChainRepeats(next: Pages, n: nat, k: nat, persisted: set<Token>)
    requires n > 0 && PageAt(next, n) == None && StoredBelow(next, persisted, n)
    ensures PageAt(next, k) in persisted
    ensures k >= n ==> PageAt(next, k) == PageAt(next, k - n)
  {
    if k >= n {
      if k > n {
        ChainRepeats(next, n, k - 1, persisted);
      }
      assert PageAt(next, k) == PageAt(next, k - n);
      ChainRepeats(next, n, k - n, persisted);
    }
  }

  // A completed job has stored every page of its chain, however often it was restarted.
  lemma CompletionMeansEveryPage(next: Pages, maxAttempts: nat, steps: seq<Step>, k: nat)
    requires Finished(Run(next, maxAttempts, steps).job.state)
    ensures PageAt(next, k) in Run(next, maxAttempts, steps).persisted
  {
    EveryRunIsValid(next, maxAttempts, steps);
    var s := Run(next, maxAttempts, steps);
    var n :| n > 0 && PageAt(next, n) == None && StoredBelow(next, s.persisted, n);
    ChainRepeats(next, n, k, s.persisted);
  }

  // Hence a provider that always names a further page never sees its job complete.
  lemma EndlessChainNeverCompletes(next: Pages, maxAttempts: nat, steps: seq<Step>)
    requires forall k: nat :: k > 0 ==> PageAt(next, k) != None
    ensures !Finished(Run(next, maxAttempts, steps).job.state)
  {
    EveryRunIsValid(next, maxAttempts, steps);
  }

  // A stored cursor at page k: every page before k is stored, so a restart from it skips nothing.
  lemma CursorNeverSkips(next: Pages, maxAttempts: nat, steps: seq<Step>, k: nat)
    requires var c := Run(next, maxAttempts, steps).cursor; c.Some? && k < c.value.generation
    ensures var s := Run(next, maxAttempts, steps);
            PageAt(next, k) in s.persisted && s.cursor.value.token == PageAt(next, s.cursor.value.generation)
  {
    EveryRunIsValid(next, maxAttempts, steps);
  }

  // Nothing but pages of the chain is ever stored.
  lemma {:induction false} OnlyChainPagesAreStored(next: Pages, maxAttempts: nat, steps: seq<Step>, page: Token)
    requires page in Run(next, maxAttempts, steps).persisted
    ensures exists k: nat :: PageAt(next, k) == page
  {
    var before, step := steps[..|steps| - 1], steps[|steps| - 1];
    var s := Run(next, maxAttempts, before);
    if page in s.persisted {
      OnlyChainPagesAreStored(next, maxAttempts, before, page);
    } else {
      EveryRunIsValid(next, maxAttempts, before);
      hide JobValid, LeasesValid, CompletionValid, CursorValid, Run, StoredBelow;
      assert step.PersistStep? && step.w < |s.workers| && s.workers[step.w].phase.Persisting?;
      assert PageAt(next, s.workers[step.w].phase.generation) == page;
    }
  }

  // A worker keeps its lease, and the job's generation never falls.
  lemma {:induction false} LeasesAreKept(next: Pages, s: System, steps: seq<Step>, w: nat)
    requires w < |s.workers|
    ensures var t := RunFrom(next, s, steps);
            |s.workers| <= |t.workers| && t.workers[w].lease == s.workers[w].lease && s.job.generation <= t.job.generation
  {
    if steps != [] {
      LeasesAreKept(next, s, steps[..|steps| - 1], w);
      GenerationMovesOnlyByClaims(next, RunFrom(next, s, steps[..|steps| - 1]), steps[|steps| - 1]);
    }
  }

  // Once a later lease was granted, a worker changes neither the job nor the cursor at any later point, whatever
  // it does and whatever happened in between.
  lemma SupersededLeaseIsInert(next: Pages, s: System, steps: seq<Step>, step: Step)
    requires StepWorker(step).Some? && StepWorker(step).value < |s.workers|
    requires s.workers[StepWorker(step).value].lease.generation < s.job.generation
    ensures var t := RunFrom(next, s, steps);
            Next(next, t, step).job == t.job && Next(next, t, step).cursor == t.cursor
  {
    hide RunFrom;
    LeasesAreKept(next, s, steps, StepWorker(step).value);
  }

  // The lease alone fences the cursor: its holder never loses the compare-and-set.
  lemma HolderNeverLosesTheCursor(next: Pages, s: System, w: nat, now: int)
    requires Valid(next, s) && w < |s.workers| && s.workers[w].phase.Stored?
    requires LeaseHeld(s.job, s.workers[w].lease, now)
    ensures MayAdvance(s.job, s.cursor, s.workers[w].lease, s.workers[w].phase.generation, now)
    ensures Generation(Next(next, s, AdvanceStep(w, now)).cursor) == Generation(s.cursor) + 1
  {
    hide AttemptsRecorded, StoredBelow, PhasesValid, CompletionValid, PageAt;
    assert Expected(s.workers[w].phase).Some?;
  }

  // The cursor only ever moves to the very next page, and only by the worker that holds the lease and stored the page.
  lemma CursorMovesOnePage(next: Pages, s: System, step: Step)
    requires Valid(next, s) && Next(next, s, step).cursor != s.cursor
    ensures var c := Next(next, s, step).cursor;
            && c == Some(Cursor(next(TokenOf(s.cursor)), Generation(s.cursor) + 1))
            && TokenOf(s.cursor) in s.persisted
            && step.AdvanceStep? && step.w < |s.workers| && LeaseHeld(s.job, s.workers[step.w].lease, step.now)
  {
    hide AttemptsRecorded, CompletionValid;
    var worker := s.workers[step.w];
    assert PhaseValid(next, worker.phase, s.persisted);
    assert PageAt(next, worker.phase.generation) in s.persisted;
    assert worker.phase.page == TokenOf(s.cursor);
  }

  lemma TerminalJobStays(next: Pages, s: System, step: Step)
    requires Terminal(s.job.state)
    ensures Next(next, s, step).job == s.job && Next(next, s, step).cursor == s.cursor
    ensures s.persisted <= Next(next, s, step).persisted
  {
  }

  // A terminal job and its cursor are never touched again, whatever stale workers still try.
  lemma {:induction false} TerminalIsNeverLeft(next: Pages, s: System, steps: seq<Step>)
    requires Terminal(s.job.state)
    ensures RunFrom(next, s, steps).job == s.job && RunFrom(next, s, steps).cursor == s.cursor
    ensures s.persisted <= RunFrom(next, s, steps).persisted
  {
    if steps != [] {
      TerminalIsNeverLeft(next, s, steps[..|steps| - 1]);
      TerminalJobStays(next, RunFrom(next, s, steps[..|steps| - 1]), steps[|steps| - 1]);
    }
  }

  // At most maxAttempts leases are ever granted, each ended attempt has exactly one row in order,
  // and the dead letter is written exactly when the job died.
  lemma AttemptsAreAccountedFor(next: Pages, maxAttempts: nat, steps: seq<Step>)
    ensures var s := Run(next, maxAttempts, steps);
            && |s.workers| == s.job.generation == s.job.attempts <= maxAttempts
            && |s.job.ended| == (if s.job.state == Running then s.job.attempts - 1 else s.job.attempts)
            && (forall i :: 0 <= i < |s.job.ended| ==>
                  s.job.ended[i].number == s.job.ended[i].generation == i + 1
                  && (i < |s.job.ended| - 1 ==> s.job.ended[i].outcome == RetryScheduled))
            && s.job.deadLetters == if s.job.state == DeadLetter then [s.job.attempts] else []
  {
    EveryRunIsValid(next, maxAttempts, steps);
    OneWorkerPerLease(next, maxAttempts, steps);
  }

  lemma {:induction false} OneWorkerPerLease(next: Pages, maxAttempts: nat, steps: seq<Step>)
    ensures var s := Run(next, maxAttempts, steps);
            |s.workers| == s.job.generation && s.job.maxAttempts == maxAttempts
  {
    if steps != [] {
      OneWorkerPerLease(next, maxAttempts, steps[..|steps| - 1]);
    }
  }

  // When the advance past the last page committed but the completion did not, the next attempt
  // begins again at the first page instead of completing.
  lemma RestartBeginsAgain(next: Pages, s: System, w: nat)
    requires Valid(next, s) && w < |s.workers| && s.workers[w].phase.Claimed?
    requires s.cursor.Some? && s.cursor.value.token == None
    ensures Next(next, s, LoadStep(w)).workers[w].phase == Ready(Generation(s.cursor), PageAt(next, 0))
    ensures Generation(s.cursor) > 0
  {
    hide AttemptsRecorded, CompletionValid, PhasesValid, LeasesValid;
  }

  lemma {:induction false} ShiftByChain(next: Pages, a: nat, b: nat)
    requires PageAt(next, a) == None
    ensures PageAt(next, a + b) == PageAt(next, b)
  {
    if b > 0 {
      ShiftByChain(next, a, b - 1);
    }
  }

  lemma {:induction false} RunFromStaysValid(next: Pages, s: System, steps: seq<Step>)
    requires Valid(next, s)
    ensures Valid(next, RunFrom(next, s, steps))
  {
    if steps != [] {
      RunFromStaysValid(next, s, steps[..|steps| - 1]);
      var before, step := RunFrom(next, s, steps[..|steps| - 1]), steps[|steps| - 1];
      hide *;
      JobStaysValid(next, before, step);
      PagesStayValid(next, before, step);
      LeasesStayValid(next, before, step);
      CompletionStaysValid(next, before, step);
    }
  }

  // Nothing was exhausted below page k by a lease granted after generation g.
  ghost predicate StartedAfresh(s: System, g: nat, k: nat) {
    && g <= s.job.generation && k <= Generation(s.cursor)
    && (s.job.state == Running ==> g < s.job.generation)
    && (Finished(s.job.state) ==> k < Generation(s.cursor) && TokenOf(s.cursor) == None)
    && (forall i :: 0 <= i < |s.workers| && s.workers[i].lease.generation > g && Expected(s.workers[i].phase).Some? ==>
          && Expected(s.workers[i].phase).value >= k
          && (s.workers[i].phase.Exhausted? ==> Expected(s.workers[i].phase).value > k))
  }

  lemma AfreshStays(next: Pages, s: System, step: Step, g: nat, k: nat)
    requires Valid(next, s) && StartedAfresh(s, g, k)
    ensures StartedAfresh(Next(next, s, step), g, k)
  {
    hide AttemptsRecorded, PhasesValid, CompletionValid, CursorValid;
    GenerationMovesOnlyByClaims(next, s, step);
    if step.CompleteStep? && step.w < |s.workers| {
      ExhaustedHolderIsPastTheEnd(next, s, step.w);
    }
  }

  lemma ExhaustedHolderIsPastTheEnd(next: Pages, s: System, w: nat)
    requires Valid(next, s) && w < |s.workers|
    ensures s.workers[w].phase.Exhausted? && s.workers[w].lease.generation == s.job.generation ==> TokenOf(s.cursor) == None
  {
    hide AttemptsRecorded, CompletionValid, StoredBelow, PageAt;
    assert PhaseValid(next, s.workers[w].phase, s.persisted);
    assert Expected(s.workers[w].phase).Some? && s.workers[w].lease.generation == s.job.generation ==>
             Expected(s.workers[w].phase).value == Generation(s.cursor);
  }

  lemma {:induction false} AfreshRun(next: Pages, s: System, steps: seq<Step>, g: nat, k: nat)
    requires Valid(next, s) && StartedAfresh(s, g, k)
    ensures StartedAfresh(RunFrom(next, s, steps), g, k)
  {
    if steps != [] {
      AfreshRun(next, s, steps[..|steps| - 1], g, k);
      RunFromStaysValid(next, s, steps[..|steps| - 1]);
      hide StartedAfresh;
      AfreshStays(next, RunFrom(next, s, steps[..|steps| - 1]), steps[|steps| - 1], g, k);
    }
  }

  // So a job between attempts whose cursor is past the last page of a chain of n pages completes only after
  // n more pages, the whole chain, have been fetched and passed again.
  lemma RestartFetchesTheChainAgain(next: Pages, s: System, steps: seq<Step>, n: nat)
    requires Valid(next, s) && s.job.state in {Queued, RetryScheduled}
    requires s.cursor.Some? && s.cursor.value.token == None
    requires n > 0 && PageAt(next, n) == None && forall i :: 0 < i < n ==> PageAt(next, i) != None
    requires Finished(RunFrom(next, s, steps).job.state)
    ensures Generation(RunFrom(next, s, steps).cursor) >= Generation(s.cursor) + n
  {
    var k := Generation(s.cursor);
    assert StartedAfresh(s, s.job.generation, k) by {
      hide AttemptsRecorded, PhasesValid, CompletionValid, CursorValid;
    }
    AfreshRun(next, s, steps, s.job.generation, k);
    RunFromStaysValid(next, s, steps);
    var again := Generation(RunFrom(next, s, steps).cursor) - k;
    ShiftByChain(next, k, again);
  }
}
