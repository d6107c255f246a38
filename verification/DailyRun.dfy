/** The once-a-day claim: several application instances, one database row per job, a 15-minute lease.

    Every database statement is one atomic step; everything an instance does between two
    statements can be interleaved with any steps of the others. The clock is the database's. */
module DailyRun {
  import opened Sequences

  const LEASE_MS := 15 * 60 * 1_000

  datatype Day = Day(key: string)
  type Instance = nat

  /** The row `jobs.lastRun.<job>`: its value is `day|running` or `day|done`. */
  datatype Row = Row(day: Day, done: bool, updatedAt: int)

  /** The upsert of `claimDailyRun`: it writes unless the row is this day's, and done or still leased. */
  predicate ClaimWins(row: Option<Row>, day: Day, now: int) {
    row.None? || row.value.day != day || (!row.value.done && row.value.updatedAt < now - LEASE_MS)
  }

  function ClaimRow(row: Option<Row>, day: Day, now: int): Option<Row> {
    if ClaimWins(row, day, now) then Some(Row(day, false, now)) else row
  }

  predicate Running(row: Option<Row>, day: Day) {
    row.Some? && row.value.day == day && !row.value.done
  }

  /** The update of `completeDailyRun`; `stamp` is whatever the client writes to `updatedAt`. */
  function CompleteRow(row: Option<Row>, day: Day, stamp: int): Option<Row> {
    if Running(row, day) then Some(Row(day, true, stamp)) else row
  }

  // ---------------------------------------------------------------- the row, as statements change it

  class AppConfigRow {
    var row: Option<Row>

    constructor ()
      ensures row == None
    {
      row := None;
    }

    /** Returns whether the statement returned a row, i.e. whether the claim was won. */
    method Upsert(day: Day, now: int) returns (won: bool)
      modifies this
      ensures won == old(ClaimWins(row, day, now)) && row == old(ClaimRow(row, day, now))
      ensures won ==> row == Some(Row(day, false, now))
      ensures !won ==> row == old(row) && row.Some? && row.value.day == day
    {
      if row.None? {
        row := Some(Row(day, false, now));
        return true;
      }
      if row.value.day != day || (!row.value.done && row.value.updatedAt < now - LEASE_MS) {
        row := Some(Row(day, false, now));
        return true;
      }
      return false;
    }

    method UpdateDone(day: Day, stamp: int)
      modifies this
      ensures row == old(CompleteRow(row, day, stamp))
    {
      if row.Some? && row.value.day == day && !row.value.done {
        row := Some(row.value.(done := true, updatedAt := stamp));
      }
    }
  }

  // ---------------------------------------------------------------- the protocol

  /** Where an instance is inside `runDailyOnce`. */
  datatype Phase =
    | Idle
    | Refused(day: Day)      // the upsert wrote nothing; the row has not been read back yet
    | Working(day: Day)      // the claim was won

  datatype Local = Local(phase: Phase, settled: Option<Day>)   // `settled` is the in-process date guard
  datatype State = State(now: int, row: Option<Row>, locals: map<Instance, Local>)

  const FRESH_LOCAL := Local(Idle, None)

  function At(s: State, i: Instance): Local {
    if i in s.locals then s.locals[i] else FRESH_LOCAL
  }

  datatype Step =
    | Tick(ms: nat)
    | Attempt(i: Instance, day: Day)
    | ReadBack(i: Instance)
    | Finish(i: Instance, stamp: int)      // the work returned and the row was updated
    | WorkFailed(i: Instance)              // the work threw: nothing is written
    | Crash(i: Instance)

  predicate Enabled(s: State, step: Step) {
    match step
    case Tick(_) => true
    case Attempt(i, day) => At(s, i).phase.Idle? && At(s, i).settled != Some(day)
    case ReadBack(i) => At(s, i).phase.Refused?
    case Finish(i, _) => At(s, i).phase.Working?
    case WorkFailed(i) => At(s, i).phase.Working?
    case Crash(i) => true
  }

  function Next(s: State, step: Step): State
    requires Enabled(s, step)
  {
    match step
    case Tick(ms) => s.(now := s.now + ms)
    case Attempt(i, day) =>
      var phase := if ClaimWins(s.row, day, s.now) then Working(day) else Refused(day);
      s.(row := ClaimRow(s.row, day, s.now), locals := s.locals[i := At(s, i).(phase := phase)])
    case ReadBack(i) =>
      var day := At(s, i).phase.day;
      s.(locals := s.locals[i := Local(Idle, if Running(s.row, day) then At(s, i).settled else Some(day))])
    case Finish(i, stamp) =>
      var day := At(s, i).phase.day;
      s.(row := CompleteRow(s.row, day, stamp), locals := s.locals[i := Local(Idle, Some(day))])
    case WorkFailed(i) => s.(locals := s.locals[i := At(s, i).(phase := Idle)])
    case Crash(i) => s.(locals := s.locals[i := FRESH_LOCAL])
  }

  /** A run is a list of steps from the empty database, each enabled when it is taken. */
  predicate Legal(run: seq<Step>)
    decreases |run|, 0
  {
    run == [] || (Legal(run[..|run| - 1]) && Enabled(After(run[..|run| - 1]), run[|run| - 1]))
  }

  function After(run: seq<Step>): State
    requires Legal(run)
    decreases |run|, 1
  {
    if run == [] then State(0, None, map[]) else Next(After(run[..|run| - 1]), run[|run| - 1])
  }

  lemma {:induction false} PrefixIsLegal(run: seq<Step>, k: nat)
    requires Legal(run) && k <= |run|
    ensures Legal(run[..k])
  {
    if k < |run| {
      PrefixIsLegal(run[..|run| - 1], k);
      assert run[..|run| - 1][..k] == run[..k];
    } else {
      assert run[..k] == run;
    }
  }

  /** The state before step `k` of a run. */
  function Before(run: seq<Step>, k: nat): State
    requires Legal(run) && k <= |run|
  {
    PrefixIsLegal(run, k);
    After(run[..k])
  }

  lemma StepAt(run: seq<Step>, k: nat)
    requires Legal(run) && k < |run|
    ensures Enabled(Before(run, k), run[k])
    ensures Before(run, k + 1) == Next(Before(run, k), run[k])
  {
    PrefixIsLegal(run, k + 1);
    assert run[..k + 1][..k] == run[..k];
    assert run[..k + 1][k] == run[k];
  }

  // ---------------------------------------------------------------- what a run contains

  /** Step `k` is a successful claim of `day`. */
  predicate Wins(run: seq<Step>, k: nat, day: Day)
    requires Legal(run) && k < |run|
  {
    run[k].Attempt? && run[k].day == day && ClaimWins(Before(run, k).row, day, Before(run, k).now)
  }

  predicate WinsOther(run: seq<Step>, k: nat, day: Day)
    requires Legal(run) && k < |run|
  {
    run[k].Attempt? && Wins(run, k, run[k].day) && run[k].day != day
  }

  /** No successful claim of another day in steps `i..j`. */
  ghost predicate Undisturbed(run: seq<Step>, i: nat, j: nat, day: Day)
    requires Legal(run) && i <= j <= |run|
  {
    forall k :: i <= k < j ==> !WinsOther(run, k, day)
  }

  /** Step `k` turned the row of `day` from running to done. */
  predicate Completes(run: seq<Step>, k: nat, day: Day)
    requires Legal(run) && k < |run|
  {
    StepAt(run, k);
    && run[k].Finish? && Running(Before(run, k).row, day)
    && At(Before(run, k), run[k].i).phase.day == day
  }

  // ---------------------------------------------------------------- safety over every run

  /** The row of `day` from time `since` on: still the same day's, and if running, claimed no earlier. */
  predicate Held(s: State, day: Day, since: int) {
    s.row.Some? && s.row.value.day == day && (!s.row.value.done ==> since <= s.row.value.updatedAt) && since <= s.now
  }

  lemma HeldStep(run: seq<Step>, k: nat, day: Day, since: int)
    requires Legal(run) && k < |run| && !WinsOther(run, k, day)
    requires Held(Before(run, k), day, since)
    ensures Held(Before(run, k + 1), day, since)
    ensures Before(run, k).row.value.done ==> Before(run, k + 1).row == Before(run, k).row
    ensures Before(run, k + 1).row.value.done ==> Before(run, k).row.value.done || Completes(run, k, day)
  {
    StepAt(run, k);
  }

  lemma {:induction false} HeldThrough(run: seq<Step>, i: nat, j: nat, day: Day, since: int)
    requires Legal(run) && i <= j <= |run| && Undisturbed(run, i, j, day)
    requires Held(Before(run, i), day, since)
    ensures Held(Before(run, j), day, since)
    ensures Before(run, i).row.value.done ==> Before(run, j).row == Before(run, i).row
    decreases j - i
  {
    if i < j {
      HeldStep(run, i, day, since);
      HeldThrough(run, i + 1, j, day, since);
    }
  }

  lemma WinHolds(run: seq<Step>, i: nat, day: Day)
    requires Legal(run) && i < |run| && Wins(run, i, day)
    ensures Held(Before(run, i + 1), day, Before(run, i).now)
    ensures Running(Before(run, i + 1).row, day)
  {
    StepAt(run, i);
  }

  /** Two successful claims of a day, with no other day's claim between them, are more than a lease
      apart, and the run was not completed in between. */
  lemma ClaimsAreALeaseApart(run: seq<Step>, i: nat, j: nat, day: Day)
    requires Legal(run) && i < j < |run| && Wins(run, i, day) && Wins(run, j, day)
    requires Undisturbed(run, i, j, day)
    ensures Before(run, j).now > Before(run, i).now + 15 * 60 * 1_000
    ensures forall k :: i < k < j ==> !Completes(run, k, day)
  {
    WinHolds(run, i, day);
    HeldThrough(run, i + 1, j, day, Before(run, i).now);
    forall k | i < k < j ensures !Completes(run, k, day) {
      if Completes(run, k, day) {
        HeldThrough(run, i + 1, k, day, Before(run, i).now);
        StepAt(run, k);
        HeldStep(run, k, day, Before(run, i).now);
        HeldThrough(run, k + 1, j, day, Before(run, i).now);
      }
    }
  }

  /** A finished day is not claimed again until another day's claim lands. */
  lemma DoneIsFinal(run: seq<Step>, i: nat, j: nat, day: Day)
    requires Legal(run) && i <= j < |run| && Undisturbed(run, i, j, day)
    requires Before(run, i).row.Some? && Before(run, i).row.value.day == day && Before(run, i).row.value.done
    ensures !Wins(run, j, day) && Before(run, j).row == Before(run, i).row
  {
    HeldThrough(run, i, j, day, Before(run, i).now);
  }

  /** Once another day's claim has landed last, even a finished day is claimed again by the next attempt. */
  lemma OtherDayReopens(run: seq<Step>, i: nat, j: nat, day: Day, other: Day)
    requires Legal(run) && i < j < |run| && day != other
    requires Wins(run, i, other) && Undisturbed(run, i + 1, j, other)
    requires run[j].Attempt? && run[j].day == day
    ensures Wins(run, j, day)
  {
    WinHolds(run, i, other);
    HeldThrough(run, i + 1, j, other, Before(run, i).now);
  }

  /** The number of successful claims of `day` in steps `i..j`. */
  function WinCount(run: seq<Step>, i: nat, j: nat, day: Day): nat
    requires Legal(run) && i <= j <= |run|
  {
    if i == j then 0 else WinCount(run, i, j - 1, day) + if Wins(run, j - 1, day) then 1 else 0
  }

  /** The time between the first and the last of `n` such claims exceeds `n - 1` leases. */
  lemma {:induction false} ClaimsAreSpread(run: seq<Step>, i: nat, j: nat, day: Day) returns (last: nat)
    requires Legal(run) && i < j <= |run| && Wins(run, i, day) && Undisturbed(run, i, j, day)
    ensures i <= last < j && Wins(run, last, day)
    ensures Before(run, last).now - Before(run, i).now >= (WinCount(run, i, j, day) - 1) * (LEASE_MS + 1)
    decreases j
  {
    if j == i + 1 {
      last := i;
    } else {
      last := ClaimsAreSpread(run, i, j - 1, day);
      hide Legal, Before;
      if Wins(run, j - 1, day) {
        ClaimsAreALeaseApart(run, last, j - 1, day);
        last := j - 1;
      }
    }
  }

  /** After a claim of `newer`, an instance that finishes another day's work leaves the row alone. */
  lemma OldCompletionIsHarmless(run: seq<Step>, i: nat, k: nat, newer: Day)
    requires Legal(run) && i < k < |run| && Wins(run, i, newer) && Undisturbed(run, i + 1, k, newer)
    requires run[k].Finish? && At(Before(run, k), run[k].i).phase != Working(newer)
    ensures Before(run, k + 1).row == Before(run, k).row && Before(run, k).row.Some?
    ensures Before(run, k).row.value.day == newer
  {
    WinHolds(run, i, newer);
    HeldThrough(run, i + 1, k, newer, Before(run, i).now);
    StepAt(run, k);
  }

  // ---------------------------------------------------------------- what a settled day means

  /** Instance `i` is working on `day` and entered that state by a successful claim at step `k`. */
  ghost predicate ClaimedAt(run: seq<Step>, k: nat, i: Instance, day: Day)
    requires Legal(run)
  {
    k < |run| && run[k].Attempt? && run[k].i == i && Wins(run, k, day)
  }

  lemma {:induction false} WorkersHaveClaimed(run: seq<Step>, j: nat, i: Instance)
    requires Legal(run) && j <= |run| && At(Before(run, j), i).phase.Working?
    ensures exists k: nat :: k < j && ClaimedAt(run, k, i, At(Before(run, j), i).phase.day)
  {
    var day := At(Before(run, j), i).phase.day;
    StepAt(run, j - 1);
    if At(Before(run, j - 1), i).phase != Working(day) {
      assert ClaimedAt(run, j - 1, i, day);
    } else {
      WorkersHaveClaimed(run, j - 1, i);
    }
  }

  /** A row that says done was completed by an instance that had won a claim of that very day. */
  lemma {:induction false} DoneWasWorkedOn(run: seq<Step>, j: nat)
    returns (claim: nat, completion: nat)
    requires Legal(run) && j <= |run| && Before(run, j).row.Some? && Before(run, j).row.value.done
    ensures claim < completion < j
    ensures Completes(run, completion, Before(run, j).row.value.day)
    ensures ClaimedAt(run, claim, run[completion].i, Before(run, j).row.value.day)
  {
    var day := Before(run, j).row.value.day;
    StepAt(run, j - 1);
    if Completes(run, j - 1, day) {
      WorkersHaveClaimed(run, j - 1, run[j - 1].i);
      completion := j - 1;
      var c: nat :| c < j - 1 && ClaimedAt(run, c, run[j - 1].i, day);
      claim := c;
    } else {
      claim, completion := DoneWasWorkedOn(run, j - 1);
    }
  }

  /** An instance refused at step `k` settles the day at its read-back only when the day is done by
      then, or another day's claim landed in between. */
  lemma SettledMeansDone(run: seq<Step>, k: nat, j: nat, day: Day)
    requires Legal(run) && k < j < |run|
    requires run[k].Attempt? && run[k].day == day && !Wins(run, k, day)
    requires run[j] == ReadBack(run[k].i) && At(Before(run, j), run[k].i).phase == Refused(day)
    requires At(Before(run, j + 1), run[k].i).settled == Some(day) != At(Before(run, j), run[k].i).settled
    ensures Undisturbed(run, k, j, day) ==> Before(run, j).row.Some? && Before(run, j).row.value.done
    ensures Undisturbed(run, k, j, day) ==> exists c: nat :: c < j && Completes(run, c, day)
  {
    StepAt(run, j);
    if Undisturbed(run, k, j, day) {
      StepAt(run, k);
      RowIsOurs(run, k, j, day);
      var claim, completion := DoneWasWorkedOn(run, j);
    }
  }

  lemma {:induction false} RowIsOurs(run: seq<Step>, i: nat, j: nat, day: Day)
    requires Legal(run) && i <= j <= |run| && Undisturbed(run, i, j, day)
    requires Before(run, i).row.Some? && Before(run, i).row.value.day == day
    ensures Before(run, j).row.Some? && Before(run, j).row.value.day == day
    decreases j - i
  {
    if i < j {
      StepAt(run, i);
      assert !WinsOther(run, i, day);
      RowIsOurs(run, i + 1, j, day);
    }
  }

  /** How an instance leaves its step: work that was finished, or a refusal read back when the row no
      longer says running, settles the day; a refusal while it does, and failed work, leave it open. */
  lemma OutcomeOfStep(run: seq<Step>, k: nat, i: Instance)
    requires Legal(run) && k < |run| && (run[k] == ReadBack(i) || run[k] == WorkFailed(i) || run[k].Finish?)
    requires run[k].i == i
    ensures !At(Before(run, k), i).phase.Idle?
    ensures var before, after := At(Before(run, k), i), At(Before(run, k + 1), i);
            var row := Before(run, k).row;
            var day := before.phase.day;
            && after.phase == Idle
            && (run[k].Finish? ==> after.settled == Some(day))
            && (run[k].WorkFailed? ==> after.settled == before.settled && Before(run, k + 1).row == row)
            && (run[k].ReadBack? ==> Before(run, k + 1).row == row)
            && (run[k].ReadBack? && row.Some? && row.value.day == day && !row.value.done ==>
                  after.settled == before.settled)
            && (run[k].ReadBack? && !(row.Some? && row.value.day == day && !row.value.done) ==>
                  after.settled == Some(day))
  {
    StepAt(run, k);
  }

  /** A crash leaves the row and the other instances alone, and the restarted process knows of no day. */
  lemma CrashForgets(run: seq<Step>, k: nat, i: Instance, other: Instance, day: Day)
    requires Legal(run) && k < |run| && run[k] == Crash(i)
    ensures Before(run, k + 1).row == Before(run, k).row
    ensures other != i ==> At(Before(run, k + 1), other) == At(Before(run, k), other)
    ensures Enabled(Before(run, k + 1), Attempt(i, day))
  {
    StepAt(run, k);
  }

  /** An instance that has settled a day does not attempt it again before it crashes or turns to another day. */
  lemma {:induction false} SettledIsNotAttempted(run: seq<Step>, i: nat, j: nat, inst: Instance, day: Day)
    requires Legal(run) && i <= j < |run| && At(Before(run, i), inst) == Local(Idle, Some(day))
    requires forall k :: i <= k < j ==> run[k] != Crash(inst)
                                        && !(run[k].Attempt? && run[k].i == inst && run[k].day != day)
    ensures At(Before(run, j), inst) == Local(Idle, Some(day)) && run[j] != Attempt(inst, day)
    decreases j
  {
    StepAt(run, j);
    if i < j {
      SettledIsNotAttempted(run, i, j - 1, inst, day);
      StepAt(run, j - 1);
      StepKeepsSettled(Before(run, j - 1), run[j - 1], inst, day);
    }
  }

  lemma StepKeepsSettled(s: State, step: Step, inst: Instance, day: Day)
    requires Enabled(s, step) && At(s, inst) == Local(Idle, Some(day)) && step != Crash(inst)
    requires !(step.Attempt? && step.i == inst && step.day != day)
    ensures At(Next(s, step), inst) == Local(Idle, Some(day))
  {
  }

  /** Neither a successful claim nor the completion of `day` in steps `i..j`. */
  ghost predicate Abandoned(run: seq<Step>, i: nat, j: nat, day: Day)
    requires Legal(run) && i <= j <= |run|
  {
    forall k :: i <= k < j ==> !WinsOther(run, k, day) && !Wins(run, k, day) && !Completes(run, k, day)
  }

  lemma {:induction false} AbandonedRowStays(run: seq<Step>, i: nat, j: nat, day: Day)
    requires Legal(run) && i <= j <= |run| && Abandoned(run, i, j, day) && Running(Before(run, i).row, day)
    ensures Before(run, j).row == Before(run, i).row
    decreases j - i
  {
    if i < j {
      StepAt(run, i);
      assert !WinsOther(run, i, day) && !Wins(run, i, day) && !Completes(run, i, day);
      AbandonedRowStays(run, i + 1, j, day);
    }
  }

  /** A crash does not skip the day: when nobody completed the run or claimed since, the next attempt
      of any instance wins exactly when the lease is over. */
  lemma CrashDoesNotSkipTheDay(run: seq<Step>, i: nat, j: nat, day: Day)
    requires Legal(run) && i < j < |run| && Wins(run, i, day) && Abandoned(run, i + 1, j, day)
    requires run[j].Attempt? && run[j].day == day
    ensures Wins(run, j, day) <==> Before(run, j).now > Before(run, i).now + LEASE_MS
  {
    WinHolds(run, i, day);
    StepAt(run, i);
    AbandonedRowStays(run, i + 1, j, day);
  }

  // ---------------------------------------------------------------- when a day fires more than once

  /** No successful claim of any day in steps `i..j`. */
  ghost predicate NoClaim(run: seq<Step>, i: nat, j: nat)
    requires Legal(run) && i <= j <= |run|
  {
    forall k :: i <= k < j && run[k].Attempt? ==> !Wins(run, k, run[k].day)
  }

  predicate LeaseOver(run: seq<Step>, i: nat, j: nat)
    requires Legal(run) && i <= j < |run|
  {
    Before(run, j).now > Before(run, i).now + LEASE_MS
  }

  /** Step `i` is the last successful claim before an attempt. The attempt wins if and only if that was
      another day's claim, or its run was not completed and its lease is over. */
  lemma WinsAfterLastClaim(run: seq<Step>, i: nat, j: nat, day: Day)
    requires Legal(run) && i < j < |run| && run[j].Attempt? && run[j].day == day
    requires run[i].Attempt? && Wins(run, i, run[i].day) && NoClaim(run, i + 1, j)
    ensures Wins(run, j, day) <==>
              run[i].day != day || (LeaseOver(run, i, j) && forall k :: i < k < j ==> !Completes(run, k, day))
  {
    assert forall k :: i + 1 <= k < j ==> !WinsOther(run, k, run[i].day) && !Wins(run, k, day);
    if run[i].day != day {
      OtherDayReopens(run, i, j, day, run[i].day);
    } else if Wins(run, j, day) {
      ClaimsAreALeaseApart(run, i, j, day);
    } else if forall k :: i < k < j ==> !Completes(run, k, day) {
      CrashDoesNotSkipTheDay(run, i, j, day);
    }
  }

  /** At step `j` the day claimed at step `i` is open again: another day's claim landed in between, or
      the lease ran out and the run was not completed. */
  ghost predicate Reopened(run: seq<Step>, i: nat, j: nat, day: Day)
    requires Legal(run) && i <= j < |run|
  {
    || (exists k :: i < k < j && WinsOther(run, k, day))
    || (LeaseOver(run, i, j) && forall k :: i < k < j ==> !Completes(run, k, day))
  }

  /** A day claimed at step `i` is claimed again before step `n` if and only if some instance attempts
      it when it is open again. */
  lemma FiresAgainIff(run: seq<Step>, i: nat, n: nat, day: Day)
    requires Legal(run) && i < n <= |run| && Wins(run, i, day)
    ensures (exists j :: i < j < n && Wins(run, j, day)) <==>
              exists j :: i < j < n && run[j].Attempt? && run[j].day == day && Reopened(run, i, j, day)
  {
    if j :| i < j < n && Wins(run, j, day) {
      if forall k :: i < k < j ==> !WinsOther(run, k, day) {
        assert !WinsOther(run, i, day);
        ClaimsAreALeaseApart(run, i, j, day);
      }
      assert Reopened(run, i, j, day);
    }
    if j :| i < j < n && run[j].Attempt? && run[j].day == day && Reopened(run, i, j, day) {
      if k :| i < k < j && WinsOther(run, k, day) {
        OtherDayIsFollowed(run, k, j, day);
      } else if forall k :: i < k < j ==> !Wins(run, k, day) {
        CrashDoesNotSkipTheDay(run, i, j, day);
      }
    }
  }

  /** Between another day's claim and the next attempt on the day, or by that attempt, the day is won. */
  lemma OtherDayIsFollowed(run: seq<Step>, k: nat, j: nat, day: Day)
    requires Legal(run) && k < j < |run| && WinsOther(run, k, day)
    requires run[j].Attempt? && run[j].day == day
    ensures exists l :: k < l <= j && Wins(run, l, day)
  {
    if forall l :: k < l < j ==> !Wins(run, l, day) {
      WinHolds(run, k, run[k].day);
      StaysForeign(run, k + 1, j, day);
      assert Wins(run, j, day);
    }
  }

  lemma {:induction false} StaysForeign(run: seq<Step>, i: nat, j: nat, day: Day)
    requires Legal(run) && i <= j <= |run| && forall l :: i <= l < j ==> !Wins(run, l, day)
    requires Before(run, i).row.Some? && Before(run, i).row.value.day != day
    ensures Before(run, j).row.Some? && Before(run, j).row.value.day != day
    decreases j - i
  {
    if i < j {
      StepAt(run, i);
      assert !Wins(run, i, day);
      StaysForeign(run, i + 1, j, day);
    }
  }

  lemma OneMoreStep(run: seq<Step>, step: Step)
    requires Legal(run) && Enabled(After(run), step)
    ensures Legal(run + [step]) && After(run + [step]) == Next(After(run), step)
    ensures Before(run + [step], |run|) == After(run)
  {
    hide Next, Enabled;
    var more := run + [step];
    assert more[..|more| - 1] == run && more[|more| - 1] == step;
    assert Legal(more) && After(more) == Next(After(run), step);
    assert more[..|run|] == run;
  }

  lemma OneMoreIsAppended(run: seq<Step>, step: Step, k: nat)
    requires k <= |run| && Legal(run) && Legal(run + [step])
    ensures Before(run + [step], k) == Before(run, k)
  {
    assert (run + [step])[..k] == run[..k];
  }

  /** A finished day fires again: it is done, another day is claimed, and it is claimed once more. */
  lemma FinishedDayFiresAgain(day: Day, other: Day) returns (run: seq<Step>)
    requires day != other
    ensures |run| == 4 && Legal(run) && Wins(run, 0, day) && Completes(run, 1, day) && Wins(run, 3, day)
  {
    var one := [Attempt(0, day)];
    var two := one + [Finish(0, 1)];
    var three := two + [Attempt(1, other)];
    run := three + [Attempt(2, day)];
    OneMoreStep([], Attempt(0, day));
    assert [] + one == one;
    OneMoreStep(one, Finish(0, 1));
    OneMoreStep(two, Attempt(1, other));
    OneMoreStep(three, Attempt(2, day));
    OneMoreIsAppended(three, Attempt(2, day), 0);
    OneMoreIsAppended(three, Attempt(2, day), 1);
    OneMoreIsAppended(two, Attempt(1, other), 1);
    hide Legal;
  }

  /** An unfinished day fires again while its first run is still at work, when that outlasts the lease. */
  lemma OverrunFiresAgain(day: Day) returns (run: seq<Step>)
    ensures |run| == 3 && Legal(run) && Undisturbed(run, 0, 3, day) && Wins(run, 0, day) && Wins(run, 2, day)
    ensures At(After(run), 0).phase == Working(day) && At(After(run), 1).phase == Working(day)
  {
    var one := [Attempt(0, day)];
    var two := one + [Tick(LEASE_MS + 1)];
    run := two + [Attempt(1, day)];
    OneMoreStep([], Attempt(0, day));
    assert [] + one == one;
    OneMoreStep(one, Tick(LEASE_MS + 1));
    OneMoreStep(two, Attempt(1, day));
    assert run[..0] == [];
  }
}
