/** The stuck-POSTING sweep: several sweepers and posters work on the same transaction rows.

    A sweep reads the stuck rows in one statement and then moves them one transaction at a time;
    each of those transactions checks the row again in the write itself and then writes the audit
    record. Every statement is a step of its own: what a transaction has written is pending, and its
    row locked, until it commits or rolls back. */
module PostingSweep {
  import opened Sequences

  const STUCK_POSTING_MS := 5 * 60 * 1_000

  type TxnId = nat
  type Sweeper = nat

  datatype Status = PENDING | POSTING | POSTED | ERROR | OTHER
  datatype Row = Row(status: Status, updatedAt: int)

  predicate Stuck(rows: map<TxnId, Row>, id: TxnId, cutoff: int) {
    id in rows && rows[id].status == POSTING && rows[id].updatedAt < cutoff
  }

  /** `found` is a result of the read of all stuck rows, in whatever order. */
  ghost predicate Lists(found: seq<TxnId>, rows: map<TxnId, Row>, cutoff: int) {
    NoRepeats(found) && forall id :: id in found <==> Stuck(rows, id, cutoff)
  }

  // ---------------------------------------------------------------- one sweep alone

  class TransactionTable {
    var rows: map<TxnId, Row>
    var audits: seq<TxnId>

    constructor (rows: map<TxnId, Row>)
      ensures this.rows == rows && audits == []
    {
      this.rows, audits := rows, [];
    }

    /** The database transaction of one row; `auditFails` tells whether its audit write throws, which
        rolls the row back too. Returns whether the row was swept. */
    method SweepOne(id: TxnId, cutoff: int, now: int, auditFails: bool) returns (swept: bool)
      modifies this
      ensures swept == (old(Stuck(rows, id, cutoff)) && !auditFails)
      ensures rows == if swept then old(rows)[id := Row(ERROR, now)] else old(rows)
      ensures audits == if swept then old(audits) + [id] else old(audits)
    {
      var rowsAtBegin, auditsAtBegin := rows, audits;
      if !(id in rows && rows[id].status == POSTING && rows[id].updatedAt < cutoff) {
        return false;
      }
      rows := rows[id := rows[id].(status := ERROR, updatedAt := now)];
      if auditFails {
        rows, audits := rowsAtBegin, auditsAtBegin;
        return false;
      }
      audits := audits + [id];
      return true;
    }

    /** The loop over the rows that were read. With nobody else at work, exactly the stuck rows whose
        audit record could be written become errors, each with one audit record. */
    method SweepStuckPosting(found: seq<TxnId>, now: int, auditFails: TxnId -> bool)
      requires Lists(found, rows, now - STUCK_POSTING_MS)
      modifies this
      ensures Swept(old(rows), old(audits), found, now, auditFails, rows, audits)
    {
      var cutoff := now - STUCK_POSTING_MS;
      NothingSwept(rows, audits, now, auditFails);
      assert found[..0] == [];
      hide Swept, NoRepeats, Stuck;
      for i := 0 to |found|
        invariant Swept(old(rows), old(audits), found[..i], now, auditFails, rows, audits)
      {
        ghost var rows', audits' := rows, audits;
        var swept := SweepOne(found[i], cutoff, now, auditFails(found[i]));
        OneMoreSwept(old(rows), old(audits), found, i, now, auditFails, rows', audits');
      }
      assert found[..|found|] == found;
    }
  }

  /** Exactly the listed rows whose audit record could be written became errors, each with one audit
      record; everything else is as it was. */
  ghost predicate Swept(rows: map<TxnId, Row>, audits: seq<TxnId>, ids: seq<TxnId>, now: int, auditFails: TxnId -> bool,
                        rows': map<TxnId, Row>, audits': seq<TxnId>) {
    && rows'.Keys == rows.Keys
    && (forall id :: id in rows' ==> rows'[id] == if id in ids && !auditFails(id) then Row(ERROR, now) else rows[id])
    && (forall id :: multiset(audits')[id] == multiset(audits)[id] + if id in ids && !auditFails(id) then 1 else 0)
  }

  lemma NothingSwept(rows: map<TxnId, Row>, audits: seq<TxnId>, now: int, auditFails: TxnId -> bool)
    ensures Swept(rows, audits, [], now, auditFails, rows, audits)
  {
  }

  lemma OneMoreSwept(rows: map<TxnId, Row>, audits: seq<TxnId>, found: seq<TxnId>, i: nat, now: int,
                     auditFails: TxnId -> bool, rows': map<TxnId, Row>, audits': seq<TxnId>)
    requires Lists(found, rows, now - STUCK_POSTING_MS) && i < |found|
    requires Swept(rows, audits, found[..i], now, auditFails, rows', audits')
    ensures var id := found[i];
            && Stuck(rows', id, now - STUCK_POSTING_MS)
            && if auditFails(id) then Swept(rows, audits, found[..i + 1], now, auditFails, rows', audits')
               else Swept(rows, audits, found[..i + 1], now, auditFails, rows'[id := Row(ERROR, now)], audits' + [id])
  {
    hide NoRepeats;
    NextFound(found, i);
    var id := found[i];
    assert id in found && Stuck(rows', id, now - STUCK_POSTING_MS);
    hide Stuck, Lists;
    if auditFails(id) {
      assert Swept(rows, audits, found[..i + 1], now, auditFails, rows', audits');
    } else {
      assert Swept(rows, audits, found[..i + 1], now, auditFails, rows'[id := Row(ERROR, now)], audits' + [id]);
    }
  }

  lemma NextFound(found: seq<TxnId>, i: nat)
    requires NoRepeats(found) && i < |found|
    ensures found[i] in found && found[i] !in found[..i]
    ensures forall id :: id in found[..i + 1] <==> id in found[..i] || id == found[i]
  {
    assert found[..i + 1] == found[..i] + [found[i]];
  }

  // ---------------------------------------------------------------- everybody at once

  /** An open transaction that has updated a row: its writes, which nobody else sees yet. */
  datatype Transaction = Transaction(id: TxnId, row: Row, audits: seq<TxnId>)
  datatype Sweep = Sweep(cutoff: int, todo: seq<TxnId>, open: Option<Transaction>)
  datatype State = State(now: int, rows: map<TxnId, Row>, audits: seq<TxnId>, sweeps: map<Sweeper, Sweep>)

  datatype Step =
    | Tick(ms: nat)
    | Write(id: TxnId, status: Status)          // any other writer: it sets `updatedAt` too
    | Begin(s: Sweeper, found: seq<TxnId>)      // the read; what follows holds for any list it returns
    | Update(s: Sweeper)                        // the conditional update of the next row
    | Audit(s: Sweeper)
    | Commit(s: Sweeper)
    | Rollback(s: Sweeper)                      // the audit write or the commit failed
    | Stop(s: Sweeper)                          // the sweep ends or its process dies

  predicate InTransaction(st: State, s: Sweeper) {
    s in st.sweeps && st.sweeps[s].open.Some?
  }

  /** An open transaction has written the row: everybody else's write has to wait. */
  predicate Locked(st: State, id: TxnId) {
    exists s :: s in st.sweeps && st.sweeps[s].open.Some? && st.sweeps[s].open.value.id == id
  }

  predicate Enabled(st: State, step: Step) {
    match step
    case Tick(_) => true
    case Write(id, _) => !Locked(st, id)
    case Begin(s, _) => s !in st.sweeps
    case Update(s) => s in st.sweeps && st.sweeps[s].open.None? && st.sweeps[s].todo != []
                      && !Locked(st, st.sweeps[s].todo[0])
    case Audit(s) => InTransaction(st, s) && st.sweeps[s].open.value.audits == []
    case Commit(s) => InTransaction(st, s) && st.sweeps[s].open.value.audits != []
    case Rollback(s) => InTransaction(st, s)
    case Stop(s) => s in st.sweeps
  }

  function Updated(st: State, sweep: Sweep): Sweep
    requires sweep.todo != []
  {
    var id := sweep.todo[0];
    if Stuck(st.rows, id, sweep.cutoff)
    then sweep.(open := Some(Transaction(id, Row(ERROR, st.now), [])))
    else sweep.(todo := sweep.todo[1..])
  }

  function Closed(sweep: Sweep): Sweep {
    sweep.(open := None, todo := if sweep.todo == [] then [] else sweep.todo[1..])
  }

  /** A step that is not enabled waits: it changes nothing. */
  function Next(st: State, step: Step): State {
    if !Enabled(st, step) then st
    else
      match step
      case Tick(ms) => st.(now := st.now + ms)
      case Write(id, status) => st.(rows := st.rows[id := Row(status, st.now)])
      case Begin(s, found) => st.(sweeps := st.sweeps[s := Sweep(st.now - STUCK_POSTING_MS, found, None)])
      case Update(s) => st.(sweeps := st.sweeps[s := Updated(st, st.sweeps[s])])
      case Audit(s) =>
        var t := st.sweeps[s].open.value;
        st.(sweeps := st.sweeps[s := st.sweeps[s].(open := Some(t.(audits := t.audits + [t.id])))])
      case Commit(s) =>
        var t := st.sweeps[s].open.value;
        st.(rows := st.rows[t.id := t.row], audits := st.audits + t.audits,
            sweeps := st.sweeps[s := Closed(st.sweeps[s])])
      case Rollback(s) => st.(sweeps := st.sweeps[s := Closed(st.sweeps[s])])
      case Stop(s) => st.(sweeps := st.sweeps - {s})
  }

  const START := State(0, map[], [], map[])

  function After(run: seq<Step>): State {
    if run == [] then START else Next(After(run[..|run| - 1]), run[|run| - 1])
  }

  lemma StepAt(run: seq<Step>, k: nat)
    requires k < |run|
    ensures After(run[..k + 1]) == Next(After(run[..k]), run[k])
  {
    assert run[..k + 1][..k] == run[..k];
  }

  // ---------------------------------------------------------------- what one transaction does

  /** The next row of a sweep, if it is stuck and nobody else has it locked: the statements show nothing
      until the commit, which moves the row and writes its audit record; a rollback undoes both. */
  lemma StuckRowIsSwept(st: State, s: Sweeper)
    requires s in st.sweeps && st.sweeps[s].open.None? && st.sweeps[s].todo != []
    requires forall u :: u in st.sweeps && st.sweeps[u].open.Some? ==>
                           st.sweeps[u].open.value.id != st.sweeps[s].todo[0]
    requires st.sweeps[s].todo[0] in st.rows
    requires st.rows[st.sweeps[s].todo[0]].status == POSTING
    requires st.rows[st.sweeps[s].todo[0]].updatedAt < st.sweeps[s].cutoff
    ensures var sweep, id := st.sweeps[s], st.sweeps[s].todo[0];
            var updated := Next(st, Update(s));
            var audited := Next(updated, Audit(s));
            var past := st.sweeps[s := Sweep(sweep.cutoff, sweep.todo[1..], None)];
            && updated.rows == st.rows && updated.audits == st.audits
            && audited.rows == st.rows && audited.audits == st.audits
            && Next(audited, Commit(s)) == State(st.now, st.rows[id := Row(ERROR, st.now)], st.audits + [id], past)
            && Next(audited, Rollback(s)) == State(st.now, st.rows, st.audits, past)
            && Next(updated, Rollback(s)) == State(st.now, st.rows, st.audits, past)
  {
    var sweep, id := st.sweeps[s], st.sweeps[s].todo[0];
    assert !Locked(st, id);
    var updated := Next(st, Update(s));
    assert updated == st.(sweeps := st.sweeps[s := sweep.(open := Some(Transaction(id, Row(ERROR, st.now), [])))]);
    var audited := Next(updated, Audit(s));
    assert InTransaction(updated, s) && [] + [id] == [id];
    assert audited == st.(sweeps := st.sweeps[s := sweep.(open := Some(Transaction(id, Row(ERROR, st.now), [id])))]);
    hide Locked;
  }

  /** A row that is no longer stuck is passed over. */
  lemma OtherRowIsSkipped(st: State, s: Sweeper)
    requires s in st.sweeps && st.sweeps[s].open.None? && st.sweeps[s].todo != []
    requires forall u :: u in st.sweeps && st.sweeps[u].open.Some? ==>
                           st.sweeps[u].open.value.id != st.sweeps[s].todo[0]
    requires var id := st.sweeps[s].todo[0];
             id !in st.rows || st.rows[id].status != POSTING || st.rows[id].updatedAt >= st.sweeps[s].cutoff
    ensures Next(st, Update(s))
         == st.(sweeps := st.sweeps[s := Sweep(st.sweeps[s].cutoff, st.sweeps[s].todo[1..], None)])
  {
    assert !Locked(st, st.sweeps[s].todo[0]);
  }

  /** While a transaction has the row, another writer and another sweep wait. */
  lemma LockedRowWaits(st: State, s: Sweeper, u: Sweeper, status: Status)
    requires s in st.sweeps && st.sweeps[s].open.Some?
    ensures Next(st, Write(st.sweeps[s].open.value.id, status)) == st
    ensures u in st.sweeps && st.sweeps[u].todo != [] && st.sweeps[u].todo[0] == st.sweeps[s].open.value.id ==>
              Next(st, Update(u)) == st
  {
    assert Locked(st, st.sweeps[s].open.value.id);
  }

  // ---------------------------------------------------------------- what locking keeps

  /** What an open transaction has written, and that the row it will overwrite is still stuck. */
  predicate Sound(st: State, sweep: Sweep) {
    && sweep.cutoff <= st.now - STUCK_POSTING_MS
    && (sweep.open.Some? ==>
          var t := sweep.open.value;
          && Stuck(st.rows, t.id, sweep.cutoff)
          && t.row.status == ERROR && st.rows[t.id].updatedAt <= t.row.updatedAt <= st.now
          && (t.audits == [] || t.audits == [t.id]))
  }

  ghost predicate Inv(st: State) {
    && (forall s :: s in st.sweeps ==> Sound(st, st.sweeps[s]))
    && (forall id :: id in st.rows ==> st.rows[id].updatedAt <= st.now)
    && forall s, u :: InTransaction(st, s) && InTransaction(st, u) && s != u ==>
                        st.sweeps[s].open.value.id != st.sweeps[u].open.value.id
  }

  lemma StepKeepsSound(st: State, step: Step, u: Sweeper)
    requires Inv(st) && u in Next(st, step).sweeps
    ensures Sound(Next(st, step), Next(st, step).sweeps[u])
  {
    if u in st.sweeps {
      assert Sound(st, st.sweeps[u]);
      if step.Commit? && Enabled(st, step) && step.s != u && InTransaction(st, u) {
        assert st.sweeps[step.s].open.value.id != st.sweeps[u].open.value.id;
      }
    }
  }

  lemma StepKeepsInv(st: State, step: Step)
    requires Inv(st)
    ensures Inv(Next(st, step))
  {
    var st' := Next(st, step);
    hide Sound;
    forall u | u in st'.sweeps ensures Sound(st', st'.sweeps[u]) {
      StepKeepsSound(st, step, u);
    }
    StepKeepsMarks(st, step);
    StepKeepsLocks(st, step);
    hide Next;
    assert Inv(st');
  }

  lemma StepKeepsMarks(st: State, step: Step)
    requires Inv(st)
    ensures forall id :: id in Next(st, step).rows ==> Next(st, step).rows[id].updatedAt <= Next(st, step).now
  {
    if step.Commit? && Enabled(st, step) {
      assert Sound(st, st.sweeps[step.s]);
    }
    hide Sound;
  }

  lemma StepKeepsLocks(st: State, step: Step)
    requires Inv(st)
    ensures var st' := Next(st, step);
            forall s, u :: InTransaction(st', s) && InTransaction(st', u) && s != u ==>
                             st'.sweeps[s].open.value.id != st'.sweeps[u].open.value.id
  {
    hide Sound, Stuck;
  }

  lemma {:induction false} RunKeepsInv(run: seq<Step>)
    ensures Inv(After(run))
  {
    if run != [] {
      RunKeepsInv(run[..|run| - 1]);
      StepKeepsInv(After(run[..|run| - 1]), run[|run| - 1]);
    }
  }

  // ---------------------------------------------------------------- audits and moves

  /** Step `k` is a step of a sweep, and it changed the row from POSTING to ERROR. */
  predicate Moves(run: seq<Step>, k: nat, id: TxnId)
    requires k < |run|
  {
    Moved(After(run[..k]), run[k], id)
  }

  predicate Moved(st: State, step: Step, id: TxnId) {
    && !step.Write?
    && id in st.rows && st.rows[id].status == POSTING
    && id in Next(st, step).rows && Next(st, step).rows[id].status == ERROR
  }

  function MoveCount(run: seq<Step>, id: TxnId): nat {
    if run == [] then 0
    else MoveCount(run[..|run| - 1], id) + if Moves(run, |run| - 1, id) then 1 else 0
  }

  /** One audit record for every row a sweep was seen to move from POSTING to ERROR, and no other,
      under any interleaving of sweepers and writers, with failing audit writes and crashes. */
  lemma {:induction false} AuditsMatchMoves(run: seq<Step>, id: TxnId)
    ensures multiset(After(run).audits)[id] == MoveCount(run, id)
  {
    if run != [] {
      var init := run[..|run| - 1];
      AuditsMatchMoves(init, id);
      RunKeepsInv(init);
      StepAudits(After(init), run[|run| - 1], id);
    }
  }

  lemma StepAudits(st: State, step: Step, id: TxnId)
    requires Inv(st)
    ensures multiset(Next(st, step).audits)[id] == multiset(st.audits)[id] + if Moved(st, step, id) then 1 else 0
  {
    if step.Commit? && Enabled(st, step) {
      assert Sound(st, st.sweeps[step.s]);
    }
  }

  /** Whatever a sweep does to a row, it finds it stuck at that very moment: it never overwrites a
      row that has left POSTING or was touched at or after the cutoff. */
  lemma NeverOverwrites(run: seq<Step>, k: nat, id: TxnId)
    requires k < |run| && !run[k].Write?
    requires id in After(run[..k]).rows || id in After(run[..k + 1]).rows
    ensures id in After(run[..k]).rows && id in After(run[..k + 1]).rows
    ensures After(run[..k]).rows[id] != After(run[..k + 1]).rows[id] ==>
              && Moves(run, k, id) && run[k].Commit? && run[k].s in After(run[..k]).sweeps
              && Stuck(After(run[..k]).rows, id, After(run[..k]).sweeps[run[k].s].cutoff)
  {
    StepAt(run, k);
    RunKeepsInv(run[..k]);
  }

  lemma MovesByCommit(run: seq<Step>, k: nat, id: TxnId)
    requires k < |run| && Moves(run, k, id)
    ensures run[k].Commit? && run[k].s in After(run[..k]).sweeps
    ensures Stuck(After(run[..k]).rows, id, After(run[..k]).sweeps[run[k].s].cutoff)
  {
    StepAt(run, k);
    NeverOverwrites(run, k, id);
  }

  /** The clock does not run backwards. */
  lemma {:induction false} ClockIsMonotone(run: seq<Step>, i: nat, j: nat)
    requires i <= j <= |run|
    ensures After(run[..i]).now <= After(run[..j]).now
    decreases j
  {
    if i < j {
      StepAt(run, j - 1);
      ClockIsMonotone(run, i, j - 1);
    }
  }

  /** Step `m` is a write of another writer that was carried out. */
  predicate Writes(run: seq<Step>, m: nat, id: TxnId)
    requires m < |run|
  {
    run[m].Write? && run[m].id == id && Enabled(After(run[..m]), run[m])
  }

  /** A row stays marked with the time of its last write, or a later one. */
  lemma {:induction false} WritesAreRemembered(run: seq<Step>, m: nat, k: nat)
    requires m < k <= |run| && run[m].Write? && Writes(run, m, run[m].id)
    ensures run[m].id in After(run[..k]).rows
    ensures After(run[..m]).now <= After(run[..k]).rows[run[m].id].updatedAt
    decreases k
  {
    StepAt(run, k - 1);
    if m < k - 1 {
      WritesAreRemembered(run, m, k - 1);
      RunKeepsInv(run[..k - 1]);
      MarksGrow(After(run[..k - 1]), run[k - 1], run[m].id);
    }
  }

  lemma MarksGrow(st: State, step: Step, id: TxnId)
    requires Inv(st) && id in st.rows
    ensures id in Next(st, step).rows && st.rows[id].updatedAt <= Next(st, step).rows[id].updatedAt
  {
  }

  /** Every other writer's write to a moved row happened strictly before the cutoff of the sweep, although
      the row was checked some steps before the move. */
  lemma MovesOnlyUntouched(run: seq<Step>, k: nat, id: TxnId)
    requires k < |run| && Moves(run, k, id)
    ensures run[k].Commit? && run[k].s in After(run[..k]).sweeps
    ensures forall m :: 0 <= m < k && Writes(run, m, id) ==>
              After(run[..m]).now < After(run[..k]).sweeps[run[k].s].cutoff
  {
    MovesByCommit(run, k, id);
    forall m | 0 <= m < k && Writes(run, m, id)
      ensures After(run[..m]).now < After(run[..k]).sweeps[run[k].s].cutoff
    {
      WritesAreRemembered(run, m, k);
    }
  }

  /** A row that left POSTING is not swept until another writer puts it back. */
  lemma {:induction false} StaysOut(run: seq<Step>, i: nat, j: nat, id: TxnId)
    requires i <= j <= |run|
    requires id in After(run[..i]).rows && After(run[..i]).rows[id].status != POSTING
    requires forall m :: i <= m < j ==> !(Writes(run, m, id) && run[m].status == POSTING)
    ensures id in After(run[..j]).rows && After(run[..j]).rows[id].status != POSTING
    decreases j
  {
    if i < j {
      StepAt(run, j - 1);
      StaysOut(run, i, j - 1, id);
      RunKeepsInv(run[..j - 1]);
      StepStaysOut(After(run[..j - 1]), run[j - 1], id);
      assert !(Writes(run, j - 1, id) && run[j - 1].status == POSTING);
    }
  }

  lemma StepStaysOut(st: State, step: Step, id: TxnId)
    requires Inv(st) && id in st.rows && st.rows[id].status != POSTING
    ensures id in Next(st, step).rows
    ensures Next(st, step).rows[id].status == POSTING ==> Enabled(st, step) && step == Write(id, POSTING)
  {
  }

  /** Two sweeps of the same transaction: between them another writer posted it again, and it was
      left alone for more than five minutes after that. */
  lemma OneAuditPerStuckPost(run: seq<Step>, i: nat, j: nat, id: TxnId) returns (m: nat)
    requires i < j < |run| && Moves(run, i, id) && Moves(run, j, id)
    ensures i < m < j && Writes(run, m, id) && run[m].status == POSTING
    ensures After(run[..j]).now > After(run[..m]).now + 5 * 60 * 1_000
    ensures After(run[..j]).now > After(run[..i]).now + 5 * 60 * 1_000
  {
    StepAt(run, i);
    if forall n :: i < n < j ==> !(Writes(run, n, id) && run[n].status == POSTING) {
      StaysOut(run, i + 1, j, id);
    }
    var n :| i < n < j && Writes(run, n, id) && run[n].status == POSTING;
    m := n;
    MovesOnlyUntouched(run, j, id);
    RunKeepsInv(run[..j]);
    ClockIsMonotone(run, i, m);
  }
}
