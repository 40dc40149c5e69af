/** Observations are true of the run behind the rows.  A rollback erases the deadline it was
    measured against, so the proof carries the steps of every attempt along with the rows. */
module History {
  import opened Options
  import opened Tokens
  import opened L = Lifecycle
  import opened Rotation

  /** A run in which every step was accepted.  A rejected step changes nothing, so every table
      that can be reached at all is reached by such a run. */
  ghost predicate Committed(log: seq<Op>)
  {
    log == [] || (Committed(log[..|log| - 1]) && Decide(Run(log[..|log| - 1]), log[|log| - 1]).Accept?)
  }

  /** Where in the run an attempt was created, activated and ended. */
  datatype Attempt = Attempt(oldId: RecordId, created: nat, activated: Option<nat>, ended: Option<nat>)

  /** The attempt whose course `op` continues. */
  predicate Continues(op: Op, id: RecordId)
  {
    && (op.ActivateRotation? || op.Abort? || op.Rollback? || op.Finalize?)
    && op.id == id
  }

  function Continued(a: Attempt, op: Op, k: nat): Attempt
  {
    if op.ActivateRotation? then a.(activated := Some(k)) else a.(ended := Some(k))
  }

  function Attempts(log: seq<Op>): map<RecordId, Attempt>
  {
    if log == [] then map[]
    else
      var n := |log| - 1;
      var at, op := Attempts(log[..n]), log[n];
      if op.CreateRotation? then at[op.c.id := Attempt(op.expected, n, None, None)]
      else map id | id in at :: if Continues(op, id) then Continued(at[id], op, n) else at[id]
  }

  predicate IsCreate(log: seq<Op>, k: nat, id: RecordId, oldId: RecordId)
  {
    k < |log| && log[k].CreateRotation? && log[k].c.id == id && log[k].expected == oldId
  }

  predicate IsActivate(log: seq<Op>, k: nat, id: RecordId, oldId: RecordId)
  {
    k < |log| && log[k].ActivateRotation? && log[k].id == id && log[k].oldId == oldId
  }

  predicate IsAbort(log: seq<Op>, k: nat, id: RecordId)
  {
    k < |log| && log[k].Abort? && log[k].id == id
  }

  predicate IsRollback(log: seq<Op>, k: nat, id: RecordId, oldId: RecordId)
  {
    k < |log| && log[k].Rollback? && log[k].id == id && log[k].oldId == oldId
  }

  predicate IsFinalize(log: seq<Op>, k: nat, id: RecordId, oldId: RecordId)
  {
    k < |log| && log[k].Finalize? && log[k].id == id && log[k].oldId == oldId
  }

  /** The steps of one attempt account for both of its rows. */
  predicate Explained(log: seq<Op>, rows: Rows, id: RecordId, a: Attempt)
  {
    && id in rows && a.oldId in rows && id != a.oldId
    && IsCreate(log, a.created, id, a.oldId)
    && (a.activated.Some? ==>
          && a.created < a.activated.value
          && IsActivate(log, a.activated.value, id, a.oldId)
          && rows[id].activatedAt == log[a.activated.value].now)
    && (a.activated.None? && a.ended.None? ==> rows[id].state == Staged && rows[a.oldId].state == Active)
    && (a.activated.Some? && a.ended.None? ==>
          && rows[id].state == Active && rows[a.oldId].state == Retiring
          && rows[a.oldId].retirementDeadline == log[a.activated.value].deadline)
    && (a.activated.None? && a.ended.Some? ==>
          && a.created < a.ended.value
          && IsAbort(log, a.ended.value, id)
          && rows[id].state == Revoked && rows[id].activatedAt == 0 && rows[id].revokedAt == log[a.ended.value].now)
    && (a.activated.Some? && a.ended.Some? ==>
          RolledBackBy(log, rows, id, a) || FinalizedBy(log, rows, id, a))
  }

  predicate RolledBackBy(log: seq<Op>, rows: Rows, id: RecordId, a: Attempt)
    requires id in rows && a.activated.Some? && a.ended.Some? && IsActivate(log, a.activated.value, id, a.oldId)
  {
    && a.activated.value < a.ended.value
    && IsRollback(log, a.ended.value, id, a.oldId)
    && log[a.activated.value].now <= log[a.ended.value].now < log[a.activated.value].deadline
    && rows[id].state == Revoked && rows[id].revokedAt == log[a.ended.value].now
  }

  predicate FinalizedBy(log: seq<Op>, rows: Rows, id: RecordId, a: Attempt)
    requires id in rows && a.oldId in rows && a.activated.Some? && a.ended.Some?
    requires IsActivate(log, a.activated.value, id, a.oldId)
  {
    && a.activated.value < a.ended.value
    && IsFinalize(log, a.ended.value, id, a.oldId)
    && rows[a.oldId].state == Revoked && rows[a.oldId].revokedAt == log[a.ended.value].now
    && rows[a.oldId].retirementDeadline == log[a.activated.value].deadline
    && rows[id].state != Staged && (rows[id].state == Revoked ==> rows[id].retirementStartedAt != 0)
  }

  /** Every live row that takes part in a rotation belongs to the attempt that is under way. */
  ghost predicate UnderWay(rows: Rows, at: map<RecordId, Attempt>)
  {
    var staged, active, retiring := Pick(rows, Staged), Pick(rows, Active), Pick(rows, Retiring);
    && (staged.Some? && active.Some? ==>
          && staged.value.id in at
          && at[staged.value.id].oldId == active.value.id
          && at[staged.value.id].activated.None? && at[staged.value.id].ended.None?)
    && (active.Some? && retiring.Some? ==>
          && active.value.id in at
          && at[active.value.id].oldId == retiring.value.id
          && at[active.value.id].activated.Some? && at[active.value.id].ended.None?)
  }

  ghost predicate Accounted(log: seq<Op>, rows: Rows, at: map<RecordId, Attempt>)
  {
    && (forall id :: id in at ==> Explained(log, rows, id, at[id]))
    && (forall k: nat :: k < |log| && log[k].CreateRotation? ==> log[k].c.id in at && at[log[k].c.id].created == k)
    && UnderWay(rows, at)
  }

  /** An attempt stays explained by a longer run while it is under way if the step leaves both
      of its rows alone, and once it has ended under far weaker conditions. */
  lemma StillExplained(log: seq<Op>, op: Op, rows: Rows, rows': Rows, id: RecordId, a: Attempt)
    requires Explained(log, rows, id, a) && Spares(rows, rows', id, a)
    ensures Explained(log + [op], rows', id, a)
  {
  }

  /** The step leaves an attempt under way alone, and does not undo one that has ended. */
  predicate Spares(rows: Rows, rows': Rows, id: RecordId, a: Attempt)
    requires id in rows && a.oldId in rows
  {
    && id in rows' && a.oldId in rows'
    && (a.ended.None? ==> rows'[id] == rows[id] && rows'[a.oldId] == rows[a.oldId])
    && (rows[id].state == Revoked ==> rows'[id] == rows[id])
    && (rows[a.oldId].state == Revoked ==> rows'[a.oldId] == rows[a.oldId])
    && (rows[id].state != Staged ==> rows'[id].state != Staged && rows'[id].activatedAt == rows[id].activatedAt)
    && (rows[id].state != Revoked && rows'[id].state == Revoked ==> rows'[id].retirementStartedAt != 0)
  }

  lemma OthersSpared(s: Store, op: Op, log: seq<Op>, id: RecordId, a: Attempt)
    requires op.ActivateRotation? || op.Rollback? || op.Finalize?
    requires Inv(s) && Explained(log, s.rows, id, a) && !Continues(op, id)
    requires Premise(s, op) && Touched(op) <= s.rows.Keys
    ensures Spares(s.rows, Effect(op, s).rows, id, a)
  {
    ShapeOf(s);
    assert HasRow(s.rows, id, s.rows[id].state) && HasRow(s.rows, a.oldId, s.rows[a.oldId].state);
  }

  lemma BystandersSpared(s: Store, op: Op, log: seq<Op>, id: RecordId, a: Attempt)
    requires !op.ActivateRotation? && !op.Rollback? && !op.Finalize?
    requires Inv(s) && Explained(log, s.rows, id, a) && !Continues(op, id)
    requires Premise(s, op) && Touched(op) <= s.rows.Keys
    ensures Spares(s.rows, Effect(op, s).rows, id, a)
  {
    ShapeOf(s);
    assert HasRow(s.rows, id, s.rows[id].state) && HasRow(s.rows, a.oldId, s.rows[a.oldId].state);
  }

  lemma OtherAttempts(log: seq<Op>, s: Store, at: map<RecordId, Attempt>, op: Op, id: RecordId)
    requires Inv(s) && Accounted(log, s.rows, at) && Premise(s, op) && Touched(op) <= s.rows.Keys
    requires id in at && !Continues(op, id)
    ensures Explained(log + [op], Effect(op, s).rows, id, at[id])
  {
    assert Explained(log, s.rows, id, at[id]);
    if op.ActivateRotation? || op.Rollback? || op.Finalize? {
      OthersSpared(s, op, log, id, at[id]);
    } else {
      BystandersSpared(s, op, log, id, at[id]);
    }
    StillExplained(log, op, s.rows, Effect(op, s).rows, id, at[id]);
  }

  lemma NewAttempt(log: seq<Op>, s: Store, at: map<RecordId, Attempt>, op: Op)
    requires op.CreateRotation?
    requires Inv(s) && Accounted(log, s.rows, at) && Premise(s, op)
    ensures op.c.id !in at
    ensures Explained(log + [op], Effect(op, s).rows, op.c.id, Attempt(op.expected, |log|, None, None))
  {
  }

  lemma ContinuedAttempt(log: seq<Op>, s: Store, at: map<RecordId, Attempt>, op: Op, id: RecordId)
    requires Inv(s) && Accounted(log, s.rows, at) && Premise(s, op) && Touched(op) <= s.rows.Keys
    requires id in at && Continues(op, id)
    ensures Explained(log + [op], Effect(op, s).rows, id, Continued(at[id], op, |log|))
  {
    ShapeOf(s);
    assert Explained(log, s.rows, id, at[id]);
  }

  lemma AbortEndsIt(s: Store, op: Op)
    requires op.Abort? && Inv(s) && Premise(s, op) && Touched(op) <= s.rows.Keys
    ensures Pick(Effect(op, s).rows, Retiring).None? && Pick(Effect(op, s).rows, Staged).None?
  {
    ShapeOf(s);
    ShapeIsCoherent(Effect(op, s).rows, None, IdOf(Pick(s.rows, Active)), None);
  }

  /** All other steps leave no rotation under way. */
  lemma NothingUnderWay(s: Store, op: Op)
    requires Inv(s) && Premise(s, op) && Touched(op) <= s.rows.Keys
    requires !op.CreateRotation? && !op.ActivateRotation? && !op.Administer?
    ensures var rows := Effect(op, s).rows;
            Pick(rows, Retiring).None? && (Pick(rows, Staged).None? || Pick(rows, Active).None?)
  {
    var rows := Effect(op, s).rows;
    match op {
      case CreateInitial(c, _) => ShapeIsCoherent(rows, Some(c.id), None, None);
      case ActivateInitial(id, _) => ShapeIsCoherent(rows, None, Some(id), None);
      case Abort(_, _) => AbortEndsIt(s, op);
      case Rollback(_, oldId, _) => ShapeIsCoherent(rows, None, Some(oldId), None);
      case Finalize(id, _, _, _) => ShapeIsCoherent(rows, None, Some(id), None);
    }
  }

  lemma CreatedIsUnderWay(log: seq<Op>, s: Store, op: Op)
    requires op.CreateRotation?
    requires Inv(s) && Premise(s, op)
    ensures UnderWay(Effect(op, s).rows, Attempts(log + [op]))
  {
    assert (log + [op])[..|log|] == log;
    ShapeIsCoherent(Effect(op, s).rows, Some(op.c.id), Some(op.expected), None);
  }

  lemma ActivatedIsUnderWay(log: seq<Op>, s: Store, op: Op)
    requires op.ActivateRotation?
    requires Inv(s) && Premise(s, op) && Touched(op) <= s.rows.Keys
    requires op.id in Attempts(log) && Attempts(log)[op.id].oldId == op.oldId && Attempts(log)[op.id].ended.None?
    ensures UnderWay(Effect(op, s).rows, Attempts(log + [op]))
  {
    assert (log + [op])[..|log|] == log;
    ShapeIsCoherent(Effect(op, s).rows, None, Some(op.id), Some(op.oldId));
  }

  lemma UnderWayAfter(log: seq<Op>, s: Store, op: Op)
    requires Inv(s) && UnderWay(s.rows, Attempts(log)) && Premise(s, op) && Touched(op) <= s.rows.Keys
    ensures UnderWay(Effect(op, s).rows, Attempts(log + [op]))
  {
    if op.CreateRotation? {
      CreatedIsUnderWay(log, s, op);
    } else if op.ActivateRotation? {
      PickIs(s.rows, op.id);
      PickIs(s.rows, op.oldId);
      ActivatedIsUnderWay(log, s, op);
    } else if op.Administer? {
      assert (log + [op])[..|log|] == log;
    } else {
      NothingUnderWay(s, op);
    }
  }

  lemma StepStaysAccounted(log: seq<Op>, s: Store, op: Op)
    requires Inv(s) && Accounted(log, s.rows, Attempts(log)) && Premise(s, op) && Touched(op) <= s.rows.Keys
    ensures Accounted(log + [op], Effect(op, s).rows, Attempts(log + [op]))
  {
    var longer := log + [op];
    var at' := Attempts(longer);
    forall id | id in at'
      ensures Explained(longer, Effect(op, s).rows, id, at'[id])
    {
      StaysExplained(log, s, op, id);
    }
    CreatesAreListed(log, s, op);
    UnderWayAfter(log, s, op);
  }

  lemma CreatesAreListed(log: seq<Op>, s: Store, op: Op)
    requires Inv(s) && Accounted(log, s.rows, Attempts(log)) && Premise(s, op)
    ensures var longer := log + [op];
            forall k: nat :: k < |longer| && longer[k].CreateRotation? ==>
              longer[k].c.id in Attempts(longer) && Attempts(longer)[longer[k].c.id].created == k
  {
    assert (log + [op])[..|log|] == log;
    if op.CreateRotation? {
      NewAttempt(log, s, Attempts(log), op);
    }
  }

  lemma StaysExplained(log: seq<Op>, s: Store, op: Op, id: RecordId)
    requires Inv(s) && Accounted(log, s.rows, Attempts(log)) && Premise(s, op) && Touched(op) <= s.rows.Keys
    requires id in Attempts(log + [op])
    ensures Explained(log + [op], Effect(op, s).rows, id, Attempts(log + [op])[id])
  {
    var at := Attempts(log);
    assert (log + [op])[..|log|] == log;
    if op.CreateRotation? && op.c.id == id {
      NewAttempt(log, s, at, op);
    } else if Continues(op, id) {
      ContinuedAttempt(log, s, at, op, id);
    } else {
      OtherAttempts(log, s, at, op, id);
    }
  }

  lemma NothingToAccount()
    ensures Accounted([], EMPTY.rows, Attempts([]))
  {
    ShapeIsCoherent(EMPTY.rows, None, None, None);
  }

  lemma AcceptedStaysAccounted(log: seq<Op>, s: Store, op: Op)
    requires Inv(s) && Accounted(log, s.rows, Attempts(log)) && Decide(s, op).Accept?
    ensures Accounted(log + [op], Apply(s, op).rows, Attempts(log + [op]))
  {
    AcceptedMeans(s, op);
    StepStaysAccounted(log, s, op);
  }

  /** Every step of a run is accounted for by the rows it leaves behind. */
  lemma {:induction false} EveryRunIsAccounted(log: seq<Op>)
    requires Committed(log)
    ensures Inv(Run(log)) && Accounted(log, Run(log).rows, Attempts(log))
  {
    EveryRunKeepsInv(log);
    if log == [] {
      NothingToAccount();
    } else {
      var n := |log| - 1;
      EveryRunIsAccounted(log[..n]);
      AcceptedStaysAccounted(log[..n], Run(log[..n]), log[n]);
      assert log == log[..n] + [log[n]];
    }
  }

  /** The table that step `j` of a run found, and the premise it met. */
  lemma {:induction false} AtStep(log: seq<Op>, j: nat)
    requires Committed(log) && j < |log|
    ensures Inv(Run(log[..j])) && Accounted(log[..j], Run(log[..j]).rows, Attempts(log[..j]))
    ensures Premise(Run(log[..j]), log[j])
  {
    var n := |log| - 1;
    if j < n {
      AtStep(log[..n], j);
      assert log[..n][..j] == log[..j];
    } else {
      EveryRunIsAccounted(log[..n]);
      AcceptedMeans(Run(log[..n]), log[n]);
    }
  }

  // ---------------------------------------------------------------- observations are true

  /** The handle names the record a rotation created and the active record it was created against. */
  ghost predicate Issued(log: seq<Op>, id: RecordId, oldId: RecordId)
  {
    exists k: nat :: IsCreate(log, k, id, oldId)
  }

  /** The new record was aborted at `when`, while it was staged beside the active old record. */
  ghost predicate AbortedWhileStaged(log: seq<Op>, id: RecordId, oldId: RecordId, when: Time)
  {
    exists j: nat ::
      && IsAbort(log, j, id) && log[j].now == when
      && HasRow(Run(log[..j]).rows, id, Staged)
      && HasRow(Run(log[..j]).rows, oldId, Active)
  }

  /** The new record was rolled back against the old one at `when`, strictly before the deadline that
      its activation had recorded on the old row, and which the rollback erased. */
  ghost predicate RolledBackInTime(log: seq<Op>, id: RecordId, oldId: RecordId, when: Time)
  {
    exists i: nat, j: nat ::
      && i < j && IsActivate(log, i, id, oldId) && IsRollback(log, j, id, oldId)
      && HasRow(Run(log[..j]).rows, oldId, Retiring)
      && Run(log[..j]).rows[oldId].retirementDeadline == log[i].deadline
      && log[j].now == when < log[i].deadline
  }

  /** The pair was finalized at `when`, before its deadline or not. */
  ghost predicate FinalizedAt(log: seq<Op>, id: RecordId, oldId: RecordId, when: Time, early: bool)
  {
    exists i: nat, j: nat ::
      && i < j && IsActivate(log, i, id, oldId) && IsFinalize(log, j, id, oldId)
      && log[j].now == when && (when < log[i].deadline <==> early)
  }

  ghost predicate OverlapOpenNow(log: seq<Op>, id: RecordId, oldId: RecordId, deadline: Time)
  {
    exists i: nat ::
      && IsActivate(log, i, id, oldId) && log[i].deadline == deadline
      && HasRow(Run(log).rows, id, Active) && HasRow(Run(log).rows, oldId, Retiring)
  }

  /** The rows behind an issued handle are those of its attempt. */
  lemma IssuedAttempt(log: seq<Op>, id: RecordId, oldId: RecordId) returns (a: Attempt)
    requires Committed(log) && Issued(log, id, oldId)
    ensures Inv(Run(log)) && Explained(log, Run(log).rows, id, a) && a.oldId == oldId
  {
    EveryRunIsAccounted(log);
    var k: nat :| IsCreate(log, k, id, oldId);
    a := Attempts(log)[id];
  }

  lemma AbortWasWhileStaged(log: seq<Op>, id: RecordId, oldId: RecordId, k: nat, j: nat)
    requires Committed(log) && k < j && IsCreate(log, k, id, oldId) && IsAbort(log, j, id)
    ensures AbortedWhileStaged(log, id, oldId, log[j].now)
  {
    AtStep(log, j);
    assert log[..j][k] == log[k];
    assert Explained(log[..j], Run(log[..j]).rows, id, Attempts(log[..j])[id]);
  }

  lemma RollbackWasInTime(log: seq<Op>, id: RecordId, oldId: RecordId, j: nat)
    requires Committed(log) && IsRollback(log, j, id, oldId)
    ensures RolledBackInTime(log, id, oldId, log[j].now)
  {
    AtStep(log, j);
    var rows, at := Run(log[..j]).rows, Attempts(log[..j]);
    assert HasRow(rows, id, Active) && HasRow(rows, oldId, Retiring);
    PickIs(rows, id);
    PickIs(rows, oldId);
    assert Explained(log[..j], rows, id, at[id]);
    var i := at[id].activated.value;
    assert log[..j][i] == log[i];
    assert IsActivate(log, i, id, oldId);
  }

  /** A "rolled back" answer about an issued handle is true of the run: the new record was aborted
      while staged beside this old record, or it was rolled back against this old record strictly
      before the deadline that the rollback erased, in either case at its recorded revocation time. */
  lemma RolledBackIsTrue(log: seq<Op>, id: RecordId, oldId: RecordId, now: Time)
    requires Committed(log) && Issued(log, id, oldId)
    requires Observe(Run(log), id, oldId, now) == RolledBack
    ensures id in Run(log).rows
    ensures var n := Run(log).rows[id];
            if n.activatedAt == 0 then AbortedWhileStaged(log, id, oldId, n.revokedAt)
            else RolledBackInTime(log, id, oldId, n.revokedAt)
  {
    var a := IssuedAttempt(log, id, oldId);
    var n := Run(log).rows[id];
    assert n.state == Revoked && n.retirementStartedAt == 0;
    if a.activated.None? {
      AbortWasWhileStaged(log, id, oldId, a.created, a.ended.value);
    } else {
      AtStep(log, a.activated.value);
      assert RolledBackBy(log, Run(log).rows, id, a);
      RollbackWasInTime(log, id, oldId, a.ended.value);
    }
  }

  /** A "completed" answer is true: the attempt was activated and later finalized at or after its deadline. */
  lemma CompletedIsTrue(log: seq<Op>, id: RecordId, oldId: RecordId, now: Time)
    requires Committed(log) && Issued(log, id, oldId)
    requires Observe(Run(log), id, oldId, now) == Completed
    ensures oldId in Run(log).rows && FinalizedAt(log, id, oldId, Run(log).rows[oldId].revokedAt, false)
  {
    var a := IssuedAttempt(log, id, oldId);
    assert FinalizedBy(log, Run(log).rows, id, a);
    assert log[a.ended.value].now >= log[a.activated.value].deadline;
  }

  /** An "overlap open" answer is true, and the deadline it reports is the one the activation recorded. */
  lemma OverlapOpenIsTrue(log: seq<Op>, id: RecordId, oldId: RecordId, now: Time)
    requires Committed(log) && Issued(log, id, oldId)
    requires Observe(Run(log), id, oldId, now).OverlapOpen?
    ensures OverlapOpenNow(log, id, oldId, Observe(Run(log), id, oldId, now).deadline)
  {
    var a := IssuedAttempt(log, id, oldId);
    LoadedRows(Run(log), now);
    assert IsActivate(log, a.activated.value, id, oldId);
  }

  /** What an observation says about the run. */
  ghost predicate TrueOf(log: seq<Op>, id: RecordId, oldId: RecordId, o: Observation)
  {
    var rows := Run(log).rows;
    match o
    case OverlapOpen(_, deadline) => OverlapOpenNow(log, id, oldId, deadline)
    case RolledBack =>
      && id in rows
      && if rows[id].activatedAt == 0 then AbortedWhileStaged(log, id, oldId, rows[id].revokedAt)
         else RolledBackInTime(log, id, oldId, rows[id].revokedAt)
    case Completed => oldId in rows && FinalizedAt(log, id, oldId, rows[oldId].revokedAt, false)
    case NotObserved(_) => true
  }

  /** Every answer about an issued handle is true of the run. */
  lemma ObservationIsTrue(log: seq<Op>, id: RecordId, oldId: RecordId, now: Time)
    requires Committed(log) && Issued(log, id, oldId)
    ensures TrueOf(log, id, oldId, Observe(Run(log), id, oldId, now))
  {
    match Observe(Run(log), id, oldId, now)
    case OverlapOpen(_, _) => OverlapOpenIsTrue(log, id, oldId, now);
    case RolledBack => RolledBackIsTrue(log, id, oldId, now);
    case Completed => CompletedIsTrue(log, id, oldId, now);
    case NotObserved(_) =>
  }
}
