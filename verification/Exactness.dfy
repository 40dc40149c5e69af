/** Right after a step of an attempt, and for as long as the surviving active row is unexpired,
    the observation is exactly the phase the step put the attempt in. */
module Exactness {
  import opened Options
  import opened Tokens
  import opened L = Lifecycle
  import opened Rotation

  /** The pair of records that `op` moves through an attempt. */
  ghost predicate StepOf(s: Store, op: Op, id: RecordId, oldId: RecordId)
  {
    match op
    case CreateRotation(c, expected, _) => c.id == id && expected == oldId
    case ActivateRotation(n, o, _, _) => n == id && o == oldId
    case Abort(n, _) => n == id && HasRow(s.rows, oldId, Active)
    case Rollback(n, o, _) => n == id && o == oldId
    case Finalize(n, o, _, _) => n == id && o == oldId
    case _ => false
  }

  /** The active record after `op`. */
  function Survivor(op: Op, id: RecordId, oldId: RecordId): RecordId
  {
    if op.ActivateRotation? || op.Finalize? then id else oldId
  }

  /** What an exact observer says at `at`: a prepared candidate needs reconciliation, an activated
      one is open even past its deadline, an aborted or rolled-back one is rolled back, and a
      finalized one is completed only if it was finalized at or after its deadline. */
  function TruePhase(s: Store, op: Op, at: Time): Observation
    requires op.Finalize? ==> op.oldId in s.rows
  {
    match op
    case ActivateRotation(_, _, _, deadline) => OverlapOpen(at, deadline)
    case Abort(_, _) => RolledBack
    case Rollback(_, _, _) => RolledBack
    case Finalize(_, oldId, _, now) =>
      if now >= s.rows[oldId].retirementDeadline then Completed else NotObserved(RotationConflict)
    case _ => NotObserved(RotationReconciliation)
  }

  lemma AfterCreate(s: Store, op: Op, at: Time)
    requires Inv(s) && op.CreateRotation? && Decide(s, op).Accept?
    requires op.now <= at && op.expected in s.rows && at < s.rows[op.expected].expiresAt
    ensures Observe(Apply(s, op), op.c.id, op.expected, at) == NotObserved(RotationReconciliation)
  {
    AcceptedMeans(s, op);
    StepKeepsInv(s, op);
    ShapeIsCoherent(Effect(op, s).rows, Some(op.c.id), Some(op.expected), None);
  }

  lemma AfterActivate(s: Store, op: Op, at: Time)
    requires Inv(s) && op.ActivateRotation? && Decide(s, op).Accept?
    requires op.now <= at && op.id in s.rows && at < s.rows[op.id].expiresAt
    ensures Observe(Apply(s, op), op.id, op.oldId, at) == OverlapOpen(at, op.deadline)
  {
    AcceptedMeans(s, op);
    StepKeepsInv(s, op);
    ShapeIsCoherent(Effect(op, s).rows, None, Some(op.id), Some(op.oldId));
  }

  lemma AfterAbort(s: Store, op: Op, oldId: RecordId, at: Time)
    requires Inv(s) && op.Abort? && HasRow(s.rows, oldId, Active) && Decide(s, op).Accept?
    requires op.now <= at < s.rows[oldId].expiresAt
    ensures Observe(Apply(s, op), op.id, oldId, at) == RolledBack
  {
    AcceptedMeans(s, op);
    StepKeepsInv(s, op);
    PickIs(s.rows, oldId);
    PickIs(s.rows, op.id);
    ShapeIsCoherent(Effect(op, s).rows, None, Some(oldId), None);
  }

  lemma AfterRollback(s: Store, op: Op, at: Time)
    requires Inv(s) && op.Rollback? && Decide(s, op).Accept?
    requires op.now <= at && op.oldId in s.rows && at < s.rows[op.oldId].expiresAt
    ensures Observe(Apply(s, op), op.id, op.oldId, at) == RolledBack
  {
    AcceptedMeans(s, op);
    StepKeepsInv(s, op);
    PickIs(s.rows, op.id);
    PickIs(s.rows, op.oldId);
    ShapeIsCoherent(Effect(op, s).rows, None, Some(op.oldId), None);
  }

  lemma AfterFinalize(s: Store, op: Op, at: Time)
    requires Inv(s) && op.Finalize? && Decide(s, op).Accept?
    requires op.now <= at && op.id in s.rows && op.oldId in s.rows && at < s.rows[op.id].expiresAt
    ensures Observe(Apply(s, op), op.id, op.oldId, at) == TruePhase(s, op, at)
  {
    AcceptedMeans(s, op);
    StepKeepsInv(s, op);
    PickIs(s.rows, op.id);
    PickIs(s.rows, op.oldId);
    ShapeIsCoherent(Effect(op, s).rows, None, Some(op.id), None);
  }

  lemma ObservationIsExact(s: Store, op: Op, id: RecordId, oldId: RecordId, at: Time)
    requires Inv(s) && Decide(s, op).Accept? && StepOf(s, op, id, oldId)
    requires op.now <= at
    requires Survivor(op, id, oldId) in Apply(s, op).rows && at < Apply(s, op).rows[Survivor(op, id, oldId)].expiresAt
    ensures op.Finalize? ==> oldId in s.rows
    ensures Observe(Apply(s, op), id, oldId, at) == TruePhase(s, op, at)
  {
    AcceptedMeans(s, op);
    match op {
      case CreateRotation(_, _, _) => AfterCreate(s, op, at);
      case ActivateRotation(_, _, _, _) => AfterActivate(s, op, at);
      case Abort(_, _) => AfterAbort(s, op, oldId, at);
      case Rollback(_, _, _) => AfterRollback(s, op, at);
      case Finalize(_, _, _, _) => AfterFinalize(s, op, at);
    }
  }
}
