/** When each mutation is accepted, and why it is refused when it is not, said of the rows themselves and
    not of the snapshot and the order of checks that decide it. */
module Verdicts {
  import opened Options
  import opened Tokens
  import opened Lifecycle

  /** The destination takes mutations at `now`. */
  predicate Open(s: Store, now: Time)
  {
    s.dest.Some? && s.dest.value.enabled && ReadableDestination(s.dest.value, now)
  }

  // ---------------------------------------------------------------- acceptance

  lemma CreateIsAccepted(s: Store, op: Op)
    requires op.CreateInitial? || op.CreateRotation?
    requires Inv(s) && ValidInput(op) && Open(s, op.now) && Premise(s, op)
    ensures Decide(s, op).Accept?
  {
    ShapeOf(s);
    LoadedRows(s, op.now);
    StoredCandidate(op.c);
    if op.CreateRotation? {
      PickIs(s.rows, op.expected);
    }
  }

  lemma ActivationIsAccepted(s: Store, op: Op)
    requires op.ActivateInitial? || op.ActivateRotation?
    requires Inv(s) && ValidInput(op) && Open(s, op.now) && Premise(s, op)
    ensures Decide(s, op).Accept?
  {
    ShapeOf(s);
    LoadedRows(s, op.now);
    PickIs(s.rows, op.id);
    if op.ActivateRotation? {
      PickIs(s.rows, op.oldId);
    }
  }

  lemma AbortIsAccepted(s: Store, op: Op)
    requires op.Abort? && Inv(s) && ValidInput(op) && Open(s, op.now) && Premise(s, op)
    ensures Decide(s, op).Accept?
  {
    ShapeOf(s);
    LoadedRows(s, op.now);
    PickIs(s.rows, op.id);
  }

  lemma EndIsAccepted(s: Store, op: Op)
    requires op.Rollback? || op.Finalize?
    requires Inv(s) && ValidInput(op) && Open(s, op.now) && Premise(s, op)
    ensures Decide(s, op).Accept?
  {
    ShapeOf(s);
    LoadedRows(s, op.now);
    PickIs(s.rows, op.id);
    PickIs(s.rows, op.oldId);
  }

  /** A mutation is accepted exactly if its input is well formed, the destination takes mutations at its
      clock reading, and the rows meet its premise. */
  lemma AcceptedExactly(s: Store, op: Op)
    requires Inv(s) && !op.Administer?
    ensures Decide(s, op).Accept? <==> ValidInput(op) && Open(s, op.now) && Premise(s, op)
  {
    if Decide(s, op).Accept? {
      AcceptedMeans(s, op);
    } else if ValidInput(op) && Open(s, op.now) && Premise(s, op) {
      match op
      case CreateInitial(_, _) => CreateIsAccepted(s, op);
      case CreateRotation(_, _, _) => CreateIsAccepted(s, op);
      case ActivateInitial(_, _) => ActivationIsAccepted(s, op);
      case ActivateRotation(_, _, _, _) => ActivationIsAccepted(s, op);
      case Abort(_, _) => AbortIsAccepted(s, op);
      case Rollback(_, _, _) => EndIsAccepted(s, op);
      case Finalize(_, _, _, _) => EndIsAccepted(s, op);
    }
  }

  /** A staged row past its cleanup deadline can still be aborted, so that it never blocks its destination. */
  lemma OverdueStagedRowCanBeAborted(s: Store, id: RecordId, now: Time)
    requires Inv(s) && Open(s, now) && now != 0 && HasRow(s.rows, id, Staged) && s.rows[id].stateChangedAt <= now
    requires forall k :: HasRow(s.rows, k, Active) ==> Current(s.rows[k], now)
    ensures Decide(s, Abort(id, now)).Accept?
  {
    ShapeOf(s);
    PickIs(s.rows, id);
    if Pick(s.rows, Active).Some? {
      assert HasRow(s.rows, Pick(s.rows, Active).value.id, Active);
    }
    AcceptedExactly(s, Abort(id, now));
  }

  // ---------------------------------------------------------------- refusal

  predicate RowInOrder(t: Token, now: Time)
  {
    match t.state
    case Staged => Prepared(t, now)
    case Active => Current(t, now)
    case Retiring => t.stateChangedAt <= now < t.expiresAt && now < t.retirementDeadline
    case Revoked => true
  }

  ghost predicate AllInOrder(s: Store, now: Time)
  {
    s.dest.Some? && s.dest.value.enabled && forall id :: id in s.rows ==> RowInOrder(s.rows[id], now)
  }

  /** The live rows are those that the mutation is for. */
  ghost predicate Names(rows: Rows, op: Op)
  {
    match op
    case CreateInitial(_, _) => Shape(rows, None, None, None)
    case CreateRotation(_, expected, _) => Shape(rows, None, Some(expected), None)
    case ActivateInitial(id, _) => Shape(rows, Some(id), None, None)
    case ActivateRotation(id, oldId, _, _) => Shape(rows, Some(id), Some(oldId), None)
    case Abort(id, _) => HasRow(rows, id, Staged) && forall k :: !HasRow(rows, k, Retiring)
    case Rollback(id, oldId, _) => Shape(rows, None, Some(id), Some(oldId))
    case Finalize(id, oldId, _, _) => Shape(rows, None, Some(id), Some(oldId))
    case Administer(_) => true
  }

  /** Staleness of the snapshot is staleness of some row. */
  lemma StatusTellsOrder(s: Store, now: Time)
    requires Inv(s) && Load(s, now).Loaded?
    ensures Load(s, now).snapshot.status == ReconciliationRequired <==> !AllInOrder(s, now)
  {
    LoadedRows(s, now);
    forall id | id in s.rows && s.rows[id].state != Revoked
      ensures Pick(s.rows, s.rows[id].state) == Some(s.rows[id])
    {
      PickIs(s.rows, id);
    }
  }

  lemma NoCreation(s: Store, op: Op)
    requires op.CreateInitial? || op.CreateRotation?
    requires Inv(s) && ValidInput(op) && s.dest.Some? && ReadableDestination(s.dest.value, op.now)
    requires Decide(s, op).Reject?
    ensures Decide(s, op).kind ==
      if !AllInOrder(s, op.now) then Reconciliation else if Names(s.rows, op) then Unavailable else Conflict
  {
    ShapeOf(s);
    LoadedRows(s, op.now);
    StatusTellsOrder(s, op.now);
  }

  lemma NoActivation(s: Store, op: Op)
    requires op.ActivateInitial? || op.ActivateRotation?
    requires Inv(s) && ValidInput(op) && s.dest.Some? && ReadableDestination(s.dest.value, op.now)
    requires Decide(s, op).Reject?
    ensures Decide(s, op).kind == if !AllInOrder(s, op.now) then Reconciliation else Conflict
    ensures op.ActivateInitial? && AllInOrder(s, op.now) ==> !Names(s.rows, op)
  {
    ShapeOf(s);
    LoadedRows(s, op.now);
    StatusTellsOrder(s, op.now);
  }

  lemma NoAbort(s: Store, op: Op)
    requires op.Abort?
    requires Inv(s) && ValidInput(op) && s.dest.Some? && ReadableDestination(s.dest.value, op.now)
    requires Decide(s, op).Reject?
    ensures Decide(s, op).kind == if Names(s.rows, op) then Reconciliation else Conflict
  {
    ShapeOf(s);
    LoadedRows(s, op.now);
  }

  /** The pair can still be moved at `now`. */
  predicate PairInOrder(s: Store, op: Op)
    requires (op.Rollback? || op.Finalize?) && op.id in s.rows && op.oldId in s.rows
  {
    && s.dest.Some? && s.dest.value.enabled && Current(s.rows[op.id], op.now)
    && s.rows[op.oldId].stateChangedAt <= op.now && (op.Rollback? ==> op.now < s.rows[op.oldId].expiresAt)
  }

  lemma NoEnd(s: Store, op: Op)
    requires op.Rollback? || op.Finalize?
    requires Inv(s) && ValidInput(op) && s.dest.Some? && ReadableDestination(s.dest.value, op.now)
    requires Decide(s, op).Reject?
    ensures !Names(s.rows, op) ==> Decide(s, op).kind == Conflict
    ensures Names(s.rows, op) ==>
      && op.id in s.rows && op.oldId in s.rows
      && Decide(s, op).kind == if PairInOrder(s, op) then Conflict else Reconciliation
  {
    ShapeOf(s);
    LoadedRows(s, op.now);
  }

  /** The kind of every refusal.  A malformed input is invalid, a missing destination a conflict and an
      unreadable one in need of reconciliation.  Creation and activation need reconciliation if anything is
      out of order, conflict with other live rows, and are unavailable if the new row cannot be stored.
      Abort, rollback and finalization conflict with other live rows first; then an order that does not allow
      them needs reconciliation, and what is left is the deadline of the pair. */
  lemma RefusedFor(s: Store, op: Op)
    requires Inv(s) && !op.Administer? && Decide(s, op).Reject?
    ensures !ValidInput(op) ==> Decide(s, op).kind == Invalid
    ensures ValidInput(op) && s.dest.None? ==> Decide(s, op).kind == Conflict
    ensures ValidInput(op) && s.dest.Some? && !ReadableDestination(s.dest.value, op.now) ==>
      Decide(s, op).kind == Reconciliation
    ensures ValidInput(op) && s.dest.Some? && ReadableDestination(s.dest.value, op.now) ==>
      match op
      case Abort(_, _) => Decide(s, op).kind == if Names(s.rows, op) then Reconciliation else Conflict
      case Rollback(id, oldId, _) =>
        && (Names(s.rows, op) ==> id in s.rows && oldId in s.rows)
        && Decide(s, op).kind == if Names(s.rows, op) && !PairInOrder(s, op) then Reconciliation else Conflict
      case Finalize(id, oldId, _, _) =>
        && (Names(s.rows, op) ==> id in s.rows && oldId in s.rows)
        && Decide(s, op).kind == if Names(s.rows, op) && !PairInOrder(s, op) then Reconciliation else Conflict
      case _ =>
        Decide(s, op).kind ==
          if !AllInOrder(s, op.now) then Reconciliation
          else if !Names(s.rows, op) || op.ActivateRotation? then Conflict
          else Unavailable
  {
    if ValidInput(op) && s.dest.Some? && ReadableDestination(s.dest.value, op.now) {
      match op
      case Abort(_, _) => NoAbort(s, op);
      case Rollback(_, _, _) => NoEnd(s, op);
      case Finalize(_, _, _, _) => NoEnd(s, op);
      case CreateInitial(_, _) => NoCreation(s, op);
      case CreateRotation(_, _, _) => NoCreation(s, op);
      case _ => NoActivation(s, op);
    }
  }
}
