/** The seven lifecycle mutations of one destination's token rows, each an atomic guarded step
    under the destination lock, and what every run of them keeps. */
module Lifecycle {
  import opened Options
  import opened Tokens

  datatype ErrorKind = Invalid | Conflict | Reconciliation | Unavailable | OutcomeUnknown | Canceled | DeadlineExceeded

  datatype Reason = VerifiedAndDrained | DeadlineElapsed | UnknownReason

  /** A staged token to be inserted, its times not yet cut to stored precision. */
  datatype Candidate = Candidate(id: RecordId, createdAt: Nanos, expiresAt: Nanos, cleanupDeadline: Nanos)

  /** One call at the repository boundary, with the clock reading it was given.  `Administer` is
      any change of the destination row by an operator; it touches no token. */
  datatype Op =
    | CreateInitial(c: Candidate, now: Time)
    | CreateRotation(c: Candidate, expected: RecordId, now: Time)
    | ActivateInitial(id: RecordId, now: Time)
    | ActivateRotation(id: RecordId, oldId: RecordId, now: Time, deadline: Time)
    | Abort(id: RecordId, now: Time)
    | Rollback(id: RecordId, oldId: RecordId, now: Time)
    | Finalize(id: RecordId, oldId: RecordId, reason: Reason, now: Time)
    | Administer(d: Destination)

  datatype Store = Store(dest: Option<Destination>, rows: Rows)

  datatype Verdict = Accept(store: Store) | Reject(kind: ErrorKind)

  datatype Loaded = Loaded(snapshot: Snapshot) | LoadFailed(kind: ErrorKind)

  // ---------------------------------------------------------------- guards

  predicate ValidCandidate(c: Candidate)
  {
    && c.id != 0
    && c.createdAt != 0
    && c.createdAt < c.expiresAt <= c.createdAt + MAX_LIFETIME * 1000
    && c.createdAt < c.cleanupDeadline <= c.createdAt + MAX_CLEANUP * 1000
  }

  /** The CHECK constraints on an inserted row.  Two instants in order may be stored as the same one. */
  predicate Storable(op: Op)
  {
    match op
    case CreateInitial(c, _) => InOrderAsStored(c)
    case CreateRotation(c, _, _) => InOrderAsStored(c)
    case _ => true
  }

  predicate InOrderAsStored(c: Candidate)
  {
    Stored(c.createdAt) < Stored(c.expiresAt) && Stored(c.createdAt) < Stored(c.cleanupDeadline)
  }

  /** A candidate that passes the input guard makes a valid row exactly if its times stay in order as stored. */
  lemma StoredCandidate(c: Candidate)
    requires ValidCandidate(c) && Stored(c.createdAt) != 0
    ensures ValidToken(StagedRow(c)) <==> InOrderAsStored(c)
  {
    assert Stored(c.expiresAt) <= (c.createdAt + MAX_LIFETIME * 1000) / 1000 == Stored(c.createdAt) + MAX_LIFETIME;
    assert Stored(c.cleanupDeadline) <= (c.createdAt + MAX_CLEANUP * 1000) / 1000 == Stored(c.createdAt) + MAX_CLEANUP;
  }

  predicate ValidInput(op: Op)
  {
    match op
    case CreateInitial(c, now) => now != 0 && ValidCandidate(c) && Stored(c.createdAt) == now
    case CreateRotation(c, expected, now) =>
      now != 0 && ValidCandidate(c) && Stored(c.createdAt) == now && expected != 0 && expected != c.id
    case ActivateInitial(id, now) => now != 0 && id != 0
    case ActivateRotation(id, oldId, now, deadline) =>
      now != 0 && id != 0 && oldId != 0 && id != oldId && now < deadline <= now + MAX_OVERLAP
    case Abort(id, now) => now != 0 && id != 0
    case Rollback(id, oldId, now) => now != 0 && id != 0 && oldId != 0 && id != oldId
    case Finalize(id, oldId, reason, now) => now != 0 && id != 0 && oldId != 0 && id != oldId && reason != UnknownReason
    case Administer(_) => true
  }

  predicate ReadableDestination(d: Destination, now: Time)
  {
    d.createdAt != 0 && d.stateChangedAt != 0 && d.createdAt <= d.stateChangedAt <= now
  }

  ghost predicate ReadableRows(rows: Rows)
  {
    forall id :: id in rows && rows[id].state != Revoked ==> ValidToken(rows[id])
  }

  /** The state every decision at `now` is taken on, read in full under the destination lock. */
  ghost function Load(s: Store, now: Time): Loaded
  {
    if s.dest.None? then LoadFailed(Conflict)
    else if !ReadableDestination(s.dest.value, now) || !ReadableRows(s.rows) then LoadFailed(Reconciliation)
    else match SnapshotOf(s.dest.value, s.rows, now)
      case None => LoadFailed(Reconciliation)
      case Some(snapshot) => Loaded(snapshot)
  }

  predicate Holds(t: Option<Token>, id: RecordId)
  {
    t.Some? && t.value.id == id
  }

  /** The exact pair a rollback or finalization names, checked against the locked state. */
  function PairError(
      snap: Snapshot, id: RecordId, oldId: RecordId, now: Time, allowRetiringStale: bool): Option<ErrorKind>
  {
    if !Holds(snap.active, id) || !Holds(snap.retiring, oldId) || snap.staged.Some? then Some(Conflict)
    else
      var active, retiring := snap.active.value, snap.retiring.value;
      if || !snap.enabled || now >= active.expiresAt
         || active.activatedAt > now || active.stateChangedAt > now
         || retiring.activatedAt > now || retiring.retirementStartedAt > now || retiring.stateChangedAt > now
         || !Linked(active, retiring)
         || retiring.retirementDeadline == 0
      then Some(Reconciliation)
      else if !allowRetiringStale && now >= retiring.expiresAt then Some(Reconciliation)
      else None
  }

  /** A staged row may be aborted while its state is in order, and also once its own expiry or
      cleanup deadline has passed, provided nothing else about the destination is out of order. */
  function AbortError(snap: Snapshot, staged: Token, now: Time): Option<ErrorKind>
  {
    if snap.status == StagedInitial || snap.status == ActiveWithStaged then None
    else if snap.status != ReconciliationRequired then Some(Conflict)
    else if !snap.enabled || staged.stateChangedAt > now || (now < staged.expiresAt && now < staged.cleanupDeadline)
    then Some(Reconciliation)
    else if snap.active.None? then None
    else
      var active := snap.active.value;
      if active.activatedAt > now || active.stateChangedAt > now || now >= active.expiresAt
      then Some(Reconciliation) else None
  }

  /** Why the locked state refuses `op`, or `None` when the rows are changed. */
  function GuardError(op: Op, snap: Snapshot): Option<ErrorKind>
  {
    match op
    case CreateInitial(_, _) =>
      if !snap.enabled || snap.status == ReconciliationRequired then Some(Reconciliation)
      else if snap.status != Unprovisioned then Some(Conflict) else None
    case CreateRotation(_, expected, _) =>
      if !snap.enabled || snap.status == ReconciliationRequired then Some(Reconciliation)
      else if snap.status != ActiveOnly || !Holds(snap.active, expected) || snap.staged.Some? || snap.retiring.Some?
      then Some(Conflict) else None
    case ActivateInitial(id, _) =>
      if snap.status == ReconciliationRequired then Some(Reconciliation)
      else if snap.status != StagedInitial || !Holds(snap.staged, id) then Some(Conflict) else None
    case ActivateRotation(id, oldId, _, deadline) =>
      if snap.status == ReconciliationRequired then Some(Reconciliation)
      else if snap.status != ActiveWithStaged || !Holds(snap.staged, id) || !Holds(snap.active, oldId)
      then Some(Conflict)
      else if deadline >= snap.staged.value.expiresAt || deadline >= snap.active.value.expiresAt then Some(Conflict)
      else None
    case Abort(id, now) =>
      if !Holds(snap.staged, id) || snap.retiring.Some? then Some(Conflict)
      else AbortError(snap, snap.staged.value, now)
    case Rollback(id, oldId, now) =>
      var e := PairError(snap, id, oldId, now, false);
      if e.Some? then e
      else if snap.retiring.Some? && now >= snap.retiring.value.retirementDeadline then Some(Conflict) else None
    case Finalize(id, oldId, reason, now) =>
      var e := PairError(snap, id, oldId, now, true);
      if e.Some? then e
      else if reason == DeadlineElapsed && snap.retiring.Some? && now < snap.retiring.value.retirementDeadline
      then Some(Conflict) else None
    case Administer(_) => None
  }

  // ---------------------------------------------------------------- row changes

  function StagedRow(c: Candidate): Token
  {
    var now := Stored(c.createdAt);
    Token(c.id, Staged, now, Stored(c.expiresAt), Stored(c.cleanupDeadline), 0, 0, 0, 0, now)
  }

  function Activated(t: Token, now: Time): Token
  {
    t.(state := Active, activatedAt := now, stateChangedAt := now)
  }

  function Retired(t: Token, now: Time, deadline: Time): Token
  {
    t.(state := Retiring, retirementStartedAt := now, retirementDeadline := deadline, stateChangedAt := now)
  }

  function Restored(t: Token, now: Time): Token
  {
    t.(state := Active, retirementStartedAt := 0, retirementDeadline := 0, stateChangedAt := now)
  }

  function Ended(t: Token, now: Time): Token
  {
    t.(state := Revoked, revokedAt := now, stateChangedAt := now)
  }

  /** The identities whose rows `op` changes, all of which a guarded step has just read. */
  function Touched(op: Op): set<RecordId>
  {
    match op
    case ActivateInitial(id, _) => {id}
    case ActivateRotation(id, oldId, _, _) => {id, oldId}
    case Abort(id, _) => {id}
    case Rollback(id, oldId, _) => {id, oldId}
    case Finalize(id, oldId, _, _) => {oldId}
    case _ => {}
  }

  function Effect(op: Op, s: Store): Store
    requires Touched(op) <= s.rows.Keys
  {
    match op
    case CreateInitial(c, _) => s.(rows := s.rows[c.id := StagedRow(c)])
    case CreateRotation(c, _, _) => s.(rows := s.rows[c.id := StagedRow(c)])
    case ActivateInitial(id, now) => s.(rows := s.rows[id := Activated(s.rows[id], now)])
    case ActivateRotation(id, oldId, now, deadline) =>
      s.(rows := s.rows[oldId := Retired(s.rows[oldId], now, deadline)][id := Activated(s.rows[id], now)])
    case Abort(id, now) => s.(rows := s.rows[id := Ended(s.rows[id], now)])
    case Rollback(id, oldId, now) =>
      s.(rows := s.rows[id := Ended(s.rows[id], now)][oldId := Restored(s.rows[oldId], now)])
    case Finalize(id, oldId, _, now) => s.(rows := s.rows[oldId := Ended(s.rows[oldId], now)])
    case Administer(d) => s.(dest := Some(d))
  }

  function Created(op: Op): set<RecordId>
  {
    match op
    case CreateInitial(c, _) => {c.id}
    case CreateRotation(c, _, _) => {c.id}
    case _ => {}
  }

  function Clock(op: Op): Time
  {
    if op.Administer? then 0 else op.now
  }

  /** The whole step: the new table, or the error with the table untouched. */
  ghost function Decide(s: Store, op: Op): Verdict
  {
    if op.Administer? then Accept(Effect(op, s))
    else if !ValidInput(op) then Reject(Invalid)
    else match Load(s, Clock(op))
      case LoadFailed(kind) => Reject(kind)
      case Loaded(snap) =>
        match GuardError(op, snap)
        case Some(kind) => Reject(kind)
        case None =>
          if !Storable(op) || !(Created(op) !! s.rows.Keys) then Reject(Unavailable)
          else if !(Touched(op) <= s.rows.Keys) then Reject(Reconciliation)
          else Accept(Effect(op, s))
  }

  ghost function Apply(s: Store, op: Op): Store
  {
    match Decide(s, op) case Accept(s') => s' case Reject(_) => s
  }

  const EMPTY := Store(None, map[])

  /** The table after the steps of `log`, from a table without rows.  The clock readings in
      `log` are arbitrary: they need not be monotone. */
  ghost function Run(log: seq<Op>): Store
  {
    if log == [] then EMPTY else Apply(Run(log[..|log| - 1]), log[|log| - 1])
  }

  // ---------------------------------------------------------------- the lifecycle invariant

  /** A candidate was created no earlier than the last change of the active row beside it. */
  predicate StagedAfter(staged: Token, active: Token)
  {
    active.stateChangedAt <= staged.createdAt
  }

  /** The history behind an overlapping pair: the new row was created after the old one was
      activated, was activated before its cleanup deadline, and the overlap ends before either expiry. */
  predicate PairHistory(active: Token, retiring: Token)
  {
    && retiring.activatedAt <= active.createdAt
    && active.activatedAt < active.cleanupDeadline
    && retiring.retirementDeadline < active.expiresAt
    && retiring.retirementDeadline < retiring.expiresAt
  }

  ghost predicate InOrder(rows: Rows)
  {
    var staged, active, retiring := Pick(rows, Staged), Pick(rows, Active), Pick(rows, Retiring);
    && (staged.Some? && active.Some? ==> StagedAfter(staged.value, active.value))
    && (active.Some? && retiring.Some? ==> PairHistory(active.value, retiring.value))
  }

  ghost predicate Inv(s: Store)
  {
    && (forall id :: id in s.rows ==> s.rows[id].id == id && ValidToken(s.rows[id]))
    && Coherent(s.rows)
    && InOrder(s.rows)
  }

  /** The three live rows of a coherent table, as a guarded step has read them. */
  lemma LoadedRows(s: Store, now: Time)
    requires Inv(s) && Load(s, now).Loaded?
    ensures var snap := Load(s, now).snapshot;
            && snap == SnapshotOf(s.dest.value, s.rows, now).value
            && snap.staged == Pick(s.rows, Staged) && snap.active == Pick(s.rows, Active)
            && snap.retiring == Pick(s.rows, Retiring)
            && (snap.staged.Some? ==>
                  var t := snap.staged.value; HasRow(s.rows, t.id, Staged) && s.rows[t.id] == t)
            && (snap.active.Some? ==>
                  var t := snap.active.value; HasRow(s.rows, t.id, Active) && s.rows[t.id] == t)
            && (snap.retiring.Some? ==>
                  var t := snap.retiring.value; HasRow(s.rows, t.id, Retiring) && s.rows[t.id] == t)
  {
  }

  /** A guarded step finds every row it changes: the last test of `Decide` never rejects. */
  lemma TouchedRowsArePresent(s: Store, op: Op)
    requires Inv(s) && !op.Administer? && ValidInput(op)
    requires Load(s, Clock(op)).Loaded? && GuardError(op, Load(s, Clock(op)).snapshot).None?
    ensures Touched(op) <= s.rows.Keys
  {
    LoadedRows(s, Clock(op));
  }

  /** The rows in the three live states are exactly these. */
  ghost predicate Shape(rows: Rows, staged: Option<RecordId>, active: Option<RecordId>, retiring: Option<RecordId>)
  {
    && (forall id: RecordId :: HasRow(rows, id, Staged) <==> staged == Some(id))
    && (forall id: RecordId :: HasRow(rows, id, Active) <==> active == Some(id))
    && (forall id: RecordId :: HasRow(rows, id, Retiring) <==> retiring == Some(id))
  }

  lemma ShapeIsCoherent(rows: Rows, staged: Option<RecordId>, active: Option<RecordId>, retiring: Option<RecordId>)
    requires Shape(rows, staged, active, retiring)
    requires staged.Some? ==> staged.value in rows
    requires active.Some? ==> active.value in rows
    requires retiring.Some? ==> retiring.value in rows
    requires retiring.Some? ==> staged.None? && active.Some? && Linked(rows[active.value], rows[retiring.value])
    ensures Coherent(rows)
    ensures Pick(rows, Staged) == if staged.Some? then Some(rows[staged.value]) else None
    ensures Pick(rows, Active) == if active.Some? then Some(rows[active.value]) else None
    ensures Pick(rows, Retiring) == if retiring.Some? then Some(rows[retiring.value]) else None
  {
    assert staged.Some? ==> HasRow(rows, staged.value, Staged);
    assert active.Some? ==> HasRow(rows, active.value, Active);
    assert retiring.Some? ==> HasRow(rows, retiring.value, Retiring);
    forall x, y, s | s != Revoked && HasRow(rows, x, s) && HasRow(rows, y, s)
      ensures x == y
    {
      match s { case Staged => case Active => case Retiring => }
    }
  }

  function IdOf(t: Option<Token>): Option<RecordId>
  {
    if t.Some? then Some(t.value.id) else None
  }

  lemma ShapeOf(s: Store)
    requires Inv(s)
    ensures Shape(s.rows, IdOf(Pick(s.rows, Staged)), IdOf(Pick(s.rows, Active)), IdOf(Pick(s.rows, Retiring)))
  {
    forall id, st | HasRow(s.rows, id, st) && st != Revoked
      ensures Pick(s.rows, st) == Some(s.rows[id])
    {
      PickIs(s.rows, id);
    }
  }

  /** An active row that is in order at `now`. */
  predicate Current(t: Token, now: Time)
  {
    t.state == Active && t.stateChangedAt <= now && t.activatedAt <= now < t.expiresAt
  }

  predicate Prepared(t: Token, now: Time)
  {
    t.state == Staged && t.stateChangedAt <= now < t.expiresAt && now < t.cleanupDeadline
  }

  /** What acceptance of `op` says about the rows it is applied to. */
  ghost predicate Premise(s: Store, op: Op)
  {
    var rows := s.rows;
    match op
    case CreateInitial(c, now) =>
      Shape(rows, None, None, None) && c.id !in rows && ValidToken(StagedRow(c)) && StagedRow(c).createdAt == now
    case CreateRotation(c, expected, now) =>
      && Shape(rows, None, Some(expected), None) && c.id !in rows
      && ValidToken(StagedRow(c)) && StagedRow(c).createdAt == now
      && expected in rows && Current(rows[expected], now)
    case ActivateInitial(id, now) =>
      Shape(rows, Some(id), None, None) && id in rows && Prepared(rows[id], now)
    case ActivateRotation(id, oldId, now, deadline) =>
      && Shape(rows, Some(id), Some(oldId), None) && id in rows && oldId in rows && id != oldId
      && Prepared(rows[id], now) && Current(rows[oldId], now)
      && now < deadline <= now + MAX_OVERLAP && deadline < rows[id].expiresAt && deadline < rows[oldId].expiresAt
    case Abort(id, now) =>
      && id in rows && rows[id].state == Staged && rows[id].stateChangedAt <= now
      && (Pick(rows, Active).Some? ==> Current(Pick(rows, Active).value, now))
      && Shape(rows, Some(id), IdOf(Pick(rows, Active)), None)
    case Rollback(id, oldId, now) =>
      && Shape(rows, None, Some(id), Some(oldId)) && id in rows && oldId in rows && id != oldId
      && Current(rows[id], now) && rows[oldId].stateChangedAt <= now < rows[oldId].retirementDeadline
      && now < rows[oldId].expiresAt
    case Finalize(id, oldId, reason, now) =>
      && Shape(rows, None, Some(id), Some(oldId)) && id in rows && oldId in rows && id != oldId
      && Current(rows[id], now) && rows[oldId].stateChangedAt <= now
      && (reason == DeadlineElapsed ==> rows[oldId].retirementDeadline <= now)
    case Administer(_) => true
  }

  lemma AcceptedCreate(s: Store, op: Op)
    requires Inv(s) && Decide(s, op).Accept? && (op.CreateInitial? || op.CreateRotation?)
    ensures Premise(s, op)
  {
    ShapeOf(s);
    LoadedRows(s, op.now);
    StoredCandidate(op.c);
  }

  lemma AcceptedActivate(s: Store, op: Op)
    requires Inv(s) && Decide(s, op).Accept? && (op.ActivateInitial? || op.ActivateRotation?)
    ensures Premise(s, op)
  {
    ShapeOf(s);
    LoadedRows(s, op.now);
  }

  lemma AcceptedAbort(s: Store, op: Op)
    requires Inv(s) && Decide(s, op).Accept? && op.Abort?
    ensures Premise(s, op)
  {
    ShapeOf(s);
    LoadedRows(s, op.now);
  }

  lemma AcceptedPair(s: Store, op: Op)
    requires Inv(s) && Decide(s, op).Accept? && (op.Rollback? || op.Finalize?)
    ensures Premise(s, op)
  {
    ShapeOf(s);
    LoadedRows(s, op.now);
  }

  /** An accepted step meets its premise on an enabled destination and makes its whole change. */
  lemma AcceptedMeans(s: Store, op: Op)
    requires Inv(s) && Decide(s, op).Accept?
    ensures Premise(s, op)
    ensures !op.Administer? ==>
              op.now != 0 && s.dest.Some? && s.dest.value.enabled && ReadableDestination(s.dest.value, op.now)
    ensures Touched(op) <= s.rows.Keys && Apply(s, op) == Effect(op, s)
  {
    match op {
      case CreateInitial(_, _) => AcceptedCreate(s, op);
      case CreateRotation(_, _, _) => AcceptedCreate(s, op);
      case ActivateInitial(_, _) => AcceptedActivate(s, op);
      case ActivateRotation(_, _, _, _) => AcceptedActivate(s, op);
      case Abort(_, _) => AcceptedAbort(s, op);
      case Rollback(_, _, _) => AcceptedPair(s, op);
      case Finalize(_, _, _, _) => AcceptedPair(s, op);
      case Administer(_) =>
    }
  }

  lemma CreateKeepsInv(s: Store, op: Op)
    requires Inv(s) && (op.CreateInitial? || op.CreateRotation?) && Premise(s, op)
    ensures Inv(Effect(op, s))
  {
    ShapeIsCoherent(Effect(op, s).rows, Some(op.c.id), if op.CreateInitial? then None else Some(op.expected), None);
  }

  lemma ActivateKeepsInv(s: Store, op: Op)
    requires op.ActivateInitial? || op.ActivateRotation?
    requires Inv(s) && Premise(s, op) && Touched(op) <= s.rows.Keys && op.now != 0
    ensures Inv(Effect(op, s))
  {
    if op.ActivateInitial? {
      ShapeIsCoherent(Effect(op, s).rows, None, Some(op.id), None);
    } else {
      ActivateRotationKeepsInv(s, op);
    }
  }

  lemma ActivateRotationKeepsInv(s: Store, op: Op)
    requires op.ActivateRotation?
    requires Inv(s) && Premise(s, op) && Touched(op) <= s.rows.Keys && op.now != 0
    ensures Inv(Effect(op, s))
  {
    ShapeIsCoherent(Effect(op, s).rows, None, Some(op.id), Some(op.oldId));
  }

  lemma AbortKeepsInv(s: Store, op: Op)
    requires op.Abort?
    requires Inv(s) && Premise(s, op) && Touched(op) <= s.rows.Keys && op.now != 0
    ensures Inv(Effect(op, s))
  {
    ShapeIsCoherent(Effect(op, s).rows, None, IdOf(Pick(s.rows, Active)), None);
  }

  lemma RollbackKeepsInv(s: Store, op: Op)
    requires op.Rollback?
    requires Inv(s) && Premise(s, op) && Touched(op) <= s.rows.Keys && op.now != 0
    ensures Inv(Effect(op, s))
  {
    ShapeIsCoherent(Effect(op, s).rows, None, Some(op.oldId), None);
  }

  lemma FinalizeKeepsInv(s: Store, op: Op)
    requires op.Finalize?
    requires Inv(s) && Premise(s, op) && Touched(op) <= s.rows.Keys && op.now != 0
    ensures Inv(Effect(op, s))
  {
    ShapeIsCoherent(Effect(op, s).rows, None, Some(op.id), None);
  }

  lemma StepKeepsInv(s: Store, op: Op)
    requires Inv(s)
    ensures Inv(Apply(s, op))
  {
    if Decide(s, op).Accept? {
      AcceptedMeans(s, op);
      match op {
        case CreateInitial(_, _) => CreateKeepsInv(s, op);
        case CreateRotation(_, _, _) => CreateKeepsInv(s, op);
        case ActivateInitial(_, _) => ActivateKeepsInv(s, op);
        case ActivateRotation(_, _, _, _) => ActivateKeepsInv(s, op);
        case Abort(_, _) => AbortKeepsInv(s, op);
        case Rollback(_, _, _) => RollbackKeepsInv(s, op);
        case Finalize(_, _, _, _) => FinalizeKeepsInv(s, op);
        case Administer(_) =>
      }
    }
  }

  /** Every run of the mutations, with whatever clock readings, keeps at most one row in each
      live state, never a staged row beside a retiring one, a retiring row only with the active
      row activated at the same instant, and every row ever written valid. */
  lemma {:induction false} EveryRunKeepsInv(log: seq<Op>)
    ensures Inv(Run(log))
  {
    if log == [] {
      ShapeIsCoherent(EMPTY.rows, None, None, None);
    } else {
      EveryRunKeepsInv(log[..|log| - 1]);
      StepKeepsInv(Run(log[..|log| - 1]), log[|log| - 1]);
    }
  }
}
