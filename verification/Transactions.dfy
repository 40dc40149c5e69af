/** One lifecycle mutation as one database transaction on one pooled connection, under every
    schedule of failures.  The schedule is an input, so the contracts hold for all of them. */
module Transactions {
  import opened Options
  import opened Connections
  import opened Tokens
  import opened L = Lifecycle
  import opened H = History

  /** How an executed statement can fail, as far as the error classification tells them apart. */
  datatype ExecError =
    | Ambiguous              // not one cause: joined, cyclic or over-deep error
    | ContextCanceled
    | ContextDeadline
    | Interrupted            // the connection broke, or the server ended the session
    | LiveIndexViolation     // one of the three partial unique indexes
    | OtherViolation         // any other constraint
    | DatabaseError
    | Unrecognized

  datatype ReadFault = ReadFault(kind: ErrorKind, destroy: bool)

  /** Everything about a transaction that the repository does not decide itself. */
  datatype Schedule = Schedule(
    canceled: Option<ErrorKind>,       // the caller's context is already done
    acquire: Option<ErrorKind>,        // no connection
    begin: Option<ReadFault>,          // no transaction
    read: Option<ReadFault>,           // the locked read fails
    first: Option<ExecError>,          // the first statement fails
    second: Option<ExecError>,         // the second statement fails
    miscount: Option<nat>,             // a statement reports this many rows instead of its own count
    commit: CommitReply,
    rollbackFails: bool)

  const FAULTLESS := Schedule(None, None, None, None, None, None, None, Acknowledged, false)

  /** The kinds a broken dependency can produce before a mutation is sent. */
  predicate SafeKind(k: ErrorKind)
  {
    k == Unavailable || k == Canceled || k == DeadlineExceeded
  }

  predicate ValidSchedule(f: Schedule)
  {
    && (f.canceled.Some? ==> f.canceled.value == Canceled || f.canceled.value == DeadlineExceeded)
    && (f.acquire.Some? ==> SafeKind(f.acquire.value))
    && (f.begin.Some? ==> SafeKind(f.begin.value.kind))
    && (f.read.Some? ==> SafeKind(f.read.value.kind))
  }

  /** The schedule lets every request of the mutation through and confirms its commit. */
  predicate Confirmed(op: Op, f: Schedule)
  {
    && f.canceled.None? && f.acquire.None? && f.begin.None? && f.read.None? && f.first.None?
    && (op.ActivateRotation? || op.Rollback? ==> f.second.None?)
    && (f.miscount.Some? ==> f.miscount.value == 1) && f.commit.Acknowledged?
  }

  /** The statements are reached, their counts are their own, and a rollback is confirmed. */
  predicate Reached(f: Schedule)
  {
    && f.canceled.None? && f.acquire.None? && f.begin.None? && f.read.None? && f.miscount.None? && !f.rollbackFails
  }

  /** Why a transaction is given up, and whether its connection must not be reused. */
  datatype Cause = Cause(kind: ErrorKind, destroy: bool)

  function MutationError(e: ExecError): Cause
  {
    match e
    case Ambiguous => Cause(OutcomeUnknown, true)
    case ContextCanceled => Cause(Canceled, true)
    case ContextDeadline => Cause(DeadlineExceeded, true)
    case Interrupted => Cause(Unavailable, true)
    case LiveIndexViolation => Cause(Conflict, false)
    case OtherViolation => Cause(Unavailable, false)
    case DatabaseError => Cause(Unavailable, false)
    case Unrecognized => Cause(OutcomeUnknown, true)
  }

  /** What each way of failing is reported as, and whether the connection may be used again. */
  predicate Classified(e: ExecError, c: Cause)
  {
    && (e == ContextCanceled ==> c.kind == Canceled) && (e == ContextDeadline ==> c.kind == DeadlineExceeded)
    && (e == LiveIndexViolation ==> c.kind == Conflict)
    && (e in {Interrupted, OtherViolation, DatabaseError} ==> c.kind == Unavailable)
    && (e in {Ambiguous, Unrecognized} ==> c.kind == OutcomeUnknown)
    && (c.destroy <==> e !in {LiveIndexViolation, OtherViolation, DatabaseError})
  }

  /** A failure that does not tell whether the statement took effect. */
  predicate Unclear(fault: Option<ExecError>)
  {
    fault == Some(Ambiguous) || fault == Some(Unrecognized)
  }

  function RowsAffected(n: nat): Option<Cause>
  {
    if n == 1 then None else if n == 0 then Some(Cause(Conflict, false)) else Some(Cause(Reconciliation, false))
  }

  // ---------------------------------------------------------------- statements

  datatype Change =
    | ToActive(at: Time)
    | ToRetiring(at: Time, deadline: Time)
    | ToRestored(at: Time)
    | ToRevoked(at: Time)

  /** An insert of a staged row, or an update guarded by the state and change time that were read. */
  datatype Statement = Insert(c: Candidate) | Update(id: RecordId, state: TokenState, changedAt: Time, change: Change)

  function Changed(t: Token, c: Change): Token
  {
    match c
    case ToActive(at) => Activated(t, at)
    case ToRetiring(at, deadline) => Retired(t, at, deadline)
    case ToRestored(at) => Restored(t, at)
    case ToRevoked(at) => Ended(t, at)
  }

  /** The three partial unique indexes, which the database checks after every statement. */
  predicate IndexesHold(rows: Rows)
  {
    forall a, b :: a in rows && b in rows && a != b && rows[a].state == rows[b].state ==> rows[a].state == Revoked
  }

  datatype Reply = Failed(error: ExecError) | Done(rows: Rows, affected: nat)

  function Execute(rows: Rows, st: Statement): Reply
  {
    match st
    case Insert(c) =>
      if !InOrderAsStored(c) || c.id in rows then Failed(OtherViolation)
      else
        var next := rows[c.id := StagedRow(c)];
        if IndexesHold(next) then Done(next, 1) else Failed(LiveIndexViolation)
    case Update(id, state, changedAt, change) =>
      if id in rows && rows[id].state == state && rows[id].stateChangedAt == changedAt then
        var next := rows[id := Changed(rows[id], change)];
        if IndexesHold(next) then Done(next, 1) else Failed(LiveIndexViolation)
      else Done(rows, 0)
  }

  lemma IndexesAreUniqueLive(rows: Rows)
    ensures IndexesHold(rows) <==> UniqueLive(rows)
  {
    if UniqueLive(rows) {
      forall a, b | a in rows && b in rows && a != b && rows[a].state == rows[b].state
        ensures rows[a].state == Revoked
      {
        assert HasRow(rows, a, rows[a].state) && HasRow(rows, b, rows[a].state);
      }
    }
  }

  /** One statement inside the open transaction. */
  method Exec(work: Rows, st: Statement, fault: Option<ExecError>, miscount: Option<nat>)
    returns (cause: Option<Cause>, next: Rows)
    ensures cause.None? ==> fault.None? && Execute(work, st).Done? && next == Execute(work, st).rows
    ensures cause.None? ==> (if miscount.Some? then miscount.value else Execute(work, st).affected) == 1
    ensures cause.Some? && cause.value.kind == OutcomeUnknown ==> cause.value.destroy && Unclear(fault)
    ensures fault.None? && miscount.None? && Execute(work, st).Done? && Execute(work, st).affected == 1 ==> cause.None?
    ensures fault.None? && Execute(work, st).Failed? ==> cause == Some(MutationError(Execute(work, st).error))
    ensures fault.Some? ==> cause.Some? && Classified(fault.value, cause.value)
    ensures fault.None? && Execute(work, st).Done? && miscount.Some? && miscount.value != 1 ==>
              cause == Some(Cause(if miscount.value == 0 then Conflict else Reconciliation, false))
  {
    next := work;
    if fault.Some? {
      return Some(MutationError(fault.value)), work;
    }
    match Execute(work, st) {
      case Failed(e) =>
        cause := Some(MutationError(e));
      case Done(rows, affected) =>
        cause := RowsAffected(if miscount.Some? then miscount.value else affected);
        next := rows;
    }
  }

  /** The statements of each mutation, in the order they are sent. */
  function Plan(op: Op, snap: Snapshot): seq<Statement>
    requires !op.Administer? && GuardError(op, snap).None?
  {
    match op
    case CreateInitial(c, _) => [Insert(c)]
    case CreateRotation(c, _, _) => [Insert(c)]
    case ActivateInitial(id, now) => [Update(id, Staged, snap.staged.value.stateChangedAt, ToActive(now))]
    case ActivateRotation(id, oldId, now, deadline) =>
      [Update(oldId, Active, snap.active.value.stateChangedAt, ToRetiring(now, deadline)),
       Update(id, Staged, snap.staged.value.stateChangedAt, ToActive(now))]
    case Abort(id, now) => [Update(id, Staged, snap.staged.value.stateChangedAt, ToRevoked(now))]
    case Rollback(id, oldId, now) =>
      [Update(id, Active, snap.active.value.stateChangedAt, ToRevoked(now)),
       Update(oldId, Retiring, snap.retiring.value.stateChangedAt, ToRestored(now))]
    case Finalize(_, oldId, _, now) => [Update(oldId, Retiring, snap.retiring.value.stateChangedAt, ToRevoked(now))]
  }

  lemma ShapeKeepsIndexes(rows: Rows, staged: Option<RecordId>, active: Option<RecordId>, retiring: Option<RecordId>)
    requires Shape(rows, staged, active, retiring)
    ensures IndexesHold(rows)
  {
    forall a, b | a in rows && b in rows && a != b && rows[a].state == rows[b].state
      ensures rows[a].state == Revoked
    {
      assert HasRow(rows, a, rows[a].state) && HasRow(rows, b, rows[a].state);
    }
  }

  /** The locked state agrees with the table that the statements run against. */
  ghost predicate Read(s: Store, op: Op, snap: Snapshot)
  {
    Inv(s) && !op.Administer? && ValidInput(op) && Load(s, op.now) == Loaded(snap) && GuardError(op, snap).None?
  }

  lemma PlanMeetsPremise(s: Store, op: Op, snap: Snapshot)
    requires Read(s, op, snap) && Created(op) !! s.rows.Keys && Storable(op)
    ensures Decide(s, op) == Accept(Effect(op, s)) && Premise(s, op)
    ensures snap.staged == Pick(s.rows, Staged) && snap.active == Pick(s.rows, Active)
    ensures snap.retiring == Pick(s.rows, Retiring)
  {
    TouchedRowsArePresent(s, op);
    AcceptedMeans(s, op);
    LoadedRows(s, op.now);
  }

  /** A single statement makes the whole change. */
  lemma OneStatement(s: Store, op: Op, snap: Snapshot)
    requires Read(s, op, snap) && Created(op) !! s.rows.Keys && Storable(op) && !op.ActivateRotation? && !op.Rollback?
    ensures Touched(op) <= s.rows.Keys && Execute(s.rows, Plan(op, snap)[0]) == Done(Effect(op, s).rows, 1)
  {
    PlanMeetsPremise(s, op, snap);
    StepKeepsInv(s, op);
    IndexesAreUniqueLive(Effect(op, s).rows);
  }

  /** The old row is retired before the new one is activated, and the new row revoked before the
      old one is restored, so that no index is violated in between. */
  lemma TwoStatements(s: Store, op: Op, snap: Snapshot)
    requires Read(s, op, snap) && (op.ActivateRotation? || op.Rollback?)
    ensures Touched(op) <= s.rows.Keys && Execute(s.rows, Plan(op, snap)[0]).Done?
    ensures Execute(s.rows, Plan(op, snap)[0]).affected == 1
    ensures Execute(Execute(s.rows, Plan(op, snap)[0]).rows, Plan(op, snap)[1]) == Done(Effect(op, s).rows, 1)
  {
    PlanMeetsPremise(s, op, snap);
    StepKeepsInv(s, op);
    IndexesAreUniqueLive(Effect(op, s).rows);
    if op.ActivateRotation? {
      RetireThenActivate(s, op, snap);
    } else {
      RevokeThenRestore(s, op, snap);
    }
  }

  lemma RetireThenActivate(s: Store, op: Op, snap: Snapshot)
    requires op.ActivateRotation? && GuardError(op, snap).None? && Premise(s, op) && Touched(op) <= s.rows.Keys
    requires snap.staged == Pick(s.rows, Staged) && snap.active == Pick(s.rows, Active)
    requires Inv(s) && IndexesHold(Effect(op, s).rows)
    ensures Execute(s.rows, Plan(op, snap)[0]).Done? && Execute(s.rows, Plan(op, snap)[0]).affected == 1
    ensures Execute(Execute(s.rows, Plan(op, snap)[0]).rows, Plan(op, snap)[1]) == Done(Effect(op, s).rows, 1)
  {
    var between := s.rows[op.oldId := Retired(s.rows[op.oldId], op.now, op.deadline)];
    ShapeKeepsIndexes(between, Some(op.id), None, Some(op.oldId));
  }

  lemma RevokeThenRestore(s: Store, op: Op, snap: Snapshot)
    requires op.Rollback? && GuardError(op, snap).None? && Premise(s, op) && Touched(op) <= s.rows.Keys
    requires snap.active == Pick(s.rows, Active) && snap.retiring == Pick(s.rows, Retiring)
    requires Inv(s) && IndexesHold(Effect(op, s).rows)
    ensures Execute(s.rows, Plan(op, snap)[0]).Done? && Execute(s.rows, Plan(op, snap)[0]).affected == 1
    ensures Execute(Execute(s.rows, Plan(op, snap)[0]).rows, Plan(op, snap)[1]) == Done(Effect(op, s).rows, 1)
  {
    ShapeKeepsIndexes(s.rows[op.id := Ended(s.rows[op.id], op.now)], None, None, Some(op.oldId));
  }

  /** The failure of the first statement that fails. */
  function StatementFault(op: Op, f: Schedule): Option<ExecError>
  {
    if f.first.Some? then f.first else if op.ActivateRotation? || op.Rollback? then f.second else None
  }

  /** The body of the transaction: the guard on the locked state, then the statements. */
  method Perform(op: Op, snap: Snapshot, work: Rows, f: Schedule, ghost s: Store)
    returns (cause: Option<Cause>, next: Rows, sent: bool)
    requires !op.Administer? && Inv(s) && s.rows == work && ValidInput(op) && Load(s, op.now) == Loaded(snap)
    ensures cause.None? ==> sent && Decide(s, op).Accept? && next == Apply(s, op).rows
    ensures cause.None? ==> f.first.None? && (f.miscount.Some? ==> f.miscount.value == 1)
    ensures cause.None? && (op.ActivateRotation? || op.Rollback?) ==> f.second.None?
    ensures Decide(s, op).Accept? && f.miscount.None? && StatementFault(op, f).Some? ==>
              cause.Some? && Classified(StatementFault(op, f).value, cause.value)
    ensures Decide(s, op).Accept? && f.first.None? && f.miscount.Some? && f.miscount.value != 1 ==>
              cause == Some(Cause(if f.miscount.value == 0 then Conflict else Reconciliation, false))
    ensures Decide(s, op).Reject? && f.first.None? && f.miscount.None? ==>
              cause.Some? && cause.value.kind == Decide(s, op).kind && !cause.value.destroy
    ensures cause.Some? && cause.value.kind == OutcomeUnknown ==>
              cause.value.destroy && (Unclear(f.first) || Unclear(f.second))
    ensures Decide(s, op).Accept? && f.miscount.None? && StatementFault(op, f).None? ==> cause.None?
  {
    sent, next := false, work;
    var guard := GuardError(op, snap);
    if guard.Some? {
      return Some(Cause(guard.value, false)), work, false;
    }
    sent := true;
    var plan := Plan(op, snap);
    if op.ActivateRotation? || op.Rollback? {
      PlanMeetsPremise(s, op, snap);
      TwoStatements(s, op, snap);
      cause, next := Exec(work, plan[0], f.first, f.miscount);
      if cause.Some? {
        return;
      }
      cause, next := Exec(next, plan[1], f.second, f.miscount);
    } else {
      if Created(op) !! s.rows.Keys && Storable(op) {
        PlanMeetsPremise(s, op, snap);
        OneStatement(s, op, snap);
      }
      cause, next := Exec(work, plan[0], f.first, f.miscount);
    }
  }

  /** The locked read: the destination row, then its live rows, of which a fourth is already one
      too many.  The rows arrive in an order the caller does not control. */
  method LoadState(s: Store, now: Time) returns (r: Loaded)
    requires now != 0 && forall id :: id in s.rows ==> s.rows[id].id == id
    ensures r == Load(s, now)
  {
    if s.dest.None? {
      return LoadFailed(Conflict);
    }
    if !ReadableDestination(s.dest.value, now) {
      return LoadFailed(Reconciliation);
    }
    var tokens: seq<Token> := [];
    var pending := s.rows.Keys;
    while pending != {}
      invariant pending <= s.rows.Keys
      invariant |tokens| <= 3
      invariant forall i :: 0 <= i < |tokens| ==>
                  && tokens[i].id in s.rows.Keys - pending && s.rows[tokens[i].id] == tokens[i]
                  && tokens[i].state != Revoked && ValidToken(tokens[i])
      invariant forall i, j :: 0 <= i < j < |tokens| ==> tokens[i].id != tokens[j].id
      invariant forall id :: id in s.rows.Keys - pending && s.rows[id].state != Revoked ==> s.rows[id] in tokens
      decreases |pending|
    {
      var id :| id in pending;
      pending := pending - {id};
      if s.rows[id].state != Revoked {
        if |tokens| == 3 {
          FourLiveRows(s.rows, tokens, id);
          return LoadFailed(Reconciliation);
        }
        if !ValidToken(s.rows[id]) {
          return LoadFailed(Reconciliation);
        }
        tokens := tokens + [s.rows[id]];
      }
    }
    assert Lists(tokens, s.rows) by {
      forall id, st | HasRow(s.rows, id, st) && st != Revoked
        ensures exists i :: 0 <= i < |tokens| && tokens[i].id == id
      {
        assert s.rows[id] in tokens;
      }
    }
    var snapshot := NewSnapshot(s.dest.value, tokens, now);
    return if snapshot.None? then LoadFailed(Reconciliation) else Loaded(snapshot.value);
  }

  lemma FourLiveRows(rows: Rows, tokens: seq<Token>, id: RecordId)
    requires |tokens| == 3 && id in rows && rows[id].state != Revoked
    requires forall i :: 0 <= i < 3 ==>
               && tokens[i].id in rows && tokens[i].id != id && rows[tokens[i].id] == tokens[i]
               && tokens[i].state != Revoked
    requires forall i, j :: 0 <= i < j < 3 ==> tokens[i].id != tokens[j].id
    ensures !Coherent(rows)
  {
    assert HasRow(rows, tokens[0].id, tokens[0].state) && HasRow(rows, tokens[1].id, tokens[1].state);
    assert HasRow(rows, tokens[2].id, tokens[2].state) && HasRow(rows, id, rows[id].state);
  }

  /** The lifecycle repository over one destination's rows. */
  class Repository {
    var store: Store
    ghost var log: seq<Op>   // the mutations that committed, in order

    ghost predicate Valid()
      reads this
    {
      Committed(log) && Run(log) == store
    }

    constructor ()
      ensures Valid() && store == EMPTY && log == []
    {
      store := EMPTY;
      log := [];
    }

    /** The whole transaction committed, or the table is as it was. */
    twostate predicate Applied(op: Op)
      reads this
    {
      Decide(old(store), op).Accept? && store == Apply(old(store), op) && log == old(log) + [op]
    }

    twostate predicate Untouched()
      reads this
    {
      store == old(store) && log == old(log)
    }

    /** An operator's change of the destination row. */
    method SetDestination(d: Destination)
      requires Valid()
      modifies this
      ensures Valid() && Applied(Administer(d))
    {
      assert (log + [Administer(d)])[..|log|] == log;
      store := Store(Some(d), store.rows);
      log := log + [Administer(d)];
    }

    /** Runs one mutation.  Success means the whole step is applied; every error except
        outcome-unknown means the table is untouched; outcome-unknown never returns its
        connection to the pool; and without faults the answer is the step's own verdict. */
    method Mutate(op: Op, f: Schedule) returns (err: Option<ErrorKind>, fate: Fate)
      requires Valid() && !op.Administer? && ValidSchedule(f)
      modifies this
      ensures Valid()
      ensures err.None? ==> Applied(op) && fate == Released && Confirmed(op, f)
      ensures err.Some? && err.value != OutcomeUnknown ==> Untouched()
      ensures err == Some(OutcomeUnknown) ==> fate == Destroyed && (Untouched() || Applied(op))
      ensures err == Some(OutcomeUnknown) ==>
                f.rollbackFails || f.commit.CommitLost? || Unclear(f.first) || Unclear(f.second)
      ensures fate == NotAcquired <==> !ValidInput(op) || f.canceled.Some? || f.acquire.Some?
      ensures ValidInput(op) && Reached(f) && Decide(old(store), op).Accept? && StatementFault(op, f).Some? ==>
                match StatementFault(op, f).value
                case Interrupted => err == Some(Unavailable) && fate == Destroyed
                case ContextCanceled => err == Some(Canceled) && fate == Destroyed
                case ContextDeadline => err == Some(DeadlineExceeded) && fate == Destroyed
                case LiveIndexViolation => err == Some(Conflict) && fate == Released
                case OtherViolation => err == Some(Unavailable) && fate == Released
                case DatabaseError => err == Some(Unavailable) && fate == Released
                case Ambiguous => err == Some(OutcomeUnknown) && fate == Destroyed
                case Unrecognized => err == Some(OutcomeUnknown) && fate == Destroyed
      ensures ValidInput(op) && Reached(f) && Decide(old(store), op).Accept? && StatementFault(op, f).None? ==>
                match f.commit
                case Acknowledged => err.None?
                case AnsweredAsRollback => err == Some(Unavailable) && fate == Released
                case CommitLost(applied) =>
                  err == Some(OutcomeUnknown) && if applied then Applied(op) else Untouched()
      ensures !ValidInput(op) ==> err == Some(Invalid)
      ensures ValidInput(op) && f.canceled.Some? ==> err == f.canceled
      ensures ValidInput(op) && f.canceled.None? && f.acquire.Some? ==> err == f.acquire
      ensures fate != NotAcquired && f.begin.Some? ==>
                err == Some(f.begin.value.kind) && (fate == Destroyed <==> f.begin.value.destroy)
      ensures fate != NotAcquired && f.begin.None? && f.read.Some? && !f.rollbackFails ==>
                err == Some(f.read.value.kind) && (fate == Destroyed <==> f.read.value.destroy)
      ensures Reached(f) && f.first.None? && Decide(old(store), op).Reject? ==>
                err == Some(Decide(old(store), op).kind) && fate != Destroyed
      ensures f.canceled.None? && f.acquire.None? && ValidInput(op) && f.begin.None? && f.rollbackFails ==>
                err.None? || (err == Some(OutcomeUnknown) && fate == Destroyed)
                || (err == Some(Unavailable) && f.commit.AnsweredAsRollback?)
      ensures f == FAULTLESS ==>
                match Decide(old(store), op) case Accept(_) => err.None? case Reject(kind) => err == Some(kind)
    {
      EveryRunKeepsInv(log);
      if !ValidInput(op) {
        return Some(Invalid), NotAcquired;
      }
      if f.canceled.Some? {
        return f.canceled, NotAcquired;
      }
      if f.acquire.Some? {
        return f.acquire, NotAcquired;
      }
      if f.begin.Some? {
        return Some(f.begin.value.kind), if f.begin.value.destroy then Destroyed else Released;
      }
      var cause: Option<Cause>;
      var work := store.rows;
      if f.read.Some? {
        cause := Some(Cause(f.read.value.kind, f.read.value.destroy));
      } else {
        var loaded := LoadState(store, op.now);
        match loaded {
          case LoadFailed(kind) =>
            cause := Some(Cause(kind, false));
          case Loaded(snap) =>
            var sent;
            cause, work, sent := Perform(op, snap, work, f, store);
            if cause.None? && !sent {
              cause := Some(Cause(Reconciliation, false));
            }
        }
      }
      if cause.Some? {
        // Roll back.  Only a confirmed rollback allows the cause to be reported as it is.
        if f.rollbackFails {
          return Some(OutcomeUnknown), Destroyed;
        }
        return Some(cause.value.kind), if cause.value.destroy then Destroyed else Released;
      }
      match f.commit {
        case Acknowledged =>
          Commit(op, work);
          return None, Released;
        case AnsweredAsRollback =>
          return Some(Unavailable), Released;
        case CommitLost(applied) =>
          if applied {
            Commit(op, work);
          }
          return Some(OutcomeUnknown), Destroyed;
      }
    }

    /** The database makes the open transaction's rows the committed ones. */
    method Commit(op: Op, work: Rows)
      requires Valid() && !op.Administer? && Decide(store, op).Accept? && work == Apply(store, op).rows
      modifies this
      ensures Valid() && Applied(op)
    {
      EveryRunKeepsInv(log);
      AcceptedMeans(store, op);
      assert (log + [op])[..|log|] == log;
      store := Store(store.dest, work);
      log := log + [op];
    }
  }
}
