/** The rotation participant: `BeginRotation` with its compensation, and the later operations on
    the handle it returns, run against the lifecycle repository under every schedule of faults,
    cancellations, clock readings and mutations by other clients. */
module Participant {
  import opened Options
  import opened Tokens
  import opened L = Lifecycle
  import opened H = History
  import opened Rotation
  import opened Transactions
  import opened Inspection
  import Continuity
  import Exactness

  datatype Handle = Handle(id: RecordId, oldId: RecordId)

  /** What `BeginRotation` returns.  `handle` is `None` and the rest zero in an empty attempt. */
  datatype BegunAttempt = BegunAttempt(handle: Option<Handle>, token: Option<nat>, activatedAt: Time, deadline: Time)

  const NO_ATTEMPT := BegunAttempt(None, None, 0, 0)

  function FromLifecycle(k: ErrorKind): RotationError
  {
    match k
    case Invalid => InvalidRotation
    case Conflict => RotationConflict
    case Reconciliation => RotationReconciliation
    case Unavailable => RotationUnavailable
    case OutcomeUnknown => RotationOutcomeUnknown
    case Canceled => RotationCanceled
    case DeadlineExceeded => RotationDeadline
  }

  /** The lifecycle service's durations, in nanoseconds. */
  datatype Policy = Policy(lifetime: Nanos, cleanup: Nanos, overlap: Nanos)

  predicate ValidPolicy(p: Policy)
  {
    && 0 < p.lifetime <= MAX_LIFETIME * 1000
    && 0 < p.cleanup <= MAX_CLEANUP * 1000
    && 0 < p.overlap <= MAX_OVERLAP * 1000
    && p.overlap < p.lifetime
  }

  /** Everything `BeginRotation` does not decide itself: clock readings, replies of the resolver
      and the token generator, cancellation where it is polled, the schedule of each transaction,
      and the mutations other clients commit before each of its own. */
  datatype Environment = Environment(
    startClock: Time,
    canceledAtStart: Option<RotationError>,
    resolution: Option<RotationError>,
    resolvesElsewhere: bool,
    canceledAfterResolve: Option<RotationError>,
    inspectClock: Time,
    inspectFault: Option<ErrorKind>,
    canceledAfterInspect: Option<RotationError>,
    createClockNanos: Nanos,
    generation: Option<ErrorKind>,
    newId: RecordId,
    secret: nat,
    secretLost: bool,
    createSchedule: Schedule,
    canceledAfterCreate: Option<RotationError>,
    activateClockNanos: Nanos,
    activateSchedule: Schedule,
    confirmClockNanos: Nanos,
    canceledAtEnd: bool,
    abortClock: Time,
    abortSchedule: Schedule,
    beforeInspect: seq<Op>,
    beforeCreate: seq<Op>,
    beforeActivate: seq<Op>,
    beforeAbort: seq<Op>)

  /** Nobody else creates a record with the identity this attempt draws. */
  predicate Leaves(ops: seq<Op>, id: RecordId)
  {
    forall k :: 0 <= k < |ops| ==> id !in Created(ops[k])
  }

  predicate ValidEnvironment(env: Environment)
  {
    && env.generation != Some(OutcomeUnknown)
    && ValidSchedule(env.createSchedule) && ValidSchedule(env.activateSchedule) && ValidSchedule(env.abortSchedule)
    && Leaves(env.beforeInspect, env.newId) && Leaves(env.beforeCreate, env.newId)
    && Leaves(env.beforeActivate, env.newId) && Leaves(env.beforeAbort, env.newId)
  }

  /** Nothing fails, nobody cancels and nobody else is at work. */
  predicate Undisturbed(env: Environment)
  {
    && env.canceledAtStart.None? && env.resolution.None? && !env.resolvesElsewhere && env.canceledAfterResolve.None?
    && env.inspectFault.None? && env.canceledAfterInspect.None? && env.generation.None? && !env.secretLost
    && env.canceledAfterCreate.None? && !env.canceledAtEnd
    && env.createSchedule == FAULTLESS && env.activateSchedule == FAULTLESS
    && env.beforeInspect == [] && env.beforeCreate == [] && env.beforeActivate == []
    && env.startClock != 0 && env.newId != 0
  }

  // ---------------------------------------------------------------- the activation receipt

  datatype Receipt = Receipt(activatedAt: Time, deadline: Time)

  /** Both times are truncated to stored precision from one clock reading in nanoseconds. */
  function ReceiptFor(clockNanos: Nanos, overlapNanos: Nanos): Receipt
  {
    Receipt(Stored(clockNanos), Stored(clockNanos + overlapNanos))
  }

  /** `t` is the last stored instant that is not after `n`. */
  predicate CutFrom(t: Time, n: Nanos)
  {
    t * 1000 <= n < t * 1000 + 1000
  }

  predicate ValidReceipt(r: Receipt)
  {
    r.activatedAt != 0 && r.activatedAt < r.deadline && r.deadline - r.activatedAt <= MAX_OVERLAP
  }

  predicate ValidReceiptAt(r: Receipt, clockNanos: Nanos)
  {
    ValidReceipt(r) && clockNanos != 0 && r.activatedAt * 1000 <= clockNanos < r.deadline * 1000
  }

  /** A stored time is a whole number of microseconds, so comparing it with a clock reading in
      nanoseconds is the same as comparing it with that reading truncated: the guards of the
      lifecycle may be read in microseconds without loss. */
  lemma TruncationIsExact(stored: Time, clockNanos: Nanos)
    ensures clockNanos < stored * 1000 <==> Stored(clockNanos) < stored
    ensures clockNanos >= stored * 1000 <==> Stored(clockNanos) >= stored
  {
  }

  /** Truncating the activation time and the deadline separately is harmless: the receipt is valid,
      and accepted as input by the activation step, exactly from one microsecond past the zero
      time on and when the two do not fall into the same microsecond, which no overlap of a
      microsecond or more lets happen. */
  lemma ReceiptArithmetic(clockNanos: Nanos, overlapNanos: Nanos, id: RecordId, oldId: RecordId)
    requires overlapNanos <= MAX_OVERLAP * 1000 && id != 0 && oldId != 0 && id != oldId
    ensures var r := ReceiptFor(clockNanos, overlapNanos);
            && (ValidReceipt(r) <==> clockNanos >= 1000 && clockNanos / 1000 != (clockNanos + overlapNanos) / 1000)
            && (ValidReceipt(r) <==> ValidInput(ActivateRotation(id, oldId, r.activatedAt, r.deadline)))
            && (clockNanos >= 1000 && overlapNanos >= 1000 ==> ValidReceipt(r))
            && CutFrom(r.activatedAt, clockNanos) && CutFrom(r.deadline, clockNanos + overlapNanos)
  {
    assert (clockNanos + overlapNanos) / 1000 <= (clockNanos + MAX_OVERLAP * 1000) / 1000;
    assert (clockNanos + MAX_OVERLAP * 1000) / 1000 == clockNanos / 1000 + MAX_OVERLAP;
  }

  // ---------------------------------------------------------------- the steps of an attempt

  function CreateStep(policy: Policy, env: Environment, oldId: RecordId): Op
  {
    CreateRotation(CandidateAt(policy, env.newId, env.createClockNanos), oldId, Stored(env.createClockNanos))
  }

  function CandidateAt(policy: Policy, id: RecordId, clockNanos: Nanos): Candidate
  {
    Candidate(id, clockNanos, clockNanos + policy.lifetime, clockNanos + policy.cleanup)
  }

  /** Every configured duration passes the input guard of a creation, but the database then refuses the row
      exactly if the expiry or the cleanup deadline falls into the microsecond of its creation. */
  lemma CandidateArithmetic(policy: Policy, id: RecordId, oldId: RecordId, clockNanos: Nanos)
    requires ValidPolicy(policy) && id != 0 && oldId != 0 && id != oldId && Stored(clockNanos) != 0
    ensures var c := CandidateAt(policy, id, clockNanos);
            && ValidInput(CreateRotation(c, oldId, Stored(clockNanos)))
            && (InOrderAsStored(c) <==>
                && Stored(clockNanos + policy.lifetime) != Stored(clockNanos)
                && Stored(clockNanos + policy.cleanup) != Stored(clockNanos))
  {
  }

  /** So creation can be refused for its times at some reading exactly if a duration is below a microsecond. */
  lemma DurationsBelowAMicrosecond(policy: Policy, id: RecordId)
    requires ValidPolicy(policy)
    ensures (forall clockNanos: Nanos :: InOrderAsStored(CandidateAt(policy, id, clockNanos))) <==>
            policy.lifetime >= 1000 && policy.cleanup >= 1000
  {
    if policy.lifetime < 1000 || policy.cleanup < 1000 {
      assert !InOrderAsStored(CandidateAt(policy, id, 1_000_000));
    }
  }

  /** One such creation: a cleanup duration of half a microsecond on a destination that would allow it. */
  lemma RefusedForItsTimes(s: Store, policy: Policy, id: RecordId, oldId: RecordId, snap: Snapshot)
    requires policy == Policy(2_000_000, 500, 1_000_000) && id != 0 && oldId != 0 && id != oldId
    requires Load(s, 1000) == Loaded(snap) && snap.enabled && snap.status == ActiveOnly && Holds(snap.active, oldId)
    requires snap.staged.None? && snap.retiring.None?
    ensures ValidPolicy(policy)
    ensures Decide(s, CreateRotation(CandidateAt(policy, id, 1_000_000), oldId, 1000)) == Reject(Unavailable)
  {
    CandidateArithmetic(policy, id, oldId, 1_000_000);
  }

  function ActivateStep(policy: Policy, env: Environment, id: RecordId, oldId: RecordId): Op
  {
    var r := ReceiptFor(env.activateClockNanos, policy.overlap);
    ActivateRotation(id, oldId, r.activatedAt, r.deadline)
  }

  /** The table and the clock readings let a rotation of `oldId` through. */
  ghost predicate Ready(s: Store, policy: Policy, env: Environment, oldId: RecordId)
  {
    var create := CreateStep(policy, env, oldId);
    && env.inspectClock != 0
    && Load(s, env.inspectClock).Loaded?
    && Load(s, env.inspectClock).snapshot.status == ActiveOnly
    && Holds(Load(s, env.inspectClock).snapshot.active, oldId)
    && Decide(s, create).Accept?
    && Decide(Apply(s, create), ActivateStep(policy, env, env.newId, oldId)).Accept?
    && ValidReceiptAt(ReceiptFor(env.activateClockNanos, policy.overlap), env.confirmClockNanos)
  }

  // ---------------------------------------------------------------- facts about the log

  ghost predicate Settled(s: Store, id: RecordId)
  {
    id !in s.rows || s.rows[id].state == Revoked
  }

  /** `op` committed as one of the steps of `log` from index `from` on. */
  ghost predicate CommittedSince(log: seq<Op>, from: nat, op: Op)
  {
    exists k :: from <= k < |log| && log[k] == op
  }

  lemma IssuedStays(log: seq<Op>, longer: seq<Op>, id: RecordId, oldId: RecordId)
    requires log <= longer && Issued(log, id, oldId)
    ensures Issued(longer, id, oldId)
  {
    var k: nat :| IsCreate(log, k, id, oldId);
    assert IsCreate(longer, k, id, oldId);
  }

  /** A record that no step creates does not appear. */
  lemma AbsentStays(s: Store, op: Op, id: RecordId)
    requires Inv(s) && id !in s.rows && id !in Created(op)
    ensures id !in Apply(s, op).rows
  {
    if Decide(s, op).Accept? {
      AcceptedMeans(s, op);
    }
  }

  /** Other clients run their mutations, without faults of their own, one after another. */
  method OthersRun(repo: Repository, ops: seq<Op>, ghost id: RecordId)
    requires repo.Valid()
    modifies repo
    ensures repo.Valid() && old(repo.log) <= repo.log
    ensures Leaves(ops, id) && id !in old(repo.store).rows ==> id !in repo.store.rows
    ensures forall k :: |old(repo.log)| <= k < |repo.log| ==> repo.log[k] in ops
    ensures ops == [] ==> repo.store == old(repo.store) && repo.log == old(repo.log)
  {
    for n := 0 to |ops|
      invariant repo.Valid() && old(repo.log) <= repo.log
      invariant Leaves(ops, id) && id !in old(repo.store).rows ==> id !in repo.store.rows
      invariant forall k :: |old(repo.log)| <= k < |repo.log| ==> repo.log[k] in ops
      invariant n == 0 ==> repo.store == old(repo.store) && repo.log == old(repo.log)
    {
      EveryRunKeepsInv(repo.log);
      if Leaves(ops, id) && id !in repo.store.rows {
        AbsentStays(repo.store, ops[n], id);
      }
      if ops[n].Administer? {
        repo.SetDestination(ops[n].d);
      } else {
        var err, fate := repo.Mutate(ops[n], FAULTLESS);
      }
    }
  }

  // ---------------------------------------------------------------- lifecycle service calls

  /** The row was created at the reading and has the configured lifetime and cleanup duration. */
  predicate Dated(t: Token, policy: Policy, clockNanos: Nanos)
  {
    && CutFrom(t.createdAt, clockNanos) && CutFrom(t.stateChangedAt, clockNanos)
    && CutFrom(t.expiresAt, clockNanos + policy.lifetime) && CutFrom(t.cleanupDeadline, clockNanos + policy.cleanup)
  }

  /** Creates the staged candidate.  The identity survives an unknown outcome, the secret does not. */
  method CreateStaged(repo: Repository, policy: Policy, env: Environment, oldId: RecordId)
      returns (id: RecordId, secret: Option<nat>, err: Option<ErrorKind>)
    requires repo.Valid() && ValidPolicy(policy) && ValidEnvironment(env) && env.newId !in repo.store.rows
    modifies repo
    ensures repo.Valid() && old(repo.log) <= repo.log
    ensures err.None? ==>
              && id == env.newId && id != 0 && id != oldId && Issued(repo.log, id, oldId)
              && repo.log == old(repo.log) + [CreateStep(policy, env, oldId)] && env.generation.None?
              && HasRow(repo.store.rows, id, Staged) && Dated(repo.store.rows[id], policy, env.createClockNanos)
    ensures secret.Some? ==> err.None? && secret == Some(env.secret) && !env.secretLost
    ensures err.Some? && err.value != OutcomeUnknown ==>
              id == 0 && env.newId !in repo.store.rows && repo.log == old(repo.log)
    ensures Undisturbed(env) && oldId != 0 && oldId != env.newId ==>
              var op := CreateStep(policy, env, oldId);
              Decide(old(repo.store), op).Accept? ==>
                err.None? && secret.Some? && repo.store == Apply(old(repo.store), op)
    ensures err == Some(OutcomeUnknown) ==>
              && id == env.newId && id != 0 && id != oldId
              && (id !in repo.store.rows || Issued(repo.log, id, oldId))
              && (repo.log == old(repo.log) || repo.log == old(repo.log) + [CreateStep(policy, env, oldId)])
  {
    if oldId == 0 || env.createClockNanos == 0 {
      return 0, None, Some(Invalid);
    }
    if env.generation.Some? {
      return 0, None, env.generation;
    }
    if env.newId == 0 {
      return 0, None, Some(Unavailable);
    }
    if env.newId == oldId {
      return 0, None, Some(Invalid);
    }
    var op := CreateStep(policy, env, oldId);
    ghost var before := repo.log;
    var fate;
    err, fate := repo.Mutate(op, env.createSchedule);
    assert repo.log == before + [op] ==> IsCreate(repo.log, |before|, env.newId, oldId);
    if err == Some(OutcomeUnknown) {
      return env.newId, None, err;
    }
    if err.Some? {
      return 0, None, err;
    }
    return env.newId, if env.secretLost then None else Some(env.secret), None;
  }

  /** Activates the candidate.  The receipt is released only for a confirmed commit. */
  method Activate(repo: Repository, policy: Policy, env: Environment, id: RecordId, oldId: RecordId)
      returns (receipt: Receipt, err: Option<ErrorKind>)
    requires repo.Valid() && ValidPolicy(policy) && ValidEnvironment(env)
    modifies repo
    ensures repo.Valid() && old(repo.log) <= repo.log
    ensures err.None? ==>
              && ValidReceipt(receipt)
              && receipt == ReceiptFor(env.activateClockNanos, policy.overlap)
              && CutFrom(receipt.activatedAt, env.activateClockNanos)
              && CutFrom(receipt.deadline, env.activateClockNanos + policy.overlap)
              && repo.log == old(repo.log) + [ActivateStep(policy, env, id, oldId)]
    ensures (&& env.activateSchedule == FAULTLESS && id != 0 && oldId != 0 && id != oldId
             && Decide(old(repo.store), ActivateStep(policy, env, id, oldId)).Accept?
             && ValidReceipt(ReceiptFor(env.activateClockNanos, policy.overlap))) ==> err.None?
    ensures err.Some? && err.value != OutcomeUnknown ==> repo.store == old(repo.store) && repo.log == old(repo.log)
    ensures err == Some(OutcomeUnknown) ==>
              || (repo.store == old(repo.store) && repo.log == old(repo.log))
              || repo.log == old(repo.log) + [ActivateStep(policy, env, id, oldId)]
  {
    receipt := ReceiptFor(env.activateClockNanos, policy.overlap);
    if id == 0 || oldId == 0 || id == oldId || env.activateClockNanos == 0 || !ValidReceipt(receipt) {
      return receipt, Some(Invalid);
    }
    var fate;
    err, fate := repo.Mutate(ActivateStep(policy, env, id, oldId), env.activateSchedule);
  }

  /** The one compensation: abort the candidate, after whatever other clients did meanwhile. */
  method AbortCreated(repo: Repository, env: Environment, id: RecordId) returns (ok: bool)
    requires repo.Valid() && ValidEnvironment(env)
    modifies repo
    ensures repo.Valid() && old(repo.log) <= repo.log
    ensures ok ==> Settled(repo.store, id) && |repo.log| > 0 && repo.log[|repo.log| - 1] == Abort(id, env.abortClock)
    ensures forall k :: |old(repo.log)| <= k < |repo.log| ==>
              repo.log[k] in env.beforeAbort || repo.log[k] == Abort(id, env.abortClock)
    ensures env.beforeAbort == [] && env.abortSchedule == FAULTLESS ==>
              (ok <==> Decide(old(repo.store), Abort(id, env.abortClock)).Accept?)
  {
    OthersRun(repo, env.beforeAbort, env.newId);
    EveryRunKeepsInv(repo.log);
    ghost var s := repo.store;
    var err, fate := repo.Mutate(Abort(id, env.abortClock), env.abortSchedule);
    ok := err.None?;
    if ok {
      AcceptedMeans(s, Abort(id, env.abortClock));
    }
  }

  /** What an answer of `BeginRotation` says about the table, whose run is `log`, of which the
      call found the first `from` steps. */
  ghost predicate Justified(
      log: seq<Op>, from: nat, s: Store, env: Environment, attempt: BegunAttempt, err: Option<RotationError>)
  {
    && (attempt.token.Some? <==> err.None?)
    && (err.None? ==>
          && attempt.handle.Some? && attempt.token == Some(env.secret)
          && attempt.activatedAt < attempt.deadline <= attempt.activatedAt + MAX_OVERLAP
          && var h := attempt.handle.value;
             CommittedSince(log, from, ActivateRotation(h.id, h.oldId, attempt.activatedAt, attempt.deadline)))
    && (err.Some? ==> attempt.activatedAt == 0 && attempt.deadline == 0)
    && (err.Some? && attempt.handle.Some? ==> err == Some(RotationReconciliation))
    && (attempt.handle.None? ==> Settled(s, env.newId))
    && (attempt.handle.Some? ==>
          var h := attempt.handle.value;
          && h.id == env.newId && h.id != 0 && h.oldId != 0 && h.id != h.oldId
          && (h.id in s.rows ==> Issued(log, h.id, h.oldId)))
  }

  /** The steps a call of `BeginRotation` may add to the run: those of the others, and its own three. */
  predicate Licensed(op: Op, policy: Policy, env: Environment)
  {
    || op in env.beforeInspect || op in env.beforeCreate || op in env.beforeActivate || op in env.beforeAbort
    || (op.CreateRotation? && op == CreateStep(policy, env, op.expected))
    || (op.ActivateRotation? && op == ActivateStep(policy, env, env.newId, op.oldId))
    || op == Abort(env.newId, env.abortClock)
  }

  ghost predicate AddsOnlyLicensed(log: seq<Op>, from: nat, policy: Policy, env: Environment)
  {
    from <= |log| && forall k :: from <= k < |log| ==> Licensed(log[k], policy, env)
  }

  /** Nothing outside the table stood in the way of the attempt. */
  predicate Unhindered(policy: Policy, env: Environment)
  {
    && env.canceledAtStart.None? && env.startClock != 0 && env.resolution.None? && env.canceledAfterResolve.None?
    && !env.resolvesElsewhere && env.inspectClock != 0 && env.inspectFault.None? && env.canceledAfterInspect.None?
    && env.generation.None? && !env.secretLost && env.canceledAfterCreate.None? && !env.canceledAtEnd
    && ValidReceiptAt(ReceiptFor(env.activateClockNanos, policy.overlap), env.confirmClockNanos)
  }

  /** The attempt's times are those of the activation's reading and of the configured overlap after it. */
  predicate Timed(attempt: BegunAttempt, policy: Policy, env: Environment)
  {
    && CutFrom(attempt.activatedAt, env.activateClockNanos)
    && CutFrom(attempt.deadline, env.activateClockNanos + policy.overlap)
    && attempt.activatedAt * 1000 <= env.confirmClockNanos < attempt.deadline * 1000
  }

  /** Gives up after a confirmed create: the error stands only if the abort is confirmed. */
  method Compensate(repo: Repository, ghost policy: Policy, env: Environment, id: RecordId, oldId: RecordId,
                    original: RotationError, ghost from: nat)
      returns (attempt: BegunAttempt, err: Option<RotationError>)
    requires repo.Valid() && ValidEnvironment(env) && Issued(repo.log, id, oldId)
    requires id == env.newId && id != 0 && oldId != 0 && id != oldId
    modifies repo
    ensures repo.Valid() && old(repo.log) <= repo.log
    ensures Justified(repo.log, from, repo.store, env, attempt, err) && err.Some?
    ensures attempt.handle.None? ==> err == Some(original)
    ensures AddsOnlyLicensed(repo.log, |old(repo.log)|, policy, env)
  {
    ghost var before := repo.log;
    var aborted := AbortCreated(repo, env, id);
    IssuedStays(before, repo.log, id, oldId);
    if !aborted {
      return BegunAttempt(Some(Handle(id, oldId)), None, 0, 0), Some(RotationReconciliation);
    }
    return NO_ATTEMPT, Some(original);
  }

  /** Activates a created candidate and confirms that its overlap is still open. */
  method ActivateCreated(repo: Repository, policy: Policy, env: Environment, id: RecordId, oldId: RecordId,
                         secret: nat, ghost from: nat)
      returns (attempt: BegunAttempt, err: Option<RotationError>)
    requires repo.Valid() && ValidPolicy(policy) && ValidEnvironment(env) && Issued(repo.log, id, oldId)
    requires id == env.newId && id != 0 && oldId != 0 && id != oldId && secret == env.secret && from <= |repo.log|
    modifies repo
    ensures repo.Valid() && old(repo.log) <= repo.log
    ensures Justified(repo.log, from, repo.store, env, attempt, err)
    ensures (&& env.activateSchedule == FAULTLESS && !env.canceledAtEnd
             && Decide(old(repo.store), ActivateStep(policy, env, id, oldId)).Accept?
             && ValidReceiptAt(ReceiptFor(env.activateClockNanos, policy.overlap), env.confirmClockNanos)) ==> err.None?
    ensures err.None? ==>
              && !env.canceledAtEnd && Timed(attempt, policy, env)
              && ValidReceiptAt(ReceiptFor(env.activateClockNanos, policy.overlap), env.confirmClockNanos)
    ensures AddsOnlyLicensed(repo.log, |old(repo.log)|, policy, env)
  {
    ghost var before := repo.log;
    var receipt, activateErr := Activate(repo, policy, env, id, oldId);
    IssuedStays(before, repo.log, id, oldId);
    var pending := BegunAttempt(Some(Handle(id, oldId)), None, 0, 0);
    if activateErr.Some? {
      if activateErr.value == OutcomeUnknown {
        return pending, Some(RotationReconciliation);
      }
      attempt, err := Compensate(repo, policy, env, id, oldId, FromLifecycle(activateErr.value), from);
      return;
    }
    assert repo.log[|before|] == ActivateRotation(id, oldId, receipt.activatedAt, receipt.deadline);
    if !ValidReceiptAt(receipt, env.confirmClockNanos) || env.canceledAtEnd {
      return pending, Some(RotationReconciliation);
    }
    return BegunAttempt(Some(Handle(id, oldId)), Some(secret), receipt.activatedAt, receipt.deadline), None;
  }

  lemma LicensedTogether(log: seq<Op>, longer: seq<Op>, from: nat, policy: Policy, env: Environment)
    requires AddsOnlyLicensed(log, from, policy, env) && log <= longer
    requires AddsOnlyLicensed(longer, |log|, policy, env)
    ensures AddsOnlyLicensed(longer, from, policy, env)
  {
    forall k | from <= k < |longer| ensures Licensed(longer[k], policy, env) {
      if k < |log| {
        assert longer[k] == log[k];
      }
    }
  }

  lemma LicensedSoFar(log: seq<Op>, others: seq<Op>, created: seq<Op>, policy: Policy, env: Environment)
    requires log <= others && forall k :: |log| <= k < |others| ==> others[k] in env.beforeCreate
    requires created == others ||
      (created != [] && created[|created| - 1].CreateRotation? &&
       created == others + [CreateStep(policy, env, created[|created| - 1].expected)])
    ensures AddsOnlyLicensed(created, |log|, policy, env)
  {
    forall k | |log| <= k < |created| ensures Licensed(created[k], policy, env) {
      if k < |others| {
        assert created[k] == others[k];
      }
    }
  }

  /** After a confirmed create: activates, unless the token is lost or the caller has gone. */
  method Proceed(repo: Repository, policy: Policy, env: Environment, id: RecordId, oldId: RecordId,
                 secret: Option<nat>, ghost from: nat)
      returns (attempt: BegunAttempt, err: Option<RotationError>)
    requires repo.Valid() && ValidPolicy(policy) && ValidEnvironment(env) && Issued(repo.log, id, oldId)
    requires id == env.newId && id != 0 && oldId != 0 && id != oldId && from <= |repo.log|
    requires secret.Some? ==> secret == Some(env.secret)
    modifies repo
    ensures repo.Valid() && old(repo.log) <= repo.log
    ensures Justified(repo.log, from, repo.store, env, attempt, err)
    ensures (&& secret.Some? && Undisturbed(env)
             && Decide(old(repo.store), ActivateStep(policy, env, id, oldId)).Accept?
             && ValidReceiptAt(ReceiptFor(env.activateClockNanos, policy.overlap), env.confirmClockNanos)) ==> err.None?
    ensures err.None? ==>
              && secret.Some? && env.canceledAfterCreate.None? && !env.canceledAtEnd && Timed(attempt, policy, env)
              && ValidReceiptAt(ReceiptFor(env.activateClockNanos, policy.overlap), env.confirmClockNanos)
    ensures AddsOnlyLicensed(repo.log, |old(repo.log)|, policy, env)
  {
    if secret.None? {
      attempt, err := Compensate(repo, policy, env, id, oldId, RotationUnavailable, from);
      return;
    }
    if env.canceledAfterCreate.Some? {
      attempt, err := Compensate(repo, policy, env, id, oldId, env.canceledAfterCreate.value, from);
      return;
    }
    OthersRun(repo, env.beforeActivate, env.newId);
    ghost var others := repo.log;
    IssuedStays(old(repo.log), repo.log, id, oldId);
    attempt, err := ActivateCreated(repo, policy, env, id, oldId, secret.value, from);
    LicensedTogether(others, repo.log, |old(repo.log)|, policy, env);
  }

  /** Creates a candidate beside the active record `oldId` and activates it. */
  method Replace(repo: Repository, policy: Policy, env: Environment, oldId: RecordId, ghost from: nat)
      returns (attempt: BegunAttempt, err: Option<RotationError>)
    requires repo.Valid() && ValidPolicy(policy) && ValidEnvironment(env) && env.newId !in repo.store.rows
    requires oldId != 0 && from <= |repo.log|
    modifies repo
    ensures repo.Valid() && old(repo.log) <= repo.log
    ensures Justified(repo.log, from, repo.store, env, attempt, err)
    ensures Undisturbed(env) && oldId != env.newId && Ready(old(repo.store), policy, env, oldId) ==> err.None?
    ensures err.None? ==>
              && env.generation.None? && !env.secretLost && env.canceledAfterCreate.None? && !env.canceledAtEnd
              && Timed(attempt, policy, env)
              && ValidReceiptAt(ReceiptFor(env.activateClockNanos, policy.overlap), env.confirmClockNanos)
    ensures AddsOnlyLicensed(repo.log, |old(repo.log)|, policy, env)
  {
    OthersRun(repo, env.beforeCreate, env.newId);
    ghost var others := repo.log;
    var id, secret, createErr := CreateStaged(repo, policy, env, oldId);
    LicensedSoFar(old(repo.log), others, repo.log, policy, env);
    if createErr.Some? {
      if createErr.value == OutcomeUnknown {
        return BegunAttempt(Some(Handle(id, oldId)), None, 0, 0), Some(RotationReconciliation);
      }
      return NO_ATTEMPT, Some(FromLifecycle(createErr.value));
    }
    ghost var created := repo.log;
    attempt, err := Proceed(repo, policy, env, id, oldId, secret, from);
    LicensedTogether(created, repo.log, |old(repo.log)|, policy, env);
  }

  /** What an attempt meets before it looks at the table. */
  function Early(env: Environment): Option<RotationError>
  {
    if env.canceledAtStart.Some? then env.canceledAtStart
    else if env.startClock == 0 then Some(InvalidRotation)
    else if env.resolution.Some? then env.resolution
    else if env.canceledAfterResolve.Some? then env.canceledAfterResolve
    else if env.resolvesElsewhere then Some(RotationConflict)
    else None
  }

  /** Creates and activates a replacement for the active token.  The new token is returned only
      with a nil error, and only if the pair committed with exactly the returned times.  Without a
      handle the candidate is absent or revoked; with one and an error, it names the pair to reconcile.
      The run gains only the attempt's own steps and those of the others. */
  method BeginRotation(repo: Repository, policy: Policy, env: Environment)
      returns (attempt: BegunAttempt, err: Option<RotationError>)
    requires repo.Valid() && ValidPolicy(policy) && ValidEnvironment(env) && env.newId !in repo.store.rows
    modifies repo
    ensures repo.Valid() && old(repo.log) <= repo.log
    ensures Justified(repo.log, |old(repo.log)|, repo.store, env, attempt, err)
    ensures Undisturbed(env) ==>
              forall oldId :: oldId != 0 && oldId != env.newId && Ready(old(repo.store), policy, env, oldId) ==>
                err.None?
    ensures err.None? ==> Unhindered(policy, env) && Timed(attempt, policy, env)
    ensures Early(env).Some? ==> err == Early(env) && attempt == NO_ATTEMPT && repo.log == old(repo.log)
    ensures AddsOnlyLicensed(repo.log, |old(repo.log)|, policy, env)
  {
    if env.canceledAtStart.Some? {
      return NO_ATTEMPT, env.canceledAtStart;
    }
    if env.startClock == 0 {
      return NO_ATTEMPT, Some(InvalidRotation);
    }
    if env.resolution.Some? {
      return NO_ATTEMPT, env.resolution;
    }
    if env.canceledAfterResolve.Some? {
      return NO_ATTEMPT, env.canceledAfterResolve;
    }
    if env.resolvesElsewhere {
      return NO_ATTEMPT, Some(RotationConflict);
    }
    OthersRun(repo, env.beforeInspect, env.newId);
    var oldId, stateErr := ActiveToReplace(repo, env);
    if stateErr.Some? {
      return NO_ATTEMPT, stateErr;
    }
    attempt, err := Replace(repo, policy, env, oldId, |old(repo.log)|);
  }

  /** The active record a rotation may replace, from one inspection of the live rows. */
  method ActiveToReplace(repo: Repository, env: Environment) returns (oldId: RecordId, err: Option<RotationError>)
    requires repo.Valid()
    ensures err.None? ==> oldId != 0 && HasRow(repo.store.rows, oldId, Active)
    ensures err.None? ==>
              && env.inspectClock != 0 && env.inspectFault.None? && env.canceledAfterInspect.None?
              && Load(repo.store, env.inspectClock).Loaded?
              && var snapshot := Load(repo.store, env.inspectClock).snapshot;
                 && Holds(snapshot.active, oldId) && snapshot.enabled && snapshot.status == ActiveOnly
                 && snapshot.staged.None? && snapshot.retiring.None?
    ensures (&& env.inspectClock != 0 && env.inspectFault.None? && env.canceledAfterInspect.None?
             && Load(repo.store, env.inspectClock).Loaded?
             && Load(repo.store, env.inspectClock).snapshot.status == ActiveOnly) ==> err.None?
    ensures env.inspectClock == 0 ==> err == Some(InvalidRotation)
    ensures (&& env.inspectClock != 0 && env.inspectFault.None? && env.canceledAfterInspect.None?
             && Load(repo.store, env.inspectClock).Loaded?) ==>
              var snapshot := Load(repo.store, env.inspectClock).snapshot;
              match snapshot.status
              case ActiveOnly => err.None?
              case ReconciliationRequired => err == Some(RotationReconciliation)
              case _ => err == Some(if snapshot.enabled then RotationConflict else RotationReconciliation)
  {
    EveryRunKeepsInv(repo.log);
    oldId := 0;
    if env.inspectClock == 0 {
      return 0, Some(InvalidRotation);
    }
    if env.inspectFault.Some? {
      return 0, Some(FromLifecycle(env.inspectFault.value));
    }
    var loaded := LoadState(repo.store, env.inspectClock);
    if loaded.LoadFailed? {
      return 0, Some(FromLifecycle(loaded.kind));
    }
    if env.canceledAfterInspect.Some? {
      return 0, env.canceledAfterInspect;
    }
    LoadedRows(repo.store, env.inspectClock);
    var snap := loaded.snapshot;
    if !snap.enabled || snap.status == ReconciliationRequired {
      return 0, Some(RotationReconciliation);
    }
    if snap.status != ActiveOnly {
      return 0, Some(RotationConflict);
    }
    return snap.active.value.id, None;
  }

  // ---------------------------------------------------------------- operations on a handle

  /** Reads the live rows and the two rows of the attempt in one snapshot and classifies them.  Whatever fails,
      an answer that is given is the table's, and true of the run that led to it. */
  method Inspect(repo: Repository, h: Handle, now: Time, reading: ReadSchedule, canceled: Option<RotationError>)
    returns (o: Observation)
    requires repo.Valid() && ValidReadSchedule(reading)
    ensures o.NotObserved? || o == Observe(repo.store, h.id, h.oldId, now)
    ensures reading == READS && canceled.None? ==> o == Observe(repo.store, h.id, h.oldId, now)
    ensures Issued(repo.log, h.id, h.oldId) ==> TrueOf(repo.log, h.id, h.oldId, o)
    ensures !o.NotObserved? ==> canceled.None?
  {
    EveryRunKeepsInv(repo.log);
    if Issued(repo.log, h.id, h.oldId) {
      ObservationIsTrue(repo.log, h.id, h.oldId, now);
    }
    if now == 0 || h.id == 0 || h.oldId == 0 || h.id == h.oldId {
      return NotObserved(InvalidRotation);
    }
    var r, fate := InspectAttempt(repo.store, h.id, h.oldId, now, reading);
    if r.Err? {
      return NotObserved(RotationReconciliation);
    }
    if canceled.Some? {
      return NotObserved(canceled.value);
    }
    return Classify(r.value.snapshot, r.value.newToken, r.value.oldToken, now);
  }

  /** At the instant of a rollback or a deadline finalization, the attempt is observed as ended. */
  lemma EndIsObserved(s: Store, op: Op)
    requires op.Rollback? || (op.Finalize? && op.reason == DeadlineElapsed)
    requires Inv(s) && Decide(s, op).Accept?
    ensures Observe(Apply(s, op), op.id, op.oldId, op.now) == if op.Rollback? then RolledBack else Completed
  {
    AcceptedMeans(s, op);
    if op.Rollback? {
      Exactness.AfterRollback(s, op, op.now);
    } else {
      Exactness.AfterFinalize(s, op, op.now);
    }
  }

  function MutationAnswer(err: Option<ErrorKind>): Option<RotationError>
  {
    if err.None? then None else Some(FromLifecycle(err.value))
  }

  /** One transaction, whose error comes out as a rotation error of its own kind. */
  method Send(repo: Repository, op: Op, f: Schedule) returns (err: Option<RotationError>)
    requires repo.Valid() && ValidSchedule(f) && !op.Administer?
    modifies repo
    ensures repo.Valid()
    ensures err.None? ==> repo.log == old(repo.log) + [op] && Decide(old(repo.store), op).Accept?
    ensures err.None? ==> repo.store == Apply(old(repo.store), op)
    ensures err.Some? && err.value != RotationOutcomeUnknown ==>
              repo.store == old(repo.store) && repo.log == old(repo.log)
    ensures err == Some(RotationOutcomeUnknown) ==> repo.log == old(repo.log) || repo.log == old(repo.log) + [op]
    ensures f == FAULTLESS ==> (err.None? <==> Decide(old(repo.store), op).Accept?)
    ensures Reached(f) && f.first.None? && Decide(old(repo.store), op).Reject? ==>
              match Decide(old(repo.store), op).kind
              case Invalid => err == Some(InvalidRotation)
              case Conflict => err == Some(RotationConflict)
              case _ => err.Some? && err.value !in {InvalidRotation, RotationConflict}
    ensures ValidInput(op) && Reached(f) && Decide(old(repo.store), op).Accept? && StatementFault(op, f).Some? ==>
              match StatementFault(op, f).value
              case Interrupted | OtherViolation | DatabaseError => err == Some(RotationUnavailable)
              case ContextCanceled => err == Some(RotationCanceled)
              case ContextDeadline => err == Some(RotationDeadline)
              case LiveIndexViolation => err == Some(RotationConflict)
              case Ambiguous | Unrecognized => err == Some(RotationOutcomeUnknown)
  {
    var kind, fate := repo.Mutate(op, f);
    return MutationAnswer(kind);
  }

  /** One transaction that ends an attempt, and what is observed when it has committed. */
  method End(repo: Repository, op: Op, f: Schedule) returns (err: Option<RotationError>)
    requires repo.Valid() && ValidSchedule(f) && (op.Rollback? || (op.Finalize? && op.reason == DeadlineElapsed))
    modifies repo
    ensures repo.Valid() && old(repo.log) <= repo.log
    ensures err.None? ==>
              && repo.log == old(repo.log) + [op]
              && Observe(repo.store, op.id, op.oldId, op.now) == if op.Rollback? then RolledBack else Completed
    ensures err.Some? && err.value != RotationOutcomeUnknown ==>
              repo.store == old(repo.store) && repo.log == old(repo.log)
    ensures err == Some(RotationOutcomeUnknown) ==> repo.log == old(repo.log) || repo.log == old(repo.log) + [op]
    ensures f == FAULTLESS ==> (err.None? <==> Decide(old(repo.store), op).Accept?)
    ensures Reached(f) && f.first.None? && Decide(old(repo.store), op).Reject? ==>
              match Decide(old(repo.store), op).kind
              case Invalid => err == Some(InvalidRotation)
              case Conflict => err == Some(RotationConflict)
              case _ => err.Some? && err.value !in {InvalidRotation, RotationConflict}
    ensures ValidInput(op) && Reached(f) && Decide(old(repo.store), op).Accept? && StatementFault(op, f).Some? ==>
              match StatementFault(op, f).value
              case Interrupted | OtherViolation | DatabaseError => err == Some(RotationUnavailable)
              case ContextCanceled => err == Some(RotationCanceled)
              case ContextDeadline => err == Some(RotationDeadline)
              case LiveIndexViolation => err == Some(RotationConflict)
              case Ambiguous | Unrecognized => err == Some(RotationOutcomeUnknown)
  {
    EveryRunKeepsInv(repo.log);
    err := Send(repo, op, f);
    if err.None? {
      EndIsObserved(old(repo.store), op);
    }
  }

  /** Only steps of the others led from one run to the next. */
  ghost predicate Among(log: seq<Op>, longer: seq<Op>, others: seq<Op>)
  {
    log <= longer && (forall k :: |log| <= k < |longer| ==> longer[k] in others) && (others == [] ==> longer == log)
  }

  /** What an answer says about the one step `op` that a call may add to the run. */
  ghost predicate Outcome(before: seq<Op>, after: seq<Op>, op: Op, err: Option<RotationError>)
  {
    match err
    case None => after == before + [op]
    case Some(RotationOutcomeUnknown) => after == before || after == before + [op]
    case Some(_) => after == before
  }

  /** The error that an attempt is turned away with which is not at the right point of its overlap. */
  function Turned(o: Observation): Option<RotationError>
  {
    Some(if o.NotObserved? then o.error else RotationConflict)
  }

  /** Rolls an attempt back.  Success is one committed rollback of exactly this pair, strictly
      before its deadline, and the attempt is then observed as rolled back; every error but
      outcome-unknown means this call changed nothing.  `before` is the run once the others are done. */
  method RollbackRotation(repo: Repository, h: Handle, inspectClock: Time, reading: ReadSchedule,
                          canceled: Option<RotationError>, others: seq<Op>, clock: Time, f: Schedule)
    returns (err: Option<RotationError>, ghost before: seq<Op>)
    requires repo.Valid() && ValidReadSchedule(reading) && ValidSchedule(f) && canceled != Some(RotationOutcomeUnknown)
    modifies repo
    ensures repo.Valid() && old(repo.log) <= repo.log
    ensures Among(old(repo.log), before, others) && Outcome(before, repo.log, Rollback(h.id, h.oldId, clock), err)
    ensures err.None? ==> Observe(repo.store, h.id, h.oldId, clock) == RolledBack && canceled.None?
    ensures others == [] && reading == READS && canceled.None? && f == FAULTLESS && clock == inspectClock ==>
              (err.None? <==> (&& Observe(old(repo.store), h.id, h.oldId, clock).OverlapOpen?
                               && clock < Observe(old(repo.store), h.id, h.oldId, clock).deadline))
              && (err.Some? ==> err == Turned(Observe(old(repo.store), h.id, h.oldId, clock)))
  {
    err, before := None, repo.log;
    var o := Inspect(repo, h, inspectClock, reading, canceled);
    if o.NotObserved? {
      return Some(o.error), before;
    }
    if !o.OverlapOpen? || inspectClock >= o.deadline {
      return Some(RotationConflict), before;
    }
    OthersRun(repo, others, 0);
    before := repo.log;
    EveryRunKeepsInv(repo.log);
    OpenPairDecides(repo.store, h, clock);
    err := End(repo, Rollback(h.id, h.oldId, clock), f);
  }

  /** Completes an attempt, only ever for an elapsed deadline.  Success is one committed
      finalization of exactly this pair, and the attempt is then observed as completed; every error
      but outcome-unknown means this call changed nothing.  `before` is the run once the others are done. */
  method FinalizeRotation(repo: Repository, h: Handle, inspectClock: Time, reading: ReadSchedule,
                          canceled: Option<RotationError>, others: seq<Op>, clock: Time, f: Schedule)
    returns (err: Option<RotationError>, ghost before: seq<Op>)
    requires repo.Valid() && ValidReadSchedule(reading) && ValidSchedule(f) && canceled != Some(RotationOutcomeUnknown)
    modifies repo
    ensures repo.Valid() && old(repo.log) <= repo.log
    ensures Among(old(repo.log), before, others)
    ensures Outcome(before, repo.log, Finalize(h.id, h.oldId, DeadlineElapsed, clock), err)
    ensures err.None? ==> Observe(repo.store, h.id, h.oldId, clock) == Completed && canceled.None?
    ensures others == [] && reading == READS && canceled.None? && f == FAULTLESS && clock == inspectClock ==>
              (err.None? <==> (&& Observe(old(repo.store), h.id, h.oldId, clock).OverlapOpen?
                               && clock >= Observe(old(repo.store), h.id, h.oldId, clock).deadline))
              && (err.Some? ==> err == Turned(Observe(old(repo.store), h.id, h.oldId, clock)))
  {
    err, before := None, repo.log;
    var o := Inspect(repo, h, inspectClock, reading, canceled);
    if o.NotObserved? {
      return Some(o.error), before;
    }
    if !o.OverlapOpen? || inspectClock < o.deadline {
      return Some(RotationConflict), before;
    }
    OthersRun(repo, others, 0);
    before := repo.log;
    EveryRunKeepsInv(repo.log);
    OpenPairDecides(repo.store, h, clock);
    err := End(repo, Finalize(h.id, h.oldId, DeadlineElapsed, clock), f);
  }

  /** An overlap observed as open has its one way out accepted by the repository. */
  lemma OpenPairDecides(s: Store, h: Handle, now: Time)
    requires Inv(s)
    ensures Observe(s, h.id, h.oldId, now).OverlapOpen? ==>
              var deadline := Observe(s, h.id, h.oldId, now).deadline;
              && (Decide(s, Rollback(h.id, h.oldId, now)).Accept? <==> now < deadline)
              && (Decide(s, Finalize(h.id, h.oldId, DeadlineElapsed, now)).Accept? <==> deadline <= now)
  {
    if Observe(s, h.id, h.oldId, now).OverlapOpen? {
      LoadedRows(s, now);
      Continuity.OneWayOutOfAnOverlap(s, h.id, h.oldId, now);
    }
  }
}
