/** What the rotation participant concludes about one attempt from the rows that survive it. */
module Rotation {
  import opened Options
  import opened Tokens
  import L = Lifecycle

  datatype RotationError =
    | InvalidRotation | RotationConflict | RotationUnavailable | RotationOutcomeUnknown
    | RotationReconciliation | RotationCanceled | RotationDeadline

  datatype Observation =
    | OverlapOpen(observedAt: Time, deadline: Time)
    | RolledBack
    | Completed
    | NotObserved(error: RotationError)

  predicate ActivatedHistory(n: Token, o: Token)
  {
    n.createdAt >= o.activatedAt && n.activatedAt >= o.activatedAt && n.activatedAt < n.cleanupDeadline
  }

  predicate ExactRolledBack(n: Token, o: Token, now: Time)
  {
    && n.state == Revoked && o.state == Active
    && n.revokedAt != 0 && n.revokedAt == n.stateChangedAt
    && n.createdAt != 0 && n.createdAt <= n.revokedAt <= now
    && n.retirementStartedAt == 0 && n.retirementDeadline == 0
    && o.retirementStartedAt == 0 && o.retirementDeadline == 0
    && o.revokedAt == 0 && o.activatedAt != 0
    && o.activatedAt <= o.stateChangedAt <= now
    && if n.activatedAt == 0 then n.createdAt >= o.stateChangedAt
       else
         && ActivatedHistory(n, o)
         && 0 <= n.revokedAt - n.activatedAt < MAX_OVERLAP
         && n.revokedAt < n.expiresAt
         && n.revokedAt == o.stateChangedAt
  }

  predicate ExactCompleted(n: Token, o: Token, now: Time)
  {
    && n.state == Active && o.state == Revoked
    && ActivatedHistory(n, o)
    && o.revokedAt != 0 && o.revokedAt == o.stateChangedAt
    && o.activatedAt != 0 && o.retirementStartedAt != 0 && o.retirementDeadline != 0
    && o.activatedAt <= o.retirementStartedAt
    && o.revokedAt >= o.retirementDeadline
    && o.retirementDeadline < n.expiresAt && o.retirementDeadline < o.expiresAt
    && n.activatedAt == n.stateChangedAt && n.activatedAt == o.retirementStartedAt
    && o.retirementStartedAt < o.retirementDeadline
    && o.revokedAt <= now
  }

  predicate ValidPair(active: Token, retiring: Token, now: Time)
  {
    && active.state == Active && retiring.state == Retiring
    && ActivatedHistory(active, retiring)
    && active.activatedAt != 0 && retiring.activatedAt != 0 && retiring.retirementStartedAt != 0
    && now < active.expiresAt && active.activatedAt <= now
    && active.stateChangedAt <= now && retiring.activatedAt <= now
    && retiring.retirementStartedAt <= now && retiring.stateChangedAt <= now
    && Linked(active, retiring)
    && retiring.retirementDeadline != 0
    && retiring.retirementDeadline < active.expiresAt
    && retiring.retirementDeadline < retiring.expiresAt
  }

  /** The conclusion drawn from the live rows and the two rows of the attempt, new `n` and old `o`. */
  function Classify(snap: Snapshot, n: Token, o: Token, now: Time): Observation
  {
    if !snap.enabled then NotObserved(RotationReconciliation)
    else if && snap.active == Some(n) && snap.retiring == Some(o) && snap.staged.None?
            && ValidPair(n, o, now)
            && (|| snap.status == ActiveWithRetiring
                || (snap.status == ReconciliationRequired && now >= o.retirementDeadline))
    then OverlapOpen(now, o.retirementDeadline)
    else if snap.status == ActiveWithStaged && snap.staged == Some(n) && snap.active == Some(o) && snap.retiring.None?
    then NotObserved(RotationReconciliation)
    else if && snap.status == ActiveOnly && snap.active.Some? && snap.staged.None? && snap.retiring.None?
            && L.Current(snap.active.value, now)
            && snap.active == Some(o) && ExactRolledBack(n, o, now)
    then RolledBack
    else if && snap.status == ActiveOnly && snap.active.Some? && snap.staged.None? && snap.retiring.None?
            && L.Current(snap.active.value, now)
            && snap.active == Some(n) && ExactCompleted(n, o, now)
    then Completed
    else if snap.status == ReconciliationRequired then NotObserved(RotationReconciliation)
    else NotObserved(RotationConflict)
  }

  /** A row of the attempt that is dated after the observation makes the snapshot unusable. */
  predicate NotAfter(t: Token, now: Time)
  {
    t.createdAt <= now && t.stateChangedAt <= now && t.revokedAt <= now
  }

  /** The whole observation at `now`: the live rows and the two named rows, read in one snapshot. */
  ghost function Observe(s: L.Store, id: RecordId, oldId: RecordId, now: Time): Observation
  {
    if now == 0 || id == 0 || oldId == 0 || id == oldId then NotObserved(InvalidRotation)
    else if L.Load(s, now).LoadFailed? || id !in s.rows || oldId !in s.rows then NotObserved(RotationReconciliation)
    else if !ValidToken(s.rows[id]) || !ValidToken(s.rows[oldId]) then NotObserved(RotationReconciliation)
    else if !NotAfter(s.rows[id], now) || !NotAfter(s.rows[oldId], now) then NotObserved(RotationReconciliation)
    else Classify(L.Load(s, now).snapshot, s.rows[id], s.rows[oldId], now)
  }
}
