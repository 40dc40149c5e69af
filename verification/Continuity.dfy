/** What callers can rely on across lifecycle steps: no instant without a usable token during a
    rotation, one way out of every overlap at every instant, and rows that are never rewritten. */
module Continuity {
  import opened Tokens
  import opened Lifecycle

  /** Row `id` can be used at `at`. */
  predicate Usable(s: Store, id: RecordId, at: Time)
  {
    id in s.rows && s.dest.Some? && UsableAt(s.dest.value.enabled, s.rows[id], at)
  }

  ghost predicate SomeUsable(s: Store, at: Time)
  {
    exists id :: Usable(s, id, at)
  }

  /** Until the overlap deadline exactly the two rows of the pair are usable at every instant,
      and from the deadline to the new row's expiry exactly the new one is. */
  lemma OverlapIsGapless(s: Store, id: RecordId, oldId: RecordId, now: Time, deadline: Time, at: Time)
    requires Inv(s) && Decide(s, ActivateRotation(id, oldId, now, deadline)).Accept?
    ensures var s' := Apply(s, ActivateRotation(id, oldId, now, deadline));
            && (now <= at < deadline ==> forall k :: Usable(s', k, at) <==> k == id || k == oldId)
            && (deadline <= at < s.rows[id].expiresAt ==> forall k :: Usable(s', k, at) <==> k == id)
            && deadline < s.rows[id].expiresAt
  {
    var op := ActivateRotation(id, oldId, now, deadline);
    AcceptedMeans(s, op);
    var s' := Apply(s, op);
    forall k | Usable(s', k, at)
      ensures k == id || k == oldId
    {
      assert k != id && k != oldId ==> s'.rows[k] == s.rows[k];
      assert HasRow(s.rows, k, s.rows[k].state);
    }
  }

  /** No step at `op.now` removes the last token usable at `op.now`. */
  lemma NoStepStrandsTheDestination(s: Store, op: Op)
    requires Inv(s) && !op.Administer? && SomeUsable(s, op.now)
    ensures SomeUsable(Apply(s, op), op.now)
  {
    var k :| Usable(s, k, op.now);
    if Decide(s, op).Accept? {
      AcceptedMeans(s, op);
      var s' := Apply(s, op);
      match op {
        case CreateInitial(_, _) => assert Usable(s', k, op.now);
        case CreateRotation(_, _, _) => assert Usable(s', k, op.now);
        case ActivateInitial(id, _) => assert Usable(s', id, op.now);
        case ActivateRotation(id, _, _, _) => assert Usable(s', id, op.now);
        case Abort(_, _) => assert Usable(s', k, op.now);
        case Rollback(_, oldId, _) => assert Usable(s', oldId, op.now);
        case Finalize(id, _, _, _) => assert Usable(s', id, op.now);
      }
    }
  }

  /** While an overlap is open and its new row unexpired, exactly one of rollback and deadline
      finalization is accepted: rollback before the recorded deadline, finalization from it on. */
  lemma OneWayOutOfAnOverlap(s: Store, id: RecordId, oldId: RecordId, now: Time)
    requires Inv(s) && HasRow(s.rows, id, Active) && HasRow(s.rows, oldId, Retiring)
    requires s.dest.Some? && s.dest.value.enabled && ReadableDestination(s.dest.value, now)
    requires s.rows[id].activatedAt <= now < s.rows[id].expiresAt
    ensures Decide(s, Rollback(id, oldId, now)).Accept? <==> now < s.rows[oldId].retirementDeadline
    ensures Decide(s, Finalize(id, oldId, DeadlineElapsed, now)).Accept? <==> s.rows[oldId].retirementDeadline <= now
  {
    PickIs(s.rows, id);
    PickIs(s.rows, oldId);
    ShapeOf(s);
    LoadedRows(s, now);
  }

  /** A step adds at most one row and rewrites no identity, lifetime or cleanup deadline; a
      revoked row never changes again. */
  lemma RowsPersist(s: Store, op: Op, id: RecordId)
    requires Inv(s) && id in s.rows
    ensures var s' := Apply(s, op);
            && id in s'.rows
            && s'.rows[id].createdAt == s.rows[id].createdAt
            && s'.rows[id].expiresAt == s.rows[id].expiresAt
            && s'.rows[id].cleanupDeadline == s.rows[id].cleanupDeadline
            && (s.rows[id].state == Revoked ==> s'.rows[id] == s.rows[id])
            && (s.rows[id].stateChangedAt <= s'.rows[id].stateChangedAt)
  {
    if Decide(s, op).Accept? {
      AcceptedMeans(s, op);
    }
  }

  /** Over any continuation of a run, revoked rows are final and no row is lost. */
  lemma {:induction false} RevokedIsFinal(log: seq<Op>, more: seq<Op>, id: RecordId)
    requires id in Run(log).rows
    ensures id in Run(log + more).rows
    ensures Run(log).rows[id].state == Revoked ==> Run(log + more).rows[id] == Run(log).rows[id]
    ensures Run(log).rows[id].stateChangedAt <= Run(log + more).rows[id].stateChangedAt
  {
    if more == [] {
      assert log + more == log;
    } else {
      var n := |more| - 1;
      RevokedIsFinal(log, more[..n], id);
      assert (log + more)[..|log + more| - 1] == log + more[..n];
      EveryRunKeepsInv(log + more[..n]);
      RowsPersist(Run(log + more[..n]), more[n], id);
    }
  }
}
