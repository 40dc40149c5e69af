/** Destination tokens as they are stored: rows, their validity, when a token may be used,
    and the snapshot that every lifecycle decision is taken on. */
module Tokens {
  import opened Options

  /** A record identity; 0 is the zero identity, which no stored row carries. */
  type RecordId = nat

  /** Microseconds since the zero time.  0 is the zero time itself, which also stands for an
      absent (SQL null) optional column, as it does once a row has been read back. */
  type Time = nat

  /** A clock reading, or an instant computed from one, in nanoseconds since the zero time. */
  type Nanos = nat

  /** What is stored of an instant. */
  function Stored(n: Nanos): Time
  {
    n / 1000
  }

  const HOUR: int := 3600 * 1_000_000
  const MAX_LIFETIME: int := 90 * 24 * HOUR
  const MAX_CLEANUP: int := 24 * HOUR
  const MAX_OVERLAP: int := 24 * HOUR

  datatype TokenState = Staged | Active | Retiring | Revoked

  datatype Token = Token(
    id: RecordId,
    state: TokenState,
    createdAt: Time,
    expiresAt: Time,
    cleanupDeadline: Time,
    activatedAt: Time,
    retirementStartedAt: Time,
    retirementDeadline: Time,
    revokedAt: Time,
    stateChangedAt: Time)

  datatype Destination = Destination(enabled: bool, createdAt: Time, stateChangedAt: Time)

  type Rows = map<RecordId, Token>

  // ---------------------------------------------------------------- row validity

  predicate ValidHistory(t: Token)
  {
    && t.createdAt != 0
    && t.createdAt <= t.stateChangedAt
    && (t.activatedAt != 0 ==> t.createdAt <= t.activatedAt <= t.stateChangedAt)
    && (t.retirementStartedAt == 0 <==> t.retirementDeadline == 0)
    && (t.retirementStartedAt != 0 ==>
          && t.activatedAt != 0
          && t.activatedAt <= t.retirementStartedAt <= t.stateChangedAt
          && t.retirementStartedAt < t.retirementDeadline <= t.retirementStartedAt + MAX_OVERLAP)
    && (t.revokedAt != 0 ==> t.createdAt <= t.revokedAt <= t.stateChangedAt)
  }

  predicate ValidFields(t: Token)
  {
    match t.state
    case Staged =>
      t.activatedAt == 0 && t.retirementStartedAt == 0 && t.retirementDeadline == 0 && t.revokedAt == 0
    case Active =>
      t.activatedAt != 0 && t.retirementStartedAt == 0 && t.retirementDeadline == 0 && t.revokedAt == 0
    case Retiring =>
      t.activatedAt != 0 && t.retirementStartedAt != 0 && t.revokedAt == 0
    case Revoked =>
      t.revokedAt != 0
  }

  predicate ValidToken(t: Token)
  {
    && t.id != 0
    && t.createdAt != 0
    && t.createdAt < t.expiresAt <= t.createdAt + MAX_LIFETIME
    && t.createdAt < t.cleanupDeadline <= t.createdAt + MAX_CLEANUP
    && ValidHistory(t)
    && ValidFields(t)
  }

  predicate UsableAt(enabled: bool, t: Token, now: Time)
  {
    && enabled
    && (t.state == Active || t.state == Retiring)
    && t.activatedAt <= now < t.expiresAt
    && (t.state == Retiring ==> now < t.retirementDeadline)
  }

  // ---------------------------------------------------------------- live rows

  predicate HasRow(rows: Rows, id: RecordId, s: TokenState)
  {
    id in rows && rows[id].state == s
  }

  /** The row of `rows` in state `s`.  Only meaningful when there is at most one. */
  ghost function Pick(rows: Rows, s: TokenState): Option<Token>
  {
    if exists id :: HasRow(rows, id, s) then
      var id :| HasRow(rows, id, s);
      Some(rows[id])
    else
      None
  }

  /** The partial unique indexes: at most one staged, one active and one retiring row. */
  ghost predicate UniqueLive(rows: Rows)
  {
    forall a, b, s :: s != Revoked && HasRow(rows, a, s) && HasRow(rows, b, s) ==> a == b
  }

  /** A retiring row and the active row that replaces it carry the same activation instant. */
  predicate Linked(active: Token, retiring: Token)
  {
    && active.activatedAt == retiring.retirementStartedAt
    && active.stateChangedAt == active.activatedAt
    && retiring.stateChangedAt == retiring.retirementStartedAt
  }

  ghost predicate Coherent(rows: Rows)
  {
    && UniqueLive(rows)
    && (Pick(rows, Retiring).Some? ==>
          && Pick(rows, Staged).None?
          && Pick(rows, Active).Some?
          && Linked(Pick(rows, Active).value, Pick(rows, Retiring).value))
  }

  lemma PickIs(rows: Rows, id: RecordId)
    requires UniqueLive(rows) && id in rows && rows[id].state != Revoked
    ensures Pick(rows, rows[id].state) == Some(rows[id])
  {
    assert HasRow(rows, id, rows[id].state);
  }

  // ---------------------------------------------------------------- snapshots

  datatype Status =
    | Unprovisioned | StagedInitial | ActiveOnly | ActiveWithStaged | ActiveWithRetiring
    | ReconciliationRequired

  datatype Snapshot = Snapshot(
    enabled: bool,
    status: Status,
    staged: Option<Token>,
    active: Option<Token>,
    retiring: Option<Token>)

  predicate StaleRow(enabled: bool, t: Token, now: Time)
  {
    || t.createdAt > now
    || t.stateChangedAt > now
    || (t.state == Staged && (now >= t.expiresAt || now >= t.cleanupDeadline))
    || ((t.state == Active || t.state == Retiring) && !UsableAt(enabled, t, now))
  }

  predicate StaleSlot(enabled: bool, t: Option<Token>, now: Time)
  {
    t.Some? && StaleRow(enabled, t.value, now)
  }

  predicate AnyStale(enabled: bool, staged: Option<Token>, active: Option<Token>, retiring: Option<Token>, now: Time)
  {
    StaleSlot(enabled, staged, now) || StaleSlot(enabled, active, now) || StaleSlot(enabled, retiring, now)
  }

  function StatusOf(
      enabled: bool, staged: Option<Token>, active: Option<Token>, retiring: Option<Token>, now: Time): Status
  {
    if !enabled || AnyStale(enabled, staged, active, retiring, now)
    then ReconciliationRequired
    else if staged.Some? && active.None? then StagedInitial
    else if staged.Some? then ActiveWithStaged
    else if retiring.Some? then ActiveWithRetiring
    else if active.Some? then ActiveOnly
    else Unprovisioned
  }

  /** What the complete set of live rows of `rows` amounts to at `now`: nothing when the rows
      contradict the protocol, and otherwise the three live rows and their status. */
  ghost function SnapshotOf(d: Destination, rows: Rows, now: Time): Option<Snapshot>
  {
    if !Coherent(rows) then None
    else
      var staged, active, retiring := Pick(rows, Staged), Pick(rows, Active), Pick(rows, Retiring);
      Some(Snapshot(d.enabled, StatusOf(d.enabled, staged, active, retiring, now), staged, active, retiring))
  }

  /** `tokens` lists every live row of `rows` exactly once, in any order. */
  ghost predicate Lists(tokens: seq<Token>, rows: Rows)
  {
    && (forall i :: 0 <= i < |tokens| ==>
          && HasRow(rows, tokens[i].id, tokens[i].state)
          && rows[tokens[i].id] == tokens[i] && tokens[i].state != Revoked)
    && (forall i, j :: 0 <= i < j < |tokens| ==> tokens[i].id != tokens[j].id)
    && (forall id, s :: HasRow(rows, id, s) && s != Revoked ==> exists i :: 0 <= i < |tokens| && tokens[i].id == id)
  }

  /** What a scan of the first `n` tokens leaves in the variable for state `s`. */
  function Slot(tokens: seq<Token>, n: nat, s: TokenState): Option<Token>
    requires n <= |tokens|
  {
    if n == 0 then None
    else if tokens[n - 1].state == s then Some(tokens[n - 1])
    else Slot(tokens, n - 1, s)
  }

  /** One of the first `n` tokens is out of date at `now`. */
  predicate StaleAmong(enabled: bool, tokens: seq<Token>, n: nat, now: Time)
    requires n <= |tokens|
  {
    n > 0 && (StaleAmong(enabled, tokens, n - 1, now) || StaleRow(enabled, tokens[n - 1], now))
  }

  /** Two of the first `n` tokens cannot both be live rows of one well-formed table. */
  ghost predicate Clash(tokens: seq<Token>, n: nat)
    requires n <= |tokens|
  {
    || (exists i :: 0 <= i < n && tokens[i].state == Revoked)
    || (exists i, j :: 0 <= i < j < n && (tokens[i].id == tokens[j].id || tokens[i].state == tokens[j].state))
  }

  lemma {:induction false} SlotFinds(tokens: seq<Token>, n: nat, s: TokenState)
    requires n <= |tokens|
    ensures Slot(tokens, n, s).Some? ==>
              exists i :: 0 <= i < n && tokens[i].state == s && Slot(tokens, n, s) == Some(tokens[i])
    ensures Slot(tokens, n, s).None? ==> forall i :: 0 <= i < n ==> tokens[i].state != s
  {
    if n > 0 {
      SlotFinds(tokens, n - 1, s);
    }
  }

  lemma SlotIsPick(tokens: seq<Token>, rows: Rows, s: TokenState)
    requires Lists(tokens, rows) && s != Revoked && UniqueLive(rows)
    ensures Slot(tokens, |tokens|, s) == Pick(rows, s)
  {
    SlotFinds(tokens, |tokens|, s);
    forall id | HasRow(rows, id, s)
      ensures Slot(tokens, |tokens|, s) == Some(rows[id])
    {
      var i :| 0 <= i < |tokens| && tokens[i].id == id;
      assert tokens[i].state == s;
      var k :| 0 <= k < |tokens| && tokens[k].state == s && Slot(tokens, |tokens|, s) == Some(tokens[k]);
      assert HasRow(rows, tokens[k].id, s);
    }
    if Slot(tokens, |tokens|, s).Some? {
      var k :| 0 <= k < |tokens| && tokens[k].state == s && Slot(tokens, |tokens|, s) == Some(tokens[k]);
      assert HasRow(rows, tokens[k].id, s);
    }
  }

  lemma {:induction false} StaleSlots(enabled: bool, tokens: seq<Token>, n: nat, now: Time)
    requires n <= |tokens| && !Clash(tokens, n)
    ensures StaleAmong(enabled, tokens, n, now) ==
            AnyStale(enabled, Slot(tokens, n, Staged), Slot(tokens, n, Active), Slot(tokens, n, Retiring), now)
  {
    if n > 0 {
      StaleSlots(enabled, tokens, n - 1, now);
      SlotFinds(tokens, n - 1, tokens[n - 1].state);
    }
  }

  /** The scan over the rows read for one destination: it fills one variable for each live
      state and notices every row that is out of date at `now`. */
  method ScanLive(enabled: bool, tokens: seq<Token>, now: Time)
    returns (ok: bool, staged: Option<Token>, active: Option<Token>, retiring: Option<Token>, stale: bool)
    ensures ok <==> !Clash(tokens, |tokens|)
    ensures ok ==> staged == Slot(tokens, |tokens|, Staged) && active == Slot(tokens, |tokens|, Active)
    ensures ok ==> retiring == Slot(tokens, |tokens|, Retiring) && stale == StaleAmong(enabled, tokens, |tokens|, now)
  {
    ok, staged, active, retiring, stale := true, None, None, None, false;
    var seen: set<RecordId> := {};
    for n := 0 to |tokens|
      invariant ok && !Clash(tokens, n)
      invariant forall id :: id in seen <==> exists i :: 0 <= i < n && tokens[i].id == id
      invariant staged == Slot(tokens, n, Staged) && active == Slot(tokens, n, Active)
      invariant retiring == Slot(tokens, n, Retiring)
      invariant stale == StaleAmong(enabled, tokens, n, now)
    {
      var t := tokens[n];
      SlotFinds(tokens, n, t.state);
      if t.id in seen || t.state == Revoked || (t.state == Staged && staged.Some?)
         || (t.state == Active && active.Some?) || (t.state == Retiring && retiring.Some?) {
        ok := false;
        return;
      }
      seen := seen + {t.id};
      stale := stale || t.createdAt > now || t.stateChangedAt > now;
      match t.state {
        case Staged =>
          staged := Some(t);
          stale := stale || now >= t.expiresAt || now >= t.cleanupDeadline;
        case Active =>
          active := Some(t);
          stale := stale || !UsableAt(enabled, t, now);
        case Retiring =>
          retiring := Some(t);
          stale := stale || !UsableAt(enabled, t, now);
        case Revoked =>
      }
    }
  }

  /** Validates and classifies the live rows read for one destination.  Whatever the order of
      the rows, the result is that of `SnapshotOf` on the table they were read from. */
  method NewSnapshot(d: Destination, tokens: seq<Token>, now: Time) returns (r: Option<Snapshot>)
    ensures now == 0 || |tokens| > 3 || Clash(tokens, |tokens|) ==> r.None?
    ensures now != 0 && |tokens| <= 3 ==> forall rows :: Lists(tokens, rows) ==> r == SnapshotOf(d, rows, now)
  {
    if now == 0 || |tokens| > 3 {
      return None;
    }
    var ok, staged, active, retiring, staleRow := ScanLive(d.enabled, tokens, now);
    if !ok {
      forall rows | Lists(tokens, rows) ensures SnapshotOf(d, rows, now) == None {
        ClashIsIncoherent(tokens, rows);
      }
      return None;
    }
    var stale := !d.enabled || staleRow;
    forall rows | Lists(tokens, rows)
      ensures Pick(rows, Staged) == staged && Pick(rows, Active) == active && Pick(rows, Retiring) == retiring
      ensures UniqueLive(rows)
    {
      DistinctStatesAreUnique(tokens, rows);
      SlotIsPick(tokens, rows, Staged);
      SlotIsPick(tokens, rows, Active);
      SlotIsPick(tokens, rows, Retiring);
    }
    StaleSlots(d.enabled, tokens, |tokens|, now);
    if (staged.Some? && retiring.Some?) || (retiring.Some? && active.None?) {
      return None;
    }
    if active.Some? && retiring.Some? && !Linked(active.value, retiring.value) {
      return None;
    }
    if stale {
      return Some(Snapshot(d.enabled, ReconciliationRequired, staged, active, retiring));
    }
    var status :=
      if staged.None? && active.None? && retiring.None? then Unprovisioned
      else if staged.Some? && active.None? then StagedInitial
      else if active.Some? && staged.None? && retiring.None? then ActiveOnly
      else if active.Some? && staged.Some? && retiring.None? then ActiveWithStaged
      else ActiveWithRetiring;
    return Some(Snapshot(d.enabled, status, staged, active, retiring));
  }

  lemma DistinctStatesAreUnique(tokens: seq<Token>, rows: Rows)
    requires Lists(tokens, rows) && !Clash(tokens, |tokens|)
    ensures UniqueLive(rows)
  {
    forall a, b, s | s != Revoked && HasRow(rows, a, s) && HasRow(rows, b, s)
      ensures a == b
    {
      var i :| 0 <= i < |tokens| && tokens[i].id == a;
      var j :| 0 <= j < |tokens| && tokens[j].id == b;
      assert tokens[i].state == s && tokens[j].state == s;
    }
  }

  lemma ClashIsIncoherent(tokens: seq<Token>, rows: Rows)
    requires Lists(tokens, rows) && Clash(tokens, |tokens|)
    ensures !UniqueLive(rows)
  {
    var i, j :| 0 <= i < j < |tokens| && (tokens[i].id == tokens[j].id || tokens[i].state == tokens[j].state);
    assert HasRow(rows, tokens[i].id, tokens[i].state) && HasRow(rows, tokens[j].id, tokens[i].state);
  }
}
