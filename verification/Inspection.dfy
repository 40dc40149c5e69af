/** Reading the rows of one rotation attempt in a read-only transaction of its own. */
module Inspection {
  import opened Options
  import opened Connections
  import opened Tokens
  import opened Lifecycle
  import opened Rotation
  import opened Transactions

  /** What fails while the rows are read.  `scan` names a row of the result and how reading it fails; with no
      fault of the connection the row is unreadable in itself.  `end` is the error the closed result reports. */
  datatype ReadSchedule = ReadSchedule(
    acquire: Option<ErrorKind>,
    begin: Option<ReadFault>,
    load: Option<ReadFault>,
    query: Option<ReadFault>,
    scan: Option<(nat, Option<ReadFault>)>,
    end: Option<ReadFault>,
    commit: Option<ErrorKind>,
    rollbackFails: bool)

  const READS := ReadSchedule(None, None, None, None, None, None, None, false)

  predicate ValidReadSchedule(f: ReadSchedule)
  {
    && (f.acquire.Some? ==> SafeKind(f.acquire.value)) && (f.commit.Some? ==> SafeKind(f.commit.value))
    && (f.begin.Some? ==> SafeKind(f.begin.value.kind)) && (f.load.Some? ==> SafeKind(f.load.value.kind))
    && (f.query.Some? ==> SafeKind(f.query.value.kind)) && (f.end.Some? ==> SafeKind(f.end.value.kind))
    && (f.scan.Some? && f.scan.value.1.Some? ==> SafeKind(f.scan.value.1.value.kind))
  }

  datatype AttemptRows = AttemptRows(snapshot: Snapshot, newToken: Token, oldToken: Token)

  /** The live rows and the two rows of the attempt are there and in order at `now`. */
  ghost predicate Observable(s: Store, id: RecordId, oldId: RecordId, now: Time)
  {
    && now != 0 && id != 0 && oldId != 0 && id != oldId && Load(s, now).Loaded? && id in s.rows && oldId in s.rows
    && ValidToken(s.rows[id]) && ValidToken(s.rows[oldId]) && NotAfter(s.rows[id], now) && NotAfter(s.rows[oldId], now)
  }

  predicate Keyed(s: Store)
  {
    forall id :: id in s.rows ==> s.rows[id].id == id
  }

  function Present(s: Store, id: RecordId): seq<RecordId>
  {
    if id in s.rows then [id] else []
  }

  /** The rows that the two record identities select, in the order of the identities. */
  function Selected(s: Store, id: RecordId, oldId: RecordId): (ids: seq<RecordId>)
    ensures forall k :: k in ids <==> k in s.rows && (k == id || k == oldId)
  {
    if id < oldId then Present(s, id) + Present(s, oldId) else Present(s, oldId) + Present(s, id)
  }

  ghost predicate Sound(s: Store, id: RecordId)
  {
    id in s.rows ==> ValidToken(s.rows[id])
  }

  /** One row of the result, which is the new record's or the old one's. */
  method ReadRow(s: Store, next: RecordId, f: ReadSchedule, seen: nat) returns (cause: Option<Cause>, token: Token)
    requires next in s.rows && ValidReadSchedule(f)
    ensures cause.None? ==> Sound(s, next)
    ensures cause.Some? ==> SafeKind(cause.value.kind) || cause.value.kind == Reconciliation
    ensures f.scan.None? ==> (cause.None? <==> Sound(s, next)) && (cause.Some? ==> !cause.value.destroy)
    ensures token == s.rows[next]
  {
    cause, token := None, s.rows[next];
    if f.scan.Some? && f.scan.value.0 == seen {
      cause := if f.scan.value.1.None? then Some(Cause(Reconciliation, false))
               else Some(Cause(f.scan.value.1.value.kind, f.scan.value.1.value.destroy));
    } else if !ValidToken(token) {
      cause := Some(Cause(Reconciliation, false));
    }
  }

  /** The loop over the selected rows.  The primary key and the selection leave no room for a third row, a
      repeated one or one of another record. */
  method ReadPair(s: Store, id: RecordId, oldId: RecordId, f: ReadSchedule)
    returns (cause: Option<Cause>, newToken: Option<Token>, oldToken: Option<Token>)
    requires Keyed(s) && id != oldId && ValidReadSchedule(f)
    ensures cause.None? ==>
      && id in s.rows && oldId in s.rows && newToken == Some(s.rows[id]) && oldToken == Some(s.rows[oldId])
      && Sound(s, id) && Sound(s, oldId)
    ensures cause.Some? ==> SafeKind(cause.value.kind) || cause.value.kind in {Conflict, Reconciliation}
    ensures cause.None? ==> f.end.None?
    ensures f.scan.None? && f.end.None? ==>
      && (cause.None? <==> id in s.rows && oldId in s.rows && Sound(s, id) && Sound(s, oldId))
      && (cause.Some? ==> !cause.value.destroy)
  {
    cause, newToken, oldToken := None, None, None;
    var selected := Selected(s, id, oldId);
    var seen := 0;
    while seen < |selected| && cause.None?
      invariant 0 <= seen <= |selected|
      invariant cause.Some? ==> SafeKind(cause.value.kind) || cause.value.kind == Reconciliation
      invariant cause.None? ==> newToken == Found(s, selected, seen, id) && oldToken == Found(s, selected, seen, oldId)
      invariant cause.None? ==> forall k :: 0 <= k < seen ==> Sound(s, selected[k])
      invariant f.scan.None? && cause.Some? ==> !cause.value.destroy && !(Sound(s, id) && Sound(s, oldId))
    {
      var next := selected[seen];
      var token;
      cause, token := ReadRow(s, next, f, seen);
      if cause.None? {
        if token.id == id {
          newToken := Some(token);
        } else {
          oldToken := Some(token);
        }
      }
      seen := seen + 1;
    }
    assert selected[..|selected|] == selected;
    if f.end.Some? {
      cause := Some(Cause(f.end.value.kind, f.end.value.destroy));
    }
    if cause.None? && (newToken.None? || oldToken.None?) {
      cause := Some(Cause(Conflict, false));
    }
  }

  /** The row of `id` among the first `n` selected ones. */
  function Found(s: Store, selected: seq<RecordId>, n: nat, id: RecordId): Option<Token>
    requires n <= |selected|
  {
    if id in selected[..n] && id in s.rows then Some(s.rows[id]) else None
  }

  /** Reads an attempt.  Only a confirmed read gives rows, and then those of the table; every other way out
      is an error, and a connection is given back only after a confirmed rollback or commit. */
  method InspectAttempt(s: Store, id: RecordId, oldId: RecordId, now: Time, f: ReadSchedule)
    returns (r: Result<AttemptRows, ErrorKind>, fate: Fate)
    requires Keyed(s) && ValidReadSchedule(f)
    ensures r.Ok? ==>
      && fate == Released && Observable(s, id, oldId, now) && Load(s, now) == Loaded(r.value.snapshot)
      && r.value.newToken == s.rows[id] && r.value.oldToken == s.rows[oldId]
    ensures r.Ok? ==>
      && f.acquire.None? && f.begin.None? && f.load.None? && f.query.None? && f.end.None? && f.commit.None?
    ensures f.commit.Some? && f.(commit := None) == READS && Observable(s, id, oldId, now) ==>
      r == Err(f.commit.value) && fate == Destroyed
    ensures f.rollbackFails && r.Err? && fate != NotAcquired && f.begin.None? ==> fate == Destroyed
    ensures r != Err(OutcomeUnknown)
    ensures f == READS ==> (r.Ok? <==> Observable(s, id, oldId, now)) && fate != Destroyed
    ensures fate == NotAcquired <==> now == 0 || id == 0 || oldId == 0 || id == oldId || f.acquire.Some?
  {
    if now == 0 || id == 0 || oldId == 0 || id == oldId {
      return Err(Invalid), NotAcquired;
    }
    if f.acquire.Some? {
      return Err(f.acquire.value), NotAcquired;
    }
    if f.begin.Some? {
      return Err(f.begin.value.kind), if f.begin.value.destroy then Destroyed else Released;
    }
    var cause: Option<Cause> := None;
    var snapshot: Option<Snapshot> := None;
    var newToken, oldToken: Option<Token> := None, None;
    if f.load.Some? {
      cause := Some(Cause(f.load.value.kind, f.load.value.destroy));
    } else {
      var loaded := LoadState(s, now);
      if loaded.LoadFailed? {
        cause := Some(Cause(loaded.kind, false));
      } else {
        snapshot := Some(loaded.snapshot);
      }
    }
    if cause.None? && f.query.Some? {
      cause := Some(Cause(f.query.value.kind, f.query.value.destroy));
    }
    if cause.None? {
      cause, newToken, oldToken := ReadPair(s, id, oldId, f);
    }
    if cause.None? && (!NotAfter(newToken.value, now) || !NotAfter(oldToken.value, now)) {
      cause := Some(Cause(Reconciliation, false));
    }
    if cause.Some? {
      if f.rollbackFails {
        return Err(Unavailable), Destroyed;
      }
      return Err(cause.value.kind), if cause.value.destroy then Destroyed else Released;
    }
    if f.commit.Some? {
      return Err(f.commit.value), Destroyed;
    }
    return Ok(AttemptRows(snapshot.value, newToken.value, oldToken.value)), Released;
  }
}
