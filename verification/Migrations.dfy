/** Schema migrations: how the migration log is judged, how one migration is applied, and what the
    runner does to the log whatever the database answers. */
module Migrations {
  import opened Options
  import opened Connections

  datatype Migration = Migration(version: int, checksum: string)

  /** `at` is 0 for the zero time. */
  datatype Applied = Applied(version: int, checksum: string, at: nat)

  /** The migration table, if there is one, with its rows in the order of their versions. */
  datatype Database = Database(present: bool, complete: bool, log: seq<Applied>)

  datatype Status = Uninitialized | Behind | Current | Ahead | Invalid | Unqueried

  datatype Inspection = Inspection(status: Status, current: int, target: int)

  datatype Error =
    | SchemaAhead | SchemaInvalid | SchemaQuery | MigrationFailed | MigrationInterrupted | MigrationLock

  /** What loading the embedded migrations guarantees. */
  predicate Contiguous(ms: seq<Migration>)
  {
    ms != [] && forall i :: 0 <= i < |ms| ==> ms[i].version == i + 1 && ms[i].checksum != ""
  }

  /** Row `i` of the log is in its place and, as far as there is a migration for it, has its checksum. */
  predicate InPlace(log: seq<Applied>, ms: seq<Migration>, i: int)
    requires 0 <= i < |log|
  {
    && log[i].version == i + 1 && log[i].checksum != "" && log[i].at != 0
    && (i < |ms| ==> log[i].checksum == ms[i].checksum)
  }

  predicate Consistent(log: seq<Applied>, ms: seq<Migration>)
  {
    forall i :: 0 <= i < |log| ==> InPlace(log, ms, i)
  }

  /** What a log is, said without going through it. */
  predicate Judged(db: Database, ms: seq<Migration>, s: Status)
  {
    if !db.present then s == Uninitialized
    else if !db.complete || db.log == [] || !Consistent(db.log, ms) then s == Invalid
    else s == if |db.log| > |ms| then Ahead else if |db.log| < |ms| then Behind else Current
  }

  method ClassifySnapshot(db: Database, ms: seq<Migration>) returns (r: Inspection)
    ensures Judged(db, ms, r.status) && r.target == |ms|
    ensures r.status == Uninitialized ==> r.current == 0
    ensures r.status in {Behind, Current, Ahead} ==> r.current == |db.log|
  {
    r := Inspection(Current, 0, |ms|);
    if !db.present {
      return r.(status := Uninitialized);
    }
    if !db.complete || |db.log| == 0 {
      return r.(status := Invalid);
    }
    for index := 0 to |db.log|
      invariant forall i :: 0 <= i < index ==> InPlace(db.log, ms, i)
      invariant r.current == index && r.target == |ms|
    {
      var applied := db.log[index];
      if applied.version != index + 1 || applied.checksum == "" || applied.at == 0 {
        assert !InPlace(db.log, ms, index);
        return r.(status := Invalid);
      }
      r := r.(current := applied.version);
      if applied.version <= |ms| && applied.checksum != ms[index].checksum {
        assert !InPlace(db.log, ms, index);
        return r.(status := Invalid);
      }
    }
    if r.current > r.target {
      return r.(status := Ahead);
    }
    if r.current < r.target {
      return r.(status := Behind);
    }
    return r.(status := Current);
  }

  // ---------------------------------------------------------------- sessions

  /** What the database does to one request; each failure says whether it is an interruption. */
  datatype Faults = Faults(
    query: bool, begin: Option<bool>, execute: Option<bool>, record: Option<bool>, commit: CommitReply,
    commitInterrupted: bool, rollback: RollbackReply, at: nat)

  /** One answer of a session: honest up to faults, or anything at all. */
  datatype Turn =
    | Honest(faults: Faults)
    | Lying(inspection: Result<Inspection, Error>, apply: Option<Error>)

  predicate ValidTurn(t: Turn)
  {
    t.Honest? ==> t.faults.at > 0
  }

  predicate Faultless(f: Faults)
  {
    f.begin.None? && f.execute.None? && f.record.None? && f.commit.Acknowledged?
  }

  /** The script creates the table first, and no version is recorded twice. */
  predicate Executable(db: Database, m: Migration)
  {
    (m.version == 1 <==> !db.present) && forall a :: a in db.log ==> a.version != m.version
  }

  function Recorded(db: Database, m: Migration, at: nat): Database
  {
    Database(true, db.present ==> db.complete, db.log + [Applied(m.version, m.checksum, at)])
  }

  function Failure(interrupted: bool): Error
  {
    if interrupted then MigrationInterrupted else MigrationFailed
  }

  /** The error that an attempt ends with is an interruption: the one that the first failing request meets, or
      any error at all once the transaction cannot be rolled back. */
  predicate Interrupted(db: Database, m: Migration, f: Faults)
  {
    if f.begin.Some? then f.begin.value
    else
      || f.rollback.RollbackFailed?
      || (if f.execute.Some? then f.execute.value
          else if f.record.Some? then f.record.value
          else Executable(db, m) && f.commitInterrupted)
  }

  class Session {
    var db: Database
    var turns: nat
    const script: nat -> Turn

    constructor (db: Database, script: nat -> Turn)
      ensures this.db == db && this.turns == 0 && this.script == script
    {
      this.db, this.turns, this.script := db, 0, script;
    }

    method Inspect(ms: seq<Migration>) returns (r: Result<Inspection, Error>)
      modifies this`turns
      ensures turns == old(turns) + 1
      ensures script(old(turns)).Lying? ==> r == script(old(turns)).inspection
      ensures script(old(turns)).Honest? && script(old(turns)).faults.query ==> r == Err(SchemaQuery)
      ensures script(old(turns)).Honest? && !script(old(turns)).faults.query ==>
        && r.Ok? && Judged(db, ms, r.value.status)
        && (r.value.status == Uninitialized ==> r.value.current == 0)
        && (r.value.status in {Behind, Current, Ahead} ==> r.value.current == |db.log|)
    {
      var turn := script(turns);
      turns := turns + 1;
      if turn.Lying? {
        return turn.inspection;
      }
      if turn.faults.query {
        return Err(SchemaQuery);
      }
      var inspection := ClassifySnapshot(db, ms);
      r := Ok(inspection);
    }

    /** Applies one migration and its record in one transaction.  An error leaves the log alone, unless it is
        the acknowledgement of the commit that is lost. */
    method Apply(m: Migration) returns (e: Option<Error>)
      modifies this
      ensures turns == old(turns) + 1
      ensures script(old(turns)).Lying? ==> db == old(db) && e == script(old(turns)).apply
      ensures script(old(turns)).Honest? ==>
        var f := script(old(turns)).faults;
        && (e.None? ==> Faultless(f) && Executable(old(db), m) && db == Recorded(old(db), m, f.at))
        && (e.Some? && db != old(db) ==>
              Executable(old(db), m) && db == Recorded(old(db), m, f.at) && f.commit == CommitLost(true))
        && (e.Some? ==> e.value in {MigrationFailed, MigrationInterrupted})
        && (e.Some? && f.begin.None? && f.rollback.RollbackFailed? ==> e == Some(MigrationInterrupted))
        && (Faultless(f) && Executable(old(db), m) ==> e.None?)
        && (e.Some? ==> (e.value == MigrationInterrupted <==> Interrupted(old(db), m, f)))
        && (f.begin.None? && f.execute.None? && f.record.None? && Executable(old(db), m) && TookEffect(f.commit) ==>
              db == Recorded(old(db), m, f.at))
    {
      var turn := script(turns);
      turns := turns + 1;
      if turn.Lying? {
        return turn.apply;
      }
      var f := turn.faults;
      if f.begin.Some? {
        return Some(Failure(f.begin.value));
      }
      if f.execute.Some? {
        e := Some(Failure(f.execute.value));
      } else if f.record.Some? || !Executable(db, m) {
        e := Some(Failure(f.record == Some(true)));
      } else if !f.commit.Acknowledged? {
        if TookEffect(f.commit) {
          db := Recorded(db, m, f.at);
        }
        e := Some(Failure(f.commitInterrupted));
      } else {
        db := Recorded(db, m, f.at);
        return None;
      }
      if f.rollback.RollbackFailed? {
        e := Some(MigrationInterrupted);
      }
    }
  }

  // ---------------------------------------------------------------- the runner

  ghost predicate HonestScript(script: nat -> Turn)
  {
    forall n :: script(n).Honest? && ValidTurn(script(n))
  }

  ghost predicate FaultlessScript(script: nat -> Turn)
  {
    forall n :: script(n).Honest? && ValidTurn(script(n)) && !script(n).faults.query && Faultless(script(n).faults)
  }

  /** A log that the runner may extend: absent, or a proper start of the migrations. */
  predicate Extendable(db: Database, ms: seq<Migration>)
  {
    if !db.present then db.log == [] else db.complete && db.log != [] && Consistent(db.log, ms) && |db.log| <= |ms|
  }

  /** Nothing was taken from the log, and what was added are the next migrations, in order and once each. */
  predicate Extends(db: Database, db': Database, ms: seq<Migration>)
  {
    && db.log <= db'.log
    && forall i :: |db.log| <= i < |db'.log| ==> i < |ms| && InPlace(db'.log, ms, i)
  }

  lemma RecordedExtends(db0: Database, db: Database, ms: seq<Migration>, at: nat)
    requires Contiguous(ms) && at > 0 && Extendable(db, ms) && |db.log| < |ms| && Extends(db0, db, ms)
    ensures Executable(db, ms[|db.log|])
    ensures Extendable(Recorded(db, ms[|db.log|], at), ms) && Extends(db0, Recorded(db, ms[|db.log|], at), ms)
  {
    var next := Recorded(db, ms[|db.log|], at);
    forall a | a in db.log ensures a.version != ms[|db.log|].version {
      var i :| 0 <= i < |db.log| && db.log[i] == a;
      assert InPlace(db.log, ms, i);
    }
    forall i | 0 <= i < |db.log| ensures InPlace(next.log, ms, i) {
      assert InPlace(db.log, ms, i);
    }
    assert InPlace(next.log, ms, |db.log|);
    forall i | |db0.log| <= i < |next.log| ensures i < |ms| && InPlace(next.log, ms, i) {
    }
  }

  /** An answer to the first inspection that passes for an acceptable log but has a negative version, which
      no list has an entry for. */
  predicate OutOfRange(t: Turn)
  {
    && t.Lying? && t.inspection.Ok?
    && t.inspection.value.status in {Uninitialized, Behind, Current} && t.inspection.value.current < 0
  }

  /** The runner comes to an end for every script, even a lying one, but not always by returning: it panics,
      indexing the migrations out of range, exactly if the first inspection is out of range.  With an honest
      session it only ever adds the missing migrations, it leaves a log that is ahead or invalid alone, and it
      reports success exactly on a complete log. */
  method Run(session: Session, ms: seq<Migration>) returns (e: Option<Error>, panics: bool)
    requires Contiguous(ms) && (session.db.present || session.db.log == [])
    modifies session
    ensures HonestScript(session.script) ==>
      && Extends(old(session.db), session.db, ms)
      && (!Extendable(old(session.db), ms) ==> e.Some? && session.db == old(session.db))
      && (e.None? ==> |session.db.log| == |ms| && Judged(session.db, ms, Current))
      && !panics
    ensures session.script(old(session.turns)).Honest? ==>
      var first := session.script(old(session.turns)).faults;
      && (first.query ==> e == Some(SchemaQuery))
      && (!first.query && Judged(old(session.db), ms, Ahead) ==> e == Some(SchemaAhead))
      && (!first.query && Judged(old(session.db), ms, Invalid) ==> e == Some(SchemaInvalid))
    ensures panics <==> OutOfRange(session.script(old(session.turns)))
    ensures panics ==> e.None? && session.db == old(session.db)
    ensures FaultlessScript(session.script) && Extendable(old(session.db), ms) ==> e.None?
  {
    e, panics := None, false;
    var r := session.Inspect(ms);
    if r.Err? {
      return Some(r.error), false;
    }
    var inspection := r.value;
    if inspection.status == Ahead {
      return Some(SchemaAhead), false;
    }
    if inspection.status == Invalid {
      return Some(SchemaInvalid), false;
    }
    if inspection.status == Unqueried {
      return Some(SchemaQuery), false;
    }
    if inspection.current < 0 {
      return None, true;
    }
    while inspection.current < |ms|
      invariant inspection.current >= 0
      invariant HonestScript(session.script) ==>
        && Extendable(old(session.db), ms) && Extendable(session.db, ms) && Extends(old(session.db), session.db, ms)
        && inspection.current == |session.db.log|
      decreases |ms| - inspection.current
    {
      var next := ms[inspection.current];
      if HonestScript(session.script) {
        RecordedExtends(old(session.db), session.db, ms, session.script(session.turns).faults.at);
      }
      e := session.Apply(next);
      if e.Some? {
        return e, false;
      }
      r := session.Inspect(ms);
      if r.Err? {
        return Some(r.error), false;
      }
      inspection := r.value;
      if inspection.current != next.version || (inspection.status != Behind && inspection.status != Current) {
        return Some(SchemaInvalid), false;
      }
    }
    r := session.Inspect(ms);
    if r.Err? {
      return Some(r.error), false;
    }
    if r.value.status != Current || r.value.current != |ms| {
      return Some(SchemaInvalid), false;
    }
    return None, false;
  }

  const NEGATIVE := Lying(Ok(Inspection(Behind, -1, 2)), None)

  /** So "a run always returns" is false of a lying session: one reply is enough, whatever follows it. */
  lemma NotEveryRunReturns(script: nat -> Turn)
    ensures exists turn :: OutOfRange(turn)
    ensures script(0) == NEGATIVE ==> OutOfRange(script(0))
  {
    assert OutOfRange(NEGATIVE);
  }

  /** The same as a run: the table is in order, and the runner panics. */
  method NegativeVersionPanics(ms: seq<Migration>) returns (panics: bool)
    requires Contiguous(ms)
    ensures panics
  {
    var session := new Session(Database(false, false, []), _ => NEGATIVE);
    var e;
    e, panics := Run(session, ms);
  }

  // ---------------------------------------------------------------- the lock around it

  /** Gives the lock back, or the connection up.  A connection is reused only if the lock is known to be free,
      and success is reported only then. */
  method Finish(run: Option<Error>, unlocked: Result<bool, ()>) returns (e: Option<Error>, fate: Fate)
    ensures fate == Released <==> run != Some(MigrationInterrupted) && unlocked == Ok(true)
    ensures e.None? <==> run.None? && fate == Released
    ensures run.Some? ==> e == run
  {
    if run == Some(MigrationInterrupted) {
      return run, Destroyed;
    }
    if unlocked != Ok(true) {
      return if run.Some? then run else Some(MigrationLock), Destroyed;
    }
    return run, Released;
  }
}
