/** Durable acceptance: the transaction that inserts a delivery or loads the one already stored,
    the answer a caller gets, and what both mean over every run. */
module Acceptance {
  import opened Options
  import opened Connections
  import opened Identifiers

  datatype Protected = Protected(ciphertext: string, nonce: string)

  /** What makes two deliveries the same delivery. */
  datatype Identity = Identity(principal: string, destination: string, delivery: string)

  datatype Acceptance = Acceptance(
    identity: Identity, version: int, event: Protected, digest: Protected, keyId: string, equivalence: string)

  datatype Row = Row(
    receipt: string, identity: Identity, version: int, event: Protected, digest: Protected, keyId: string)

  /** The columns of a stored row that a load returns. */
  datatype Stored = Stored(receipt: string, version: int, digest: Protected, keyId: string)

  datatype Persisted = Inserted(receipt: string) | Loaded(stored: Stored)

  datatype Error =
    | InvalidAcceptance | ReceiptGeneration
    | StoreCanceled | StoreUnavailable | StoreFailure | OutcomeUnknown | RecordUnreadable

  datatype Answer = AcceptedNew(receipt: string) | AcceptedDuplicate(receipt: string) | IdentityConflict

  type Table = seq<Row>

  predicate Sealed(p: Protected)
  {
    p.ciphertext != "" && p.nonce != ""
  }

  predicate ValidAcceptance(a: Acceptance)
  {
    && a.identity.principal != "" && a.identity.destination != "" && a.identity.delivery != ZERO_UUID
    && a.version > 0 && Sealed(a.event) && Sealed(a.digest) && a.keyId != ""
  }

  function RowOf(receipt: string, a: Acceptance): Row
  {
    Row(receipt, a.identity, a.version, a.event, a.digest, a.keyId)
  }

  function View(row: Row): Stored
  {
    Stored(row.receipt, row.version, row.digest, row.keyId)
  }

  predicate Readable(s: Stored)
  {
    s.receipt != ZERO_UUID && Sealed(s.digest) && s.version > 0 && s.keyId != ""
  }

  function Find(t: Table, id: Identity): (r: Option<Row>)
    ensures r.Some? ==> r.value in t && r.value.identity == id
    ensures r.None? ==> forall row :: row in t ==> row.identity != id
  {
    if t == [] then None else if t[0].identity == id then Some(t[0]) else Find(t[1..], id)
  }

  predicate ReceiptTaken(t: Table, receipt: string)
  {
    exists row :: row in t && row.receipt == receipt
  }

  /** The two unique constraints of the table. */
  predicate Unique(t: Table)
  {
    forall i, j :: 0 <= i < j < |t| ==> t[i].identity != t[j].identity && t[i].receipt != t[j].receipt
  }

  // ---------------------------------------------------------------- the transaction

  /** An error as the caller classifies it: by its context and by the connection. */
  datatype Failure = Failure(context: bool, interrupted: bool)

  /** What the database and the context do to one transaction.  `echo` is the receipt read back from an
      insert, and `clash` how the error looks that a receipt already in use brings. */
  datatype Faults = Faults(
    acquire: Option<Failure>, begin: Option<Failure>, insert: Option<Failure>, echo: Option<string>, clash: Failure,
    load: Option<Failure>, commit: CommitReply, rollback: RollbackReply)

  predicate Faultless(f: Faults, receipt: string)
  {
    && f.acquire.None? && f.begin.None? && f.insert.None? && f.echo == Some(receipt) && f.load.None?
    && f.commit.Acknowledged?
  }

  /** The error that the insert ends with: the statement's own, or that of a receipt already in use. */
  function InsertFailure(t: Table, receipt: string, a: Acceptance, f: Faults): Option<Failure>
  {
    if f.insert.None? && Find(t, a.identity).None? && ReceiptTaken(t, receipt) then Some(f.clash) else f.insert
  }

  /** Which error a transaction ends with, by what went wrong first. */
  predicate Explained(t: Table, receipt: string, a: Acceptance, f: Faults, e: Error)
  {
    var known, insert := Find(t, a.identity), InsertFailure(t, receipt, a, f);
    if f.acquire.Some? then e == if f.acquire.value.context then StoreCanceled else StoreUnavailable
    else if f.begin.Some? then
      e == if !f.begin.value.interrupted then StoreFailure
           else if f.begin.value.context then StoreCanceled else StoreUnavailable
    else if f.rollback.RollbackFailed? then e == OutcomeUnknown
    else if insert.Some? then
      e == if insert.value.context then StoreCanceled
           else if insert.value.interrupted then OutcomeUnknown else StoreFailure
    else if known.None? then e == if f.echo != Some(receipt) then StoreFailure else OutcomeUnknown
    else if f.load.Some? then
      e == if f.load.value.context then StoreCanceled
           else if f.load.value.interrupted then StoreUnavailable else StoreFailure
    else e == if Readable(View(known.value)) then OutcomeUnknown else RecordUnreadable
  }

  /** Only a transaction for a new identity with a new receipt adds a row, and adds just that row. */
  predicate Moved(t: Table, t': Table, receipt: string, a: Acceptance)
  {
    || t' == t
    || (Find(t, a.identity).None? && !ReceiptTaken(t, receipt) && t' == t + [RowOf(receipt, a)])
  }

  lemma MovedKeepsUnique(t: Table, t': Table, receipt: string, a: Acceptance)
    requires Unique(t) && Moved(t, t', receipt, a)
    ensures Unique(t')
  {
    if t' != t {
      forall i | 0 <= i < |t| ensures t[i].identity != a.identity && t[i].receipt != receipt {
        assert t[i] in t;
      }
    }
  }

  class Repository {
    var table: Table

    ghost predicate Valid()
      reads this
    {
      Unique(table)
    }

    constructor ()
      ensures Valid() && table == []
    {
      table := [];
    }

    /** Ends a transaction whose outcome is an error and says what becomes of its connection. */
    static method Rollback(kind: Error, destroy: bool, reply: RollbackReply) returns (error: Error, fate: Fate)
      ensures error == if reply.RollbackFailed? then OutcomeUnknown else kind
      ensures fate == if destroy || reply.RollbackFailed? then Destroyed else Released
    {
      if reply.RollbackFailed? {
        return OutcomeUnknown, Destroyed;
      }
      return kind, if destroy then Destroyed else Released;
    }

    method InsertOrLoad(receipt: string, a: Acceptance, f: Faults) returns (r: Result<Persisted, Error>, fate: Fate)
      requires Valid()
      modifies this
      ensures Valid() && Moved(old(table), table, receipt, a)
      ensures r.Ok? && r.value.Inserted? ==> r.value.receipt == receipt && table == old(table) + [RowOf(receipt, a)]
      ensures r.Ok? && r.value.Loaded? ==>
        && table == old(table) && Readable(r.value.stored)
        && Find(table, a.identity).Some? && r.value.stored == View(Find(table, a.identity).value)
      ensures r.Err? && r.error != OutcomeUnknown ==> table == old(table)
      ensures r.Ok? ==>
        && f.acquire.None? && f.begin.None? && f.insert.None? && f.commit.Acknowledged? && fate == Released
        && (r.value.Inserted? ==> f.echo == Some(receipt)) && (r.value.Loaded? ==> f.load.None?)
      ensures r == Err(OutcomeUnknown) ==> fate == Destroyed
      ensures r == Err(OutcomeUnknown) ==>
        || !f.commit.Acknowledged? || f.rollback.RollbackFailed?
        || (f.insert.Some? && f.insert.value.interrupted) || f.clash.interrupted
      ensures r == Err(RecordUnreadable) ==>
        Find(old(table), a.identity).Some? && !Readable(View(Find(old(table), a.identity).value))
      ensures fate == NotAcquired <==> f.acquire.Some?
      ensures r.Err? ==> Explained(old(table), receipt, a, f, r.error)
      ensures r.Err? && f.acquire.None? && f.begin.Some? ==> (fate == Destroyed <==> f.begin.value.interrupted)
      ensures r.Err? && r.error in {StoreCanceled, StoreFailure, RecordUnreadable} && f.begin.None? ==>
        fate != Destroyed
      ensures r == Err(StoreUnavailable) && f.acquire.None? ==> fate == Destroyed
      ensures Faultless(f, receipt) && Find(old(table), a.identity).None? && !ReceiptTaken(old(table), receipt) ==>
        r == Ok(Inserted(receipt)) && fate == Released
      ensures Faultless(f, receipt) && Find(old(table), a.identity).Some? ==>
        var stored := View(Find(old(table), a.identity).value);
        Readable(stored) ==> r == Ok(Loaded(stored)) && fate == Released
    {
      if f.acquire.Some? {
        return Err(if f.acquire.value.context then StoreCanceled else StoreUnavailable), NotAcquired;
      }
      if f.begin.Some? {
        if f.begin.value.interrupted {
          return Err(if f.begin.value.context then StoreCanceled else StoreUnavailable), Destroyed;
        }
        return Err(StoreFailure), Released;
      }
      var error: Error;
      var stored := Find(table, a.identity);
      if f.insert.Some? || (stored.None? && ReceiptTaken(table, receipt)) {
        var failure := if f.insert.Some? then f.insert.value else f.clash;
        if failure.context {
          error, fate := Rollback(StoreCanceled, false, f.rollback);
        } else if failure.interrupted {
          error, fate := Rollback(OutcomeUnknown, true, f.rollback);
        } else {
          error, fate := Rollback(StoreFailure, false, f.rollback);
        }
        return Err(error), fate;
      }
      if stored.None? {
        if f.echo != Some(receipt) {
          error, fate := Rollback(StoreFailure, false, f.rollback);
          return Err(error), fate;
        }
        MovedKeepsUnique(table, table + [RowOf(receipt, a)], receipt, a);
        if !f.commit.Acknowledged? {
          if TookEffect(f.commit) {
            table := table + [RowOf(receipt, a)];
          }
          return Err(OutcomeUnknown), Destroyed;
        }
        table := table + [RowOf(receipt, a)];
        return Ok(Inserted(receipt)), Released;
      }
      if f.load.Some? {
        if f.load.value.context {
          error, fate := Rollback(StoreCanceled, false, f.rollback);
        } else if f.load.value.interrupted {
          error, fate := Rollback(StoreUnavailable, true, f.rollback);
        } else {
          error, fate := Rollback(StoreFailure, false, f.rollback);
        }
        return Err(error), fate;
      }
      if !Readable(View(stored.value)) {
        error, fate := Rollback(RecordUnreadable, false, f.rollback);
        return Err(error), fate;
      }
      if !f.commit.Acknowledged? {
        return Err(OutcomeUnknown), Destroyed;
      }
      return Ok(Loaded(View(stored.value))), Released;
    }
  }

  // ---------------------------------------------------------------- the answer

  datatype OpenRequest = OpenRequest(digest: Protected, keyId: string, identity: Identity, version: int)

  /** One call of `Accept`: what was asked, the receipt drawn for it, and how protected digests open for it. */
  datatype Call = Call(acceptance: Acceptance, generated: Option<string>, open: OpenRequest -> Option<string>)

  /** The digest of the stored event, opened under the identity asked for and the version and key stored. */
  function Opened(s: Stored, c: Call): Option<string>
  {
    c.open(OpenRequest(s.digest, s.keyId, c.acceptance.identity, s.version))
  }

  predicate SameEvent(s: Stored, c: Call)
  {
    s.version == c.acceptance.version && Opened(s, c) == Some(c.acceptance.equivalence)
  }

  /** What one call may do to the table, and what its answer then means. */
  ghost predicate Step(t: Table, t': Table, c: Call, r: Result<Answer, Error>)
  {
    var known := Find(t, c.acceptance.identity);
    && (t' != t ==>
         && ValidAcceptance(c.acceptance) && c.generated.Some? && c.generated.value != ZERO_UUID
         && Moved(t, t', c.generated.value, c.acceptance))
    && match r
       case Ok(AcceptedNew(receipt)) =>
         && c.generated == Some(receipt) && receipt != ZERO_UUID && known.None?
         && t' == t + [RowOf(receipt, c.acceptance)]
       case Ok(AcceptedDuplicate(receipt)) =>
         && t' == t && known.Some? && Readable(View(known.value)) && receipt == known.value.receipt
         && SameEvent(View(known.value), c)
       case Ok(IdentityConflict) =>
         && t' == t && known.Some? && Readable(View(known.value)) && Opened(View(known.value), c).Some?
         && !SameEvent(View(known.value), c)
       case Err(e) => e != OutcomeUnknown ==> t' == t
  }

  /** The stored digest does not open. */
  predicate Unopened(t: Table, c: Call, e: Error)
  {
    var known := Find(t, c.acceptance.identity);
    e == RecordUnreadable && known.Some? && Opened(View(known.value), c).None?
  }

  /** A call that nothing keeps from being answered. */
  ghost predicate Served(t: Table, c: Call, f: Faults)
  {
    var known := Find(t, c.acceptance.identity);
    && ValidAcceptance(c.acceptance) && c.generated.Some? && c.generated.value != ZERO_UUID
    && Faultless(f, c.generated.value)
    && (known.None? ==> !ReceiptTaken(t, c.generated.value))
    && (known.Some? ==> Readable(View(known.value)) && Opened(View(known.value), c).Some?)
  }

  method Accept(repository: Repository, c: Call, f: Faults) returns (r: Result<Answer, Error>)
    requires repository.Valid()
    modifies repository
    ensures repository.Valid() && Step(old(repository.table), repository.table, c, r)
    ensures Served(old(repository.table), c, f) ==> r.Ok?
    ensures r == Err(InvalidAcceptance) <==> !ValidAcceptance(c.acceptance)
    ensures r == Err(ReceiptGeneration) <==>
      ValidAcceptance(c.acceptance) && (c.generated.None? || c.generated.value == ZERO_UUID)
    ensures r.Err? && r.error != InvalidAcceptance && r.error != ReceiptGeneration ==>
      || Explained(old(repository.table), c.generated.value, c.acceptance, f, r.error)
      || Unopened(old(repository.table), c, r.error)
  {
    var a := c.acceptance;
    if !ValidAcceptance(a) {
      return Err(InvalidAcceptance);
    }
    if c.generated.None? || c.generated.value == ZERO_UUID {
      return Err(ReceiptGeneration);
    }
    var receipt := c.generated.value;
    var persisted, _ := repository.InsertOrLoad(receipt, a, f);
    match persisted
    case Err(e) => r := Err(e);
    case Ok(Inserted(stored)) => r := Ok(AcceptedNew(receipt));
    case Ok(Loaded(stored)) =>
      var digest := c.open(OpenRequest(stored.digest, stored.keyId, a.identity, stored.version));
      if digest.None? {
        return Err(RecordUnreadable);
      }
      if stored.version == a.version && digest.value == a.equivalence {
        return Ok(AcceptedDuplicate(stored.receipt));
      }
      return Ok(IdentityConflict);
  }

  // ---------------------------------------------------------------- runs

  datatype Entry = Entry(call: Call, result: Result<Answer, Error>)

  /** A run from the empty table: the calls in the order of their transactions, and the table around them. */
  ghost predicate Run(tables: seq<Table>, entries: seq<Entry>)
  {
    && |tables| == |entries| + 1 && tables[0] == []
    && forall i :: 0 <= i < |entries| ==> Step(tables[i], tables[i + 1], entries[i].call, entries[i].result)
  }

  /** In every run the table keeps its constraints and no row is ever changed or removed. */
  lemma {:induction false} RowsAreImmutable(tables: seq<Table>, entries: seq<Entry>, i: nat, j: nat)
    requires Run(tables, entries) && i <= j < |tables|
    ensures tables[i] <= tables[j] && Unique(tables[j])
  {
    if j > 0 {
      var e := entries[j - 1];
      assert Step(tables[j - 1], tables[j], e.call, e.result);
      RowsAreImmutable(tables, entries, if i < j then i else i - 1, j - 1);
      if tables[j] != tables[j - 1] {
        MovedKeepsUnique(tables[j - 1], tables[j], e.call.generated.value, e.call.acceptance);
      }
    }
  }

  lemma {:induction false} FoundStaysFound(t: Table, t': Table, id: Identity)
    requires t <= t' && Find(t, id).Some?
    ensures Find(t', id) == Find(t, id)
  {
    if t[0].identity != id {
      FoundStaysFound(t[1..], t'[1..], id);
    }
  }

  lemma {:induction false} FindLast(t: Table, row: Row)
    requires Find(t, row.identity).None?
    ensures Find(t + [row], row.identity) == Some(row)
  {
    if t != [] {
      assert t[0] in t;
      FindLast(t[1..], row);
      assert (t + [row])[1..] == t[1..] + [row];
    }
  }

  /** The row that a receipt answered to a caller stands for. */
  lemma AnsweredReceipt(t: Table, t': Table, c: Call, r: Result<Answer, Error>)
    requires Step(t, t', c, r) && r.Ok? && !r.value.IdentityConflict?
    ensures Find(t', c.acceptance.identity).Some? && Find(t', c.acceptance.identity).value.receipt == r.value.receipt
  {
    if r.value.AcceptedNew? {
      FindLast(t, RowOf(r.value.receipt, c.acceptance));
    }
  }

  /** After one call was answered with a receipt, no later call for that identity is answered as new:
      it is a duplicate with the same receipt exactly if the stored version and digest are its own. */
  lemma OneReceiptPerIdentity(tables: seq<Table>, entries: seq<Entry>, i: nat, j: nat)
    requires Run(tables, entries) && i < j < |entries|
    requires entries[i].call.acceptance.identity == entries[j].call.acceptance.identity
    requires entries[i].result.Ok? && !entries[i].result.value.IdentityConflict? && entries[j].result.Ok?
    ensures Find(tables[j], entries[j].call.acceptance.identity).Some?
    ensures entries[j].result.value ==
      if SameEvent(View(Find(tables[j], entries[j].call.acceptance.identity).value), entries[j].call)
      then AcceptedDuplicate(entries[i].result.value.receipt) else IdentityConflict
  {
    var id := entries[i].call.acceptance.identity;
    assert Step(tables[i], tables[i + 1], entries[i].call, entries[i].result);
    assert Step(tables[j], tables[j + 1], entries[j].call, entries[j].result);
    AnsweredReceipt(tables[i], tables[i + 1], entries[i].call, entries[i].result);
    RowsAreImmutable(tables, entries, i + 1, j);
    FoundStaysFound(tables[i + 1], tables[j], id);
  }

  /** Every stored row was written by one call, which was answered as new or whose outcome was unknown. */
  lemma {:induction false} RowsComeFromCalls(tables: seq<Table>, entries: seq<Entry>, n: nat, id: Identity)
    returns (i: nat)
    requires Run(tables, entries) && n < |tables| && Find(tables[n], id).Some?
    ensures i < n && Find(tables[i], id).None? && ValidAcceptance(entries[i].call.acceptance)
    ensures entries[i].call.generated.Some?
    ensures Find(tables[n], id).value == RowOf(entries[i].call.generated.value, entries[i].call.acceptance)
    ensures tables[i + 1] == tables[i] + [Find(tables[n], id).value]
    ensures entries[i].result in {Err(OutcomeUnknown), Ok(AcceptedNew(entries[i].call.generated.value))}
  {
    var e := entries[n - 1];
    assert Step(tables[n - 1], tables[n], e.call, e.result);
    if Find(tables[n - 1], id).Some? {
      i := RowsComeFromCalls(tables, entries, n - 1, id);
      RowsAreImmutable(tables, entries, n - 1, n);
      FoundStaysFound(tables[n - 1], tables[n], id);
    } else {
      i := n - 1;
      var row := RowOf(e.call.generated.value, e.call.acceptance);
      var found := Find(tables[n], id).value;
      assert found in tables[n - 1] + [row];
    }
  }
}
