/** Authentication of a signed request and the reservation that lets each nonce be used once. */
module Replay {
  import opened Options
  import opened Connections
  import opened Identifiers
  import opened Signing

  /** Nanoseconds since the start of 1970. */
  type Instant = int

  const SECOND := 1_000_000_000
  const LIFETIME := 5 * 60 * SECOND
  const WINDOW := 60

  // ---------------------------------------------------------------- the timestamp window

  /** Seconds since the start of 1970, rounded down. */
  function Unix(now: Instant): int
  {
    now / SECOND
  }

  /** Unsigned 64-bit subtraction. */
  function Minus(a: int, b: int): int
  {
    (a - b) % UINT64
  }

  predicate WithinWindow(now: int, signed: int)
  {
    if signed > now then Minus(signed, now) <= WINDOW else Minus(now, signed) <= WINDOW
  }

  lemma WindowIsSymmetric(now: int, signed: int)
    requires 0 <= now < UINT64 && 0 <= signed < UINT64
    ensures WithinWindow(now, signed) <==> -60 <= now - signed <= 60
  {
  }

  predicate Accepting(now: Instant, signed: int)
  {
    0 <= Unix(now) < UINT64 && 0 <= signed < UINT64 && WithinWindow(Unix(now), signed)
  }

  /** Two clock readings that accept the same signed timestamp are less than 121 seconds apart, so the later
      one lies before the end of a reservation made at the earlier one. */
  lemma AcceptingReadingsAreClose(t: Instant, t': Instant, signed: int)
    requires Accepting(t, signed) && Accepting(t', signed)
    ensures -121 * SECOND < t' - t < 121 * SECOND && t' < t + LIFETIME
  {
    WindowIsSymmetric(Unix(t), signed);
    WindowIsSymmetric(Unix(t'), signed);
  }

  // ---------------------------------------------------------------- reservations

  datatype Slot = Slot(record: string, nonce: string)

  datatype Reservation = Reservation(reservedAt: Instant, expiresAt: Instant)

  type Table = map<Slot, Reservation>

  datatype Disposition = Reserved | Duplicate | Unavailable | ReserveCanceled | OutcomeUnknown

  /** The reply to the insert: an answer, or an error that may or may not leave the row behind. */
  datatype Reply = Answered | Broken(applied: bool, interrupted: bool, refused: bool)

  /** What the context and the database do to one reservation; `done` is the context after the insert. */
  datatype Faults = Faults(canceled: bool, acquireFails: bool, acquireCanceled: bool, reply: Reply, done: bool)

  /** An insert that the database refuses leaves nothing behind. */
  predicate ValidFaults(f: Faults)
  {
    f.reply.Broken? && f.reply.refused ==> !f.reply.applied
  }

  /** The only change: a new slot is taken, until five minutes later. */
  predicate Took(t: Table, t': Table, slot: Slot, now: Instant)
  {
    t' == t || (slot !in t && t' == t[slot := Reservation(now, now + 300 * SECOND)])
  }

  class Store {
    var table: Table

    constructor ()
      ensures table == map[]
    {
      table := map[];
    }

    method Reserve(slot: Slot, now: Instant, f: Faults) returns (r: Disposition, fate: Fate)
      requires ValidFaults(f)
      modifies this
      ensures Took(old(table), table, slot, now)
      ensures r == Reserved ==> slot !in old(table) && slot in table && fate == Released && f.reply.Answered?
      ensures r == Duplicate ==> slot in old(table) && table == old(table) && fate == Released
      ensures r == Unavailable || r == ReserveCanceled ==> table == old(table) && fate != Destroyed
      ensures r == OutcomeUnknown ==> fate == Destroyed
      ensures !f.canceled && !f.acquireFails && f.reply.Answered? && !f.done ==>
        r == if slot in old(table) then Duplicate else Reserved
      ensures f.canceled ==> r == ReserveCanceled
      ensures !f.canceled && f.acquireFails ==> r == if f.acquireCanceled then ReserveCanceled else Unavailable
      ensures fate == NotAcquired <==> f.canceled || f.acquireFails
      ensures fate != NotAcquired && f.reply.Broken? ==>
        r == if f.reply.refused && !f.reply.interrupted && !f.done then Unavailable else OutcomeUnknown
      ensures fate != NotAcquired && f.reply.Answered? && slot !in old(table) ==> r == Reserved
    {
      if f.canceled {
        return ReserveCanceled, NotAcquired;
      }
      if f.acquireFails {
        return if f.acquireCanceled then ReserveCanceled else Unavailable, NotAcquired;
      }
      var absent := slot !in table;
      if absent && (f.reply.Answered? || f.reply.applied) {
        table := table[slot := Reservation(now, now + LIFETIME)];
      }
      if f.reply.Answered? && absent {
        return Reserved, Released;
      }
      if f.done || (f.reply.Broken? && f.reply.interrupted) {
        return OutcomeUnknown, Destroyed;
      }
      if f.reply.Answered? {
        return Duplicate, Released;
      }
      if f.reply.refused {
        return Unavailable, Released;
      }
      return OutcomeUnknown, Destroyed;
    }
  }

  // ---------------------------------------------------------------- authentication

  datatype AuthError =
    | ConfigurationInvalid | InvalidRequest | Rejected | Canceled | ServiceUnavailable | Forbidden

  datatype Credential = Credential(
    record: string, publicId: string, audience: string, principal: string, slot: string, knownState: bool,
    usableAt: Instant -> bool)

  datatype Principal = Principal(id: string, audience: string, enabled: bool, intake: bool)

  datatype Lookup<+T> = Found(value: T) | Missing | Failed

  datatype Service = Service(audience: string, mac: (string, string) -> string, hash: string -> string)

  /** The service's identity is an identity and digests are byte strings. */
  ghost predicate ValidService(s: Service)
  {
    Uuid(s.audience) && s.audience != ZERO_UUID && forall x :: Octets(s.hash(x))
  }

  /** What one call meets: whether its context is done at each point where that is looked at, the clock,
      and what the other components answer. */
  datatype World = World(
    canceled: nat -> bool, clock: Instant, audience: Option<string>, credential: Lookup<Credential>,
    secret: Option<string>, principal: Lookup<Principal>, faults: Faults)

  predicate ValidCredentialRecord(s: Service, c: Credential, publicId: string)
  {
    && c.publicId == publicId && c.audience == s.audience && c.principal != ZERO_UUID && c.slot != ZERO_UUID
    && c.record != ZERO_UUID && c.knownState
  }

  /** The request's signature is that of a usable credential, and its timestamp is in the window. */
  ghost predicate Genuine(s: Service, w: World, p: Parsed)
    requires ValidService(s)
  {
    && WellParsed(p) && p.timestamp < UINT64 && Accepting(w.clock, p.timestamp)
    && w.audience == Some(s.audience)
    && w.credential.Found? && ValidCredentialRecord(s, w.credential.value, p.credential)
    && w.credential.value.usableAt(w.clock)
    && w.secret.Some? && p.signature == s.mac(w.secret.value, SigningInput(s.audience, p, s.hash(p.body)))
  }

  predicate Granted(s: Service, w: World)
  {
    && w.credential.Found? && w.principal.Found?
    && var p := w.principal.value;
       && p.id != ZERO_UUID && p.id == w.credential.value.principal && p.audience == s.audience
       && p.enabled && p.intake
  }

  /** One call that got as far as its reservation. */
  datatype Attempt = Attempt(slot: Slot, signed: int, now: Instant)

  /** What one call may do to the reservations, and what its success then means. */
  predicate Step(t: Table, t': Table, a: Option<Attempt>, ok: bool)
  {
    if a.None? then t' == t && !ok
    else
      && Accepting(a.value.now, a.value.signed) && Took(t, t', a.value.slot, a.value.now)
      && (ok ==> a.value.slot !in t && a.value.slot in t')
  }

  predicate Calm(w: World)
  {
    (forall n :: 0 <= n <= 8 ==> !w.canceled(n)) && !w.faults.canceled && !w.faults.acquireFails
    && w.faults.reply.Answered? && !w.faults.done
  }

  /** The context is not done at any point between parsing and the reservation. */
  predicate Uncanceled(w: World)
  {
    !w.canceled(1) && !w.canceled(2) && !w.canceled(3) && !w.canceled(4) && !w.canceled(5)
  }

  /** What has to be there for the signature to be looked at is not: the stored audience, the credential's
      record or its secret. */
  predicate Outage(s: Service, w: World, p: Parsed)
  {
    || w.audience != Some(s.audience) || w.credential.Failed?
    || (w.credential.Found? && !ValidCredentialRecord(s, w.credential.value, p.credential))
    || (w.credential.Found? && w.credential.value.usableAt(w.clock) && w.secret.None?)
  }

  /** The credential's principal is known and its own, but may not send. */
  predicate Barred(s: Service, w: World)
  {
    || w.principal.Missing?
    || (&& w.credential.Found? && w.principal.Found?
        && var p := w.principal.value;
           && p.id != ZERO_UUID && p.id == w.credential.value.principal && p.audience == s.audience
           && !(p.enabled && p.intake))
  }

  /** How a call ends that nothing disturbs: the request is turned away unless it is genuine, its nonce is
      free and its principal may send; the nonce of a genuine request is taken even if its principal may not. */
  ghost predicate Settled(
      s: Service, w: World, p: Parsed, before: Table, after: Table, r: Result<string, AuthError>)
    requires ValidService(s)
  {
    if !Genuine(s, w, p) then r == Err(if Outage(s, w, p) then ServiceUnavailable else Rejected)
    else
      var slot := Slot(w.credential.value.record, p.nonce);
      if slot in before then r == Err(Rejected)
      else
        && slot in after
        && r == if Granted(s, w) then Ok(w.principal.value.id)
                else Err(if Barred(s, w) then Forbidden else ServiceUnavailable)
  }

  method Authenticate(store: Store, s: Service, q: Request, w: World)
    returns (r: Result<string, AuthError>, ghost attempt: Option<Attempt>)
    requires ValidService(s) && ValidFaults(w.faults) && Unix(w.clock) < UINT64
    modifies store
    ensures Step(old(store.table), store.table, attempt, r.Ok?)
    ensures r.Ok? ==> Granted(s, w) && r.value == w.principal.value.id
    ensures r.Ok? ==> w.faults.reply.Answered? && !w.canceled(0) && Uncanceled(w) && !w.canceled(6) && !w.canceled(7)
    ensures attempt.Some? ==> exists p :: RequestedBy(q, p) && Attempted(s, w, p, attempt.value)
    ensures w.canceled(0) ==> r == Err(Canceled)
    ensures !w.canceled(0) ==> (r == Err(InvalidRequest) <==> !Addressed(q))
    ensures Calm(w) && Addressed(q) && (forall p :: !RequestedBy(q, p)) ==> r == Err(Rejected)
    ensures Calm(w) && 0 <= Unix(w.clock) ==>
      forall p :: RequestedBy(q, p) ==> Settled(s, w, p, old(store.table), store.table, r)
  {
    attempt := None;
    if w.canceled(0) {
      return Err(Canceled), attempt;
    }
    var parsed := ParseRequest(q);
    if parsed.Err? {
      return Err(if parsed.error.RequestInvalid? then InvalidRequest else Rejected), attempt;
    }
    assert RequestedBy(q, parsed.value) && forall p :: RequestedBy(q, p) ==> p == parsed.value;
    r, attempt := Examine(store, s, parsed.value, w);
  }

  /** A parsed request. */
  method Examine(store: Store, s: Service, p: Parsed, w: World)
    returns (r: Result<string, AuthError>, ghost attempt: Option<Attempt>)
    requires ValidService(s) && ValidFaults(w.faults) && Unix(w.clock) < UINT64 && WellParsed(p)
    modifies store
    ensures Step(old(store.table), store.table, attempt, r.Ok?)
    ensures r.Ok? ==> Granted(s, w) && r.value == w.principal.value.id
    ensures r.Ok? ==> w.faults.reply.Answered? && Uncanceled(w) && !w.canceled(6) && !w.canceled(7)
    ensures attempt.Some? ==> Attempted(s, w, p, attempt.value)
    ensures r != Err(InvalidRequest)
    ensures Calm(w) && 0 <= Unix(w.clock) ==> Settled(s, w, p, old(store.table), store.table, r)
  {
    attempt := None;
    var refused := Check(s, w, p);
    if refused.Some? {
      return Err(refused.value), attempt;
    }
    var slot := Slot(w.credential.value.record, p.nonce);
    attempt := Some(Attempt(slot, p.timestamp, w.clock));
    r := Admit(store, s, w, slot);
  }

  /** A genuine request: its nonce is reserved, and only then its principal looked at. */
  method Admit(store: Store, s: Service, w: World, slot: Slot) returns (r: Result<string, AuthError>)
    requires ValidService(s) && ValidFaults(w.faults) && w.credential.Found?
    modifies store
    ensures Took(old(store.table), store.table, slot, w.clock)
    ensures r.Ok? ==>
      && slot !in old(store.table) && slot in store.table && Granted(s, w) && r.value == w.principal.value.id
      && w.faults.reply.Answered? && !w.canceled(6) && !w.canceled(7)
    ensures Granted(s, w) && Calm(w) && slot !in old(store.table) ==> r == Ok(w.principal.value.id)
    ensures r != Err(InvalidRequest)
    ensures Calm(w) && slot in old(store.table) ==> r == Err(Rejected)
    ensures Calm(w) && slot !in old(store.table) && !Granted(s, w) ==>
            slot in store.table && r == Err(if Barred(s, w) then Forbidden else ServiceUnavailable)
  {
    var disposition, _ := store.Reserve(slot, w.clock, w.faults);
    if w.canceled(6) || disposition == ReserveCanceled {
      return Err(Canceled);
    }
    if disposition == Unavailable || disposition == OutcomeUnknown {
      return Err(ServiceUnavailable);
    }
    if disposition == Duplicate {
      return Err(Rejected);
    }
    var denied := Authorize(s, w);
    r := if denied.Some? then Err(denied.value) else Ok(w.principal.value.id);
  }

  ghost predicate RequestedBy(q: Request, p: Parsed)
  {
    WellParsed(p) && RequestOf(q, p)
  }

  /** The attempt is that of a genuine request, under its own nonce and timestamp. */
  ghost predicate Attempted(s: Service, w: World, p: Parsed, a: Attempt)
    requires ValidService(s)
  {
    && Genuine(s, w, p)
    && a == Attempt(Slot(w.credential.value.record, p.nonce), p.timestamp, w.clock)
  }

  /** Everything between parsing and the reservation; `None` lets the request pass. */
  method Check(s: Service, w: World, p: Parsed) returns (refused: Option<AuthError>)
    requires ValidService(s) && WellParsed(p) && Unix(w.clock) < UINT64
    ensures refused.None? ==> Genuine(s, w, p) && Uncanceled(w)
    ensures Genuine(s, w, p) && Calm(w) ==> refused.None?
    ensures refused != Some(InvalidRequest)
    ensures !Genuine(s, w, p) && Calm(w) && Unix(w.clock) >= 0 ==>
            refused == Some(if Outage(s, w, p) then ServiceUnavailable else Rejected)
  {
    if Unix(w.clock) < 0 {
      return Some(ConfigurationInvalid);
    }
    if w.canceled(1) || w.canceled(2) {
      return Some(Canceled);
    }
    if w.audience != Some(s.audience) {
      return Some(ServiceUnavailable);
    }
    if w.canceled(3) {
      return Some(Canceled);
    }
    if !w.credential.Found? {
      return Some(if w.credential.Missing? then Rejected else ServiceUnavailable);
    }
    if !ValidCredentialRecord(s, w.credential.value, p.credential) {
      return Some(ServiceUnavailable);
    }
    if !w.credential.value.usableAt(w.clock) {
      return Some(Rejected);
    }
    if w.canceled(4) {
      return Some(Canceled);
    }
    if w.secret.None? {
      return Some(ServiceUnavailable);
    }
    if s.mac(w.secret.value, SigningInput(s.audience, p, s.hash(p.body))) != p.signature {
      return Some(Rejected);
    }
    if !WithinWindow(Unix(w.clock), p.timestamp) {
      return Some(Rejected);
    }
    if w.canceled(5) {
      return Some(Canceled);
    }
    return None;
  }

  /** The principal is looked at only after the nonce is reserved; `None` lets the request pass. */
  method Authorize(s: Service, w: World) returns (denied: Option<AuthError>)
    requires ValidService(s) && w.credential.Found?
    ensures denied.None? ==> Granted(s, w) && !w.canceled(7)
    ensures Granted(s, w) && Calm(w) ==> denied.None?
    ensures denied != Some(InvalidRequest)
    ensures !Granted(s, w) && Calm(w) ==> denied == Some(if Barred(s, w) then Forbidden else ServiceUnavailable)
  {
    if w.canceled(7) {
      return Some(Canceled);
    }
    if !w.principal.Found? {
      return Some(if w.principal.Missing? then Forbidden else ServiceUnavailable);
    }
    var p := w.principal.value;
    if p.id == ZERO_UUID || p.audience == ZERO_UUID
       || p.id != w.credential.value.principal || p.audience != s.audience {
      return Some(ServiceUnavailable);
    }
    if !p.enabled || !p.intake {
      return Some(Forbidden);
    }
    return None;
  }

  // ---------------------------------------------------------------- runs

  datatype Entry = Entry(attempt: Option<Attempt>, ok: bool)

  ghost predicate Run(tables: seq<Table>, entries: seq<Entry>)
  {
    && |tables| == |entries| + 1
    && forall i :: 0 <= i < |entries| ==> Step(tables[i], tables[i + 1], entries[i].attempt, entries[i].ok)
  }

  /** A reservation once made stays as it is. */
  lemma {:induction false} ReservationsStay(tables: seq<Table>, entries: seq<Entry>, i: nat, j: nat, slot: Slot)
    requires Run(tables, entries) && i <= j < |tables| && slot in tables[i]
    ensures slot in tables[j] && tables[j][slot] == tables[i][slot]
  {
    if i < j {
      ReservationsStay(tables, entries, i, j - 1, slot);
      assert Step(tables[j - 1], tables[j], entries[j - 1].attempt, entries[j - 1].ok);
    }
  }

  /** In every run a request for a slot succeeds at most once.  A later attempt with the same slot and signed
      timestamp still comes before the reservation ends. */
  lemma EachNonceSucceedsOnce(tables: seq<Table>, entries: seq<Entry>, i: nat, j: nat)
    requires Run(tables, entries) && i < j < |entries| && entries[i].ok
    requires entries[i].attempt.Some? && entries[j].attempt.Some?
    requires entries[j].attempt.value.slot == entries[i].attempt.value.slot
    ensures !entries[j].ok && entries[i].attempt.value.slot in tables[j]
    ensures entries[i].attempt.value.signed == entries[j].attempt.value.signed ==>
      entries[j].attempt.value.now < tables[j][entries[i].attempt.value.slot].expiresAt
  {
    var a, b := entries[i].attempt.value, entries[j].attempt.value;
    assert Step(tables[i], tables[i + 1], entries[i].attempt, entries[i].ok);
    assert Step(tables[j], tables[j + 1], entries[j].attempt, entries[j].ok);
    ReservationsStay(tables, entries, i + 1, j, a.slot);
    if a.signed == b.signed {
      AcceptingReadingsAreClose(a.now, b.now, a.signed);
    }
  }
}
