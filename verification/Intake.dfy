/** The acceptance pipeline: canonical bytes, their protection under a context, durable acceptance,
    and what its answers say about the events themselves. */
module Intake {
  import opened Options
  import opened CanonicalString
  import opened CanonicalEvent
  import opened Identifiers
  import opened Aad
  import A = Acceptance

  const FORMAT_VERSION := 1
  const PROTECTION_VERSION := 1
  const NONCE_SIZE := 12
  const KEY_SIZE := 32
  const DIGEST_SIZE := 32

  /** The digest and the authenticated encryption, whose arguments are key, nonce, text and additional data. */
  datatype Crypto = Crypto(
    hash: string -> string,
    seal: (string, string, string, string) -> string,
    open: (string, string, string, string) -> Option<string>)

  /** What is taken for granted of them: the size of a digest, that opening inverts sealing, and that a
      sealed text opens under no other key, nonce or additional data. */
  ghost predicate Sound(c: Crypto)
  {
    && (forall x :: |c.hash(x)| == DIGEST_SIZE)
    && (forall k, n, p, a :: c.seal(k, n, p, a) != "" && c.open(k, n, c.seal(k, n, p, a), a) == Some(p))
    && (forall k, n, p, a, k', n', a' ::
          c.open(k', n', c.seal(k, n, p, a), a').Some? ==> k' == k && n' == n && a' == a)
  }

  datatype Key = Key(id: string, material: string)

  predicate ValidKey(k: Key)
  {
    k.id != "" && ValidAadString(k.id) && |k.material| == KEY_SIZE
  }

  /** `event` is `None` for a nil interface or a nil pointer in one. */
  datatype Request = Request(principal: string, destination: string, delivery: string, event: Option<Event>)

  datatype Error =
    | InvalidRequest | Canceled | CanonicalEventError
    | ProtectionInvalid | KeyUnavailable | RandomUnavailable | ProtectionFailed
    | Store(error: A.Error)

  /** What happens around one call: whether its context is done at each point where that is looked at,
      the active key, the nonces drawn, the keys found by name, and the receipt drawn. */
  datatype Environment = Environment(
    canceled: nat -> bool, active: Option<Key>, nonces: Option<(string, string)>, lookup: string -> Option<Key>,
    generated: Option<string>)

  predicate ValidEnvironment(env: Environment)
  {
    env.nonces.Some? ==> |env.nonces.value.0| == NONCE_SIZE && |env.nonces.value.1| == NONCE_SIZE
  }

  // ---------------------------------------------------------------- protection

  function ContextOf(purpose: int, id: A.Identity, version: int, keyId: string): Context
  {
    Context(PROTECTION_VERSION, purpose, version, id.delivery, id.principal, id.destination, keyId)
  }

  function OpenDigest(crypto: Crypto, env: Environment, q: A.OpenRequest): Option<string>
  {
    var c := ContextOf(DIGEST, q.identity, q.version, q.keyId);
    if env.canceled(6) || !ValidContext(c) || q.digest.ciphertext == "" || |q.digest.nonce| != NONCE_SIZE then None
    else
      var key := env.lookup(q.keyId);
      if key.None? || !ValidKey(key.value) || key.value.id != q.keyId || env.canceled(7) then None
      else
        var plain := crypto.open(key.value.material, q.digest.nonce, q.digest.ciphertext, AadBytes(c));
        if plain.None? || |plain.value| != DIGEST_SIZE then None else plain
  }

  /** `p` is `text` sealed for a purpose under the acceptance's own context. */
  predicate SealedAs(crypto: Crypto, a: A.Acceptance, purpose: int, p: A.Protected, text: string, material: string)
  {
    var c := ContextOf(purpose, a.identity, a.version, a.keyId);
    ValidContext(c) && p.ciphertext == crypto.seal(material, p.nonce, text, AadBytes(c))
  }

  /** The acceptance carries the bytes and their digest, each sealed for its purpose under one key. */
  ghost predicate Protects(crypto: Crypto, a: A.Acceptance, data: string)
  {
    && A.ValidAcceptance(a) && a.version == FORMAT_VERSION && a.equivalence == crypto.hash(data)
    && a.event.nonce != a.digest.nonce && |a.digest.nonce| == NONCE_SIZE
    && exists material :: SealedUnder(crypto, a, data, material)
  }

  predicate SealedUnder(crypto: Crypto, a: A.Acceptance, data: string, material: string)
  {
    && |material| == KEY_SIZE && SealedAs(crypto, a, EVENT, a.event, data, material)
    && SealedAs(crypto, a, DIGEST, a.digest, crypto.hash(data), material)
  }

  method Prepare(crypto: Crypto, id: A.Identity, data: string, env: Environment)
    returns (r: Result<A.Acceptance, Error>)
    requires Sound(crypto) && ValidEnvironment(env) && Uuid(id.delivery)
    ensures r.Ok? ==> r.value.identity == id && Protects(crypto, r.value, data)
    ensures r.Ok? ==> !env.canceled(2) && !env.canceled(3) && !env.canceled(4)
    ensures Ready(env) && Nameable(id) && data != "" ==> r.Ok?
    ensures r.Ok? ==> Keyed(env) && r.value.keyId == env.active.value.id
    ensures Uncanceled(env) ==> (r == Err(ProtectionInvalid) <==> !Nameable(id) || data == "")
    ensures Uncanceled(env) ==> (r == Err(KeyUnavailable) <==> Nameable(id) && data != "" && !Keyed(env))
    ensures Uncanceled(env) && r.Err? ==> r.error in {ProtectionInvalid, KeyUnavailable, RandomUnavailable}
    ensures r.Err? ==> r.error in {ProtectionInvalid, KeyUnavailable, RandomUnavailable, ProtectionFailed}
  {
    if env.canceled(2) {
      return Err(ProtectionFailed);
    }
    if id.principal == "" || id.destination == "" || id.delivery == ZERO_UUID || data == ""
       || !ValidAadString(id.principal) || !ValidAadString(id.destination) {
      return Err(ProtectionInvalid);
    }
    if env.active.None? || !ValidKey(env.active.value) {
      return Err(KeyUnavailable);
    }
    var key := env.active.value;
    if env.canceled(3) {
      return Err(ProtectionFailed);
    }
    if env.nonces.None? || env.nonces.value.0 == env.nonces.value.1 {
      return Err(RandomUnavailable);
    }
    if env.canceled(4) {
      return Err(ProtectionFailed);
    }
    var (eventNonce, digestNonce) := env.nonces.value;
    var eventAad := BuildAad(ContextOf(EVENT, id, FORMAT_VERSION, key.id));
    if eventAad.None? {
      return Err(ProtectionInvalid);
    }
    var event := A.Protected(crypto.seal(key.material, eventNonce, data, eventAad.value), eventNonce);
    var digestAad := BuildAad(ContextOf(DIGEST, id, FORMAT_VERSION, key.id));
    if digestAad.None? {
      return Err(ProtectionInvalid);
    }
    var digest := A.Protected(crypto.seal(key.material, digestNonce, crypto.hash(data), digestAad.value), digestNonce);
    var a := A.Acceptance(id, FORMAT_VERSION, event, digest, key.id, crypto.hash(data));
    assert SealedUnder(crypto, a, data, key.material);
    r := Ok(a);
  }

  predicate Uncanceled(env: Environment)
  {
    forall n :: 0 <= n <= 5 ==> !env.canceled(n)
  }

  predicate Keyed(env: Environment)
  {
    env.active.Some? && ValidKey(env.active.value)
  }

  /** Nothing keeps a request from being prepared. */
  predicate Ready(env: Environment)
  {
    && Uncanceled(env) && Keyed(env)
    && env.nonces.Some? && env.nonces.value.0 != env.nonces.value.1
  }

  predicate Nameable(id: A.Identity)
  {
    && id.principal != "" && ValidAadString(id.principal) && id.destination != "" && ValidAadString(id.destination)
    && id.delivery != ZERO_UUID
  }

  // ---------------------------------------------------------------- the pipeline

  ghost predicate OpensWith(crypto: Crypto, env: Environment, open: A.OpenRequest -> Option<string>)
  {
    forall q :: open(q) == OpenDigest(crypto, env, q)
  }

  /** The acceptance is that of the request: its identity, and its event's canonical bytes. */
  ghost predicate Carries(crypto: Crypto, q: Request, a: A.Acceptance)
  {
    && q.event.Some? && Canonicalizable(q.event.value) && Protects(crypto, a, Bytes(q.event.value))
    && a.identity.principal == q.principal && a.identity.destination == q.destination
    && Uuid(a.identity.delivery) && UuidText(a.identity.delivery) == q.delivery
  }

  /** The call of the durable store that a request leads to. */
  ghost predicate Prepared(crypto: Crypto, q: Request, c: A.Call)
  {
    Carries(crypto, q, c.acceptance) && exists env :: OpensWith(crypto, env, c.open)
  }

  predicate Outcome(r: Result<A.Answer, Error>, s: Result<A.Answer, A.Error>)
  {
    match s
    case Ok(answer) => r == Ok(answer)
    case Err(e) => r == Err(Store(e))
  }

  predicate ValidAnswer(a: A.Answer)
  {
    a.IdentityConflict? || a.receipt != ZERO_UUID
  }

  /** A request that the pipeline does not turn away. */
  ghost predicate Acceptable(q: Request)
  {
    && q.event.Some? && Canonicalizable(q.event.value)
    && q.principal != "" && ValidAadString(q.principal) && q.destination != "" && ValidAadString(q.destination)
    && exists v :: CanonicalUuid(q.delivery, v)
  }

  /** The parts that a request is looked at for first. */
  ghost predicate Complete(q: Request)
  {
    q.principal != "" && q.destination != "" && q.event.Some? && exists v :: CanonicalUuid(q.delivery, v)
  }

  method CheckRequest(q: Request) returns (delivery: Option<string>)
    ensures delivery.Some? <==> Complete(q)
    ensures delivery.Some? ==> CanonicalUuid(q.delivery, delivery.value)
  {
    if q.principal == "" || q.destination == "" || q.event.None? {
      return None;
    }
    delivery := ParseDeliveryIdentity(q.delivery);
    assert delivery.Some? ==> CanonicalUuid(q.delivery, delivery.value);
  }

  /** Everything up to the durable store. */
  method Admit(crypto: Crypto, q: Request, env: Environment) returns (r: Result<A.Acceptance, Error>)
    requires Sound(crypto) && ValidEnvironment(env)
    ensures r.Ok? ==> Carries(crypto, q, r.value)
    ensures r.Ok? ==> !env.canceled(0) && !env.canceled(1) && !env.canceled(5)
    ensures Acceptable(q) && Ready(env) ==> r.Ok?
    ensures env.canceled(0) ==> r == Err(Canceled)
    ensures !env.canceled(0) ==> (r == Err(InvalidRequest) <==> !Complete(q))
    ensures !env.canceled(0) && Complete(q) ==> (r == Err(CanonicalEventError) <==> !Canonicalizable(q.event.value))
    ensures Uncanceled(env) && Complete(q) && Canonicalizable(q.event.value) && r.Err? ==>
      r.error == if !Acceptable(q) then ProtectionInvalid else if !Keyed(env) then KeyUnavailable else RandomUnavailable
  {
    if env.canceled(0) {
      return Err(Canceled);
    }
    var delivery := CheckRequest(q);
    if delivery.None? {
      return Err(InvalidRequest);
    }
    var data := Canonicalize(q.event.value);
    if data.None? {
      return Err(CanonicalEventError);
    }
    if env.canceled(1) {
      return Err(Canceled);
    }
    r := Prepare(crypto, A.Identity(q.principal, q.destination, delivery.value), data.value, env);
    if r.Ok? && env.canceled(5) {
      r := Err(Canceled);
    }
  }

  method Accept(repository: A.Repository, crypto: Crypto, q: Request, env: Environment, f: A.Faults)
    returns (r: Result<A.Answer, Error>, ghost call: Option<A.Call>, ghost stored: Result<A.Answer, A.Error>)
    requires repository.Valid() && Sound(crypto) && ValidEnvironment(env)
    modifies repository
    ensures repository.Valid()
    ensures r.Ok? ==> ValidAnswer(r.value)
    ensures call.None? ==> r.Err? && repository.table == old(repository.table)
    ensures call.Some? ==>
      && Prepared(crypto, q, call.value) && Outcome(r, stored)
      && A.Step(old(repository.table), repository.table, call.value, stored)
      && (A.Served(old(repository.table), call.value, f) ==> r.Ok?)
    ensures Acceptable(q) && Ready(env) ==> call.Some?
  {
    call, stored := None, Err(A.StoreFailure);
    var prepared := Admit(crypto, q, env);
    if prepared.Err? {
      return Err(prepared.error), call, stored;
    }
    var c := A.Call(prepared.value, env.generated, opening => OpenDigest(crypto, env, opening));
    assert OpensWith(crypto, env, c.open);
    var answer := A.Accept(repository, c, f);
    call, stored := Some(c), answer;
    r := match answer case Ok(x) => Ok(x) case Err(e) => Err(Store(e));
  }

  // ---------------------------------------------------------------- what the answers mean

  /** A digest sealed for one context cannot be read under another one: whatever is opened for a request
      was sealed for exactly that request's principal, destination, delivery, version and key. */
  lemma SealedForOneContext(
      crypto: Crypto, env: Environment, a: A.Acceptance, text: string, material: string, q: A.OpenRequest)
    requires Sound(crypto) && SealedAs(crypto, a, DIGEST, a.digest, text, material)
    requires q.digest == a.digest && OpenDigest(crypto, env, q).Some?
    ensures q.identity == a.identity && q.version == a.version && q.keyId == a.keyId
    ensures OpenDigest(crypto, env, q) == Some(text)
  {
    var c, d := ContextOf(DIGEST, a.identity, a.version, a.keyId), ContextOf(DIGEST, q.identity, q.version, q.keyId);
    AadIdentifiesTheContext(c, d);
  }

  /** And under its own context it opens as long as its key is found under its name. */
  lemma OpensUnderItsContext(crypto: Crypto, env: Environment, a: A.Acceptance, data: string, material: string)
    requires Sound(crypto) && A.ValidAcceptance(a) && |a.digest.nonce| == NONCE_SIZE
    requires SealedUnder(crypto, a, data, material) && env.lookup(a.keyId) == Some(Key(a.keyId, material))
    requires !env.canceled(6) && !env.canceled(7)
    ensures OpenDigest(crypto, env, A.OpenRequest(a.digest, a.keyId, a.identity, a.version)) == Some(crypto.hash(data))
  {
  }

  /** What the digest of a stored row opens to is the digest of the event it was stored for. */
  lemma OpenedIsTheStoredDigest(crypto: Crypto, first: Request, a: A.Acceptance, receipt: string, q: Request, c: A.Call)
    requires Sound(crypto) && Carries(crypto, first, a) && Prepared(crypto, q, c)
    requires A.Opened(A.View(A.RowOf(receipt, a)), c).Some?
    ensures A.Opened(A.View(A.RowOf(receipt, a)), c) == Some(crypto.hash(Bytes(first.event.value)))
  {
    var env :| OpensWith(crypto, env, c.open);
    var text := crypto.hash(Bytes(first.event.value));
    var material :| SealedUnder(crypto, a, Bytes(first.event.value), material);
    var asked := A.OpenRequest(a.digest, a.keyId, c.acceptance.identity, a.version);
    SealedForOneContext(crypto, env, a, text, material, asked);
  }

  /** The requests that lead to the calls of a run. */
  ghost predicate Requests(crypto: Crypto, requests: seq<Request>, entries: seq<A.Entry>)
  {
    |requests| == |entries| && forall i :: 0 <= i < |entries| ==> Prepared(crypto, requests[i], entries[i].call)
  }

  /** The digest tells the two events apart. */
  ghost predicate Distinguishes(crypto: Crypto, e: Option<Event>, f: Option<Event>)
  {
    e.Some? && f.Some? && Canonicalizable(e.value) && Canonicalizable(f.value)
    && (crypto.hash(Bytes(e.value)) == crypto.hash(Bytes(f.value)) ==> Bytes(e.value) == Bytes(f.value))
  }

  ghost predicate CollisionFree(crypto: Crypto, requests: seq<Request>)
  {
    forall i, j :: 0 <= i < j < |requests| ==> Distinguishes(crypto, requests[i].event, requests[j].event)
  }

  lemma DigestsDecide(crypto: Crypto, first: Request, a: A.Acceptance, receipt: string, q: Request, c: A.Call)
    requires Sound(crypto) && Carries(crypto, first, a) && Prepared(crypto, q, c)
    requires Distinguishes(crypto, first.event, q.event) && A.Opened(A.View(A.RowOf(receipt, a)), c).Some?
    ensures A.SameEvent(A.View(A.RowOf(receipt, a)), c) <==> q.event == first.event
  {
    OpenedIsTheStoredDigest(crypto, first, a, receipt, q, c);
    BytesIdentifyTheEvent(first.event.value, q.event.value);
  }

  /** In every run, an answer that is not "new" refers to one earlier request with the same principal,
      destination and delivery, the first one stored; it is "duplicate", with that request's receipt,
      exactly if both carry the same event. */
  lemma DuplicateMeansTheSameEvent(
      crypto: Crypto, tables: seq<A.Table>, entries: seq<A.Entry>, requests: seq<Request>, j: nat) returns (i: nat)
    requires Sound(crypto) && CollisionFree(crypto, requests)
    requires A.Run(tables, entries) && Requests(crypto, requests, entries)
    requires j < |entries| && entries[j].result.Ok? && !entries[j].result.value.AcceptedNew?
    ensures i < j && A.Find(tables[i], entries[j].call.acceptance.identity).None? && entries[i].call.generated.Some?
    ensures requests[i].(event := requests[j].event) == requests[j]
    ensures entries[i].result in {Err(A.OutcomeUnknown), Ok(A.AcceptedNew(entries[i].call.generated.value))}
    ensures entries[j].result.value ==
      if requests[j].event == requests[i].event then A.AcceptedDuplicate(entries[i].call.generated.value)
      else A.IdentityConflict
  {
    var c := entries[j].call;
    assert A.Step(tables[j], tables[j + 1], c, entries[j].result);
    i := A.RowsComeFromCalls(tables, entries, j, c.acceptance.identity);
    var e := entries[i].call;
    assert Prepared(crypto, requests[i], e) && Prepared(crypto, requests[j], c);
    DigestsDecide(crypto, requests[i], e.acceptance, e.generated.value, requests[j], c);
  }
}
