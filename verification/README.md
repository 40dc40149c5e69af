# Verification of the MS OnCall gateway

A Dafny model of the gateway's hard parts, with proofs. `dafny verify dfyconfig.toml` checks all of it.

**Destination tokens and their rotation** (`Tokens`, `Lifecycle`, `Verdicts`, `Continuity`, `Rotation`,
`History`, `Exactness`, `Transactions`, `Inspection`, `Participant`). A destination owns token rows that are
staged, active, retiring or revoked. Seven guarded mutations move them, each with its own clock reading;
readings are arbitrary and need not be monotone. `Decide` is the guard and the new table of one mutation, `Run`
the table after any list of mutations. `Repository.Mutate` executes a mutation statement by statement inside a
transaction, under every schedule of faults, and is proved to do exactly what `Decide` says. The participant
layer creates, activates and compensates across several transactions while other clients run in between, and
later tells from the surviving rows alone what became of an attempt. That this is sound rests on the whole
history of a run, which `History` carries as a ghost account of every attempt.

**Canonical events** (`CanonicalString`, `JsonLiteral`, `Decimals`, `Json`, `CanonicalEvent`). The chunk-copying
escaper, the event printers with sorted keys, a reader of literals, numbers and objects written from sections 4,
6 and 7 of RFC 8259, and the surrogate-escape check.

**Acceptance** (`Aad`, `Acceptance`, `Intake`). The length-prefixed context bytes, the insert-or-load
transaction with ambiguous commits, the answer given to a caller, and the pipeline from event to answer.

**Authentication** (`Identifiers`, `Signing`, `Replay`). Hexadecimal, UUID and base64url texts, the parsing of
signed requests, the bytes they are signed over, the timestamp window and the nonce reservation.

**Migrations** (`Migrations`). The judgement of the migration log, one migration's transaction, the runner.

Conventions. Faults, cancellations, clock readings, random draws and what other clients do are parameters, so
every statement holds for all of them. A Go string is a `string` whose characters are its bytes. Stored times
are microseconds since the zero time, 0 standing for the zero time and for an absent column.
`TruncationIsExact` says why comparing stored times with a truncated clock reading is comparing them with the
reading itself; where the code stores a computed instant without looking at the cut value, the exact
consequence is stated (`CandidateArithmetic`). `Connections` holds what every repository's connection and
transaction can come to. A hash and an authenticated encryption are function values with stated assumptions
(`Intake.Sound`, `Intake.CollisionFree`); collisions are excluded only between the events of the run at hand.

Where the code falls short. Two properties one would expect are false of it; each has a concrete input and its
exact condition in the table. A migration run does not return for every session: it panics exactly if the first
inspection passes for an acceptable log with a negative version (`Migrations.Run`,
`Migrations.NotEveryRunReturns`, `Migrations.NegativeVersionPanics`); a session backed by the database never
reports one. A configured token lifetime or cleanup duration passes every input guard, yet creation is refused
by the database at some clock reading exactly if one of them is below a microsecond
(`Participant.CandidateArithmetic`, `Participant.DurationsBelowAMicrosecond`, `Participant.RefusedForItsTimes`).

## Model

| member | source | states |
|---|---|---|
| Tokens.ScanLive | internal/securitystate/destination_lifecycle.go:115-150 | the loop over the live rows rejects exactly the lists with two rows in one state, and otherwise finds the row of each state and whether any is stale |
| Tokens.NewSnapshot | internal/securitystate/destination_lifecycle.go:98-180 | whatever order the rows come in, the snapshot is the one determined by the set of live rows, or none if the rows are incoherent |
| Tokens.SlotIsPick | internal/securitystate/destination_lifecycle.go:115-150 | scanning a listing for a state finds the one row of the table in that state |
| Tokens.ClashIsIncoherent | internal/securitystate/destination_lifecycle.go:115-150 | a listing with two rows in one state lists a table in which live states are not unique |
| Lifecycle.CreateKeepsInv | internal/postgres/destination_token_lifecycle.go:341-426 | creating an initial or a rotation candidate keeps the lifecycle invariant |
| Lifecycle.StoredCandidate | internal/postgres/migrations/000002_security_state_v1.sql:180-186 | a candidate that passes the input guard makes a valid row exactly if its times stay in order when cut to stored precision, which is what the CHECK constraints test |
| Lifecycle.ActivateKeepsInv | internal/postgres/destination_token_lifecycle.go:454-538 | activating keeps the invariant, among it that a retiring row is linked by its times to the active one |
| Lifecycle.AbortKeepsInv | internal/postgres/destination_token_lifecycle.go:540-572 | aborting a staged row keeps the invariant |
| Lifecycle.RollbackKeepsInv | internal/postgres/destination_token_lifecycle.go:574-617 | rolling a rotation back keeps the invariant, though it erases the retirement of the restored row |
| Lifecycle.FinalizeKeepsInv | internal/postgres/destination_token_lifecycle.go:619-653 | finalizing a rotation keeps the invariant |
| Lifecycle.StepKeepsInv | internal/postgres/destination_token_lifecycle.go:341-653 | any mutation with any input and clock, accepted or not, keeps the invariant |
| Lifecycle.EveryRunKeepsInv | internal/securitystate/types.go:402-457 | from the empty table, every list of mutations with arbitrary clocks leaves at most one row per live state, never staged with retiring, retiring only with its active row, and every row ever written valid |
| Lifecycle.AcceptedMeans | internal/postgres/destination_token_lifecycle.go:1359-1420 | what an accepted mutation may rely on about the rows, read through the snapshot guards |
| Verdicts.AcceptedExactly | internal/postgres/destination_token_lifecycle.go:1359-1420 | of the mutations, exactly those are accepted whose input is valid, whose destination is readable and enabled, and whose rows meet the premise of that mutation, said of the table and not of the snapshot |
| Verdicts.OverdueStagedRowCanBeAborted | internal/postgres/destination_token_lifecycle.go:1392-1420 | a staged row that outlived its expiry or its cleanup deadline can still be aborted, alone or beside a live active row |
| Verdicts.RefusedFor | internal/postgres/destination_token_lifecycle.go:341-653 | every refusal has its one kind: a malformed input is invalid, a missing destination a conflict, an unreadable one reconciliation; a creation or activation is reconciliation if anything is out of order at the clock reading, a conflict with other live rows, and unavailable if the new row cannot be stored; an abort, rollback or finalization conflicts with other live rows or the deadline, and is reconciliation if its own rows are out of order |
| Continuity.OverlapIsGapless | internal/postgres/destination_token_lifecycle.go:487-538 | after an activation at t with deadline G exactly the two tokens are usable at every instant in [t, G), and exactly the new one from G to its expiry |
| Continuity.NoStepStrandsTheDestination | internal/securitystate/types.go:395-400 | no mutation at an instant removes the last token usable at that instant |
| Continuity.OneWayOutOfAnOverlap | internal/postgres/destination_token_lifecycle.go:592-644 | for every overlap and every instant from activation to the new row's expiry, rollback is accepted exactly before the deadline and deadline finalization exactly from it on |
| Continuity.RowsPersist | internal/postgres/destination_token_lifecycle.go:111-211 | no mutation removes a row, changes its creation, expiry or cleanup time, or turns its clock back |
| Continuity.RevokedIsFinal | internal/postgres/destination_token_lifecycle.go:111-211 | over every run a revoked row never changes again |
| History.EveryRunIsAccounted | internal/securitystate/destination_rotation_participant.go:526-532 | in every run, each attempt's creation, activation and end are steps of that run, and the rows left behind tell which |
| History.RolledBackIsTrue | internal/securitystate/destination_rotation_participant.go:505-538 | for every run and issued handle, "rolled back" means the new record was, at its recorded revocation time, aborted while staged, or rolled back against that same old record strictly before the deadline which the rollback erased |
| History.CompletedIsTrue | internal/securitystate/destination_rotation_participant.go:540-554 | "completed" means the pair was finalized at or after its deadline, at the old record's recorded revocation time |
| History.OverlapOpenIsTrue | internal/securitystate/destination_rotation_participant.go:416-477 | "overlap open" means the pair was activated with the reported deadline and nothing has ended it |
| History.ObservationIsTrue | internal/securitystate/destination_rotation_participant.go:416-477 | every answer about an issued handle, of whatever kind, is true of the run that led to the table |
| Exactness.AfterCreate | internal/securitystate/destination_rotation_participant.go:416-477 | after a rotation candidate is created, its attempt needs reconciliation |
| Exactness.AfterActivate | internal/securitystate/destination_rotation_participant.go:556-576 | after activation, also past the deadline, the attempt is observed as an open overlap with its deadline |
| Exactness.AfterAbort | internal/securitystate/destination_rotation_participant.go:505-538 | after an abort the attempt is observed as rolled back |
| Exactness.AfterRollback | internal/securitystate/destination_rotation_participant.go:505-538 | after a rollback the attempt is observed as rolled back |
| Exactness.AfterFinalize | internal/securitystate/destination_rotation_participant.go:540-554 | after a finalization the attempt is observed as completed if the deadline had passed, as a conflict if not |
| Exactness.ObservationIsExact | internal/securitystate/destination_rotation_participant.go:416-477 | right after any step of an attempt and until the surviving row expires, on an enabled destination, the classification is the true phase |
| Transactions.Exec | internal/postgres/destination_token_lifecycle.go:1422-1461 | one statement goes on exactly if it succeeded and one row was reported; each class of failure has its own error kind and says whether the connection may be used again, and a wrong count is a conflict or asks for reconciliation |
| Transactions.OneStatement | internal/postgres/destination_token_lifecycle.go:111-211 | the single statement of a mutation with its WHERE guard affects one row and yields the decided table |
| Transactions.TwoStatements | internal/postgres/destination_token_lifecycle.go:507-617 | the two statements of an activation or a rollback, in their order, pass the partial unique indexes in between and yield the decided table |
| Transactions.Perform | internal/postgres/destination_token_lifecycle.go:945-1055 | guards and statements inside a transaction succeed only on the decided table, and without a failing statement or a wrong count exactly when the mutation is accepted; a refusal and each failure keep their kind |
| Transactions.LoadState | internal/postgres/destination_token_lifecycle.go:1152-1226 | reading at most three live rows one by one gives the same verdict as reading the whole table |
| Transactions.Repository.Mutate | internal/postgres/destination_token_lifecycle.go:945-1107 | for every schedule of faults: no error means applied and every request confirmed, any error but outcome-unknown means untouched, outcome-unknown comes only from a lost commit, a failed rollback or an unclear failure and always destroys the connection; the error and the fate of the connection are given for each point of failure and each class of statement failure; without faults the answer is the decided one |
| Participant.TruncationIsExact | internal/securitystate/destination_lifecycle.go:646-648 | comparing a stored time with a clock reading does not depend on the reading's digits below a microsecond |
| Participant.ReceiptArithmetic | internal/securitystate/destination_lifecycle.go:368-379 | activation time and deadline are the last stored instants not after the clock reading and not after the reading plus the overlap; cut separately they give a receipt that is valid exactly if the reading is at least 1 µs and the two differ, which every overlap from 1 µs to 24 h ensures; the repository's own input guard agrees |
| Participant.CandidateArithmetic | internal/securitystate/destination_lifecycle.go:580-591 | every configured duration passes the input guards of a creation, and the row is then storable exactly if neither expiry nor cleanup deadline falls into the microsecond of creation |
| Participant.DurationsBelowAMicrosecond | internal/securitystate/destination_lifecycle.go:487-507 | a policy is safe from that refusal at every clock reading exactly if lifetime and cleanup duration are at least a microsecond |
| Participant.RefusedForItsTimes | internal/postgres/destination_token_lifecycle.go:386-452 | one accepted policy and reading for which a destination in order refuses the creation as unavailable |
| Participant.CreateStaged | internal/securitystate/destination_lifecycle.go:530-606 | a token is handed out only for a committed row, whose creation, expiry and cleanup times are cut from the clock reading and the configured durations; a definite error added nothing to the run; an unknown outcome added the creation or nothing and names the record to reconcile |
| Participant.Activate | internal/securitystate/destination_lifecycle.go:616-648 | success is one committed activation with exactly the receipt's times, cut from the reading and the reading plus the overlap; a definite error changed nothing; an unknown outcome is that activation or nothing |
| Participant.AbortCreated | internal/securitystate/destination_rotation_participant.go:600-610 | when the compensation reports success, its abort was the last step and the candidate is absent or revoked; undisturbed it succeeds exactly if the abort is accepted |
| Participant.BeginRotation | internal/securitystate/destination_rotation_participant.go:194-311 | under all faults and with other clients in between: a token only without error, only for a committed pair with the attempt's times, which are cut from the activation reading and that reading plus the overlap and enclose the confirming reading, and only if nothing hindered it; no handle only if the candidate is absent or revoked; a handle with an error always asks for reconciliation and names the pair; what stops it before it looks at the table is the error it returns; the run gains only the attempt's own steps and those of the others; undisturbed it succeeds |
| Participant.ActiveToReplace | internal/securitystate/destination_rotation_participant.go:578-598 | the record to be replaced is the one active row of an enabled destination with no other live row, read without fault or cancellation; any other readable state is a conflict or asks for reconciliation, as its status says |
| Inspection.ReadPair | internal/postgres/destination_token_lifecycle.go:854-920 | the loop over the selected rows yields the two rows of the attempt exactly if both are there and valid, or an error |
| Inspection.InspectAttempt | internal/postgres/destination_token_lifecycle.go:743-943 | for all read faults: rows only if every request and the commit were confirmed, and then those of the table; a failed rollback or commit destroys the connection; without faults exactly the attempts in order are read |
| Participant.Inspect | internal/securitystate/destination_rotation_participant.go:398-414 | whatever fails, an observation that is given is that of the committed table and, for an issued handle, true of its run; without faults it is given |
| Participant.End | internal/securitystate/destination_rotation_participant.go:313-396 | one transaction that ends an attempt: success is that step alone and is observed; a refusal and each class of statement failure come out as their own rotation error |
| Participant.RollbackRotation | internal/securitystate/destination_rotation_participant.go:313-339 | whatever others do in between: success adds exactly one rollback of that pair, then observed as rolled back; a definite error adds nothing; an unknown outcome adds that rollback or nothing; undisturbed it succeeds exactly on an open overlap before its deadline, and otherwise answers conflict or what kept it from observing the pair |
| Participant.FinalizeRotation | internal/securitystate/destination_rotation_participant.go:371-396 | whatever others do in between: success adds exactly one deadline finalization of that pair, then observed as completed; a definite error adds nothing; an unknown outcome adds that finalization or nothing; undisturbed it succeeds exactly on an open overlap from its deadline on, and otherwise answers conflict or what kept it from observing the pair |
| CanonicalString.AppendCanonicalString | internal/httpapi/canonical.go:193-243 | the loop that copies runs lazily accepts exactly the valid UTF-8 strings and appends what the per-character escaper gives |
| JsonLiteral.EscapeRoundTrip | internal/httpapi/canonical.go:193-243 | the decoder of section 7 of RFC 8259 reads every canonical literal back to its string and stops at its closing quote |
| JsonLiteral.QuoteIsPrefixFree | internal/httpapi/canonical.go:193-243 | a canonical literal determines its string and where it ends |
| JsonLiteral.CanonicalIsHarmless | internal/httpapi/canonical.go:193-243 | the body of a canonical literal has no control byte, angle bracket or ampersand, and no bytes of U+2028 or U+2029 |
| JsonLiteral.CanonicalIsGrammatical | internal/httpapi/canonical.go:193-243 | the body follows the grammar of section 7 of RFC 8259, and has only the escapes of the format: short ones where there are any, otherwise four lower-case digits, for control characters, angle brackets, ampersand and the two separators |
| JsonLiteral.CanonicalPasses | internal/httpapi/canonical.go:193-243 | every canonical literal passes the surrogate check |
| JsonLiteral.ValidSurrogateEscapes | internal/httpapi/decode.go:197-229 | on every grammatical literal the skipping loop accepts exactly if each surrogate escape is half of an adjacent high and low pair |
| JsonLiteral.CheckIsExact | internal/httpapi/decode.go:197-229 | the same of the check as a function of the text that is left |
| JsonLiteral.DecodableIffPaired | internal/httpapi/decode.go:197-229 | the literals with paired surrogate escapes are exactly those that denote a string |
| Json.ReadsBack | internal/httpapi/canonical.go:86-191 | a reader of objects, numbers and literals written from sections 4, 6 and 7 of RFC 8259 finds in compact text exactly the value it was written from, with members in their order, and stops at its end |
| CanonicalEvent.Canonicalize | internal/httpapi/canonical.go:37-84 | exactly the acceptable events are canonicalized, to the bytes whose reading `BytesAreDocumented` gives |
| CanonicalEvent.CanonicalizeTest | internal/httpapi/canonical.go:86-94 | the same for test events |
| CanonicalEvent.CanonicalizeVerification | internal/httpapi/canonical.go:96-109 | the same for verification events |
| CanonicalEvent.CanonicalizeAlert | internal/httpapi/canonical.go:111-169 | the same for alert events; a nil Meta map is rejected, an empty one is not |
| CanonicalEvent.CanonicalizeAlertStatus | internal/httpapi/canonical.go:171-191 | the same for alert status events |
| CanonicalEvent.SortedMetaKeys | internal/httpapi/canonical.go:145-152 | whatever order the map is visited in, the keys come out in the one ascending order, unless some key or value is not acceptable |
| CanonicalEvent.AppendMembers | internal/httpapi/canonical.go:153-167 | the loop over the sorted keys writes the members with commas between them and the closing brace |
| CanonicalEvent.OrderIsUnique | internal/httpapi/canonical.go:152 | a set of keys has only one strictly ascending listing |
| CanonicalEvent.LessByFirstDifference | internal/httpapi/canonical.go:152 | one key comes before another exactly if it is smaller in the first byte in which they differ, or is a beginning of it |
| CanonicalEvent.BytesAreDocumented | docs/canonical-event-format-v1.md:20-34 | for each kind of event the reader finds in the canonical bytes exactly the documented names with the event's values in the documented order, Meta as a nested object with ascending names, and nothing behind |
| CanonicalEvent.BytesIdentifyTheEvent | internal/httpapi/canonical.go:37-191 | two events have the same canonical bytes exactly if they are the same kind with equal fields and equal Meta maps |
| Identifiers.UnhexIsExact | internal/durable/types.go:167-182 | hexadecimal decoding accepts one text per value, up to the case of letters |
| Identifiers.ParseUuid | internal/securitystate/types.go:481-496 | for each identity exactly its own text is accepted, up to the case of letters where the parser allows that; zero is rejected, and other versions where version 4 is required |
| Identifiers.FormatUuid | internal/durable/types.go:153-165 | filling the 36-byte buffer run by run gives the text that parsing accepts for the identity |
| Identifiers.ParseDeliveryIdentity | internal/intake/service.go:56-59 | a delivery identity is taken exactly in its canonical text |
| Identifiers.Base64RoundTrip | internal/securitystate/types.go:93-104 | decoding inverts encoding for byte strings of every length |
| Identifiers.SextetIsUrlSafe | internal/securitystate/types.go:93-104 | the 64 characters are those of section 5 of RFC 4648 in their order |
| Identifiers.ParseBase64 | internal/securitystate/types.go:93-123 | of all texts that decode to a value of the right size, exactly its encoding is accepted, though decoding skips line ends and ignores spare bits |
| Aad.BuildAad | internal/protection/service.go:248-294 | exactly the valid contexts are encoded, with all strings up to 2^32-1 bytes |
| Aad.AadReadsBack | internal/protection/service.go:270-284 | a reader of tag, zero byte, 8-byte protection version, purpose byte, 8-byte format version, 16 identity bytes and three strings behind their 4-byte lengths finds principal, destination and key, and with them the whole context |
| Aad.AadIdentifiesTheContext | internal/protection/service.go:248-294 | the bytes determine version, purpose, format, identity, principal, destination and key |
| Acceptance.Repository.InsertOrLoad | internal/postgres/acceptance.go:99-253 | for all faults: at most this one row is added and only for a new identity and receipt; an answer is about the committed table; an error but outcome-unknown changed nothing; outcome-unknown destroys the connection; which error it is follows from what went wrong first; without faults it succeeds |
| Acceptance.Accept | internal/durable/store.go:98-143 | new means this call added the row; duplicate and conflict are about the row already there, and are decided exactly by stored version and digest; an invalid acceptance, a missing receipt, the transaction's error and a digest that does not open each have their own error; a call that nothing disturbs is answered |
| Acceptance.RowsAreImmutable | internal/postgres/migrations/000001_initial_schema.sql:42-43 | in every run the unique constraints hold and no row changes or goes away |
| Acceptance.OneReceiptPerIdentity | internal/durable/store.go:98-143 | in every run, once an identity was answered with a receipt it is never answered as new again: it is a duplicate with that same receipt, or a conflict |
| Acceptance.RowsComeFromCalls | internal/postgres/acceptance.go:99-253 | every row was written by one call, which was answered as new or whose outcome was unknown |
| Intake.Prepare | internal/protection/service.go:44-136 | bytes and digest are sealed for their own purposes under the request's context with distinct nonces; nothing but the listed conditions prevents it, each with its error |
| Intake.Admit | internal/intake/service.go:45-83 | exactly the acceptable requests reach the store, as the acceptance of their own identity and canonical bytes; the others are told apart as invalid, not canonicalizable, not protectable, without key or without nonces |
| Intake.Accept | internal/intake/service.go:45-131 | the answer is the store's answer for that acceptance and is well formed; a request turned away earlier changes nothing |
| Intake.SealedForOneContext | internal/protection/service.go:138-170 | a protected digest opens only under the principal, destination, delivery, version and key it was sealed for |
| Intake.OpensUnderItsContext | internal/protection/service.go:138-170 | and under these it opens to its text as long as its key is found |
| Intake.DuplicateMeansTheSameEvent | internal/intake/service.go:45-131 | in every run of the pipeline, an answer other than new refers to the first stored request for that identity: duplicate, with its receipt, exactly if both events are equal, else conflict |
| Signing.ParseTimestamp | internal/authentication/service.go:294-305 | a timestamp is accepted exactly in its shortest decimal form below 2^64 |
| Signing.ParseAuthorization | internal/authentication/service.go:266-292 | a header is accepted exactly if it is the one text for a version 4 credential identity and a 32-byte signature |
| Signing.ValidCanonicalPath | internal/authentication/service.go:250-257 | a path is accepted exactly if it is the prefix followed by the text of a 32-byte token |
| Signing.ParseRequest | internal/authentication/service.go:202-264 | a request is accepted exactly if it is the request of some well-formed fields, and it determines them; it is invalid exactly if method, path or delivery is wrong, and otherwise fails authentication |
| Signing.SplitInvertsJoin | internal/authentication/service.go:330-342 | cutting joined lines at every newline gives back the lines |
| Signing.SigningInputSpells | docs/authentication-v1-foundation.md:64-74 | the signed bytes of a parsed request are nine lines: the domain, audience and credential which decode from lower-case dashed hexadecimal, `POST`, the path, the delivery, the timestamp in digits, the nonce in base64url and the body digest in lower-case hexadecimal, in the documented order |
| Signing.SigningInputDetermines | internal/authentication/service.go:330-342 | for parsed requests the signed bytes are equal exactly if audience, every signed field and body digest are |
| Replay.WindowIsSymmetric | internal/authentication/service.go:350-355 | with 64-bit unsigned subtraction the window is exactly 60 seconds to either side, with no wrap-around |
| Replay.AcceptingReadingsAreClose | internal/postgres/authentication_state.go:16 | two readings that accept one signed timestamp are less than 121 seconds apart, within a reservation's lifetime |
| Replay.Store.Reserve | internal/postgres/authentication_state.go:298-362 | reserved only for a new slot and for five minutes, duplicate only for a taken one, a definite error changed nothing, an unknown outcome destroys the connection; each failure has its disposition |
| Replay.Authenticate | internal/authentication/service.go:84-200 | success only for a genuine request of a usable credential inside the window, an authorized principal and a slot this call reserved; an undisturbed call succeeds exactly then, and is otherwise invalid, rejected, forbidden or unavailable as the first failing check says, with the nonce of a genuine request taken even if its principal is forbidden |
| Replay.EachNonceSucceedsOnce | internal/authentication/service.go:156-177 | in every run one credential record and nonce succeed at most once, and a later attempt with the same signed timestamp lies before the reservation's expiry |
| Migrations.ClassifySnapshot | internal/postgres/inspect.go:58-92 | the loop's status is the judgement of the whole log: uninitialized, invalid, behind, current or ahead |
| Migrations.Session.Apply | internal/postgres/pgbackend.go:114-154 | success records exactly this migration; an error changed nothing unless a commit was lost; it is an interruption exactly if the first failing request met one or the rollback is unconfirmed |
| Migrations.Run | internal/postgres/runner.go:31-77 | it ends for every session, by a panic exactly if the first inspection is acceptable with a negative version; with a transactional session it never panics, adds only missing migrations in order and once each, leaves an ahead or invalid log alone and reports it as such, succeeds only on the full list with matching checksums, and without faults does succeed |
| Migrations.NotEveryRunReturns | internal/postgres/runner.go:51-52 | one reply of a lying session meets the condition of the panic |
| Migrations.NegativeVersionPanics | internal/postgres/runner.go:51-52 | a run against a session that gives this reply panics |
| Migrations.Finish | internal/postgres/pgbackend.go:51-77 | the connection is reused, and success reported, only if the lock is known to be free |

## Left out

- HTTP handling, metrics, server start, pool and URL configuration: input and output around the modelled logic.
- PostgreSQL locking and isolation: a locked transaction is one atomic step whose acknowledgement may be lost; a commit that takes effect only after later transactions is not modelled.
- More than one destination: rows of different destinations never meet, so the model has one.
- Clock readings before the year 1 and within its first microsecond: stored time is a natural number of microseconds and 0 is the zero time.
- HMAC, SHA-256, AES-GCM and random sources: function values with the assumptions named above; fresh record identities are an assumption of `BeginRotation`.
- JSON tokenizing, field decoders and duplicate-key detection: `encoding/json` is not part of this model; literals are read by a decoder written from RFC 8259.
- `ObserveRotation`'s identification of the presented token: only its inspection and classification are modelled.
- Destination resolution and the decoding of credential and principal rows: field-by-field checks; usability of a credential is a parameter.
- Redacting formatters, getters, defensive copies, nil checks by reflection and error texts: they would only add easy members.
- `preparedMatchesRequest` and `validResult` as branches: what `Prepare` and the store return always satisfies them, as the contracts of `Intake.Admit` and `Intake.Accept` say.
- White space other than ASCII at the ends of a header value: it is not singled out, since no text that has it is accepted further on.
- Overflow of a reservation's expiry: times are unbounded integers there.
- Loading of the embedded migration files: their contiguous versions are what `Contiguous` assumes.
