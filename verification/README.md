# Verified models of webhook-receiver-conformance

Dafny models of the parts of the repository whose correctness is hardest to see by reading, with the proofs.

| file | models |
|---|---|
| `ReceiverTables.dfy` | the four tables of the reference receiver, one transaction of `handle` as a function, and the invariants |
| `ReceiverDatabase.dfy` | `handle` as it runs: constrained SQL statements in one write transaction that may fail at any statement |
| `ReceiverSequence.dfy` | handling deliveries one at a time |
| `ReceiverSteps.dfy` | the steps of interleaved handlers: redelivery, conflicts, refusals, errors, timeouts, deaths before and after commit |
| `ReceiverRuns.dfy` | whole runs of those steps |
| `ReceiverProgress.dfy` | no handler gets stuck |
| `ReceiverConfluence.dfy` | an order's row read off the events, and when its state depends on the order of arrival |
| `ReceiverParked.dfy` | which refunds stay parked, and when the keys of the tables depend on the order of arrival |
| `ReceiverHistory.dfy` | all four tables read off the events |
| `ReceiverArrival.dfy` | when an order's whole row, and all four tables, depend on the order of arrival |
| `Signatures.dfy`, `Codecs.dfy` | signing and verifying under the three profiles, and the text codecs in the headers |
| `SignedMessages.dfy` | what timestamp, event id and body a signed message can be read as |
| `CanonicalJson.dfy`, `Text.dfy` | the canonical printer, UTF-8, UTF-16 and decimals |
| `JsonReader.dfy` | a reader of JSON after RFC 8259, which gives printed values back |
| `Manifests.dfy` | manifest identity, and which values the printer refuses |
| `BlobStore.dfy`, `BlobFiles.dfy` | installing content-addressed blobs with many writers, and the read and write loops |
| `BlobVerdicts.dfy` | what a writer reports, when errors are real, and that every writer can finish |
| `BlobDurability.dfy` | which blobs outlive power loss |
| `Generator.dfy`, `Sampling.dfy`, `Digits.dfy` | context encoding, keystream, rejection sampling, fixed-width numbers |
| `LockGraph.dfy` | the scopes of locked dependencies |
| `YamlScan.dfy`, `YamlWalks.dfy` | the bounded scan of YAML events and the two walks after it |
| `FrozenJson.dfy` | the bounded JSON profile, freezing and thawing |
| `Stacks.dfy`, `Options.dfy` | what the walks with explicit stacks share, and optional values |
| `JsonPointer.dfy` | JSON Pointer resolution |
| `Identifiers.dfy` | Crockford payloads and prefixed identifiers |

`dafny verify dfyconfig.toml` checks the whole project.

## Modelling decisions

- A table is a map from its primary key to its row. A transaction works on a private copy under the write lock and the
  commit replaces the tables. The clock, SHA-256 digests of bodies and the parsed event are inputs.
- Another order of arrival means the same events in any order and received at any times: the receiver reads the clock
  when an event arrives, so the time is not part of the event.
- The pending-refund query sorts by event id. The loop here visits the rows in any order, so the result covers that order.
- HMAC-SHA256 is any function to 32 bytes and SHA-256 is any function. Only
  `AcceptedWasSigned` assumes that two particular digests do not collide.
- Case folding of header names is any function that leaves the nine lowercase names alone.
- How many bytes a read or write moves is decided outside the model.
- The directory has a durable image. Only a sync of the directory extends it, and only somebody outside the protocol
  does that. Power loss keeps the durable names, may keep or forget the others, and may change a file that was not synced.
- Text is a sequence of code points where code points matter. A Python dictionary is a sequence of entries in insertion order.
- A raised exception is a `None`, an error outcome or a verdict of its own.
- Python converts no decimal text of more than 4300 digits. `JsonPointer.RaisesIff` says exactly which pointer texts can
  make the resolver raise. The program never receives one, because pointers have at most 4096 characters:
  `ValidNeverRaises`.

## Where a promise does not hold

- The tables are not the same for every order of arrival: `TablesDependOnOrder` gives the events. `TablesIff` says exactly
  when all four tables, apart from the times in them, are the same for every order. `KeysIff` says it for the processed,
  effect and outbox keys, `ParkedIff` for one refund, `ConfluentIff` for an order's state and `RowIff` for its whole row.
- Verification is not total: an event id header that is not ASCII can raise an exception. `RaisesExample` gives the
  request and `RaisesIff` the exact condition.
- A signed message does not determine event id and body: `GenericExample` and `StandardExample` give two readings
  of one message.
  `GenericAmbiguousIff` and `StandardAmbiguousIff` give the exact conditions. `MessageFraming` shows that bodies which no
  identifier character begins, such as JSON objects, exclude the other readings, and `AcceptedWasSigned` concludes.
- A blob that is reported as stored can be lost with the power, since the store never syncs the directory.
  `InstalledThenLost` gives a run and `SuccessSurvivesIff` the exact condition. `specification/19-reliability-and-recovery.md`
  promises power-loss durability only within the guarantees of the filesystem. What a final name holds is sound even
  then: `AlwaysSound`.

## Model

| member | source | states |
|---|---|---|
| ReceiverTables.AfterInv | reference_receivers/correct/receiver.py:398-433 | every transaction keeps: effect iff outbox row iff processed inbox row, with type, order and topic agreeing; only refunds wait; an order has a row iff it has a payment effect, is refunded iff it has a refund effect, and its version is its effect count while paid and between 2 and that count once refunded |
| ReceiverTables.EmptyInv | reference_receivers/correct/receiver.py:495-543 | the freshly created tables meet the invariants |
| ReceiverTables.ApplyFits | reference_receivers/correct/receiver.py:787-851 | applying one payment, or one refund of an order that has a row, keeps every order in step with its effects: paid version equals the effect count, refunded version lies between 2 and that count |
| ReceiverTables.ResolvedStep | reference_receivers/correct/receiver.py:875-892 | resolving waiting refunds one by one in any order gives one closed form |
| ReceiverTables.ResolvedInv | reference_receivers/correct/receiver.py:854-892 | resolving any set of waiting refunds of an order that has a row keeps the invariants |
| ReceiverTables.AfterExtends | reference_receivers/correct/receiver.py:398-433 | recorded rows never change or disappear, a refunded order stays as it is, versions never decrease |
| ReceiverTables.NoRefundLeftPending | reference_receivers/correct/receiver.py:425-432 | after an accepted payment no refund of its profile, account and order waits |
| ReceiverTables.CountsAgree | reference_receivers/correct/receiver.py:903-928 | the processing, effect and outbox counts agree for every event filter |
| ReceiverTables.ResolveReady | reference_receivers/correct/receiver.py:495-543 | no statement for the next waiting refund can break a primary key, foreign key or check constraint |
| ReceiverDatabase.Database.InsertInboxRow | reference_receivers/correct/receiver.py:497-508 | the insert succeeds iff the database answers and the key is new, and changes nothing otherwise |
| ReceiverDatabase.Database.InsertEffectRow | reference_receivers/correct/receiver.py:516-528 | the insert succeeds iff the database answers, the key is new and its inbox row exists |
| ReceiverDatabase.Database.InsertOutboxRow | reference_receivers/correct/receiver.py:530-541 | the insert succeeds iff the database answers, the key is new and its inbox row exists |
| ReceiverDatabase.Database.WriteOrderRow | reference_receivers/correct/receiver.py:510-514 | the write succeeds iff the database answers, an inserted order is new and the version is positive |
| ReceiverDatabase.Database.Rollback | reference_receivers/correct/receiver.py:441-443 | every table is what was last committed |
| ReceiverDatabase.Database.Apply | reference_receivers/correct/receiver.py:787-851 | the three statements, each checking its constraints, do the whole update or stop at a database failure |
| ReceiverDatabase.Database.ResolveOne | reference_receivers/correct/receiver.py:875-892 | one waiting refund is applied and its inbox row marked, or the database failed |
| ReceiverDatabase.Database.ResolveRows | reference_receivers/correct/receiver.py:875-892 | the loop over any set of waiting refunds, in any order, gives the closed form |
| ReceiverDatabase.Database.ResolvePendingRefunds | reference_receivers/correct/receiver.py:854-892 | the query and its loop resolve exactly the waiting refunds of one profile, account and order |
| ReceiverDatabase.Database.Record | reference_receivers/correct/receiver.py:398-432 | recording a fresh event never breaks a constraint; it can fail only by a database failure |
| ReceiverDatabase.Database.Handle | reference_receivers/correct/receiver.py:375-446 | all or nothing: the tables of one transaction, or unchanged tables and unavailable; accepted iff the key is new, duplicate iff the recorded event has the same type, order and payload, conflict iff it has the key and differs |
| ReceiverDatabase.RecordReady | reference_receivers/correct/receiver.py:404-421 | from a state that meets the invariants no statement for a fresh key breaks a constraint |
| ReceiverRuns.ExactlyOnce | reference_receivers/correct/receiver.py:350-446 | in every reachable state the tables equal those of handling the first committed delivery of each key once, in commit order, and meet the invariants |
| ReceiverRuns.ConstraintsHold | reference_receivers/correct/receiver.py:495-543 | in no reachable state is any open transaction about to break a constraint |
| ReceiverRuns.AcknowledgedIsDurable | reference_receivers/correct/receiver.py:433-440 | whoever was answered accepted or duplicate finds that very event in the committed inbox |
| ReceiverRuns.AcceptedOnce | reference_receivers/correct/receiver.py:386-397 | at most one handler of a run is answered accepted for a key |
| ReceiverRuns.AnswerMeaning | reference_receivers/correct/receiver.py:386-397 | every answer of a run, read off the log alone: accepted iff no earlier committed delivery has the key, duplicate iff the first that has it is the same event, conflict iff that one differs |
| ReceiverRuns.TablesOnlyGrow | reference_receivers/correct/receiver.py:787-821 | between any two moments of a run rows are only added, refunded is absorbing and versions never decrease |
| ReceiverSteps.NextKeeps | reference_receivers/correct/receiver.py:375-446 | every step of every handler, a timeout on the write lock included, keeps: the tables are the committed log replayed, and an open transaction is a prefix of one |
| ReceiverSequence.FirstsSuffice | reference_receivers/correct/receiver.py:386-397 | replaying only the first delivery of each key leaves the same tables |
| ReceiverSteps.NoViolation | reference_receivers/correct/receiver.py:398-432 | a transaction that is a prefix of a whole one is not about to break a constraint |
| ReceiverSequence.SequentialKeys | reference_receivers/correct/receiver.py:404-421 | the inbox holds exactly the delivered keys |
| ReceiverProgress.CanAdvance | reference_receivers/correct/receiver.py:377-433 | in every state that meets the invariant the holder of the write lock has a next statement, and it brings the end closer |
| ReceiverProgress.CanCommit | reference_receivers/correct/receiver.py:377-434 | the holder of the lock can run to its commit, which frees the lock and disturbs nobody |
| ReceiverProgress.NeverStuck | reference_receivers/correct/receiver.py:375-446 | from every reachable state every handler that waits or is in its transaction can still be answered from the tables |
| ReceiverConfluence.FinalRow | reference_receivers/correct/receiver.py:787-821 | an order's row after any distinct events: paid with its payment count as version, or refunded with one more than the payments up to the event that flipped it |
| ReceiverConfluence.FinalState | reference_receivers/correct/receiver.py:787-821 | an order is absent without payment, refunded iff some refund follows a payment or shares profile and account with one, paid otherwise, for any mix of profiles and accounts |
| ReceiverConfluence.Confluent | reference_receivers/correct/receiver.py:398-432 | every order and all times of arrival give the same order state when it was never paid, never refunded, or paid and refunded under one profile and account |
| ReceiverConfluence.OneTenantConfluent | reference_receivers/correct/receiver.py:854-900 | an order touched under one profile and account ends absent, paid or refunded by what was delivered alone, whatever the order and times of arrival |
| ReceiverConfluence.ConfluentIff | reference_receivers/correct/receiver.py:895-900 | that condition is exact: without it two orders of arrival give different states |
| ReceiverConfluence.RunsAgree | reference_receivers/correct/receiver.py:350-446 | two whole runs whose first deliveries are the same events, in any order and at any times, agree on the state of every order that meets the condition of `ConfluentIff` |
| ReceiverParked.ParkedExactly | reference_receivers/correct/receiver.py:398-403 | exactly which refunds are left waiting, read off the sequence of events |
| ReceiverParked.TablesDependOnOrder | reference_receivers/correct/receiver.py:398-432 | payment, refund, refund parks the second refund; refund, refund, payment does not |
| ReceiverParked.ParkedIff | reference_receivers/correct/receiver.py:398-403 | whether a refund ends up parked is the same for every order and all times of arrival iff its order is never paid, or it is the only refund and its own profile and account pay the order |
| ReceiverParked.KeysIff | reference_receivers/correct/receiver.py:398-432 | the processed, effect and outbox keys are the same for every order and all times of arrival iff every refund meets that condition |
| ReceiverParked.RunsAgreeOnKeys | reference_receivers/correct/receiver.py:350-446 | two whole runs whose first deliveries are the same events, in any order and at any times, process the same events if every refund meets it |
| ReceiverHistory.EventRows | reference_receivers/correct/receiver.py:404-432 | the inbox, effect and outbox rows of an event: applied at its own time if it is a payment or was paid on arrival, else at the time of the first later payment of its order, profile and account, else never |
| ReceiverHistory.TablesMeaning | reference_receivers/correct/receiver.py:350-446 | after distinct events all four tables are the ones that a description in terms of the events alone gives |
| ReceiverHistory.DescribesOne | reference_receivers/correct/receiver.py:495-543 | that description fits one set of tables only |
| ReceiverHistory.RunMeaning | reference_receivers/correct/receiver.py:350-446 | in every reachable state the tables are exactly those that the first committed delivery of each key describes |
| ReceiverArrival.RowIff | reference_receivers/correct/receiver.py:787-821 | an order's whole row, version included, is the same for every order and all times of arrival iff it was never paid, never refunded, or paid once with a refund of that profile and account |
| ReceiverArrival.TablesIff | reference_receivers/correct/receiver.py:350-446 | all four tables, apart from the times of receipt and creation, are the same for every order and all times of arrival iff every refund meets the condition of `ParkedIff` and every order that of `RowIff` |
| ReceiverArrival.RunsAgreeOnTables | reference_receivers/correct/receiver.py:350-446 | two whole runs whose first deliveries are the same events, in any order and at any times, then leave the same tables apart from those times |
| Signatures.ParseStripeHeader | reference_receivers/correct/receiver.py:1008-1033 | the loop returns what the header says: 2 to 32 named parts, one timestamp, one to eight digests in order |
| Signatures.ParseStandardSignatures | reference_receivers/correct/receiver.py:1036-1057 | the loop reads one to eight signatures, all or none |
| Signatures.MatchesAny | reference_receivers/correct/receiver.py:734-746 | true iff some key's digest is among the supplied ones |
| Signatures.GenericRoundTrip | reference_receivers/correct/receiver.py:648-678 | generated generic headers verify to the signed timestamp and event id |
| Signatures.StripeRoundTrip | reference_receivers/correct/receiver.py:681-702 | generated Stripe headers verify to the signed timestamp |
| Signatures.StandardRoundTrip | reference_receivers/correct/receiver.py:705-731 | generated Standard Webhooks headers verify to the signed timestamp and event id |
| Signatures.RoundTrip | reference_receivers/correct/receiver.py:588-645 | under every profile, what is signed for a well-formed event id and any body with a configured key that is active now is accepted, with that timestamp and event id, if the timestamp is below ten to the nineteenth and within the replay window around now |
| Signatures.AcceptedIff | reference_receivers/correct/receiver.py:633-746 | a request is accepted with a timestamp and event id iff it states exactly them, the id is ASCII, the timestamp lies from now less the window to now plus the window, and the digest that some configured key, active at this time and named if the profile names one, gives the message over them is supplied; with `RaisesIff` this fixes every verdict |
| Signatures.RaisesIff | reference_receivers/correct/receiver.py:668-678 | verification raises instead of refusing exactly on a readable request within the replay window with a key to try whose event id is not ASCII |
| Signatures.RefusedWhen | reference_receivers/correct/receiver.py:633-746 | a request without a timestamp, with one outside the replay window, or without a key to try is refused |
| Signatures.OneHeaderIff | reference_receivers/correct/receiver.py:1000-1005 | a header is found iff it is the only one of its folded name, with its value |
| Signatures.HexDigestIff | reference_receivers/correct/receiver.py:1060-1066 | a digest is read iff the text is its 64 lowercase hexadecimal digits |
| Signatures.StandardSignatureIff | reference_receivers/correct/receiver.py:1036-1057 | a signature is read iff it is v1, and 43 base 64 digits and one pad that spell the digest |
| Signatures.RaisesExample | reference_receivers/correct/receiver.py:1082-1083 | a request on which it raises |
| SignedMessages.StripeFraming | reference_receivers/correct/receiver.py:1086-1087 | the Stripe message determines timestamp and body |
| SignedMessages.GenericFraming | reference_receivers/correct/receiver.py:1082-1083 | over identifier-character ids and bodies that none begins, the generic message determines timestamp, id and body |
| SignedMessages.StandardFraming | reference_receivers/correct/receiver.py:1090-1091 | the same for the standard message |
| SignedMessages.MessageFraming | reference_receivers/correct/receiver.py:1082-1091 | the same under every profile |
| SignedMessages.GenericAmbiguousIff | reference_receivers/correct/receiver.py:1082-1083 | without a condition on the body, a message over a safe id has another reading iff the id holds a dot, or the body holds one up to which it continues the id to a safe id |
| SignedMessages.StandardAmbiguousIff | reference_receivers/correct/receiver.py:1090-1091 | a standard message has another reading iff a decimal number between dots follows a dot of the id, or a dot up to which timestamp and body continue the id |
| SignedMessages.GenericExample | reference_receivers/correct/receiver.py:1082-1083 | one message read as two pairs of safe id and body |
| SignedMessages.StandardExample | reference_receivers/correct/receiver.py:1090-1091 | one standard message read as two triples of timestamp, safe id and body |
| SignedMessages.AcceptedWasSigned | reference_receivers/correct/receiver.py:633-746 | if the supplied digests were made for one signed message and do not collide with the accepted one, the accepted timestamp, id and framed body are the signed ones |
| Codecs.HexRoundTrip | reference_receivers/correct/receiver.py:1060-1066 | lowercase hexadecimal of any bytes is read back |
| Codecs.HexReads | reference_receivers/correct/receiver.py:1060-1066 | exactly the lowercase hexadecimal text of bytes is read, as those bytes |
| Codecs.HexAlphabet | reference_receivers/correct/receiver.py:28 | the sixteen digits in order |
| Codecs.Base64RoundTrip | reference_receivers/correct/receiver.py:1047-1056 | base 64 of any bytes is read back |
| Codecs.Base64Alphabet | reference_receivers/correct/receiver.py:31 | the 64 digits in order |
| Codecs.Base64Examples | reference_receivers/correct/receiver.py:1047-1056 | base 64 agrees with examples of section 10 of RFC 4648 |
| Codecs.TimestampRoundTrip | reference_receivers/correct/receiver.py:1069-1075 | a printed timestamp is read back exactly if it is below ten to the nineteenth |
| Codecs.TimestampIff | reference_receivers/correct/receiver.py:1069-1075 | a text is read as a timestamp iff it is the printed number, without needless zeros and of at most nineteen digits |
| JsonReader.CanonicalIffSame | src/webhook_receiver_conformance/domain/hashing.py:48-54 | two accepted values have the same canonical bytes iff they are equal up to the order of object members |
| JsonReader.Unambiguous | src/webhook_receiver_conformance/domain/hashing.py:84-143 | texts that agree up to where either value could end come from the same value and end at the same place, since the reader gives one value back |
| JsonReader.ReadPrinted | src/webhook_receiver_conformance/domain/hashing.py:84-143 | a reader of JSON without white space, written after RFC 8259 and not after the printer, reads every printed value, whatever may follow it, as an equal value whose objects have their members in ascending order of UTF-16 code units |
| JsonReader.EscapesAreShort | src/webhook_receiver_conformance/domain/hashing.py:104-106 | strings are escaped only where they must be, with the two-character escape where there is one and four lowercase digits otherwise |
| CanonicalJson.SameValuePrints | src/webhook_receiver_conformance/domain/hashing.py:129-143 | values equal up to member order print the same text |
| JsonReader.StringRoundTrip | src/webhook_receiver_conformance/domain/hashing.py:104-106 | a JSON string reader gives back every printed string, whatever follows |
| CanonicalJson.KeysInUnitOrder | src/webhook_receiver_conformance/domain/hashing.py:193-195 | keys are compared by UTF-16 code units, as section 3.2.3 of RFC 8785 asks |
| CanonicalJson.SortSorted | src/webhook_receiver_conformance/domain/hashing.py:137 | members are printed in ascending key order |
| CanonicalJson.SortedKeysAgree | src/webhook_receiver_conformance/domain/hashing.py:137 | two sorted sequences of distinct members with the same keys have them at the same places |
| Manifests.ManifestIdentity | src/webhook_receiver_conformance/domain/hashing.py:57-76 | equal manifest bytes mean manifests that differ at most in root manifest_id and member order, and conversely |
| Manifests.RefusedIff | src/webhook_receiver_conformance/domain/hashing.py:92-108 | a value has no canonical bytes iff it contains something that is not JSON, an integer of 54 bits or more, a surrogate in a string or key, or, what no dictionary has, a repeated key |
| Manifests.ManifestRefusedIff | src/webhook_receiver_conformance/domain/hashing.py:57-76 | a manifest has no canonical bytes iff it has a root run_id or something offends outside the root manifest_id |
| Text.Utf8Injective | src/webhook_receiver_conformance/domain/hashing.py:54 | distinct texts have distinct UTF-8 |
| Text.Utf16Injective | src/webhook_receiver_conformance/domain/hashing.py:193-195 | distinct keys have distinct sort keys |
| Text.Utf8RoundTrip | src/webhook_receiver_conformance/domain/hashing.py:54 | the UTF-8 of every character determines it |
| Text.EncodedExamples | src/webhook_receiver_conformance/domain/hashing.py:193-195 | one character of every encoded length, as RFC 3629 and RFC 2781 have it |
| Text.DecimalRoundTrip | src/webhook_receiver_conformance/domain/hashing.py:103 | the value of a printed decimal is the number |
| BlobStore.SuccessStores | src/webhook_receiver_conformance/fixtures/blobs.py:304-366 | a writer that returned success has exactly its own bytes under its digest, whatever the directory held before |
| BlobVerdicts.VerdictIsRight | src/webhook_receiver_conformance/fixtures/blobs.py:455-476 | looking at an existing file ends, however reads are cut short, in verified if its bytes are the body and in an integrity error if not |
| BlobVerdicts.ErrorsAreReal | src/webhook_receiver_conformance/fixtures/blobs.py:304-366 | in a run without failing calls a writer that is done was successful iff its bytes are stored, reports an integrity error iff other bytes are stored under its digest, and reports nothing else |
| BlobVerdicts.NoFailureNoError | src/webhook_receiver_conformance/fixtures/blobs.py:304-366 | so, in a store that starts sound and without a collision, every writer that is done was successful |
| BlobVerdicts.CanFinish | src/webhook_receiver_conformance/fixtures/blobs.py:304-366 | from every state a starting writer has steps without failure to the outcome it is due: installed if the name was free, verified if its bytes were there, an integrity error otherwise |
| BlobVerdicts.StoreTwice | src/webhook_receiver_conformance/fixtures/blobs.py:304-366 | for every body there is a run in which one writer installs it and a later one verifies it |
| BlobStore.AlwaysSound | src/webhook_receiver_conformance/fixtures/blobs.py:331-343 | in a store that starts sound, through short writes, failures, deaths and power loss, every final name is bound to complete synced bytes that hash to it |
| BlobStore.BoundOnce | src/webhook_receiver_conformance/fixtures/blobs.py:336-357 | while the power stays on a final name is bound once, to one file with the same bytes for good |
| BlobStore.NextKeeps | src/webhook_receiver_conformance/fixtures/blobs.py:304-366 | every step of every writer, failing opens, closes and unlinks included, keeps the invariant, soundness and every final name with its bytes |
| BlobStore.NextSound | src/webhook_receiver_conformance/fixtures/blobs.py:332-343 | every step, power loss included, keeps the invariant and keeps final names sound |
| BlobDurability.DurableIff | src/webhook_receiver_conformance/fixtures/blobs.py:332-343 | while the power stays on, a name is durable iff it was from the start or somebody outside synced the directory while it was bound: no step of the protocol matters |
| BlobDurability.SurvivesIff | src/webhook_receiver_conformance/fixtures/blobs.py:332-343 | a stored blob is kept in every continuation, power loss included, iff its name is durable |
| BlobDurability.SuccessSurvivesIff | src/webhook_receiver_conformance/fixtures/blobs.py:304-366 | so a reported success is kept in every continuation iff the name was durable from the start or was synced from outside |
| BlobDurability.InstalledThenLost | src/webhook_receiver_conformance/fixtures/blobs.py:325-366 | for every body the protocol alone has a run that reports it as installed and a continuation that loses it |
| BlobFiles.File.WriteAll | src/webhook_receiver_conformance/fixtures/blobs.py:493-500 | the whole body is written however writes are cut short, or a proper prefix and an error |
| BlobFiles.File.Write | src/webhook_receiver_conformance/fixtures/blobs.py:497 | one write appends a prefix of what it is given, possibly none |
| BlobFiles.File.Read | src/webhook_receiver_conformance/fixtures/blobs.py:484 | one read returns the next bytes, at most as many as asked for, and none only at the end |
| BlobFiles.File.ReadBounded | src/webhook_receiver_conformance/fixtures/blobs.py:479-490 | the whole file if it is within the maximum, an error otherwise, however reads are cut short |
| Generator.EncodeContext | src/webhook_receiver_conformance/determinism/generator.py:57-70 | the loop gives the length-prefixed concatenation, or an error exactly on an invalid context |
| Generator.ContextInjective | src/webhook_receiver_conformance/determinism/generator.py:57-70 | no two valid contexts have the same encoding |
| Generator.MessageInjective | src/webhook_receiver_conformance/determinism/generator.py:240-245 | distinct contexts or counters never give the same HMAC message |
| Generator.MessageShape | src/webhook_receiver_conformance/determinism/generator.py:240-245 | a message is the domain separator with its zero byte, the context, and the counter in eight bytes, the most significant first |
| Generator.ComponentShape | src/webhook_receiver_conformance/determinism/generator.py:57-70 | a component is the length of its UTF-8 in four bytes, the most significant first, and the UTF-8 |
| Generator.PurposesDisjoint | src/webhook_receiver_conformance/determinism/generator.py:148-238 | choice, UUID, ULID, jitter and planned-id draws use disjoint messages |
| Generator.RootTexts | src/webhook_receiver_conformance/determinism/generator.py:20-22 | the texts of the five context roots, those of retry jitter (line 230 there) and of planned identifiers included |
| Generator.DrawBytes | src/webhook_receiver_conformance/determinism/generator.py:103-117 | the loop draws the beginning of the keystream; it fails exactly on an invalid context or beyond the counter space |
| Generator.SliceIsWindow | src/webhook_receiver_conformance/determinism/generator.py:247-265 | a slice is the window of the keystream at its offset across block boundaries, and fails exactly beyond the counter space |
| Generator.SequentialAndRandomAgree | src/webhook_receiver_conformance/determinism/generator.py:103-117 | a slice is the end of a sequential draw, and shorter draws are prefixes of longer ones |
| Sampling.WidthIsLeast | src/webhook_receiver_conformance/determinism/generator.py:133-135 | the width is the least positive number of bytes that covers the span |
| Sampling.LimitIsMultiple | src/webhook_receiver_conformance/determinism/generator.py:136 | the rejection limit is the largest multiple of the span within the sample space |
| Sampling.MoreThanHalfAccepted | src/webhook_receiver_conformance/determinism/generator.py:135-136 | more than half of the candidates are accepted |
| Sampling.Unbiased | src/webhook_receiver_conformance/determinism/generator.py:136-145 | every value of the range has exactly the same number of accepted candidates |
| Sampling.BoundedInt | src/webhook_receiver_conformance/determinism/generator.py:119-146 | the first accepted window of the keystream, within the counter space, reduced into the range; on a valid range and context an error iff every reachable window is rejected; the loop terminates |
| LockGraph.BuildIndex | scripts/release_check.py:586-609 | succeeds exactly on distinct packages with one editable root and indexes them by name |
| LockGraph.ResolveMeaning | scripts/release_check.py:695-711 | a dependency resolves to a package iff it is the locked one of its name and version, or the only one of its name |
| LockGraph.BuildSeedsMeaning | scripts/release_check.py:629-641 | the build scope starts from exactly the locked packages whose names are required |
| LockGraph.ClosedCovers | scripts/release_check.py:654-660 | a set that holds the seeds and is closed under dependencies holds everything reachable |
| LockGraph.TagScope | scripts/release_check.py:643-660 | the worklist terminates on every graph, fails exactly if the scope is broken, and tags exactly the reachable packages |
| LockGraph.LockedScopes | scripts/release_check.py:643-670 | success iff no scope is broken and every package is reached; then a package has a scope iff that scope's roots reach it |
| YamlScan.FramesFollowTree | src/webhook_receiver_conformance/config/loader.py:1004-1023 | the frames give every node of a document its true depth and path |
| YamlScan.Scan | src/webhook_receiver_conformance/config/loader.py:907-1001 | the loop reports the first objection in document order, or none |
| YamlScan.ScanAcceptsIff | src/webhook_receiver_conformance/config/loader.py:948-987 | a document is accepted iff it is small enough and no node at its true depth is objectionable |
| YamlWalks.ValidateNodes | src/webhook_receiver_conformance/config/loader.py:1123-1211 | exactly the report that is due: the depth limit iff some node among those the walk may count lies too deep, else the node limit iff there are too many, else the first fifty complaints in document order; so nothing is reported iff the tree is clean and within the limits, and a limit iff it is beyond them |
| YamlWalks.CheckPairs | src/webhook_receiver_conformance/config/loader.py:1155-1203 | the complaints about the keys of a mapping in order, each with its code and path, after those before them and up to fifty in all; the value of a string key is visited at the path of that key, any other at the path of the mapping |
| YamlWalks.CheckNode | src/webhook_receiver_conformance/config/loader.py:1123-1211 | the complaint about the tag, then those about the keys, and exactly the value children with their paths, one level deeper |
| YamlWalks.PreorderMeets | src/webhook_receiver_conformance/config/loader.py:1123-1211 | document order meets every value node once: it is as long as the node count, within the depth iff the tree is, and without complaint iff the tree is clean |
| YamlWalks.NoEntryDropped | src/webhook_receiver_conformance/config/loader.py:1341-1353 | where the keys are clean, construction keeps every entry in order |
| YamlWalks.ConstructKeeps | src/webhook_receiver_conformance/config/loader.py:1341-1363 | construction reproduces a clean tree whole: nothing is dropped, reordered or merged at any level |
| YamlWalks.ResourcesFit | src/webhook_receiver_conformance/config/schema.py:80-97 | the stack walk accepts exactly the documents within the node and depth limits |
| YamlWalks.ScanBoundsLaterWalks | src/webhook_receiver_conformance/config/loader.py:1123-1150 | a document that the scan accepts cannot exceed the limits of either later walk |
| YamlWalks.ScanBoundsNodeWalk | src/webhook_receiver_conformance/config/loader.py:948-963 | an accepted scan bounds the nodes and depth of the composed tree |
| FrozenJson.Freeze | src/webhook_receiver_conformance/config/models.py:314-387 | the explicit-stack check accepts exactly the recursive profile of depth, nodes, sizes and ranges, and gives a frozen value with the same scalars, keys, lengths and order |
| FrozenJson.FrozenIff | src/webhook_receiver_conformance/config/models.py:390-405 | the frozen form of an accepted value is the only frozen value of the same content |
| FrozenJson.ThawedIff | src/webhook_receiver_conformance/config/models.py:408-414 | the thawed form of a frozen value is the only plain value of the same content |
| FrozenJson.ThawFreeze | src/webhook_receiver_conformance/config/models.py:408-414 | thawing what was frozen gives a plain value back |
| FrozenJson.FreezeIdempotent | src/webhook_receiver_conformance/config/models.py:390-405 | a frozen value is accepted again and freezing it changes nothing |
| FrozenJson.FrozenWithin | src/webhook_receiver_conformance/config/models.py:390-405 | freezing keeps a value within the profile |
| JsonPointer.Resolve | src/webhook_receiver_conformance/assertions/state.py:464-486 | the loop gives the recursive descent through the decoded tokens, a missing node and an index too long to convert included |
| JsonPointer.TwoPassesDecode | src/webhook_receiver_conformance/assertions/state.py:469 | on valid tokens the two replacements equal one left-to-right decode |
| JsonPointer.EscapeRoundTrip | src/webhook_receiver_conformance/assertions/state.py:469 | an escaped key is a valid token without a slash, and decoding it gives the key back |
| JsonPointer.PathResolves | src/webhook_receiver_conformance/assertions/state.py:464-486 | the pointer of every path of the document finds the node at that path, as long as indexes can be converted |
| JsonPointer.ResolvesIff | src/webhook_receiver_conformance/assertions/state.py:464-486 | a valid pointer, of at most 4096 characters, finds a node iff it is the escaped path of that node in the document |
| JsonPointer.ValidNeverRaises | src/webhook_receiver_conformance/config/models.py:593-597 | a valid pointer never makes the conversion of an index raise |
| JsonPointer.RaisesIff | src/webhook_receiver_conformance/assertions/state.py:476-483 | some document makes the resolver raise iff some decoded token of the pointer is an index of more than 4300 digits |
| JsonPointer.RaisesExample | src/webhook_receiver_conformance/assertions/state.py:479 | one digit beyond what can be converted does |
| Identifiers.EncodeUlid | src/webhook_receiver_conformance/domain/identifiers.py:147-160 | the in-place loop writes the 26 base 32 digits of the payload |
| Identifiers.DecodeUlid | src/webhook_receiver_conformance/domain/identifiers.py:163-179 | the loop reads 26 digits below two to the 128 and refuses everything else |
| Identifiers.Alphabet | src/webhook_receiver_conformance/domain/identifiers.py:18 | the 32 digits in order |
| Identifiers.PrefixTexts | src/webhook_receiver_conformance/domain/identifiers.py:29-47 | the texts of the ten prefixes |
| Identifiers.UlidRoundTrip | src/webhook_receiver_conformance/domain/identifiers.py:147-179 | every 16-byte payload is read back from its text |
| Identifiers.TextRoundTrip | src/webhook_receiver_conformance/domain/identifiers.py:163-179 | every accepted text is the text of the payload it is read as |
| Identifiers.PlannedRoundTrip | src/webhook_receiver_conformance/domain/identifiers.py:71-111 | parsing a generated planned identifier recovers kind and payload |
| Identifiers.PlannedText | src/webhook_receiver_conformance/domain/identifiers.py:103-111 | every text that parses as planned is the one generated for what it parses to |
| Identifiers.FreshRoundTrip | src/webhook_receiver_conformance/domain/identifiers.py:114-144 | parsing a generated fresh identifier recovers kind and payload despite the shared attempt stem |
| Identifiers.FreshText | src/webhook_receiver_conformance/domain/identifiers.py:133-144 | every text that parses as fresh is the one generated for what it parses to |
| Identifiers.NeverBoth | src/webhook_receiver_conformance/domain/identifiers.py:133-144 | no text parses as both planned and fresh |

## Left out

- Parsing event bodies and YAML text: done by libraries; the models start from parsed events and trees.
- SQLite, files, sockets and clocks themselves: a transaction is an atomic replacement of the tables and time is an input.
- The before and after commit hooks of the receiver: their exceptions appear only as a handler that dies at that point.
- The observer's inbox and order listings: plain projections of the tables.
- Reference cycles in `domain/hashing.py`: the model prints finite trees, so the set of active containers never matters.
- Size limits and well-formedness checks of requests, keys and configurations in `receiver.py`: one check each.
- Directory creation and the Windows branch of `fixtures/blobs.py`, and the size limit on bodies.
- YAML document headers, aliases and the line and column numbers of diagnostics: aliases end the scan at once.
- Conversion of YAML scalars to numbers and booleans, and the table of source locations.
- The order in which errors of `freeze_canonical_json` are found: the model keeps only whether there is one.
- `choice`, `choice_index`, `uuid_entropy`, `ulid_entropy` and `signed_retry_jitter` themselves: single calls of `draw_bytes` and `bounded_int`.
- `PlannedIdRegistry.claim`, the subsequence assertions of `assertions/temporal.py`, and exact equality of facts: short and easy.
- The rest of `scripts/release_check.py`, the command line, reports, journal, scheduler and flawed receivers.
