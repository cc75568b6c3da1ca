# Verified models of Passless and its ControlVault tools

This project models the parts of the repository whose behaviour is hardest to
see by reading: the deterministic policy encoding behind policy digests, the
ordered lock acquisition of concurrent daemons, credential backup and restore,
the HID worker loop and its handle, the WebSocket frame codec of the browser
tools, agent configuration validation and RP rule resolution, UHID event
layouts, the libusb host-event shim, and the sensor firmware bundle parser.

`dafny verify dfyconfig.toml` checks everything.

| file | what it models |
|---|---|
| `Cbor.dfy`, `Policy.dfy`, `Ordering.dfy` | the `cbor` module, policies built from parameters, generation digests; stable sorting |
| `Locks.dfy`, `Paths.dfy` | instance locks as interleaved steps of any number of daemons |
| `BackupBundle.dfy`, `BackupAuth.dfy`, `BackupService.dfy` | portable credentials, bundles, authorization preimages, the backup and restore handlers |
| `Worker.dfy` | `run_loop` over scripts of reads, results and cancel observations; `WorkerHandle` |
| `WebSocket.dfy` | `decodeFrame`, `encodeFrame` and the receive buffer |
| `RpIds.dfy`, `AgentConfig.dfy`, `AgentTypes.dfy`, `Texts.dfy` | RP identifiers, profile and configuration validation, rule lookup |
| `Uhid.dfy` | event buffers sent to and received from `/dev/uhid` |
| `HostEventShim.dfy`, `Timestamps.dfy` | the interrupt transfer shim and the timestamp it sends |
| `SensorBundle.dfy` | `parse_sensor_bundle` |
| `Bytes.dfy`, `Wrappers.dfy` | bytes, big-endian integers, `Option` and `Result` |

## How things are modelled

- Text is its UTF-8 bytes, shorter than 2^64. `trim` removes the Unicode
  White_Space characters by their UTF-8 forms; `to_ascii_lowercase` works bytewise.
- Rust's sorts are stable. `StableSort` is insertion sort, and
  `StableSortDetermined` says exactly what its result depends on.
- Daemons, storage, clocks, the kernel, the USB device and the user's approvals
  are environments: an arbitrary schedule of steps, an arbitrary choice for every
  call that may fail, or an arbitrary stream of answers. Theorems hold for all of them.
- A failed storage write or delete leaves the store as it was.
- The cipher and the serialization format of bundles enter by their round-trip laws
  only (`Lawful`). Path canonicalization, IP address parsing, the public suffix list
  and the naming of lock files are function parameters.
- Native byte order (`to_ne_bytes`) is a parameter; results hold for both orders.

## What the model shows about the code

- **Locks.** The comment in `instance_lock.rs` (lines 16-27) says locks are
  released in reverse. The code releases them in other orders: after a failed
  acquisition the backends in the order acquired and then the agent-state lock; on
  a normal drop the agent-state lock first. The model follows the code, and the
  safety and progress theorems hold for these orders.
- **`hmac_secret`.** The reference that the backup handlers build for storage
  (`authenticator.rs`, lines 1285-1302) has no field for it. So "a commit changes
  only the backup state" and "rollback restores the store" hold exactly when storage
  rebuilds the same value from the reference (`CommitEffect`, `RollbackRestores`), and
  two authenticators end with identical credentials exactly when both rebuild the same
  one (`MigrationAgrees`).
- **Eligibility.** A commit does not look at the backup state again. It can mark as
  backed up a credential that another command put under a pending id
  (`InconsiderateCommandPromotes`). Over a run that is possible at some point exactly
  when some command does that (`PromotionExact`, `NeverPromotableExactly`).
- **Export accepts more than import.** Export checks less than import does, so some
  exported bundles can never be restored; import returns the credential exactly when
  the record passes validation (`PortableRoundTrip`, `ExportAcceptsMoreThanImport`).
- **Close frames.** `decodeFrame` takes every close frame to be two bytes long. That is
  its length exactly when it has no body and no mask (`CloseFrameReadWhole`); a masked
  one leaves its mask behind to be read as the next frame (`MaskedCloseMisread`).
  A connection is blocked for good exactly by an opcode that is neither text nor close
  (`StalledExactly`, `StalledForever`).
- **Rule encoding.** A rule's credential selection is not part of the policy bytes
  (`CredentialSelectionNotEncoded`).
- **Device keys.** Profile device identities are compared by a key joined with
  colons. Among all device records the key identifies one exactly when none of its
  text fields holds a colon (`DeviceKeyIdentifies`). Among those that isolated mode
  admits, it fails to exactly when the joined text can be cut at other colons into
  fields that are admitted too (`AdmittedNamesakes`, `DifferentDevicesCanCollide`).
- **RP ids.** The checks for schemes, paths, ports, wildcards and trailing dots choose
  the error message only; what is accepted is decided by the later checks
  (`ValidateRpIdExact`).

## Model

| member | source | states |
|---|---|---|
| Cbor.EncodeArray | passless/passless-core/src/agent/policy.rs:321-327 | the appending loop produces the array head for the item count followed by the items' bytes |
| Cbor.EncodeArrayItem | passless/passless-core/src/agent/policy.rs:321-327 | encoding an array item gives the bytes `encode_array` gives for the encoded items |
| Cbor.EncodeMapSorted | passless/passless-core/src/agent/policy.rs:334-348 | the loops produce the map head followed by key and value bytes in length-first key order, stably |
| Cbor.HeadBytes | passless/passless-core/src/agent/policy.rs:350-379 | the head of each length range, byte by byte: the shortest of the five forms of section 3 of RFC 8949 |
| Cbor.HeadRoundTrip | passless/passless-core/src/agent/policy.rs:350-379 | a strict head decoder recovers major type and length from `encode_type_and_length`, for every length below 2^64 and any bytes following |
| Cbor.HeadCanonical | passless/passless-core/src/agent/policy.rs:350-379 | any bytes the head decoder accepts are the encoder's own, so each length has one head |
| Cbor.HeadMonotone | passless/passless-core/src/agent/policy.rs:350-379 | the head of a smaller length is bytewise before that of a larger one, whatever follows |
| Cbor.KeyOrdersAgree | passless/passless-core/src/agent/policy.rs:334-348 | for keys of any length, the length-then-bytes order is the bytewise order of the encoded keys, so sections 4.2.1 and 4.2.3 of RFC 8949 agree |
| Cbor.SortedMapCanonical | passless/passless-core/src/agent/policy.rs:334-348 | with distinct keys, permuting the entries leaves the map bytes unchanged and the encoded keys strictly ascend |
| Cbor.EncodeSortedMap | passless/passless-core/src/agent/policy.rs:334-348 | encoding the sorted map item gives the bytes `encode_map_sorted` gives for the encoded entries |
| Cbor.EncodeRoundTrip | passless/passless-core/src/agent/policy.rs:300-379 | decoding undoes encoding for every nested item, with any bytes following |
| Cbor.DecodeCanonical | passless/passless-core/src/agent/policy.rs:300-379 | whatever decodes is the encoding of its item followed by the rest: there is no second encoding |
| Cbor.EncodePrefixFree | passless/passless-core/src/agent/policy.rs:300-379 | no item's encoding is a prefix of another's: equal concatenations have equal items and equal rests |
| Policy.PolicyBytesInjective | passless/passless-core/src/agent/policy.rs:381-518 | two policies have the same bytes if and only if all 24 fields agree, rules compared by normalized RP id and both ceremony policies |
| Policy.PolicyKeysDistinct | passless/passless-core/src/agent/policy.rs:381-478 | the 24 map keys are pairwise different |
| Policy.PolicyBytesDecode | passless/passless-core/src/agent/policy.rs:204-206 | the bytes decode with nothing left to a map holding exactly the 24 entries, keys strictly ascending |
| Policy.PolicyBytesHold | passless/passless-core/src/agent/policy.rs:381-518 | read back, each of the 24 fields stands under its own key: lists in order, and each rule as a map of its normalized RP id and both ceremony policies with their three named values |
| Policy.PolicyOfExact | passless/passless-core/src/agent/policy.rs:96-141 | a policy has its parameters' settings, the three lists as sorted sets of the same members, the start URL or an empty text, and the rules stably reordered by normalized id |
| Policy.FromParamsExact | passless/passless-core/src/agent/policy.rs:177-198 | parameters are accepted if and only if actions are given and both lifetimes and the grant count are in range; otherwise which error is reported |
| Policy.CredentialSelectionNotEncoded | passless/passless-core/src/agent/policy.rs:497-518 | changing a rule's credential selection leaves the bytes unchanged |
| Policy.ParamsBytesDetermined | passless/passless-core/src/agent/policy.rs:96-141 | bytes of policies built from parameters agree if and only if settings and start URL are equal, RP ids, references and actions are equal as sets, and for each RP id the rules' ceremonies are equal in order |
| Policy.EquivalentParamsAgree | passless/passless-core/src/agent/policy.rs:177-198 | parameters equivalent in that sense are both accepted, or refused with the same error |
| Policy.RuleOrderIrrelevant | passless/passless-core/src/agent/policy.rs:96-141 | with distinct normalized RP ids, any permutation of the rules builds the same policy |
| Policy.GenerationBytesDetermined | passless/passless-core/src/agent/policy.rs:520-532 | generation bytes agree if and only if every profile id has the same digests in the same order |
| Policy.GenerationBytesHold | passless/passless-core/src/agent/policy.rs:520-532 | read back, the bytes are one pair for each entry, ordered by profile id: the id as text, the digest as bytes |
| Policy.GenerationBytesDistinct | passless/passless-core/src/agent/policy.rs:520-532 | for distinct profile ids, generation bytes agree if and only if the entries are permutations of each other |
| Texts.NormalizeIdempotent | passless/passless-core/src/agent/config.rs:1153-1155 | normalizing a normalized id, or trimming it, changes nothing |
| Texts.TrimExact | passless/passless-core/src/agent/config.rs:1153-1155 | trimming cuts whitespace characters off both ends, all of them and nothing else |
| Texts.LeadingSpaceExact | passless/passless-core/src/agent/config.rs:1153-1155 | what is trimmed are exactly the Unicode White_Space characters, by their UTF-8 forms |
| Texts.LowerByteExact | passless/passless-core/src/agent/config.rs:1153-1155 | lower-casing changes the ASCII capitals and nothing else |
| Texts.HexInjective | passless/passless-core/src/agent/policy.rs:96-141 | different credential references print to different hex texts |
| Texts.HexExact | passless/passless-core/src/agent/policy.rs:101-104 | two lower-case hex digits for each byte, the high one first |
| Ordering.StableSortDetermined | passless/passless-core/src/agent/policy.rs:96-141 | stable sorts of two lists are equal if and only if for each key both list the same elements in the same order |
| Ordering.SortDedupDetermined | passless/passless-core/src/agent/policy.rs:96-141 | sorting and removing neighbouring duplicates gives equal lists if and only if the inputs have the same members |
| Locks.StepKeepsInvariant | passless/cmd/passless/src/instance_lock.rs:45-106 | every step of any daemon, enabled or not, keeps the table and the daemons' records in agreement, with one holder a lock |
| Locks.RunKeepsInvariant | passless/cmd/passless/src/instance_lock.rs:204-265 | the same over every schedule of any number of daemons, faults and exits included |
| Locks.SafeInEveryInterleaving | passless/cmd/passless/src/instance_lock.rs:45-265 | in every interleaving no lock has two holders, an acquiring daemon holds exactly a prefix of its plan, a failed one that has released holds nothing, and one that got through had no repeated name |
| Locks.RepeatedPathNeverSucceeds | passless/cmd/passless/src/instance_lock.rs:213-238 | a request that names one state path twice never gets all its locks: under any schedule it stays short of its plan |
| Locks.DaemonPlanAscends | passless/cmd/passless/src/instance_lock.rs:204-265 | agent state first and sorted backends after it strictly ascend in one order common to all daemons |
| Locks.PlanLocksRequest | passless/cmd/passless/src/instance_lock.rs:204-265 | a plan locks exactly the paths requested: the one backend, or the agent state first and then all backends in path order |
| Locks.RequestsExclude | passless/cmd/passless/src/instance_lock.rs:45-265 | under every schedule, two daemons that both have their locks asked for no path in common |
| Locks.ReleaseOrder | passless/cmd/passless/src/instance_lock.rs:213-238 | the next lock given up: backends as acquired and the agent state last after a failure, plan order on exit |
| Locks.BlockerFailsLater | passless/cmd/passless/src/instance_lock.rs:213-265 | when all have failed, whoever held the lock that stopped a daemon failed itself at a strictly later lock |
| Locks.NotAllFail | passless/cmd/passless/src/instance_lock.rs:249-265 | with ordered plans, injective names and no faults, no schedule makes every daemon fail |
| Locks.SomeDaemonSucceeds | passless/cmd/passless/src/instance_lock.rs:249-265 | once all have settled, at least one has had its whole plan and those that did not succeed hold nothing |
| Locks.LockOrderGivesProgress | passless/cmd/passless/src/instance_lock.rs:204-265 | for any mix of requests with duplicate-free paths and lock names that separate the paths requested, every settled interleaving has a daemon that acquired its whole set |
| Locks.StepUsesWork | passless/cmd/passless/src/instance_lock.rs:45-106 | every enabled step strictly lowers the work left |
| Locks.RunsAreBounded | passless/cmd/passless/src/instance_lock.rs:45-265 | the steps taken and the work left never exceed the initial work |
| Locks.EveryRunCanSettle | passless/cmd/passless/src/instance_lock.rs:45-265 | from any state and after any schedule, attempts and releases alone lead to a settled state |
| Locks.ProgressIsReached | passless/cmd/passless/src/instance_lock.rs:204-265 | every fault-free run of such requests continues to a settled one in which a daemon has its whole set |
| Locks.OppositeOrdersCanBothFail | passless/cmd/passless/src/instance_lock.rs:213-238 | without the common order, two daemons can make each other fail |
| Locks.LockTable.TryAcquire | passless/cmd/passless/src/instance_lock.rs:45-106 | a lock is taken exactly when free, and nothing else changes |
| Locks.LockTable.Acquire | passless/cmd/passless/src/instance_lock.rs:213-265 | alone, acquisition succeeds exactly when all names are free and distinct, the table then being the old one and those names for the owner; otherwise the table ends as it began |
| BackupAuth.FeedAuthData | passless/cmd/passless/src/credential_backup.rs:430-439 | the loop feeds the hasher the domain, command, subcommand and the length-framed fields in order |
| BackupAuth.AuthPreimageInjective | passless/cmd/passless/src/credential_backup.rs:430-439 | preimages are equal if and only if command, subcommand and the whole field list are, for any number of fields |
| BackupAuth.AuthDataInjective | passless/cmd/passless/src/credential_backup.rs:409-428 | prepare, commit and restore preimages coincide only for the same command with the same inputs |
| BackupAuth.AuthDataBytes | passless/cmd/passless/src/credential_backup.rs:409-439 | the preimage of each command byte by byte: domain, command and subcommand, and each field after its eight-byte length |
| BackupBundle.PortableRoundTrip | passless/cmd/passless/src/credential_backup.rs:119-204 | importing an exported credential returns it exactly when its record validates, and `InvalidBundle` otherwise |
| BackupBundle.PortableCanonical | passless/cmd/passless/src/credential_backup.rs:119-204 | exporting an imported record gives the record back |
| BackupBundle.ExportExact | passless/cmd/passless/src/credential_backup.rs:119-141 | which credentials are exported, and every field of the record |
| BackupBundle.BundleRoundTrip | passless/cmd/passless/src/credential_backup.rs:222-332 | decrypting an encrypted credential with the recipient's key returns it exactly when its record validates, and `InvalidBundle` otherwise |
| BackupBundle.EncryptExact | passless/cmd/passless/src/credential_backup.rs:222-273 | encryption gives these bytes if and only if recipient, credential and sizes are in order and they are the sealed envelope in its bundle |
| BackupBundle.DecryptExact | passless/cmd/passless/src/credential_backup.rs:275-332 | a bundle yields a credential if and only if size, magic, version, cipher, nonce, recipient, key, envelope and record are all in order |
| BackupBundle.DecryptErrorIs | passless/cmd/passless/src/credential_backup.rs:275-332 | which error a bundle is refused with, in the order of the checks |
| BackupBundle.RecipientExact | passless/cmd/passless/src/credential_backup.rs:441-454 | the recipients accepted, character by character |
| BackupBundle.ExportAcceptsMoreThanImport | passless/cmd/passless/src/credential_backup.rs:179-204 | a credential with an empty user id is exported and then refused on import |
| BackupService.Service.constructor | passless/cmd/passless/src/authenticator.rs:903-928 | a service starts with no pending backups |
| BackupService.Service.HandleBackup | passless/cmd/passless/src/authenticator.rs:1315-1490 | a malformed request or unknown subcommand, or a disabled service, changes nothing and gets its status; else the subcommand makes its step |
| BackupService.Service.HandleRestore | passless/cmd/passless/src/authenticator.rs:1492-1581 | the same for restore requests, where an absent or ill-typed `replace` means false |
| BackupService.BadRequestsChangeNothing | passless/cmd/passless/src/authenticator.rs:1322-1335 | a request that cannot be read, or with an unknown subcommand, leaves the state as it was and gets its status |
| BackupService.Service.Prepare | passless/cmd/passless/src/authenticator.rs:1338-1423 | the handler makes exactly the prepare step on store and pending map, whatever authorization, storage and encryption answer |
| BackupService.Service.Commit | passless/cmd/passless/src/authenticator.rs:1424-1487 | the handler makes exactly the commit step |
| BackupService.Service.Restore | passless/cmd/passless/src/authenticator.rs:1492-1581 | the handler, with its delete, write and rollback in place, makes exactly the restore step |
| BackupService.PrepareOutcome | passless/cmd/passless/src/authenticator.rs:1367-1423 | every answer to a prepare, and the state after it, with the exact condition of each |
| BackupService.EncryptErrorIs | passless/cmd/passless/src/credential_backup.rs:213-273 | which error an export is refused with: of the recipient, its key, the credential, or size |
| BackupService.CommitOutcome | passless/cmd/passless/src/authenticator.rs:1453-1487 | every answer to a commit with the exact condition of each |
| BackupService.PreparedTokenCommits | passless/cmd/passless/src/authenticator.rs:1409-1480 | the token a prepare answers with is the bundle's digest and commits, on the state left, if and only if authorization and storage allow it |
| BackupService.RestoreOutcome | passless/cmd/passless/src/authenticator.rs:1528-1581 | every answer to a restore, and the store after it, with the exact condition of each |
| BackupService.ExistingNeedsReplace | passless/cmd/passless/src/authenticator.rs:1513-1553 | a request whose `replace` is false or absent never changes anything when the bundle's id is stored |
| BackupService.ReplaceIsPassedOn | passless/cmd/passless/src/authenticator.rs:1513-1513 | a request that says `replace` restores with it |
| BackupService.Stored | passless/cmd/passless/src/authenticator.rs:1285-1302 | what storage holds after a write is the credential with `hmac_secret` as rebuilt from the reference |
| BackupService.StepPending | passless/cmd/passless/src/authenticator.rs:1315-1490 | a pending entry changes only by an inserting prepare or a successful commit of its own id |
| BackupService.PendingIsLatest | passless/cmd/passless/src/authenticator.rs:1315-1490 | after any run the pending token of an id is exactly that of the latest inserting prepare not yet committed |
| BackupService.CommitNeedsLatestToken | passless/cmd/passless/src/authenticator.rs:1453-1487 | in every run a commit succeeds only with that token, and consumes it |
| BackupService.CommitEffect | passless/cmd/passless/src/authenticator.rs:1470-1486 | a commit changes one credential, which ends backed up; only its backup state changes if and only if storage rebuilds its `hmac_secret` |
| BackupService.RefusalsChangeNothing | passless/cmd/passless/src/authenticator.rs:1315-1581 | without authorization nothing changes, a prepare never changes the store, a failed commit changes nothing, a restore never changes pending tokens |
| BackupService.InstallOutcome | passless/cmd/passless/src/authenticator.rs:1544-1566 | a restore touches one id only; it installs exactly when every storage call succeeds and replacing is allowed; else the store is unchanged, rolled back, or without that id |
| BackupService.RollbackRestores | passless/cmd/passless/src/authenticator.rs:1555-1566 | rollback gives the old store back if and only if storage rebuilds the old `hmac_secret` |
| BackupService.RunKeepsEligible | passless/cmd/passless/src/authenticator.rs:49-56 | if other commands put no ineligible credential under a pending id, pending ids are eligible in every reachable state |
| BackupService.PromotionExact | passless/cmd/passless/src/authenticator.rs:1453-1487 | some commit can mark an ineligible credential backed up if and only if one is stored under a pending id |
| BackupService.NeverPromotableExactly | passless/cmd/passless/src/authenticator.rs:1315-1490 | over a whole run no commit ever could, if and only if no other command puts an ineligible credential under an id pending at that time |
| BackupService.IneligibleStaysIneligible | passless/cmd/passless/src/authenticator.rs:1337-1488 | under that condition no prepare or commit changes an ineligible credential |
| BackupService.InconsiderateCommandPromotes | passless/cmd/passless/src/authenticator.rs:1470-1479 | after a command that stores an ineligible credential under a pending id, among whatever else, the pending token commits it as backed up |
| BackupService.MigrationAgrees | passless/cmd/passless/src/authenticator.rs:1394-1566 | after prepare and commit on one authenticator and a restore on another with its own firmware, storage and the recipient's key, both credentials are backed up and agree but for `hmac_secret`; they are identical if and only if both storages rebuild the same one |
| Worker.RunLoop | passless/cmd/passless/src/worker.rs:325-408 | the loop's events and ending are those of the run of its script |
| Worker.TakeTurn | passless/cmd/passless/src/worker.rs:339-402 | one turn's cleanup, handling, writes, hook and ending, for every read and write result |
| Worker.SendBatch | passless/cmd/passless/src/worker.rs:364-378 | packets go out in order up to the first refusal, and the hook runs only if all were accepted |
| Worker.RunIsUnique | passless/cmd/passless/src/worker.rs:325-408 | a script has one run |
| Worker.HandlerSeesEachPacketOnce | passless/cmd/passless/src/worker.rs:350-356 | the handler gets each packet read exactly once, in order |
| Worker.WrittenAreTheBatches | passless/cmd/passless/src/worker.rs:356-378 | what is written is the batches in order, except that a refused write cuts the last to a proper prefix and ends the run |
| Worker.HooksAndCleanupsCounted | passless/cmd/passless/src/worker.rs:325-408 | the hook runs once per non-empty batch fully written, the cleanup once per due turn and once more on a clean stop, as the last event |
| Worker.StopsCleanlyExactlyWhenDraining | passless/cmd/passless/src/worker.rs:325-408 | the loop returns Ok exactly when it ends after the cancel flag was seen; otherwise with the error its last read or write reported |
| Worker.DrainTerminates | passless/cmd/passless/src/worker.rs:325-408 | after a cancel the loop has ended by the first read that brings no packet |
| Worker.RunEndsExactly | passless/cmd/passless/src/worker.rs:339-402 | a run ends at a turn if and only if its read failed, its write was refused or, once cancelled, it read nothing or its handler failed, and no earlier turn did; cleanly if and only if cancelled by then |
| Worker.DrainServesTheQueue | passless/cmd/passless/src/worker.rs:339-402 | draining handles and answers every queued packet and stops at the first empty read |
| Worker.TurnOrder | passless/cmd/passless/src/worker.rs:345-378 | within a turn cleanup comes before handling, handling before writing, and the hook after the last write |
| Worker.WorkerHandle.constructor | passless/cmd/passless/src/worker.rs:136-141 | a new handle owes its thread's outcome |
| Worker.WorkerHandle.JoinTimeout | passless/cmd/passless/src/worker.rs:148-188 | the report and what stays owed, for each state of thread and channel: received, still empty, or disconnected |
| Worker.WorkerHandle.TryJoin | passless/cmd/passless/src/worker.rs:190-230 | the same without waiting, and with the thread kept while it runs |
| Worker.WorkerHandle.Join | passless/cmd/passless/src/worker.rs:232-247 | cancels and reports what is owed, Clean if that is nothing or the channel has lost its sender |
| Worker.WorkerHandle.Drop | passless/cmd/passless/src/worker.rs:249-259 | cancels and leaves neither thread nor receiver |
| Worker.AttemptKeepsTruth | passless/cmd/passless/src/worker.rs:148-230 | an attempt reports the true outcome and settles if and only if it has arrived, else leaves it owed; a running thread stays with the handle |
| Worker.NothingOwedIsClean | passless/cmd/passless/src/worker.rs:148-247 | a handle that owes nothing reports Clean |
| Worker.DisconnectedExactly | passless/cmd/passless/src/worker.rs:148-230 | a disconnected channel is seen exactly when its sender went away without sending, and is then reported as Clean |
| Worker.JoinAfter | passless/cmd/passless/src/worker.rs:142-259 | after any attempts and a join, the first report is the thread's true outcome and every later one is Clean |
| WebSocket.Unmask | passless/tools/agent-validation/browser/mock-cdp-server.js:137-148 | the loop fills the array with the payload xored with the repeating mask |
| WebSocket.MaskedTwice | passless/tools/agent-validation/browser/mock-cdp-server.js:145-147 | masking twice with one mask gives the data back |
| WebSocket.XorIsBitwise | passless/tools/agent-validation/browser/mock-cdp-server.js:145-147 | the mask is applied bit by bit |
| WebSocket.EncodeFrameRoundTrip | passless/tools/agent-validation/browser/mock-cdp-server.js:112-184 | `decodeFrame` undoes `encodeFrame` for every payload, with any bytes following |
| WebSocket.EncodeFrameBytes | passless/tools/agent-validation/browser/mock-cdp-server.js:162-184 | the frame byte by byte in its three length forms |
| WebSocket.ClientFrameRoundTrip | passless/tools/agent-validation/browser/mock-cdp-server.js:112-160 | and undoes section 5.3 masking of RFC 6455 for every payload and mask |
| WebSocket.DecodeFrameStable | passless/tools/agent-validation/browser/mock-cdp-server.js:112-160 | a decoded frame does not change when more bytes arrive |
| WebSocket.DrainSplits | passless/tools/agent-validation/browser/mock-cdp-server.js:83-101 | draining a buffer and then more bytes delivers what draining all at once does |
| WebSocket.Connection.constructor | passless/tools/agent-validation/browser/mock-cdp-server.js:81-81 | a connection starts with an empty buffer |
| WebSocket.Connection.OnData | passless/tools/agent-validation/browser/mock-cdp-server.js:83-101 | a data event delivers what the joined buffer drains to and keeps the rest |
| WebSocket.ChunkIndependence | passless/tools/agent-validation/browser/mock-cdp-server.js:81-101 | for every stream and every split into data events, payloads and leftover equal those of one delivery |
| WebSocket.StreamReceived | passless/tools/agent-validation/browser/mock-cdp-server.js:81-184 | any list of text frames, masked or not, and two-byte close frames, in any chunks, is received as its non-empty payloads in order |
| WebSocket.StalledForever | passless/tools/agent-validation/browser/mock-cdp-server.js:116-122 | after an unsupported opcode nothing is ever delivered or consumed |
| WebSocket.StalledExactly | passless/tools/agent-validation/browser/mock-cdp-server.js:112-160 | no bytes ever complete a buffer to a frame if and only if its first opcode is neither text nor close |
| WebSocket.CloseFrameIsTwoBytes | passless/tools/agent-validation/browser/mock-cdp-server.js:118-121 | a close frame is dropped as two bytes whatever its length byte says |
| WebSocket.CloseFrameReadWhole | passless/tools/agent-validation/browser/mock-cdp-server.js:118-121 | the length reported for a close frame is its own if and only if it has no body and no mask |
| WebSocket.MaskedCloseMisread | passless/tools/agent-validation/browser/mock-cdp-server.js:118-121 | so the mask of a masked close frame can be delivered as a message |
| RpIds.ValidateRpIdExact | passless/passless-core/src/agent/config.rs:1206-1282 | an id is accepted if and only if its normalized form is a multi-label DNS name, not an address, not a public suffix; the result is that form |
| RpIds.ValidateRpIdIdempotent | passless/passless-core/src/agent/config.rs:1206-1282 | validating a validated id returns it unchanged |
| RpIds.RpIdErrorIsTrue | passless/passless-core/src/agent/config.rs:1206-1282 | the error reported is true of the identifier |
| RpIds.EndsInPortExact | passless/passless-core/src/agent/config.rs:1226-1234 | a port is found if and only if the text ends in a colon and digits |
| RpIds.ValidateRuleIdExact | passless/passless-core/src/agent/config.rs:1198-1204 | rule ids are accepted if and only if they normalize to the wildcard or to a valid RP id, and are returned normalized |
| RpIds.DnsNameBytes | passless/passless-core/src/agent/config.rs:1171-1191 | a DNS name holds letters, digits, hyphens and dots only, and no trailing dot |
| RpIds.LabelsExact | passless/passless-core/src/agent/config.rs:1171-1191 | labels hold no dot, and joined by dots give the text back |
| RpIds.DnsNameExact | passless/passless-core/src/agent/config.rs:1171-1191 | a text is a DNS name if and only if it is labels of 1 to 63 letters, digits and inner hyphens joined by dots |
| AgentConfig.FindRule | passless/passless-core/src/agent/config.rs:728-740 | a found rule is listed and has the id; none is found only if no rule has it |
| AgentConfig.ValidateRules | passless/passless-core/src/agent/config.rs:828-893 | the loops report the first failing check of the first bad rule, else the wildcard's |
| AgentConfig.FirstBadRule | passless/passless-core/src/agent/config.rs:828-854 | a rule is reported if and only if it is the first that is unacceptable or repeats an earlier id, with its first failing check |
| AgentConfig.RuleErrorIs | passless/passless-core/src/agent/config.rs:829-854 | which error a rule has: of its id, of repetition, of registration, of authentication, in that order |
| AgentConfig.RulesErrorExact | passless/passless-core/src/agent/config.rs:828-893 | no rule error if and only if all rules are acceptable, ids are distinct and the wildcard is acceptable |
| AgentConfig.ValidateCommand | passless/passless-core/src/agent/config.rs:895-910 | reports an empty command or the first argument with a NUL |
| AgentConfig.ValidateProfile | passless/passless-core/src/agent/config.rs:767-972 | returns the first failing check, and none if and only if limits, selections, rules, command, mode, device, storage and URL are valid |
| AgentConfig.ProfileErrorExact | passless/passless-core/src/agent/config.rs:767-972 | the chain of checks finds no error if and only if the profile is valid |
| AgentConfig.FirstFailingCheck | passless/passless-core/src/agent/config.rs:767-972 | a profile is refused with the first of twenty listed checks that fails, and accepted if none does |
| AgentConfig.WildcardErrorIs | passless/passless-core/src/agent/config.rs:856-894 | which of its five demands a wildcard rule is refused for: the first it fails |
| AgentConfig.DeviceErrorIs | passless/passless-core/src/agent/config.rs:592-634 | which field of a device is refused, for a NUL or its length, in order, and when it is refused as the human's |
| AgentConfig.StorageErrorIs | passless/passless-core/src/agent/config.rs:466-512 | which demand a pass store's pin path is refused for: the first it fails |
| AgentConfig.IdErrorExact | passless/passless-core/src/agent/ids.rs:170-205 | the checks on a profile name find no error if and only if the name is valid |
| AgentConfig.IdErrorIs | passless/passless-core/src/agent/ids.rs:170-205 | which demand a profile name is refused for: the first it fails |
| AgentConfig.ValidateProfiles | passless/passless-core/src/agent/config.rs:1023-1060 | the loop reports the first failing check of the first profile not admitted |
| AgentConfig.FirstNotAdmitted | passless/passless-core/src/agent/config.rs:1023-1060 | no error if and only if every profile is admitted; an error is that of the first one that is not |
| AgentConfig.AdmissionErrorIs | passless/passless-core/src/agent/config.rs:1023-1060 | which error a profile is refused with: of its name, of itself, or of a missing acknowledgement |
| AgentConfig.CheckAcknowledged | passless/passless-core/src/agent/config.rs:1008-1020 | the first acknowledgement of an unknown profile is reported |
| AgentConfig.CollectRoots | passless/passless-core/src/agent/config.rs:1062-1077 | the roots are the audit path and every profile's credential and pin paths, in order |
| AgentConfig.CheckRoots | passless/passless-core/src/agent/config.rs:1079-1091 | the nested loop reports the first overlapping pair, and none if and only if no two roots overlap |
| AgentConfig.CheckHuman | passless/passless-core/src/agent/config.rs:1093-1107 | the first agent root that overlaps the human state path is reported |
| AgentConfig.CheckDevices | passless/passless-core/src/agent/config.rs:1109-1131 | the loop reports the first repeated key, and none if and only if isolated profiles have pairwise different keys |
| AgentConfig.Validate | passless/passless-core/src/agent/config.rs:997-1135 | returns the first failing check, and none if and only if the configuration is disabled or meets every check |
| AgentConfig.EnabledErrorExact | passless/passless-core/src/agent/config.rs:997-1135 | the sequence of checks finds no error if and only if the enabled configuration is valid |
| AgentConfig.AcknowledgementsExact | passless/passless-core/src/agent/config.rs:1008-1020 | the acknowledgements pass if and only if every name in either list is a profile's |
| AgentConfig.FirstFailingConfigCheck | passless/passless-core/src/agent/config.rs:997-1135 | an enabled configuration is refused with the first of six listed checks that fails, and accepted if none does |
| AgentConfig.OverlapExact | passless/passless-core/src/agent/config.rs:1079-1107 | two roots overlap if and only if some path lies beneath both |
| AgentConfig.RootsAreDisjoint | passless/passless-core/src/agent/config.rs:1062-1107 | in a valid configuration no path at all lies beneath two of the agent and human roots |
| AgentConfig.RootsExact | passless/passless-core/src/agent/config.rs:1062-1107 | the roots are the audit path, every path of every profile's storage, and the human state path, and nothing else |
| AgentConfig.RuleForRpExact | passless/passless-core/src/agent/config.rs:728-740 | a rule applies to an RP if and only if it is the one named for it, or the wildcard when none is |
| AgentConfig.EffectiveRulesExact | passless/passless-core/src/agent/config.rs:697-716 | explicit rules are used as they are; else each legacy RP id has its rule, whose registration is confirmed if and only if allowed and whose verification is the human's if and only if required |
| AgentConfig.LegacyRuleForRp | passless/passless-core/src/agent/config.rs:697-740 | what a profile without explicit rules answers for every RP, and when |
| AgentConfig.RegistrationReachable | passless/passless-core/src/agent/config.rs:748-752 | a profile allows registration if and only if the lookup permits it for some RP |
| AgentConfig.SelectionFollowsRule | passless/passless-core/src/agent/config.rs:742-746 | a rule's own credential selection is used for its RP, else the profile's |
| AgentConfig.RuleOrderIrrelevant | passless/passless-core/src/agent/config.rs:728-740 | permuting the rules changes no lookup |
| AgentConfig.EveryRuleApplies | passless/passless-core/src/agent/config.rs:728-740 | in valid rules every rule other than the wildcard is the one found for its own RP id |
| AgentConfig.WildcardNeverRegisters | passless/passless-core/src/agent/config.rs:856-893 | registration is permitted only by a rule that names the RP |
| AgentConfig.SelectedCredentialListed | passless/passless-core/src/agent/config.rs:742-746 | the credential selected for any RP is among the profile's references, if it lists any |
| AgentConfig.RegistrationIsAcknowledged | passless/passless-core/src/agent/config.rs:1045-1057 | same-user registration for any RP implies the operator's acknowledgement |
| AgentConfig.UnnamedRpIsAcknowledged | passless/passless-core/src/agent/config.rs:1028-1043 | authenticating to an RP no rule names implies same-user mode and the operator's acknowledgement |
| AgentConfig.AcknowledgementsNeeded | passless/passless-core/src/agent/config.rs:1028-1057 | the acknowledgements are asked for exactly where the lookup permits same-user registration, and where a wildcard lets a same-user profile authenticate |
| AgentConfig.ProfilesForRpExact | passless/passless-core/src/agent/config.rs:1137-1150 | the profiles listed for an RP are exactly those whose lookup finds a rule, in order |
| AgentConfig.DeviceKeyIdentifies | passless/passless-core/src/agent/config.rs:1114-1121 | a device's key belongs to no other device record at all if and only if its text fields hold no colon |
| AgentConfig.KeysAgreeExactly | passless/passless-core/src/agent/config.rs:1114-1121 | two keys agree if and only if the colon-joined texts and both numbers do |
| AgentConfig.AdmittedNamesakes | passless/passless-core/src/agent/config.rs:1109-1131 | a device isolated mode admits shares its key with another admitted one if and only if its joined text can be cut at other colons into admitted fields |
| AgentConfig.DevicesDistinctExact | passless/passless-core/src/agent/config.rs:1109-1131 | without colons, the key check rejects exactly repeated device identities |
| AgentConfig.DifferentDevicesCanCollide | passless/passless-core/src/agent/config.rs:1114-1121 | two different valid devices with one key |
| Uhid.NativeRoundTrip | passless/passless-uhid/src/device.rs:60-101 | native bytes of a number read back as it, in both byte orders |
| Uhid.PaddingRemovable | passless/passless-uhid/src/identity.rs:40-53 | a zero-padded field can be recovered if and only if it holds no NUL |
| Uhid.FieldsOfPacked | passless/passless-uhid/src/protocol.rs:34-46 | reading a packed structure by its fields' widths gives the fields back |
| Uhid.CopyFromSlice | passless/passless-uhid/src/device.rs:60-102 | copying replaces exactly the target range |
| Uhid.ValidateIdentityExact | passless/passless-uhid/src/identity.rs:33-53 | which identities are valid, and which error is reported first |
| Uhid.SendCreate2 | passless/passless-uhid/src/device.rs:53-105 | the buffer filled at computed offsets is the packed CREATE2 event, or the right error |
| Uhid.Create2Size | passless/passless-uhid/src/protocol.rs:22-46 | the event type and the request fill the 4376-byte event exactly |
| Uhid.Create2RoundTrip | passless/passless-uhid/src/device.rs:53-105 | reading the event by field widths recovers every validated identity and every descriptor up to 4096 bytes |
| Uhid.WritePacket | passless/passless-uhid/src/device.rs:219-233 | packets over 4096 bytes are refused; else the event holds type, size and data, then zeros |
| Uhid.Input2RoundTrip | passless/passless-uhid/src/device.rs:219-233 | a reader of the input event gets type and packet back |
| Uhid.SendGetReportReply | passless/passless-uhid/src/device.rs:235-256 | data over 4096 bytes is refused; else the event holds type, id, error, size and data, then zeros |
| Uhid.ReplyRoundTrip | passless/passless-uhid/src/device.rs:235-256 | a reader of the reply gets id, error and data back |
| Uhid.ParseReadsOnlyWhatWasRead | passless/passless-uhid/src/protocol.rs:122-214 | parsing depends on the bytes read only, for every type and length |
| Uhid.OutputEventParsed | passless/passless-uhid/src/protocol.rs:137-162 | an output event in the kernel's layout parses to its data, up to 4096 bytes, and report type |
| Uhid.SetReportEventParsed | passless/passless-uhid/src/protocol.rs:179-211 | a set-report event in the kernel's layout parses to its fields and all of its data that was read |
| Uhid.PlainEventsParsed | passless/passless-uhid/src/protocol.rs:122-136 | start, stop, open and close events parse as such, a short start event with no flags |
| Uhid.GetReportEventParsed | passless/passless-uhid/src/protocol.rs:162-178 | a get-report event parses to its fields, a short one as unknown |
| Uhid.OtherEventsUnknown | passless/passless-uhid/src/protocol.rs:212-213 | any other event type is reported as unknown |
| Uhid.ShortReadsParsed | passless/passless-uhid/src/protocol.rs:137-211 | what reads too short for their event give |
| Uhid.EventDataBounded | passless/passless-uhid/src/protocol.rs:137-211 | on any buffer, the data of an output or set-report event is what was read, up to the size given and 4096 bytes |
| HostEventShim.HandleTransfers | broadcom-host-event-shim/bcm_cv_host_event_shim.c:128-146 | the loop's status, last transfer and counts are those of the call's outcome |
| HostEventShim.InterruptTransfer | broadcom-host-event-shim/bcm_cv_host_event_shim.c:119-149 | the same for a resolved shim; an unresolved one transfers nothing and fails |
| HostEventShim.HostEventExact | broadcom-host-event-shim/bcm_cv_host_event_shim.c:129-135 | a host event is exactly a successful transfer on endpoint 0x85, with both out-parameters given, whose data starts with 5, 0, 0, 0 |
| HostEventShim.StatusExact | broadcom-host-event-shim/bcm_cv_host_event_shim.c:129-148 | the status a caller gets for each way a call ends |
| HostEventShim.CallFilters | broadcom-host-event-shim/bcm_cv_host_event_shim.c:128-148 | of a call's transfers only the last passes the filter, exactly when the call delivers it, and each host event has one sync |
| HostEventShim.EachEventAnsweredOnce | broadcom-host-event-shim/bcm_cv_host_event_shim.c:119-149 | over any calls, syncs equal host events read, and transfers let through equal calls that delivered |
| HostEventShim.AllDeliverExactly | broadcom-host-event-shim/bcm_cv_host_event_shim.c:119-149 | every call of a run delivers if and only if none, from the counts it starts at, meets a failed sync or eight host events |
| HostEventShim.ShimIsAFilter | broadcom-host-event-shim/bcm_cv_host_event_shim.c:119-149 | over any calls, the results are the device's with host events removed, in order, if and only if no call meets a failed sync or eight host events in a row |
| HostEventShim.WhenUndelivered | broadcom-host-event-shim/bcm_cv_host_event_shim.c:128-148 | a call does not deliver exactly when a sync failed or its whole budget went to host events |
| Timestamps.TimestampRecoverable | broadcom-host-event-shim/bcm_cv_host_event_shim.c:89-102 | the timestamp can be read back from the two words if and only if its year is 2000 to 2063 |
| Timestamps.SendTimestampSync | broadcom-host-event-shim/bcm_cv_host_event_shim.c:104-117 | without a clock nothing is sent; else the status is the control transfer's and the words sent read back as the time |
| SensorBundle.Be32Exact | controlvault3-tools/cv3_firmware_controller.py:44-47 | the number read is the one whose big-endian bytes stand there |
| SensorBundle.ReadRecord | controlvault3-tools/cv3_firmware_controller.py:91-119 | the loop body reads a record or refuses it as the record function does |
| SensorBundle.LowestOffset | controlvault3-tools/cv3_firmware_controller.py:120-124 | the lowest image offset |
| SensorBundle.ParseSensorBundle | controlvault3-tools/cv3_firmware_controller.py:75-131 | the parser computes the parse of the data |
| SensorBundle.ParseRecordExact | controlvault3-tools/cv3_firmware_controller.py:91-119 | a record is read at a cursor if and only if its printed form stands there and its checks pass |
| SensorBundle.ParseExact | controlvault3-tools/cv3_firmware_controller.py:75-131 | data is accepted with a catalogue if and only if it starts with the printed catalogue, all checks pass, and it ends at the lowest image offset |
| SensorBundle.PayloadsInside | controlvault3-tools/cv3_firmware_controller.py:106-125 | every image and signature range lies between the catalogue's end and the file's |
| SensorBundle.CatalogueReprinted | controlvault3-tools/cv3_firmware_controller.py:75-131 | printing the parsed records reproduces the catalogue's bytes |

## Left out

- BackupService.Service.HandleBackup: which payloads are malformed is decided by a CBOR parser outside this repository; here a request arrives parsed, or with the status the parser gave. Building the response bytes is a choice of the environment.
- WebSocket.EncodeFrameRoundTrip: payloads are byte strings; converting them to and from JavaScript strings is not modelled, nor is the rounding of lengths above 2^53, which no buffer reaches.
- HostEventShim.InterruptTransfer: trace messages and the lookup of the real library functions are not modelled.
- Worker.RunLoop: sleeps and cleanup intervals are choices of the script; a packet is the whole 64-byte buffer, as the loop uses it.
- CTAP and CTAPHID processing, TPM, GPG and storage adapters: their code is outside this repository or reached through interfaces the model keeps abstract.
- Strength of AES-GCM and SHA-256: injectivity is proved of preimages, not of digests.
- File locking, permissions, sysfs, `/dev/uhid` reads and writes, and the retry loop that waits for device start: system calls.
- `serde`, TOML, JSON and command line parsing, printing, logging and notifications.
- Legacy fields of profiles that validation does not look at, such as grant durations and prompts.
- Request validators, version negotiation and PIN tables: single-branch or finite facts that would only add easy members.
- Nothing here compares the payload ranges of different sensor images: the parser does not check that they are apart.
