# Proofs beside the runtime supervisor and the assignment kernel contracts

This project models, in Dafny, the parts of the repository whose guarantees span several functions, a loop or a whole
run, and proves those guarantees.

* **Runtime images.** `RuntimeImagePool` is the leased, budgeted image cache under one gate, as a class whose methods
  prune, stage, acquire and dispose; `RuntimeWorkspace` is the bound on a staged image. `PoolRuns` takes the same
  operations apart into single file-system steps and interleaves them with disposals and crashes, which take no gate;
  `PoolAlone` puts the steps of one process together again, and `PoolBytes` bounds the bytes over those runs.
* **Compilation cache.** `CompilationCache` is the crash-free cache as a class that refines a finite map; `CacheRuns` is
  the two-file publish protocol without any lock, step by step.
* **Provider usage.** `ProviderUsage` is the coverage of attempts by receipts, `ProviderLedger` the mutable ledger,
  `ProviderHistory` what a run of begins and a single response leave in it, and `ProviderOrder` the independence of its
  verdicts from the order of observations.
* **Canonical JSON and the completion outbox.** `JsonNumbers` and `JsonText` print and read JSON, `CanonicalJson` holds
  both canonicalisers, `CompletionOutbox` the record, delivery and hydration, and `OutboxRuns` concurrent retains with
  crashes around an exclusive link. `Utf8` is the encoding they share.
* **Evidence.** `EvidenceSelection` is the queue-based target selection against a recursive search, `EvidencePlaces`
  tells from the payload alone which places are looked at and what they contribute, `EvidenceTheorems` and
  `EvidenceWitnesses` say what the selection means, `IdentityNames` the field names it goes by, `EvidencePaging` the
  two page guards and what following accepted pages delivers, and `HonestPages` what evidence an accepted page tells of.
* **Fact turns and normalisers.** `FactTurns` is the retained fact-turn loop with its page collectors, `Base64` and
  `CanonicalJoin` the length-free join and the trusted-facts text, `TextNote` the line-end normaliser and `WindowsPath`
  the lexical path identity.

`Outcomes`, `Texts`, `Decimals` and `Sorting` are shared ground: texts are sequences of UTF-16 code units, sorting is the
stable sort of the two platforms.

Hash and signature functions are parameters, and so is lower-casing beyond ASCII, with the few properties used of it listed
in one predicate that an example satisfies. Nothing assumes that hashes are injective: where a result depends on two
texts not colliding, its precondition says so for those two texts. Exclusive creation, linking and moving without
overwriting are single steps; time, directory listings, host replies and worker outputs are inputs of any value.

Several intended properties do not hold of the code. The model keeps the code as it is, shows an input that breaks the
property, and proves exactly when it holds:

* The reserving prune need not free a slot (`RuntimeImagePool.ReserveCanFail`): it fails to exactly under the condition
  of `CountRefusalExact`.
* A crash can leave a cache entry that every read rejects and no prune removes (`CacheRuns.LossesArise`). Once nothing is
  under way, an entry is lost if and only if it has an artifact and no manifest (`LostExactly`): after crashed stores, if
  and only if some store moved its artifact and none moved its manifest (`LostAfterCrashes`); after a prune, if and only
  if it stopped between its two deletions (`LostAfterPrune`). `ReadableExactly` says when a read returns normally at any
  moment, and `StoreOverOrphan` what a later store of any bytes makes of a lost entry.
* A target can be counted as matched and yet appear in no selection, for two reasons. Matching records of an identity array
  take the place of its matching members (`EvidenceWitnesses.MixedArrayLosesTarget`, with the program's own field names in
  `ElementIdsLoseTarget`), and a later place can write to the same rendered path (`SharedPathLosesTarget`,
  `DottedKeyLosesTarget`). For any payload, a selection that succeeds witnesses every target if and only if each target
  that the payload displaces is also kept somewhere, and of each one that it keeps some place is not overwritten
  (`WitnessedExactly`). Both guards are read off the payload level by level.
* The two canonicalisers differ on some objects with array-index keys (`CanonicalJson.IndexKeysDisagree`): they agree
  exactly under the condition of `CanonicalPrintersAgree`.
* Lone surrogates collide with U+FFFD in the canonical join (`CanonicalJoin.LoneSurrogatesCollide`): joins agree if and
  only if the lists agree after that replacement (`JoinAgreesExactly`).
* Trusted facts that share an id keep their input order (`CanonicalJoin.SharedIdsKeepOrder`): for any facts, the hashed text
  is independent of the order if and only if facts that share an id look alike in it (`OrderIndependentExactly`).
* An observation that comes before its attempt's begin is dropped (`ProviderOrder.EarlyObservationIsLost`): the verdicts
  depend on the begins and on the other observations, in any order (`ObservationOrderIrrelevant`).
* The identity of a Windows path need not have an identity itself: a bare share of exactly 2000 characters gains a slash
  (`WindowsPath.LongShareHasNoFixedPoint`), and every capital I with a dot above gains a unit in lower case
  (`DottedPathHasNoFixedPoint`). It is its own identity if and only if the canonical path, measured in lower case, has at
  most 2000 units (`IdentityFixedPoint`); without dotted capitals that leaves the bare share alone (`PlainFixedPoint`).
* Two paths that differ in case only can have an identity and none (`WindowsPath.KelvinDriveHasNoIdentity`): they have
  the same if and only if both are accepted or neither is (`IdentityIgnoresCase`).
* A text page that starts with a byte order mark is always refused (`EvidencePaging.MarkedPageRefused`): the decode check
  passes exactly under the condition of `ReadableIffDecodes`.

`dafny verify dfyconfig.toml` checks the whole project.

## Model

| member | source | states |
|---|---|---|
| RuntimeImagePool.Pool.PruneLocked | apps/dynamic-revit-runtime/DynamicRevitSandboxSupervisor/RuntimeImagePool.cs:89-121 | Walking the entries newest first leaves exactly the entries the specification of a prune keeps, with the markers that could not be reopened; over 2 GiB of protected images it fails and removes no staging directory, otherwise it reports the bytes kept and removes them all. |
| RuntimeImagePool.PruneKeeps | apps/dynamic-revit-runtime/DynamicRevitSandboxSupervisor/RuntimeImagePool.cs:94-116 | A prune keeps every leased or pinned entry, none twice, and its byte total is the sum over what it kept. |
| RuntimeImagePool.PruneExactly | apps/dynamic-revit-runtime/DynamicRevitSandboxSupervisor/RuntimeImagePool.cs:91-116 | A prune goes through the entries by the dates of their manifests, newest first, and keeps exactly those that are leased, or pinned, or written within seven days and, with what was kept before them, within 7 or 8 entries and 2 GiB or 2 GiB less 256 MiB. |
| RuntimeImagePool.RemainingExactly | apps/dynamic-revit-runtime/DynamicRevitSandboxSupervisor/RuntimeImagePool.cs:98-114 | A kept entry loses exactly the markers that could be reopened and nothing else. |
| RuntimeImagePool.PruneWithinTargets | apps/dynamic-revit-runtime/DynamicRevitSandboxSupervisor/RuntimeImagePool.cs:113-118 | Only a protected entry can take a prune past its entry or byte target; without protected entries the targets (7 or 8 entries, 2 GiB or 2 GiB less 256 MiB) hold and nothing older than seven days is kept. |
| RuntimeImagePool.ReservedBytesSuffice | apps/dynamic-revit-runtime/DynamicRevitSandboxSupervisor/RuntimeImagePool.cs:20-26 | After a reserving prune that kept nothing protected, the kept bytes and one staged image of at most 256 MiB stay within 2 GiB. |
| RuntimeImagePool.AcquiredBytes | apps/dynamic-revit-runtime/DynamicRevitSandboxSupervisor/RuntimeImagePool.cs:22-75 | After a successful acquire whose prune kept nothing protected, the entries left by the prune, with the bytes they had, and the files of the package staged for it, which passed the bounds of a staged image, are within 2 GiB together. |
| RuntimeImagePool.PruneKeepsAll | apps/dynamic-revit-runtime/DynamicRevitSandboxSupervisor/RuntimeImagePool.cs:94-116 | A prune keeps everything exactly when each entry passes the eviction test at its own position. |
| RuntimeImagePool.CountRefusalExact | apps/dynamic-revit-runtime/DynamicRevitSandboxSupervisor/RuntimeImagePool.cs:46-47 | A reserving prune of at most eight images leaves no free slot if and only if there are eight, the least recently used is leased or pinned, and each other one is protected, or fresh and within the byte target with everything newer. This is the exact condition under which the reserved slot does not exist. |
| RuntimeImagePool.ReserveCanFail | apps/dynamic-revit-runtime/DynamicRevitSandboxSupervisor/RuntimeImagePool.cs:46-47 | The reserve is not always honoured: one pinned oldest image and seven fresh unprotected ones all survive the reserving prune. |
| RuntimeImagePool.CountRefusal | apps/dynamic-revit-runtime/DynamicRevitSandboxSupervisor/RuntimeImagePool.cs:26-48 | For a new identity the count refusal fires exactly when eight images all survive the reserving prune; the least recently used one is then protected and no image is older. |
| RuntimeImagePool.AdmitLeases | apps/dynamic-revit-runtime/DynamicRevitSandboxSupervisor/RuntimeImagePool.cs:45-74 | A successful acquire leaves the identity with a published manifest and its new lease marker, changes no other entry, and never makes a ninth one; a failed one changes at most its own entry. |
| RuntimeImagePool.AdmitExactly | apps/dynamic-revit-runtime/DynamicRevitSandboxSupervisor/RuntimeImagePool.cs:27-65 | After the prune an acquire succeeds if and only if the references are valid, the image verifies, there is an entry or a slot, and the image is published already or its entry is vacant, 1 GiB and 256 MiB are free and the package is within its bounds. |
| RuntimeImagePool.AdmitTouches | apps/dynamic-revit-runtime/DynamicRevitSandboxSupervisor/RuntimeImagePool.cs:68-74 | A success dates the manifest with this acquire's clock reading, adds exactly its lease to the markers, and keeps the files and the pin of an image that was published before. |
| RuntimeImagePool.AdmitRefuses | apps/dynamic-revit-runtime/DynamicRevitSandboxSupervisor/RuntimeImagePool.cs:45-67 | A failure leases nothing, and changes nothing but a vacant entry of its own identity. |
| RuntimeImagePool.Pool.SweepLeases | apps/dynamic-revit-runtime/DynamicRevitSandboxSupervisor/RuntimeImagePool.cs:100-110 | Exactly the markers that are open in some process or refuse access stay, and the entry counts as active exactly when there is one. |
| RuntimeImagePool.Pool.Stage | apps/dynamic-revit-runtime/DynamicRevitSandboxSupervisor/RuntimeImagePool.cs:56-67 | Whatever happens, no temporary directory is left; only an entry with nothing in it, not even a lease directory, is replaced, and then by the staged image. |
| RuntimeImagePool.Pool.OpenOrStage | apps/dynamic-revit-runtime/DynamicRevitSandboxSupervisor/RuntimeImagePool.cs:45-75 | Opens the published image or stages one, then leases it: the new entries, open handles and outcome are those of the attempt specified for AdmitLeases. |
| RuntimeImagePool.Pool.Acquire | apps/dynamic-revit-runtime/DynamicRevitSandboxSupervisor/RuntimeImagePool.cs:22-75 | Acquire is the reserving prune followed by the attempt; a prune over budget leases nothing. |
| RuntimeImagePool.Pool.Dispose | apps/dynamic-revit-runtime/DynamicRevitSandboxSupervisor/RuntimeImagePool.cs:15 | Disposing a lease closes its handle and removes its marker, and touches nothing else. |
| RuntimeWorkspace.ValidateBounds | apps/dynamic-revit-runtime/DynamicRevitSandboxSupervisor/RuntimeWorkspace.cs:284-296 | Counting file by file accepts a set of lengths exactly when the whole set has at most 256 files and 256 MiB and every length is legal. |
| PoolRuns.LeasedImageSurvives | apps/dynamic-revit-runtime/DynamicRevitSandboxSupervisor/RuntimeImagePool.cs:15-121 | In every state reachable by interleaving acquires, prunes, lease disposals and crashes step by step, an image with an open lease has its directory, its published manifest and its lease marker. |
| PoolRuns.PoolStaysBounded | apps/dynamic-revit-runtime/DynamicRevitSandboxSupervisor/RuntimeImagePool.cs:26-48 | In every reachable state there are at most 8 image entries. |
| PoolAlone.PruneIsRun | apps/dynamic-revit-runtime/DynamicRevitSandboxSupervisor/RuntimeImagePool.cs:89-121 | From any state of the pool, with any markers refused besides those that handles hold open, the single steps of an undisturbed process that takes the gate can leave exactly what the prune done in one go leaves. |
| PoolAlone.AcquireIsRun | apps/dynamic-revit-runtime/DynamicRevitSandboxSupervisor/RuntimeImagePool.cs:22-75 | The same for a whole acquire: every outcome of the specification, refusals included, is what some undisturbed run of single steps leaves, with the gate given back, no temporary directory and the lease file open exactly on success. |
| PoolRuns.LeasedImageUnchanged | apps/dynamic-revit-runtime/DynamicRevitSandboxSupervisor/RuntimeImagePool.cs:56-67 | Over every run and for as long as a lease handle stays open, its image keeps its place, its content and its bytes: no step replaces, empties or removes it. |
| PoolRuns.SweptIsUnused | apps/dynamic-revit-runtime/DynamicRevitSandboxSupervisor/RuntimeImagePool.cs:98-114 | When a prune has reopened every marker of an entry, no handle on that image is open, so deleting it is safe. |
| PoolBytes.PoolBytesBounded | apps/dynamic-revit-runtime/DynamicRevitSandboxSupervisor/RuntimeImagePool.cs:20-121 | In every reachable state the image entries have at most 2 GiB and 256 MiB together, and one manifest of the longest length published in the run, however many of them are leased or pinned. |
| PoolBytes.StagingStartsWithinBudget | apps/dynamic-revit-runtime/DynamicRevitSandboxSupervisor/RuntimeImagePool.cs:47-67 | Whenever an image is being staged, the entries are within 2 GiB. |
| CompilationCache.Cache.TryRead | apps/dynamic-revit-runtime/DynamicRevitSandboxSupervisor/CompilationCache.cs:48-71 | On a cache whose files fit each other a read is the lookup in a finite map: a miss for an absent key, the stored bytes for a present one with the same bindings. |
| CompilationCache.CheckExactly | apps/dynamic-revit-runtime/DynamicRevitSandboxSupervisor/CompilationCache.cs:53-71 | Two files hit if and only if both are read-only, the manifest is of the key and the bindings, and it gives the hash and the length of an artifact of 1 to 2097152 bytes. |
| CompilationCache.Cache.Prune | apps/dynamic-revit-runtime/DynamicRevitSandboxSupervisor/CompilationCache.cs:111-125 | A prune leaves exactly the 256 newest entries (ties by name), each with its artifact. |
| CompilationCache.Cache.Publish | apps/dynamic-revit-runtime/DynamicRevitSandboxSupervisor/CompilationCache.cs:88-103 | Moving without overwriting adds the entry of an absent key and changes nothing for a present one. |
| CompilationCache.Cache.Store | apps/dynamic-revit-runtime/DynamicRevitSandboxSupervisor/CompilationCache.cs:73-106 | Store refines the map: it adds the key unless present, prunes, and returns what is then found for the key; an unstorable artifact changes nothing. |
| CompilationCache.PrefixIsNewest | apps/dynamic-revit-runtime/DynamicRevitSandboxSupervisor/CompilationCache.cs:113-116 | The first 256 of the sorted listing are the entries with fewer than 256 newer ones. |
| CompilationCache.NewestIsByDate | apps/dynamic-revit-runtime/DynamicRevitSandboxSupervisor/CompilationCache.cs:113-116 | Every entry that a prune keeps was written after every one it drops, or at the same time with a smaller name. |
| CompilationCache.LatestIsFound | apps/dynamic-revit-runtime/DynamicRevitSandboxSupervisor/CompilationCache.cs:73-116 | However full the cache is, a storable artifact of a new key that is newer than all others is found after its own store. |
| CompilationCache.RankIsPosition | apps/dynamic-revit-runtime/DynamicRevitSandboxSupervisor/CompilationCache.cs:113-116 | In the sorted listing, as many entries are newer than a key as stand before it. |
| CompilationCache.NewestSize | apps/dynamic-revit-runtime/DynamicRevitSandboxSupervisor/CompilationCache.cs:111-125 | A prune keeps as many entries as it may, every one as it was. |
| CompilationCache.NewestOfFew | apps/dynamic-revit-runtime/DynamicRevitSandboxSupervisor/CompilationCache.cs:116 | A cache of at most 256 entries loses nothing to a prune. |
| CompilationCache.FirstBytesWin | apps/dynamic-revit-runtime/DynamicRevitSandboxSupervisor/CompilationCache.cs:92-105 | A second store of a key keeps the bytes of the first. |
| CompilationCache.FirstBytesStay | apps/dynamic-revit-runtime/DynamicRevitSandboxSupervisor/CompilationCache.cs:73-125 | Over any crash-free run of stores, a key keeps its first bytes as long as no prune takes it. |
| CacheRuns.ReadsAreHonest | apps/dynamic-revit-runtime/DynamicRevitSandboxSupervisor/CompilationCache.cs:48-141 | In every interleaving of stores, prunes and crashes, with any bytes, a hit returns the bytes of one writer, matching hash and length of a written manifest: never a mixture. |
| CacheRuns.UndisturbedRead | apps/dynamic-revit-runtime/DynamicRevitSandboxSupervisor/CompilationCache.cs:48-73 | A read during which both files stay as they are returns what they hold: miss without both, the check with both, and an error with only one, whatever else goes on. |
| CacheRuns.EqualStoresHit | apps/dynamic-revit-runtime/DynamicRevitSandboxSupervisor/CompilationCache.cs:73-106 | In every interleaving of stores of equal bytes for a key that is not pruned, each finished store read back a hit with those bytes. |
| CacheRuns.CrashIsReachable | apps/dynamic-revit-runtime/DynamicRevitSandboxSupervisor/CompilationCache.cs:88-97 | A lone store can crash in each of its phases, leaving exactly the files of that phase. |
| CacheRuns.ReadableExactly | apps/dynamic-revit-runtime/DynamicRevitSandboxSupervisor/CompilationCache.cs:48-106 | In every interleaving of stores of any bytes and crashes, with no prune of the key, a read returns normally if and only if no store has moved its artifact, or some store has marked its manifest read-only and the manifest fits the artifact. |
| CacheRuns.ReadableAfterCrashes | apps/dynamic-revit-runtime/DynamicRevitSandboxSupervisor/CompilationCache.cs:48-106 | With equal bytes: if and only if no store has moved its artifact or some store has marked its manifest; the read is then a miss or a hit with those bytes. |
| CacheRuns.LostExactly | apps/dynamic-revit-runtime/DynamicRevitSandboxSupervisor/CompilationCache.cs:48-125 | Once no store or prune is under way, no run of reads, crashes and prunes ever makes the key readable again if and only if it has an artifact and no manifest. |
| CacheRuns.LostAfterCrashes | apps/dynamic-revit-runtime/DynamicRevitSandboxSupervisor/CompilationCache.cs:88-97 | After any interleaving of stores of any bytes and crashes, the key is lost in this sense if and only if some store moved its artifact and none moved its manifest. |
| CacheRuns.LostAfterPrune | apps/dynamic-revit-runtime/DynamicRevitSandboxSupervisor/CompilationCache.cs:117-123 | A prune can stop after any of its four file steps, and leaves the key lost if and only if it has deleted the manifest and not yet the artifact. |
| CacheRuns.LossesArise | apps/dynamic-revit-runtime/DynamicRevitSandboxSupervisor/CompilationCache.cs:92-123 | Both losses happen: a store that crashes between its moves, and a prune that stops between its deletions after a store has finished with a hit. |
| CacheRuns.StoreOverOrphan | apps/dynamic-revit-runtime/DynamicRevitSandboxSupervisor/CompilationCache.cs:88-97 | A store of any bytes over such an artifact keeps the artifact and adds its own manifest; the key then reads as the old bytes if they have the length and hash of the new ones, and as invalid otherwise. |
| CacheRuns.OrphanIsPermanent | apps/dynamic-revit-runtime/DynamicRevitSandboxSupervisor/CompilationCache.cs:111-125 | When an artifact stands without a manifest and no store or prune is under way, whatever calls have finished or crashed, every later run of reads, prunes and crashes leaves it so and every read throws. |
| ProviderUsage.BuildCoverage | packages/assignment-kernel-v2-contracts/provider-turn-usage.js:33-69 | The loop over attempts and receipts reports complete exactly when every attempt is settled, attempts are pairwise independent and every agent receipt is claimed; no_provider_invocation exactly when, besides, nothing was received and every turn was not started. Each row and the unassigned ids are determined too. |
| ProviderUsage.CoverRow | packages/assignment-kernel-v2-contracts/provider-turn-usage.js:39-64 | An attempt is covered exactly when it is settled, new, and claims no id claimed before it. |
| ProviderUsage.BilledIs | packages/assignment-kernel-v2-contracts/provider-turn-usage.js:55-60 | A response is accounted for exactly when some receipt of the provider carries its id on the attempt's route and, for an agent turn, for that turn. |
| ProviderUsage.CompleteAccountsForAll | packages/assignment-kernel-v2-contracts/provider-turn-usage.js:46-66 | In a complete coverage the call ids of the agent receipts are exactly the ids the attempts claim, and no id is claimed by two attempts. |
| ProviderUsage.ReceiptOrderIrrelevant | packages/assignment-kernel-v2-contracts/provider-turn-usage.js:55-68 | Reordering the receipts changes neither verdict. |
| ProviderLedger.Ledger.Begin | packages/assignment-kernel-v2-contracts/provider-turn-usage.js:77-86 | A valid new request adds one open attempt, a different route spoils an existing one, anything else past the limits sets overflow; nothing recorded is lost. |
| ProviderLedger.Ledger.Observe | packages/assignment-kernel-v2-contracts/provider-turn-usage.js:87-104 | A response settles, spoils or leaves its own attempt as the specification says, and leaves every other attempt alone. |
| ProviderLedger.Ledger.Snapshot | packages/assignment-kernel-v2-contracts/provider-turn-usage.js:105-109 | The snapshot is the coverage of the attempts in the order they were begun, withheld on overflow. |
| ProviderLedger.ParseFixed | packages/assignment-kernel-v2-contracts/provider-turn-usage.js:5-30 | A parsed usage parses again to itself, so coverage sees what the ledger recorded. |
| ProviderLedger.RunKeeps | packages/assignment-kernel-v2-contracts/provider-turn-usage.js:72-104 | Over every run of begins and observations: at most 1000 attempts, none ever removed; conflict and overflow never clear; a recorded usage never changes and is the attempt's own. |
| ProviderLedger.CompleteSnapshot | packages/assignment-kernel-v2-contracts/provider-turn-usage.js:33-110 | In a complete snapshot every begun attempt is unspoiled and settled by a usage of its own session and message, no response id belongs to two attempts, and the call ids of the agent receipts are the ids of the attempts. |
| ProviderHistory.ParseExactly | packages/assignment-kernel-v2-contracts/provider-turn-usage.js:5-30 | A value parses to a usage if and only if the usage is well formed for its route and the value is the printed form of it. |
| ProviderHistory.ReadExactly | packages/assignment-kernel-v2-contracts/provider-turn-usage.js:87-103 | A response settles an attempt exactly when its own field is the printed form of a well-formed usage of that very request, says nothing exactly when it has neither field, and spoils it otherwise. |
| ProviderHistory.BeginsExactly | packages/assignment-kernel-v2-contracts/provider-turn-usage.js:77-86 | Over any run of begins the ledger overflows if and only if one was refused or more than 1000 requests were begun; otherwise every request begun has an attempt, with the route of its first begin and a conflict if and only if its begins name both routes. |
| ProviderOrder.ObservationsLast | packages/assignment-kernel-v2-contracts/provider-turn-usage.js:72-104 | A run in which every observation comes after its attempt has begun (or the attempt never begins) ends as if all begins came first. |
| ProviderOrder.SameObservationsAlike | packages/assignment-kernel-v2-contracts/provider-turn-usage.js:87-104 | Two lists of observations with the same members leave the same rows, up to the usages of spoiled attempts. |
| ProviderOrder.HeardSame | packages/assignment-kernel-v2-contracts/provider-turn-usage.js:87-89 | Any run ends as it would without the observations that come before their attempt has begun. |
| ProviderOrder.TimelyOrderIrrelevant | packages/assignment-kernel-v2-contracts/provider-turn-usage.js:72-110 | Two runs with the same begins in order and the same observations, each timely, have the same verdicts. |
| ProviderOrder.ObservationOrderIrrelevant | packages/assignment-kernel-v2-contracts/provider-turn-usage.js:72-110 | Any two runs with the same begins in order and the same heard observations, in whatever order, have the same complete and no_provider_invocation verdicts. |
| ProviderOrder.EarlyObservationIsLost | packages/assignment-kernel-v2-contracts/provider-turn-usage.js:88-89 | An observation moved before its attempt's begin is dropped and the verdict changes, so only heard observations can count. |
| JsonNumbers.NumberRoundTrip | packages/assignment-kernel-v2-contracts/completion-outbox.js:18 | The text of a finite number reads back as that number. |
| JsonText.ValueRoundTrip | packages/assignment-kernel-v2-contracts/completion-outbox.js:92 | An independent reader recovers a JSON value, and what follows it, from its printed text (strings escaped as in section 7 of RFC 8259). |
| JsonText.PrintInjective | packages/assignment-kernel-v2-contracts/completion-outbox.js:18 | Two JSON values print alike only when they are equal. |
| JsonText.BytesRoundTrip | packages/assignment-kernel-v2-contracts/completion-outbox.js:71-76 | A value printed, written as UTF-8 and read back parses to itself. |
| Utf8.RoundTripIffWellFormed | packages/assignment-kernel-v2-contracts/index.js:916-917 | Decoding the UTF-8 encoding gives a text back if and only if it has no lone surrogate. |
| Utf8.DecodersAgree | packages/assignment-kernel-v2-contracts/completion-outbox.js:71 | Reading a file with invalid sequences replaced gives the text itself whenever the bytes are valid. |
| CanonicalJson.CanonicalEquality | packages/assignment-kernel-v2-contracts/completion-outbox.js:15-19 | Two finite-number JSON values have the same canonical text exactly when they are equal up to object member order. |
| CanonicalJson.CanonicalPayloadEquality | packages/payload-digest-v2/index.js:10-37 | The same for the payload canonicaliser. |
| CanonicalJson.CanonicalValueIsNormal | packages/payload-digest-v2/index.js:10-33 | Normalising through Object.fromEntries, which puts array-index keys first in numeric order, yields the normal form sorted that way. |
| CanonicalJson.ArrayIndexExactly | packages/payload-digest-v2/index.js:25-28 | The keys an object enumerates first are exactly the decimal texts, without leading zeros, of the numbers below 2^32 - 1. |
| CanonicalJson.CanonicalFixedPoint | packages/assignment-kernel-v2-contracts/completion-outbox.js:15-19 | Re-parsing and re-canonicalising a canonical text gives the same text. |
| CanonicalJson.CanonicalPayloadFixedPoint | packages/payload-digest-v2/index.js:35-37 | The same for the payload canonicaliser. |
| CanonicalJson.CanonicalPrintersAgree | packages/payload-digest-v2/index.js:10-37 | The two canonicalisers print a value alike if and only if ordinal and enumeration order rank the keys of each of its objects alike. |
| CanonicalJson.NoIndexKeysAgree | packages/payload-digest-v2/index.js:25-28 | On values without array-index keys they agree. |
| CanonicalJson.IndexKeysDisagree | packages/payload-digest-v2/index.js:25-28 | On {"10":null,"9":null} they differ. |
| CompletionOutbox.PreparedReadsBack | packages/assignment-kernel-v2-contracts/completion-outbox.js:66-99 | A record as retain writes it passes every check of a read for any lease with canonically the same identity, and gives the retained envelope back. |
| CompletionOutbox.PrepareExactly | packages/assignment-kernel-v2-contracts/completion-outbox.js:85-94 | A retain goes ahead if and only if the key is well formed, the structured content has the result schema, both identities exist and agree canonically, and the signed record is within 64 MiB. |
| CompletionOutbox.IdentityExactly | packages/assignment-kernel-v2-contracts/completion-outbox.js:24-31 | A lease has an identity if and only if its binding names assignment, run, session and principal and a positive safe generation, its operation has a name and its request a signature; the identity is those three members. |
| CompletionOutbox.SafeIntegerExactly | packages/assignment-kernel-v2-contracts/completion-outbox.js:27 | A number passes as a positive safe integer if and only if it prints as the decimal of one of 1 to 9007199254740991. |
| CompletionOutbox.ReadIsBound | packages/assignment-kernel-v2-contracts/completion-outbox.js:76-82 | A read of a file of any bytes that returns an envelope found a record whose schema, signed payload identity, signature and envelope binding are those of the lease's own identity, and it is that record's envelope. |
| CompletionOutbox.DeliverFits | packages/assignment-kernel-v2-contracts/completion-outbox.js:112-129 | Every delivered message is within the 8 MiB budget. |
| CompletionOutbox.DeliverExactly | packages/assignment-kernel-v2-contracts/completion-outbox.js:112-129 | An envelope whose text is within 8 MiB is delivered as it is; otherwise with a reference in place of its structured content and every other member unchanged, if that fits; and only otherwise as a notice, which keeps the error mark. |
| CompletionOutbox.FittingDeliveryHydrates | packages/assignment-kernel-v2-contracts/completion-outbox.js:112-145 | In the first two cases hydrating from the delivery's own record gives the whole envelope back. |
| CompletionOutbox.HydrateAfterDeliver | packages/assignment-kernel-v2-contracts/completion-outbox.js:112-145 | In all three delivery branches, with an agreeing record on file, hydrating the message restores the structured content up to object member order and changes nothing else of the message. |
| CompletionOutbox.HydrateOwnRecord | packages/assignment-kernel-v2-contracts/completion-outbox.js:112-145 | When the record on file is the one this delivery wrote, the structured content comes back exactly, and the whole envelope does unless the message is a notice. |
| CompletionOutbox.HydrateAccepts | packages/assignment-kernel-v2-contracts/completion-outbox.js:133-145 | A reference is accepted if and only if a record for the lease carries its identity digest and its content digest. |
| CompletionOutbox.HydrateRefusesOthers | packages/assignment-kernel-v2-contracts/completion-outbox.js:140-143 | A reference that hydrates is one for the lease's own identity and for the content on record, up to member order, provided the digest does not collide on these two pairs of texts. |
| CompletionOutbox.WholeEnvelopeHydrates | packages/assignment-kernel-v2-contracts/completion-outbox.js:114-135 | A delivered whole envelope is passed through: no valid result can pose as a reference. |
| OutboxRuns.FirstLinkStays | packages/assignment-kernel-v2-contracts/completion-outbox.js:97-107 | Under concurrent retains and crashes, the first file linked at a path stays there unchanged. |
| OutboxRuns.ReadsAgree | packages/assignment-kernel-v2-contracts/completion-outbox.js:66-108 | Once a read finds a record, every later read with any lease of canonically the same identity returns the same. |
| OutboxRuns.RetainOutcome | packages/assignment-kernel-v2-contracts/completion-outbox.js:100-107 | A retain that returned normally agrees canonically with what is stored; one that found a different record failed with a conflict. |
| OutboxRuns.RetainCompletes | packages/assignment-kernel-v2-contracts/completion-outbox.js:85-108 | From any store, a retain that is left alone comes to its end: it publishes its whole record where there is none, and otherwise leaves the store as it is and reports how the record there compares. |
| OutboxRuns.ReadsAreComplete | packages/assignment-kernel-v2-contracts/completion-outbox.js:85-108 | No reader sees a partial record: a read finds nothing, or the whole record of a completed retain, whose envelope it returns if the identity is canonically its own; otherwise, when two identities share a digest, it reports a binding mismatch. |
| OutboxRuns.SuccessesAgree | packages/assignment-kernel-v2-contracts/completion-outbox.js:100-107 | Two retains for leases of canonically the same identity that both succeeded retained canonically the same envelope. |
| OutboxRuns.DeliveryHydrates | packages/assignment-kernel-v2-contracts/completion-outbox.js:85-145 | End to end: after a retain has succeeded in any interleaving, hydrating its delivered message at any later moment, with any lease of canonically the same identity, restores the structured content up to object member order and changes nothing else of the message. |
| EvidenceSelection.SelectExactEvidenceTargets | packages/assignment-kernel-v2-contracts/index.js:799-870 | The queue walk terminates and fails exactly past 100000 nodes or when an identity is unmatched, naming the missing ones; otherwise it returns the map that writing the places of the payload level by level leaves, later places over earlier ones. |
| EvidenceSelection.VisitArray | packages/assignment-kernel-v2-contracts/index.js:812-838 | One array contributes its identity members, or its matching rows in their place, and is searched further only when no row matches. |
| EvidenceSelection.VisitRecord | packages/assignment-kernel-v2-contracts/index.js:840-857 | One record contributes itself, or its mapped entries and the containers in it. |
| EvidenceSelection.SearchStep | packages/assignment-kernel-v2-contracts/index.js:809-858 | Taking the first node off the queue and appending its children does not change what is to be found. |
| EvidenceSelection.WalkIsLevelOrder | packages/assignment-kernel-v2-contracts/index.js:803-858 | Working off a queue and appending children visits any forest level by level, from left to right. |
| EvidenceSelection.PlacesAreFound | packages/assignment-kernel-v2-contracts/index.js:803-858 | The places met level by level are exactly those a depth-first search of the payload selects. |
| EvidencePlaces.RecordIdentifies | packages/assignment-kernel-v2-contracts/index.js:774-785 | The targets a record matches are exactly those it holds as a scalar of that identity under an accepted field name. |
| EvidencePlaces.PointsIs | packages/assignment-kernel-v2-contracts/index.js:759-772 | An item names a target exactly when its first identity, or its own for a scalar, is that target. |
| EvidencePlaces.NodesExactly | packages/assignment-kernel-v2-contracts/index.js:799-858 | The search looks at exactly the addresses of the payload that are not cut off by a selection above them, each once, shallower ones first and each level from left to right; their number is what the node limit counts. |
| EvidencePlaces.ContributionsAre | packages/assignment-kernel-v2-contracts/index.js:812-857 | A node contributes the rows of an array that identify a target, or else its members that name one if the field is an identity field; a record that identifies a target, or else its entries keyed by targets if the field is an identity map. |
| EvidencePlaces.PlacesExactly | packages/assignment-kernel-v2-contracts/index.js:799-858 | Something is selected if and only if the search gets to an address that contributes it, and the path it is written to is the one rendered on the way down to that address. |
| EvidenceTheorems.SearchUnique | packages/assignment-kernel-v2-contracts/index.js:829-856 | For payloads whose keys contain no path separators, no path is selected with two values. |
| EvidenceTheorems.SelectionIsExact | packages/assignment-kernel-v2-contracts/index.js:799-870 | For any payload the returned map has exactly the paths of the selecting places, each with the value of the last place written there; a place can be read in it if and only if that last place holds the same value. |
| EvidenceTheorems.PlainKeysAreUnambiguous | packages/assignment-kernel-v2-contracts/index.js:829-856 | Keys without path separators are one way to have no two places write different values to one path. |
| EvidenceWitnesses.PayloadStands | packages/assignment-kernel-v2-contracts/index.js:809-858 | For any payload, two guards read off it are exactly what the search does: an identity shows at a selecting place if and only if it stands somewhere, and gives way to matching records if and only if some identity array displaces it. |
| EvidenceWitnesses.MatchedAreFound | packages/assignment-kernel-v2-contracts/index.js:809-858 | An identity that the selection counts as matched stands somewhere in the payload or is displaced there. |
| EvidenceWitnesses.MatchedExactly | packages/assignment-kernel-v2-contracts/index.js:799-866 | Exactly the identities that some selecting place counts, or that the payload displaces, are matched. |
| EvidenceWitnesses.WitnessesAreNamed | packages/assignment-kernel-v2-contracts/index.js:751-857 | Every identity that a returned selection witnesses is requested and stands in the payload under an accepted field name, in an identity array, or as a key of an identity map. |
| EvidenceWitnesses.WitnessedExactly | packages/assignment-kernel-v2-contracts/index.js:799-870 | For any payload, a selection that succeeds shows every requested identity at a place whose value it returns, if and only if each requested identity that the payload displaces also stands somewhere in it, and of each that stands some place is not overwritten. |
| EvidenceWitnesses.UnambiguousLosesNone | packages/assignment-kernel-v2-contracts/index.js:829-856 | When no two places write different values to one path, no identity that stands is overwritten. |
| EvidenceWitnesses.TargetsAreWitnessed | packages/assignment-kernel-v2-contracts/index.js:799-870 | Without arrays mixing identity members with matching records and without places sharing a path, success means every requested identity is witnessed. |
| EvidenceWitnesses.MixedArrayLosesTarget | packages/assignment-kernel-v2-contracts/index.js:820-831 | For any rules and any names they accept, the selection from {field: [member, {key: row}]} succeeds and the member appears in no selection. |
| EvidenceWitnesses.ElementIdsLoseTarget | packages/assignment-kernel-v2-contracts/index.js:820-831 | The same for {"element_ids": ["a", {"element_id": "b"}]}, with the field-name patterns of the program. |
| EvidenceWitnesses.SharedPathLosesTarget | packages/assignment-kernel-v2-contracts/index.js:829-856 | For any rules and any names they accept, the selection from {"outer.inner": {key: first}, outer: {inner: {key: second}}} succeeds, displaces nothing, and the first identity appears in no entry: both records go to one path. |
| EvidenceWitnesses.DottedKeyLosesTarget | packages/assignment-kernel-v2-contracts/index.js:829-856 | The same for {"a.b": {"element_id": first}, "a": {"b": {"element_id": second}}}, with the field-name patterns of the program. |
| IdentityNames.IdentityFieldExactly | packages/assignment-kernel-v2-contracts/index.js:750-756 | A name is an identity field if and only if, without underscores and hyphens and in lower case, it is "uniqueid" or "uniqueids", or ends in a subject that an identifier may follow, whatever stands in front. |
| IdentityNames.IdentityMapFieldExactly | packages/assignment-kernel-v2-contracts/index.js:787-791 | A name is that of an identity map if and only if it is, in the same form, a collection or nothing, followed by a map key. |
| IdentityNames.ElementNamesAreIdentities | packages/assignment-kernel-v2-contracts/index.js:751-756 | "element_id" and "element_ids" are identity fields. |
| IdentityNames.PayloadIsNoMap | packages/assignment-kernel-v2-contracts/index.js:787-791 | The root of a payload is no identity map. |
| EvidencePaging.AssertScalarPage | packages/assignment-kernel-v2-contracts/index.js:716-748 | Accepts a page exactly when it repeats the request, its counts are consistent, it is honest about its place and its rows have distinct source indices and exactly the requested fields; ranges without filters and order are not looked at. |
| EvidencePaging.CheckItems | packages/assignment-kernel-v2-contracts/index.js:739-747 | The loop over the rows accepts exactly lists of exact rows with pairwise distinct indices. |
| HonestPages.RowPageExactly | packages/assignment-kernel-v2-contracts/index.js:716-748 | A row page is accepted if and only if some ranking of distinct rows of a source of at most 5000 exists of which it shows the rows asked for; source, matched, next start, exhaustion and completeness are then that ranking's. |
| EvidencePaging.FollowedPagesTile | packages/assignment-kernel-v2-contracts/index.js:735-738 | Honest pages followed from 0 number at most max(1, total), and end exactly when they add up to the total. |
| EvidencePaging.ScalarRunTiles | packages/assignment-kernel-v2-contracts/index.js:716-748 | Following next_start over accepted row pages with a fixed total takes at most max(1, total) requests and yields exactly that many rows. |
| EvidencePaging.AssertTextPage | packages/assignment-kernel-v2-contracts/index.js:909-923 | Accepts a text page exactly when its text is readable, no longer than asked, and honest about its place in the field. |
| HonestPages.TextPageExactly | packages/assignment-kernel-v2-contracts/index.js:909-923 | A text page is accepted if and only if some text exists of which it is the piece asked for: total bytes, next start and completeness are then that text's, and a piece is empty only at its end; without a path no text page may be there. |
| EvidencePaging.ReadableIffDecodes | packages/assignment-kernel-v2-contracts/index.js:916-917 | The decode check passes exactly for well-formed texts that do not start with a byte order mark. |
| EvidencePaging.TextRunTiles | packages/assignment-kernel-v2-contracts/index.js:909-923 | Following next_start over accepted text pages with a fixed total takes at most max(1, total) requests and yields well-formed text of exactly that many bytes of UTF-8. |
| EvidencePaging.MarkedPageRefused | packages/assignment-kernel-v2-contracts/index.js:917 | A page whose text starts with U+FEFF is always refused, whatever it says, because the decoder drops the mark. |
| FactTurns.CollectFirstScope | apps/dynamic-revit-runtime/DynamicRevitSandboxSupervisor/Program.cs:705-752 | The first scope is collected exactly when, within 64 pages, the replies are identified, carry the envelopes they name, are of one snapshot, one revision and one scope, and make that scope up whole. |
| FactTurns.CollectDeltaScope | apps/dynamic-revit-runtime/DynamicRevitSandboxSupervisor/Program.cs:784-847 | A further scope is collected exactly when, within 64 pages, the replies are identified, carry the envelopes they name, are of the retained snapshot, revision, document and session and of the requested scope, and make it up whole. |
| FactTurns.TiledPageCount | apps/dynamic-revit-runtime/DynamicRevitSdk/BuildingSystemsObservationContracts.cs:269-280 | A whole scope has exactly as many pages as its total and page size require, each offset being the number of facts before it. |
| FactTurns.PagedExactly | apps/dynamic-revit-runtime/DynamicRevitSdk/BuildingSystemsObservationContracts.cs:269-280 | A page passes the paging rules if and only if it is one of the pages its total is cut into, at most 128 facts each and 2048 in all, full but for the last, with a successor exactly when there is more. |
| FactTurns.KnownListExactly | apps/dynamic-revit-runtime/DynamicRevitSdk/DynamicExecutionProtocol.cs:53-54 | A list of known scopes passes if and only if it is at most 16 hashes in strictly ascending ordinal order. |
| FactTurns.ValidateDelta | apps/dynamic-revit-runtime/DynamicRevitSdk/ObservationDeltaContracts.cs:21-57 | The loop accepts a delta exactly when its schema and its own hash are right, its known scopes are as many as its turn, sorted and without the new one, and its pages are one contiguous complete scope. |
| FactTurns.HeldGrows | apps/dynamic-revit-runtime/DynamicRevitSandboxSupervisor/Program.cs:319-320 | Merging a whole new scope into the sorted pages keeps every page, leaves every old scope as it was, and keeps all of them contiguous. |
| FactTurns.TakeTurn | apps/dynamic-revit-runtime/DynamicRevitSandboxSupervisor/Program.cs:296-331 | A turn succeeds if and only if the request is for a new scope, the host delivers it whole, and delta and context are admissible; it then retains exactly that scope on top of what was held. |
| FactTurns.RunFactTurns | apps/dynamic-revit-runtime/DynamicRevitSandboxSupervisor/Program.cs:279-347 | Whatever worker and host do, the loop ends within five outputs; every delta sent names exactly the scopes held before it; a normal end keeps source, program and SDK identity; and it breaks off only if a turn could not be taken or the identity changed. |
| FactTurns.ScopesStayDistinct | apps/dynamic-revit-runtime/DynamicRevitSandboxSupervisor/Program.cs:689-691 | Over every run each turn adds exactly one scope, none twice and none held at first. |
| FactTurns.RetainedIsAll | apps/dynamic-revit-runtime/DynamicRevitSandboxSupervisor/Program.cs:318-322 | The retained pages are exactly the first ones and those sent. |
| FactTurns.FirstScopeIsHeld | apps/dynamic-revit-runtime/DynamicRevitSandboxSupervisor/Program.cs:735-740 | The first scope alone satisfies what the turns keep. |
| Base64.RoundTrip64 | apps/dynamic-revit-runtime/DynamicRevitSandboxSupervisor/Program.cs:958 | Base64 with padding (section 4 of RFC 4648) decodes to the encoded bytes. |
| CanonicalJoin.BuildJoin | apps/dynamic-revit-runtime/DynamicRevitSandboxSupervisor/Program.cs:954-960 | The builder holds one line per value, in order. |
| CanonicalJoin.JoinInjective | apps/dynamic-revit-runtime/DynamicRevitSandboxSupervisor/Program.cs:954-960 | Two lists of nullable well-formed strings of any lengths have the same join only when they are the same list; null is not the empty string. |
| CanonicalJoin.ColumnsExactly | apps/dynamic-revit-runtime/DynamicRevitSandboxSupervisor/Program.cs:951-952 | A fact is hashed as nine columns: its id, its element id as a decimal text that reads back as it, document, category, type and state as they are or null, and 1 or 0 for present, verified and visible. |
| CanonicalJoin.JoinAgreesExactly | apps/dynamic-revit-runtime/DynamicRevitSandboxSupervisor/Program.cs:954-960 | For lists of any strings the joins agree if and only if the lists do once every lone surrogate is replaced by U+FFFD. |
| CanonicalJoin.LoneSurrogatesCollide | apps/dynamic-revit-runtime/DynamicRevitSandboxSupervisor/Program.cs:958 | Every lone surrogate joins like U+FFFD, so without well-formedness the join is not injective. |
| CanonicalJoin.TrustedFactsTextExact | apps/dynamic-revit-runtime/DynamicRevitSandboxSupervisor/Program.cs:949-952 | For any facts the hashed texts agree if and only if the sorted facts agree column by column, once lone surrogates are replaced. |
| CanonicalJoin.TrustedFactsTextInjective | apps/dynamic-revit-runtime/DynamicRevitSandboxSupervisor/Program.cs:949-952 | The hashed text of well-formed trusted facts determines them up to the order they are sorted into. |
| CanonicalJoin.TrustedFactsAgree | apps/dynamic-revit-runtime/DynamicRevitSandboxSupervisor/Program.cs:949-952 | When well-formed facts that share a UniqueId are equal, the hashed texts agree exactly when the facts do, whatever order they come in. |
| CanonicalJoin.OrderIndependentExactly | apps/dynamic-revit-runtime/DynamicRevitSandboxSupervisor/Program.cs:949-952 | The hashed text of any list of facts is the same for every order of them if and only if facts that share a UniqueId agree column by column, once lone surrogates are replaced. |
| CanonicalJoin.TrustedFactsOrderIndependent | apps/dynamic-revit-runtime/DynamicRevitSandboxSupervisor/Program.cs:949-952 | For facts with distinct UniqueId the hashed texts agree exactly when the facts do, whatever order they come in. |
| CanonicalJoin.SharedIdsKeepOrder | apps/dynamic-revit-runtime/DynamicRevitSandboxSupervisor/Program.cs:950 | Two facts at the head of a list that share a UniqueId and do not agree in this sense cannot be swapped without changing the text. |
| CanonicalJoin.TrustedFactsHashAgrees | apps/dynamic-revit-runtime/DynamicRevitSandboxSupervisor/Program.cs:949-952 | When facts that share a UniqueId are equal, the hashes agree exactly when the facts do, as far as the hash does not collide on the two texts. |
| TextNote.NormalizeIsOnePass | packages/text-note-round-trip-v1/index.js:3-10 | The five replacement passes, guard included, are one left-to-right reading in which each raw or escaped line end becomes a newline and a raw carriage return takes the line end after it along. |
| TextNote.NormalizeIsNormal | packages/text-note-round-trip-v1/index.js:3-10 | The result has no carriage return and no escaped line end, and exactly the texts without them are left alone. |
| TextNote.NormalizeIdempotent | packages/text-note-round-trip-v1/index.js:3-10 | Normalising twice is normalising once. |
| TextNote.MatchesUpToNormalization | packages/text-note-round-trip-v1/index.js:12-16 | Normalising either argument first does not change a match. |
| TextNote.MatchesExactly | packages/text-note-round-trip-v1/index.js:12-16 | Two texts match if and only if, each read once, the actual one is the requested one with or without one newline after it. |
| TextNote.MatchesFinalNewline | packages/text-note-round-trip-v1/index.js:12-16 | A newline added at the end never breaks a match. |
| WindowsPath.WindowsPathIdentity | packages/assignment-kernel-v2-contracts/native-artifact.js:105-116 | The loop over the segments resolves them as specified and lower-cases the joined result. |
| WindowsPath.IdentityFolded | packages/assignment-kernel-v2-contracts/native-artifact.js:105-116 | For any lower-casing that works between slashes, lower-casing the path first gives the same identity. |
| WindowsPath.AcceptedExactly | packages/assignment-kernel-v2-contracts/native-artifact.js:105-107 | A path is accepted if and only if it has at most 2000 units, none a control character, and starts with a separator or with a drive letter, a colon and a separator. |
| WindowsPath.PrefixExactly | packages/assignment-kernel-v2-contracts/native-artifact.js:107 | The prefix is the drive with its slash, else the server and share with the slash after them if there is one, else the first slash. |
| WindowsPath.SeparatorsAlike | packages/assignment-kernel-v2-contracts/native-artifact.js:106 | Replacing backslashes by slashes never changes the identity. |
| WindowsPath.IdentityKeepsPrefix | packages/assignment-kernel-v2-contracts/native-artifact.js:107-115 | However many ".." segments occur, the identity keeps the drive, share or root as its own prefix, and after it has no empty, "." or ".." segment. |
| WindowsPath.IdentityIgnoresStyle | packages/assignment-kernel-v2-contracts/native-artifact.js:106-115 | Paths that differ only in separator style and ASCII case have one identity. |
| WindowsPath.IdentityIgnoresCase | packages/assignment-kernel-v2-contracts/native-artifact.js:105-116 | Paths that differ in separator style and the case of any letters have one identity if and only if both are accepted or neither is. |
| WindowsPath.KelvinDriveHasNoIdentity | packages/assignment-kernel-v2-contracts/native-artifact.js:105-107 | A Kelvin sign for a drive letter folds to k: and is refused, while k: has an identity. |
| WindowsPath.IdentityFixedPoint | packages/assignment-kernel-v2-contracts/native-artifact.js:105-116 | The identity is its own identity, unless the canonical path with one unit more for every capital I with a dot above has more than 2000 units, when the identity has none. |
| WindowsPath.PlainFixedPoint | packages/assignment-kernel-v2-contracts/native-artifact.js:105-116 | Without such capitals only a bare share of exactly 2000 units has an identity without identity. |
| WindowsPath.LongShareHasNoFixedPoint | packages/assignment-kernel-v2-contracts/native-artifact.js:105-116 | Such a share exists: its identity is refused for its length. |
| WindowsPath.DottedPathHasNoFixedPoint | packages/assignment-kernel-v2-contracts/native-artifact.js:105-116 | Nor has C:/ followed by 1996 such capitals, accepted at 1999 units: its identity is refused for its length. |
| WindowsPath.IdentityLength | packages/assignment-kernel-v2-contracts/native-artifact.js:115 | The identity is as long as the canonical path, plus one unit for every capital I with a dot above in it; it is longer than its path by exactly the slash of a bare share and those capitals, or at most by those capitals. |
| WindowsPath.ResolveIsSurvivors | packages/assignment-kernel-v2-contracts/native-artifact.js:110-114 | The stack of parts holds exactly the names that no later ".." cancels, counted from the end. |

## Left out

- Values that are not JSON (undefined members, functions, NaN, toJSON, cycles) in both canonicalisers, and whitespace between JSON tokens when a record is parsed: only what the program itself prints is read back.
- Non-string values where a regular expression would coerce them (record signatures, reference digests): they are refused here.
- CompletionOutbox.ReadIsBound: a record with whitespace between tokens or with a repeated key, which the program never writes, is unreadable here.
- CompletionOutbox.HydrateAfterDeliver: restores the structured content up to object member order, because an agreeing record that was retained earlier may list its members in another order; HydrateOwnRecord has exact equality for the delivery's own record.
- CompletionOutbox.HydrateRefusesOthers: assumes that the digest does not collide on the two identities and the two contents at hand, since digests are arbitrary functions here.
- Signing keys: their file, and the check of their format; auxiliary records beside the completion record.
- The evidence selection takes its field-name rules and the way a scalar becomes an identity as parameters; IdentityNames gives the field-name patterns, with names lower-cased in ASCII only, and how a scalar becomes an identity stays open. The order of selection_paths is not modelled.
- Parsing of the evidence selector, and the projected facts derived from a page.
- EvidenceTheorems.SearchUnique: keys without "." and "[" are enough for unambiguous paths, not needed; IsUnambiguous is the guard the other results use.
- CanonicalJoin.TrustedFactsAgree: for well-formed facts; TrustedFactsTextExact says what holds for any.
- PoolBytes.PoolBytesBounded: counts a published manifest beside the 256 MiB of its image, since nothing bounds a manifest by itself.
- EvidencePaging: that rows on different pages have different source indices; the guards look at one page at a time.
- Objects with a toJSON method as session or message identifiers in the provider ledger.
- Facts themselves (kinds, connectors, parameters), the scope, revision and envelope hashes and cursors, and the serialised size of a delta are parameters of FactTurns, as is every check of a fact request and its execution trace beyond its scopes; the delta's own hash is a parameter, and the trusted-facts receipt, request signing, receipt bodies and delta evidence are absent.
- WindowsPath.WindowsPathIdentity: takes lower-casing as a parameter; that String.prototype.toLowerCase has the properties asked of it is not proved here.
- Reparse-point and access-control checks, disk space other than as an observed number, directory permissions and the wait for the pool gate.
- RuntimeImagePool.Pool.PruneLocked: reads an entry's bytes as one number; the recursive sum over its files is not modelled.
- RuntimeImagePool.AcquiredBytes: counts the files of the staged package but not its manifest, which the bound in the code leaves out too.
- CompilationCache.Cache.TryRead: manifests are records with the checked fields; their JSON shape and the chunked file read are not modelled.
- Pruning of task directories (TaskRetention.Prune), runtime package identity, native references, process launch, pipes and posts.
- Field-by-field validators that are settled by reading one branch: package verifier, native completion and continuation, schedule filters, focused evidence.
