# Yvonne key management: a verified model

Yvonne keeps data keys wrapped under a master key, splits that master key into
Shamir shares, rotates and shreds key versions in a transactional store, caches
them on every node of a cluster, rate-limits its callers, asks for quorum
approval of sensitive operations and signs its audit log as a hash chain. This
project models those parts in Dafny and proves what they promise, or, where the
code does not keep a promise, proves exactly when it does.

`dafny verify dfyconfig.toml` checks the whole project.

| file | what it models |
|---|---|
| `Gf256.dfy`, `GfTables.dfy`, `Polynomials.dfy` | the field GF(2^8) of section 4.2 of FIPS 197, the log/exp tables, polynomials and interpolation over it |
| `Shamir.dfy`, `Vault.dfy`, `Backup.dfy` | splitting and combining secrets, the seal state machine, backup files |
| `KeyNames.dfy`, `Lifecycle.dfy`, `IndexRace.dfy` | row names, every lifecycle operation as a step on the store, and CreateKey's two separate writes |
| `KeyCache.dfy`, `KeyNode.dfy`, `KeyManager.dfy` | the two-sided cache, one node as a state machine, the manager object that refines it |
| `Ciphertext.dfy`, `Core.dfy` | self-routing ciphertexts; encryption as a service over vault, node and format |
| `Transactions.dfy`, `ClusterCache.dfy`, `RotationDaemon.dfy` | interleaved row-locked transactions, invalidation by NOTIFY, the lock-elected rotation daemons |
| `Approval.dfy`, `RateLimiter.dfy`, `AuditChain.dfy` | quorum approval, the token bucket, the audit chain |
| `ByteOrder.dfy`, `PrefixScan.dfy`, `Paging.dfy`, `Reaper.dfy` | key order, prefix scans, paged listings, the soft-delete reaper |
| `Options.dfy`, `Clock.dfy`, `Collections.dfy` | results, instants, and facts about sequences and sets |

Conventions. Code that changes state is a class or a method with loops, tied by
its `ensures` to a function of the old state; the properties of whole runs are
lemmas about those functions. A protocol is a state machine whose runs are
arbitrary sequences of steps. Clocks, nonces, random draws, keyed hashes, AES-GCM
and JSON are parameters with stated laws; no law is assumed anywhere else. Key
ids and row names are character strings; times are integers in nanoseconds, and
reals in seconds for the rate limiter.

Where the code and its comments disagree, the model follows the code and the
difference is a theorem:

- A restored version does not make a key rotatable again, against the comment of
  `RestoreKey`: `RotateKey` succeeds afterwards exactly when the key had an Active
  version before (`Lifecycle.RotateAfterRestore`, `Lifecycle.RotateNeedsActive`),
  and a key without one never gets one again (`Lifecycle.RetiredForGood`).
- A deleted or altered audit line invalidates no other line in a query, against
  the promise of the chain: `AuditChain.TamperingFlagsNoOriginal`. What does fix a
  log is a check of the whole chain: `AuditChain.FullChainIsTheRun`.
- A soft-deleted version still encrypts on a node exactly when its Active row was
  cached there, against the comment of `SoftDeleteKey`:
  `KeyNode.SoftDeletedEncryptsExactly`.
- A prefix of 0xff bytes has no upper bound, but the range query then returns no
  row instead of all: `PrefixScan.ScansAgree`.
- One reaper pass empties the bin only of stores that fit in one page:
  `Reaper.OnePassSufficesExactly`.
- The window bound of the rate limiter, and the invisibility of eviction, hold
  exactly when a bucket refills within the ten idle minutes:
  `RateLimiter.WindowBoundExactly`, `RateLimiter.EvictionHiddenExactly`.
- A resolved approval ticket is final exactly when no handler still holds a
  different copy, and a stored approval stays counted exactly when none holds a copy
  without it: `Approval.FinalIffNoStaleCopy`, `Approval.CountedIffNoCopyLacks`.
- Cached answers may outlive what they say. Filling the cache keeps a node in order
  exactly when the answer is still right or its notification is still queued
  (`ClusterCache.FillIsHealthyExactly`). Starting to listen does exactly when every
  cached answer is right (`ClusterCache.ListenIsHealthyExactly`), which a reconnect
  gap guarantees when no key looked up in it changes in the rest of it
  (`ClusterCache.QuietGapIsHarmless`).
- A key created under a live negative entry is not found until the entry expires,
  exactly then: `KeyNode.CreatedIsFoundExactly`.
- CreateKey writes its index row outside a transaction. The late write is harmless
  exactly when no rotation of the key came in between, and otherwise the key can
  never be rotated again (`IndexRace.LateIndexExactly`, `IndexRace.StuckForGood`).

## Model

| member | source | states |
|---|---|---|
| Gf256.MulNoTable | internal/seal/shamir.go:65-79 | the eight-round loop computes the field product Mul |
| Gf256.MulIsTheOnlyProduct | internal/seal/shamir.go:65-79 | any operation that is additive, compatible with doubling modulo x^8+x^4+x^3+x+1 and has 1 as unit equals Mul: the product is the one of the field, not just some operation |
| Gf256.MulIsProduct | internal/seal/shamir.go:65-79 | Mul has those three properties |
| Gf256.MulComm | internal/seal/shamir.go:65-79 | multiplication commutes |
| Gf256.MulAssoc | internal/seal/shamir.go:65-79 | multiplication is associative |
| Gf256.Distrib | internal/seal/shamir.go:65-79 | multiplication distributes over XOR on both sides |
| GfTables.PowNotOne | internal/seal/shamir.go:48-58 | no power of the generator 3 below 255 is 1, so its order is 255 |
| GfTables.LogExists | internal/seal/shamir.go:48-58 | every non-zero byte is a power of the generator: the log table has no hole |
| GfTables.Tables.constructor | internal/seal/shamir.go:48-61 | the filled exp and log tables are the powers and their inverse, over all 512 and 255 entries |
| GfTables.Tables.GfMul | internal/seal/shamir.go:82-89 | the table lookup equals the field product for every pair of bytes |
| GfTables.Tables.GfInv | internal/seal/shamir.go:92-98 | fails exactly on 0 and otherwise returns the multiplicative inverse |
| GfTables.MulCancel | internal/seal/shamir.go:82-98 | non-zero factors cancel |
| Polynomials.EvalQuot | internal/seal/shamir.go:182-188 | division with remainder by x - r |
| Polynomials.InterpolationExists | internal/seal/shamir.go:226-273 | through n points with distinct x passes a polynomial with n coefficients |
| Polynomials.InterpolationUnique | internal/seal/shamir.go:226-273 | and only one |
| Polynomials.LagrangeAtZero | internal/seal/shamir.go:226-273 | the Lagrange sum at 0 over any set of enough distinct points gives the polynomial's value at 0 |
| Shamir.GfEval | internal/seal/shamir.go:182-188 | Horner's loop evaluates the polynomial |
| Shamir.Split | internal/seal/shamir.go:117-179 | succeeds exactly on valid parameters and random draws; share i has x = i + 1 and the values of the per-byte polynomials there |
| Shamir.Combine | internal/seal/shamir.go:204-282 | accepts exactly well-formed shares and returns the interpolation of every column at 0; no denominator is ever 0 |
| Shamir.CombineWithThreshold | internal/seal/shamir.go:288-293 | additionally refuses fewer shares than a positive threshold |
| Shamir.SharesRecoverSecret | internal/seal/shamir.go:117-282 | for every secret, parameters and coefficients, any threshold or more shares in any order are accepted and combine to exactly the secret |
| Shamir.FewerSharesFixNothing | internal/seal/shamir.go:142-188 | for any shares fewer than the threshold by one and any claimed secret byte, exactly one coefficient list explains them |
| Vault.VaultState.ProvideShare | internal/seal/state.go:210-259 | below the threshold the share joins the pool; at it the pool's combination becomes the master key, or the pool is emptied with an error; a refused share changes nothing |
| Vault.VaultState.DirectUnseal | internal/seal/state.go:117-144 | succeeds exactly with a key, not after an emergency seal and not when unsealed, and then that key is in use; a refusal changes nothing |
| Vault.VaultState.Seal | internal/seal/state.go:273-292 | wipes key and pool; on a sealed vault nothing happens, and a pool begun there stays |
| Vault.VaultState.EmergencySeal | internal/seal/state.go:307-334 | wipes and sets the emergency mark |
| Vault.VaultState.KekRef | internal/seal/state.go:379-388 | the key is handed out exactly while unsealed |
| Vault.RunStaysConsistent | internal/seal/state.go:117-334 | in every run a master key is present exactly when unsealed and the pool stays below the threshold |
| Vault.EmergencyIsFinal | internal/seal/state.go:307-334 | after an emergency seal no run changes anything: no key and no share ever again |
| Vault.DirectKeyStays | internal/seal/state.go:117-144 | a key given to DirectUnseal is the one in use until the next seal |
| Vault.UnsealCeremony | internal/seal/state.go:210-259 | any threshold shares of one split, in any order, unseal with exactly the split secret and not one share earlier |
| Backup.EncodeBackupShare | internal/seal/backup.go:175-188 | the buffer filled by position is the format: magic, version 1, total, threshold, index, HMAC at 8 to 39, share from 40 |
| Backup.DecodeUndoesEncode | internal/seal/backup.go:175-219 | decoding an encoded share returns its fields |
| Backup.EncodeUndoesDecode | internal/seal/backup.go:191-219 | re-encoding an accepted file gives the same bytes |
| Backup.SplitToFiles | internal/seal/backup.go:64-118 | succeeds exactly on valid parameters; the files are the encoded shares |
| Backup.FilesSayWhatTheyAre | internal/seal/backup.go:97-117 | each file decodes to its share, the number of shares, the threshold, its place and the HMAC of the share |
| Backup.CombineFromFiles | internal/seal/backup.go:129-172 | accepts exactly two or more intact files with well-formed shares, and returns their combination |
| Backup.FilesRestoreKey | internal/seal/backup.go:64-172 | any threshold or more files, in any order, are accepted and restore exactly the wrapped key |
| KeyNames.RowNameInjective | internal/lifecycle/manager.go:57-59 | `key:<id>:v:<n>` is injective in (id, n) and never equals a `meta:latest:<id>` |
| KeyNames.NamedPut | internal/storage/memory.go:42-62 | writing a non-empty record by name changes exactly that row |
| KeyNames.NamedDelete | internal/storage/memory.go:79-92 | deleting a row by name removes exactly that row |
| KeyNames.KeyScanSeesVersions | internal/lifecycle/manager.go:997-1006 | the prefix `key:` matches exactly the version rows |
| Lifecycle.PutKeyByName | internal/lifecycle/manager.go:330-339 | the store of names changes as the map of versions does |
| Lifecycle.PutLatestByName | internal/lifecycle/manager.go:397-403 | and as the map of index entries does |
| Lifecycle.DeleteKeyByName | internal/lifecycle/manager.go:631-633 | deleting a version row by name removes that version only |
| Lifecycle.ScanFrom | internal/lifecycle/manager.go:410-424 | the scan terminates on every store, returns the end of the contiguous run, and the version after it is absent |
| Lifecycle.LatestWhenSound | internal/lifecycle/manager.go:384-424 | what index-then-scan returns, and that an Active version is what it returns |
| Lifecycle.NextKeepsSound | internal/lifecycle/manager.go:186-243 | every operation keeps: rows match their names, the index bounds every version, only the latest is Active, deletedAt is set exactly when soft-deleted |
| Lifecycle.RunKeepsSound | internal/lifecycle/manager.go:468-870 | so does every run over fresh ids |
| Lifecycle.ActiveIsLatest | internal/lifecycle/manager.go:468-870 | in every run over fresh ids an Active version is the latest, and at most one is Active |
| Lifecycle.RotateAdvancesIndex | internal/lifecycle/manager.go:476-548 | a rotation issues the number after the latest, unused so far, and touches no other key's index |
| Lifecycle.IndexCountsRotations | internal/lifecycle/manager.go:468-585 | over any run the index grows by exactly the successful rotations |
| Lifecycle.RotateNeverReissues | internal/lifecycle/manager.go:468-653 | two rotations never issue the same number, whatever was shredded in between |
| Lifecycle.Provenance | internal/lifecycle/manager.go:514-531 | in every run over fresh ids each stored version has the material, creation time and period of the operation that issued its number, has been stored ever since, and a rotation passes on the period of the version before |
| Lifecycle.QuotaHolds | internal/lifecycle/manager.go:194-203 | creations under a quota never take the number of keys above it, in any run without imports |
| Lifecycle.IndexAgreesWithScan | internal/lifecycle/manager.go:384-424 | in every run without shreds the O(1) lookup equals the scan, imported keys included |
| Lifecycle.ShredMakesGone | internal/lifecycle/manager.go:595-653 | a shredded version is absent and its number is at or below the index |
| Lifecycle.NextKeepsGone | internal/lifecycle/manager.go:468-653 | no operation but re-creation brings it back |
| Lifecycle.RestoreDoesNotReactivate | internal/lifecycle/manager.go:800-870 | soft-deleting the Active version and restoring it leaves the key without an Active version |
| Lifecycle.RotateNeedsActive | internal/lifecycle/manager.go:493-503 | on every sound store RotateKey, given new material, succeeds if and only if the key has an Active version |
| Lifecycle.RotateAfterRestore | internal/lifecycle/manager.go:800-870 | after restoring any version RotateKey succeeds if and only if the key had an Active version before, that is, exactly when it would have succeeded without the restore |
| Lifecycle.RetiredForGood | internal/lifecycle/manager.go:501-503 | in every run a key without an Active version stays so and is never rotated again |
| Lifecycle.NextKeepsKeyed | internal/lifecycle/manager.go:330-339 | every operation leaves each row with the id and version of its name, on any store |
| IndexRace.LateIndexIsSoundExactly | internal/lifecycle/manager.go:235-240 | the late index write keeps the invariant of the store if and only if version 1 is the only stored version of the key |
| IndexRace.LateIndexExactly | internal/lifecycle/manager.go:186-243 | CreateKey interrupted by any run of operations gives what an undivided CreateKey followed by them gives if and only if none of them rotated the key; otherwise the key is stuck |
| IndexRace.StuckForGood | internal/lifecycle/manager.go:428-503 | in every run that does not create or import the id again a stuck key stays stuck and every rotation of it fails |
| IndexRace.CreateIndexRace | internal/lifecycle/manager.go:219-243 | the bad case is reachable: version 2 is Active and no later run rotates the key |
| KeyCache.InvalidateClears | internal/lifecycle/cache.go:86-104 | no positive or negative entry of the key survives, and nothing is added |
| KeyCache.InvalidateExactly | internal/lifecycle/cache.go:86-104 | a cached version goes if and only if its id followed by ":v:" starts with the invalidated id followed by ":v:"; the others stay as they are |
| KeyCache.DekCache.InvalidateKey | internal/lifecycle/cache.go:86-104 | the two deletion loops remove exactly the entries whose name has the key's prefix |
| KeyManager.Manager.LoadMetadata | internal/lifecycle/manager.go:342-373 | cache, negative cache, store, in that order; a found row is cached, an absent one remembered for five seconds |
| KeyManager.Manager.FindLatestVersion | internal/lifecycle/manager.go:384-424 | the index-then-scan loop returns LatestVersion |
| KeyManager.Manager.GetKeyForDecrypt | internal/lifecycle/manager.go:721-735 | refuses only Destroyed |
| KeyManager.Manager.GetActiveKey | internal/lifecycle/manager.go:693-713 | the latest version, refused unless Active |
| KeyManager.Manager.CreateKey | internal/lifecycle/manager.go:186-243 | refines the Create step; on success version 1 is Active with the given material, time and period, the index is 1 if it was written, and nothing else changed |
| KeyManager.Manager.ImportKey | internal/lifecycle/transit.go:200-243 | refines the Import step: version 1 with the given material and no index row |
| KeyManager.Manager.RotateKey | internal/lifecycle/manager.go:468-585 | refines the Rotate step, all or nothing: the next version is Active with the new material, the time and the old period, the old one differs in its state only, every other row is unchanged, and the key is invalidated |
| KeyManager.Manager.SoftDeleteKey | internal/lifecycle/manager.go:753-798 | an Active or Deactivated row becomes SoftDeleted at the given time and nothing else changes; the cache is untouched |
| KeyManager.Manager.RestoreKey | internal/lifecycle/manager.go:809-870 | a SoftDeleted row becomes Deactivated without a deletion time and the key is invalidated; otherwise store and cache are untouched |
| KeyManager.Manager.ShredKey | internal/lifecycle/manager.go:595-653 | succeeds exactly on a stored version, removes that row and no other, and invalidates the key |
| KeyNode.RunKeepsCoherent | internal/lifecycle/manager.go:342-373 | in every run a cached entry equals its row, or differs in state and deletedAt only where the row is soft-deleted |
| KeyNode.DecryptIgnoresCache | internal/lifecycle/manager.go:721-735 | a decrypt lookup decides, and yields the material, as an uncached read does, unless a negative entry is live |
| KeyNode.DecryptIsRightExactly | internal/lifecycle/manager.go:342-373 | the decision is that of an uncached read if and only if no live negative entry hides a stored row |
| KeyNode.SoftDeletedEncryptsExactly | internal/lifecycle/manager.go:745-798 | right after a soft deletion the key still encrypts on a node if and only if its Active row was cached there |
| KeyNode.NegativeAnswersAreRecent | internal/lifecycle/cache.go:63-83 | a negative answer was true at some instant of the last five seconds |
| KeyNode.NegativeLastsFiveSeconds | internal/lifecycle/cache.go:63-83 | a lookup in vain is answered from the cache for exactly five seconds, whatever the store holds by then |
| KeyNode.LookupCaches | internal/lifecycle/manager.go:370-372 | a lookup of a stored row leaves it cached |
| KeyNode.CreatedIsFoundExactly | internal/lifecycle/manager.go:219-243 | CreateKey and ImportKey do not clear negative entries: the new key is found at once if and only if none is live |
| KeyNode.ShredIsFinal | internal/lifecycle/manager.go:595-653 | after a shred every later decrypt lookup of the version fails, in every run that does not create or import the id again, whatever was cached |
| Ciphertext.SafeUint32 | internal/crypto/versioned_encrypt.go:24-29 | fits 32 bits and is the identity on what fits |
| Ciphertext.DecodeUndoesEncode | internal/crypto/versioned_ciphertext.go:37-62 | decoding returns version, nonce and body |
| Ciphertext.EncodeUndoesDecode | internal/crypto/versioned_ciphertext.go:37-62 | re-encoding an accepted ciphertext gives the same bytes |
| Ciphertext.DecodesExactly | internal/crypto/versioned_ciphertext.go:52-62 | a ciphertext is taken apart if and only if it has 32 bytes or more |
| Ciphertext.EncodeVersioned | internal/crypto/versioned_ciphertext.go:37-48 | the buffer filled by copies is the format: the version big-endian in four bytes, the nonce, the body |
| Ciphertext.DecryptUndoesEncrypt | internal/crypto/versioned_encrypt.go:36-129 | with a 32-byte key, decryption returns the plaintext and the version |
| Ciphertext.UnwrapUndoesWrap | internal/seal/kek.go:78-90 | unwrapping a wrapped data key returns it |
| Core.Service.RequireUnsealed | internal/service/core.go:421-430 | VaultSealed exactly when emergency-sealed or sealed, AccessDenied exactly when neither and the caller is not allowed |
| Core.Service.EncryptData | internal/service/core.go:332-371 | refines Encrypt and the lookup it leaves in the cache |
| Core.Service.DecryptData | internal/service/core.go:374-416 | refines Decrypt, routed by the version in the ciphertext |
| Core.Service.ReEncryptData | internal/service/core_v12.go:238-282 | refines decrypt-then-encrypt under two permissions, and the lookups it leaves in the cache |
| Core.DeniedGetsNothing | internal/service/core.go:460-473 | without permission every operation returns an error and leaves the system, cache included, as it was; re-encryption needs both permissions |
| Core.SealedServesNobody | internal/service/core.go:421-430 | on a sealed or emergency-sealed vault every operation returns VaultSealed and changes nothing |
| Core.OtherMasterKeyOpensNothing | internal/seal/kek.go:88-90 | with an AEAD that rejects other keys, nothing encrypts or decrypts under a master key other than the one that wrapped the keys |
| Core.OtherDataKeyOpensNothing | internal/crypto/versioned_encrypt.go:87-129 | with such an AEAD a ciphertext does not open under a stored key that unwraps to another data key |
| Core.CiphertextLayout | internal/crypto/versioned_encrypt.go:36-80 | a ciphertext is 32 bytes longer than its plaintext and carries its nonce after the version |
| Core.CiphertextsSurvive | internal/service/core.go:332-416 | a ciphertext decrypts to its plaintext after any run of rotations, soft deletes, restores, lookups, cache clears, seals and unseals with the same master key, and shreds of other versions |
| Core.DataKeysSurvive | internal/service/core.go:294-324 | so does the wrapped key of GenerateDataKey |
| Core.ReEncryptionsSurvive | internal/service/core_v12.go:238-282 | ReEncrypt's output keeps decrypting, under the destination key, to what the source held |
| Core.OversizedVersionIsLost | internal/crypto/versioned_encrypt.go:24-29 | a ciphertext of a version beyond 32 bits decrypts on no node: the bound on the version is needed |
| Core.EncryptSucceedsExactly | internal/service/core.go:332-371 | with an open vault and keys wrapped under its master key, Encrypt succeeds if and only if the key lookup does |
| Core.ActiveKeysRoundTrip | internal/seal/kek.go:78-90 | from an empty store, in every run whose keys WrapDEK made, an Active version encrypts, and the ciphertext decrypts after every further run that spares the version |
| Transactions.Serializable | internal/storage/pg_kvstore.go:276-291 | every interleaving of Rotate, SoftDelete, Restore and Shred transactions leaves the store that the committed ones give when run alone in commit order, each succeeding on the same version |
| Transactions.AloneCommits | internal/lifecycle/manager.go:428-562 | a transaction that nobody disturbs commits whenever the operation succeeds, and does what it does |
| Transactions.CommitIsAtomic | internal/lifecycle/manager.go:476-562 | the writes computed from the locked row are those of the atomic operation |
| Transactions.OneActive | internal/lifecycle/manager.go:428-562 | at every point of every interleaving at most one version of a key is Active |
| Transactions.VersionsAreConsecutive | internal/lifecycle/manager.go:428-562 | concurrent rotations issue consecutive numbers above the starting index, each once |
| ClusterCache.RunKeepsHealthy | internal/storage/pg_listener.go:99-113 | in every run, with any number of loads under way, each positive or negative entry of a listening node that is wrong has its key queued there |
| ClusterCache.DrainingRestoresAgreement | internal/lifecycle/manager.go:552-559 | once the queue is drained every positive entry agrees up to a soft-delete mark, and a stale negative entry can only hide a version 1 |
| ClusterCache.ClearAfterListenRepairs | internal/storage/pg_listener.go:58-79 | clearing after the new LISTEN is in force repairs any node |
| ClusterCache.ListenIsHealthyExactly | internal/storage/pg_listener.go:58-97 | a node that starts to listen is in order if and only if every answer it has cached is right |
| ClusterCache.QuietGapIsHarmless | internal/storage/pg_listener.go:64-97 | after losing the session, clearing the cache and any events, the new LISTEN leaves the node in order if no key it looked up in the gap was rotated, restored or shredded in the rest of the gap |
| ClusterCache.ReconnectGapServesShredded | internal/storage/pg_listener.go:74-77 | on any cluster, a row a disconnected node holds and that is shredded elsewhere is still served after the new LISTEN, with an empty queue |
| ClusterCache.FillIsHealthyExactly | internal/lifecycle/manager.go:356-372 | caching an answer, a row or its absence, keeps a node in order if and only if the answer is still right or its key is still queued |
| ClusterCache.OnlyOvertakenFillsFail | internal/lifecycle/manager.go:356-372 | only a load overtaken by a delivery can fail that test |
| ClusterCache.OvertakenFillServesShredded | internal/lifecycle/manager.go:370-372 | on any cluster, caching a row shredded since it was read, with its notification handled, always breaks the node |
| ClusterCache.OvertakenMissHidesRotated | internal/lifecycle/manager.go:357-362 | so does caching the absence of a version that a rotation has created since |
| ClusterCache.OvertakenFillIsReachable | internal/lifecycle/manager.go:356-372 | every node in order without pending notifications gets there, for every version and every announced operation on its key |
| RotationDaemon.ScanExpiredKeys | internal/lifecycle/daemon.go:123-158 | the loop returns exactly the listed rows that are Active, periodic and with a rotation date not after now, in their order and number |
| RotationDaemon.SelectIsScan | internal/lifecycle/daemon.go:123-158 | listed in any order, those rows are the keys of the protocol's Select step, each once |
| RotationDaemon.SelectsExactly | internal/lifecycle/daemon.go:123-158 | in every reachable world a row the scan saw is listed if and only if it is Active, has a period and was created at least that long ago |
| RotationDaemon.ListedKeyIsRotated | internal/lifecycle/daemon.go:161-167 | in every reachable world handling a listed key that is still Active gives it a new Active version with the new material, created now |
| RotationDaemon.DueKeyIsRotated | internal/lifecycle/daemon.go:88-120 | a pass of a node that finds the lock free rotates a key it handles that is Active and was created a period ago or more |
| RotationDaemon.AutomaticRotationsAreSpaced | internal/lifecycle/daemon.go:88-120 | in every interleaving of daemon nodes and manual operations, two automatic rotations of a key are at least its period apart |
| Approval.MemoryApprovalStore.CleanupExpired | internal/auth/approval_store_memory.go:108-121 | exactly the pending tickets past their expiry become Expired at the given time, and are counted; no other ticket changes |
| Approval.HandleCreateApproval | internal/api/handler_approval.go:65-113 | when a ticket is created, and every field of it, the expiry after 24 hours or the given number included |
| Approval.HandleApprove | internal/api/handler_approval.go:184-230 | when the vote is accepted, and that the approver is then stored last; when it is a self-approval |
| Approval.HandleReject | internal/api/handler_approval.go:269-293 | accepted exactly while pending, and what then changes in the ticket; not-found for an unknown ticket |
| Approval.QuorumHolds | internal/api/handler_approval.go:184-227 | in every interleaving, stale write-backs included, approvers are distinct, never the requester, each asked to approve before the ticket expired, and a ticket is Approved exactly when it has its quorum |
| Approval.UninterruptedVote | internal/api/handler_approval.go:184-290 | a read written back at once is the vote of the handler methods |
| Approval.UninterruptedResolutionIsFinal | internal/api/handler_approval.go:184-290 | in every run whose reads are written back at once, with creations and sweeps between them, a ticket resolved at some point is the same at the end |
| Approval.FinalIffNoStaleCopy | internal/auth/approval_store_memory.go:54-65 | a resolved ticket can never change again if and only if no handler holds a different copy of it |
| Approval.StaleApprovalOverridesRejection | internal/api/handler_approval.go:184-290 | such a copy is reachable: an approval read before a rejection and written after it wins |
| Approval.CountedIffNoCopyLacks | internal/api/handler_approval.go:211-224 | a stored approval stays counted in every continuation if and only if no handler holds a copy of the ticket without it |
| Approval.ApprovalIsLost | internal/api/handler_approval.go:184-227 | such a copy is reachable: of two approvals read before either is written, both accepted, one is lost |
| Approval.UninterruptedApprovalsCount | internal/api/handler_approval.go:184-290 | in every run whose reads are written back at once a stored approval is still counted at the end |
| RateLimiter.Limits.Allow | internal/api/ratelimit.go:62-99 | decision and new state of one request, as the run lemmas below characterise them |
| RateLimiter.Limits.EvictIdle | internal/api/ratelimit.go:67-73 | the loop removes exactly the buckets idle for more than ten minutes |
| RateLimiter.SweepsExactly | internal/api/ratelimit.go:66-74 | a bucket is dropped if and only if the last sweep is over 300 s ago and the bucket idle for over 600 s |
| RateLimiter.RefusedExactly | internal/api/ratelimit.go:76-99 | without eviction a request is refused if and only if, since some earlier request of its IP, the admissions plus this one would exceed burst + rate times the time elapsed |
| RateLimiter.RefusedExactlyWithEviction | internal/api/ratelimit.go:62-99 | the same of the limiter as it is, if rate * 600 >= burst |
| RateLimiter.EvictionIsInvisible | internal/api/ratelimit.go:66-74 | if rate * 600 >= burst every decision is that of a limiter that never evicts |
| RateLimiter.WindowBoundWithoutEviction | internal/api/ratelimit.go:76-99 | without eviction at most burst + rate * (t - s) requests of one IP are admitted in any window [s, t] |
| RateLimiter.EvictionHiddenExactly | internal/api/ratelimit.go:62-99 | eviction changes no decision of any run if and only if rate * 600 >= burst |
| RateLimiter.WindowBoundExactly | internal/api/ratelimit.go:62-99 | the window bound holds for every run if and only if rate * 600 >= burst |
| AuditChain.AuditLogger.ChainEntry | internal/audit/logger.go:236-246 | the critical section extends the chain by the next link and number |
| AuditChain.LinkVerifies | internal/audit/logger.go:313-334 | every link of a chain verifies |
| AuditChain.ParseFile | internal/audit/query.go:107-148 | the loop keeps exactly the decodable lines that match, in order |
| AuditChain.Query | internal/audit/query.go:41-80 | the answer is some ascending arrangement of the matches, cut to its last entries and verified line by line |
| AuditChain.AnswersAreLines | internal/audit/query.go:73-86 | every answer is a stored line, flagged valid exactly when its own signature checks |
| AuditChain.EveryCallIsChained | internal/audit/logger.go:236-246 | the chain holds the entry of every Record call, in the order of the critical sections |
| AuditChain.FilteredQueryIsExact | internal/audit/query.go:41-165 | an unlimited query of a settled run returns, ascending, each once and valid, exactly the entries in the filter's time range with its actor and action |
| AuditChain.QueryReturnsChain | internal/audit/logger.go:223-283 | for every interleaving of Record calls, once all writes are done the query returns the chain: consecutive numbers, all valid, each predecessor the signature before, the first the anchor, the last the logger's |
| AuditChain.EndFixesPayloads | internal/audit/chain.go:62-75 | two full chains with one end and different payloads yield, among the inputs they hashed, two with one keyed hash or one that hashes to the anchor |
| AuditChain.FullChainIsTheRun | internal/audit/logger.go:313-345 | a log that passes the full chain check and ends in the logger's signature holds exactly the run's payloads, if the keyed hash separates what the two hashed |
| AuditChain.ResultsAreFullChain | internal/audit/query.go:41-86 | what an unlimited query of a settled run returns is a full chain that ends in the logger's signature |
| AuditChain.SameEndSameEntries | internal/audit/chain.go:62-75 | two runs end in one signature if and only if they recorded the same entries, if the keyed hash separates what they hashed |
| AuditChain.TamperingFlagsNoOriginal | internal/audit/query.go:73-86 | whatever lines are removed, altered or inserted, the query flags every original line as valid |
| PrefixScan.NextPrefix | internal/storage/postgres.go:157-170 | the backward loop returns Bound, the recursive upper bound of the prefix |
| PrefixScan.BoundNone | internal/storage/postgres.go:157-170 | there is no bound exactly for the empty prefix and prefixes of 0xff bytes |
| PrefixScan.RangeIsPrefix | internal/storage/postgres.go:84-108 | prefix <= k < nextPrefix(prefix) exactly when k starts with prefix |
| PrefixScan.RangeScan | internal/storage/postgres.go:84-108 | the range query returns the rows with the prefix, and nothing when there is no bound |
| PrefixScan.CursorScan | internal/storage/boltdb.go:100-121 | seek-and-step returns exactly the rows with the prefix |
| PrefixScan.ScansAgree | internal/storage/boltdb.go:100-121 | both backends return the same rows if and only if the prefix has a byte other than 0xff or no key starts with it |
| Paging.ListingIsUnique | internal/storage/memory.go:191-199 | sorted by name, a set of rows has one listing, so pages are stable |
| Paging.ScanPrefixPaged | internal/storage/memory.go:182-217 | returns the page of the listing, in ascending order of names, and the total |
| Paging.ListKeyIDs | internal/lifecycle/manager.go:1054-1089 | the paged loop returns every key id once, as the one-shot form does |
| Paging.CountKeysPaged | internal/lifecycle/manager.go:995-1026 | the paged count is the number of distinct key ids |
| Reaper.ReapExpiredSoftDeletes | internal/lifecycle/manager.go:897-947 | the loop performs one pass and reports each deleted version once, each soft-deleted at or before the cutoff |
| Reaper.PassDeletesOnlyOverdue | internal/lifecycle/manager.go:920-940 | a pass deletes only versions soft-deleted at or before the cutoff and changes nothing else |
| Reaper.IdlePassIffClean | internal/lifecycle/manager.go:897-947 | a pass deletes nothing if and only if no version was soft-deleted at or before the cutoff |
| Reaper.RepeatingEmptiesBin | internal/lifecycle/manager.go:897-947 | repeating passes terminates with exactly the versions gone that were soft-deleted at or before the cutoff |
| Reaper.KeptUntilCutoff | internal/lifecycle/manager.go:924-930 | a version soft-deleted at time t survives every pass with an earlier cutoff and is gone after repeated passes with a later or equal one, whatever ran in between that did not touch it |
| Reaper.OnePassSufficesExactly | internal/lifecycle/manager.go:910-946 | one pass suffices for every store of n rows if and only if n is at most 1000 |
| Reaper.DeletedWasOverdue | internal/lifecycle/manager.go:914-940 | whatever other writers do in between, a pass deletes only versions that were overdue when their page was read |
| Reaper.DeletedIsStillOverdue | internal/lifecycle/manager.go:914-940 | such a version is still overdue, with the row the page showed, unless it was restored or its key created or imported again since |
| Reaper.RestoredRowIsReaped | internal/lifecycle/manager.go:932-935 | a row restored between the page read and its turn is shredded all the same |

## Left out

- AES-GCM, SHA-256, HMAC, SM2/SM3/SM4, RSA and ECDSA internals: functions with stated laws; the standard suite with 32-byte keys only.
- JSON and hex: an injective codec, or the identity; malformed rows, malformed hex and unreadable log files are not modelled.
- Secure buffers: byte sequences; wiping, copying and timing are not observable in the model, and nil pointers are not distinguished from missing values.
- Integer widths of Go's `int`, `time.Duration` overflow for rotation periods beyond 292 years, and wrap-around of the 64-bit audit counter.
- RateLimiter.Limits.Allow: exact reals instead of float64, one clock reading for the whole eviction; a negative refill rate is outside the exact-condition lemmas.
- `MemoryStore.WithTx` does not roll back; the model follows the all-or-nothing contract of the store interface.
- KeyManager.Manager.RestoreKey: the cache is invalidated at the commit, not before it inside the transaction.
- KeyNames.NamedPut: a record is never empty and a row name never is, so the deletion on an empty value and the refusal of an empty name do not arise.
- KeyManager.Manager.CreateKey: one atomic step on a node; its two writes are taken apart in the module IndexRace.
- Transactions.Serializable: CreateKey and ImportKey are not transactions and do not take part; deadlock detection is an arbitrary abort.
- Fresh ids: run properties assume that CreateKey and ImportKey are called with unused ids, which the code does not check; the key listings assume no write by others between pages.
- ClusterCache.RunKeepsHealthy: assumes the node's LISTEN session stays up and that no overtaken load fills the cache; the exact conditions are lemmas beside it.
- RotationDaemon.AutomaticRotationsAreSpaced: rotations are atomic steps, which Transactions.Serializable justifies, and the distributed lock is exclusive.
- Paging.CountKeysPaged: derived from the id listing instead of repeating the same page loop; the order of names is by character code, not by a database collation.
- Asymmetric keys, signatures, MACs, transit unwrapping, Core.GenerateDataKey as an object method, policies and audit records of the service: would only add easy members or foreign calls.
- Audit file rotation and pruning, syslog, the persisted anchor and a restart of the sequence counter, HMAC-SM3 chains.
- HTTP, gRPC, MCP, admin UI, authentication, configuration, HSM backends, metrics, tenants, circuit breakers and TOTP.
