# Hermes: verified models of its state machines, parsers and merge loops

Hermes is a control plane for self-hosted applications. Most of it moves rows between PostgreSQL and Kubernetes;
this project models the parts where the state, the parsing or the arithmetic is hard, and proves what these parts
are for. A database table is a map or a sequence, the cluster is a map from instances to replica counts, and the
clock is a number. A handler that changes rows is a method of a class whose fields are those tables, proved
against a function on values; the theorems are lemmas about these functions and about runs of them.

| file | what it models |
|---|---|
| `RedisFrames.dfy`, `RedisBackup.dfy` | the Redis dump format, and the dump and restore loops on a keyspace |
| `Chaos.dfy`, `ChaosInterleaving.dfy`, `ChaosRuns.dfy` | chaos experiments: the operations, their single effects interleaved with failures and dying tasks, and what every run comes to |
| `EnvPool.dfy`, `EnvStore.dfy`, `EnvOverlap.dfy` | the environment pool of a project: specification and invariants, the handlers, and when a key is both local and linked |
| `EnvResolve.dfy` | the effective environment: merge loops, linking, the build environment, serverless inheritance |
| `JsScanner.dfy` | the JavaScript dependency scanner |
| `RefreshTokens.dfy`, `TokenInterleaving.dfy`, `PlatformSessions.dfy` | rotating refresh tokens: the operations, and their statements interleaved |
| `LogTail.dfy` | the two loops that tail a build log |
| `SafeResolve.dfy` | resolving a path inside a volume |
| `UploadQuota.dfy` | the size limits of the object storage |
| `BackupRetention.dfy` | pruning database backups |
| `Common.dfy`, `Text.dfy` | shared datatypes and string functions |

Foreign effects are parameters. Examples are the replies of SCAN, the answers of the queries in a log stream,
whether a cluster call succeeds, fresh ids and hashes, and Unicode upper-casing (`upper`). Decryption is partial:
a stored value is `Some(plaintext)`, or `None` if it can no longer be decrypted. Fixed-width arithmetic is explicit
where it matters: `usize as u32`, the two's complement of an `i64`, and the wrapping `i64` sum of the quota checks.

## Where the code falls short of its own description

Each of these is kept as the code has it. A lemma says exactly when the promise holds, or exhibits the failure.

- A dump and restore reproduce the keyspace exactly when SCAN returned every key and no key had 0 ms left: PTTL 0
  is written as TTL 0, which RESTORE reads as "never expires" (`RedisBackup.DumpThenRestore`).
- A frame whose key or value has 2^32 bytes or more is not read back, since the length is cast to `u32`
  (`RedisFrames.RoundTripExactly`).
- The comment at `backend/src/utils/app_env.rs:74-75` speaks of taking over a manual variable. A first publish takes
  over any variable of the suggested key, another resource's included (`EnvPool.TakesOverExactly`).
- The same holds for manual, BaaS and bucket variables (`EnvPool.SetTakesOverExactly`, `EnvPool.BaasTakesOverExactly`,
  `EnvPool.BucketTakesOverExactly`). A login at a service that has no secret creates one under the default key, and
  can so take away the secret of another service of the project (`EnvPool.RotateTakesSecretExactly`).
- With `inherit` set, the links of a serverless instance are meant to be redundant. They are exactly when pool
  variables whose keys differ only in case have one value, or the instance has its own value for that key
  (`EnvResolve.InheritIgnoresLinksExactly`). The keys of published BaaS variables are not upper-cased, so other pools
  are reachable (`EnvResolve.ClashIsReachable`).
- The comment at `backend/src/controllers/project_env_controller.rs:298-302` says that a key cannot be both local and
  linked. Setting an own variable and renaming a pool variable can bring that back; nothing else does
  (`EnvOverlap.RunKeepsApartExactly`).
- The scanner jumps over seven characters at a `require`, so a `require` that begins with the last two of them is
  missed (`JsScanner.SkippedRequireIsLost`); nothing else is (`JsScanner.ScanExactly`).
- A chaos experiment is recorded after the fault is applied. If the process dies in between, or the insert fails,
  the instance keeps its reduced replicas with no experiment that would restore them
  (`ChaosRuns.DeathStrandsAnInstance`). `ChaosRuns.ReplicasExactly` says when any instance has its
  minimum.
- The update that closes an experiment is not guarded by its status. The later of two reverts names the final status
  and end time, so a cancelled experiment can end `completed` (`ChaosRuns.CancelledCanEndCompleted`). A closed
  row is stable exactly when no such revert is in flight (`ChaosRuns.ClosedRowIsFrozenExactly`).
- A suspension or a password reset deletes the stored refresh tokens, but a refresh or a login that is past its
  account check stores one afterwards (`TokenInterleaving.RefreshOutlivesReset`, `TokenInterleaving.LoginOutlivesReset`).
  Sessions end exactly when no request of the user is in flight (`TokenInterleaving.RevocationEndsSessionsExactly`).
- The lines of a streamed log are those of the log exactly when every append but the last ends in a newline
  (`LogTail.LinesAreTheLogExactly`).
- The quota checks add two `i64` values, count the object that is about to be replaced, and do not look at the sign of
  the declared size. A sum that wraps passes its check and breaks the limit, unless the replaced object makes up for it
  (`UploadQuota.NonNegativeRunExactly`, `UploadQuota.WrappingUploadBreaksLimit`). A negative size makes room for an
  upload that a later delete or replacement leaves above the limit (`UploadQuota.NegativeUploadBreaksLimit`,
  `UploadQuota.NegativeReplacementBreaksLimit`). `UploadQuota.RunKeepsInvExactly` says when the limits hold.
- Backup file names have a resolution of one second. Two backups in one second share a file, which then holds the dump
  of one of them, and pruning the older one removes it (`BackupRetention.SharedNameLosesDump`). A failed dump can leave a
  file without a row, and can destroy or remove the file of a row. `BackupRetention.RunMatchesExactly` names the
  operations that keep files and rows in step.
- A negative `backup_count` makes the OFFSET query fail, so nothing is pruned (`BackupRetention.PrunesNothingExactly`).

## Model

| member | source | states |
|---|---|---|
| `RedisFrames.RoundTripExactly` | backend/src/controllers/database_controller.rs:976-986 | decoding an encoded entry list gives the list back if and only if every key and value length is below 2^32 |
| `RedisFrames.ParseIsSound` | backend/src/controllers/database_controller.rs:1018-1032 | what the reader accepts is exactly one frame of the writer at the front of the input |
| `RedisFrames.ParseIsComplete` | backend/src/controllers/database_controller.rs:1018-1032 | a written frame is read back, with any bytes behind it |
| `RedisFrames.CutFrame` | backend/src/controllers/database_controller.rs:1021-1030 | a frame that lost any part of its end is not read at all |
| `RedisFrames.TruncatedFile` | backend/src/controllers/database_controller.rs:1018-1037 | a file cut anywhere decodes to exactly the entries whose frames are complete in what is left |
| `RedisFrames.DecodeIsCanonical` | backend/src/controllers/database_controller.rs:1018-1037 | on arbitrary bytes the parsed entries, written again, are a prefix of the input; no complete frame follows it; each entry consumed at least 16 bytes |
| `RedisFrames.FrameLayout` | backend/src/controllers/database_controller.rs:981-985 | the fields of a written frame lie at fixed places: lengths, key, time to live and value, in this order |
| `RedisFrames.LittleEndian32` | backend/src/controllers/database_controller.rs:981 | a length is written with the least significant byte first |
| `RedisFrames.LittleEndian64` | backend/src/controllers/database_controller.rs:983 | so is a time to live, as a two's complement |
| `RedisBackup.Redis.DumpToFile` | backend/src/controllers/database_controller.rs:966-991 | the file is the magic and one frame for each scanned key that still exists, in scan order, with negative PTTL written as 0 |
| `RedisBackup.Redis.DumpPage` | backend/src/controllers/database_controller.rs:976-986 | a page adds the frames of its keys behind those of the earlier pages |
| `RedisBackup.ReadFrame` | backend/src/controllers/database_controller.rs:1019-1032 | the guards and slices of one turn stay in bounds and read a frame exactly where one is complete |
| `RedisBackup.Redis.RestoreFromFile` | backend/src/controllers/database_controller.rs:1003-1038 | without the magic nothing changes; with it the keyspace is the replay, from empty, of the entries the file decodes to, up to one that Redis rejects |
| `RedisBackup.LastEntryWins` | backend/src/controllers/database_controller.rs:1034-1036 | of the entries of one key in a file, whatever wrote it, the last decides value and expiry |
| `RedisBackup.OtherKeysStay` | backend/src/controllers/database_controller.rs:1034-1036 | a key that no entry names is as before |
| `RedisBackup.DumpInScanOrder` | backend/src/controllers/database_controller.rs:970-989 | the entries of a dump are those of its first keys followed by those of the rest, at any cut |
| `RedisBackup.ScannedExactly` | backend/src/controllers/database_controller.rs:970-989 | the keys dumped are those of all replies of the scan |
| `RedisBackup.ReplayOfDump` | backend/src/controllers/database_controller.rs:970-989 | replaying the entries of a dump gives the scanned part of the keyspace, however often SCAN repeated a key |
| `RedisBackup.DumpThenRestore` | backend/src/controllers/database_controller.rs:956-1039 | dump, flush and restore give the keyspace back if and only if every key was scanned and none had 0 ms left |
| `RedisBackup.TruncatedBackup` | backend/src/controllers/database_controller.rs:1018-1037 | a backup cut anywhere behind the magic restores without error, and only to values that were in the store |
| `Chaos.ClampDuration` | backend/src/utils/chaos.rs:19-24 | the duration is between 5 and 300 seconds, the nearest bound if it was outside, 60 if it was not given |
| `Chaos.ChaosService.StartChaos` | backend/src/utils/chaos.rs:67-188 | which requests are accepted, and exactly when each error refuses one; an accepted one scales, opens the incident and stores the row; a refused one changes nothing |
| `Chaos.StartEffect` | backend/src/utils/chaos.rs:67-188 | an accepted start adds one row that began now and is to be reverted after the duration asked for, if that is 5 to 300 seconds; a scale-down sets the replicas asked for, or 0; all but a pod kill open one incident; nothing else changes |
| `Chaos.ChaosService.RevertExperiment` | backend/src/utils/chaos.rs:192-224 | a running experiment has its replicas restored, its row closed and its instance's incidents resolved; any other id changes nothing |
| `Chaos.ChaosService.ResolveChaosIncidents` | backend/src/utils/chaos.rs:55-63 | the open incidents of the instance are resolved now, all others are as before |
| `Chaos.ResolveExactly` | backend/src/utils/chaos.rs:55-63 | the incidents newly resolved get the present time, those resolved earlier keep theirs |
| `Chaos.ChaosService.CancelChaos` | backend/src/controllers/chaos_controller.rs:120-138 | a cancel succeeds if and only if that experiment of that instance runs, and then it is a revert to `cancelled` |
| `Chaos.ChaosService.WorkerTick` | backend/src/utils/chaos.rs:248-257 | one tick closes exactly the running experiments whose `revert_at` is not in the future, and leaves none of these; every other row, and the replicas and incidents of an instance without such an experiment, are as before |
| `ChaosRuns.RevertEffect` | backend/src/utils/chaos.rs:192-224 | what a revert changes: status and end time of its experiment, the replicas of its instance back to the minimum if it was a scale-down, the open incidents of its instance, which are resolved now; and that nothing else changes |
| `ChaosInterleaving.StepKeepsInv` | backend/src/utils/chaos.rs:67-224 | every single effect of a start or revert, failed or not, and every death of a task, keeps the invariants on rows, tasks, replicas and incidents |
| `ChaosInterleaving.RunKeepsInv` | backend/src/utils/chaos.rs:67-224 | so does every run, whatever the interleaving |
| `ChaosRuns.QuiescentReplicas` | backend/src/utils/chaos.rs:118-131 | in every run, failures included: with nothing in flight and no running scale-down, an instance has `replicas_min` replicas if and only if no failure left it away from them since it was last scaled back |
| `ChaosRuns.ReplicasExactly` | backend/src/utils/chaos.rs:118-131 | at any point of any run an instance has `replicas_min` replicas if and only if it was never scaled, or the last successful scaling was a revert's, or a start's to that very number |
| `ChaosRuns.ReliableRunStrandsNothing` | backend/src/utils/chaos.rs:67-224 | a run in which no call fails and no task dies strands no instance and leaves no incident behind |
| `ChaosRuns.ReliableReplicas` | backend/src/utils/chaos.rs:117-131 | hence without failures every instance is back at `replicas_min` once nothing is in flight and no scale-down runs |
| `ChaosRuns.OpenIncidentIsExplained` | backend/src/utils/chaos.rs:41-63 | without failures an open CHAOS incident has a running experiment on its instance, or a start or revert in flight |
| `ChaosRuns.ReachableRows` | backend/src/utils/chaos.rs:161-251 | in every reachable state a row is `running` if and only if `ended_at` is empty, and then `revert_at` is 5 to 300 seconds after the start; a row the worker completed did not end before its `revert_at` |
| `ChaosRuns.ClosedStaysClosed` | backend/src/utils/chaos.rs:215-220 | an experiment that left `running` never returns to it, even if several tasks revert it at once |
| `ChaosRuns.ClosedRowIsFrozenExactly` | backend/src/utils/chaos.rs:192-220 | a closed row, its final status and end time included, is the same in every continuation if and only if no revert that has yet to write it is in flight |
| `ChaosRuns.CancelledCanEndCompleted` | backend/src/utils/chaos.rs:215-220 | for any running experiment there is a run in which its user cancels it, and it ends `completed` |
| `ChaosRuns.StartIsARun` | backend/src/utils/chaos.rs:67-188 | the operation that `StartChaos` performs is the run of one uninterrupted task of the machine |
| `ChaosRuns.RevertIsARun` | backend/src/utils/chaos.rs:192-224 | the same for the revert |
| `ChaosRuns.TickRecovers` | backend/src/utils/chaos.rs:237-261 | from any state with nothing in flight, the first worker tick after 300 seconds leaves nothing running, exactly the instances that are not stranded at their minimum, and no incident open, except those a failure left behind |
| `ChaosRuns.DeathStrandsAnInstance` | backend/src/utils/chaos.rs:118-171 | a run in which the process dies between scaling down and storing the row ends quiet, with no experiment, and 0 of 2 replicas |
| `EnvPool.PublishRefreshes` | backend/src/utils/app_env.rs:55-72 | a resource that published before is refreshed in place: same row, same key, same links |
| `EnvPool.PublishEffect` | backend/src/utils/app_env.rs:35-87 | after a publish the resource owns exactly one variable, with the new value, under the suggested key if it is the first; every other row and every link is unchanged |
| `EnvPool.TakesOverExactly` | backend/src/utils/app_env.rs:74-86 | a publish changes the owner of a foreign row if and only if it is the resource's first and the row has the suggested key |
| `EnvPool.SetTakesOverExactly` | backend/src/controllers/project_env_controller.rs:149-164 | setting a key by hand changes the owner of exactly the row of that key, if it was not manual |
| `EnvPool.SetManualEffect` | backend/src/controllers/project_env_controller.rs:149-164 | a manual write: its key has exactly one row, with the given value and secrecy; a row that was there keeps its id; nothing else changes |
| `EnvPool.BaasTakesOverExactly` | backend/src/utils/app_auth.rs:66-77 | publishing a service's variable changes the owner of exactly the row of that key, if it was not the service's |
| `EnvPool.BaasVarEffect` | backend/src/utils/app_auth.rs:66-77 | a service's write: the same, and the row is the service's |
| `EnvPool.BucketTakesOverExactly` | backend/src/controllers/storage_controller.rs:237-276 | a bucket changes the owner of exactly the rows at its two keys, and only on its first publish |
| `EnvPool.RotateTakesSecretExactly` | backend/src/utils/app_auth.rs:92-100 | rotating one service's secret leaves another service without one if and only if the first has none and the other's is in the same project under the default key |
| `EnvPool.RenameSurvivesRepublish` | backend/src/utils/app_env.rs:37-41 | a renamed key stays through a republish, whatever key that suggests |
| `EnvPool.RotateRefreshes` | backend/src/utils/app_auth.rs:85-102 | rotating a published secret changes its value and nothing else |
| `EnvPool.RotateEffect` | backend/src/utils/app_auth.rs:85-102 | after a rotation the service has exactly one secret row, and it holds the new secret under the key of the old one, or the default key; every other row is unchanged |
| `EnvPool.BucketHoldsCredentials` | backend/src/controllers/storage_controller.rs:222-277 | after publishing, a bucket's secret rows hold the secret key and its plain rows the app id; rows it had keep id, key and links |
| `EnvPool.FirstBucketPublish` | backend/src/controllers/storage_controller.rs:259-276 | a first publish leaves a plain row with the app id under the key that ends in `_APP_ID` and a secret row with the secret key under the one that ends in `_SECRET_KEY`, both of the bucket; every other row and every link is unchanged |
| `EnvPool.LaterBucketPublish` | backend/src/controllers/storage_controller.rs:237-257 | a later one gives each row of the bucket the secret key if it is secret and the app id if not; keys, links and all other rows stay |
| `EnvPool.DropExactly` | backend/src/utils/app_env.rs:103-109 | dropping rows of the pool takes exactly these rows and the links to them |
| `EnvPool.SetLocalRow` | backend/src/controllers/env_variable_controller.rs:84-98 | an own variable is the one row of its key, with the given value and secrecy; no other row changes |
| `EnvPool.OpKeepsInv` | backend/src/utils/app_env.rs:43-112 | every pool, link and local operation keeps one row per (project, key), one row per publishing resource, one secret per service, no dangling or cross-project link, one local row per (instance, key) |
| `EnvPool.RunKeepsInv` | backend/src/controllers/project_env_controller.rs:134-328 | so does every run of these operations |
| `EnvPool.ReachableTables` | backend/src/controllers/project_env_controller.rs:134-328 | hence they hold in all tables that a run from empty ones can reach |
| `EnvOverlap.SetLocalExactly` | backend/src/controllers/env_variable_controller.rs:84-98 | setting an own variable keeps "never both local and linked" if and only if the instance links no variable of that key |
| `EnvOverlap.RenameExactly` | backend/src/controllers/project_env_controller.rs:364-374 | a rename keeps it if and only if no instance that links the variable has its own of the new key |
| `EnvOverlap.StepKeepsApartExactly` | backend/src/controllers/project_env_controller.rs:298-328 | every other operation keeps it |
| `EnvOverlap.RunKeepsApartExactly` | backend/src/controllers/project_env_controller.rs:298-328 | over every run no instance both owns and links a key, at any time, if and only if every own write and rename is safe at its time |
| `EnvStore.CleanEnvKey` | backend/src/controllers/env_variable_controller.rs:50-66 | the trimmed, upper-cased key with underscores for spaces is accepted if and only if it is an identifier |
| `EnvStore.EnvStore.UpsertRow` | backend/src/controllers/project_env_controller.rs:149-164 | the upsert on (project, key): an existing row keeps its id and gets the new value, secrecy and source, otherwise the row is new |
| `EnvStore.EnvStore.PublishProjectEnv` | backend/src/utils/app_env.rs:43-87 | the lookup by owner and the upsert perform `Publish`, and the returned row is owned by the resource |
| `EnvStore.EnvStore.UnpublishProjectEnv` | backend/src/utils/app_env.rs:91-112 | every row of the resource and every link to one is gone; the result is the set of instances that had linked them |
| `EnvStore.EnvStore.SetProjectEnv` | backend/src/controllers/project_env_controller.rs:145-164 | an invalid key changes nothing; a valid one is created or overwritten as a manual variable |
| `EnvStore.EnvStore.DeleteProjectEnv` | backend/src/controllers/project_env_controller.rs:195-220 | only a variable of that project is deleted, its links with it, and exactly the instances that had linked it are returned |
| `EnvStore.EnvStore.RenameProjectEnv` | backend/src/controllers/project_env_controller.rs:348-374 | a rename succeeds if and only if the row is in the project and no other row has the key; a taken key is reported as such |
| `EnvStore.EnvStore.LinkProjectEnv` | backend/src/controllers/project_env_controller.rs:282-331 | a link succeeds if and only if the variable is in the instance's project; the local variable of that key, reported if there was one, is gone |
| `EnvStore.EnvStore.UnlinkProjectEnv` | backend/src/controllers/project_env_controller.rs:422-442 | exactly that link is removed |
| `EnvStore.EnvStore.PublishBaasVar` | backend/src/utils/app_auth.rs:57-77 | the variable is upserted on (project, key) with the service as owner |
| `EnvStore.EnvStore.RotateSecret` | backend/src/utils/app_auth.rs:85-102 | the fresh secret is stored under the key of the service's present secret, or the default key |
| `EnvStore.EnvStore.GetOrCreateSecret` | backend/src/utils/app_auth.rs:30-51 | an existing secret is returned and nothing changes; only if there is none is one created |
| `EnvStore.EnvStore.PublishBucketCredentials` | backend/src/controllers/storage_controller.rs:222-277 | the refresh loop and the two first inserts perform `PublishBucket` |
| `EnvStore.EnvStore.SetEnvVariable` | backend/src/controllers/env_variable_controller.rs:77-98 | a valid key of a known instance is upserted, otherwise nothing changes |
| `EnvStore.LocalOfRequest` | backend/src/controllers/env_variable_controller.rs:79-80 | the stored key is the cleaned one, and a value counts as secret unless the request says it is not |
| `EnvStore.EnvStore.SetEnvsBulk` | backend/src/controllers/env_variable_controller.rs:125-172 | the loop replaces the instance's variables as a whole, or, if any key is invalid, leaves them as they were |
| `EnvStore.EnvStore.DeleteEnvVariable` | backend/src/controllers/env_variable_controller.rs:283-298 | exactly that row goes, and its instance is returned |
| `EnvResolve.ListingIsUnique` | backend/src/utils/app_env.rs:114-118 | a map has only one key-sorted listing, so the order in which rows or hash map entries arrive cannot show |
| `EnvResolve.LessExactly` | backend/src/utils/app_env.rs:116 | the order of keys is the lexical one: a proper prefix, or the smaller character where they first differ |
| `EnvResolve.Finalize` | backend/src/utils/app_env.rs:114-118 | the result is strictly sorted by key and has exactly the entries of the map |
| `EnvResolve.ResolveEnv` | backend/src/utils/app_env.rs:180-215 | the cron resolver: for layers whose rows agree per key, the sorted result has a pair (key, value) if and only if an own row has it, or no own row has the key and a linked row has it |
| `EnvResolve.MergeOverrides` | backend/src/utils/app_env.rs:153-157 | merging a layer whose rows agree per key overrides exactly the keys it has a decryptable value for |
| `EnvResolve.LayersOverride` | backend/src/controllers/serverless_controller.rs:837-869 | three such layers: own over linked over pool, key by key |
| `EnvResolve.OrderIsIrrelevantExactly` | backend/src/utils/app_env.rs:153-157 | the rows of a layer can arrive in any order without changing the map if and only if rows of the same key agree |
| `EnvResolve.ResolutionIgnoresOrder` | backend/src/controllers/serverless_controller.rs:837-873 | with layers that agree per key, every resolver returns the same list for any order of the rows of each layer |
| `EnvResolve.LinkedLayer` | backend/src/utils/app_env.rs:143-158 | for the tables, the linked layer gives each key the value of the one linked variable of that key |
| `EnvResolve.OwnLayer` | backend/src/utils/app_env.rs:160-172 | the own layer gives each key the instance's own value |
| `EnvResolve.ResolveInstanceEnv` | backend/src/utils/app_env.rs:140-255 | from any reachable tables and for any row order, the result is the sorted list of exactly the pairs (key, own value or else linked value); with non-secret rows only, the build environment |
| `EnvResolve.LinkingWins` | backend/src/controllers/project_env_controller.rs:298-328 | after a link the variable's key has the pool value, and every other key and every other instance is unchanged |
| `EnvResolve.LinkingManyWins` | backend/src/controllers/project_env_controller.rs:298-328 | a sequence of links sets the keys of the linked variables and no others |
| `EnvResolve.UnlinkEffect` | backend/src/controllers/project_env_controller.rs:432-438 | unlinking gives the key back its own value, or none, on that instance; every other key and instance is unchanged |
| `EnvResolve.DropEffect` | backend/src/controllers/project_env_controller.rs:204-210 | deleting variables of the pool takes their keys from exactly the instances that linked them, down to their own values |
| `EnvResolve.WriteEffect` | backend/src/utils/app_env.rs:140-175 | any write to a pool row, a rename included: its new key gets the new value and its old key loses its own, on exactly the instances that link the row and have no own value there; nothing else changes |
| `EnvResolve.UpsertEffect` | backend/src/controllers/project_env_controller.rs:149-164 | a manual, BaaS, rotating or first publish: the key has the new value on the instances of the project that link it and have no own value; nothing else changes |
| `EnvResolve.UpsertElsewhere` | backend/src/controllers/project_env_controller.rs:149-164 | instances of other projects see nothing of it |
| `EnvResolve.RepublishEffect` | backend/src/utils/app_env.rs:55-72 | a republish: the new value, under the key the row has, where it is linked |
| `EnvResolve.RenameEffect` | backend/src/controllers/project_env_controller.rs:364-374 | a rename moves the value from the old key to the new one, on the instances that see it |
| `EnvResolve.RefreshBucketEffect` | backend/src/controllers/storage_controller.rs:245-257 | a refreshed bucket: its new credentials on the instances that see one of its rows; nothing else changes |
| `EnvResolve.SetLocalEffect` | backend/src/controllers/env_variable_controller.rs:84-98 | setting a local variable changes the own value of that key on that instance and no other |
| `EnvResolve.DeleteLocalEffect` | backend/src/controllers/env_variable_controller.rs:283-290 | deleting an own variable shows the linked one of that key again, and changes nothing else |
| `EnvResolve.BulkReplaces` | backend/src/controllers/env_variable_controller.rs:129-168 | after a bulk update an instance's own values are those of the list, the last of equal keys winning, and other instances are unchanged |
| `EnvResolve.BuildEnvAgreement` | backend/src/utils/app_env.rs:217-255 | the build environment has non-secret values only and no key that the full one lacks, and differs from it only where an own secret shadows a linked non-secret variable |
| `EnvResolve.ResolveServerlessEnv` | backend/src/controllers/serverless_controller.rs:831-874 | for layers whose upper-cased keys agree, the sorted result has a pair if and only if an own row has it, else a linked one, else, with `inherit`, a pool row |
| `EnvResolve.InheritIgnoresLinksExactly` | backend/src/controllers/serverless_controller.rs:839-873 | with `inherit`, no choice of links changes the resolved map if and only if pool rows with the same upper-cased key agree, or the instance has an own value for that key |
| `EnvResolve.ClashIsReachable` | backend/src/controllers/app_user_controller.rs:1209-1223 | a pool whose rows clash is reachable: a service publishes its id under one key and its secret under another that differs only in case |
| `JsScanner.ExtractJsDependencies` | backend/src/controllers/serverless_controller.rs:1332-1408 | the index loop terminates in bounds and collects exactly what the walk `Scan` finds |
| `JsScanner.ReadRequire` | backend/src/controllers/serverless_controller.rs:1337-1348 | the lookahead of `require` reads the literal that opens the call's arguments, if there is one |
| `JsScanner.ReadImport` | backend/src/controllers/serverless_controller.rs:1359-1395 | the lookahead of `import` reads the literal of a dynamic import, or behind the `from` of a static one |
| `JsScanner.SeekFrom` | backend/src/controllers/serverless_controller.rs:1380-1386 | the loop finds the first `from` between spaces before a semicolon or the end of the line |
| `JsScanner.ReadQuoted` | backend/src/controllers/serverless_controller.rs:1342-1348 | the text up to the next quote of the same kind; none if the literal is not closed |
| `JsScanner.InsertPackage` | backend/src/controllers/serverless_controller.rs:1349-1351 | the sanitized name is added unless there is none or it is a builtin |
| `JsScanner.StepKeepsClear` | backend/src/controllers/serverless_controller.rs:1335-1406 | a step of the walk never lands inside a handled keyword's reach: no `require` that is due is jumped over |
| `JsScanner.ScanExactly` | backend/src/controllers/serverless_controller.rs:1335-1407 | a name is found if and only if some `require` or `import` names it that is not an odd link of a "requirequi..." chain |
| `JsScanner.DependenciesExactly` | backend/src/controllers/serverless_controller.rs:1321-1409 | in terms of the text alone: a name is found if and only if such a keyword leads, through spaces and a parenthesis or a `from`, to a quoted literal which, less the white space around it, begins with that name and a slash or is it, with one slash inside if it is a scoped name and none if not; and the name is no builtin |
| `JsScanner.RequireIsFound` | backend/src/controllers/serverless_controller.rs:1336-1356 | every `require` of a package that is not preceded by "requi" is found |
| `JsScanner.ImportIsFound` | backend/src/controllers/serverless_controller.rs:1358-1404 | every `import` of a package is found |
| `JsScanner.SkippedRequireIsLost` | backend/src/controllers/serverless_controller.rs:1355-1356 | in the text `requirequire('a')` the second `require` is a call, and its package is not reported |
| `JsScanner.AppendKeepsDependencies` | backend/src/controllers/serverless_controller.rs:1321-1409 | appending any text to the code never removes a dependency |
| `JsScanner.SanitizedExactly` | backend/src/controllers/serverless_controller.rs:1308-1319 | the sanitized name is the first part of the stripped text, or a scope and the part after it, as it stands there; there is none if and only if the text is empty, relative, absolute, or a scope without a name |
| `JsScanner.PackageExactly` | backend/src/controllers/serverless_controller.rs:1308-1330 | a literal names a package if and only if, less exactly the white space at its ends, it begins with these parts, and they are no builtin |
| `JsScanner.DependencyNames` | backend/src/controllers/serverless_controller.rs:1310-1330 | no returned name is empty, starts with "." or "/", or is a builtin |
| `RefreshTokens.ResolveAdditionalClaims` | backend/src/controllers/app_user_controller.rs:272-283 | the claims kept are exactly the requested ones whose names are not reserved; anything but an object, null or nothing is an error |
| `RefreshTokens.AuthService.IssueTokenPair` | backend/src/controllers/app_user_controller.rs:193-208 | the token is stored with its service, user, claims and expiry |
| `RefreshTokens.AuthService.Login` | backend/src/controllers/app_user_controller.rs:543-602 | which logins succeed, and that only these store a token, with the filtered claims |
| `RefreshTokens.AuthService.RefreshToken` | backend/src/controllers/app_user_controller.rs:613-679 | a token is accepted at its own service before it expires; it is gone even if the account is then refused; its claims go into the new one |
| `RefreshTokens.AuthService.Logout` | backend/src/controllers/app_user_controller.rs:683-702 | the token is removed if it belongs to that service; an unknown one is no error |
| `RefreshTokens.AuthService.UpdateStatus` | backend/src/controllers/app_user_controller.rs:716-736 | only the two statuses are accepted; a suspension also deletes all tokens of the user, and those of other users stay as they are |
| `RefreshTokens.AuthService.ResetPassword` | backend/src/controllers/app_user_controller.rs:751-769 | a password of at least 8 bytes deletes all tokens of the user, and those of other users stay as they are; a shorter one changes nothing |
| `TokenInterleaving.StepKeepsInv` | backend/src/controllers/app_user_controller.rs:630-667 | every statement of a login, refresh, logout or revocation keeps: each stored token was issued once and not ended since, and each task carries the claims of what it consumed |
| `TokenInterleaving.HistoryIsSound` | backend/src/controllers/app_user_controller.rs:543-770 | hence the history of every interleaved run is sound |
| `TokenInterleaving.RedeemedOnce` | backend/src/controllers/app_user_controller.rs:609-640 | in every run each token is redeemed at most once, between its issue and its expiry, at its own service and for its own user |
| `TokenInterleaving.EndedIsNotRedeemed` | backend/src/controllers/app_user_controller.rs:681-767 | in every run a token stored before a suspension or reset of its user, or logged out at its service, is never redeemed after that |
| `TokenInterleaving.LiveTokenIsRedeemable` | backend/src/controllers/app_user_controller.rs:630-640 | the converse: in every run a token that since its issue was neither redeemed nor logged out at its service nor revoked for its user is stored with its service, user, claims and expiry, and can be redeemed if and only if it has not expired |
| `TokenInterleaving.BarredGetsNoToken` | backend/src/controllers/app_user_controller.rs:572-667 | in every run a user whose account is not active, and who has no request past its account check, gets no token until the account is active again |
| `TokenInterleaving.ParentOfIssue` | backend/src/controllers/app_user_controller.rs:642-667 | a refreshed token was stored after its parent was redeemed, which was live until then, and has its service, user and claims |
| `TokenInterleaving.ChainCarriesClaims` | backend/src/controllers/app_user_controller.rs:610-667 | along a refresh chain of any length service, user and claims are those of its first token |
| `TokenInterleaving.ClaimsComeFromLogin` | backend/src/controllers/app_user_controller.rs:174-283 | in every run each token ever issued ends a refresh chain that starts at an accepted login or registration, and carries exactly that request's claims less the reserved names |
| `TokenInterleaving.StoredClaimsComeFromLogin` | backend/src/controllers/app_user_controller.rs:196-208 | so does every token in the table, at any point of any run |
| `TokenInterleaving.OneSuccessor` | backend/src/controllers/app_user_controller.rs:609-640 | in every run a token has at most one successor, even if two requests present it at once |
| `TokenInterleaving.ChainAcrossRevoke` | backend/src/controllers/app_user_controller.rs:642-667 | a chain that goes on after a revocation crosses it with a refresh that redeemed before it and stored after it |
| `TokenInterleaving.RedeemedAfterRevoke` | backend/src/controllers/app_user_controller.rs:728-767 | in every run a token redeemed after a revocation goes back, in the history, to a request accepted after it, or to a login or a refresh that was in flight at it |
| `TokenInterleaving.RevocationEndsSessionsExactly` | backend/src/controllers/app_user_controller.rs:728-767 | from any reachable state: no run after a suspension or reset redeems a token of the user without a new login, if and only if no request of that user is in flight at it, or tokens expire as they are stored |
| `TokenInterleaving.RefreshOutlivesReset` | backend/src/controllers/app_user_controller.rs:642-667 | whenever a token can be refreshed, a reset can fall into the refresh, and the new token is then redeemable |
| `TokenInterleaving.LoginOutlivesReset` | backend/src/controllers/app_user_controller.rs:572-590 | whenever a user can log in, a reset can fall between the check of the old password and the storing of the token, which is then redeemable |
| `TokenInterleaving.RefreshIsARun` | backend/src/controllers/app_user_controller.rs:613-679 | the refresh that `RefreshToken` performs is the run of one uninterrupted request of the machine |
| `PlatformSessions.SessionService.RefreshSession` | backend/src/controllers/auth_controller.rs:158-199 | refreshing a platform session is the same rotation, for one service and without claims |
| `PlatformSessions.DeleteIsConsume` | backend/src/controllers/auth_controller.rs:164-170 | the DELETE of a platform refresh is the step that consumes a token, enabled in the same states and with the same effect |
| `PlatformSessions.SelectIsCheck` | backend/src/controllers/auth_controller.rs:172-179 | the look at the user is the step that checks the account |
| `PlatformSessions.InsertIsIssue` | backend/src/controllers/auth_controller.rs:184-189 | the INSERT is the step that issues the successor |
| `LogTail.TailAppBuild` | backend/src/controllers/app_controller.rs:3108-3135 | the loop sends the lines of the slices it cut, then the status that ended the build; it stops when the row is gone |
| `LogTail.TailServerlessBuild` | backend/src/controllers/serverless_controller.rs:1090-1102 | the same loop, which goes on when a query fails and moves its position even over a slice it could not cut |
| `LogTail.SlicesAreTheLog` | backend/src/controllers/app_controller.rs:3116-3124 | for a log that only grows by whole characters, the slices in order are the log as last read: nothing lost, nothing repeated |
| `LogTail.LinesOfCut` | backend/src/controllers/app_controller.rs:3119-3122 | cutting a text behind a newline keeps its lines; any other cut makes exactly one line too many |
| `LogTail.LinesAreTheLogExactly` | backend/src/controllers/app_controller.rs:3108-3135 | the lines sent are the lines of the log if and only if no append ends inside a line and is followed by another; otherwise there is one line too many for each |
| `LogTail.LinesExactly` | backend/src/controllers/app_controller.rs:3119-3122 | line k of a text is the stretch between two of its newlines, less one RETURN before the closing one |
| `LogTail.LinesPutTogether` | backend/src/controllers/app_controller.rs:3119-3122 | a text without RETURN is its lines, put together again with newlines |
| `LogTail.SentIsTheLog` | backend/src/controllers/app_controller.rs:3108-3135 | if every append ended a line, the texts sent are the stretches between the newlines of the log as last read, then the status; a log without RETURN is these texts put together again |
| `LogTail.StreamEnds` | backend/src/controllers/app_controller.rs:3108-3135 | the loop reads on exactly while the row says "building", the serverless one also while there is none, and reports the status that ended it |
| `LogTail.LastReadExactly` | backend/src/controllers/app_controller.rs:3111-3116 | the log as last read is that of the last row among the replies read |
| `LogTail.SplitCharacterIsNotSent` | backend/src/controllers/app_controller.rs:3117-3124 | nothing is sent of a slice that would begin inside a character; the serverless loop then skips it, the other reads it again |
| `SafeResolve.SafeResolve` | backend/src/controllers/volume_controller.rs:56-78 | the push and pop loop computes the base followed by the normalised stack, or refuses |
| `SafeResolve.ResolvesExactly` | backend/src/controllers/volume_controller.rs:58-72 | a path is refused if and only if some prefix of its components has more ".." than names |
| `SafeResolve.ResolvedIsBelow` | backend/src/controllers/volume_controller.rs:73-77 | a resolved path is the base and then proper names only, none of them "." or ".." or with a slash |
| `SafeResolve.ResolvesEmpty` | backend/src/controllers/volume_controller.rs:56-78 | the empty path is the base |
| `SafeResolve.ResolvesName` | backend/src/controllers/volume_controller.rs:60-62 | one more segment that is a proper name resolves to that very name below what the path before it resolves to |
| `SafeResolve.ResolvesParent` | backend/src/controllers/volume_controller.rs:63-69 | one more ".." resolves to the parent, and is refused at the base |
| `SafeResolve.ResolvesNothing` | backend/src/controllers/volume_controller.rs:70 | one more "." or empty segment changes nothing |
| `SafeResolve.ResolvesNames` | backend/src/controllers/volume_controller.rs:56-78 | so a path of proper names is these names below the base |
| `SafeResolve.ResolveInTwoSteps` | backend/src/controllers/volume_controller.rs:56-78 | resolving `b` below the resolved `a` gives what resolving `a/b` gives |
| `UploadQuota.ObjectStore.InitializeUpload` | backend/src/controllers/storage_controller.rs:608-721 | an upload is accepted if and only if every check passes; the error names the first check that fails; an accepted one replaces the row of its path; a refused one, that of a type that is not allowed included, changes nothing |
| `UploadQuota.ObjectStore.CheckTotal` | backend/src/controllers/storage_controller.rs:619-635 | a total limit refuses exactly when the wrapped sum exceeds it, or the sum does not fit the database's bigint |
| `UploadQuota.ObjectStore.DropExisting` | backend/src/controllers/storage_controller.rs:681-704 | deleting by the id that was found removes exactly the row at the path |
| `UploadQuota.ObjectStore.DeleteObject` | backend/src/controllers/storage_controller.rs:1426-1430 | exactly the row with that id is removed |
| `UploadQuota.AcceptedExactly` | backend/src/controllers/storage_controller.rs:608-670 | if no sum wraps, an upload to a new path is accepted if and only if it keeps to the file limit, has an allowed type, and leaves every bucket and every workspace within its limit |
| `UploadQuota.ReplacedExactly` | backend/src/controllers/storage_controller.rs:681-721 | an upload leaves the rows of all other paths, and its own |
| `UploadQuota.WithoutExactly` | backend/src/controllers/storage_controller.rs:1426-1428 | a delete leaves the rows of all other ids |
| `UploadQuota.WorkspaceIsItsBuckets` | backend/src/controllers/storage_controller.rs:648-656 | the bytes of a workspace are those of its buckets, added up |
| `UploadQuota.UploadKeepsInvExactly` | backend/src/controllers/storage_controller.rs:608-721 | for sizes of any sign: an accepted upload keeps every bucket and workspace limit, the file limit and one object per path if and only if its bucket and workspace have room for its size less what it replaces |
| `UploadQuota.DeleteKeepsInvExactly` | backend/src/controllers/storage_controller.rs:1426-1428 | for sizes of any sign: a delete keeps them if and only if bucket and workspace have room for the totals without the row |
| `UploadQuota.RunKeepsInvExactly` | backend/src/controllers/storage_controller.rs:608-721 | a run of uploads and deletes of any sizes keeps them at all times if and only if every operation has that room at its time |
| `UploadQuota.CheckExactly` | backend/src/controllers/storage_controller.rs:627-634 | what one check is worth when nothing negative is replaced: the limit is kept if and only if the sum did not wrap, or the replaced object makes up for it |
| `UploadQuota.NonNegativeRunExactly` | backend/src/controllers/storage_controller.rs:608-721 | hence a run without negative sizes keeps all limits at all times if and only if no sum of an accepted upload wraps, except where the replaced object makes up for it |
| `UploadQuota.LimitsExactly` | backend/src/controllers/storage_controller.rs:617-665 | adding bytes to one bucket keeps the limits of all buckets and workspaces if and only if that bucket and its workspace have room |
| `UploadQuota.WrappingUploadBreaksLimit` | backend/src/controllers/storage_controller.rs:627-634 | the largest declared size is accepted by every bucket with a total limit, no other restriction and some content, and breaks the limit |
| `UploadQuota.NegativeUploadBreaksLimit` | backend/src/controllers/storage_controller.rs:627-634 | a negative size, an upload that fills the room it makes and a delete of the first are all accepted, no sum wraps, and the bucket ends above its limit |
| `UploadQuota.NegativeReplacementBreaksLimit` | backend/src/controllers/storage_controller.rs:617-704 | so are a negative size, the filling upload and a replacement of the first, with no delete |
| `BackupRetention.BackupStore.SelectOld` | backend/src/controllers/database_controller.rs:1229-1235 | the query fails for a negative limit and otherwise returns the database's listing, newest first and ties in any order, from position `limit` on |
| `BackupRetention.BackupStore.Prune` | backend/src/controllers/database_controller.rs:1237-1248 | the loop removes exactly the selected rows and their files |
| `BackupRetention.BackupStore.PerformBackup` | backend/src/controllers/database_controller.rs:1136-1248 | a successful backup adds its row and file and prunes; each kind of failed dump adds no row, and leaves, removes or does not touch the file |
| `BackupRetention.BackupStore.DeleteBackup` | backend/src/controllers/database_controller.rs:1394-1409 | exactly that row and its file go |
| `BackupRetention.FailureLeaves` | backend/src/controllers/database_controller.rs:1136-1200 | a failed backup changes no row, and no file but the one it was to write |
| `BackupRetention.RemovalLeaves` | backend/src/controllers/database_controller.rs:1237-1248 | removing rows changes no other row, and no file that is not theirs |
| `BackupRetention.SurvivesExactly` | backend/src/controllers/database_controller.rs:1229-1248 | a backup is pruned if `backup_count` are newer and survives if fewer than that are as new; so, without a tie, it survives if and only if fewer than `backup_count` are newer |
| `BackupRetention.KeepsTheNewest` | backend/src/controllers/database_controller.rs:1229-1248 | min(n + 1, `backup_count`) backups remain after each backup, and none of them is older than one that went |
| `BackupRetention.PrunesNothingExactly` | backend/src/controllers/database_controller.rs:1229-1237 | a backup prunes nothing if and only if the count is negative, so that the query fails, or is not exceeded |
| `BackupRetention.PruneKeepsMatch` | backend/src/controllers/database_controller.rs:1237-1247 | removing any rows with their files leaves the files those of the rows, each holding the dump of its own row, if that was so |
| `BackupRetention.SharedFileExactly` | backend/src/controllers/database_controller.rs:1136-1248 | a backup that takes the name of another row leaves them so if and only if it is pruned together with that row |
| `BackupRetention.LeftFileNeverMatches` | backend/src/controllers/database_controller.rs:966-968 | a dump that fails after creating its file never does: the file has no row, or the backup of its row is gone |
| `BackupRetention.StepMatchesExactly` | backend/src/controllers/database_controller.rs:1161-1248 | for every operation and every way a dump ends: the files are those of the rows, each with its row's dump, if and only if the operation is safe: a delete always, a dump that leaves its file never, one that removes it if no row has the name, a complete one likewise or if both rows are pruned |
| `BackupRetention.SharedNameLosesDump` | backend/src/controllers/database_controller.rs:1136-1137 | unless both are pruned, two backups of one name leave a row whose file is gone or holds the dump of the other |
| `BackupRetention.RunMatchesExactly` | backend/src/controllers/database_controller.rs:1136-1248 | over every run of backups, failed dumps of all kinds and deletions, this holds at all times if and only if every operation is safe at its time |
| `BackupRetention.OrderlyRunMatches` | backend/src/controllers/database_controller.rs:1136-1248 | in particular in runs whose dumps use names of no row and leave no file behind |

## Left out

- RunKeepsInvExactly: the limits of buckets and workspaces are fixed during a run.
- RunMatchesExactly: a file that cannot be removed, which the code ignores, is not modelled.
- ReliableReplicas: assumes that only chaos scales and that `replicas_min` and the set of instances stay fixed.
- RefreshSession: the model has no workspace in the platform's access token and no login; a platform password change leaves stored tokens alone.
- LinkedLayer: `create_database` can bind an instance of another project (backend/src/controllers/database_controller.rs:144-152); that link is not a step of the model.
- Kubernetes, Cloudflare, GitHub, Prometheus, processes, WebSockets, server-sent events and file I/O, beyond the one effect each that a modelled operation has. A cluster or database call that fails is taken to have had no effect.
- Authentication, workspace guards, rate limits, audit logs, broadcasts and hot reloads around the modelled handlers.
- Cryptography: encryption is a partial inverse pair, token hashes are fresh ids, password checks are parameters.
- Redis: failing PTTL and DUMP calls, the check of a RESTORE payload, writes during the dump, and keys that expire between dump and restore. The cursors of SCAN are inputs.
- Concurrency of the pool, upload and backup handlers; their runs are sequential. Chaos and token requests do interleave.
- `apply_runtime_port_defaults`, `permissions_for_roles`, `slugify`, `extract_python_dependencies` and `build_timeline_steps`: small pure functions that would only add easy members.
- Upload post-processing, which rewrites sizes and paths (backend/src/controllers/storage_controller.rs:933-959), and the physical files of objects.
- The pods and worker counts of `pod_kill` and `cpu_stress`, and messages and parameters of experiment rows.
- Link rows written when an app, a cron job or a compose file is created.
- Job queue, builder, leader lease, garbage collection, health checks, cron scheduling and RBAC.
