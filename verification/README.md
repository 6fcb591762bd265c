# Offline-first note sync, modelled in Dafny

This project models the sync engine of the SimpleNote Android client. Notes
live in a local Room table. Each row carries a sync marker: SYNCED, NEW,
UPDATED or DELETED. A background worker reconciles the table with a Django
REST Framework server in two phases:

- **push** sends every pending row (create, update, delete) to the server;
- **pull** pages through the server's note list and mirrors it locally.

It also models the UI-facing mutations that set the markers, and the helper
that turns a DRF error body into a message.

The model is functional. The table is a `map<int, Note>` keyed by primary
key (`NoteDao.Store`). Every write is a pure function from a store to a
store, and every query is a pure read of a store: it returns a sub-table, a
flag, or (`GetAllNotes`, a method) an ordered list. Things that come from
outside the code become parameters:

- the clock (`now`);
- the UUID bits of a temporary id;
- the server's replies: one `NoteReply` per pushed record, and a sequence of
  `PageReply`s for the pull;
- the query-string parser for "next" links (`pageFromUrl`);
- the LocalDateTime parse/render pair of the type converters.

`SyncStateMachine` is a transition table from (current marker, event) to a
fate: becomes a status, removed, or unchanged. Its events are local
create, edit and delete, an accepted or refused push, and an id listed or
not listed by a complete pull. The table is defined independently of the
operations. The `…FollowsTable` lemmas show that each mutation, each push
step and the reconciliation implement the table's row for their event,
with two exceptions. A create on an id that is already stored overwrites
the row, where the table says unchanged (see Findings). An accepted update
whose reply carries another id departs from the table as well:
`Push.PushOneFollowsTable` states that the code then settles the server
copy under that other id and leaves the UPDATED row as it was.

Files and modules:

| file | module | models |
|---|---|---|
| basics.dfy | `Basics` | `Option`, `Result` |
| note_entity.dfy | `NoteEntity` | `SyncStatus`, the `notes` row, the server action per marker |
| converters.dfy | `Converters` | Room type converters |
| note_dao.dfy | `NoteDao` | every DAO query and write |
| sync_state_machine.dfy | `SyncStateMachine` | the marker transition table |
| note_repository.dfy | `NoteRepository` | mappers, `hasUnsyncedChanges`, temp ids, create/update/delete |
| sync_push.dfy | `Push` | `syncPush` |
| sync_pull.dfy | `Pull` | `syncPull`: the page loop and the reconciliation |
| sync_worker.dfy | `SyncWorker` | `doWork` |
| drf_errors.dfy | `DrfErrors` | `parseDrfErrorBody` |

## What the code does, and what it evidently means

The model follows the code in each case below.

- **Temporary ids.** The minus sign in `-(…mostSignificantBits.toInt())`
  (NoteRepository.kt:57) shows temporary ids are meant to be negative, away
  from the server's positive ids. The `Int` conversion drops the sign of the
  64-bit value, though. Whenever bit 31 of the UUID's high half is set,
  which is about half of all creates, the id is positive and at least 45057.
  It is never 0 or `Int.MIN_VALUE`, because the UUID version bits are fixed
  (`NoteRepository.TempIdOfRandomUuid`). See Findings.
- **UPDATED pushes.** An accepted update stores the server's copy under the
  id from the response body, not under the local id.
- **Pull and pending rows.** On its own, `syncPull` overwrites a pending row
  whose id the server lists with the server copy (`Pull.Reconcile`,
  `Pull.ReconcileFollowsTableListed`). The comment at SyncWorker.kt:30-31
  gives the worker's reason for skipping the pull after local changes: a
  pull must not run before the push is reflected. The worker only pulls
  when nothing was pending before the push, so within one cycle the pull
  never meets a pending row (`SyncWorker.PullOnlyMeetsSyncedRecords`).
- **Error message fallback.** In `parseDrfErrorBody`, the
  "Unknown error (no details provided)" branch can never run: the message
  list always starts with the base message. The model keeps the branch. Its
  contract gives the result for every input, and none of them is that
  message.

## Model

All source paths are under `app/src/main/java/com/example/simplenote/`.

| member | source | states |
|---|---|---|
| NoteEntity.PendingAction | app/src/main/java/com/example/simplenote/data/local/db/NoteEntity.kt:7-12 | each marker maps to exactly one server action: NEW→create, UPDATED→update, DELETED→delete, SYNCED→none (both directions) |
| Converters.SyncStatusToString | app/src/main/java/com/example/simplenote/data/local/db/Converters.kt:22-25 | null stays null; a status is stored as one of the four enum names |
| Converters.FromSyncStatus | app/src/main/java/com/example/simplenote/data/local/db/Converters.kt:17-20 | null reads back as null; a string reads back iff it is an enum name, as the status with that name; any other string is an error carrying it |
| Converters.StatusRoundTrip | app/src/main/java/com/example/simplenote/data/local/db/Converters.kt:17-25 | reading back a stored status gives the same status |
| Converters.StringRoundTrip | app/src/main/java/com/example/simplenote/data/local/db/Converters.kt:17-25 | every column value that reads back successfully is stored again unchanged |
| Converters.StatusNameInjective | app/src/main/java/com/example/simplenote/data/local/db/Converters.kt:22-25 | distinct statuses have distinct stored names, so the queries' `'SYNCED'`/`'DELETED'` literals select exactly those statuses |
| Converters.FromTimestamp | app/src/main/java/com/example/simplenote/data/local/db/Converters.kt:7-10 | null stays null; a string converts iff the date parser accepts it, to the parsed date |
| Converters.DateToTimestamp | app/src/main/java/com/example/simplenote/data/local/db/Converters.kt:12-15 | null stays null; a date is stored as its rendering |
| Converters.TimestampRoundTrip | app/src/main/java/com/example/simplenote/data/local/db/Converters.kt:7-15 | when parsing inverts rendering, every stored date reads back unchanged |
| NoteDao.GetAllNotes | app/src/main/java/com/example/simplenote/data/local/db/NoteDao.kt:11-12 | the result lists exactly the non-DELETED rows, each once, newest `updatedAt` first, and each is what `getNoteById` returns for its id |
| NoteDao.InsertByRecencyPermutes | app/src/main/java/com/example/simplenote/data/local/db/NoteDao.kt:11 | ordering by recency only rearranges rows: the output is a permutation of the input plus the inserted row |
| NoteDao.GetNoteById | app/src/main/java/com/example/simplenote/data/local/db/NoteDao.kt:14-15 | a row is returned iff it exists and is not DELETED, and it is the stored row; equivalently, iff it is among the rows `getAllNotes` shows |
| NoteDao.UpsertNote | app/src/main/java/com/example/simplenote/data/local/db/NoteDao.kt:17-18 | the row is inserted or replaced under its own id; every other row is unchanged; the primary-key invariant is kept |
| NoteDao.UpsertAll | app/src/main/java/com/example/simplenote/data/local/db/NoteDao.kt:20-21 | the ids become the old ids plus the listed ids; a listed id holds its last occurrence in the list; other rows are unchanged |
| NoteDao.DeleteNoteById | app/src/main/java/com/example/simplenote/data/local/db/NoteDao.kt:23-24 | exactly that id is removed, whatever its marker; a missing id is a no-op |
| NoteDao.GetUnsyncedNotes | app/src/main/java/com/example/simplenote/data/local/db/NoteDao.kt:26-27 | exactly the stored rows whose marker is not SYNCED |
| NoteDao.GetLocalSyncedNotes | app/src/main/java/com/example/simplenote/data/local/db/NoteDao.kt:29-30 | exactly the stored rows whose marker is SYNCED |
| NoteDao.SyncedUnsyncedPartition | app/src/main/java/com/example/simplenote/data/local/db/NoteDao.kt:26-30 | the two queries are disjoint and together give back the whole table |
| NoteDao.DeleteNotesByIds | app/src/main/java/com/example/simplenote/data/local/db/NoteDao.kt:32-33 | exactly the listed ids are removed; the rest are unchanged |
| NoteDao.ClearAll | app/src/main/java/com/example/simplenote/data/local/db/NoteDao.kt:35-36 | the table is empty afterwards |
| NoteDao.ReplaceNote | app/src/main/java/com/example/simplenote/data/local/db/NoteDao.kt:38-42 | the old id is gone unless it equals the new row's id; the new row is stored; every other row is unchanged |
| NoteRepository.ToNoteEntity | app/src/main/java/com/example/simplenote/data/repository/NoteRepository.kt:256-265 | the entity keeps the server id and carries the given marker |
| NoteRepository.ToNoteResponse | app/src/main/java/com/example/simplenote/data/repository/NoteRepository.kt:246-254 | the response keeps the row's id |
| NoteRepository.MappersRoundTrip | app/src/main/java/com/example/simplenote/data/repository/NoteRepository.kt:246-265 | the two mappers are inverse: server note → entity → server note, and entity → response → entity with its own marker, both give back the input |
| NoteRepository.HasUnsyncedChanges | app/src/main/java/com/example/simplenote/data/repository/NoteRepository.kt:37-39 | true iff some row's marker is not SYNCED |
| NoteRepository.LongToInt | app/src/main/java/com/example/simplenote/data/repository/NoteRepository.kt:57 | `Long.toInt()` keeps the low 32 bits: a 32-bit value congruent to the input modulo 2^32 |
| NoteRepository.NegateInt | app/src/main/java/com/example/simplenote/data/repository/NoteRepository.kt:57 | 32-bit negation: a 32-bit value whose sum with the input is 0 modulo 2^32 |
| NoteRepository.TempId | app/src/main/java/com/example/simplenote/data/repository/NoteRepository.kt:57 | the temporary id is a 32-bit value congruent to minus the UUID's high bits |
| NoteRepository.TempIdOfRandomUuid | app/src/main/java/com/example/simplenote/data/repository/NoteRepository.kt:57 | for the high half of a real random UUID (version nibble 4), the temporary id is never 0 or `Int.MIN_VALUE`; it is positive exactly when bit 31 is set, and then at least 45057 |
| NoteRepository.RandomTempIdCanBePositive | app/src/main/java/com/example/simplenote/data/repository/NoteRepository.kt:57 | both signs occur: the random-UUID high halves 0xFFFF_4FFB and 0x4000 give temporary ids 45061 and -16384 |
| NoteRepository.CreateNote | app/src/main/java/com/example/simplenote/data/repository/NoteRepository.kt:56-72 | a NEW row with the given title and text, created and updated at `now` and authored by "Me"/"me", is stored under the temporary id; other rows are unchanged; a sync is enqueued |
| NoteRepository.CreateFollowsTable | app/src/main/java/com/example/simplenote/data/repository/NoteRepository.kt:56-72 | on a free id, create implements the table's local-create row (NEW); on an id already stored, where the table expects no change, the code overwrites that row with the NEW record; every other id is unchanged |
| NoteRepository.UpdateNote | app/src/main/java/com/example/simplenote/data/repository/NoteRepository.kt:74-86 | a missing or DELETED id changes nothing and enqueues nothing; otherwise title, text and `updatedAt` change, SYNCED becomes UPDATED and other markers are kept, and a sync is enqueued |
| NoteRepository.UpdateFollowsTable | app/src/main/java/com/example/simplenote/data/repository/NoteRepository.kt:74-86 | update implements the table's local-edit row and enqueues a sync iff the table calls for a change |
| NoteRepository.DeleteNote | app/src/main/java/com/example/simplenote/data/repository/NoteRepository.kt:88-102 | a missing or DELETED id changes nothing; a NEW row is removed without enqueuing; any other row becomes a DELETED tombstone stamped `now`, and a sync is enqueued |
| NoteRepository.DeleteFollowsTable | app/src/main/java/com/example/simplenote/data/repository/NoteRepository.kt:88-102 | delete implements the table's local-delete row and enqueues iff the table says the row becomes DELETED |
| SyncStateMachine.OnlyTheServerSettles | app/src/main/java/com/example/simplenote/data/repository/NoteRepository.kt:74-210 | in the table only server events (an accepted push, or a listing that holds the id) make a row SYNCED; a refused push changes nothing; a tombstone is removed only by an accepted push |
| SyncStateMachine.EditKeepsPendingKind | app/src/main/java/com/example/simplenote/data/repository/NoteRepository.kt:74-102 | editing a NEW row keeps it NEW; only SYNCED or UPDATED rows become tombstones |
| Push.PushOne | app/src/main/java/com/example/simplenote/data/repository/NoteRepository.kt:110-157 | one record: a refused or failed call leaves the store as it was; an accepted one lands (create: server copy SYNCED and temp row gone; update: server copy SYNCED; delete, including a 404: row gone); only the record's own ids change |
| Push.SyncPush | app/src/main/java/com/example/simplenote/data/repository/NoteRepository.kt:106-159 | the whole loop never fails; rows that no step may write are unchanged; the primary-key invariant is kept |
| Push.CallsMade | app/src/main/java/com/example/simplenote/data/repository/NoteRepository.kt:108-152 | at most one server call per snapshot record; none iff every record is SYNCED; one for every record iff none is SYNCED |
| Push.EveryPendingRecordIsCalled | app/src/main/java/com/example/simplenote/data/repository/NoteRepository.kt:106-151 | a push over the pending rows makes exactly one server call per record |
| Push.ReplyMattersIffPending | app/src/main/java/com/example/simplenote/data/repository/NoteRepository.kt:110-151 | the records counted as calls are exactly those whose step depends on the reply: a SYNCED record is left alone whatever the reply, and an accepted reply changes a pending record |
| Push.PushOneFollowsTable | app/src/main/java/com/example/simplenote/data/repository/NoteRepository.kt:110-157 | one push step carries out the transition table: refused → every id unchanged; accepted delete → row removed; accepted create → server copy SYNCED under the server id and temporary row removed; accepted update that keeps its id → row SYNCED; an accepted update whose reply carries another id settles the copy under that id and leaves the record unchanged, against the table |
| Push.PushStepLands | app/src/main/java/com/example/simplenote/data/repository/NoteRepository.kt:106-159 | an accepted record's outcome survives the rest of the loop when later records touch other ids |
| Push.PushRefusedIsSkipped | app/src/main/java/com/example/simplenote/data/repository/NoteRepository.kt:153-157 | a refused record is swallowed: the push equals the push of the snapshot without it |
| Push.PushRefusedKeepsRecord | app/src/main/java/com/example/simplenote/data/repository/NoteRepository.kt:119-157 | a refused record is left exactly as it was, marker included, for the next cycle, when no other step of the push writes its id |
| Push.FullyAcceptedPushSettlesAll | app/src/main/java/com/example/simplenote/data/repository/NoteRepository.kt:106-159 | when every pending record is accepted, the table holds only SYNCED rows and `hasUnsyncedChanges` is false |
| Pull.Drain | app/src/main/java/com/example/simplenote/data/repository/NoteRepository.kt:163-185 | on success: the first request is the start page; each request asks for 20 notes; each next page comes from the previous "next" link; the loop stops at the first page with no usable link; the gathered notes are every fetched page's results in order |
| Pull.DrainCompletes | app/src/main/java/com/example/simplenote/data/repository/NoteRepository.kt:167-177 | if the first n pages succeed and only the n-th has no usable next link, the loop succeeds after exactly n requests |
| Pull.DrainFailsOnBadPage | app/src/main/java/com/example/simplenote/data/repository/NoteRepository.kt:180-183 | a failed or bodiless page reply before the end makes the whole pull fail |
| Pull.StaleIds | app/src/main/java/com/example/simplenote/data/repository/NoteRepository.kt:189-200 | the ids to delete are exactly the SYNCED local rows the server did not list |
| Pull.UpsertListing | app/src/main/java/com/example/simplenote/data/repository/NoteRepository.kt:186-204 | upserting the converted listing stores, for each listed id, the server's last copy as SYNCED and leaves unlisted rows alone |
| Pull.ReconcileFollowsTableListed | app/src/main/java/com/example/simplenote/data/repository/NoteRepository.kt:186-204 | at a listed id, reconciliation makes the row SYNCED whatever it was before, including a pending row |
| Pull.ReconcileFollowsTableUnlisted | app/src/main/java/com/example/simplenote/data/repository/NoteRepository.kt:189-204 | at an unlisted id, reconciliation removes a SYNCED row and leaves anything else as it was |
| Pull.Reconcile | app/src/main/java/com/example/simplenote/data/repository/NoteRepository.kt:186-204 | afterwards the table holds exactly the server's ids plus the pending local rows; listed ids hold the server copy as SYNCED; pending unlisted rows are unchanged; stale SYNCED rows are gone |
| Pull.SyncPull | app/src/main/java/com/example/simplenote/data/repository/NoteRepository.kt:161-210 | succeeds iff the page loop succeeds, starting at page 1 with size 20, and then reconciles with everything fetched; a failure is reported to the caller |
| SyncWorker.DoWork | app/src/main/java/com/example/simplenote/sync/SyncWorker.kt:21-41 | the worker pushes first and pulls only if nothing was pending beforehand; it retries iff that pull fails, and then the table is the pushed table; after a successful pull the table is the start table reconciled with the server's listing |
| SyncWorker.PullOnlyMeetsSyncedRecords | app/src/main/java/com/example/simplenote/sync/SyncWorker.kt:23-34 | when a cycle pulls, the push snapshot was empty, no call was made, and every row was SYNCED |
| SyncWorker.CleanCycleMirrorsServer | app/src/main/java/com/example/simplenote/sync/SyncWorker.kt:32-36 | a cycle with nothing pending and a successful pull succeeds, and leaves the table equal to the server's listing, all SYNCED |
| SyncWorker.RefusedRecordSurvivesCycle | app/src/main/java/com/example/simplenote/sync/SyncWorker.kt:27-36 | a record the server refuses is still stored, unchanged, after the cycle, and the worker reports success, when no other step of the push writes its id |
| DrfErrors.Details | app/src/main/java/com/example/simplenote/data/repository/Utils.kt:22-27 | one message per error item, in order; a missing detail becomes the text "null" |
| DrfErrors.JoinIsHeadThenPrefixed | app/src/main/java/com/example/simplenote/data/repository/Utils.kt:28-30 | joining the base message and the details gives the base followed by "\n- " and each detail |
| DrfErrors.ParseDrfErrorBody | app/src/main/java/com/example/simplenote/data/repository/Utils.kt:5-38 | no body → base + " No error body"; a top-level detail wins outright; an errors array → the base then each item's detail on its own "- " line, so an empty array gives the base alone; neither → base + " Unknown error" |
| NoteRepository.TempIdCanOverwriteSyncedNote | app/src/main/java/com/example/simplenote/data/repository/NoteRepository.kt:57-70 | as written, a real random UUID (high half 0xFFFF_4FFB) gives temporary id 45061, and the create stores its NEW row over the SYNCED note 45061 |
| NoteRepository.NegativeTempId | app/src/main/java/com/example/simplenote/data/repository/NoteRepository.kt:57 | the corrected temporary id is always a negative 32-bit value |
| NoteRepository.NegativeTempIdSparesServerRows | app/src/main/java/com/example/simplenote/data/repository/NoteRepository.kt:56-72 | with the corrected id, a create leaves every row the server knows unchanged, and server rows stay under positive ids |

## Left out

- Scheduling: `enqueueSync`, `schedulePeriodicSync` with its KEEP policy and network constraint, and `triggerSync` belong to WorkManager. A mutation only reports, through `Mutation.enqueued`, whether it enqueues a sync.
- Concurrency: the worker, the UI and the periodic job are interleaved by coroutines and WorkManager. The model runs one operation at a time on one table.
- The HTTP client (Retrofit, OkHttp, the token authenticator) and the network. Each call is replaced by its reply, given as input.
- `getPageFromUrl`: `Uri.parse(...).getQueryParameter("page")?.toIntOrNull()` with its exception guard becomes the parameter `pageFromUrl`.
- `UUID.randomUUID()` and `LocalDateTime.now()` become parameters. `TempId` models the 32-bit arithmetic applied to the UUID bits.
- `LocalDateTime.parse` and `toString` become the `parse`/`render` parameters of the converters. Dates are opaque `int`s in the entity.
- JSON parsing in `parseDrfErrorBody`. The body arrives already parsed as `ErrorBody`. Some inputs throw in the code: a body that is not valid JSON, an `errors` value that is not an array, and an array entry that is not an object. These are not modelled. A non-string `detail` does not throw: `getString` and `optString` turn any non-null value into its string form. The model covers this by taking each detail as already text.
- `Flow` observation: `getAllNotes` and `getNoteById` are modelled as one-shot reads. The repository wrappers (NoteRepository.kt:45-53) only map rows through `toNoteResponse`, which is modelled as `ToNoteResponse`. `getSyncWorkInfoFlow` is not modelled.
- `clearLocalNotes` (NoteRepository.kt:33-35) is `clearAll`, modelled as `NoteDao.ClearAll`.
- Database failures: every DAO call succeeds in the model. An exception thrown by Room inside the push loop would be swallowed the same way a refused reply is.
- Pull.Drain: the code's `while (true)` can run forever if the server keeps linking to more pages. The model walks the given replies and reports `RepliesExhausted` when they run out.
- NoteDao.DeleteNotesByIds: takes the ids as a set. The SQL `IN` list ignores order and duplicates, so nothing is lost.
- Logging (`Log.d`, `Log.e`, `printStackTrace`).
- The server's JSON field names (snake_case versus camelCase) are a serialization detail. One `RemoteNote` record stands for `NoteResponse`.
- Push.FullyAcceptedPushSettlesAll: has two extra conditions. `KeepsId` requires an accepted update's server copy to carry the id the update was sent for. `FootprintsDisjoint` requires no two steps to write the same id, so each create's server id is fresh within the push. Without them, a server copy under a different id can leave the old UPDATED row in place, or a later step can overwrite an earlier one.
- SyncWorker.DoWork: requires the push snapshot to list exactly the pending rows, in some order, with one reply per record. Room's row order for `getUnsyncedNotes` is unspecified.

## Findings

| source | as written | input that shows it | evidently intended | confidence | as-written member | corrected member |
|---|---|---|---|---|---|---|
| app/src/main/java/com/example/simplenote/data/repository/NoteRepository.kt:57 | the temporary id is `-(mostSignificantBits.toInt())`, which is positive whenever bit 31 of the UUID's high half is set | the random-UUID high half 0xFFFF_4FFB (version nibble 4) gives id 45061. If the server note 45061 is stored as SYNCED, the new NEW row overwrites it | temporary ids are negative, as the minus sign shows, so they never collide with the server's positive ids | medium, not executed | NoteRepository.TempIdCanOverwriteSyncedNote | NoteRepository.NegativeTempId |

`CreateNote` takes the temporary id as a parameter, so every other result
in the model holds whichever way the id is drawn.
`NoteRepository.NegativeTempIdSparesServerRows` proves what the corrected
scheme promises.
