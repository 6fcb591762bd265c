/**
  The repository's local mutations (create, update, delete), the pending
  change test, the temporary id, and the mappers between the table row
  and the server's note representation.
 */
module NoteRepository {
  import opened Basics
  import opened NoteEntity
  import opened NoteDao
  import opened SyncStateMachine

  /** The server's representation of a note. */
  datatype RemoteNote = RemoteNote(
    id: int,
    title: string,
    description: string,
    createdAt: int,
    updatedAt: int,
    creatorName: string,
    creatorUsername: string)

  /** Retrofit's `isSuccessful`: an HTTP status in the 2xx range. */
  predicate IsSuccessful(code: int)
  {
    200 <= code < 300
  }

  /** `toNoteEntity`: the server copy as a row with the given marker. */
  function ToNoteEntity(r: RemoteNote, status: SyncStatus): (n: Note)
    ensures n.id == r.id && n.syncStatus == status
  {
    Note(r.id, r.title, r.description, r.createdAt, r.updatedAt, r.creatorName, r.creatorUsername, status)
  }

  /** `toNoteResponse`: a row as the server's representation, marker dropped. */
  function ToNoteResponse(n: Note): (r: RemoteNote)
    ensures r.id == n.id
  {
    RemoteNote(n.id, n.title, n.description, n.createdAt, n.updatedAt, n.creatorName, n.creatorUsername)
  }

  /** The two mappers are inverse to each other, up to the marker. */
  lemma MappersRoundTrip(r: RemoteNote, n: Note, status: SyncStatus)
    ensures ToNoteResponse(ToNoteEntity(r, status)) == r
    ensures ToNoteEntity(ToNoteResponse(n), n.syncStatus) == n
  {
  }

  /** `hasUnsyncedChanges`: true iff some record is not SYNCED. */
  function HasUnsyncedChanges(s: Store): (b: bool)
    ensures b <==> exists id | id in s :: s[id].syncStatus != Synced
  {
    var pending := GetUnsyncedNotes(s);
    EmptyIfNoMembers(pending.Keys);
    pending != map[]
  }

  /** Kotlin's `Long.toInt()`: the low 32 bits, read as a signed value. */
  function LongToInt(x: int): (r: int)
    ensures INT32_MIN <= r <= INT32_MAX
    ensures (x - r) % TWO_TO_32 == 0
  {
    var low := x % TWO_TO_32;
    if low <= INT32_MAX then low else low - TWO_TO_32
  }

  /** Kotlin's unary minus on `Int`, which wraps at `Int.MIN_VALUE`. */
  function NegateInt(x: int): (r: int)
    requires INT32_MIN <= x <= INT32_MAX
    ensures INT32_MIN <= r <= INT32_MAX
    ensures (r + x) % TWO_TO_32 == 0
  {
    if x == INT32_MIN then INT32_MIN else -x
  }

  /**
    The temporary id of a new note, from the high 64 bits of a random UUID:
    the 32-bit value congruent to minus those bits.
   */
  function TempId(mostSignificantBits: int): (r: int)
    ensures INT32_MIN <= r <= INT32_MAX
    ensures (r + mostSignificantBits) % TWO_TO_32 == 0
  {
    NegateInt(LongToInt(mostSignificantBits))
  }

  /**
    The high 64 bits of a `UUID.randomUUID()`: a `Long` whose bits 12 to 15
    hold the version number 4; every other bit is random.
   */
  predicate RandomUuidHighBits(mostSignificantBits: int)
  {
    && INT64_MIN <= mostSignificantBits <= INT64_MAX
    && ((mostSignificantBits % TWO_TO_32) / 0x1000) % 16 == 4
  }

  /** The low 32 bits of a random UUID's high half have bit 14 set and bits 12, 13 and 15 clear. */
  lemma LowWordOfRandomUuid(low: int)
    requires 0 <= low < TWO_TO_32 && (low / 0x1000) % 16 == 4
    ensures low != 0 && low != 0x8000_0000
    ensures low >= 0x8000_0000 ==> low <= 0xFFFF_4FFF
  {
    var q := low / 0x1000;
    var k := q / 16;
    assert q == 16 * k + 4;
    assert low == 0x10000 * k + 0x4000 + low % 0x1000;
    assert k <= 0xFFFF;
  }

  /**
    What the temporary id of a real random UUID can be: never 0 and never
    `Int.MIN_VALUE`, positive exactly when bit 31 of the UUID's high half is
    set (about half of all creates), and then at least 45057.
   */
  lemma TempIdOfRandomUuid(mostSignificantBits: int)
    requires RandomUuidHighBits(mostSignificantBits)
    ensures TempId(mostSignificantBits) != 0
    ensures TempId(mostSignificantBits) != INT32_MIN
    ensures TempId(mostSignificantBits) > 0 <==> mostSignificantBits % TWO_TO_32 >= 0x8000_0000
    ensures TempId(mostSignificantBits) > 0 ==> TempId(mostSignificantBits) >= 45057
  {
    LowWordOfRandomUuid(mostSignificantBits % TWO_TO_32);
  }

  /**
    The temporary id is not confined to the negative numbers: the random
    UUID high half 0xFFFF_4FFB gives id 45061, while 0x4000 gives -16384.
   */
  lemma RandomTempIdCanBePositive()
    ensures RandomUuidHighBits(0xFFFF_4FFB) && TempId(0xFFFF_4FFB) == 45061
    ensures RandomUuidHighBits(0x4000) && TempId(0x4000) == -0x4000
  {
  }

  /** The store after a local mutation, and whether a sync was enqueued. */
  datatype Mutation = Mutation(store: Store, enqueued: bool)

  /** The creator attributes a locally created note carries until synced. */
  const LOCAL_CREATOR_NAME: string := "Me"
  const LOCAL_CREATOR_USERNAME: string := "me"

  /**
    `createNote`: one NEW record under `tempId` with the given text and
    `createdAt == updatedAt == now`; whatever was stored under `tempId`
    before is overwritten; a sync is always enqueued.
   */
  function CreateNote(s: Store, tempId: int, title: string, description: string, now: int): (m: Mutation)
    ensures m.enqueued
    ensures m.store.Keys == s.Keys + {tempId}
    ensures m.store[tempId] == Note(tempId, title, description, now, now, LOCAL_CREATOR_NAME, LOCAL_CREATOR_USERNAME, New)
    ensures forall id | id in s && id != tempId :: m.store[id] == s[id]
    ensures WellKeyed(s) ==> WellKeyed(m.store)
  {
    var n := Note(tempId, title, description, now, now, LOCAL_CREATOR_NAME, LOCAL_CREATOR_USERNAME, New);
    Mutation(UpsertNote(s, n), true)
  }

  /** Rows the server already knows (anything but NEW) sit under positive server ids. */
  predicate ServerRowsPositive(s: Store)
  {
    forall id | id in s && s[id].syncStatus != New :: id > 0
  }

  /**
    As written, a create can overwrite a synced row: the random UUID high
    half 0xFFFF_4FFB gives temporary id 45061, and the NEW record replaces
    the synced note stored under server id 45061.
   */
  lemma TempIdCanOverwriteSyncedNote(title: string, description: string, now: int)
    ensures var synced := Note(45061, "t", "d", 0, 0, "a", "a", Synced);
            var s := map[45061 := synced];
            && RandomUuidHighBits(0xFFFF_4FFB)
            && ServerRowsPositive(s)
            && CreateNote(s, TempId(0xFFFF_4FFB), title, description, now).store[45061].syncStatus == New
  {
    assert TempId(0xFFFF_4FFB) == 45061;
  }

  /**
    A temporary id that is always negative, as the negation in `createNote`
    (NoteRepository.kt:57) means it to be: the low 31 bits of the UUID's
    high half, shifted into [-2^31, -1].
   */
  function NegativeTempId(mostSignificantBits: int): (r: int)
    ensures INT32_MIN <= r < 0
  {
    -(mostSignificantBits % 0x8000_0000) - 1
  }

  /**
    With a negative temporary id a create never overwrites a row the server
    knows, and the new store still keeps server rows under positive ids.
   */
  lemma NegativeTempIdSparesServerRows(s: Store, mostSignificantBits: int, title: string, description: string, now: int)
    requires ServerRowsPositive(s)
    ensures var r := CreateNote(s, NegativeTempId(mostSignificantBits), title, description, now).store;
            && (forall id | id in s && s[id].syncStatus != New :: id in r && r[id] == s[id])
            && ServerRowsPositive(r)
  {
  }

  /** The marker after a local edit: SYNCED becomes UPDATED, others stay. */
  function EditedStatus(status: SyncStatus): SyncStatus
  {
    if status == Synced then Updated else status
  }

  /**
    `updateNote`: on an absent id or a tombstone nothing changes and no sync
    is enqueued. Otherwise only the title, description and `updatedAt` of
    that record change, its marker follows the edit rule, and a sync is
    enqueued.
   */
  function UpdateNote(s: Store, id: int, title: string, description: string, now: int): (m: Mutation)
    requires WellKeyed(s)
    ensures GetNoteById(s, id).None? ==> m == Mutation(s, false)
    ensures GetNoteById(s, id).Some? ==>
      && m.enqueued
      && m.store.Keys == s.Keys
      && m.store[id] == s[id].(title := title, description := description, updatedAt := now,
                               syncStatus := EditedStatus(s[id].syncStatus))
      && (forall k | k in s && k != id :: m.store[k] == s[k])
    ensures WellKeyed(m.store)
  {
    match GetNoteById(s, id)
    case None => Mutation(s, false)
    case Some(existing) =>
      var updated := existing.(title := title, description := description, updatedAt := now,
                               syncStatus := if existing.syncStatus == Synced then Updated else existing.syncStatus);
      Mutation(UpsertNote(s, updated), true)
  }

  /**
    `deleteNote`: a NEW record is physically removed without enqueueing a
    sync; a SYNCED or UPDATED record becomes a DELETED tombstone with
    `updatedAt` refreshed, and a sync is enqueued; a tombstone or an absent
    id is left alone.
   */
  function DeleteNote(s: Store, id: int, now: int): (m: Mutation)
    requires WellKeyed(s)
    ensures GetNoteById(s, id).None? ==> m == Mutation(s, false)
    ensures GetNoteById(s, id).Some? && s[id].syncStatus == New ==>
      m == Mutation(s - {id}, false)
    ensures GetNoteById(s, id).Some? && s[id].syncStatus != New ==>
      && m.enqueued
      && m.store.Keys == s.Keys
      && m.store[id] == s[id].(syncStatus := Deleted, updatedAt := now)
      && (forall k | k in s && k != id :: m.store[k] == s[k])
    ensures WellKeyed(m.store)
  {
    match GetNoteById(s, id)
    case None => Mutation(s, false)
    case Some(existing) =>
      if existing.syncStatus == New then
        Mutation(DeleteNoteById(s, id), false)
      else
        Mutation(UpsertNote(s, existing.(syncStatus := Deleted, updatedAt := now)), true)
  }

  /**
    A create on a free id follows the table's create row and leaves every
    other id alone. On an id already stored the table expects no change,
    but the code overwrites that row with the NEW record; with a positive
    temporary id that row can be a synced note (`TempIdCanOverwriteSyncedNote`).
   */
  lemma CreateFollowsTable(s: Store, tempId: int, title: string, description: string, now: int, other: int)
    requires other != tempId
    ensures tempId !in s ==>
      Realizes(s, CreateNote(s, tempId, title, description, now).store, tempId, Next(StatusAt(s, tempId), LocalCreate))
    ensures tempId in s ==>
      && Next(StatusAt(s, tempId), LocalCreate) == Unchanged
      && Realizes(s, CreateNote(s, tempId, title, description, now).store, tempId, Becomes(New))
    ensures Realizes(s, CreateNote(s, tempId, title, description, now).store, other, Unchanged)
  {
  }

  /** An edit follows the table at its id and leaves every other id alone. */
  lemma UpdateFollowsTable(s: Store, id: int, title: string, description: string, now: int, other: int)
    requires WellKeyed(s)
    requires other != id
    ensures Realizes(s, UpdateNote(s, id, title, description, now).store, id, Next(StatusAt(s, id), LocalEdit))
    ensures Realizes(s, UpdateNote(s, id, title, description, now).store, other, Unchanged)
    ensures UpdateNote(s, id, title, description, now).enqueued <==> Next(StatusAt(s, id), LocalEdit) != Unchanged
  {
  }

  /**
    A delete follows the table at its id and leaves every other id alone; it
    enqueues a sync exactly when it makes a tombstone.
   */
  lemma DeleteFollowsTable(s: Store, id: int, now: int, other: int)
    requires WellKeyed(s)
    requires other != id
    ensures Realizes(s, DeleteNote(s, id, now).store, id, Next(StatusAt(s, id), LocalDelete))
    ensures Realizes(s, DeleteNote(s, id, now).store, other, Unchanged)
    ensures DeleteNote(s, id, now).enqueued <==> Next(StatusAt(s, id), LocalDelete) == Becomes(Deleted)
  {
  }
}
