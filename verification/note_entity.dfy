/**
  The note record held in the local replica store, and its per-record
  sync marker.
 */
module NoteEntity {
  import opened Basics

  /** Bounds of the Kotlin `Int` type. */
  const INT32_MIN: int := -0x8000_0000
  const INT32_MAX: int := 0x7fff_ffff
  const TWO_TO_32: int := 0x1_0000_0000
  const INT64_MIN: int := -0x8000_0000_0000_0000
  const INT64_MAX: int := 0x7fff_ffff_ffff_ffff

  /** The four sync markers a record can carry. */
  datatype SyncStatus = Synced | New | Updated | Deleted

  /** The server call a pending record still owes. */
  datatype ServerAction = CreateOnServer | UpdateOnServer | DeleteOnServer

  /**
    What the server must still do for a record: nothing for a synced one,
    otherwise create, update or delete according to the marker.
   */
  function PendingAction(status: SyncStatus): (a: Option<ServerAction>)
    ensures a.None? <==> status == Synced
    ensures a == Some(CreateOnServer) <==> status == New
    ensures a == Some(UpdateOnServer) <==> status == Updated
    ensures a == Some(DeleteOnServer) <==> status == Deleted
  {
    match status
    case Synced => None
    case New => Some(CreateOnServer)
    case Updated => Some(UpdateOnServer)
    case Deleted => Some(DeleteOnServer)
  }

  /**
    One row of the `notes` table. Every field is immutable: a state change
    builds a new record with the datatype update syntax. Timestamps are
    abstract integers.
   */
  datatype Note = Note(
    id: int,
    title: string,
    description: string,
    createdAt: int,
    updatedAt: int,
    creatorName: string,
    creatorUsername: string,
    syncStatus: SyncStatus)
}
