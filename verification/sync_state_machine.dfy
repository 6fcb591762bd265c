/**
  The per-record sync state machine. The source has no state object: the
  marker lives on each row and the rules below are enforced by the
  repository's mutations and by the push phase. This module states those
  rules as one table, so the operations can be checked against it.
 */
module SyncStateMachine {
  import opened Basics
  import opened NoteEntity
  import opened NoteDao

  /** What can happen to a record. */
  datatype Event =
    | LocalCreate
    | LocalEdit
    | LocalDelete
    | PushAccepted   // 2xx with a body for create/update; 2xx or 404 for delete
    | PushRefused    // any other reply, or no reply at all
    | PullListed     // a complete listing holds the record's id
    | PullUnlisted   // a complete listing lacks the record's id

  /** Where a record goes: a new marker, physical removal, or nowhere. */
  datatype Fate = Becomes(status: SyncStatus) | Removed | Unchanged

  /** The transition table; `None` is a record that is not in the store. */
  function Next(current: Option<SyncStatus>, e: Event): Fate
  {
    match e
    case LocalCreate =>
      (match current
       case None => Becomes(New)
       case Some(_) => Unchanged)   // a create is meant for a free id only
    case LocalEdit =>
      (match current
       case Some(Synced) => Becomes(Updated)
       case Some(New) => Becomes(New)
       case Some(Updated) => Becomes(Updated)
       case _ => Unchanged)
    case LocalDelete =>
      (match current
       case Some(New) => Removed
       case Some(Synced) => Becomes(Deleted)
       case Some(Updated) => Becomes(Deleted)
       case _ => Unchanged)
    case PushAccepted =>
      (match current
       case Some(New) => Becomes(Synced)
       case Some(Updated) => Becomes(Synced)
       case Some(Deleted) => Removed
       case _ => Unchanged)
    case PushRefused => Unchanged
    case PullListed => Becomes(Synced)
    case PullUnlisted =>
      (match current
       case Some(Synced) => Removed
       case _ => Unchanged)
  }

  /** The marker of the record under `id`, if there is one. */
  function StatusAt(s: Store, id: int): Option<SyncStatus>
  {
    if id in s then Some(s[id].syncStatus) else None
  }

  /** The store change from `before` to `after` carries out `f` at `id`. */
  predicate Realizes(before: Store, after: Store, id: int, f: Fate)
  {
    match f
    case Becomes(st) => id in after && after[id].syncStatus == st
    case Removed => id !in after
    case Unchanged => (id in after <==> id in before) && (id in before ==> after[id] == before[id])
  }

  /**
    Local events never mark a record SYNCED, a refused push never moves a
    record, and a tombstone leaves the store only when the server confirms
    the deletion: only the server settles a pending change.
   */
  lemma OnlyTheServerSettles(current: Option<SyncStatus>, e: Event)
    ensures Next(current, e) == Becomes(Synced) ==> e == PushAccepted || e == PullListed
    ensures e == PushRefused ==> Next(current, e) == Unchanged
    ensures current == Some(Deleted) && Next(current, e) == Removed ==> e == PushAccepted
    ensures current == Some(Deleted) && Next(current, e) != Unchanged ==> e == PushAccepted || e == PullListed
  {
  }

  /**
    A local edit never downgrades a pending creation to a pending update,
    and a tombstone is only ever made from a record the server knows.
   */
  lemma EditKeepsPendingKind(current: Option<SyncStatus>, e: Event)
    ensures e == LocalEdit && current == Some(New) ==> Next(current, e) == Becomes(New)
    ensures Next(current, e) == Becomes(Deleted) ==> current == Some(Synced) || current == Some(Updated)
  {
  }
}
