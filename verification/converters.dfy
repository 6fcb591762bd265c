/**
  Room type converters: the sync marker is stored as its enum name, and
  timestamps as text. Both directions pass `null` through unchanged.
 */
module Converters {
  import opened Basics
  import opened NoteEntity

  /** Kotlin's `SyncStatus.name`. */
  function StatusName(s: SyncStatus): string
  {
    match s
    case Synced => "SYNCED"
    case New => "NEW"
    case Updated => "UPDATED"
    case Deleted => "DELETED"
  }

  /** The only strings `SyncStatus.valueOf` accepts. */
  predicate IsStatusName(v: string)
  {
    v == "SYNCED" || v == "NEW" || v == "UPDATED" || v == "DELETED"
  }

  /** `syncStatusToString`: the enum name, or null for null. */
  function SyncStatusToString(status: Option<SyncStatus>): (r: Option<string>)
    ensures r.None? <==> status.None?
    ensures r.Some? ==> IsStatusName(r.value)
  {
    match status
    case None => None
    case Some(s) => Some(StatusName(s))
  }

  /**
    `fromSyncStatus`: null maps to null; a name maps to its status; any other
    string makes `valueOf` throw, modelled as `Err` carrying that string.
   */
  function FromSyncStatus(value: Option<string>): (r: Result<Option<SyncStatus>, string>)
    ensures value.None? ==> r == Ok(None)
    ensures value.Some? ==> (r.Ok? <==> IsStatusName(value.value))
    ensures value.Some? && r.Ok? ==> r.value.Some? && StatusName(r.value.value) == value.value
    ensures r.Err? ==> value.Some? && r.error == value.value
  {
    match value
    case None => Ok(None)
    case Some(v) =>
      if v == "SYNCED" then Ok(Some(Synced))
      else if v == "NEW" then Ok(Some(New))
      else if v == "UPDATED" then Ok(Some(Updated))
      else if v == "DELETED" then Ok(Some(Deleted))
      else Err(v)
  }

  /** Storing a status and reading it back yields the same status. */
  lemma StatusRoundTrip(status: Option<SyncStatus>)
    ensures FromSyncStatus(SyncStatusToString(status)) == Ok(status)
  {
  }

  /** Reading a stored string and writing it back yields the same string. */
  lemma StringRoundTrip(value: Option<string>)
    requires FromSyncStatus(value).Ok?
    ensures SyncStatusToString(FromSyncStatus(value).value) == value
  {
  }

  /**
    Names are pairwise distinct, so the DAO's literal comparisons against
    'SYNCED' and 'DELETED' select exactly the records with that marker.
   */
  lemma StatusNameInjective(a: SyncStatus, b: SyncStatus)
    ensures StatusName(a) == StatusName(b) <==> a == b
    ensures StatusName(a) == "SYNCED" <==> a == Synced
    ensures StatusName(a) == "DELETED" <==> a == Deleted
  {
  }

  /**
    `fromTimestamp`: null maps to null; otherwise the text is parsed, and a
    parse failure (an exception in the source) is an `Err`. The parser is a
    parameter because `LocalDateTime.parse` is not part of this model.
   */
  function FromTimestamp(value: Option<string>, parse: string -> Result<int, string>): (r: Result<Option<int>, string>)
    ensures value.None? ==> r == Ok(None)
    ensures value.Some? ==> (r.Ok? <==> parse(value.value).Ok?)
    ensures value.Some? && r.Ok? ==> r.value == Some(parse(value.value).value)
  {
    match value
    case None => Ok(None)
    case Some(text) =>
      match parse(text)
      case Ok(t) => Ok(Some(t))
      case Err(e) => Err(e)
  }

  /** `dateToTimestamp`: null maps to null; otherwise the rendered text. */
  function DateToTimestamp(date: Option<int>, render: int -> string): (r: Option<string>)
    ensures r.None? <==> date.None?
    ensures date.Some? ==> r.value == render(date.value)
  {
    match date
    case None => None
    case Some(t) => Some(render(t))
  }

  /**
    Whenever parsing inverts rendering, a timestamp (or null) survives a
    store-and-load through the two converters.
   */
  lemma TimestampRoundTrip(date: Option<int>, render: int -> string, parse: string -> Result<int, string>)
    requires forall t :: parse(render(t)) == Ok(t)
    ensures FromTimestamp(DateToTimestamp(date, render), parse) == Ok(date)
  {
  }
}
