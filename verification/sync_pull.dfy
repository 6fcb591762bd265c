/**
  The pull phase (`syncPull`): drain the server's paginated listing, then
  reconcile it into the store. Any failed page aborts before the store is
  written.
 */
module Pull {
  import opened Basics
  import opened NoteEntity
  import opened NoteDao
  import opened SyncStateMachine
  import opened NoteRepository

  /** The listing starts at page 1 and always asks for 20 notes per page. */
  const FIRST_PAGE: int := 1
  const PAGE_SIZE: int := 20

  /** One page of the server's listing. */
  datatype NotesList = NotesList(count: int, next: Option<string>, previous: Option<string>, results: seq<RemoteNote>)

  /** The server's reply to a page request, or an exception before any status. */
  datatype PageReply = PageResponse(code: int, body: Option<NotesList>) | PageIoError

  /** The query parameters of one page request. */
  datatype PageRequest = PageRequest(page: int, pageSize: int)

  /** The notes gathered by a drained listing, and the requests it made. */
  datatype Listing = Listing(notes: seq<RemoteNote>, requests: seq<PageRequest>)

  /**
    Why a pull failed: a page came back without a 2xx status and a body,
    the call threw, or the server stopped answering while the listing
    still pointed at a next page.
   */
  datatype PullError = PageRejected(page: int, code: int) | PageUnreachable(page: int) | RepliesExhausted(page: int)

  /** A page reply the loop accepts: a 2xx status with a body. */
  predicate PageOk(reply: PageReply)
  {
    reply.PageResponse? && IsSuccessful(reply.code) && reply.body.Some?
  }

  /**
    The page the loop moves on to after an accepted page: none when `next`
    is null or its page number cannot be read from the URL.
   */
  function NextPage(reply: PageReply, pageFromUrl: string -> Option<int>): Option<int>
    requires PageOk(reply)
  {
    match reply.body.value.next
    case None => None
    case Some(url) => pageFromUrl(url)
  }

  /** The results of the accepted replies, in order. */
  function Gathered(replies: seq<PageReply>): seq<RemoteNote>
  {
    if |replies| == 0 then []
    else (if PageOk(replies[0]) then replies[0].body.value.results else []) + Gathered(replies[1..])
  }

  /**
    The pagination loop, from page `page`, where `replies[k]` answers the
    k-th request. It stops after a page with no readable next page and then
    treats what it has as the whole listing; any failed page is an error.
    The source loops for as long as the server hands out next pages; here
    the loop is bounded by the number of replies.
   */
  function Drain(replies: seq<PageReply>, pageFromUrl: string -> Option<int>, page: int): (r: Result<Listing, PullError>)
    ensures r.Ok? ==> 1 <= |r.value.requests| <= |replies|
    ensures r.Ok? ==> r.value.requests[0].page == page
    ensures r.Ok? ==> forall i | 0 <= i < |r.value.requests| :: PageOk(replies[i]) && r.value.requests[i].pageSize == PAGE_SIZE
    ensures r.Ok? ==> forall i | 0 <= i < |r.value.requests| - 1 ::
              NextPage(replies[i], pageFromUrl) == Some(r.value.requests[i + 1].page)
    ensures r.Ok? ==> NextPage(replies[|r.value.requests| - 1], pageFromUrl).None?
    ensures r.Ok? ==> r.value.notes == Gathered(replies[..|r.value.requests|])
    decreases |replies|
  {
    if |replies| == 0 then Err(RepliesExhausted(page))
    else
      var reply := replies[0];
      if !PageOk(reply) then
        Err(if reply.PageResponse? then PageRejected(page, reply.code) else PageUnreachable(page))
      else
        var here := Listing(reply.body.value.results, [PageRequest(page, PAGE_SIZE)]);
        assert Gathered(replies[..1]) == here.notes by {
          assert replies[..1][1..] == [];
        }
        match NextPage(reply, pageFromUrl)
        case None => Ok(here)
        case Some(nextPage) =>
          match Drain(replies[1..], pageFromUrl, nextPage)
          case Err(e) => Err(e)
          case Ok(rest) =>
            var n := |rest.requests| + 1;
            assert replies[..n][1..] == replies[1..][..n - 1];
            Ok(Listing(here.notes + rest.notes, here.requests + rest.requests))
  }

  /**
    The converse: when the first `n` replies are accepted pages whose next
    links are readable up to the last one, which has none, the loop drains
    exactly those `n` pages.
   */
  lemma {:induction false} DrainCompletes(replies: seq<PageReply>, pageFromUrl: string -> Option<int>, page: int, n: nat)
    requires 1 <= n <= |replies|
    requires forall i | 0 <= i < n :: PageOk(replies[i])
    requires forall i | 0 <= i < n - 1 :: NextPage(replies[i], pageFromUrl).Some?
    requires NextPage(replies[n - 1], pageFromUrl).None?
    ensures Drain(replies, pageFromUrl, page).Ok?
    ensures |Drain(replies, pageFromUrl, page).value.requests| == n
    decreases n
  {
    if n > 1 {
      var tail := replies[1..];
      assert forall i | 0 <= i < n - 1 :: tail[i] == replies[i + 1];
      DrainCompletes(tail, pageFromUrl, NextPage(replies[0], pageFromUrl).value, n - 1);
    }
  }

  /**
    A failed page anywhere along the followed chain makes the whole pull an
    error: the loop never skips a page.
   */
  lemma {:induction false} DrainFailsOnBadPage(replies: seq<PageReply>, pageFromUrl: string -> Option<int>, page: int, n: nat)
    requires n < |replies|
    requires forall i | 0 <= i < n :: PageOk(replies[i]) && NextPage(replies[i], pageFromUrl).Some?
    requires !PageOk(replies[n])
    ensures Drain(replies, pageFromUrl, page).Err?
    decreases n
  {
    if n > 0 {
      var tail := replies[1..];
      assert forall i | 0 <= i < n - 1 :: tail[i] == replies[i + 1];
      DrainFailsOnBadPage(tail, pageFromUrl, NextPage(replies[0], pageFromUrl).value, n - 1);
    }
  }

  /** The listing mapped to SYNCED rows, in listing order. */
  function SyncedEntities(remote: seq<RemoteNote>): (ns: seq<Note>)
    ensures |ns| == |remote|
    ensures forall i | 0 <= i < |ns| :: ns[i] == ToNoteEntity(remote[i], Synced)
  {
    seq(|remote|, i requires 0 <= i < |remote| => ToNoteEntity(remote[i], Synced))
  }

  /** The ids of a remote listing. */
  function RemoteIds(remote: seq<RemoteNote>): set<int>
  {
    IdsOf(SyncedEntities(remote))
  }

  /**
    The remote collection as a table: one SYNCED row per remote id, taken
    from the last copy of that note in the listing.
   */
  function RemoteState(remote: seq<RemoteNote>): (m: Store)
    ensures m.Keys == RemoteIds(remote)
    ensures WellKeyed(m)
    ensures forall id | id in m :: m[id].syncStatus == Synced
  {
    var ns := SyncedEntities(remote);
    map id | id in IdsOf(ns) :: LastWithId(ns, id).value
  }

  /** Upserting the whole listing as SYNCED rows lays the remote state over `m`. */
  lemma UpsertListing(m: Store, remote: seq<RemoteNote>)
    ensures UpsertAll(m, SyncedEntities(remote)).Keys == m.Keys + RemoteIds(remote)
    ensures forall id | id in RemoteIds(remote) :: UpsertAll(m, SyncedEntities(remote))[id] == RemoteState(remote)[id]
    ensures forall id | id in m && id !in RemoteIds(remote) :: UpsertAll(m, SyncedEntities(remote))[id] == m[id]
  {
  }

  /** The local SYNCED rows that the remote listing no longer has. */
  function StaleIds(s: Store, remote: seq<RemoteNote>): (ids: set<int>)
    ensures forall id :: id in ids <==> id in s && s[id].syncStatus == Synced && id !in RemoteIds(remote)
  {
    var remoteIds := RemoteIds(remote);
    var localSynced := GetLocalSyncedNotes(s);
    set id | id in localSynced && id !in remoteIds
  }

  /**
    The reconciliation after a complete listing: local SYNCED rows missing
    remotely are deleted, then every remote note is upserted as SYNCED.
    Pending rows whose id is not listed remotely are untouched; a pending
    row whose id is listed is overwritten by the server copy.
   */
  function Reconcile(s: Store, remote: seq<RemoteNote>): (r: Store)
    ensures forall id :: id in r <==> id in RemoteIds(remote) || (id in s && s[id].syncStatus != Synced)
    ensures forall id | id in RemoteIds(remote) :: r[id] == RemoteState(remote)[id]
    ensures forall id | id in s && s[id].syncStatus != Synced && id !in RemoteIds(remote) :: r[id] == s[id]
    ensures WellKeyed(s) ==> WellKeyed(r)
  {
    var toDelete := StaleIds(s, remote);
    var cleaned := if toDelete != {} then DeleteNotesByIds(s, toDelete) else s;
    assert cleaned == s - toDelete;
    UpsertListing(cleaned, remote);
    UpsertAll(cleaned, SyncedEntities(remote))
  }

  /**
    `syncPull`: drain the listing from page 1, then reconcile. A failed or
    unfinished listing is an error and no store is produced, so the caller
    keeps its store as it was.
   */
  function SyncPull(s: Store, replies: seq<PageReply>, pageFromUrl: string -> Option<int>): (r: Result<Store, PullError>)
    ensures r.Ok? <==> Drain(replies, pageFromUrl, FIRST_PAGE).Ok?
    ensures r.Ok? ==> Drain(replies, pageFromUrl, FIRST_PAGE).value.requests[0] == PageRequest(FIRST_PAGE, PAGE_SIZE)
    ensures r.Ok? ==> r.value == Reconcile(s, Drain(replies, pageFromUrl, FIRST_PAGE).value.notes)
    ensures r.Ok? && WellKeyed(s) ==> WellKeyed(r.value)
  {
    match Drain(replies, pageFromUrl, FIRST_PAGE)
    case Err(e) => Err(e)
    case Ok(listing) => Ok(Reconcile(s, listing.notes))
  }

  /**
    Reconciliation carries out the transition table at a listed id: the
    row becomes SYNCED whatever it was before, pending or not.
   */
  lemma ReconcileFollowsTableListed(s: Store, remote: seq<RemoteNote>, id: int)
    requires id in RemoteIds(remote)
    ensures Realizes(s, Reconcile(s, remote), id, Next(StatusAt(s, id), PullListed))
  {
    var r := Reconcile(s, remote);
    assert r[id] == RemoteState(remote)[id];
  }

  /**
    Reconciliation carries out the transition table at an unlisted id: a
    SYNCED row is removed and anything else is left as it was.
   */
  lemma ReconcileFollowsTableUnlisted(s: Store, remote: seq<RemoteNote>, id: int)
    requires id !in RemoteIds(remote)
    ensures Realizes(s, Reconcile(s, remote), id, Next(StatusAt(s, id), PullUnlisted))
  {
    var r := Reconcile(s, remote);
    if id in s && s[id].syncStatus != Synced {
      assert r[id] == s[id];
    }
  }
}
