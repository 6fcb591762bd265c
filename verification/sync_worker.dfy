/**
  One background sync cycle (`SyncWorker.doWork`): note whether anything
  is pending, push, and pull only if nothing was pending before the push.
  Scheduling, retries and concurrency belong to the job queue and are not
  part of this model: a cycle is one sequential run.
 */
module SyncWorker {
  import opened Basics
  import opened NoteEntity
  import opened NoteDao
  import opened NoteRepository
  import opened Push
  import opened Pull

  /** The job queue outcome: done, or run again later. */
  datatype WorkResult = Success | Retry

  /** The two phases a cycle can run. */
  datatype Phase = PushPhase | PullPhase

  /** The store a cycle leaves, its outcome, and the phases it ran in order. */
  datatype Cycle = Cycle(store: Store, result: WorkResult, phases: seq<Phase>)

  /**
    `doWork` on store `s`. The push works through `snapshot`, the pending
    rows in the order the database returned them, with `pushReplies[i]` the
    server's answer for `snapshot[i]`; a pull, if it runs, sees the page
    replies `pageReplies`. A thrown pull is turned into `Retry`; a refused
    push record never is, since the push swallows it.
   */
  function DoWork(s: Store, snapshot: seq<Note>, pushReplies: seq<NoteReply>,
                  pageReplies: seq<PageReply>, pageFromUrl: string -> Option<int>): (c: Cycle)
    requires WellKeyed(s)
    requires Lists(snapshot, GetUnsyncedNotes(s))
    requires |pushReplies| == |snapshot|
    ensures c.phases == if HasUnsyncedChanges(s) then [PushPhase] else [PushPhase, PullPhase]
    ensures c.result == Retry <==> !HasUnsyncedChanges(s) && Drain(pageReplies, pageFromUrl, FIRST_PAGE).Err?
    ensures c.result == Retry || HasUnsyncedChanges(s) ==> c.store == SyncPush(s, snapshot, pushReplies)
    ensures c.result == Success && !HasUnsyncedChanges(s) ==>
      && Drain(pageReplies, pageFromUrl, FIRST_PAGE).Ok?
      && c.store == Reconcile(s, Drain(pageReplies, pageFromUrl, FIRST_PAGE).value.notes)
    ensures WellKeyed(c.store)
  {
    var hadUnsyncedChanges := HasUnsyncedChanges(s);
    var pushed := SyncPush(s, snapshot, pushReplies);
    if hadUnsyncedChanges then Cycle(pushed, Success, [PushPhase])
    else
      PullOnlyMeetsSyncedRecords(s, snapshot, pushReplies);
      match SyncPull(pushed, pageReplies, pageFromUrl)
      case Err(_) => Cycle(pushed, Retry, [PushPhase, PullPhase])
      case Ok(pulled) => Cycle(pulled, Success, [PushPhase, PullPhase])
  }

  /**
    Pull never meets a pending edit: when it runs, the push snapshot was
    empty, the push made no call and changed nothing, and every record is
    SYNCED.
   */
  lemma PullOnlyMeetsSyncedRecords(s: Store, snapshot: seq<Note>, pushReplies: seq<NoteReply>)
    requires WellKeyed(s)
    requires Lists(snapshot, GetUnsyncedNotes(s))
    requires |pushReplies| == |snapshot|
    requires !HasUnsyncedChanges(s)
    ensures |snapshot| == 0 && CallsMade(snapshot) == 0
    ensures SyncPush(s, snapshot, pushReplies) == s
    ensures forall id | id in s :: s[id].syncStatus == Synced
  {
    assert GetUnsyncedNotes(s) == map[];
    ListingOfEmpty(snapshot, GetUnsyncedNotes(s));
  }

  /**
    A cycle that starts with nothing pending and drains the listing leaves
    the store equal to the remote collection keyed by id, all SYNCED.
   */
  lemma CleanCycleMirrorsServer(s: Store, snapshot: seq<Note>, pushReplies: seq<NoteReply>,
                                pageReplies: seq<PageReply>, pageFromUrl: string -> Option<int>)
    requires WellKeyed(s)
    requires Lists(snapshot, GetUnsyncedNotes(s))
    requires |pushReplies| == |snapshot|
    requires !HasUnsyncedChanges(s)
    requires Drain(pageReplies, pageFromUrl, FIRST_PAGE).Ok?
    ensures DoWork(s, snapshot, pushReplies, pageReplies, pageFromUrl).result == Success
    ensures DoWork(s, snapshot, pushReplies, pageReplies, pageFromUrl).store
         == RemoteState(Drain(pageReplies, pageFromUrl, FIRST_PAGE).value.notes)
  {
    PullOnlyMeetsSyncedRecords(s, snapshot, pushReplies);
    var remote := Drain(pageReplies, pageFromUrl, FIRST_PAGE).value.notes;
    var r := Reconcile(s, remote);
    var m := RemoteState(remote);
    assert r.Keys == m.Keys;
    assert r == m;
  }

  /**
    A pending record the server refuses survives the cycle as it was, and
    the cycle still succeeds, provided no other record's push writes its id.
   */
  lemma RefusedRecordSurvivesCycle(s: Store, snapshot: seq<Note>, pushReplies: seq<NoteReply>,
                                   pageReplies: seq<PageReply>, pageFromUrl: string -> Option<int>, i: nat)
    requires WellKeyed(s)
    requires Lists(snapshot, GetUnsyncedNotes(s))
    requires |pushReplies| == |snapshot|
    requires i < |snapshot|
    requires !Accepted(snapshot[i], pushReplies[i])
    requires forall j | 0 <= j < |snapshot| && j != i :: snapshot[i].id !in Touched(snapshot[j], pushReplies[j])
    ensures var c := DoWork(s, snapshot, pushReplies, pageReplies, pageFromUrl);
            && c.result == Success
            && snapshot[i].id in c.store && c.store[snapshot[i].id] == snapshot[i]
  {
    assert snapshot[i].id in GetUnsyncedNotes(s);
    PushRefusedKeepsRecord(s, snapshot, pushReplies, i);
  }
}
