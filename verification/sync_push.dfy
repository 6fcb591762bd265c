/**
  The push phase (`syncPush`): every record of a snapshot of the pending
  rows is sent to the server on its own; a refused or failed call leaves
  that record for the next cycle and the loop carries on.
 */
module Push {
  import opened Basics
  import opened NoteEntity
  import opened NoteDao
  import opened SyncStateMachine
  import opened NoteRepository

  /**
    The server's reply to one note call: an HTTP status with an optional
    body, or an exception (no connectivity, timeout) before any status.
   */
  datatype NoteReply = NoteResponse(code: int, body: Option<RemoteNote>) | NoteIoError

  /** The "not found" status a delete accepts as already done. */
  const NOT_FOUND: int := 404

  /** A create or update reply that carries the server's copy. */
  predicate HasServerCopy(reply: NoteReply)
  {
    reply.NoteResponse? && IsSuccessful(reply.code) && reply.body.Some?
  }

  /**
    Whether the reply settles the record: a create or update needs a 2xx
    with a body, a delete a 2xx or a 404. A SYNCED record makes no call.
   */
  predicate Accepted(note: Note, reply: NoteReply)
  {
    match PendingAction(note.syncStatus)
    case None => false
    case Some(CreateOnServer) => HasServerCopy(reply)
    case Some(UpdateOnServer) => HasServerCopy(reply)
    case Some(DeleteOnServer) => reply.NoteResponse? && (IsSuccessful(reply.code) || reply.code == NOT_FOUND)
  }

  /** The ids whose rows one push step may write. */
  function Touched(note: Note, reply: NoteReply): set<int>
  {
    if !Accepted(note, reply) then {}
    else match note.syncStatus
      case New => {note.id, reply.body.value.id}
      case Updated => {reply.body.value.id}
      case _ => {note.id}
  }

  /**
    The step's outcome is visible in `r`: after a create the server copy is
    stored as SYNCED and the temporary row is gone (unless the ids agree);
    after an update the server copy is stored under the server's id; after
    a delete the row is gone.
   */
  predicate Landed(r: Store, note: Note, reply: NoteReply)
  {
    Accepted(note, reply) ==>
      match note.syncStatus
      case New =>
        var server := reply.body.value;
        && server.id in r && r[server.id] == ToNoteEntity(server, Synced)
        && (note.id != server.id ==> note.id !in r)
      case Updated =>
        var server := reply.body.value;
        server.id in r && r[server.id] == ToNoteEntity(server, Synced)
      case _ => note.id !in r
  }

  /** Two stores agree on a set of ids. */
  predicate AgreeOn(a: Store, b: Store, ids: set<int>)
  {
    forall k | k in ids :: (k in a <==> k in b) && (k in a ==> a[k] == b[k])
  }

  /**
    One iteration of the push loop. Whatever the store held before, the
    step lands when accepted; when refused the store is untouched; in every
    case only the step's own ids can change.
   */
  function PushOne(s: Store, note: Note, reply: NoteReply): (r: Store)
    ensures !Accepted(note, reply) ==> r == s
    ensures Landed(r, note, reply)
    ensures forall k | k !in Touched(note, reply) :: (k in r <==> k in s) && (k in r ==> r[k] == s[k])
    ensures WellKeyed(s) ==> WellKeyed(r)
  {
    if !Accepted(note, reply) then s
    else match note.syncStatus
      case New => ReplaceNote(s, note.id, ToNoteEntity(reply.body.value, Synced))
      case Updated => UpsertNote(s, ToNoteEntity(reply.body.value, Synced))
      case _ => DeleteNoteById(s, note.id)
  }

  /** The ids a whole push may write. */
  function TouchedBy(snapshot: seq<Note>, replies: seq<NoteReply>): set<int>
    requires |replies| == |snapshot|
  {
    if |snapshot| == 0 then {}
    else Touched(snapshot[0], replies[0]) + TouchedBy(snapshot[1..], replies[1..])
  }

  /**
    `syncPush` over a snapshot, with `replies[i]` the server's reply to the
    call for `snapshot[i]`. It returns a store, never an error: per-record
    failures are swallowed. Rows no step touches are unchanged.
   */
  function SyncPush(s: Store, snapshot: seq<Note>, replies: seq<NoteReply>): (r: Store)
    requires |replies| == |snapshot|
    ensures forall k | k !in TouchedBy(snapshot, replies) :: (k in r <==> k in s) && (k in r ==> r[k] == s[k])
    ensures WellKeyed(s) ==> WellKeyed(r)
    decreases |snapshot|
  {
    if |snapshot| == 0 then s
    else SyncPush(PushOne(s, snapshot[0], replies[0]), snapshot[1..], replies[1..])
  }

  /** The number of server calls a push makes: one per pending record. */
  function CallsMade(snapshot: seq<Note>): (n: nat)
    ensures n <= |snapshot|
    ensures n == 0 <==> forall i | 0 <= i < |snapshot| :: snapshot[i].syncStatus == Synced
    ensures n == |snapshot| <==> forall i | 0 <= i < |snapshot| :: snapshot[i].syncStatus != Synced
  {
    if |snapshot| == 0 then 0
    else
      assert forall i | 0 <= i < |snapshot| - 1 :: snapshot[1..][i] == snapshot[i + 1];
      assert forall i | 1 <= i < |snapshot| :: snapshot[i] == snapshot[1..][i - 1];
      (if snapshot[0].syncStatus == Synced then 0 else 1) + CallsMade(snapshot[1..])
  }

  /** Pushing a concatenation is pushing its two halves in turn. */
  lemma {:induction false} PushSplit(s: Store, a: seq<Note>, b: seq<Note>, ra: seq<NoteReply>, rb: seq<NoteReply>)
    requires |ra| == |a| && |rb| == |b|
    ensures SyncPush(s, a + b, ra + rb) == SyncPush(SyncPush(s, a, ra), b, rb)
    decreases |a|
  {
    if |a| == 0 {
      assert a + b == b && ra + rb == rb;
    } else {
      assert (a + b)[0] == a[0] && (ra + rb)[0] == ra[0];
      assert (a + b)[1..] == a[1..] + b;
      assert (ra + rb)[1..] == ra[1..] + rb;
      PushSplit(PushOne(s, a[0], ra[0]), a[1..], b, ra[1..], rb);
    }
  }

  /** An id is touched by the whole push iff some single step touches it. */
  lemma {:induction false} TouchedByMembers(snapshot: seq<Note>, replies: seq<NoteReply>, k: int)
    requires |replies| == |snapshot|
    ensures k in TouchedBy(snapshot, replies) <==>
            exists i | 0 <= i < |snapshot| :: k in Touched(snapshot[i], replies[i])
    decreases |snapshot|
  {
    if |snapshot| != 0 {
      TouchedByMembers(snapshot[1..], replies[1..], k);
      if k in TouchedBy(snapshot[1..], replies[1..]) {
        var i :| 0 <= i < |snapshot| - 1 && k in Touched(snapshot[1..][i], replies[1..][i]);
        assert k in Touched(snapshot[i + 1], replies[i + 1]);
      }
      if exists i | 0 <= i < |snapshot| :: k in Touched(snapshot[i], replies[i]) {
        var i :| 0 <= i < |snapshot| && k in Touched(snapshot[i], replies[i]);
        if i > 0 {
          assert k in Touched(snapshot[1..][i - 1], replies[1..][i - 1]);
        }
      }
    }
  }

  /** Whether a step lands depends only on the rows under its own ids. */
  lemma LandedFramed(a: Store, b: Store, note: Note, reply: NoteReply)
    requires AgreeOn(a, b, Touched(note, reply))
    requires Landed(a, note, reply)
    ensures Landed(b, note, reply)
  {
  }

  /**
    The steps of a push write pairwise disjoint sets of ids: no server
    reply reuses an id another step of the same push writes.
   */
  predicate FootprintsDisjoint(snapshot: seq<Note>, replies: seq<NoteReply>)
    requires |replies| == |snapshot|
  {
    forall i, j | 0 <= i < j < |snapshot| :: Touched(snapshot[i], replies[i]) !! Touched(snapshot[j], replies[j])
  }

  /**
    Partial-failure isolation, success side: an accepted step lands in the
    final store whatever the other replies were, as long as no later step
    writes its ids.
   */
  lemma PushStepLands(s: Store, snapshot: seq<Note>, replies: seq<NoteReply>, i: nat)
    requires |replies| == |snapshot|
    requires i < |snapshot|
    requires forall j | i < j < |snapshot| :: Touched(snapshot[i], replies[i]) !! Touched(snapshot[j], replies[j])
    ensures Landed(SyncPush(s, snapshot, replies), snapshot[i], replies[i])
  {
    var before := SyncPush(s, snapshot[..i], replies[..i]);
    var mid := PushOne(before, snapshot[i], replies[i]);
    var tailS, tailR := snapshot[i + 1..], replies[i + 1..];
    assert snapshot == snapshot[..i] + ([snapshot[i]] + tailS);
    assert replies == replies[..i] + ([replies[i]] + tailR);
    PushSplit(s, snapshot[..i], [snapshot[i]] + tailS, replies[..i], [replies[i]] + tailR);
    assert ([snapshot[i]] + tailS)[1..] == tailS;
    assert ([replies[i]] + tailR)[1..] == tailR;
    var final := SyncPush(mid, tailS, tailR);
    forall k | k in Touched(snapshot[i], replies[i]) ensures k !in TouchedBy(tailS, tailR) {
      forall j | 0 <= j < |tailS| ensures k !in Touched(tailS[j], tailR[j]) {
        assert tailS[j] == snapshot[i + 1 + j] && tailR[j] == replies[i + 1 + j];
      }
      TouchedByMembers(tailS, tailR, k);
    }
    LandedFramed(mid, final, snapshot[i], replies[i]);
  }

  /**
    Partial-failure isolation, failure side: a refused step has no effect
    at all, so the push is the same as one whose snapshot never held that
    record.
   */
  lemma PushRefusedIsSkipped(s: Store, snapshot: seq<Note>, replies: seq<NoteReply>, i: nat)
    requires |replies| == |snapshot|
    requires i < |snapshot|
    requires !Accepted(snapshot[i], replies[i])
    ensures SyncPush(s, snapshot, replies)
         == SyncPush(s, snapshot[..i] + snapshot[i + 1..], replies[..i] + replies[i + 1..])
  {
    var tailS, tailR := snapshot[i + 1..], replies[i + 1..];
    assert snapshot == snapshot[..i] + ([snapshot[i]] + tailS);
    assert replies == replies[..i] + ([replies[i]] + tailR);
    PushSplit(s, snapshot[..i], [snapshot[i]] + tailS, replies[..i], [replies[i]] + tailR);
    assert ([snapshot[i]] + tailS)[1..] == tailS;
    assert ([replies[i]] + tailR)[1..] == tailR;
    PushSplit(s, snapshot[..i], tailS, replies[..i], tailR);
  }

  /**
    A refused record is left exactly as it was (a tombstone stays a
    tombstone) when no other step writes its id.
   */
  lemma PushRefusedKeepsRecord(s: Store, snapshot: seq<Note>, replies: seq<NoteReply>, i: nat)
    requires |replies| == |snapshot|
    requires i < |snapshot|
    requires snapshot[i].id in s && s[snapshot[i].id] == snapshot[i]
    requires !Accepted(snapshot[i], replies[i])
    requires forall j | 0 <= j < |snapshot| && j != i :: snapshot[i].id !in Touched(snapshot[j], replies[j])
    ensures var r := SyncPush(s, snapshot, replies); snapshot[i].id in r && r[snapshot[i].id] == snapshot[i]
  {
    TouchedByMembers(snapshot, replies, snapshot[i].id);
  }

  /** An accepted update's server copy carries the id the update was sent for. */
  predicate KeepsId(note: Note, reply: NoteReply)
  {
    note.syncStatus == Updated && HasServerCopy(reply) ==> reply.body.value.id == note.id
  }

  /**
    Every pending row of the store is written by its own step when all
    replies are accepted and an update's reply keeps the note's id.
   */
  lemma PendingRowsAreTouched(s: Store, snapshot: seq<Note>, replies: seq<NoteReply>)
    requires |replies| == |snapshot|
    requires Lists(snapshot, GetUnsyncedNotes(s))
    requires forall i | 0 <= i < |snapshot| :: Accepted(snapshot[i], replies[i])
    requires forall i | 0 <= i < |snapshot| :: KeepsId(snapshot[i], replies[i])
    ensures forall k | k in s && s[k].syncStatus != Synced :: k in TouchedBy(snapshot, replies)
  {
    forall k | k in s && s[k].syncStatus != Synced ensures k in TouchedBy(snapshot, replies) {
      assert k in GetUnsyncedNotes(s);
      var i :| 0 <= i < |snapshot| && snapshot[i].id == k;
      assert k in Touched(snapshot[i], replies[i]);
      TouchedByMembers(snapshot, replies, k);
    }
  }

  /**
    Convergence: when the server accepts every pending record, echoes the id
    of every update and no two steps write the same id, the push leaves no
    pending record, so the next push makes no server call.
   */
  lemma FullyAcceptedPushSettlesAll(s: Store, snapshot: seq<Note>, replies: seq<NoteReply>)
    requires |replies| == |snapshot|
    requires Lists(snapshot, GetUnsyncedNotes(s))
    requires forall i | 0 <= i < |snapshot| :: Accepted(snapshot[i], replies[i])
    requires forall i | 0 <= i < |snapshot| :: KeepsId(snapshot[i], replies[i])
    requires FootprintsDisjoint(snapshot, replies)
    ensures forall k | k in SyncPush(s, snapshot, replies) :: SyncPush(s, snapshot, replies)[k].syncStatus == Synced
    ensures !HasUnsyncedChanges(SyncPush(s, snapshot, replies))
  {
    var r := SyncPush(s, snapshot, replies);
    PendingRowsAreTouched(s, snapshot, replies);
    forall k | k in r ensures r[k].syncStatus == Synced {
      TouchedByMembers(snapshot, replies, k);
      if k in TouchedBy(snapshot, replies) {
        var i :| 0 <= i < |snapshot| && k in Touched(snapshot[i], replies[i]);
        TouchedRowSettles(s, snapshot, replies, i, k);
      }
    }
  }

  /** A row an accepted step writes is SYNCED or gone once the push is over. */
  lemma TouchedRowSettles(s: Store, snapshot: seq<Note>, replies: seq<NoteReply>, i: nat, k: int)
    requires |replies| == |snapshot|
    requires i < |snapshot|
    requires Accepted(snapshot[i], replies[i]) && KeepsId(snapshot[i], replies[i])
    requires forall j | i < j < |snapshot| :: Touched(snapshot[i], replies[i]) !! Touched(snapshot[j], replies[j])
    requires k in Touched(snapshot[i], replies[i])
    ensures var r := SyncPush(s, snapshot, replies); k in r ==> r[k].syncStatus == Synced
  {
    PushStepLands(s, snapshot, replies, i);
  }

  /**
    A push over the pending rows calls the server once for every one of
    them: no listed record is SYNCED.
   */
  lemma EveryPendingRecordIsCalled(s: Store, snapshot: seq<Note>)
    requires Lists(snapshot, GetUnsyncedNotes(s))
    ensures CallsMade(snapshot) == |snapshot|
  {
    forall i | 0 <= i < |snapshot| ensures snapshot[i].syncStatus != Synced {
      assert snapshot[i].id in GetUnsyncedNotes(s);
    }
  }

  /**
    The records `CallsMade` counts are exactly those whose step depends on
    the server's reply: a SYNCED record is left alone whatever the reply,
    while a pending record's step changes the store when the server accepts.
   */
  lemma ReplyMattersIffPending(s: Store, note: Note)
    requires note.id in s && s[note.id] == note
    ensures note.syncStatus == Synced ==> forall reply :: PushOne(s, note, reply) == s
    ensures note.syncStatus != Synced ==> PushOne(s, note, NoteResponse(200, Some(ToNoteResponse(note)))) != s
  {
    if note.syncStatus != Synced {
      var r := PushOne(s, note, NoteResponse(200, Some(ToNoteResponse(note))));
      MappersRoundTrip(ToNoteResponse(note), note, Synced);
      if note.syncStatus == Deleted {
        assert note.id !in r;
      } else {
        assert r[note.id].syncStatus == Synced;
      }
    }
  }

  /**
    One push step carries out the transition table: a refused reply leaves
    every id as it was; an accepted delete removes the record; an accepted
    create settles the server's copy under the server id (and drops the
    temporary row); an accepted update that keeps its id settles the record.
    An accepted update whose server copy carries another id departs from
    the table: the copy is settled under that id and the record itself is
    left as it was, still UPDATED.
   */
  lemma PushOneFollowsTable(s: Store, note: Note, reply: NoteReply, k: int)
    ensures !Accepted(note, reply) ==>
      Realizes(s, PushOne(s, note, reply), k, Next(StatusAt(s, k), PushRefused))
    ensures Accepted(note, reply) && note.syncStatus == Deleted ==>
      Realizes(s, PushOne(s, note, reply), note.id, Next(Some(note.syncStatus), PushAccepted))
    ensures Accepted(note, reply) && note.syncStatus == New ==>
      && Realizes(s, PushOne(s, note, reply), reply.body.value.id, Next(Some(note.syncStatus), PushAccepted))
      && (note.id != reply.body.value.id ==> Realizes(s, PushOne(s, note, reply), note.id, Removed))
    ensures Accepted(note, reply) && note.syncStatus == Updated && KeepsId(note, reply) ==>
      Realizes(s, PushOne(s, note, reply), note.id, Next(Some(note.syncStatus), PushAccepted))
    ensures Accepted(note, reply) && note.syncStatus == Updated && !KeepsId(note, reply) ==>
      && Realizes(s, PushOne(s, note, reply), reply.body.value.id, Becomes(Synced))
      && Realizes(s, PushOne(s, note, reply), note.id, Unchanged)
  {
  }
}
