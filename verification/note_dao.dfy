/**
  The local replica store: the `notes` table, keyed by the `id` column,
  and the queries and mutations of its data access object.
 */
module NoteDao {
  import opened Basics
  import opened NoteEntity

  /** The table as a map from primary key to row. */
  type Store = map<int, Note>

  /**
    The primary-key invariant: every row is stored under its own id, so at
    most one record exists per id.
   */
  predicate WellKeyed(s: Store)
  {
    forall id | id in s :: s[id].id == id
  }

  /** A record the user can see: anything but a tombstone. */
  predicate Visible(n: Note)
  {
    n.syncStatus != Deleted
  }

  /**
    A set without members is empty. Stated as an implication so that a
    non-empty set can be shown to have a member.
   */
  lemma EmptyIfNoMembers(S: set<int>)
    ensures (forall x :: x !in S) ==> S == {}
  {
    if forall x :: x !in S {
      var e: set<int> := {};
      assert forall x :: x in S <==> x in e;
      assert S == e;
    }
  }

  /** The ids of a list of records. */
  function IdsOf(ns: seq<Note>): set<int>
  {
    set i | 0 <= i < |ns| :: ns[i].id
  }

  /** No two records of a list share an id. */
  predicate DistinctIds(ns: seq<Note>)
  {
    forall i, j | 0 <= i < j < |ns| :: ns[i].id != ns[j].id
  }

  /**
    A sequence lists the rows of a (sub-)table: each listed record is the
    row stored under its id, no id is listed twice, and every row is listed.
   */
  predicate Lists(ns: seq<Note>, m: Store)
  {
    && (forall i | 0 <= i < |ns| :: ns[i].id in m && m[ns[i].id] == ns[i])
    && DistinctIds(ns)
    && (forall id | id in m :: id in IdsOf(ns))
  }

  /** Only the empty list lists an empty table. */
  lemma ListingOfEmpty(ns: seq<Note>, m: Store)
    requires Lists(ns, m)
    ensures m == map[] ==> ns == []
  {
    assert |ns| > 0 ==> ns[0].id in m;
  }

  /** `ORDER BY updatedAt DESC`. */
  predicate NewestFirst(ns: seq<Note>)
  {
    forall i, j | 0 <= i < j < |ns| :: ns[i].updatedAt >= ns[j].updatedAt
  }

  /** The rows `getAllNotes` selects: everything except tombstones. */
  function VisibleRows(s: Store): (m: Store)
    ensures m.Keys <= s.Keys
    ensures forall id | id in m :: m[id] == s[id] && Visible(s[id])
    ensures forall id | id in s && Visible(s[id]) :: id in m
  {
    map id | id in s && Visible(s[id]) :: s[id]
  }

  /** The ids of a list with one record in front. */
  lemma IdsOfCons(n: Note, ns: seq<Note>)
    ensures IdsOf([n] + ns) == {n.id} + IdsOf(ns)
  {
    var ms := [n] + ns;
    forall id | id in IdsOf(ns) ensures id in IdsOf(ms) {
      var i :| 0 <= i < |ns| && ns[i].id == id;
      assert ms[i + 1].id == id;
    }
    forall id | id in IdsOf(ms) ensures id in {n.id} + IdsOf(ns) {
      var i :| 0 <= i < |ms| && ms[i].id == id;
      if i > 0 {
        assert ns[i - 1].id == id;
      }
    }
    assert ms[0].id == n.id;
  }

  /** A record no older than any of a newest-first list can go in front. */
  lemma ConsNewestFirst(h: Note, ns: seq<Note>)
    requires NewestFirst(ns)
    requires forall i | 0 <= i < |ns| :: h.updatedAt >= ns[i].updatedAt
    ensures NewestFirst([h] + ns)
  {
    var ms := [h] + ns;
    forall i, j | 0 <= i < j < |ms| ensures ms[i].updatedAt >= ms[j].updatedAt {
      assert ms[j] == ns[j - 1];
      if i > 0 {
        assert ms[i] == ns[i - 1];
      }
    }
  }

  /** A record whose id a distinct list lacks can go in front. */
  lemma ConsDistinct(h: Note, ns: seq<Note>)
    requires DistinctIds(ns) && h.id !in IdsOf(ns)
    ensures DistinctIds([h] + ns)
  {
    var ms := [h] + ns;
    forall i, j | 0 <= i < j < |ms| ensures ms[i].id != ms[j].id {
      assert ms[j] == ns[j - 1];
      if i > 0 {
        assert ms[i] == ns[i - 1];
      } else {
        assert ns[j - 1].id in IdsOf(ns);
      }
    }
  }

  /** The head of a newest-first list is no older than anything drawn from its tail or older than it. */
  lemma NoNewerThanHead(ns: seq<Note>, n: Note, rest: seq<Note>)
    requires |ns| > 0 && NewestFirst(ns)
    requires ns[0].updatedAt > n.updatedAt
    requires forall i | 0 <= i < |rest| :: rest[i] == n || rest[i] in ns[1..]
    ensures forall i | 0 <= i < |rest| :: ns[0].updatedAt >= rest[i].updatedAt
  {
    forall i | 0 <= i < |rest| ensures ns[0].updatedAt >= rest[i].updatedAt {
      if rest[i] != n {
        var k :| 0 <= k < |ns[1..]| && ns[1..][k] == rest[i];
        assert ns[k + 1] == rest[i];
      }
    }
  }

  /** Putting a record no older than the rest in front keeps the list's order, ids and distinctness. */
  lemma ConsKeeps(h: Note, ns: seq<Note>)
    requires NewestFirst(ns)
    requires forall i | 0 <= i < |ns| :: h.updatedAt >= ns[i].updatedAt
    ensures NewestFirst([h] + ns)
    ensures IdsOf([h] + ns) == {h.id} + IdsOf(ns)
    ensures DistinctIds(ns) && h.id !in IdsOf(ns) ==> DistinctIds([h] + ns)
  {
    ConsNewestFirst(h, ns);
    IdsOfCons(h, ns);
    if DistinctIds(ns) && h.id !in IdsOf(ns) {
      ConsDistinct(h, ns);
    }
  }

  /** The head of a distinct list stays apart from its tail after a fresh record joins the tail. */
  lemma HeadStaysDistinct(ns: seq<Note>, n: Note, rest: seq<Note>)
    requires |ns| > 0
    requires IdsOf(rest) == IdsOf(ns[1..]) + {n.id}
    requires DistinctIds(ns[1..]) && n.id !in IdsOf(ns[1..]) ==> DistinctIds(rest)
    ensures DistinctIds(ns) && n.id !in IdsOf(ns) ==> DistinctIds(rest) && ns[0].id !in IdsOf(rest)
  {
    var tail := ns[1..];
    assert ns == [ns[0]] + tail;
    IdsOfCons(ns[0], tail);
    if DistinctIds(ns) && n.id !in IdsOf(ns) {
      assert DistinctIds(tail);
    }
  }

  /** Inserts a record into a newest-first list, keeping it newest first. */
  function InsertByRecency(ns: seq<Note>, n: Note): (r: seq<Note>)
    requires NewestFirst(ns)
    ensures NewestFirst(r)
    ensures forall i | 0 <= i < |r| :: r[i] == n || r[i] in ns
    ensures IdsOf(r) == IdsOf(ns) + {n.id}
    ensures DistinctIds(ns) && n.id !in IdsOf(ns) ==> DistinctIds(r)
  {
    if |ns| == 0 then
      IdsOfCons(n, ns);
      assert [n] + ns == [n];
      [n]
    else if ns[0].updatedAt <= n.updatedAt then
      ConsKeeps(n, ns);
      [n] + ns
    else
      var rest := InsertByRecency(ns[1..], n);
      NoNewerThanHead(ns, n, rest);
      ConsKeeps(ns[0], rest);
      HeadStaysDistinct(ns, n, rest);
      IdsOfCons(ns[0], ns[1..]);
      assert ns == [ns[0]] + ns[1..];
      [ns[0]] + rest
  }

  /** Insertion neither loses nor duplicates a record: the result is a permutation of `ns` plus `n`. */
  lemma {:induction false} InsertByRecencyPermutes(ns: seq<Note>, n: Note)
    requires NewestFirst(ns)
    ensures multiset(InsertByRecency(ns, n)) == multiset(ns) + multiset{n}
  {
    if |ns| != 0 && ns[0].updatedAt > n.updatedAt {
      InsertByRecencyPermutes(ns[1..], n);
      assert ns == [ns[0]] + ns[1..];
    }
  }

  /**
    `getAllNotes`: every non-tombstone record exactly once, newest first.
    Rows with equal `updatedAt` may come in any order, as in SQL.
   */
  method GetAllNotes(s: Store) returns (r: seq<Note>)
    requires WellKeyed(s)
    ensures NewestFirst(r)
    ensures Lists(r, VisibleRows(s))
    ensures forall i | 0 <= i < |r| :: Visible(r[i]) && GetNoteById(s, r[i].id) == Some(r[i])
  {
    r := [];
    var rest := s.Keys;
    ghost var shown: set<int> := {};
    while rest != {}
      invariant rest !! shown && rest + shown == s.Keys
      invariant NewestFirst(r)
      invariant forall i | 0 <= i < |r| :: r[i].id in shown && s[r[i].id] == r[i] && Visible(r[i])
      invariant DistinctIds(r)
      invariant forall id | id in shown && Visible(s[id]) :: id in IdsOf(r)
      decreases rest
    {
      EmptyIfNoMembers(rest);
      var k :| k in rest;
      if Visible(s[k]) {
        r := InsertByRecency(r, s[k]);
      }
      rest := rest - {k};
      shown := shown + {k};
    }
  }

  /** `getNoteById`: the record under `id`, hidden when it is a tombstone. */
  function GetNoteById(s: Store, id: int): (r: Option<Note>)
    ensures r.Some? <==> id in s && Visible(s[id])
    ensures r.Some? ==> r.value == s[id]
    ensures r.Some? <==> id in VisibleRows(s)
  {
    if id in s && Visible(s[id]) then Some(s[id]) else None
  }

  /** `upsertNote`: stores the record under its id, replacing any previous row. */
  function UpsertNote(s: Store, n: Note): (r: Store)
    ensures r.Keys == s.Keys + {n.id}
    ensures r[n.id] == n
    ensures forall id | id in s && id != n.id :: r[id] == s[id]
    ensures WellKeyed(s) ==> WellKeyed(r)
  {
    s[n.id := n]
  }

  /** The last record of a list with the given id, if any. */
  function LastWithId(ns: seq<Note>, id: int): (r: Option<Note>)
    ensures r.Some? <==> id in IdsOf(ns)
    ensures r.Some? ==> r.value.id == id && r.value in ns
  {
    if |ns| == 0 then None
    else if ns[|ns| - 1].id == id then Some(ns[|ns| - 1])
    else
      assert IdsOf(ns) == IdsOf(ns[..|ns| - 1]) + {ns[|ns| - 1].id};
      LastWithId(ns[..|ns| - 1], id)
  }

  /**
    `upsertAll`: the records are upserted in list order, so for an id that
    occurs several times the last occurrence wins.
   */
  function UpsertAll(s: Store, ns: seq<Note>): (r: Store)
    ensures r.Keys == s.Keys + IdsOf(ns)
    ensures forall id | id in IdsOf(ns) :: r[id] == LastWithId(ns, id).value
    ensures forall id | id in s && id !in IdsOf(ns) :: r[id] == s[id]
    ensures WellKeyed(s) ==> WellKeyed(r)
    decreases |ns|
  {
    if |ns| == 0 then s
    else
      assert IdsOf(ns) == IdsOf(ns[..|ns| - 1]) + {ns[|ns| - 1].id};
      UpsertNote(UpsertAll(s, ns[..|ns| - 1]), ns[|ns| - 1])
  }

  /** `deleteNoteById`: removes the row under `id`; an absent id is a no-op. */
  function DeleteNoteById(s: Store, id: int): (r: Store)
    ensures r.Keys == s.Keys - {id}
    ensures forall k | k in r :: r[k] == s[k]
    ensures id !in s ==> r == s
    ensures WellKeyed(s) ==> WellKeyed(r)
  {
    s - {id}
  }

  /**
    `deleteNotesByIds`: removes every listed id. The SQL `IN` only tests
    membership, so the id list is modelled as a set.
   */
  function DeleteNotesByIds(s: Store, ids: set<int>): (r: Store)
    ensures r.Keys == s.Keys - ids
    ensures forall k | k in r :: r[k] == s[k]
    ensures ids !! s.Keys ==> r == s
    ensures WellKeyed(s) ==> WellKeyed(r)
  {
    s - ids
  }

  /** `getUnsyncedNotes`: the rows whose marker is not SYNCED. */
  function GetUnsyncedNotes(s: Store): (m: Store)
    ensures m.Keys <= s.Keys
    ensures forall id | id in m :: m[id] == s[id] && s[id].syncStatus != Synced
    ensures forall id | id in s && s[id].syncStatus != Synced :: id in m
  {
    map id | id in s && s[id].syncStatus != Synced :: s[id]
  }

  /** `getLocalSyncedNotes`: the rows whose marker is SYNCED. */
  function GetLocalSyncedNotes(s: Store): (m: Store)
    ensures m.Keys <= s.Keys
    ensures forall id | id in m :: m[id] == s[id] && s[id].syncStatus == Synced
    ensures forall id | id in s && s[id].syncStatus == Synced :: id in m
  {
    map id | id in s && s[id].syncStatus == Synced :: s[id]
  }

  /** The two status queries split the table into two disjoint halves. */
  lemma SyncedUnsyncedPartition(s: Store)
    ensures GetUnsyncedNotes(s).Keys !! GetLocalSyncedNotes(s).Keys
    ensures GetUnsyncedNotes(s) + GetLocalSyncedNotes(s) == s
  {
  }

  /** `clearAll`: the table ends up empty. */
  function ClearAll(): (r: Store)
    ensures |r| == 0
    ensures WellKeyed(r)
  {
    map[]
  }

  /**
    `replaceNote`, one transaction: the row under `oldId` goes away (unless
    the new record reuses that id), the new record is stored under its own
    id, and every other row is untouched.
   */
  function ReplaceNote(s: Store, oldId: int, n: Note): (r: Store)
    ensures r.Keys == (s.Keys - {oldId}) + {n.id}
    ensures oldId != n.id ==> oldId !in r
    ensures r[n.id] == n
    ensures forall id | id in s && id != oldId && id != n.id :: r[id] == s[id]
    ensures WellKeyed(s) ==> WellKeyed(r)
  {
    UpsertNote(DeleteNoteById(s, oldId), n)
  }
}
