/**
  * The stored rows as a finite map, and the capacity rule both storage backends
  * follow: expired rows may go, acknowledged rows may go oldest first, and a
  * row that still holds an unexpired message never goes.
  */
module Entries {
  import opened Types
  import opened Collections

  type Table = map<Id, Entry>

  /** The form deletion uses: a row is swept only strictly after its expiry. */
  predicate Swept(e: Entry, now: int) {
    e.expiresAt < now
  }

  /** The form readers use: a row stops being visible at its expiry. */
  predicate ExpiredForReaders(e: Entry, now: int) {
    now >= e.expiresAt
  }

  ghost function SweptIds(m: Table, now: int): set<Id> {
    set id | id in m && Swept(m[id], now)
  }

  function AckedIds(m: Table): set<Id> {
    set id | id in m && m[id].acked
  }

  /** The rows nothing may delete to make room. */
  ghost function UndeliveredIds(m: Table, now: int): set<Id> {
    set id | id in m && !m[id].acked && !Swept(m[id], now)
  }

  ghost function DeleteSwept(m: Table, now: int): Table {
    m - SweptIds(m, now)
  }

  /** `victims` are `k` acknowledged rows (all of them if there are fewer), none newer than a kept one. */
  predicate OldestAcked(m: Table, victims: set<Id>, k: nat) {
    && victims <= AckedIds(m)
    && |victims| == (if k <= |AckedIds(m)| then k else |AckedIds(m)|)
    && forall a, b :: a in victims && b in AckedIds(m) - victims ==> m[a].createdAt <= m[b].createdAt
  }

  /** Marks a row acknowledged and clears its body. */
  ghost function AckRow(m: Table, id: Id): Table {
    if id in m then m[id := m[id].(acked := true, body := None)] else m
  }

  ghost function Lookup(m: Table, id: Id): Option<StoredEntry> {
    if id in m then Some(StoredEntry(m[id].body, m[id].contentType, m[id].acked, m[id].expiresAt)) else None
  }

  function NewRow(body: seq<byte>, contentType: Option<string>, expiresAt: int, createdAt: int): Entry {
    Entry(Some(body), contentType, false, expiresAt, createdAt)
  }

  lemma DeleteSweptFacts(m: Table, now: int)
    ensures |DeleteSwept(m, now)| == |m| - |SweptIds(m, now)|
    ensures AckedIds(DeleteSwept(m, now)) + UndeliveredIds(m, now) == DeleteSwept(m, now).Keys
    ensures |DeleteSwept(m, now)| == |AckedIds(DeleteSwept(m, now))| + |UndeliveredIds(m, now)|
  {
    RemoveKeysCardinality(m, SweptIds(m, now));
    var m1 := DeleteSwept(m, now);
    assert AckedIds(m1) + UndeliveredIds(m, now) == m1.Keys;
    assert AckedIds(m1) !! UndeliveredIds(m, now);
    assert |m1| == |m1.Keys|;
  }

  /** A selection of oldest acknowledged rows exists for every size. */
  lemma {:induction false} OldestAckedExists(m: Table, k: nat)
    ensures exists victims :: OldestAcked(m, victims, k)
    decreases k
  {
    if k == 0 {
      assert OldestAcked(m, {}, 0);
    } else {
      OldestAckedExists(m, k - 1);
      var s :| OldestAcked(m, s, k - 1);
      var rest := AckedIds(m) - s;
      SubsetCardinality(s, AckedIds(m));
      if rest == {} {
        assert s == AckedIds(m);
        assert OldestAcked(m, s, k);
      } else {
        var v := OldestOf(m, rest);
        assert OldestAcked(m, s + {v}, k) by {
          assert |rest| == |AckedIds(m)| - |s|;
        }
      }
    }
  }

  lemma {:induction false} OldestOf(m: Table, ids: set<Id>) returns (v: Id)
    requires ids != {} && ids <= m.Keys
    ensures v in ids && forall j :: j in ids ==> m[v].createdAt <= m[j].createdAt
    decreases ids
  {
    v :| v in ids;
    if ids != {v} {
      var w := OldestOf(m, ids - {v});
      if m[w].createdAt < m[v].createdAt {
        v := w;
      }
    }
  }

  // ----- Making room and inserting ---------------------------------------

  /** Whether making room gets as far as deleting acknowledged rows. */
  ghost predicate NeedsVictims(m: Table, max: nat, now: int) {
    |m| >= max && |DeleteSwept(m, now)| >= max
  }

  /** Rows left and whether a slot is free, when `victims` are the acknowledged rows deleted. */
  ghost function MakeRoom(m: Table, max: nat, now: int, victims: set<Id>): (Table, bool) {
    if |m| < max then (m, true)
    else if |DeleteSwept(m, now)| < max then (DeleteSwept(m, now), true)
    else (DeleteSwept(m, now) - victims, |DeleteSwept(m, now) - victims| < max)
  }

  /** Replacing a row needs no room; a new row is written only if there is a slot. */
  ghost function Insert(m: Table, max: nat, id: Id, row: Entry, now: int, victims: set<Id>): (Table, InsertOutcome) {
    if id in m then (m[id := row], Stored)
    else
      var (room, ok) := MakeRoom(m, max, now, victims);
      if ok then (room[id := row], Stored) else (room, StoreFull)
  }

  /** The HashMap backend deletes at most one acknowledged row. */
  ghost predicate MemoryVictims(m: Table, max: nat, now: int, victims: set<Id>) {
    NeedsVictims(m, max, now) ==> OldestAcked(DeleteSwept(m, now), victims, 1)
  }

  /** A choice of `k` victims for when some are needed. */
  lemma VictimsOf(m: Table, max: nat, now: int, k: nat) returns (victims: set<Id>)
    ensures NeedsVictims(m, max, now) ==> OldestAcked(DeleteSwept(m, now), victims, k)
  {
    OldestAckedExists(DeleteSwept(m, now), k);
    victims :| OldestAcked(DeleteSwept(m, now), victims, k);
  }

  /** The SQLite backend deletes as many as it is over `max - 1`. */
  ghost predicate SqliteVictims(m: Table, max: nat, now: int, victims: set<Id>) {
    NeedsVictims(m, max, now) ==> OldestAcked(DeleteSwept(m, now), victims, |DeleteSwept(m, now)| + 1 - max)
  }

  /** The rows that making room deletes from a store within its limit. */
  ghost function RoomDeletes(m: Table, max: nat, now: int, victims: set<Id>): set<Id> {
    if |m| < max then {} else if SweptIds(m, now) != {} then SweptIds(m, now) else victims
  }

  /** Why those rows may go: nothing, everything expired, or one oldest acknowledged row when nothing has expired. */
  ghost predicate MayDelete(m: Table, max: nat, now: int, gone: set<Id>) {
    || gone == {}
    || (|m| >= max && gone == SweptIds(m, now))
    || (|m| >= max && SweptIds(m, now) == {} && OldestAcked(m, gone, 1))
  }

  lemma FullStoreLosesARow(m: Table, max: nat, now: int)
    requires |m| <= max
    ensures |DeleteSwept(m, now)| >= max <==> |m| == max && SweptIds(m, now) == {}
    ensures SweptIds(m, now) == {} ==> DeleteSwept(m, now) == m
  {
    DeleteSweptFacts(m, now);
    if SweptIds(m, now) != {} {
      var some :| some in SweptIds(m, now);
      SubsetCardinality({some}, SweptIds(m, now));
    } else {
      assert DeleteSwept(m, now) == m;
    }
  }

  lemma RoomIsWhatIsLeft(m: Table, max: nat, now: int, victims: set<Id>)
    requires |m| <= max
    requires MemoryVictims(m, max, now, victims)
    ensures RoomDeletes(m, max, now, victims) <= m.Keys
    ensures MakeRoom(m, max, now, victims).0 == m - RoomDeletes(m, max, now, victims)
    ensures MayDelete(m, max, now, RoomDeletes(m, max, now, victims))
  {
    FullStoreLosesARow(m, max, now);
    if |m| < max {
      assert m - {} == m;
    }
  }

  lemma RoomIsExact(m: Table, max: nat, now: int, victims: set<Id>)
    requires |m| <= max
    requires MemoryVictims(m, max, now, victims)
    ensures var (room, ok) := MakeRoom(m, max, now, victims);
      && (ok <==> |UndeliveredIds(m, now)| < max)
      && (ok ==> |room| < max)
      && (!ok ==> room == m)
  {
    FullStoreLosesARow(m, max, now);
    DeleteSweptFacts(m, now);
    assert |UndeliveredIds(m, now)| <= |DeleteSwept(m, now)| <= |m|;
    if |m| == max && SweptIds(m, now) == {} {
      RemoveKeysCardinality(m, victims);
      if victims == {} {
        assert m - victims == m;
      }
    }
  }

  /** The rows an insert deletes. */
  ghost function Deleted(m: Table, after: Table): set<Id> {
    m.Keys - after.Keys
  }

  /**
    * Inserting is exact: the limit holds afterwards; the message is rejected
    * exactly when the ID is new and every slot holds an unexpired unacknowledged
    * message, and then nothing changes; otherwise the row is written, every other
    * row is kept unchanged or deleted, and what is deleted is only what may be.
    */
  lemma InsertExact(m: Table, max: nat, id: Id, row: Entry, now: int, victims: set<Id>)
    requires |m| <= max
    requires id !in m ==> MemoryVictims(m, max, now, victims)
    ensures var (after, outcome) := Insert(m, max, id, row, now, victims);
      && |after| <= max
      && (outcome == StoreFull <==> id !in m && |UndeliveredIds(m, now)| >= max)
      && (outcome == StoreFull ==> after == m)
      && (outcome == Stored ==> after == (m - Deleted(m, after))[id := row])
      && MayDelete(m, max, now, Deleted(m, after))
      && (Deleted(m, after) != {} ==> id !in m)
  {
    if id in m {
      ReplaceDeletesNothing(m, id, row);
    } else {
      RoomIsExact(m, max, now, victims);
      if MakeRoom(m, max, now, victims).1 {
        RoomIsWhatIsLeft(m, max, now, victims);
        WrittenIntoRoom(m, RoomDeletes(m, max, now, victims), id, row);
      } else {
        assert Deleted(m, m) == {};
      }
    }
  }

  lemma WrittenIntoRoom(m: Table, gone: set<Id>, id: Id, row: Entry)
    requires id !in m && gone <= m.Keys
    ensures Deleted(m, (m - gone)[id := row]) == gone
    ensures |(m - gone)[id := row]| == |m - gone| + 1
  {
    UpdateCardinality(m - gone, id, row);
    assert Deleted(m, (m - gone)[id := row]) == gone;
  }

  lemma ReplaceDeletesNothing(m: Table, id: Id, row: Entry)
    requires id in m
    ensures Deleted(m, m[id := row]) == {}
    ensures m - Deleted(m, m[id := row]) == m
    ensures |m[id := row]| == |m|
  {
    UpdateCardinality(m, id, row);
    assert Deleted(m, m[id := row]) == {};
    assert m - {} == m;
  }

  // ----- The rule written out on the columns ------------------------------

  /** Deletion by expiry, on the columns: a row goes if and only if `expiresAt < now`. */
  lemma SweptExactly(m: Table, now: int)
    ensures SweptIds(m, now) == set id | id in m && m[id].expiresAt < now
    ensures forall id :: id in DeleteSwept(m, now) <==> id in m && m[id].expiresAt >= now
    ensures forall id :: id in DeleteSwept(m, now) ==> DeleteSwept(m, now)[id] == m[id]
  {
  }

  /** The rows that hold an unexpired unacknowledged message, on the columns. */
  lemma UndeliveredExactly(m: Table, now: int)
    ensures UndeliveredIds(m, now) == set id | id in m && !m[id].acked && m[id].expiresAt >= now
  {
  }

  /** When the HashMap store rejects a message, and that it then changes nothing. */
  lemma HashMapRejectsExactly(m: Table, max: nat, id: Id, row: Entry, now: int, victims: set<Id>)
    requires |m| <= max
    requires id !in m ==> MemoryVictims(m, max, now, victims)
    ensures var (after, outcome) := Insert(m, max, id, row, now, victims);
      && (outcome == StoreFull <==>
            id !in m && |set j | j in m && !m[j].acked && m[j].expiresAt >= now| >= max)
      && (outcome == StoreFull ==> after == m)
      && (outcome != StoreFull ==> id in after && after[id] == row)
      && (forall j :: j in after && j != id ==> j in m && after[j] == m[j])
  {
    InsertExact(m, max, id, row, now, victims);
    UndeliveredExactly(m, now);
    var (after, outcome) := Insert(m, max, id, row, now, victims);
    hide Insert, MemoryVictims, MayDelete, UndeliveredIds;
    if outcome == Stored {
      assert after == (m - Deleted(m, after))[id := row];
    }
  }

  /** Which rows the HashMap store gives up for a message: none, all expired ones, or one oldest acknowledged one. */
  lemma HashMapDeletesExactly(m: Table, max: nat, id: Id, row: Entry, now: int, victims: set<Id>)
    requires |m| <= max
    requires id !in m ==> MemoryVictims(m, max, now, victims)
    requires Insert(m, max, id, row, now, victims).1 == Stored
    ensures var after := Insert(m, max, id, row, now, victims).0;
      if id in m || |m| < max then forall j :: j in m ==> j in after
      else if exists j :: j in m && m[j].expiresAt < now then
        forall j :: j in m ==> (j in after <==> m[j].expiresAt >= now)
      else exists gone ::
        && gone in m && m[gone].acked
        && (forall j :: j in m && m[j].acked ==> m[gone].createdAt <= m[j].createdAt)
        && (forall j :: j in m ==> (j in after <==> j != gone))
  {
    if id !in m && |m| == max {
      FullStoreLosesARow(m, max, now);
      SweptExactly(m, now);
      if SweptIds(m, now) == {} {
        OneVictim(m, max, id, row, now, victims);
      } else {
        var j :| j in SweptIds(m, now);
        assert j in m && m[j].expiresAt < now;
      }
    }
  }

  lemma OneVictim(m: Table, max: nat, id: Id, row: Entry, now: int, victims: set<Id>)
    requires |m| == max && id !in m && SweptIds(m, now) == {} && DeleteSwept(m, now) == m
    requires MemoryVictims(m, max, now, victims)
    requires Insert(m, max, id, row, now, victims).1 == Stored
    ensures var after := Insert(m, max, id, row, now, victims).0;
      exists gone ::
        && gone in m && m[gone].acked
        && (forall j :: j in m && m[j].acked ==> m[gone].createdAt <= m[j].createdAt)
        && (forall j :: j in m ==> (j in after <==> j != gone))
  {
    assert m - {} == m;
    var gone :| gone in victims;
    SubsetCardinality({gone}, victims);
    assert victims == {gone};
    assert gone in m && m[gone].acked;
    forall j | j in m && m[j].acked
      ensures m[gone].createdAt <= m[j].createdAt
    {
      if j != gone {
        assert j in AckedIds(m) - victims;
      }
    }
  }
}
