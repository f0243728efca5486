/**
  * The SQLite backend. Each SQL statement is one operation on the finite map
  * of rows; `ORDER BY created_at LIMIT k` may break ties in any way. The table
  * may start out over the limit, because `max_entries` can be lowered between
  * two runs over the same database file.
  */
module Persistence {
  import opened Types
  import opened Collections
  import opened Entries
  import Backends

  class EntryRepository {
    const maxEntries: nat
    var rows: Table

    constructor (file: Table, maxEntries: nat)
      ensures this.maxEntries == maxEntries && rows == file
    {
      this.maxEntries := maxEntries;
      rows := file;
    }

    method Insert(id: Id, body: seq<byte>, contentType: Option<string>, expiresAt: int, createdAt: int, sweptAt: int)
      returns (outcome: InsertOutcome, ghost victims: set<Id>)
      modifies this
      ensures id !in old(rows) ==> SqliteVictims(old(rows), maxEntries, sweptAt, victims)
      ensures (rows, outcome) == Entries.Insert(
          old(rows), maxEntries, id, NewRow(body, contentType, expiresAt, createdAt), sweptAt, victims)
      ensures Backends.Step(Backends.Sqlite, maxEntries, old(rows),
        Backends.InsertOp(id, body, contentType, expiresAt, createdAt, sweptAt), rows, Backends.Inserted(outcome))
    {
      var isNewId := id !in rows;
      victims := {};
      if isNewId {
        var room;
        room, victims := MakeRoom(sweptAt);
        if !room {
          return StoreFull, victims;
        }
      }
      rows := rows[id := NewRow(body, contentType, expiresAt, createdAt)];
      outcome := Stored;
    }

    /**
      * Frees one slot. `count` is tracked by arithmetic and never recounted; it
      * is a `nat`, so neither of the subtractions can underflow.
      */
    method MakeRoom(now: int) returns (room: bool, ghost victims: set<Id>)
      modifies this
      ensures SqliteVictims(old(rows), maxEntries, now, victims)
      ensures (rows, room) == Entries.MakeRoom(old(rows), maxEntries, now, victims)
    {
      victims := {};
      var count: nat := |rows|;
      if count < maxEntries {
        return true, victims;
      }
      DeleteSweptFacts(rows, now);
      var expiredIds := DeleteExpired(now);
      count := count - |expiredIds|;
      if count < maxEntries {
        return true, victims;
      }
      var entriesOverLimit: nat := count + 1 - maxEntries;
      var deleted;
      deleted, victims := DeleteOldestAcked(entriesOverLimit);
      count := count - deleted;
      room := count < maxEntries;
    }

    /** `DELETE ... WHERE expires_at < ?1 RETURNING id`. */
    method DeleteExpired(now: int) returns (expiredIds: set<Id>)
      modifies this
      ensures rows == DeleteSwept(old(rows), now)
      ensures expiredIds == SweptIds(old(rows), now)
    {
      expiredIds := set id | id in rows && Swept(rows[id], now);
      rows := rows - expiredIds;
    }

    /** `DELETE ... WHERE acked = 1 ORDER BY created_at ASC LIMIT ?1`; returns the number of rows. */
    method DeleteOldestAcked(limit: nat) returns (deleted: nat, ghost victims: set<Id>)
      modifies this
      ensures OldestAcked(old(rows), victims, limit)
      ensures rows == old(rows) - victims
      ensures deleted == |victims| && |rows| == |old(rows)| - deleted
    {
      OldestAckedExists(rows, limit);
      var selected :| OldestAcked(rows, selected, limit);
      RemoveKeysCardinality(rows, selected);
      rows := rows - selected;
      deleted := |selected|;
      victims := selected;
    }

    method Get(id: Id) returns (entry: Option<StoredEntry>)
      ensures entry == Lookup(rows, id)
      ensures Backends.Step(Backends.Sqlite, maxEntries, rows, Backends.GetOp(id), rows, Backends.Found(entry))
    {
      if id in rows {
        var e := rows[id];
        return Some(StoredEntry(e.body, e.contentType, e.acked, e.expiresAt));
      }
      return None;
    }

    method Ack(id: Id) returns (updated: bool)
      modifies this
      ensures updated <==> id in old(rows)
      ensures rows == AckRow(old(rows), id)
      ensures Backends.Step(
        Backends.Sqlite, maxEntries, old(rows), Backends.AckOp(id), rows, Backends.Acknowledged(updated))
    {
      updated := id in rows;
      if updated {
        rows := rows[id := rows[id].(acked := true, body := None)];
      }
    }

    method CleanupExpired(now: int) returns (expiredIds: set<Id>)
      modifies this
      ensures rows == DeleteSwept(old(rows), now)
      ensures expiredIds == SweptIds(old(rows), now)
      ensures Backends.Step(
        Backends.Sqlite, maxEntries, old(rows), Backends.CleanupOp(now), rows, Backends.CleanedUp(expiredIds))
    {
      expiredIds := DeleteExpired(now);
    }
  }

  /**
    * Admission from any starting count, over the limit or not: room is found
    * exactly when fewer than `max` rows hold an unexpired unacknowledged message.
    */
  lemma AdmissionIsExact(m: Table, max: nat, now: int, victims: set<Id>)
    requires SqliteVictims(m, max, now, victims)
    ensures MakeRoom(m, max, now, victims).1 <==> |UndeliveredIds(m, now)| < max
  {
    DeleteSweptFacts(m, now);
    if NeedsVictims(m, max, now) {
      RemoveKeysCardinality(DeleteSwept(m, now), victims);
    }
  }

  /**
    * When acknowledged rows have to go and that makes room, exactly `max - 1`
    * rows are left, every message row is among them, and no acknowledged row
    * is deleted before an older one.
    */
  lemma RecoversToOneFreeSlot(m: Table, max: nat, now: int, victims: set<Id>)
    requires SqliteVictims(m, max, now, victims)
    requires NeedsVictims(m, max, now) && MakeRoom(m, max, now, victims).1
    ensures var room := MakeRoom(m, max, now, victims).0;
      && |room| == max - 1
      && UndeliveredIds(m, now) <= room.Keys
      && (forall gone, kept :: gone in AckedIds(DeleteSwept(m, now)) - room.Keys && kept in AckedIds(room) ==>
            m[gone].createdAt <= m[kept].createdAt)
  {
    var m1 := DeleteSwept(m, now);
    DeleteSweptFacts(m, now);
    RemoveKeysCardinality(m1, victims);
    var room := MakeRoom(m, max, now, victims).0;
    assert AckedIds(m1) - room.Keys == victims;
    assert AckedIds(room) == AckedIds(m1) - victims;
  }

  /** Every attempt, failed ones included, deletes only expired or acknowledged rows and changes no other. */
  lemma NeverLosesAMessage(m: Table, max: nat, now: int, victims: set<Id>)
    requires SqliteVictims(m, max, now, victims)
    ensures var room := MakeRoom(m, max, now, victims).0;
      && room.Keys <= m.Keys
      && UndeliveredIds(m, now) <= room.Keys
      && (forall id :: id in room ==> room[id] == m[id])
  {
    if NeedsVictims(m, max, now) {
      assert victims <= AckedIds(DeleteSwept(m, now));
    }
  }

  /** When the SQLite repository rejects a message, on the columns, from a table of any size. */
  lemma SqliteRejectsExactly(m: Table, max: nat, id: Id, row: Entry, now: int, victims: set<Id>)
    requires id !in m ==> SqliteVictims(m, max, now, victims)
    ensures var (after, outcome) := Entries.Insert(m, max, id, row, now, victims);
      && (outcome == StoreFull <==>
            id !in m && |set j | j in m && !m[j].acked && m[j].expiresAt >= now| >= max)
      && (outcome != StoreFull ==> id in after && after[id] == row)
      && (forall j :: j in after && j != id ==> j in m && after[j] == m[j])
  {
    UndeliveredExactly(m, now);
    if id !in m {
      AdmissionIsExact(m, max, now, victims);
      NeverLosesAMessage(m, max, now, victims);
    }
    hide MakeRoom, SqliteVictims, UndeliveredIds;
  }

  /**
    * Which rows it deletes for a new ID: none below the limit, else the expired
    * ones, and if that is not enough, oldest acknowledged ones, down to one
    * free slot, or all of them where there is no room.
    */
  lemma SqliteDeletesExactly(m: Table, max: nat, now: int, victims: set<Id>)
    requires SqliteVictims(m, max, now, victims)
    ensures var (room, ok) := MakeRoom(m, max, now, victims);
      var live := set j | j in m && m[j].expiresAt >= now;
      var undelivered := set j | j in m && !m[j].acked && m[j].expiresAt >= now;
      if |m| < max then room == m
      else if |live| < max then room.Keys == live
      else
        && undelivered <= room.Keys <= live
        && (if ok then |room| == max - 1 else room.Keys == undelivered)
        && (forall gone, kept :: gone in live - room.Keys && kept in room && m[kept].acked ==>
              m[gone].createdAt <= m[kept].createdAt)
  {
    SweptExactly(m, now);
    UndeliveredExactly(m, now);
    hide SweptIds, DeleteSwept, UndeliveredIds;
    var m1 := DeleteSwept(m, now);
    assert m1.Keys == set j | j in m && m[j].expiresAt >= now;
    assert |m1| == |m1.Keys|;
    if NeedsVictims(m, max, now) {
      SqliteVictimsGo(m, max, now, victims);
      hide MakeRoom, OldestAcked;
    }
  }

  /** The acknowledged rows SQLite deletes where the expired ones do not make enough room. */
  lemma SqliteVictimsGo(m: Table, max: nat, now: int, victims: set<Id>)
    requires SqliteVictims(m, max, now, victims) && NeedsVictims(m, max, now)
    ensures var (room, ok) := MakeRoom(m, max, now, victims);
      var left := DeleteSwept(m, now);
      && UndeliveredIds(m, now) <= room.Keys <= left.Keys && (forall j :: j in room ==> room[j] == m[j])
      && (if ok then |room| == max - 1 else room.Keys == UndeliveredIds(m, now))
      && (forall gone, kept :: gone in left.Keys - room.Keys && kept in room && m[kept].acked ==>
            m[gone].createdAt <= m[kept].createdAt)
  {
    NeverLosesAMessage(m, max, now, victims);
    if MakeRoom(m, max, now, victims).1 {
      RecoversToOneFreeSlot(m, max, now, victims);
    }
    DeleteSweptFacts(m, now);
    var m1 := DeleteSwept(m, now);
    RemoveKeysCardinality(m1, victims);
    SubsetCardinality(victims, AckedIds(m1));
    hide SweptIds, UndeliveredIds;
  }
}
