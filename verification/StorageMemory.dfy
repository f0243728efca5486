/** The HashMap backend: rows live in a map that its methods change in place. */
module StorageMemory {
  import opened Types
  import opened Collections
  import opened Entries
  import Backends

  class EntryRepository {
    const maxEntries: nat
    var entries: Table

    constructor (maxEntries: nat)
      ensures this.maxEntries == maxEntries && entries == map[]
    {
      this.maxEntries := maxEntries;
      entries := map[];
    }

    /** Inserts or replaces a row. `createdAt` and `sweptAt` are the clock readings the call makes. */
    method Insert(id: Id, body: seq<byte>, contentType: Option<string>, expiresAt: int, createdAt: int, sweptAt: int)
      returns (outcome: InsertOutcome, ghost victims: set<Id>)
      modifies this
      ensures id !in old(entries) ==> MemoryVictims(old(entries), maxEntries, sweptAt, victims)
      ensures (entries, outcome) == Entries.Insert(
          old(entries), maxEntries, id, NewRow(body, contentType, expiresAt, createdAt), sweptAt, victims)
      ensures Backends.Step(Backends.Memory, maxEntries, old(entries),
        Backends.InsertOp(id, body, contentType, expiresAt, createdAt, sweptAt), entries, Backends.Inserted(outcome))
    {
      var isNewId := id !in entries;
      victims := {};
      if isNewId {
        var room;
        room, victims := MakeRoom(sweptAt);
        if !room {
          return StoreFull, victims;
        }
      }
      entries := entries[id := NewRow(body, contentType, expiresAt, createdAt)];
      outcome := Stored;
    }

    /** Frees one slot if the store is full; returns whether a slot is available. */
    method MakeRoom(now: int) returns (room: bool, ghost victims: set<Id>)
      modifies this
      ensures MemoryVictims(old(entries), maxEntries, now, victims)
      ensures (entries, room) == Entries.MakeRoom(old(entries), maxEntries, now, victims)
    {
      victims := {};
      if |entries| < maxEntries {
        return true, victims;
      }
      var _ := DeleteExpired(now);
      if |entries| < maxEntries {
        return true, victims;
      }
      var oldest := OldestAckedId();
      match oldest {
        case Some(id) =>
          victims := {id};
          assert {id} <= AckedIds(entries);
          SubsetCardinality({id}, AckedIds(entries));
          entries := entries - {id};
        case None =>
          assert AckedIds(entries) == {};
          assert entries - {} == entries;
      }
      room := |entries| < maxEntries;
    }

    /** Scans every row, in whatever order the map yields them, for an acknowledged one of least age. */
    method OldestAckedId() returns (oldest: Option<Id>)
      ensures oldest.None? ==> AckedIds(entries) == {}
      ensures oldest.Some? ==> oldest.value in AckedIds(entries)
      ensures oldest.Some? ==> forall j :: j in AckedIds(entries) ==>
                entries[oldest.value].createdAt <= entries[j].createdAt
    {
      oldest := None;
      var unseen := entries.Keys;
      while unseen != {}
        invariant unseen <= entries.Keys
        invariant oldest.None? ==> AckedIds(entries) <= unseen
        invariant oldest.Some? ==> oldest.value in AckedIds(entries)
        invariant oldest.Some? ==> forall j :: j in AckedIds(entries) - unseen ==>
                    entries[oldest.value].createdAt <= entries[j].createdAt
        decreases unseen
      {
        var id :| id in unseen;
        unseen := unseen - {id};
        if entries[id].acked && (oldest.None? || entries[id].createdAt < entries[oldest.value].createdAt) {
          oldest := Some(id);
        }
      }
    }

    /** Deletes all expired rows and returns their IDs, each once. */
    method DeleteExpired(now: int) returns (expiredIds: seq<Id>)
      modifies this
      ensures entries == DeleteSwept(old(entries), now)
      ensures Distinct(expiredIds) && Elements(expiredIds) == SweptIds(old(entries), now)
      ensures |expiredIds| == |SweptIds(old(entries), now)|
    {
      expiredIds := ExpiredIds(now);
      ghost var before := entries;
      var i := 0;
      while i < |expiredIds|
        invariant 0 <= i <= |expiredIds|
        invariant entries == before - Elements(expiredIds[..i])
      {
        assert Elements(expiredIds[..i + 1]) == Elements(expiredIds[..i]) + {expiredIds[i]};
        entries := entries - {expiredIds[i]};
        i := i + 1;
      }
      assert expiredIds[..i] == expiredIds;
    }

    /** Collects the IDs of all expired rows in the order the map yields them. */
    method ExpiredIds(now: int) returns (expiredIds: seq<Id>)
      ensures Distinct(expiredIds) && Elements(expiredIds) == SweptIds(entries, now)
      ensures |expiredIds| == |SweptIds(entries, now)|
    {
      expiredIds := [];
      var unseen := entries.Keys;
      while unseen != {}
        invariant unseen <= entries.Keys
        invariant Distinct(expiredIds)
        invariant Elements(expiredIds) == SweptIds(entries, now) - unseen
        decreases unseen
      {
        var id :| id in unseen;
        unseen := unseen - {id};
        if Swept(entries[id], now) {
          assert id !in Elements(expiredIds);
          assert Elements(expiredIds + [id]) == Elements(expiredIds) + {id};
          expiredIds := expiredIds + [id];
        }
      }
      DistinctCardinality(expiredIds);
    }

    method Get(id: Id) returns (entry: Option<StoredEntry>)
      ensures entry == Lookup(entries, id)
      ensures Backends.Step(Backends.Memory, maxEntries, entries, Backends.GetOp(id), entries, Backends.Found(entry))
    {
      if id in entries {
        var e := entries[id];
        return Some(StoredEntry(e.body, e.contentType, e.acked, e.expiresAt));
      }
      return None;
    }

    /** Marks a row acknowledged and clears its body; returns whether the row exists. */
    method Ack(id: Id) returns (found: bool)
      modifies this
      ensures found <==> id in old(entries)
      ensures entries == AckRow(old(entries), id)
      ensures Backends.Step(
        Backends.Memory, maxEntries, old(entries), Backends.AckOp(id), entries, Backends.Acknowledged(found))
    {
      found := id in entries;
      if found {
        entries := entries[id := entries[id].(acked := true, body := None)];
      }
    }

    method CleanupExpired(now: int) returns (expiredIds: seq<Id>)
      modifies this
      ensures entries == DeleteSwept(old(entries), now)
      ensures Distinct(expiredIds) && Elements(expiredIds) == SweptIds(old(entries), now)
      ensures |expiredIds| == |SweptIds(old(entries), now)|
      ensures Backends.Step(Backends.Memory, maxEntries, old(entries),
        Backends.CleanupOp(now), entries, Backends.CleanedUp(Elements(expiredIds)))
    {
      expiredIds := DeleteExpired(now);
    }
  }
}
