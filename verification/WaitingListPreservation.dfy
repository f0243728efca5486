/** Every operation of the waiting list keeps the invariant. */
module WaitingListPreservation {
  import opened Types
  import opened Collections
  import opened Entries
  import opened Oneshots
  import opened WaitingListSpec
  import opened WaitingListInvariants

  // ----- Store ------------------------------------------------------------

  /** What an insert does to the rows: one is written, others stay or may go. */
  ghost predicate RowsAfterInsert(m: Table, after: Table, id: Id, row: Entry, now: int) {
    && id in after && after[id] == row
    && (forall j :: j in after && j != id ==> j in m && after[j] == m[j])
    && (forall j :: j in m && j !in after ==> m[j].acked || Swept(m[j], now))
  }

  lemma InsertedRows(m: Table, max: nat, id: Id, row: Entry, now: int, victims: set<Id>)
    requires |m| <= max
    requires id !in m ==> MemoryVictims(m, max, now, victims)
    ensures var (after, outcome) := Insert(m, max, id, row, now, victims);
      && |after| <= max
      && (outcome == StoreFull ==> after == m)
      && (outcome == Stored ==> RowsAfterInsert(m, after, id, row, now))
  {
    InsertExact(m, max, id, row, now, victims);
    var (after, outcome) := Insert(m, max, id, row, now, victims);
    if outcome == Stored {
      var gone := Deleted(m, after);
      forall j | j in m && j !in after
        ensures m[j].acked || Swept(m[j], now)
      {
        assert j in gone;
      }
    }
  }

  lemma StoreAgreesAfterStore(
      m: Table, after: Table, h: History, id: Id, message: Message, row: Entry, now: int,
      now': int)
    requires StoreAgrees(m, h, now) && now <= now'
    requires RowsAfterInsert(m, after, id, row, now')
    requires row.body == Some(message.body) && row.contentType == message.contentType && !row.acked
    ensures StoreAgrees(after, Remember(h, id, message, row.expiresAt), now')
  {
    var h' := Remember(h, id, message, row.expiresAt);
    assert h'.latest[id] !in h.acked;
    forall g: nat | g < |h'.accepted|
      ensures NotNewer(h', h'.accepted[g].id, g)
    {
      assert g < |h.accepted| ==> NotNewer(h, h.accepted[g].id, g);
    }
    forall j | j in h'.latest && j !in after
      ensures h'.latest[j] in h'.acked || h'.accepted[h'.latest[j]].expiresAt < now'
    {
      assert j != id && h'.latest[j] == h.latest[j];
    }
  }

  lemma AckCellsAfterStore(s: State, after: Table, id: Id, message: Message, expiresAt: int)
    requires Inv(s)
    requires id in after && forall j :: j in after && j != id ==> j in s.entries
    ensures var w := WaitersOf(s.waiters, id);
      var acks := DropAll(s.acks, Elements(w.acks));
      var h := Remember(s.history, id, message, expiresAt);
      && AckSlots(s.waiters - {id}, acks, s.ackTags)
      && AckWaitersCurrent(s.waiters - {id}, s.ackTags, h)
      && (forall i :: 0 <= i < |acks| ==> AckTicketAgrees(after, h, acks[i], s.ackTags[i]))
  {
    var w := WaitersOf(s.waiters, id);
    var acks := DropAll(s.acks, Elements(w.acks));
    var h := Remember(s.history, id, message, expiresAt);
    var rest := s.waiters - {id};
    forall j, i: nat | AckWaits(rest, j, i)
      ensures i < |acks| && acks[i] == s.acks[i] && AckWaits(s.waiters, j, i) && j != id
    {
      assert AckWaits(s.waiters, j, i);
      assert i in w.acks ==> AckWaits(s.waiters, id, i);
    }
    forall i: nat | i < |acks| && acks[i].Pending?
      ensures AckWaits(rest, s.ackTags[i].id, i)
    {
      assert AckWaits(s.waiters, s.ackTags[i].id, i);
    }
    forall i: nat | i < |acks|
      ensures AckTicketAgrees(after, h, acks[i], s.ackTags[i])
    {
      assert AckTicketAgrees(s.entries, s.history, s.acks[i], s.ackTags[i]);
      if i in w.acks {
        assert AckWaits(s.waiters, id, i);
      }
    }
  }

  lemma MessageCellsAfterStore(s: State, id: Id, message: Message, expiresAt: int)
    requires Inv(s)
    ensures var w := WaitersOf(s.waiters, id);
      var messages := SendAll(s.messages, w.messages, message);
      var h := Remember(s.history, id, message, expiresAt);
      && MessageSlots(s.waiters - {id}, messages, s.messageTags)
      && (forall i :: 0 <= i < |messages| ==> MessageTicketAgrees(h, messages[i], s.messageTags[i]))
  {
    var w := WaitersOf(s.waiters, id);
    var messages := SendAll(s.messages, w.messages, message);
    var h := Remember(s.history, id, message, expiresAt);
    var rest := s.waiters - {id};
    forall j, i: nat | MessageWaits(rest, j, i)
      ensures i < |messages| && messages[i] == s.messages[i] && MessageWaits(s.waiters, j, i) && j != id
    {
      assert MessageWaits(s.waiters, j, i);
      assert i in w.messages ==> MessageWaits(s.waiters, id, i);
    }
    forall i: nat | i < |messages| && messages[i].Pending?
      ensures MessageWaits(rest, s.messageTags[i].id, i)
    {
      assert MessageWaits(s.waiters, s.messageTags[i].id, i);
    }
    forall i: nat | i < |messages|
      ensures MessageTicketAgrees(h, messages[i], s.messageTags[i])
    {
      var tag := s.messageTags[i];
      assert MessageTicketAgrees(s.history, s.messages[i], tag);
      FirstSinceAppend(s.history.accepted, Accepted(id, message, expiresAt), tag.id, tag.since);
      FirstSinceIsFirst(s.history.accepted, tag.id, tag.since);
      if s.messages[i].Pending? {
        assert MessageWaits(s.waiters, tag.id, i);
        assert i in w.messages ==> MessageWaits(s.waiters, id, i);
      }
    }
  }

  lemma SleepersAfterStore(s: State, after: Table, id: Id, row: Entry, now: int)
    requires NoSleeperMisses(s.waiters, s.entries, s.now) && s.now <= now
    requires RowsAfterInsert(s.entries, after, id, row, now)
    ensures NoSleeperMisses(s.waiters - {id}, after, now)
  {
    forall j | j in s.waiters - {id} && s.waiters[j].messages != []
      ensures Readable(after, j, now).None?
    {
      assert Readable(s.entries, j, s.now).None?;
    }
  }

  lemma AcceptedKeepsInv(s: State, s': State, after: Table, id: Id, message: Message, row: Entry, now: int)
    requires Inv(s) && s.now <= now
    requires RowsAfterInsert(s.entries, after, id, row, now) && |after| <= s.max
    requires row.body == Some(message.body) && row.contentType == message.contentType && !row.acked
    requires s' == NotifyMessageWaiters(
      s.(entries := after, now := now, history := Remember(s.history, id, message, row.expiresAt)), id, message)
    ensures Inv(s')
  {
    StoreAgreesAfterStore(s.entries, after, s.history, id, message, row, s.now, now);
    AckCellsAfterStore(s, after, id, message, row.expiresAt);
    MessageCellsAfterStore(s, id, message, row.expiresAt);
    SleepersAfterStore(s, after, id, row, now);
    SubmapCardinality(s.waiters - {id}, s.waiters);
  }

  /** A store either only lets time pass, or writes the row, remembers the message and notifies. */
  lemma StoreShape(
      s: State, id: Id, message: Message, ttl: nat, t: StoreTimes, victims: set<Id>, s': State,
      outcome: InsertOutcome)
    returns (after: Table)
    requires |s.entries| <= s.max
    requires id !in s.entries ==> MemoryVictims(s.entries, s.max, t.sweptAt, victims)
    requires (s', outcome) == Store(s, id, message, ttl, t, victims)
    ensures outcome == StoreFull ==> s' == s.(now := t.sweptAt)
    ensures outcome == Stored ==>
      && RowsAfterInsert(s.entries, after, id, Row(message, ttl, t), t.sweptAt) && |after| <= s.max
      && s' == NotifyMessageWaiters(
           s.(entries := after, now := t.sweptAt,
              history := Remember(s.history, id, message, Row(message, ttl, t).expiresAt)), id, message)
  {
    InsertedRows(s.entries, s.max, id, Row(message, ttl, t), t.sweptAt, victims);
    after := Insert(s.entries, s.max, id, Row(message, ttl, t), t.sweptAt, victims).0;
  }

  lemma StoreKeepsInv(
      s: State, id: Id, message: Message, ttl: nat, t: StoreTimes, victims: set<Id>, s': State,
      outcome: InsertOutcome)
    requires Inv(s) && StoreInOrder(s, t)
    requires id !in s.entries ==> MemoryVictims(s.entries, s.max, t.sweptAt, victims)
    requires (s', outcome) == Store(s, id, message, ttl, t, victims)
    ensures Inv(s')
  {
    var after := StoreShape(s, id, message, ttl, t, victims, s', outcome);
    if outcome == StoreFull {
      PassTimeKeepsInv(s, s');
    } else {
      AcceptedKeepsInv(s, s', after, id, message, Row(message, ttl, t), t.sweptAt);
    }
  }

  // ----- Acknowledge ------------------------------------------------------

  lemma LatestIsInjective(h: History, i: Id, j: Id)
    requires LatestAgrees(h)
    requires i in h.latest && j in h.latest && i != j
    ensures h.latest[i] != h.latest[j]
  {
  }

  lemma RowsAgreeAfterAck(m: Table, h: History, h': History, id: Id, j: Id)
    requires id in m && id in h.latest && j in m && j in h.latest
    requires h.latest[j] < |h.accepted|
    requires RowAgrees(m[j], h.accepted[h.latest[j]], h.latest[j] in h.acked)
    requires h' == h.(acked := h.acked + {h.latest[id]})
    requires j != id ==> h.latest[j] != h.latest[id]
    ensures j in AckRow(m, id) && RowAgrees(AckRow(m, id)[j], h.accepted[h.latest[j]], h.latest[j] in h'.acked)
  {
  }

  lemma StoreAgreesAfterAck(m: Table, h: History, id: Id, now: int, now': int)
    requires StoreAgrees(m, h, now) && now <= now'
    requires id in m && id in h.latest
    ensures StoreAgrees(AckRow(m, id), h.(acked := h.acked + {h.latest[id]}), now')
  {
    var h' := h.(acked := h.acked + {h.latest[id]});
    forall g: nat | g < |h'.accepted|
      ensures NotNewer(h', h'.accepted[g].id, g)
    {
      assert NotNewer(h, h.accepted[g].id, g);
    }
    forall j | j in m
      ensures j in h.latest && j in AckRow(m, id)
      ensures RowAgrees(AckRow(m, id)[j], h.accepted[h.latest[j]], h.latest[j] in h'.acked)
    {
      if j != id {
        LatestIsInjective(h, id, j);
      }
      RowsAgreeAfterAck(m, h, h', id, j);
    }
    assert AckRow(m, id).Keys == m.Keys;
  }

  lemma AckCellsAfterAck(s: State, id: Id, waiters: WaiterMap)
    requires Inv(s)
    requires id in s.entries && !s.entries[id].acked
    requires forall j, i: nat :: AckWaits(waiters, j, i) <==> j != id && AckWaits(s.waiters, j, i)
    ensures id in s.history.latest
    ensures var acks := SendAll(s.acks, WaitersOf(s.waiters, id).acks, ());
      var h := s.history.(acked := s.history.acked + {s.history.latest[id]});
      && AckSlots(waiters, acks, s.ackTags)
      && AckWaitersCurrent(waiters, s.ackTags, h)
      && (forall i :: 0 <= i < |acks| ==> AckTicketAgrees(AckRow(s.entries, id), h, acks[i], s.ackTags[i]))
  {
    var w := WaitersOf(s.waiters, id);
    var acks := SendAll(s.acks, w.acks, ());
    var g := s.history.latest[id];
    var h := s.history.(acked := s.history.acked + {g});
    forall j, i: nat | AckWaits(waiters, j, i)
      ensures i < |acks| && acks[i] == s.acks[i] && AckWaits(s.waiters, j, i)
    {
      assert i in w.acks ==> AckWaits(s.waiters, id, i);
    }
    forall i: nat | i < |acks| && acks[i].Pending?
      ensures AckWaits(waiters, s.ackTags[i].id, i)
    {
      assert AckWaits(s.waiters, s.ackTags[i].id, i);
    }
    forall i: nat | i < |acks|
      ensures AckTicketAgrees(AckRow(s.entries, id), h, acks[i], s.ackTags[i])
    {
      assert AckTicketAgrees(s.entries, s.history, s.acks[i], s.ackTags[i]);
      if i in w.acks {
        assert AckWaits(s.waiters, id, i);
      } else if s.acks[i].Pending? {
        assert AckWaits(s.waiters, s.ackTags[i].id, i);
      }
    }
  }

  lemma WaitersAfterAck(s: State, id: Id, now: int)
    requires Visible(s.entries, id, now) && !s.entries[id].acked
    ensures var s' := Ack(s, id, now).0;
      && (forall j, i: nat :: AckWaits(s'.waiters, j, i) <==> j != id && AckWaits(s.waiters, j, i))
      && (forall j, i: nat :: MessageWaits(s'.waiters, j, i) <==> MessageWaits(s.waiters, j, i))
  {
  }

  lemma MessageSlotsAfterAck(s: State, waiters: WaiterMap)
    requires MessageSlots(s.waiters, s.messages, s.messageTags)
    requires forall j, i: nat :: MessageWaits(waiters, j, i) <==> MessageWaits(s.waiters, j, i)
    ensures MessageSlots(waiters, s.messages, s.messageTags)
  {
  }

  /** The fields an effective ACK leaves. */
  lemma AckShape(s: State, id: Id, now: int, s': State)
    requires Visible(s.entries, id, now) && !s.entries[id].acked && id in s.history.latest
    requires s' == Ack(s, id, now).0
    ensures s'.max == s.max && s'.now == now && s'.entries == AckRow(s.entries, id)
    ensures s'.history == s.history.(acked := s.history.acked + {s.history.latest[id]})
    ensures s'.acks == SendAll(s.acks, WaitersOf(s.waiters, id).acks, ())
    ensures s'.messages == s.messages && s'.ackTags == s.ackTags && s'.messageTags == s.messageTags
  {
  }

  lemma AckedStateInv(s: State, id: Id, s': State)
    requires Inv(s) && s.now <= s'.now
    requires id in s.entries && !s.entries[id].acked && id in s.history.latest
    requires s'.max == s.max && s'.entries == AckRow(s.entries, id)
    requires s'.history == s.history.(acked := s.history.acked + {s.history.latest[id]})
    requires s'.acks == SendAll(s.acks, WaitersOf(s.waiters, id).acks, ())
    requires s'.messages == s.messages && s'.ackTags == s.ackTags && s'.messageTags == s.messageTags
    requires forall j, i: nat :: AckWaits(s'.waiters, j, i) <==> j != id && AckWaits(s.waiters, j, i)
    requires forall j, i: nat :: MessageWaits(s'.waiters, j, i) <==> MessageWaits(s.waiters, j, i)
    requires Bounded(s') && NoSleeperMisses(s'.waiters, s'.entries, s'.now)
    ensures Inv(s')
  {
    StoreAgreesAfterAck(s.entries, s.history, id, s.now, s'.now);
    AckCellsAfterAck(s, id, s'.waiters);
    MessageSlotsAfterAck(s, s'.waiters);
  }

  lemma AckKeepsInv(s: State, id: Id, now: int, s': State, found: bool)
    requires Inv(s) && s.now <= now
    requires (s', found) == Ack(s, id, now)
    ensures Inv(s')
  {
    if Visible(s.entries, id, now) && !s.entries[id].acked {
      WaitersAfterAck(s, id, now);
      BoundedAfterAck(s, id, now);
      SleepersAfterAck(s, id, now);
      AckShape(s, id, now, s');
      AckedStateInv(s, id, s');
    } else {
      PassTimeKeepsInv(s, s');
    }
  }

  lemma BoundedAfterAck(s: State, id: Id, now: int)
    requires Bounded(s)
    requires Visible(s.entries, id, now) && !s.entries[id].acked
    ensures Bounded(Ack(s, id, now).0)
  {
    var s' := Ack(s, id, now).0;
    UpdateCardinality(s.entries, id, s'.entries[id]);
    SubmapCardinality(s.waiters - {id}, s.waiters);
    if id in s'.waiters {
      UpdateCardinality(s.waiters, id, s'.waiters[id]);
    }
  }

  lemma SleepersAfterAck(s: State, id: Id, now: int)
    requires NoSleeperMisses(s.waiters, s.entries, s.now) && s.now <= now
    requires Visible(s.entries, id, now) && !s.entries[id].acked
    ensures var s' := Ack(s, id, now).0; NoSleeperMisses(s'.waiters, s'.entries, now)
  {
    var s' := Ack(s, id, now).0;
    forall j | j in s'.waiters && s'.waiters[j].messages != []
      ensures Readable(s'.entries, j, now).None?
    {
      if j != id {
        assert Readable(s.entries, j, s.now).None?;
      }
    }
  }

  // ----- Subscribe --------------------------------------------------------

  /** A capacity check changes nothing but the waiter map, and on success leaves room for the ID. */
  lemma CapacityShape(s: State, id: Id, p: PruneTimes, s': State, room: bool)
    requires (s', room) == EnsureWaiterCapacity(s, id, p)
    ensures room ==> HasRoom(s', id)
    ensures s'.max == s.max && s'.entries == s.entries && s'.history == s.history && s'.now == s.now
    ensures s'.acks == s.acks && s'.messages == s.messages
    ensures s'.ackTags == s.ackTags && s'.messageTags == s.messageTags
  {
  }

  /** The waiters of `id` once its list is rid of closed senders and, perhaps, `added` is appended. */
  ghost predicate AcksReplaced(s: State, id: Id, w: Waiters, added: seq<nat>) {
    w == WaitersOf(s.waiters, id).(acks := RetainOpen(WaitersOf(s.waiters, id).acks, s.acks) + added)
  }

  ghost predicate MessagesReplaced(s: State, id: Id, w: Waiters, added: seq<nat>) {
    w == WaitersOf(s.waiters, id).(messages := RetainOpen(WaitersOf(s.waiters, id).messages, s.messages) + added)
  }

  lemma ReplacedMembers<T>(senders: seq<nat>, cells: Cells<T>, added: seq<nat>)
    ensures forall i: nat ::
      i in RetainOpen(senders, cells) + added <==> (i in senders && !IsClosed(cells, i)) || i in added
  {
    RetainOpenMembers(senders, cells);
  }

  lemma AcksReplacedWaits(s: State, id: Id, w: Waiters, added: seq<nat>)
    requires AcksReplaced(s, id, w, added)
    ensures forall j, i: nat :: AckWaits(s.waiters[id := w], j, i) <==>
      (AckWaits(s.waiters, j, i) && (j == id ==> !IsClosed(s.acks, i))) || (j == id && i in added)
    ensures forall j, i: nat :: MessageWaits(s.waiters[id := w], j, i) <==> MessageWaits(s.waiters, j, i)
  {
    ReplacedMembers(WaitersOf(s.waiters, id).acks, s.acks, added);
    forall i: nat
      ensures AckWaits(s.waiters[id := w], id, i) <==>
        (AckWaits(s.waiters, id, i) && !IsClosed(s.acks, i)) || i in added
    {
      assert AckWaits(s.waiters[id := w], id, i) <==> i in RetainOpen(WaitersOf(s.waiters, id).acks, s.acks) + added;
      assert AckWaits(s.waiters, id, i) <==> i in WaitersOf(s.waiters, id).acks;
    }
  }

  lemma MessagesReplacedWaits(s: State, id: Id, w: Waiters, added: seq<nat>)
    requires MessagesReplaced(s, id, w, added)
    ensures forall j, i: nat :: MessageWaits(s.waiters[id := w], j, i) <==>
      (MessageWaits(s.waiters, j, i) && (j == id ==> !IsClosed(s.messages, i))) || (j == id && i in added)
    ensures forall j, i: nat :: AckWaits(s.waiters[id := w], j, i) <==> AckWaits(s.waiters, j, i)
  {
    ReplacedMembers(WaitersOf(s.waiters, id).messages, s.messages, added);
    forall i: nat
      ensures MessageWaits(s.waiters[id := w], id, i) <==>
        (MessageWaits(s.waiters, id, i) && !IsClosed(s.messages, i)) || i in added
    {
      assert MessageWaits(s.waiters[id := w], id, i) <==>
        i in RetainOpen(WaitersOf(s.waiters, id).messages, s.messages) + added;
      assert MessageWaits(s.waiters, id, i) <==> i in WaitersOf(s.waiters, id).messages;
    }
  }

  lemma ReplacedDistinct<T>(senders: seq<nat>, cells: Cells<T>, added: seq<nat>)
    requires Distinct(senders) && forall i :: i in senders ==> i < |cells|
    requires added == [] || added == [|cells|]
    ensures Distinct(RetainOpen(senders, cells) + added)
  {
    RetainOpenMembers(senders, cells);
    var kept := RetainOpen(senders, cells);
    forall k | 0 <= k < |kept|
      ensures kept[k] < |cells|
    {
      assert kept[k] in kept;
    }
  }

  /** The lists of an ID, registered or not yet, are within the limits but for being empty. */
  lemma ListsOf(s: State, id: Id)
    requires Bounded(s) && AckSlots(s.waiters, s.acks, s.ackTags) && MessageSlots(s.waiters, s.messages, s.messageTags)
    ensures var w := WaitersOf(s.waiters, id);
      && Distinct(w.acks) && |w.acks| <= MAX_WAITERS_PER_ENTRY
      && Distinct(w.messages) && |w.messages| <= MAX_WAITERS_PER_ENTRY
      && (forall i :: i in w.acks ==> i < |s.acks|)
      && (forall i :: i in w.messages ==> i < |s.messages|)
  {
    var w := WaitersOf(s.waiters, id);
    forall i: nat | i in w.acks
      ensures i < |s.acks|
    {
      assert AckWaits(s.waiters, id, i);
    }
    forall i: nat | i in w.messages
      ensures i < |s.messages|
    {
      assert MessageWaits(s.waiters, id, i);
    }
  }

  /** A receiver of `id`'s current generation, with its sender registered iff the cell is pending. */
  lemma AckHandedOutSlots(s: State, id: Id, waiters: WaiterMap, cell: Oneshot<()>)
    requires Inv(s)
    requires id in s.entries && id in s.history.latest
    requires cell == (if s.entries[id].acked then Sent(()) else Pending)
    requires forall j, i: nat :: AckWaits(waiters, j, i) ==>
      AckWaits(s.waiters, j, i) || (j == id && i == |s.acks| && cell.Pending?)
    requires forall j, i: nat :: AckWaits(s.waiters, j, i) && !IsClosed(s.acks, i) ==> AckWaits(waiters, j, i)
    requires cell.Pending? ==> AckWaits(waiters, id, |s.acks|)
    ensures var tags := s.ackTags + [AckTag(id, s.history.latest[id])];
      var acks := s.acks + [cell];
      && AckSlots(waiters, acks, tags)
      && AckWaitersCurrent(waiters, tags, s.history)
  {
    var tags := s.ackTags + [AckTag(id, s.history.latest[id])];
    var acks := s.acks + [cell];
    forall i: nat | i < |acks| && acks[i].Pending?
      ensures AckWaits(waiters, tags[i].id, i)
    {
      if i < |s.acks| {
        assert AckWaits(s.waiters, s.ackTags[i].id, i);
        assert !IsClosed(s.acks, i);
      }
    }
    forall j, i: nat | AckWaits(waiters, j, i)
      ensures i < |acks| && (acks[i].Pending? || acks[i].Closed?) && tags[i].id == j
      ensures j in s.history.latest && tags[i].generation == s.history.latest[j]
      ensures s.history.latest[j] !in s.history.acked
    {
    }
  }

  lemma AckHandedOutTickets(s: State, id: Id, cell: Oneshot<()>)
    requires Inv(s)
    requires id in s.entries && id in s.history.latest
    requires cell == (if s.entries[id].acked then Sent(()) else Pending)
    ensures forall i :: 0 <= i < |s.acks| + 1 ==>
      AckTicketAgrees(s.entries, s.history, (s.acks + [cell])[i], (s.ackTags + [AckTag(id, s.history.latest[id])])[i])
  {
  }

  lemma AlreadyAckedKeepsInv(s: State, id: Id, s': State)
    requires Inv(s) && id in s.entries && s.entries[id].acked
    requires s' == HandOutAck(s, id, Sent(()))
    ensures Inv(s')
  {
    AckHandedOutSlots(s, id, s.waiters, Sent(()));
    AckHandedOutTickets(s, id, Sent(()));
  }

  /** The waiter map after an ACK sender was added, or turned away after dropping closed ones. */
  lemma AckWaiterMap(s: State, id: Id, s': State, r: Result<nat, SubscribeError>)
    requires Bounded(s) && AckSlots(s.waiters, s.acks, s.ackTags) && MessageSlots(s.waiters, s.messages, s.messageTags)
    requires HasRoom(s, id)
    requires (s', r) == AddAckWaiter(s, id)
    ensures Bounded(s')
    ensures forall j, i: nat :: AckWaits(s'.waiters, j, i) <==>
      (AckWaits(s.waiters, j, i) && (j == id ==> !IsClosed(s.acks, i))) || (j == id && r == Ok(i))
    ensures forall j, i: nat :: MessageWaits(s'.waiters, j, i) <==> MessageWaits(s.waiters, j, i)
    ensures r.Ok? ==> r.value == |s.acks|
  {
    var w := WaitersOf(s.waiters, id);
    var added := if r.Ok? then [|s.acks|] else [];
    assert RetainOpen(w.acks, s.acks) + [] == RetainOpen(w.acks, s.acks);
    var w' := w.(acks := RetainOpen(w.acks, s.acks) + added);
    assert s'.waiters == s.waiters[id := w'];
    ListsOf(s, id);
    RetainOpenMembers(w.acks, s.acks);
    ReplacedDistinct(w.acks, s.acks, added);
    AcksReplacedWaits(s, id, w', added);
    UpdateCardinality(s.waiters, id, w');
  }

  lemma AddAckWaiterKeepsInv(s: State, id: Id, s': State, r: Result<nat, SubscribeError>)
    requires Inv(s) && HasRoom(s, id)
    requires id in s.entries && !s.entries[id].acked
    requires (s', r) == AddAckWaiter(s, id)
    ensures Inv(s')
  {
    AckWaiterMap(s, id, s', r);
    SleepersKept(s, s'.waiters);
    MessageSlotsAfterAck(s, s'.waiters);
    if r.Ok? {
      AckHandedOutSlots(s, id, s'.waiters, Pending);
      AckHandedOutTickets(s, id, Pending);
    } else {
      AckSlotsWithoutClosed(s, s'.waiters);
    }
  }

  lemma SleepersKept(s: State, waiters: WaiterMap)
    requires NoSleeperMisses(s.waiters, s.entries, s.now)
    requires forall j, i: nat :: MessageWaits(waiters, j, i) ==> MessageWaits(s.waiters, j, i)
    ensures NoSleeperMisses(waiters, s.entries, s.now)
  {
    forall j | j in waiters && waiters[j].messages != []
      ensures Readable(s.entries, j, s.now).None?
    {
      assert MessageWaits(waiters, j, waiters[j].messages[0]);
    }
  }

  lemma SubscribeAckKeepsInv(s: State, id: Id, now: int, p: PruneTimes, s': State, r: Result<nat, SubscribeError>)
    requires Inv(s) && s.now <= now
    requires (s', r) == SubscribeAck(s, id, now, p)
    ensures Inv(s')
  {
    var s1 := s.(now := now);
    PassTimeKeepsInv(s, s1);
    if !Visible(s.entries, id, now) {
    } else if s.entries[id].acked {
      AlreadyAckedKeepsInv(s1, id, s');
    } else {
      var (s2, room) := EnsureWaiterCapacity(s1, id, p);
      CapacityKeepsInv(s1, id, p, s2, room);
      CapacityShape(s1, id, p, s2, room);
      if room {
        AddAckWaiterKeepsInv(s2, id, s', r);
      }
    }
  }
}
