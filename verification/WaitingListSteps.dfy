/** The rest of the operations, and one step of the relay: every event keeps the invariant. */
module WaitingListSteps {
  import opened Types
  import opened Collections
  import opened Entries
  import opened Oneshots
  import opened WaitingListSpec
  import opened WaitingListInvariants
  import opened WaitingListPreservation

  // ----- Waiting for a message -------------------------------------------

  lemma MessageWaiterMap(s: State, id: Id, s': State, r: Result<Fetch, SubscribeError>)
    requires Bounded(s) && AckSlots(s.waiters, s.acks, s.ackTags) && MessageSlots(s.waiters, s.messages, s.messageTags)
    requires HasRoom(s, id)
    requires (s', r) == AddMessageWaiter(s, id)
    ensures Bounded(s')
    ensures forall j, i: nat :: MessageWaits(s'.waiters, j, i) <==>
      (MessageWaits(s.waiters, j, i) && (j == id ==> !IsClosed(s.messages, i))) || (j == id && r == Ok(Waiting(i)))
    ensures forall j, i: nat :: AckWaits(s'.waiters, j, i) <==> AckWaits(s.waiters, j, i)
    ensures r.Ok? ==> r.value == Waiting(|s.messages|)
  {
    var w := WaitersOf(s.waiters, id);
    var added := if r.Ok? then [|s.messages|] else [];
    assert RetainOpen(w.messages, s.messages) + [] == RetainOpen(w.messages, s.messages);
    var w' := w.(messages := RetainOpen(w.messages, s.messages) + added);
    assert s'.waiters == s.waiters[id := w'];
    ListsOf(s, id);
    RetainOpenMembers(w.messages, s.messages);
    ReplacedDistinct(w.messages, s.messages, added);
    MessagesReplacedWaits(s, id, w', added);
    UpdateCardinality(s.waiters, id, w');
  }

  lemma MessageHandedOutSlots(s: State, id: Id, waiters: WaiterMap, tag: MessageTag)
    requires MessageSlots(s.waiters, s.messages, s.messageTags)
    requires tag.id == id
    requires forall j, i: nat :: MessageWaits(waiters, j, i) ==>
      MessageWaits(s.waiters, j, i) || (j == id && i == |s.messages|)
    requires forall j, i: nat ::
      MessageWaits(s.waiters, j, i) && !IsClosed(s.messages, i) ==> MessageWaits(waiters, j, i)
    requires MessageWaits(waiters, id, |s.messages|)
    ensures MessageSlots(waiters, s.messages + [Pending], s.messageTags + [tag])
  {
    var messages := s.messages + [Pending];
    var tags := s.messageTags + [tag];
    forall i: nat | i < |messages| && messages[i].Pending?
      ensures MessageWaits(waiters, tags[i].id, i)
    {
      if i < |s.messages| {
        assert MessageWaits(s.waiters, s.messageTags[i].id, i);
        assert !IsClosed(s.messages, i);
      }
    }
    forall j, i: nat | MessageWaits(waiters, j, i)
      ensures i < |messages| && (messages[i].Pending? || messages[i].Closed?) && tags[i].id == j
    {
    }
  }

  lemma SleepersWithOneMore(s: State, id: Id, waiters: WaiterMap)
    requires NoSleeperMisses(s.waiters, s.entries, s.now)
    requires Readable(s.entries, id, s.now).None?
    requires forall j, i: nat :: MessageWaits(waiters, j, i) ==> MessageWaits(s.waiters, j, i) || j == id
    ensures NoSleeperMisses(waiters, s.entries, s.now)
  {
    forall j | j in waiters && waiters[j].messages != []
      ensures Readable(s.entries, j, s.now).None?
    {
      assert MessageWaits(waiters, j, waiters[j].messages[0]);
      if j != id {
        assert MessageWaits(s.waiters, j, waiters[j].messages[0]);
      }
    }
  }

  lemma AckSlotsKept(s: State, waiters: WaiterMap)
    requires AckSlots(s.waiters, s.acks, s.ackTags) && AckWaitersCurrent(s.waiters, s.ackTags, s.history)
    requires forall j, i: nat :: AckWaits(waiters, j, i) <==> AckWaits(s.waiters, j, i)
    ensures AckSlots(waiters, s.acks, s.ackTags) && AckWaitersCurrent(waiters, s.ackTags, s.history)
  {
  }

  lemma AddMessageWaiterKeepsInv(s: State, id: Id, s': State, r: Result<Fetch, SubscribeError>)
    requires Inv(s) && HasRoom(s, id)
    requires Readable(s.entries, id, s.now).None?
    requires (s', r) == AddMessageWaiter(s, id)
    ensures Inv(s')
  {
    MessageWaiterMap(s, id, s', r);
    SleepersWithOneMore(s, id, s'.waiters);
    AckSlotsKept(s, s'.waiters);
    if r.Ok? {
      var tag := MessageTag(id, |s.history.accepted|);
      MessageHandedOutSlots(s, id, s'.waiters, tag);
      assert MessageTicketAgrees(s.history, Pending, tag);
    } else {
      MessageSlotsWithoutClosed(s, s'.waiters);
    }
  }

  lemma GetOrSubscribeKeepsInv(s: State, id: Id, now: int, p: PruneTimes, s': State, r: Result<Fetch, SubscribeError>)
    requires Inv(s) && s.now <= now
    requires (s', r) == GetOrSubscribe(s, id, now, p)
    ensures Inv(s')
  {
    var s1 := s.(now := now);
    PassTimeKeepsInv(s, s1);
    if Readable(s.entries, id, now).None? {
      var (s2, room) := EnsureWaiterCapacity(s1, id, p);
      CapacityKeepsInv(s1, id, p, s2, room);
      CapacityShape(s1, id, p, s2, room);
      if room {
        AddMessageWaiterKeepsInv(s2, id, s', r);
      }
    }
  }

  // ----- Store and subscribe ---------------------------------------------

  lemma StoreAndSubscribeInParts(
      s: State, id: Id, message: Message, ttl: nat, p: PruneTimes, t: StoreTimes, at: int,
      p': PruneTimes)
    ensures forall victims {:trigger StoreAndSubscribeAck(s, id, message, ttl, p, t, victims, at, p')} ::
      var (s1, room) := EnsureWaiterCapacity(s, id, p);
      var (s2, outcome) := Store(s1, id, message, ttl, t, victims);
      var (s3, r) := SubscribeAck(s2, id, at, p');
      StoreAndSubscribeAck(s, id, message, ttl, p, t, victims, at, p') ==
        if !room then (s1, Err(NoWaiterRoom))
        else if outcome == StoreFull then (s2, Err(NoStoreRoom))
        else (s3, AsProducer(r))
  {
    hide EnsureWaiterCapacity, Store, SubscribeAck;
  }

  lemma StoreAndSubscribeKeepsInv(
      s: State, id: Id, message: Message, ttl: nat,
      p: PruneTimes, t: StoreTimes, victims: set<Id>, at: int, p': PruneTimes,
      s': State, r: Result<nat, StoreAndSubscribeError>)
    requires Inv(s) && StoreInOrder(s, t) && t.sweptAt <= at
    requires id !in s.entries ==> MemoryVictims(s.entries, s.max, t.sweptAt, victims)
    requires (s', r) == StoreAndSubscribeAck(s, id, message, ttl, p, t, victims, at, p')
    ensures Inv(s')
  {
    var (s1, room) := EnsureWaiterCapacity(s, id, p);
    CapacityKeepsInv(s, id, p, s1, room);
    CapacityShape(s, id, p, s1, room);
    if room {
      var (s2, outcome) := Store(s1, id, message, ttl, t, victims);
      StoreKeepsInv(s1, id, message, ttl, t, victims, s2, outcome);
      if outcome == Stored {
        StoreSetsClock(s1, id, message, ttl, t, victims);
        var (s3, r3) := SubscribeAck(s2, id, at, p');
        SubscribeAckKeepsInv(s2, id, at, p', s3, r3);
      }
    }
  }

  lemma StoreSetsClock(s: State, id: Id, message: Message, ttl: nat, t: StoreTimes, victims: set<Id>)
    ensures Store(s, id, message, ttl, t, victims).0.now == t.sweptAt
  {
  }

  // ----- Cleanup ----------------------------------------------------------

  lemma SweepStoreAgrees(m: Table, h: History, now: int, now': int)
    requires StoreAgrees(m, h, now) && now <= now'
    ensures StoreAgrees(DeleteSwept(m, now'), h, now')
  {
  }

  lemma AckSenderSwept(waiters: WaiterMap, acks: Cells<()>, tags: seq<AckTag>, i: nat, id: Id, ids: set<Id>)
    requires AckSlots(waiters, acks, tags)
    requires AckWaits(waiters, id, i)
    ensures i in AckSendersOf(waiters, ids) <==> id in ids
  {
    if i in AckSendersOf(waiters, ids) {
      var j :| j in waiters && j in ids && i in waiters[j].acks;
      assert AckWaits(waiters, j, i);
    }
    if id in ids {
      assert id in waiters && id in ids && i in waiters[id].acks;
    }
  }

  lemma AckSlotsAfterSweep(waiters: WaiterMap, acks: Cells<()>, tags: seq<AckTag>, ids: set<Id>)
    requires AckSlots(waiters, acks, tags)
    ensures AckSlots(waiters - ids, DropAll(acks, AckSendersOf(waiters, ids)), tags)
  {
    var after := DropAll(acks, AckSendersOf(waiters, ids));
    forall j, i: nat | AckWaits(waiters - ids, j, i)
      ensures i < |after| && (after[i].Pending? || after[i].Closed?) && tags[i].id == j
    {
      assert AckWaits(waiters, j, i);
      AckSenderSwept(waiters, acks, tags, i, j, ids);
    }
    forall i: nat | i < |after| && after[i].Pending?
      ensures AckWaits(waiters - ids, tags[i].id, i)
    {
      assert AckWaits(waiters, tags[i].id, i);
      AckSenderSwept(waiters, acks, tags, i, tags[i].id, ids);
    }
  }

  lemma MessageSenderSwept(
      waiters: WaiterMap, messages: Cells<Message>, tags: seq<MessageTag>, i: nat, id: Id,
      ids: set<Id>)
    requires MessageSlots(waiters, messages, tags)
    requires MessageWaits(waiters, id, i)
    ensures i in MessageSendersOf(waiters, ids) <==> id in ids
  {
    if i in MessageSendersOf(waiters, ids) {
      var j :| j in waiters && j in ids && i in waiters[j].messages;
      assert MessageWaits(waiters, j, i);
    }
    if id in ids {
      assert id in waiters && id in ids && i in waiters[id].messages;
    }
  }

  lemma MessageSlotsAfterSweep(waiters: WaiterMap, messages: Cells<Message>, tags: seq<MessageTag>, ids: set<Id>)
    requires MessageSlots(waiters, messages, tags)
    ensures MessageSlots(waiters - ids, DropAll(messages, MessageSendersOf(waiters, ids)), tags)
  {
    var after := DropAll(messages, MessageSendersOf(waiters, ids));
    forall j, i: nat | MessageWaits(waiters - ids, j, i)
      ensures i < |after| && (after[i].Pending? || after[i].Closed?) && tags[i].id == j
    {
      assert MessageWaits(waiters, j, i);
      MessageSenderSwept(waiters, messages, tags, i, j, ids);
    }
    forall i: nat | i < |after| && after[i].Pending?
      ensures MessageWaits(waiters - ids, tags[i].id, i)
    {
      assert MessageWaits(waiters, tags[i].id, i);
      MessageSenderSwept(waiters, messages, tags, i, tags[i].id, ids);
    }
  }

  lemma AckTicketsAfterSweep(s: State, now: int)
    requires Inv(s)
    ensures var ids := SweptIds(s.entries, now);
      var acks := DropAll(s.acks, AckSendersOf(s.waiters, ids));
      && (forall i :: 0 <= i < |acks| ==>
            AckTicketAgrees(DeleteSwept(s.entries, now), s.history, acks[i], s.ackTags[i]))
      && AckWaitersCurrent(s.waiters - ids, s.ackTags, s.history)
  {
    var ids := SweptIds(s.entries, now);
    var acks := DropAll(s.acks, AckSendersOf(s.waiters, ids));
    forall i: nat | i < |acks|
      ensures AckTicketAgrees(DeleteSwept(s.entries, now), s.history, acks[i], s.ackTags[i])
    {
      assert AckTicketAgrees(s.entries, s.history, s.acks[i], s.ackTags[i]);
      if s.acks[i].Pending? {
        assert AckWaits(s.waiters, s.ackTags[i].id, i);
        AckSenderSwept(s.waiters, s.acks, s.ackTags, i, s.ackTags[i].id, ids);
      }
    }
    forall j, i: nat | AckWaits(s.waiters - ids, j, i)
      ensures AckWaits(s.waiters, j, i)
    {
    }
  }

  lemma MessageTicketsAfterSweep(s: State, gone: set<nat>)
    requires MessageTickets(s)
    ensures forall i :: 0 <= i < |s.messages| ==>
      MessageTicketAgrees(s.history, DropAll(s.messages, gone)[i], s.messageTags[i])
  {
    forall i: nat | i < |s.messages|
      ensures MessageTicketAgrees(s.history, DropAll(s.messages, gone)[i], s.messageTags[i])
    {
      assert MessageTicketAgrees(s.history, s.messages[i], s.messageTags[i]);
    }
  }

  /** The state once the expired rows and their waiters are gone, before closed senders are dropped. */
  ghost function Sweep(s: State, now: int): State {
    RemoveWaiters(s.(now := now, entries := DeleteSwept(s.entries, now)), SweptIds(s.entries, now))
  }

  lemma SweepBounded(s: State, now: int, s': State)
    requires Bounded(s)
    requires s' == Sweep(s, now)
    ensures Bounded(s')
  {
    DeleteSweptFacts(s.entries, now);
    SubmapCardinality(s'.waiters, s.waiters);
  }

  lemma SweepSleepers(s: State, now: int, waiters: WaiterMap)
    requires NoSleeperMisses(s.waiters, s.entries, s.now) && s.now <= now
    requires waiters == s.waiters - SweptIds(s.entries, now)
    ensures NoSleeperMisses(waiters, DeleteSwept(s.entries, now), now)
  {
    forall id | id in waiters && waiters[id].messages != []
      ensures Readable(DeleteSwept(s.entries, now), id, now).None?
    {
      assert Readable(s.entries, id, s.now).None?;
    }
  }

  lemma SweepKeepsInv(s: State, now: int, s': State)
    requires Inv(s) && s.now <= now
    requires s' == Sweep(s, now)
    ensures Inv(s')
  {
    SweepStoreAgrees(s.entries, s.history, s.now, now);
    var ids := SweptIds(s.entries, now);
    AckSlotsAfterSweep(s.waiters, s.acks, s.ackTags, ids);
    MessageSlotsAfterSweep(s.waiters, s.messages, s.messageTags, ids);
    AckTicketsAfterSweep(s, now);
    MessageTicketsAfterSweep(s, MessageSendersOf(s.waiters, ids));
    SweepBounded(s, now, s');
    SweepSleepers(s, now, s'.waiters);
  }

  lemma CleanupKeepsInv(s: State, now: int, s': State)
    requires Inv(s) && s.now <= now
    requires s' == CleanupExpired(s, now).0
    ensures Inv(s')
  {
    var swept := Sweep(s, now);
    SweepKeepsInv(s, now, swept);
    PruneKeepsInv(swept, s');
  }

  // ----- Receivers that go away ------------------------------------------

  lemma AckReceiverClosesKeepsInv(s: State, i: nat, s': State)
    requires Inv(s) && i < |s.acks|
    requires s' == s.(acks := s.acks[i := CloseReceiver(s.acks[i])])
    ensures Inv(s')
  {
  }

  lemma MessageReceiverClosesKeepsInv(s: State, i: nat, s': State)
    requires Inv(s) && i < |s.messages|
    requires s' == s.(messages := s.messages[i := CloseReceiver(s.messages[i])])
    ensures Inv(s')
  {
  }

  // ----- One step ---------------------------------------------------------

  /** Whatever happens next keeps the invariant. */
  lemma NextKeepsInv(s: State, e: Event, s': State)
    requires Inv(s) && Enabled(s, e)
    requires s' == Next(s, e)
    ensures Inv(s')
  {
    match e
    case StoreEvent(id, message, ttl, t, victims) =>
      StoreKeepsInv(s, id, message, ttl, t, victims, s', Store(s, id, message, ttl, t, victims).1);
    case AckEvent(id, at) => AckKeepsInv(s, id, at, s', Ack(s, id, at).1);
    case SubscribeAckEvent(id, at, p) => SubscribeAckKeepsInv(s, id, at, p, s', SubscribeAck(s, id, at, p).1);
    case StoreAndSubscribeEvent(id, message, ttl, p, t, victims, at, p') =>
      StoreAndSubscribeKeepsInv(s, id, message, ttl, p, t, victims, at, p', s',
        StoreAndSubscribeAck(s, id, message, ttl, p, t, victims, at, p').1);
    case GetOrSubscribeEvent(id, at, p) => GetOrSubscribeKeepsInv(s, id, at, p, s', GetOrSubscribe(s, id, at, p).1);
    case CleanupEvent(at) => CleanupKeepsInv(s, at, s');
    case AckReceiverCloses(i) => AckReceiverClosesKeepsInv(s, i, s');
    case MessageReceiverCloses(i) => MessageReceiverClosesKeepsInv(s, i, s');
    case ClockAdvances(now, mono) => PassTimeKeepsInv(s, s');
  }
}
