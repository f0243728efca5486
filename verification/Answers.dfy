/**
  * What every operation of the waiting list answers and changes, written out on
  * the columns of the rows, the cells of the channels, and the numbers the code
  * names. Nothing here is stated through the functions that say what the
  * operations do, so each is pinned from outside.
  */
module Answers {
  import opened Types
  import opened Entries
  import opened Oneshots
  import opened WaitingListSpec
  import opened WaitingListInvariants
  import opened WaitingListPreservation
  import opened WaitingListSteps
  import opened Tickets
  import opened WaiterCapacity
  import opened Readers

  // ----- Room for a waiter ------------------------------------------------

  /** Some client of `id` is still connected and waiting, for an ACK or for a message. */
  ghost predicate Awaited(s: State, id: Id) {
    id in s.waiters && exists i: nat ::
      || (i in s.waiters[id].acks && i < |s.acks| && s.acks[i] == Pending)
      || (i in s.waiters[id].messages && i < |s.messages| && s.messages[i] == Pending)
  }

  /** A new ID is not admitted: the map is full, and was scanned just now or has a connected client everywhere. */
  ghost predicate TurnsAway(s: State, id: Id, checkedAt: int) {
    && id !in s.waiters && |s.waiters| >= s.max
    && ((s.lastPrune.Some? && checkedAt - s.lastPrune.value < 1_000_000_000)
        || forall j :: j in s.waiters ==> Awaited(s, j))
  }

  /** The full map is scanned: there is no last scan, or one at least a second ago. */
  ghost predicate Scans(s: State, id: Id, checkedAt: int) {
    && id !in s.waiters && |s.waiters| >= s.max
    && (s.lastPrune.None? || checkedAt - s.lastPrune.value >= 1_000_000_000)
  }

  lemma AwaitedIsOpen(s: State, id: Id)
    requires Inv(s)
    ensures Awaited(s, id) <==> HasOpenWaiter(s, id)
  {
    if HasOpenWaiter(s, id) {
      var i: nat :|
        || (AckWaits(s.waiters, id, i) && !IsClosed(s.acks, i))
        || (MessageWaits(s.waiters, id, i) && !IsClosed(s.messages, i));
      if AckWaits(s.waiters, id, i) && !IsClosed(s.acks, i) {
        assert s.acks[i] == Pending;
      } else {
        assert s.messages[i] == Pending;
      }
      assert Awaited(s, id);
    }
    if Awaited(s, id) {
      var i: nat :|
        || (i in s.waiters[id].acks && i < |s.acks| && s.acks[i] == Pending)
        || (i in s.waiters[id].messages && i < |s.messages| && s.messages[i] == Pending);
      assert AckWaits(s.waiters, id, i) || MessageWaits(s.waiters, id, i);
    }
  }

  /** When a waiter is turned away. */
  lemma TurnedAwayExactly(s: State, id: Id, p: PruneTimes)
    requires Inv(s)
    ensures !EnsureWaiterCapacity(s, id, p).1 <==>
      && id !in s.waiters && |s.waiters| >= s.max
      && ((s.lastPrune.Some? && p.checkedAt - s.lastPrune.value < 1_000_000_000)
          || forall j :: j in s.waiters ==> Awaited(s, j))
  {
    hide EnsureWaiterCapacity, HasOpenWaiter, Awaited;
    RejectionIsExact(s, id, p);
    forall j
      ensures Awaited(s, j) <==> HasOpenWaiter(s, j)
    {
      AwaitedIsOpen(s, j);
    }
  }

  /** When the full map is scanned, what the scan keeps, and that nothing changes without one. */
  lemma ScannedExactly(s: State, id: Id, p: PruneTimes, s': State)
    requires Inv(s)
    requires s' == EnsureWaiterCapacity(s, id, p).0
    ensures var scanned := id !in s.waiters && |s.waiters| >= s.max
        && (s.lastPrune.None? || p.checkedAt - s.lastPrune.value >= 1_000_000_000);
      if scanned then
        && s'.lastPrune == Some(p.stampedAt) && s'.prunes == s.prunes + 1
        && (forall j :: j in s'.waiters <==> j in s.waiters && Awaited(s, j))
      else s' == s.(mono := p.stampedAt)
    ensures s'.entries == s.entries && s'.acks == s.acks && s'.messages == s.messages && s'.now == s.now
    ensures id in s.waiters ==> s'.waiters == s.waiters
  {
    hide HasOpenWaiter, Awaited;
    forall j
      ensures j in Prune(s.waiters, s.acks, s.messages) <==> Awaited(s, j)
    {
      PruneKeepsOpenIds(s, j);
      AwaitedIsOpen(s, j);
    }
    AwaitedIdsAreThere(s);
    hide Prune, Inv;
  }

  lemma AwaitedIdsAreThere(s: State)
    ensures forall j :: Awaited(s, j) ==> j in s.waiters
  {
  }

  // ----- Polling ----------------------------------------------------------

  /** Ten consumers of `id` are connected and waiting. */
  ghost predicate TenConsumersWait(s: State, id: Id) {
    && id in s.waiters && |s.waiters[id].messages| == 10
    && forall i :: i in s.waiters[id].messages ==> i < |s.messages| && s.messages[i] == Pending
  }

  lemma MessageLimitOnCells(s: State, id: Id)
    requires Inv(s)
    ensures AddMessageWaiter(s, id).1.Err? <==> TenConsumersWait(s, id)
  {
    MessageLimitIsExact(s, id);
    hide AddMessageWaiter;
    if id in s.waiters {
      forall i | i in s.waiters[id].messages
        ensures i < |s.messages| && (s.messages[i] == Pending <==> !IsClosed(s.messages, i))
      {
        assert MessageWaits(s.waiters, id, i);
      }
    }
    hide Inv;
  }

  /** Adding a consumer answers with a new waiting receiver, registered under the ID, or changes no cell. */
  lemma AddedConsumer(s: State, id: Id)
    ensures var (s', r) := AddMessageWaiter(s, id);
      && s'.entries == s.entries && s'.acks == s.acks
      && (r.Err? ==> r == Err(WaiterLimitReached) && s'.messages == s.messages)
      && (r.Ok? ==>
            && r == Ok(Waiting(|s.messages|)) && s'.messages == s.messages + [Pending]
            && id in s'.waiters && |s.messages| in s'.waiters[id].messages)
  {
  }

  /**
    * What a poll answers, in every reachable state: the message if a row holds
    * one that has not expired; a refusal if ten consumers of the ID wait or a
    * new ID is turned away; and otherwise a new receiver registered under the ID.
    */
  lemma PollIsExact(s: State, id: Id, now: int, p: PruneTimes, s': State, r: Result<Fetch, SubscribeError>)
    requires Inv(s) && s.now <= now
    requires (s', r) == GetOrSubscribe(s, id, now, p)
    ensures var there := id in s.entries && s.entries[id].body.Some? && now < s.entries[id].expiresAt;
      && (there ==> r == Ok(Delivered(Message(s.entries[id].body.value, s.entries[id].contentType))))
      && (!there && (TenConsumersWait(s, id) || TurnsAway(s, id, p.checkedAt)) ==> r == Err(WaiterLimitReached))
      && (!there && !TenConsumersWait(s, id) && !TurnsAway(s, id, p.checkedAt) ==>
            && r == Ok(Waiting(|s.messages|))
            && s'.messages == s.messages + [Pending]
            && id in s'.waiters && |s.messages| in s'.waiters[id].messages)
    ensures !(r.Ok? && r.value.Waiting?) ==> s'.messages == s.messages
    ensures s'.entries == s.entries && s'.acks == s.acks
  {
    hide EnsureWaiterCapacity, AddMessageWaiter, TenConsumersWait, Awaited, Inv;
    var s1 := s.(now := now);
    var (s2, room) := EnsureWaiterCapacity(s1, id, p);
    PassTimeKeepsInv(s, s1);
    SameWaiters(s, s1);
    TurnedAwayExactly(s1, id, p);
    ScannedExactly(s1, id, p, s2);
    CapacityKeepsInv(s1, id, p, s2, room);
    if room {
      MessageLimitOnCells(s2, id);
      ConsumersAfterCheck(s, id, s2);
      AddedConsumer(s2, id);
    } else {
      NewIdHasNoTen(s, id);
    }
  }

  lemma NewIdHasNoTen(s: State, id: Id)
    ensures id !in s.waiters ==> !TenConsumersWait(s, id) && !TenProducersWait(s, id) && !Awaited(s, id)
  {
  }

  lemma SameWaiters(s: State, s1: State)
    requires s1 == s.(now := s1.now)
    ensures forall j :: Awaited(s1, j) <==> Awaited(s, j)
  {
  }

  /** A check that finds room leaves the waiters of the ID as they were. */
  lemma ConsumersAfterCheck(s: State, id: Id, s2: State)
    requires s2.acks == s.acks && s2.messages == s.messages
    requires id in s.waiters ==> s2.waiters == s.waiters
    requires id !in s.waiters ==> id !in s2.waiters
    ensures TenConsumersWait(s2, id) <==> TenConsumersWait(s, id)
    ensures TenProducersWait(s2, id) <==> TenProducersWait(s, id)
  {
  }

  // ----- Subscribing for an ACK -------------------------------------------

  /** Ten producers of `id` are connected and waiting. */
  ghost predicate TenProducersWait(s: State, id: Id) {
    && id in s.waiters && |s.waiters[id].acks| == 10
    && forall i :: i in s.waiters[id].acks ==> i < |s.acks| && s.acks[i] == Pending
  }

  lemma AckLimitOnCells(s: State, id: Id)
    requires Inv(s)
    ensures AddAckWaiter(s, id).1.Err? <==> TenProducersWait(s, id)
  {
    AckLimitIsExact(s, id);
    hide AddAckWaiter;
    if id in s.waiters {
      forall i | i in s.waiters[id].acks
        ensures i < |s.acks| && (s.acks[i] == Pending <==> !IsClosed(s.acks, i))
      {
        assert AckWaits(s.waiters, id, i);
      }
    }
    hide Inv;
  }

  lemma AddedProducer(s: State, id: Id)
    ensures var (s', r) := AddAckWaiter(s, id);
      && s'.entries == s.entries && s'.messages == s.messages
      && (r.Err? ==> r == Err(WaiterLimitReached) && s'.acks == s.acks)
      && (r.Ok? ==>
            && r == Ok(|s.acks|) && s'.acks == s.acks + [Pending]
            && id in s'.waiters && |s.acks| in s'.waiters[id].acks)
  {
  }

  /**
    * What a subscription for an ACK answers, in every reachable state: not
    * found if no row of the ID is unexpired; told at once if it is acknowledged;
    * refused if ten producers wait or a new ID is turned away; and otherwise a
    * new receiver registered under the ID.
    */
  lemma SubscribeAckIsExact(s: State, id: Id, now: int, p: PruneTimes, s': State, r: Result<nat, SubscribeError>)
    requires Inv(s) && s.now <= now
    requires (s', r) == SubscribeAck(s, id, now, p)
    ensures var live := id in s.entries && now < s.entries[id].expiresAt;
      var refused := TenProducersWait(s, id) || TurnsAway(s, id, p.checkedAt);
      && (!live ==> r == Err(NotFound))
      && (live && s.entries[id].acked ==> r == Ok(|s.acks|) && s'.acks == s.acks + [Sent(())])
      && (live && !s.entries[id].acked && refused ==> r == Err(WaiterLimitReached))
      && (live && !s.entries[id].acked && !refused ==>
            && r == Ok(|s.acks|) && s'.acks == s.acks + [Pending]
            && id in s'.waiters && |s.acks| in s'.waiters[id].acks)
    ensures r.Err? ==> s'.acks == s.acks
    ensures s'.entries == s.entries && s'.messages == s.messages
  {
    hide EnsureWaiterCapacity, AddAckWaiter, TenProducersWait, Awaited, Inv;
    var s1 := s.(now := now);
    var (s2, room) := EnsureWaiterCapacity(s1, id, p);
    PassTimeKeepsInv(s, s1);
    SameWaiters(s, s1);
    TurnedAwayExactly(s1, id, p);
    ScannedExactly(s1, id, p, s2);
    CapacityKeepsInv(s1, id, p, s2, room);
    if room {
      AckLimitOnCells(s2, id);
      ConsumersAfterCheck(s, id, s2);
      AddedProducer(s2, id);
    } else {
      NewIdHasNoTen(s, id);
    }
  }

  // ----- Storing ----------------------------------------------------------

  /** Every slot of the store holds an unexpired message that is not acknowledged. */
  ghost predicate FullOfMessages(s: State, at: int) {
    |set j | j in s.entries && !s.entries[j].acked && s.entries[j].expiresAt >= at| >= s.max
  }

  /** The cells of `senders` that still wait, given `outcome`; every other cell as it was. */
  ghost predicate Resolves<T>(before: Cells<T>, after: Cells<T>, senders: seq<nat>, outcome: Oneshot<T>) {
    && |after| == |before|
    && forall i :: 0 <= i < |before| ==> after[i] == if i in senders && before[i] == Pending then outcome else before[i]
  }

  lemma NotifyingResolves(s: State, id: Id, message: Message)
    ensures var s' := NotifyMessageWaiters(s, id, message);
      var w := if id in s.waiters then s.waiters[id] else NO_WAITERS;
      && Resolves(s.messages, s'.messages, w.messages, Sent(message))
      && Resolves(s.acks, s'.acks, w.acks, Dropped)
      && s'.waiters == s.waiters - {id} && s'.entries == s.entries && s'.now == s.now
  {
  }

  /** The row a store writes. */
  lemma WrittenRow(message: Message, ttl: nat, t: StoreTimes)
    ensures Row(message, ttl, t) ==
      Entry(Some(message.body), message.contentType, false, t.startedAt + ttl, t.createdAt)
  {
  }

  /**
    * What a store does, in every reachable state. It is rejected exactly when
    * the ID is new and every slot holds an unexpired unacknowledged message, and
    * then only time passes. Otherwise the row is written with its body, type,
    * expiry and creation time; every waiting consumer of the ID is sent the
    * message and every waiting producer of it dropped, and nobody else.
    */
  lemma StoreIsExact(s: State, id: Id, message: Message, ttl: nat, t: StoreTimes, victims: set<Id>,
                     s': State, outcome: InsertOutcome)
    requires |s.entries| <= s.max
    requires id !in s.entries ==> MemoryVictims(s.entries, s.max, t.sweptAt, victims)
    requires (s', outcome) == Store(s, id, message, ttl, t, victims)
    ensures outcome == StoreFull <==> id !in s.entries && FullOfMessages(s, t.sweptAt)
    ensures outcome == StoreFull ==> s' == s.(now := t.sweptAt)
    ensures outcome == Stored ==>
      && id in s'.entries
      && s'.entries[id] == Entry(Some(message.body), message.contentType, false, t.startedAt + ttl, t.createdAt)
      && (forall j :: j in s'.entries && j != id ==> j in s.entries && s'.entries[j] == s.entries[j])
    ensures outcome == Stored ==>
      var w := if id in s.waiters then s.waiters[id] else Waiters([], []);
      && Resolves(s.messages, s'.messages, w.messages, Sent(message))
      && Resolves(s.acks, s'.acks, w.acks, Dropped)
      && s'.waiters == s.waiters - {id} && s'.now == t.sweptAt
  {
    HashMapRejectsExactly(s.entries, s.max, id, Row(message, ttl, t), t.sweptAt, victims);
    WrittenRow(message, ttl, t);
    var (entries, _) := Insert(s.entries, s.max, id, Row(message, ttl, t), t.sweptAt, victims);
    var h := Remember(s.history, id, message, t.startedAt + ttl);
    var stored := s.(entries := entries, now := t.sweptAt, history := h);
    NotifyingResolves(stored, id, message);
    hide Insert, Row, Remember, NotifyMessageWaiters, Resolves, MemoryVictims;
  }

  // ----- Acknowledging ----------------------------------------------------

  lemma TellingResolves(s: State, id: Id)
    ensures var s' := NotifyAckWaiters(s, id);
      var w := if id in s.waiters then s.waiters[id] else NO_WAITERS;
      && Resolves(s.acks, s'.acks, w.acks, Sent(()))
      && s'.messages == s.messages && s'.entries == s.entries && s'.now == s.now
      && s'.waiters - {id} == s.waiters - {id}
      && (id in s'.waiters <==> w.messages != [])
      && (id in s'.waiters ==> s'.waiters[id] == Waiters([], w.messages))
  {
  }

  /**
    * What an ACK does: found exactly if a row of the ID is unexpired; it changes
    * something exactly if that row is not acknowledged yet, and then only this
    * row, which loses its body, and the waiting producers of the ID, which are told.
    */
  lemma AckIsExact(s: State, id: Id, now: int, s': State, found: bool)
    requires (s', found) == Ack(s, id, now)
    ensures found <==> id in s.entries && now < s.entries[id].expiresAt
    ensures s'.messages == s.messages && s'.now == now
    ensures if id in s.entries && now < s.entries[id].expiresAt && !s.entries[id].acked then
        var row := s.entries[id]; var w := if id in s.waiters then s.waiters[id] else Waiters([], []);
        && s'.entries == s.entries[id := Entry(None, row.contentType, true, row.expiresAt, row.createdAt)]
        && Resolves(s.acks, s'.acks, w.acks, Sent(()))
        && s'.waiters - {id} == s.waiters - {id}
        && (id in s'.waiters ==> s'.waiters[id] == Waiters([], w.messages))
      else s' == s.(now := now)
  {
    if id in s.entries {
      var h :=
        if id in s.history.latest then s.history.(acked := s.history.acked + {s.history.latest[id]}) else s.history;
      TellingResolves(s.(now := now, entries := AckRow(s.entries, id), history := h), id);
    }
    hide NotifyAckWaiters, Resolves;
  }

  /** The status of an ID: none unless a row of it is unexpired, and then whether that row is acknowledged. */
  lemma StatusIsExact(m: Table, id: Id, now: int)
    ensures IsAcked(m, id, now) == Some(true) <==> id in m && now < m[id].expiresAt && m[id].acked
    ensures IsAcked(m, id, now) == Some(false) <==> id in m && now < m[id].expiresAt && !m[id].acked
  {
  }

  // ----- Cleaning up ------------------------------------------------------

  lemma SweptSizes(s: State, at: int)
    requires Inv(s)
    ensures |Sweep(s, at).acks| == |s.acks| == |s.ackTags|
    ensures |Sweep(s, at).messages| == |s.messages| == |s.messageTags|
  {
  }

  lemma SweptAck(s: State, at: int, i: nat)
    requires Inv(s) && i < |s.acks|
    ensures i < |s.ackTags| && i < |Sweep(s, at).acks|
    ensures Sweep(s, at).acks[i] ==
      if s.acks[i] == Pending && s.ackTags[i].id in SweptIds(s.entries, at) then Dropped else s.acks[i]
  {
    hide SweptIds, AckSendersOf, MessageSendersOf;
    if s.acks[i].Pending? {
      assert AckWaits(s.waiters, s.ackTags[i].id, i);
      AckSenderSwept(s.waiters, s.acks, s.ackTags, i, s.ackTags[i].id, SweptIds(s.entries, at));
    }
  }

  lemma SweptMessage(s: State, at: int, i: nat)
    requires Inv(s) && i < |s.messages|
    ensures i < |s.messageTags| && i < |Sweep(s, at).messages|
    ensures Sweep(s, at).messages[i] ==
      if s.messages[i] == Pending && s.messageTags[i].id in SweptIds(s.entries, at) then Dropped else s.messages[i]
  {
    hide SweptIds, AckSendersOf, MessageSendersOf;
    if s.messages[i].Pending? {
      assert MessageWaits(s.waiters, s.messageTags[i].id, i);
      MessageSenderSwept(s.waiters, s.messages, s.messageTags, i, s.messageTags[i].id, SweptIds(s.entries, at));
    }
  }

  lemma SweptIdKept(s: State, at: int, j: Id)
    requires Inv(s)
    ensures var swept := Sweep(s, at);
      j in Prune(swept.waiters, swept.acks, swept.messages) <==> Awaited(s, j) && j !in SweptIds(s.entries, at)
  {
    hide Inv, Sweep, Prune, Awaited, AckWaits, MessageWaits, IsClosed, SweptIds;
    var swept := Sweep(s, at);
    AwaitedIsOpen(s, j);
    PruneKeepsOpenIds(swept, j);
    SweptWaits(s, at, swept);
  }

  /**
    * What a cleanup does: exactly the rows with `expiresAt < at` go, and are
    * counted; the waiting clients of their IDs are dropped, and no others; and
    * an ID keeps waiters exactly if it has a connected client left.
    */
  lemma CleanupIsExact(s: State, at: int, s': State, deleted: nat)
    requires Inv(s)
    requires (s', deleted) == CleanupExpired(s, at)
    ensures forall j :: j in s'.entries <==> j in s.entries && s.entries[j].expiresAt >= at
    ensures forall j :: j in s'.entries ==> s'.entries[j] == s.entries[j]
    ensures deleted == |s.entries| - |s'.entries|
    ensures |s'.acks| == |s.acks| == |s.ackTags| && |s'.messages| == |s.messages| == |s.messageTags|
    ensures forall i :: 0 <= i < |s.acks| ==>
      var id := s.ackTags[i].id;
      s'.acks[i] ==
        if s.acks[i] == Pending && id in s.entries && s.entries[id].expiresAt < at then Dropped else s.acks[i]
    ensures forall i :: 0 <= i < |s.messages| ==>
      var id := s.messageTags[i].id;
      s'.messages[i] ==
        if s.messages[i] == Pending && id in s.entries && s.entries[id].expiresAt < at then Dropped else s.messages[i]
    ensures forall j :: j in s'.waiters <==>
      j in s.waiters && Awaited(s, j) && !(j in s.entries && s.entries[j].expiresAt < at)
  {
    CleanupShape(s, at, s');
    CleanupIsComplete(s, at, s', deleted);
    SweptExactly(s.entries, at);
    hide CleanupExpired, DeleteSwept, Prune, Sweep, Awaited;
    forall i | 0 <= i < |s.acks|
      ensures i < |s.ackTags| && s'.acks[i] ==
        if s.acks[i] == Pending && s.ackTags[i].id in SweptIds(s.entries, at) then Dropped else s.acks[i]
    {
      SweptAck(s, at, i);
    }
    forall i | 0 <= i < |s.messages|
      ensures i < |s.messageTags| && s'.messages[i] ==
        if s.messages[i] == Pending && s.messageTags[i].id in SweptIds(s.entries, at) then Dropped else s.messages[i]
    {
      SweptMessage(s, at, i);
    }
    forall j
      ensures j in s'.waiters <==> Awaited(s, j) && j !in SweptIds(s.entries, at)
    {
      SweptIdKept(s, at, j);
    }
    SweptSizes(s, at);
    AwaitedIdsAreThere(s);
    hide Inv, SweptIds;
  }

  // ----- Storing and subscribing ------------------------------------------

  /**
    * What storing and subscribing in one call answers, in every reachable state.
    * Once the producer is admitted and the message stored, the producer is the
    * one waiter of its ID, unless the message expired on the spot.
    */
  lemma ProducerIsAdmittedExactly(s: State, e: Event, s': State, r: Result<nat, StoreAndSubscribeError>)
    requires Inv(s) && Enabled(s, e) && e.StoreAndSubscribeEvent?
    requires (s', r) ==
      StoreAndSubscribeAck(s, e.id, e.message, e.ttl, e.before, e.times, e.victims, e.subscribedAt, e.after)
    ensures var away := TurnsAway(s, e.id, e.before.checkedAt);
      var full := e.id !in s.entries && FullOfMessages(s, e.times.sweptAt);
      var inTime := e.subscribedAt < e.times.startedAt + e.ttl;
      && (r == Err(NoWaiterRoom) <==> away)
      && (r == Err(NoStoreRoom) <==> !away && full)
      && (r == Err(ExpiredAtOnce) <==> !away && !full && !inTime)
      && (r == Ok(|s.acks|) <==> !away && !full && inTime)
      && (r.Ok? <==> !away && !full && inTime)
      && (!away && !full ==> e.id in s'.entries && s'.entries[e.id] == Entry(Some(e.message.body),
            e.message.contentType, false, e.times.startedAt + e.ttl, e.times.createdAt))
    ensures r.Ok? ==>
      && |s'.acks| == |s.acks| + 1 && s'.acks[|s.acks|] == Pending
      && e.id in s'.waiters && |s.acks| in s'.waiters[e.id].acks
  {
    hide EnsureWaiterCapacity, Store, SubscribeAck, StoreAndSubscribeAck, Inv, TurnsAway, Awaited, TenProducersWait;
    TurnedAwayExactly(s, e.id, e.before);
    TurnsAwayMeans(s, e.id, e.before.checkedAt);
    var (s1, room) := EnsureWaiterCapacity(s, e.id, e.before);
    CapacityKeepsInv(s, e.id, e.before, s1, room);
    CapacityShape(s, e.id, e.before, s1, room);
    StoreAndSubscribeInParts(s, e.id, e.message, e.ttl, e.before, e.times, e.subscribedAt, e.after);
    if room {
      AdmittedStores(s1, e, s', r);
    }
  }

  lemma TurnsAwayMeans(s: State, id: Id, checkedAt: int)
    ensures TurnsAway(s, id, checkedAt) <==>
      && id !in s.waiters && |s.waiters| >= s.max
      && ((s.lastPrune.Some? && checkedAt - s.lastPrune.value < 1_000_000_000)
          || forall j :: j in s.waiters ==> Awaited(s, j))
  {
    hide Awaited;
  }

  /** The store and the subscription of a producer that was admitted. */
  lemma AdmittedStores(s1: State, e: Event, s': State, r: Result<nat, StoreAndSubscribeError>)
    requires Inv(s1) && e.StoreAndSubscribeEvent? && HasRoom(s1, e.id)
    requires StoreInOrder(s1, e.times) && e.times.sweptAt <= e.subscribedAt
    requires e.id !in s1.entries ==> MemoryVictims(s1.entries, s1.max, e.times.sweptAt, e.victims)
    requires (s', r) ==
      StoreThenSubscribe(s1, e.id, e.message, e.ttl, e.times, e.victims, e.subscribedAt, e.after)
    ensures var full := e.id !in s1.entries && FullOfMessages(s1, e.times.sweptAt);
      var inTime := e.subscribedAt < e.times.startedAt + e.ttl;
      && r == (if full then Err(NoStoreRoom) else if inTime then Ok(|s1.acks|) else Err(ExpiredAtOnce))
      && (!full ==> e.id in s'.entries && s'.entries[e.id] == Entry(Some(e.message.body),
            e.message.contentType, false, e.times.startedAt + e.ttl, e.times.createdAt))
    ensures r.Ok? ==>
      && |s'.acks| == |s1.acks| + 1 && s'.acks[|s1.acks|] == Pending
      && e.id in s'.waiters && |s1.acks| in s'.waiters[e.id].acks
  {
    var (s2, outcome) := Store(s1, e.id, e.message, e.ttl, e.times, e.victims);
    BoundsOf(s1);
    StoreIsExact(s1, e.id, e.message, e.ttl, e.times, e.victims, s2, outcome);
    StoreKeepsInv(s1, e.id, e.message, e.ttl, e.times, e.victims, s2, outcome);
    if outcome == Stored {
      StoreLeavesRoom(s1, e.id, e.message, e.ttl, e.times, e.victims, s2);
      NewIdHasNoTen(s2, e.id);
      var (s3, r3) := SubscribeAck(s2, e.id, e.subscribedAt, e.after);
      SubscribeAckIsExact(s2, e.id, e.subscribedAt, e.after, s3, r3);
    }
    hide Inv, Store, SubscribeAck, MemoryVictims, Awaited, TenProducersWait, Resolves;
  }

  lemma BoundsOf(s: State)
    requires Inv(s)
    ensures |s.entries| <= s.max && |s.waiters| <= s.max
  {
  }

  // ----- Anything may happen at any time ----------------------------------

  /** No event waits for anything but the clocks, which do not go back, and receivers that are there. */
  lemma EventsArePossible(s: State, id: Id, at: int, p: PruneTimes, mono: int, receiver: nat)
    requires s.now <= at && s.mono <= p.checkedAt <= p.stampedAt && s.mono <= mono
    ensures Enabled(s, AckEvent(id, at)) && Enabled(s, CleanupEvent(at))
    ensures Enabled(s, SubscribeAckEvent(id, at, p)) && Enabled(s, GetOrSubscribeEvent(id, at, p))
    ensures Enabled(s, ClockAdvances(at, mono))
    ensures receiver < |s.acks| ==> Enabled(s, AckReceiverCloses(receiver))
    ensures receiver < |s.messages| ==> Enabled(s, MessageReceiverCloses(receiver))
  {
  }

  /** A store is possible in every state too, for some choice of what goes to make room. */
  lemma StoresArePossible(
      s: State, id: Id, message: Message, ttl: nat, p: PruneTimes, t: StoreTimes, at: int, p': PruneTimes)
    returns (victims: set<Id>)
    requires s.now <= t.startedAt <= t.createdAt <= t.sweptAt <= at
    requires s.mono <= p.checkedAt <= p.stampedAt <= p'.checkedAt <= p'.stampedAt
    ensures Enabled(s, StoreEvent(id, message, ttl, t, victims))
    ensures Enabled(s, StoreAndSubscribeEvent(id, message, ttl, p, t, victims, at, p'))
  {
    victims := VictimsOf(s.entries, s.max, t.sweptAt, 1);
  }

  // ----- The events the theorems on runs speak of -------------------------

  /** Which events have a message accepted for an ID. */
  lemma AcceptsExactly(s: State, e: Event, id: Id)
    requires Inv(s) && Enabled(s, e)
    ensures Accepts(s, e, id) <==>
      && (e.StoreEvent? || e.StoreAndSubscribeEvent?) && e.id == id
      && (id in s.entries || !FullOfMessages(s, e.times.sweptAt))
      && (e.StoreAndSubscribeEvent? ==> !TurnsAway(s, id, e.before.checkedAt))
  {
    hide EnsureWaiterCapacity, Store, Inv, MemoryVictims, TurnsAway;
    BoundsOf(s);
    if e.StoreEvent? {
      var (s', outcome) := Store(s, e.id, e.message, e.ttl, e.times, e.victims);
      StoreIsExact(s, e.id, e.message, e.ttl, e.times, e.victims, s', outcome);
    } else if e.StoreAndSubscribeEvent? {
      var (s1, room) := EnsureWaiterCapacity(s, e.id, e.before);
      TurnedAwayExactly(s, e.id, e.before);
      TurnsAwayMeans(s, e.id, e.before.checkedAt);
      CapacityShape(s, e.id, e.before, s1, room);
      var (s', outcome) := Store(s1, e.id, e.message, e.ttl, e.times, e.victims);
      StoreIsExact(s1, e.id, e.message, e.ttl, e.times, e.victims, s', outcome);
    }
    hide Resolves;
  }

  /** Which events acknowledge the message of an ID, and which clean its row up. */
  lemma AcknowledgesExactly(s: State, e: Event, id: Id)
    ensures Acknowledges(s, e, id) <==>
      e.AckEvent? && e.id == id && id in s.entries && e.at < s.entries[id].expiresAt && !s.entries[id].acked
    ensures CleansUp(s, e, id) <==> e.CleanupEvent? && id in s.entries && s.entries[id].expiresAt < e.at
  {
  }
}
