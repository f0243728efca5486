/**
  * What one step can do to a receiver that was handed out: exactly which
  * events resolve it, and that nothing changes it afterwards.
  */
module Tickets {
  import opened Types
  import opened Collections
  import opened Entries
  import opened Oneshots
  import opened WaitingListSpec
  import opened WaitingListInvariants
  import opened WaitingListPreservation
  import opened WaitingListSteps

  /** The event stores a message for `id`, and the store does not reject it. */
  ghost predicate Accepts(s: State, e: Event, id: Id) {
    match e
    case StoreEvent(i, message, ttl, t, victims) =>
      i == id && Store(s, i, message, ttl, t, victims).1 == Stored
    case StoreAndSubscribeEvent(i, message, ttl, p, t, victims, at, p') =>
      && i == id && EnsureWaiterCapacity(s, i, p).1
      && Store(EnsureWaiterCapacity(s, i, p).0, i, message, ttl, t, victims).1 == Stored
    case _ => false
  }

  /** The event acknowledges the message now stored for `id`, for the first time. */
  ghost predicate Acknowledges(s: State, e: Event, id: Id) {
    e.AckEvent? && e.id == id && Visible(s.entries, id, e.at) && !s.entries[id].acked
  }

  /** The event deletes the expired row of `id` in a cleanup. */
  ghost predicate CleansUp(s: State, e: Event, id: Id) {
    e.CleanupEvent? && id in SweptIds(s.entries, e.at)
  }

  ghost predicate Resolved<T>(c: Oneshot<T>) {
    !c.Pending?
  }

  /** `after` has the cells of `before`, resolved ones unchanged, and perhaps more. */
  ghost predicate CellsGrow<T>(before: Cells<T>, after: Cells<T>) {
    |before| <= |after| && forall r :: 0 <= r < |before| && Resolved(before[r]) ==> after[r] == before[r]
  }

  ghost predicate StateGrows(s: State, s': State) {
    && CellsGrow(s.acks, s'.acks) && CellsGrow(s.messages, s'.messages)
    && s.ackTags <= s'.ackTags && s.messageTags <= s'.messageTags
    && s.history.accepted <= s'.history.accepted && s.history.acked <= s'.history.acked
    && s.now <= s'.now && s.max == s'.max
  }

  // ----- Single operations ------------------------------------------------

  lemma StoreGrows(
      s: State, id: Id, message: Message, ttl: nat, t: StoreTimes, victims: set<Id>, s': State,
      outcome: InsertOutcome)
    requires StoreInOrder(s, t)
    requires (s', outcome) == Store(s, id, message, ttl, t, victims)
    ensures StateGrows(s, s')
    ensures s'.ackTags == s.ackTags && s'.messageTags == s.messageTags
    ensures |s'.acks| == |s.acks| && |s'.messages| == |s.messages|
  {
  }

  /** The cells a store leaves: the ID's ACK senders dropped, its message senders used. */
  lemma StoreCells(
      s: State, id: Id, message: Message, ttl: nat, t: StoreTimes, victims: set<Id>, s': State,
      outcome: InsertOutcome)
    requires (s', outcome) == Store(s, id, message, ttl, t, victims)
    ensures s'.acks == if outcome == Stored then DropAll(s.acks, Elements(WaitersOf(s.waiters, id).acks)) else s.acks
    ensures s'.messages ==
      if outcome == Stored then SendAll(s.messages, WaitersOf(s.waiters, id).messages, message) else s.messages
  {
  }

  lemma SubscribeAckGrows(s: State, id: Id, now: int, p: PruneTimes, s': State, r: Result<nat, SubscribeError>)
    requires s.now <= now
    requires (s', r) == SubscribeAck(s, id, now, p)
    ensures StateGrows(s, s') && s.acks <= s'.acks && s.messages == s'.messages && s'.messageTags == s.messageTags
    ensures s'.history == s.history && s'.entries == s.entries
  {
  }

  lemma GetOrSubscribeGrows(s: State, id: Id, now: int, p: PruneTimes, s': State, r: Result<Fetch, SubscribeError>)
    requires s.now <= now
    requires (s', r) == GetOrSubscribe(s, id, now, p)
    ensures StateGrows(s, s') && s.messages <= s'.messages && s.acks == s'.acks && s'.ackTags == s.ackTags
    ensures s'.history == s.history && s'.entries == s.entries
  {
  }

  /** A store that also subscribes is the capacity check, the store and the subscription in turn. */
  lemma StoreAndSubscribeParts(s: State, e: Event, s1: State, s2: State, s3: State)
    requires e.StoreAndSubscribeEvent? && Enabled(s, e)
    requires s1 == EnsureWaiterCapacity(s, e.id, e.before).0
    requires s2 == if EnsureWaiterCapacity(s, e.id, e.before).1
             then Store(s1, e.id, e.message, e.ttl, e.times, e.victims).0 else s1
    requires s3 == Next(s, e)
    ensures s1.entries == s.entries && s1.history == s.history && s1.now == s.now && s1.max == s.max
    ensures s1.acks == s.acks && s1.messages == s.messages && s1.ackTags == s.ackTags && s1.messageTags == s.messageTags
    ensures StateGrows(s, s2) && s2.ackTags == s.ackTags && s2.messageTags == s.messageTags
    ensures |s2.acks| == |s.acks| && |s2.messages| == |s.messages|
    ensures StateGrows(s2, s3) && s2.acks <= s3.acks && s2.messages == s3.messages && s3.messageTags == s2.messageTags
    ensures s2.history == s3.history && s2.entries == s3.entries
    ensures !Accepts(s, e, e.id) ==>
      s2.acks == s.acks && s2.messages == s.messages && s2.history == s.history && s3.acks == s2.acks
    ensures !Accepts(s, e, e.id) ==> s3.ackTags == s2.ackTags
  {
    var (c1, room) := EnsureWaiterCapacity(s, e.id, e.before);
    CapacityShape(s, e.id, e.before, c1, room);
    if room {
      var (c2, outcome) := Store(s1, e.id, e.message, e.ttl, e.times, e.victims);
      StoreGrows(s1, e.id, e.message, e.ttl, e.times, e.victims, c2, outcome);
      if outcome == Stored {
        StoreSetsClock(s1, e.id, e.message, e.ttl, e.times, e.victims);
        var (c3, r) := SubscribeAck(s2, e.id, e.subscribedAt, e.after);
        SubscribeAckGrows(s2, e.id, e.subscribedAt, e.after, c3, r);
      }
    }
  }

  lemma StoreAndSubscribeGrows(s: State, e: Event, s': State)
    requires e.StoreAndSubscribeEvent? && Enabled(s, e)
    requires s' == Next(s, e)
    ensures StateGrows(s, s')
  {
    var (s1, room) := EnsureWaiterCapacity(s, e.id, e.before);
    var s2 := if room then Store(s1, e.id, e.message, e.ttl, e.times, e.victims).0 else s1;
    StoreAndSubscribeParts(s, e, s1, s2, s');
    hide Next, Enabled, Store, EnsureWaiterCapacity;
  }

  /** One step only adds receivers, messages and acknowledgements, and never changes a resolved receiver. */
  lemma NextGrows(s: State, e: Event, s': State)
    requires Enabled(s, e)
    requires s' == Next(s, e)
    ensures StateGrows(s, s')
  {
    match e
    case StoreEvent(id, message, ttl, t, victims) =>
      StoreGrows(s, id, message, ttl, t, victims, s', Store(s, id, message, ttl, t, victims).1);
    case AckEvent(id, at) =>
    case SubscribeAckEvent(id, at, p) => SubscribeAckGrows(s, id, at, p, s', SubscribeAck(s, id, at, p).1);
    case StoreAndSubscribeEvent(_, _, _, _, _, _, _, _) => StoreAndSubscribeGrows(s, e, s');
    case GetOrSubscribeEvent(id, at, p) => GetOrSubscribeGrows(s, id, at, p, s', GetOrSubscribe(s, id, at, p).1);
    case CleanupEvent(at) =>
    case AckReceiverCloses(i) =>
    case MessageReceiverCloses(i) =>
    case ClockAdvances(now, mono) =>
  }

  // ----- What resolves a receiver ----------------------------------------

  /** The cell a step leaves where a message receiver was waiting. */
  ghost predicate MessageCellStep(s: State, e: Event, r: nat, cell: Oneshot<Message>)
    requires r < |s.messageTags|
  {
    var id := s.messageTags[r].id;
    && (cell.Sent? <==> Accepts(s, e, id))
    && (cell.Sent? ==> cell.value == e.message)
    && (cell.Dropped? <==> CleansUp(s, e, id))
    && (cell.Closed? <==> e == MessageReceiverCloses(r))
  }

  lemma MessageSenderIsUnique(waiters: WaiterMap, messages: Cells<Message>, tags: seq<MessageTag>, r: nat, id: Id)
    requires MessageSlots(waiters, messages, tags)
    requires r < |messages| && messages[r].Pending?
    ensures r in WaitersOf(waiters, id).messages <==> id == tags[r].id
  {
    assert MessageWaits(waiters, tags[r].id, r);
    assert r in WaitersOf(waiters, id).messages ==> MessageWaits(waiters, id, r);
  }

  lemma AckSenderIsUnique(waiters: WaiterMap, acks: Cells<()>, tags: seq<AckTag>, r: nat, id: Id)
    requires AckSlots(waiters, acks, tags)
    requires r < |acks| && acks[r].Pending?
    ensures r in WaitersOf(waiters, id).acks <==> id == tags[r].id
  {
    assert AckWaits(waiters, tags[r].id, r);
    assert r in WaitersOf(waiters, id).acks ==> AckWaits(waiters, id, r);
  }

  lemma CapacityKeepsSenders(s: State, id: Id, p: PruneTimes, s1: State)
    requires Inv(s)
    requires s1 == EnsureWaiterCapacity(s, id, p).0
    ensures AckSlots(s1.waiters, s.acks, s.ackTags) && MessageSlots(s1.waiters, s.messages, s.messageTags)
    ensures s1.acks == s.acks && s1.messages == s.messages && s1.now == s.now
  {
    CapacityKeepsInv(s, id, p, s1, EnsureWaiterCapacity(s, id, p).1);
    CapacityShape(s, id, p, s1, EnsureWaiterCapacity(s, id, p).1);
  }

  /** What a store that also subscribes does to the receivers already out; `s1` is the state the store finds. */
  lemma StoreAndSubscribeCells(s: State, e: Event, s': State, s1: State)
    requires Enabled(s, e) && e.StoreAndSubscribeEvent?
    requires s' == Next(s, e)
    requires s1 == EnsureWaiterCapacity(s, e.id, e.before).0
    requires s1.acks == s.acks && s1.messages == s.messages && s1.now == s.now
    ensures (if Accepts(s, e, e.id) then DropAll(s.acks, Elements(WaitersOf(s1.waiters, e.id).acks)) else s.acks)
      <= s'.acks
    ensures s'.messages ==
      if Accepts(s, e, e.id) then SendAll(s.messages, WaitersOf(s1.waiters, e.id).messages, e.message) else s.messages
  {
    if EnsureWaiterCapacity(s, e.id, e.before).1 {
      var (s2, outcome) := Store(s1, e.id, e.message, e.ttl, e.times, e.victims);
      StoreCells(s1, e.id, e.message, e.ttl, e.times, e.victims, s2, outcome);
      if outcome == Stored {
        StoreSetsClock(s1, e.id, e.message, e.ttl, e.times, e.victims);
        SubscribeAckGrows(s2, e.id, e.subscribedAt, e.after, s', SubscribeAck(s2, e.id, e.subscribedAt, e.after).1);
      }
    }
  }

  lemma StoreAndSubscribeSenders(s: State, e: Event, s': State) returns (waiters: WaiterMap)
    requires Inv(s) && Enabled(s, e) && e.StoreAndSubscribeEvent?
    requires s' == Next(s, e)
    ensures AckSlots(waiters, s.acks, s.ackTags) && MessageSlots(waiters, s.messages, s.messageTags)
    ensures (if Accepts(s, e, e.id) then DropAll(s.acks, Elements(WaitersOf(waiters, e.id).acks)) else s.acks)
      <= s'.acks
    ensures s'.messages ==
      if Accepts(s, e, e.id) then SendAll(s.messages, WaitersOf(waiters, e.id).messages, e.message) else s.messages
    ensures forall id :: Accepts(s, e, id) ==> id == e.id
  {
    var s1 := EnsureWaiterCapacity(s, e.id, e.before).0;
    waiters := s1.waiters;
    CapacityKeepsSenders(s, e.id, e.before, s1);
    StoreAndSubscribeCells(s, e, s', s1);
  }

  lemma MessageCellOfStore(s: State, e: Event, waiters: WaiterMap, r: nat, after: Cells<Message>)
    requires e.StoreEvent? || e.StoreAndSubscribeEvent?
    requires MessageSlots(waiters, s.messages, s.messageTags)
    requires r < |s.messages| && s.messages[r].Pending?
    requires forall id :: Accepts(s, e, id) ==> id == e.id
    requires after ==
      if Accepts(s, e, e.id) then SendAll(s.messages, WaitersOf(waiters, e.id).messages, e.message) else s.messages
    ensures MessageCellStep(s, e, r, after[r])
  {
    hide Accepts;
    MessageSenderIsUnique(waiters, s.messages, s.messageTags, r, e.id);
  }

  lemma MessageReceiverAtStore(s: State, e: Event, s': State, r: nat)
    requires Inv(s) && Enabled(s, e) && e.StoreEvent?
    requires s' == Next(s, e)
    requires r < |s.messages| && s.messages[r].Pending?
    ensures r < |s'.messages| && MessageCellStep(s, e, r, s'.messages[r])
  {
    StoreCells(s, e.id, e.message, e.ttl, e.times, e.victims, s',
      Store(s, e.id, e.message, e.ttl, e.times, e.victims).1);
    var waiters := s.waiters;
    MessageCellOfStore(s, e, waiters, r, s'.messages);
  }

  lemma MessageReceiverAtStoreAndSubscribe(s: State, e: Event, s': State, r: nat)
    requires Inv(s) && Enabled(s, e) && e.StoreAndSubscribeEvent?
    requires s' == Next(s, e)
    requires r < |s.messages| && s.messages[r].Pending?
    ensures r < |s'.messages| && MessageCellStep(s, e, r, s'.messages[r])
  {
    hide Next, Enabled, Accepts;
    var waiters := StoreAndSubscribeSenders(s, e, s');
    MessageCellOfStore(s, e, waiters, r, s'.messages);
  }

  lemma MessageReceiverAtCleanup(s: State, e: Event, s': State, r: nat)
    requires Inv(s) && Enabled(s, e) && e.CleanupEvent?
    requires s' == Next(s, e)
    requires r < |s.messages| && s.messages[r].Pending?
    ensures r < |s'.messages| && MessageCellStep(s, e, r, s'.messages[r])
  {
    assert MessageWaits(s.waiters, s.messageTags[r].id, r);
    MessageSenderSwept(s.waiters, s.messages, s.messageTags, r, s.messageTags[r].id, SweptIds(s.entries, e.at));
  }

  /** Subscriptions leave every receiver that is already out as it is. */
  lemma SubscriptionsLeaveCells(s: State, e: Event, s': State)
    requires Enabled(s, e) && (e.SubscribeAckEvent? || e.GetOrSubscribeEvent?)
    requires s' == Next(s, e)
    ensures s.acks <= s'.acks && s.messages <= s'.messages && s'.history == s.history
  {
    if e.SubscribeAckEvent? {
      SubscribeAckGrows(s, e.id, e.at, e.prune, s', SubscribeAck(s, e.id, e.at, e.prune).1);
    } else {
      GetOrSubscribeGrows(s, e.id, e.at, e.prune, s', GetOrSubscribe(s, e.id, e.at, e.prune).1);
    }
  }

  /**
    * A waiting message receiver is sent a message exactly by a store for its ID
    * that is not rejected, and then exactly that message; its sender is dropped
    * unsent exactly by a cleanup that deletes its ID's expired row; it is closed
    * exactly by its client; and anything else leaves it waiting.
    */
  lemma MessageReceiverStep(s: State, e: Event, s': State, r: nat)
    requires Inv(s) && Enabled(s, e)
    requires s' == Next(s, e)
    requires r < |s.messages| && s.messages[r].Pending?
    ensures r < |s'.messages| && MessageCellStep(s, e, r, s'.messages[r])
  {
    if e.StoreEvent? {
      MessageReceiverAtStore(s, e, s', r);
    } else if e.StoreAndSubscribeEvent? {
      MessageReceiverAtStoreAndSubscribe(s, e, s', r);
    } else if e.CleanupEvent? {
      MessageReceiverAtCleanup(s, e, s', r);
    } else if e.SubscribeAckEvent? || e.GetOrSubscribeEvent? {
      SubscriptionsLeaveCells(s, e, s');
    }
  }

  /** The cell a step leaves where an ACK receiver was waiting. */
  ghost predicate AckCellStep(s: State, e: Event, r: nat, cell: Oneshot<()>)
    requires r < |s.ackTags|
  {
    var id := s.ackTags[r].id;
    && (cell.Sent? <==> Acknowledges(s, e, id))
    && (cell.Dropped? <==> Accepts(s, e, id) || CleansUp(s, e, id))
    && (cell.Closed? <==> e == AckReceiverCloses(r))
  }

  lemma AckCellOfStore(s: State, e: Event, waiters: WaiterMap, r: nat, after: Cells<()>)
    requires e.StoreEvent? || e.StoreAndSubscribeEvent?
    requires AckSlots(waiters, s.acks, s.ackTags)
    requires r < |s.acks| && s.acks[r].Pending?
    requires forall id :: Accepts(s, e, id) ==> id == e.id
    requires after == if Accepts(s, e, e.id) then DropAll(s.acks, Elements(WaitersOf(waiters, e.id).acks)) else s.acks
    ensures AckCellStep(s, e, r, after[r])
  {
    hide Accepts;
    AckSenderIsUnique(waiters, s.acks, s.ackTags, r, e.id);
  }

  lemma AckReceiverAtStore(s: State, e: Event, s': State, r: nat)
    requires Inv(s) && Enabled(s, e) && e.StoreEvent?
    requires s' == Next(s, e)
    requires r < |s.acks| && s.acks[r].Pending?
    ensures r < |s'.acks| && AckCellStep(s, e, r, s'.acks[r])
  {
    StoreCells(s, e.id, e.message, e.ttl, e.times, e.victims, s',
      Store(s, e.id, e.message, e.ttl, e.times, e.victims).1);
    var waiters := s.waiters;
    AckCellOfStore(s, e, waiters, r, s'.acks);
  }

  lemma AckReceiverAtAck(s: State, e: Event, s': State, r: nat)
    requires Inv(s) && Enabled(s, e) && e.AckEvent?
    requires s' == Next(s, e)
    requires r < |s.acks| && s.acks[r].Pending?
    ensures r < |s'.acks| && AckCellStep(s, e, r, s'.acks[r])
  {
    AckSenderIsUnique(s.waiters, s.acks, s.ackTags, r, e.id);
  }

  lemma AckReceiverAtStoreAndSubscribe(s: State, e: Event, s': State, r: nat)
    requires Inv(s) && Enabled(s, e) && e.StoreAndSubscribeEvent?
    requires s' == Next(s, e)
    requires r < |s.acks| && s.acks[r].Pending?
    ensures r < |s'.acks| && AckCellStep(s, e, r, s'.acks[r])
  {
    hide Next, Enabled, Accepts;
    var waiters := StoreAndSubscribeSenders(s, e, s');
    AckCellOfStore(s, e, waiters, r, s'.acks[..|s.acks|]);
  }

  lemma AckReceiverAtCleanup(s: State, e: Event, s': State, r: nat)
    requires Inv(s) && Enabled(s, e) && e.CleanupEvent?
    requires s' == Next(s, e)
    requires r < |s.acks| && s.acks[r].Pending?
    ensures r < |s'.acks| && AckCellStep(s, e, r, s'.acks[r])
  {
    assert AckWaits(s.waiters, s.ackTags[r].id, r);
    AckSenderSwept(s.waiters, s.acks, s.ackTags, r, s.ackTags[r].id, SweptIds(s.entries, e.at));
  }

  /**
    * A waiting ACK receiver is notified exactly by the first effective ACK of
    * its ID; its sender is dropped exactly when its ID's message is overwritten
    * or cleaned up; it is closed exactly by its client; and anything else leaves
    * it waiting.
    */
  lemma AckReceiverStep(s: State, e: Event, s': State, r: nat)
    requires Inv(s) && Enabled(s, e)
    requires s' == Next(s, e)
    requires r < |s.acks| && s.acks[r].Pending?
    ensures r < |s'.acks| && AckCellStep(s, e, r, s'.acks[r])
  {
    if e.StoreEvent? {
      AckReceiverAtStore(s, e, s', r);
    } else if e.AckEvent? {
      AckReceiverAtAck(s, e, s', r);
    } else if e.StoreAndSubscribeEvent? {
      AckReceiverAtStoreAndSubscribe(s, e, s', r);
    } else if e.CleanupEvent? {
      AckReceiverAtCleanup(s, e, s', r);
    } else if e.SubscribeAckEvent? || e.GetOrSubscribeEvent? {
      SubscriptionsLeaveCells(s, e, s');
    }
  }

  // ----- What a step does to the history ---------------------------------

  /** What one step adds to the history. */
  ghost predicate HistoryStep(s: State, e: Event, s': State, id: Id) {
    && (Accepts(s, e, id) ==>
          && s'.history.accepted == s.history.accepted + [Accepted(id, e.message, e.times.startedAt + e.ttl)]
          && s'.history.latest == s.history.latest[id := |s.history.accepted|]
          && s'.history.acked == s.history.acked)
    && (Acknowledges(s, e, id) ==>
          && id in s.history.latest && s.history.latest[id] !in s.history.acked
          && s'.history == s.history.(acked := s.history.acked + {s.history.latest[id]}))
    && (!Accepts(s, e, id) && !Acknowledges(s, e, id)
        && (e.StoreEvent? || e.StoreAndSubscribeEvent? || e.AckEvent? ==> e.id == id) ==>
          s'.history == s.history)
  }

  lemma HistoryAtStore(s: State, e: Event, s': State, id: Id)
    requires Enabled(s, e) && e.StoreEvent?
    requires s' == Next(s, e)
    ensures HistoryStep(s, e, s', id)
  {
    StoreHistory(s, e.id, e.message, e.ttl, e.times, e.victims);
    hide Store;
  }

  lemma StoreHistory(s: State, id: Id, message: Message, ttl: nat, t: StoreTimes, victims: set<Id>)
    ensures var (s', outcome) := Store(s, id, message, ttl, t, victims);
      s'.history == if outcome == Stored then Remember(s.history, id, message, t.startedAt + ttl) else s.history
  {
  }

  lemma HistoryAtAck(s: State, e: Event, s': State, id: Id)
    requires Inv(s) && Enabled(s, e) && e.AckEvent?
    requires s' == Next(s, e)
    ensures HistoryStep(s, e, s', id)
  {
  }

  lemma HistoryAtStoreAndSubscribe(s: State, e: Event, s': State, id: Id)
    requires Enabled(s, e) && e.StoreAndSubscribeEvent?
    requires s' == Next(s, e)
    ensures HistoryStep(s, e, s', id)
  {
    hide Next, Enabled, Store, EnsureWaiterCapacity, StateGrows;
    var (s1, room) := EnsureWaiterCapacity(s, e.id, e.before);
    var s2 := if room then Store(s1, e.id, e.message, e.ttl, e.times, e.victims).0 else s1;
    StoreAndSubscribeParts(s, e, s1, s2, s');
    if room {
      StoreHistory(s1, e.id, e.message, e.ttl, e.times, e.victims);
    }
  }

  /** Only an accepted store adds a message, and only a first effective ACK acknowledges one, the last of its ID. */
  lemma HistoryOfAStep(s: State, e: Event, s': State, id: Id)
    requires Inv(s) && Enabled(s, e)
    requires s' == Next(s, e)
    ensures HistoryStep(s, e, s', id)
  {
    if e.StoreEvent? {
      HistoryAtStore(s, e, s', id);
    } else if e.AckEvent? {
      HistoryAtAck(s, e, s', id);
    } else if e.StoreAndSubscribeEvent? {
      HistoryAtStoreAndSubscribe(s, e, s', id);
    } else if e.SubscribeAckEvent? || e.GetOrSubscribeEvent? {
      SubscriptionsLeaveCells(s, e, s');
    }
  }
}
