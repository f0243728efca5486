/** What readers of one ID can see of operations on other IDs and of cleanups. */
module Readers {
  import opened Types
  import opened Entries
  import opened Oneshots
  import opened WaitingListSpec
  import opened WaitingListInvariants
  import opened WaitingListPreservation
  import opened WaitingListSteps
  import opened Tickets

  /** What a reader of `id` sees at time `t`: its ACK status and its message. */
  datatype View = View(acked: Option<bool>, message: Option<Message>)

  ghost function ViewOf(entries: Table, id: Id, t: int): View {
    View(IsAcked(entries, id, t), Readable(entries, id, t))
  }

  /** The event is an operation on an ID other than `id`, or on no ID at all. */
  ghost predicate Elsewhere(e: Event, id: Id) {
    match e
    case CleanupEvent(_) => true
    case AckReceiverCloses(_) => true
    case MessageReceiverCloses(_) => true
    case ClockAdvances(_, _) => true
    case _ => e.id != id
  }

  /** Row of `id` before and after: the same, or one that nothing protects and is gone. */
  ghost predicate RowKept(before: Table, after: Table, id: Id, now: int) {
    || (id in before && id in after && after[id] == before[id])
    || (id !in before && id !in after)
    || (id in before && id !in after && (before[id].acked || Swept(before[id], now)))
  }

  lemma StoreKeepsOtherRows(s: State, j: Id, message: Message, ttl: nat, t: StoreTimes, victims: set<Id>, id: Id)
    requires |s.entries| <= s.max && id != j
    requires j !in s.entries ==> MemoryVictims(s.entries, s.max, t.sweptAt, victims)
    ensures RowKept(s.entries, Store(s, j, message, ttl, t, victims).0.entries, id, t.sweptAt)
  {
    InsertedRows(s.entries, s.max, j, Row(message, ttl, t), t.sweptAt, victims);
  }

  lemma StoreAndSubscribeKeepsOtherRows(s: State, e: Event, id: Id)
    requires Inv(s) && Enabled(s, e) && e.StoreAndSubscribeEvent? && id != e.id
    ensures RowKept(s.entries, Next(s, e).entries, id, e.times.sweptAt)
    ensures Next(s, e).now < e.times.sweptAt ==> Next(s, e).entries == s.entries
  {
    var (s1, room) := EnsureWaiterCapacity(s, e.id, e.before);
    CapacityShape(s, e.id, e.before, s1, room);
    if room {
      StoreKeepsOtherRows(s1, e.id, e.message, e.ttl, e.times, e.victims, id);
      var s2 := Store(s1, e.id, e.message, e.ttl, e.times, e.victims).0;
      StoreSetsClock(s1, e.id, e.message, e.ttl, e.times, e.victims);
      SubscribeAckGrows(s2, e.id, e.subscribedAt, e.after,
        SubscribeAck(s2, e.id, e.subscribedAt, e.after).0, SubscribeAck(s2, e.id, e.subscribedAt, e.after).1);
    }
    hide EnsureWaiterCapacity, Store, SubscribeAck;
  }

  lemma StoreEventKeepsOtherRows(s: State, e: Event, s': State, id: Id)
    requires Bounded(s) && Enabled(s, e) && e.StoreEvent? && id != e.id
    requires s' == Next(s, e)
    ensures RowKept(s.entries, s'.entries, id, s'.now)
  {
    StoreKeepsOtherRows(s, e.id, e.message, e.ttl, e.times, e.victims, id);
    StoreSetsClock(s, e.id, e.message, e.ttl, e.times, e.victims);
    hide Store;
  }

  lemma SubscriptionsLeaveRows(s: State, e: Event, s': State)
    requires Enabled(s, e) && (e.SubscribeAckEvent? || e.GetOrSubscribeEvent?)
    requires s' == Next(s, e)
    ensures s'.entries == s.entries
  {
    if e.SubscribeAckEvent? {
      SubscribeAckGrows(s, e.id, e.at, e.prune, s', SubscribeAck(s, e.id, e.at, e.prune).1);
    } else {
      GetOrSubscribeGrows(s, e.id, e.at, e.prune, s', GetOrSubscribe(s, e.id, e.at, e.prune).1);
    }
  }

  lemma OtherEventsKeepOtherRows(s: State, e: Event, s': State, id: Id)
    requires Enabled(s, e) && Elsewhere(e, id)
    requires e.AckEvent? || e.CleanupEvent? || e.AckReceiverCloses? || e.MessageReceiverCloses? || e.ClockAdvances?
    requires s' == Next(s, e)
    ensures RowKept(s.entries, s'.entries, id, s'.now)
  {
  }

  lemma NextKeepsOtherRows(s: State, e: Event, s': State, id: Id)
    requires Inv(s) && Enabled(s, e) && Elsewhere(e, id)
    requires s' == Next(s, e)
    ensures RowKept(s.entries, s'.entries, id, s'.now)
  {
    if e.StoreEvent? {
      StoreEventKeepsOtherRows(s, e, s', id);
    } else if e.StoreAndSubscribeEvent? {
      hide Next, Enabled;
      StoreAndSubscribeKeepsOtherRows(s, e, id);
    } else if e.SubscribeAckEvent? || e.GetOrSubscribeEvent? {
      hide Next, Enabled;
      SubscriptionsLeaveRows(s, e, s');
    } else {
      OtherEventsKeepOtherRows(s, e, s', id);
    }
  }

  /** A row that stays, or that only ever showed an ACK and is gone, looks the same or has become absent. */
  lemma KeptRowView(before: Table, after: Table, id: Id, now: int, t: int)
    requires RowKept(before, after, id, now) && now <= t
    requires id in before && before[id].acked ==> before[id].body.None?
    ensures ViewOf(after, id, t) == ViewOf(before, id, t)
      || (ViewOf(before, id, t) == View(Some(true), None) && ViewOf(after, id, t) == View(None, None))
  {
  }

  /**
    * Operations on other IDs do not change what readers of `id` see, now or at
    * any later reading, except that an acknowledged `id` may become absent. A
    * message never disappears and an ACK never turns back to pending.
    */
  lemma OtherIdsDoNotInterfere(s: State, e: Event, s': State, id: Id, t: int)
    requires Inv(s) && Enabled(s, e) && Elsewhere(e, id)
    requires s' == Next(s, e)
    requires s'.now <= t
    ensures ViewOf(s'.entries, id, t) == ViewOf(s.entries, id, t)
      || (ViewOf(s.entries, id, t) == View(Some(true), None) && ViewOf(s'.entries, id, t) == View(None, None))
  {
    hide Next, Enabled;
    NextKeepsOtherRows(s, e, s', id);
    KeptRowView(s.entries, s'.entries, id, s'.now, t);
  }

  lemma RejectedStoreWritesNothing(s: State, e: Event, s': State)
    requires Inv(s) && Enabled(s, e) && (e.StoreEvent? || e.StoreAndSubscribeEvent?)
    requires s' == Next(s, e) && !Accepts(s, e, e.id)
    ensures s'.entries == s.entries
  {
    if e.StoreEvent? {
      var outcome := Store(s, e.id, e.message, e.ttl, e.times, e.victims).1;
      var after := StoreShape(s, e.id, e.message, e.ttl, e.times, e.victims, s', outcome);
    } else {
      var (s1, room) := EnsureWaiterCapacity(s, e.id, e.before);
      CapacityShape(s, e.id, e.before, s1, room);
      if room {
        var (s2, outcome) := Store(s1, e.id, e.message, e.ttl, e.times, e.victims);
        var after := StoreShape(s1, e.id, e.message, e.ttl, e.times, e.victims, s2, outcome);
      }
    }
    hide Store, EnsureWaiterCapacity, SubscribeAck;
  }

  /** A row appears only by an accepted store of its ID. */
  lemma RowsAppearByStoreOnly(s: State, e: Event, s': State, id: Id)
    requires Inv(s) && Enabled(s, e)
    requires s' == Next(s, e) && !Accepts(s, e, id)
    ensures id in s'.entries ==> id in s.entries
  {
    hide Accepts;
    if Elsewhere(e, id) {
      hide Next, Enabled;
      NextKeepsOtherRows(s, e, s', id);
    } else if e.StoreEvent? || e.StoreAndSubscribeEvent? {
      hide Next, Enabled;
      RejectedStoreWritesNothing(s, e, s');
    } else if e.SubscribeAckEvent? || e.GetOrSubscribeEvent? {
      hide Next, Enabled;
      SubscriptionsLeaveRows(s, e, s');
    }
  }

  // ----- Cleanup ----------------------------------------------------------

  /** No reader can tell that a cleanup happened. */
  lemma CleanupIsInvisible(s: State, now: int, id: Id, t: int)
    requires now <= t
    ensures ViewOf(CleanupExpired(s, now).0.entries, id, t) == ViewOf(s.entries, id, t)
  {
  }

  lemma CleanupShape(s: State, now: int, s': State)
    requires s' == CleanupExpired(s, now).0
    ensures s'.entries == DeleteSwept(s.entries, now)
    ensures s'.acks == Sweep(s, now).acks && s'.messages == Sweep(s, now).messages
    ensures s'.ackTags == s.ackTags && s'.messageTags == s.messageTags
    ensures s'.waiters == Prune(Sweep(s, now).waiters, Sweep(s, now).acks, Sweep(s, now).messages)
  {
  }

  lemma SweptWaits(s: State, now: int, swept: State)
    requires swept == Sweep(s, now)
    ensures forall id, i: nat ::
      AckWaits(swept.waiters, id, i) <==> AckWaits(s.waiters, id, i) && id !in SweptIds(s.entries, now)
    ensures forall id, i: nat ::
      MessageWaits(swept.waiters, id, i) <==> MessageWaits(s.waiters, id, i) && id !in SweptIds(s.entries, now)
    ensures forall i: nat :: IsClosed(swept.acks, i) <==> IsClosed(s.acks, i)
    ensures forall i: nat :: IsClosed(swept.messages, i) <==> IsClosed(s.messages, i)
  {
  }

  /**
    * A cleanup is complete and goes no further: no expired row is left, no
    * sender of a client that is gone, no waiter of a deleted ID, every open
    * waiter of another ID is kept, and the result counts the rows deleted.
    */
  lemma CleanupIsComplete(s: State, now: int, s': State, deleted: nat)
    requires (s', deleted) == CleanupExpired(s, now)
    ensures SweptIds(s'.entries, now) == {} && deleted == |s.entries| - |s'.entries|
    ensures forall id, i: nat :: AckWaits(s'.waiters, id, i) <==>
      AckWaits(s.waiters, id, i) && id !in SweptIds(s.entries, now) && !IsClosed(s.acks, i)
    ensures forall id, i: nat :: MessageWaits(s'.waiters, id, i) <==>
      MessageWaits(s.waiters, id, i) && id !in SweptIds(s.entries, now) && !IsClosed(s.messages, i)
  {
    DeleteSweptFacts(s.entries, now);
    CleanupShape(s, now, s');
    var swept := Sweep(s, now);
    SweptWaits(s, now, swept);
    PruneDropsClosed(swept.waiters, swept.acks, swept.messages);
    hide CleanupExpired, Sweep, Prune, AckWaits, MessageWaits, IsClosed;
  }
}
