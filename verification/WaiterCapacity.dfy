/**
  * When a waiter is turned away, how often a full waiter map is scanned, and
  * what a rejected `store_and_subscribe_ack` leaves behind.
  */
module WaiterCapacity {
  import opened Types
  import opened Collections
  import opened Entries
  import opened Oneshots
  import opened WaitingListSpec
  import opened WaitingListInvariants
  import opened WaitingListPreservation
  import opened Runs

  // ----- Turning waiters away --------------------------------------------

  /** Some client is still connected and waiting for `id`. */
  ghost predicate HasOpenWaiter(s: State, id: Id) {
    exists i: nat ::
      || (AckWaits(s.waiters, id, i) && !IsClosed(s.acks, i))
      || (MessageWaits(s.waiters, id, i) && !IsClosed(s.messages, i))
  }

  lemma PruneKeepsOpenIds(s: State, id: Id)
    ensures id in Prune(s.waiters, s.acks, s.messages) <==> HasOpenWaiter(s, id)
  {
    var pruned := Prune(s.waiters, s.acks, s.messages);
    if id in s.waiters {
      RetainOpenMembers(s.waiters[id].acks, s.acks);
      RetainOpenMembers(s.waiters[id].messages, s.messages);
      if id in pruned {
        if pruned[id].acks != [] {
          assert pruned[id].acks[0] in pruned[id].acks;
          assert AckWaits(s.waiters, id, pruned[id].acks[0]);
        } else {
          assert pruned[id].messages[0] in pruned[id].messages;
          assert MessageWaits(s.waiters, id, pruned[id].messages[0]);
        }
      }
    }
  }

  /**
    * A new ID is turned away exactly when the map is full and pruning cannot
    * help: every one of the `max` IDs has a connected client, or the last full
    * prune was less than an interval ago.
    */
  lemma RejectionIsExact(s: State, id: Id, p: PruneTimes)
    requires Bounded(s)
    ensures !EnsureWaiterCapacity(s, id, p).1 <==>
      && id !in s.waiters && |s.waiters| == s.max
      && (!PruneDue(s, p) || forall j :: j in s.waiters ==> HasOpenWaiter(s, j))
  {
    var pruned := Prune(s.waiters, s.acks, s.messages);
    SubmapCardinality(pruned, s.waiters);
    forall j
      ensures j in pruned <==> HasOpenWaiter(s, j)
    {
      PruneKeepsOpenIds(s, j);
    }
    if forall j :: j in s.waiters ==> HasOpenWaiter(s, j) {
      assert pruned.Keys == s.waiters.Keys;
      assert |pruned| == |pruned.Keys| && |s.waiters| == |s.waiters.Keys|;
    }
  }

  /** A further consumer of an ID is turned away exactly when ten of them are connected and waiting. */
  lemma MessageLimitIsExact(s: State, id: Id)
    requires Inv(s)
    ensures AddMessageWaiter(s, id).1.Err? <==>
      && |WaitersOf(s.waiters, id).messages| == MAX_WAITERS_PER_ENTRY
      && forall i :: i in WaitersOf(s.waiters, id).messages ==> !IsClosed(s.messages, i)
  {
    ListsOf(s, id);
    RetainOpenMembers(WaitersOf(s.waiters, id).messages, s.messages);
    RetainOpenKeepsAll(WaitersOf(s.waiters, id).messages, s.messages);
  }

  lemma AckLimitIsExact(s: State, id: Id)
    requires Inv(s)
    ensures AddAckWaiter(s, id).1.Err? <==>
      && |WaitersOf(s.waiters, id).acks| == MAX_WAITERS_PER_ENTRY
      && forall i :: i in WaitersOf(s.waiters, id).acks ==> !IsClosed(s.acks, i)
  {
    ListsOf(s, id);
    RetainOpenMembers(WaitersOf(s.waiters, id).acks, s.acks);
    RetainOpenKeepsAll(WaitersOf(s.waiters, id).acks, s.acks);
  }

  // ----- Store and subscribe ---------------------------------------------

  /** The store of a message whose waiter room was checked leaves room for its producer. */
  lemma StoreLeavesRoom(s: State, id: Id, message: Message, ttl: nat, t: StoreTimes, victims: set<Id>, s': State)
    requires |s.waiters| <= s.max && HasRoom(s, id)
    requires (s', Stored) == Store(s, id, message, ttl, t, victims)
    ensures HasRoom(s', id) && id !in s'.waiters && s'.max == s.max
    ensures id in s'.entries && s'.entries[id] == Row(message, ttl, t)
    ensures id in s'.history.latest && s'.history.latest[id] == |s.history.accepted|
    ensures s'.ackTags == s.ackTags && |s'.acks| == |s.acks|
  {
    if id in s.waiters {
      RemoveKeysCardinality(s.waiters, {id});
    } else {
      assert s.waiters - {id} == s.waiters;
    }
  }

  /** Subscribing right after that can only fail because the message expired already. */
  lemma SubscribeAfterStore(s: State, id: Id, at: int, p: PruneTimes)
    requires HasRoom(s, id) && id !in s.waiters
    requires id in s.entries && !s.entries[id].acked && id in s.history.latest
    ensures var (s', r) := SubscribeAck(s, id, at, p);
      if at < s.entries[id].expiresAt then
        && r == Ok(|s.acks|) && s'.acks == s.acks + [Pending]
        && s'.ackTags == s.ackTags + [AckTag(id, s.history.latest[id])]
        && s'.waiters == s.waiters[id := Waiters([|s.acks|], [])]
        && s'.prunes == s.prunes && s'.lastPrune == s.lastPrune
      else r == Err(NotFound) && s'.prunes == s.prunes && s'.lastPrune == s.lastPrune
  {
    assert RetainOpen([], s.acks) + [|s.acks|] == [|s.acks|];
  }

  /** Whether the store inside rejects the message for lack of room. */
  ghost predicate NoStoreRoomFor(s: State, id: Id, now: int) {
    id !in s.entries && |UndeliveredIds(s.entries, now)| >= s.max
  }

  lemma RejectedByStore(s: State, id: Id, message: Message, ttl: nat, t: StoreTimes, victims: set<Id>)
    requires |s.entries| <= s.max
    requires id !in s.entries ==> MemoryVictims(s.entries, s.max, t.sweptAt, victims)
    ensures Store(s, id, message, ttl, t, victims).1 == StoreFull <==> NoStoreRoomFor(s, id, t.sweptAt)
    ensures Store(s, id, message, ttl, t, victims).1 == StoreFull ==>
      Store(s, id, message, ttl, t, victims).0 == s.(now := t.sweptAt)
  {
    InsertExact(s.entries, s.max, id, Row(message, ttl, t), t.sweptAt, victims);
  }

  /** `StoreThenSubscribe` with the readings of the event. */
  ghost function StoreThenSubscribeFor(s: State, e: Event): (State, Result<nat, StoreAndSubscribeError>)
    requires e.StoreAndSubscribeEvent?
  {
    StoreThenSubscribe(s, e.id, e.message, e.ttl, e.times, e.victims, e.subscribedAt, e.after)
  }

  /** With waiter room found, a full store and an expired message are the only ways to fail. */
  lemma StoreThenSubscribeIsExact(s1: State, e: Event, s': State, r: Result<nat, StoreAndSubscribeError>)
    requires e.StoreAndSubscribeEvent? && (s', r) == StoreThenSubscribeFor(s1, e)
    requires |s1.entries| <= s1.max && |s1.waiters| <= s1.max && HasRoom(s1, e.id)
    requires |s1.ackTags| == |s1.acks|
    requires e.id !in s1.entries ==> MemoryVictims(s1.entries, s1.max, e.times.sweptAt, e.victims)
    ensures NoStoreRoomFor(s1, e.id, e.times.sweptAt) ==> r == Err(NoStoreRoom) && s' == s1.(now := e.times.sweptAt)
    ensures !NoStoreRoomFor(s1, e.id, e.times.sweptAt) ==>
      if e.subscribedAt < e.times.startedAt + e.ttl then
        && r == Ok(|s1.acks|) && |s'.acks| == |s'.ackTags| == |s1.acks| + 1
        && s'.acks[|s1.acks|].Pending? && s'.ackTags[|s1.acks|] == AckTag(e.id, |s1.history.accepted|)
      else r == Err(ExpiredAtOnce)
    ensures s'.prunes == s1.prunes && s'.lastPrune == s1.lastPrune
  {
    RejectedByStore(s1, e.id, e.message, e.ttl, e.times, e.victims);
    StoreDoesNotPrune(s1, e.id, e.message, e.ttl, e.times, e.victims);
    var (s2, outcome) := Store(s1, e.id, e.message, e.ttl, e.times, e.victims);
    if outcome == Stored {
      StoreLeavesRoom(s1, e.id, e.message, e.ttl, e.times, e.victims, s2);
      SubscribeAfterStore(s2, e.id, e.subscribedAt, e.after);
    }
    hide Store, SubscribeAck, HasRoom, NoStoreRoomFor, MemoryVictims;
  }

  lemma StoreDoesNotPrune(s: State, id: Id, message: Message, ttl: nat, t: StoreTimes, victims: set<Id>)
    ensures var s' := Store(s, id, message, ttl, t, victims).0;
      s'.prunes == s.prunes && s'.lastPrune == s.lastPrune && s'.mono == s.mono
  {
  }

  /**
    * Every outcome of `store_and_subscribe_ack` happens exactly under its own
    * condition; after the store neither limit can fail any more, so the one
    * error left is a message that expired on the spot.
    */
  lemma StoreAndSubscribeIsExact(s: State, e: Event, s': State, r: Result<nat, StoreAndSubscribeError>)
    requires Inv(s) && Enabled(s, e) && e.StoreAndSubscribeEvent?
    requires (s', r) ==
      StoreAndSubscribeAck(s, e.id, e.message, e.ttl, e.before, e.times, e.victims, e.subscribedAt, e.after)
    ensures var room := EnsureWaiterCapacity(s, e.id, e.before).1;
      var full := NoStoreRoomFor(s, e.id, e.times.sweptAt);
      var inTime := e.subscribedAt < e.times.startedAt + e.ttl;
      && (r == Err(NoWaiterRoom) <==> !room)
      && (r == Err(NoStoreRoom) <==> room && full)
      && (r == Err(ExpiredAtOnce) <==> room && !full && !inTime)
      && (r.Ok? <==> room && !full && inTime)
    ensures r.Ok? ==>
      && r.value == |s.acks| < |s'.acks| && s'.acks[r.value].Pending?
      && r.value < |s'.ackTags| && s'.ackTags[r.value] == AckTag(e.id, |s.history.accepted|)
  {
    var s1 := CheckedState(s, e);
    hide Store, SubscribeAck, StoreThenSubscribe, EnsureWaiterCapacity, Inv;
    if EnsureWaiterCapacity(s, e.id, e.before).1 {
      StoreThenSubscribeIsExact(s1, e, s', r);
    }
  }

  /** The state a store that also subscribes works on. */
  lemma CheckedState(s: State, e: Event) returns (s1: State)
    requires Inv(s) && e.StoreAndSubscribeEvent?
    ensures s1 == EnsureWaiterCapacity(s, e.id, e.before).0
    ensures EnsureWaiterCapacity(s, e.id, e.before).1 ==> HasRoom(s1, e.id)
    ensures |s1.entries| <= s1.max && |s1.waiters| <= s1.max && |s1.ackTags| == |s1.acks|
    ensures s1.max == s.max && s1.entries == s.entries && s1.history == s.history && s1.now == s.now
    ensures s1.acks == s.acks && s1.messages == s.messages
    ensures s1.ackTags == s.ackTags && s1.messageTags == s.messageTags
    ensures OnlyClosedGone(s.waiters, s1.waiters, s.acks, s.messages)
  {
    s1 := EnsureWaiterCapacity(s, e.id, e.before).0;
    PruneDropsClosed(s.waiters, s.acks, s.messages);
    PruneStaysWellFormed(s.waiters, s.acks, s.messages);
  }

  /**
    * All or nothing: a producer turned away leaves no message, loses no row,
    * is not registered, and costs nobody a connection; only senders of clients
    * that are gone may have been dropped.
    */
  lemma RejectedProducerLeavesNoTrace(s: State, e: Event, s': State, r: Result<nat, StoreAndSubscribeError>)
    requires Inv(s) && Enabled(s, e) && e.StoreAndSubscribeEvent?
    requires (s', r) ==
      StoreAndSubscribeAck(s, e.id, e.message, e.ttl, e.before, e.times, e.victims, e.subscribedAt, e.after)
    requires r == Err(NoWaiterRoom) || r == Err(NoStoreRoom)
    ensures s'.entries == s.entries && s'.history == s.history
    ensures s'.acks == s.acks && s'.messages == s.messages
    ensures s'.ackTags == s.ackTags && s'.messageTags == s.messageTags
    ensures OnlyClosedGone(s.waiters, s'.waiters, s.acks, s.messages)
  {
    var s1 := CheckedState(s, e);
    hide Store, SubscribeAck, StoreThenSubscribe, EnsureWaiterCapacity, Inv, OnlyClosedGone;
    if EnsureWaiterCapacity(s, e.id, e.before).1 {
      StoreThenSubscribeIsExact(s1, e, s', r);
    }
  }

  // ----- How often the full map is scanned -------------------------------

  /** At most one full scan, and not before the interval since the last one is over. */
  ghost predicate PrunesInTurn(s: State, s': State) {
    && s.mono <= s'.mono
    && ((s'.prunes == s.prunes && s'.lastPrune == s.lastPrune)
        || (s'.prunes == s.prunes + 1 && s'.lastPrune.Some? && s.mono <= s'.lastPrune.value <= s'.mono
            && (s.lastPrune.Some? ==> s'.lastPrune.value - s.lastPrune.value >= FULL_MAP_PRUNE_INTERVAL)))
  }

  lemma CapacityPrunesInTurn(s: State, id: Id, p: PruneTimes)
    requires PruneInOrder(s, p)
    ensures PrunesInTurn(s, EnsureWaiterCapacity(s, id, p).0)
  {
  }

  lemma SubscribeAckPrunesInTurn(s: State, id: Id, now: int, p: PruneTimes)
    requires PruneInOrder(s, p)
    ensures PrunesInTurn(s, SubscribeAck(s, id, now, p).0)
  {
    CapacityPrunesInTurn(s.(now := now), id, p);
  }

  lemma GetOrSubscribePrunesInTurn(s: State, id: Id, now: int, p: PruneTimes)
    requires PruneInOrder(s, p)
    ensures PrunesInTurn(s, GetOrSubscribe(s, id, now, p).0)
  {
    CapacityPrunesInTurn(s.(now := now), id, p);
  }

  lemma StoreThenSubscribeClock(s1: State, e: Event)
    requires e.StoreAndSubscribeEvent? && s1.mono <= e.after.stampedAt
    ensures s1.mono <= StoreThenSubscribeFor(s1, e).0.mono
  {
    var (s2, _) := Store(s1, e.id, e.message, e.ttl, e.times, e.victims);
    StoreDoesNotPrune(s1, e.id, e.message, e.ttl, e.times, e.victims);
    SubscribeAckClock(s2, e.id, e.subscribedAt, e.after);
    hide Store, SubscribeAck;
  }

  lemma SubscribeAckClock(s: State, id: Id, now: int, p: PruneTimes)
    requires s.mono <= p.stampedAt
    ensures s.mono <= SubscribeAck(s, id, now, p).0.mono
  {
  }

  lemma CapacityClock(s: State, id: Id, p: PruneTimes)
    ensures EnsureWaiterCapacity(s, id, p).0.mono == p.stampedAt
  {
  }

  lemma StoreAndSubscribePrunesInTurn(s: State, e: Event, s': State)
    requires Inv(s) && Enabled(s, e) && e.StoreAndSubscribeEvent?
    requires s' == Next(s, e)
    ensures PrunesInTurn(s, s')
  {
    hide Store, SubscribeAck, StoreThenSubscribe, EnsureWaiterCapacity, Inv, OnlyClosedGone, MemoryVictims, HasRoom;
    CapacityPrunesInTurn(s, e.id, e.before);
    CapacityClock(s, e.id, e.before);
    var s1 := CheckedState(s, e);
    if EnsureWaiterCapacity(s, e.id, e.before).1 {
      StoreThenSubscribeIsExact(s1, e, s', StoreThenSubscribeFor(s1, e).1);
      StoreThenSubscribeClock(s1, e);
    }
  }

  lemma NextPrunesInTurn(s: State, e: Event, s': State)
    requires Inv(s) && Enabled(s, e)
    requires s' == Next(s, e)
    ensures PrunesInTurn(s, s')
  {
    if e.StoreEvent? {
      StoreDoesNotPrune(s, e.id, e.message, e.ttl, e.times, e.victims);
    } else if e.StoreAndSubscribeEvent? {
      StoreAndSubscribePrunesInTurn(s, e, s');
    } else if e.SubscribeAckEvent? {
      SubscribeAckPrunesInTurn(s, e.id, e.at, e.prune);
    } else if e.GetOrSubscribeEvent? {
      GetOrSubscribePrunesInTurn(s, e.id, e.at, e.prune);
    }
  }

  lemma {:induction false} PrunesAreSpaced(run: Run, j: nat, n: nat)
    requires FromStart(run) && j <= n < |run.states|
    ensures run.states[j].mono <= run.states[n].mono
    ensures run.states[n].lastPrune.Some? ==> run.states[n].lastPrune.value <= run.states[n].mono
    ensures run.states[j].prunes <= run.states[n].prunes
    ensures run.states[j].prunes < run.states[n].prunes ==>
      && run.states[n].lastPrune.Some?
      && run.states[j].mono + FULL_MAP_PRUNE_INTERVAL * (run.states[n].prunes - run.states[j].prunes - 1)
           <= run.states[n].lastPrune.value
    decreases n
  {
    hide Next, Enabled, Inv;
    if j < n {
      PrunesAreSpaced(run, j, n - 1);
      ReachableStatesAreSafe(run, n - 1);
      NextPrunesInTurn(run.states[n - 1], run.events[n - 1], run.states[n - 1 + 1]);
    } else if n > 0 {
      PrunesAreSpaced(run, n - 1, n - 1);
      ReachableStatesAreSafe(run, n - 1);
      NextPrunesInTurn(run.states[n - 1], run.events[n - 1], run.states[n - 1 + 1]);
    }
  }

  /** Between a full scan and the `m`-th one after it there are at least `m` intervals. */
  lemma {:induction false} ScansAreSpaced(run: Run, j: nat, n: nat)
    requires FromStart(run) && j <= n < |run.states|
    requires run.states[j].lastPrune.Some?
    ensures run.states[n].lastPrune.Some?
    ensures run.states[n].lastPrune.value - run.states[j].lastPrune.value
      >= FULL_MAP_PRUNE_INTERVAL * (run.states[n].prunes - run.states[j].prunes)
    decreases n
  {
    hide Next, Enabled, Inv;
    if j < n {
      ScansAreSpaced(run, j, n - 1);
      ReachableStatesAreSafe(run, n - 1);
      NextPrunesInTurn(run.states[n - 1], run.events[n - 1], run.states[n - 1 + 1]);
    }
  }

  /** Over any stretch of a run that takes `T`, the full waiter map is scanned at most `1 + T / interval` times. */
  lemma FullScansAreRare(run: Run, j: nat, n: nat)
    requires FromStart(run) && j <= n < |run.states|
    ensures run.states[n].prunes - run.states[j].prunes
      <= 1 + (run.states[n].mono - run.states[j].mono) / FULL_MAP_PRUNE_INTERVAL
  {
    hide Next, Enabled;
    PrunesAreSpaced(run, j, n);
  }
}
