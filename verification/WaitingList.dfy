/**
  * The waiting list as the relay runs it: an object over the repository whose
  * methods update the waiter map and send on channels in loops. Every method is
  * proved to do exactly what its specification function says and to keep the
  * invariant. Clock readings are parameters.
  */
module WaitingList {
  import opened Types
  import opened Collections
  import opened Entries
  import opened Oneshots
  import opened WaitingListInvariants
  import opened WaitingListPreservation
  import opened WaitingListSteps
  import opened StorageMemory
  import opened Spec = WaitingListSpec

  /** The cells of all channels the runtime has handed out, shared by senders and receivers. */
  class Channels {
    var acks: Cells<()>
    var messages: Cells<Message>

    constructor ()
      ensures acks == [] && messages == []
    {
      acks, messages := [], [];
    }
  }

  /** Sends `value` on each sender in turn; a closed receiver is skipped. */
  method SendEach<T>(senders: seq<nat>, cells: Cells<T>, value: T) returns (sent: Cells<T>)
    requires forall i :: i in senders ==> i < |cells|
    ensures sent == SendAll(cells, senders, value)
  {
    sent := cells;
    var k := 0;
    while k < |senders|
      invariant 0 <= k <= |senders|
      invariant sent == SendAll(cells, senders[..k], value)
    {
      assert senders[k] in senders && senders[..k + 1] == senders[..k] + [senders[k]];
      sent := sent[senders[k] := Send(sent[senders[k]], value)];
      k := k + 1;
    }
    assert senders[..k] == senders;
  }

  /** Drops each sender unsent. */
  method DropEach<T>(senders: seq<nat>, cells: Cells<T>) returns (dropped: Cells<T>)
    requires forall i :: i in senders ==> i < |cells|
    ensures dropped == DropAll(cells, Elements(senders))
  {
    dropped := cells;
    var k := 0;
    while k < |senders|
      invariant 0 <= k <= |senders|
      invariant dropped == DropAll(cells, Elements(senders[..k]))
    {
      assert senders[k] in senders && senders[..k + 1] == senders[..k] + [senders[k]];
      dropped := dropped[senders[k] := DropSender(dropped[senders[k]])];
      k := k + 1;
    }
    assert senders[..k] == senders;
  }

  /** `Vec::retain(|sender| !sender.is_closed())`. */
  method RetainEach<T>(senders: seq<nat>, cells: Cells<T>) returns (kept: seq<nat>)
    ensures kept == RetainOpen(senders, cells)
  {
    kept := [];
    var k := 0;
    while k < |senders|
      invariant 0 <= k <= |senders|
      invariant kept == RetainOpen(senders[..k], cells)
    {
      assert senders[..k + 1][..k] == senders[..k];
      if !IsClosed(cells, senders[k]) {
        kept := kept + [senders[k]];
      }
      k := k + 1;
    }
    assert senders[..k] == senders;
  }

  class WaitingList {
    const repository: EntryRepository
    const channels: Channels
    const maxWaitingIds: nat
    var waiters: WaiterMap
    var lastFullMapPrune: Option<int>

    ghost var now: int
    ghost var mono: int
    ghost var history: History
    ghost var ackTags: seq<AckTag>
    ghost var messageTags: seq<MessageTag>
    ghost var prunes: nat

    /** The state the specification functions speak about. */
    ghost function Abstract(): State
      reads this, repository, channels
    {
      State(maxWaitingIds, repository.entries, waiters, lastFullMapPrune, channels.acks, channels.messages,
            now, mono, history, ackTags, messageTags, prunes)
    }

    ghost predicate Valid()
      reads this, repository, channels
    {
      repository.maxEntries == maxWaitingIds && Inv(Abstract())
    }

    /** Every registered sender has a cell. */
    ghost predicate SendersExist()
      reads this, channels
    {
      && repository.maxEntries == maxWaitingIds
      && (forall id, i :: id in waiters && i in waiters[id].acks ==> i < |channels.acks|)
      && (forall id, i :: id in waiters && i in waiters[id].messages ==> i < |channels.messages|)
    }

    lemma ValidSenders()
      requires Valid()
      ensures SendersExist()
    {
      forall id | id in waiters
        ensures forall i :: i in waiters[id].acks ==> i < |channels.acks|
        ensures forall i :: i in waiters[id].messages ==> i < |channels.messages|
      {
        ListsOf(Abstract(), id);
      }
    }

    /** A waiting list over an empty repository. */
    constructor (repository: EntryRepository, ghost now: int, ghost mono: int)
      requires repository.entries == map[]
      ensures Valid() && this.repository == repository && fresh(channels)
      ensures Abstract() == Initial(repository.maxEntries, now, mono)
    {
      this.repository := repository;
      channels := new Channels();
      maxWaitingIds := repository.maxEntries;
      waiters := map[];
      lastFullMapPrune := None;
      this.now, this.mono := now, mono;
      history := History([], map[], {});
      ackTags, messageTags, prunes := [], [], 0;
      new;
      InitialIsRestarted(repository.maxEntries, now, mono);
      RestartedInv(Abstract());
    }

    /** Stores a message, immediately notifying waiting consumers unless it is rejected. */
    method Store(id: Id, message: Message, ttl: nat, t: StoreTimes)
      returns (outcome: InsertOutcome, ghost victims: set<Id>)
      requires Valid() && StoreInOrder(Abstract(), t)
      modifies this, repository, channels
      ensures Valid()
      ensures id !in old(repository.entries) ==>
        MemoryVictims(old(repository.entries), maxWaitingIds, t.sweptAt, victims)
      ensures (Abstract(), outcome) == Spec.Store(old(Abstract()), id, message, ttl, t, victims)
    {
      hide Inv, Entries.Insert, MemoryVictims, Spec.NotifyMessageWaiters;
      ValidSenders();
      var expiresAt := t.startedAt + ttl;
      outcome, victims := repository.Insert(id, message.body, message.contentType, expiresAt, t.createdAt, t.sweptAt);
      now := t.sweptAt;
      if outcome != StoreFull {
        history := Remember(history, id, message, expiresAt);
        NotifyMessageWaiters(id, message);
      }
      StoreKeepsInv(old(Abstract()), id, message, ttl, t, victims, Abstract(), outcome);
    }

    method NotifyMessageWaiters(id: Id, message: Message)
      requires SendersExist()
      modifies this`waiters, channels
      ensures Abstract() == Spec.NotifyMessageWaiters(old(Abstract()), id, message)
    {
      if id in waiters {
        var w := waiters[id];
        channels.acks := DropEach(w.acks, channels.acks);
        channels.messages := SendEach(w.messages, channels.messages, message);
        w := Waiters([], []);
        waiters := waiters[id := w];
        if w.IsEmpty() {
          waiters := waiters - {id};
        }
      } else {
        assert waiters - {id} == waiters;
      }
    }

    /** Marks the message acknowledged and notifies its ACK waiters; false if missing or expired. */
    method Ack(id: Id, at: int) returns (found: bool)
      requires Valid() && now <= at
      modifies this, repository, channels
      ensures Valid()
      ensures (Abstract(), found) == Spec.Ack(old(Abstract()), id, at)
    {
      ValidSenders();
      now := at;
      var entry := repository.Get(id);
      if entry.None? || at >= entry.value.expiresAt {
        PassTimeKeepsInv(old(Abstract()), Abstract());
        return false;
      }
      if entry.value.acked {
        PassTimeKeepsInv(old(Abstract()), Abstract());
        return true;
      }
      found := repository.Ack(id);
      history := history.(acked := history.acked + {history.latest[id]});
      NotifyAckWaiters(id);
      AckKeepsInv(old(Abstract()), id, at, Abstract(), true);
    }

    method NotifyAckWaiters(id: Id)
      requires SendersExist()
      requires id in waiters ==> !waiters[id].IsEmpty()
      modifies this`waiters, channels
      ensures Abstract() == Spec.NotifyAckWaiters(old(Abstract()), id)
    {
      if id in waiters {
        var w := waiters[id];
        channels.acks := SendEach(w.acks, channels.acks, ());
        w := Waiters([], w.messages);
        waiters := waiters[id := w];
        if w.IsEmpty() {
          waiters := waiters - {id};
        }
      } else {
        assert waiters - {id} == waiters;
      }
    }

    /** Whether the message was acknowledged; `None` if missing or expired. */
    method IsAcked(id: Id, at: int) returns (acked: Option<bool>)
      ensures acked == Spec.IsAcked(repository.entries, id, at)
    {
      var entry := repository.Get(id);
      if entry.None? || at >= entry.value.expiresAt {
        return None;
      }
      return Some(entry.value.acked);
    }

    /** Checks that a waiter can be added for `id`, pruning a full map at most once per interval. */
    method EnsureWaiterCapacity(id: Id, p: PruneTimes) returns (room: bool)
      requires Valid()
      modifies this
      ensures Valid()
      ensures (Abstract(), room) == Spec.EnsureWaiterCapacity(old(Abstract()), id, p)
    {
      mono := p.stampedAt;
      if id in waiters || |waiters| < maxWaitingIds {
        room := true;
      } else {
        var pruneDue := lastFullMapPrune.None? || p.checkedAt - lastFullMapPrune.value >= FULL_MAP_PRUNE_INTERVAL;
        if pruneDue {
          RemoveClosedWaiters();
          lastFullMapPrune := Some(p.stampedAt);
          prunes := prunes + 1;
        }
        room := |waiters| < maxWaitingIds;
      }
      CapacityKeepsInv(old(Abstract()), id, p, Abstract(), room);
    }

    /** `HashMap::retain`: drops closed senders, and IDs left without any. */
    method RemoveClosedWaiters()
      modifies this`waiters
      ensures waiters == Prune(old(waiters), channels.acks, channels.messages)
    {
      var unseen := waiters.Keys;
      while unseen != {}
        invariant forall j :: j in waiters ==> j in old(waiters)
        invariant forall j :: j in unseen ==> j in waiters && waiters[j] == old(waiters)[j]
        invariant forall j :: j in old(waiters) && j !in unseen ==>
          var w := Spec.Retain(old(waiters)[j], channels.acks, channels.messages);
          if w.IsEmpty() then j !in waiters else j in waiters && waiters[j] == w
        decreases unseen
      {
        var id :| id in unseen;
        var acks := RetainEach(waiters[id].acks, channels.acks);
        var messages := RetainEach(waiters[id].messages, channels.messages);
        var w := Waiters(acks, messages);
        if w.IsEmpty() {
          waiters := waiters - {id};
        } else {
          waiters := waiters[id := w];
        }
        unseen := unseen - {id};
      }
    }

    /** Makes sure `id` has a slot in the waiter map, if there is room for it. */
    method WaitersFor(id: Id, p: PruneTimes) returns (room: bool)
      requires Valid()
      modifies this
      ensures var (s, ok) := Spec.EnsureWaiterCapacity(old(Abstract()), id, p);
        room == ok && Inv(s) && Abstract() == if ok then s.(waiters := s.waiters[id := WaitersOf(s.waiters, id)]) else s
    {
      hide Inv, Spec.EnsureWaiterCapacity;
      room := EnsureWaiterCapacity(id, p);
      if room && id !in waiters {
        waiters := waiters[id := Waiters([], [])];
      } else if room {
        assert waiters[id := waiters[id]] == waiters;
      }
    }

    /** Subscribes to be told when the message now stored for `id` is acknowledged. */
    method SubscribeAck(id: Id, at: int, p: PruneTimes) returns (r: Result<nat, SubscribeError>)
      requires Valid() && now <= at
      modifies this, channels
      ensures Valid()
      ensures (Abstract(), r) == Spec.SubscribeAck(old(Abstract()), id, at, p)
    {
      now := at;
      PassTimeKeepsInv(old(Abstract()), Abstract());
      var entry := repository.Get(id);
      if entry.None? || at >= entry.value.expiresAt {
        return Err(NotFound);
      }
      if entry.value.acked {
        r := Ok(|channels.acks|);
        channels.acks := channels.acks + [Sent(())];
        ackTags := ackTags + [AckTag(id, history.latest[id])];
        SubscribeAckKeepsInv(old(Abstract()), id, at, p, Abstract(), r);
        return;
      }
      ghost var s1 := Abstract();
      hide Spec.EnsureWaiterCapacity, Spec.AddAckWaiter;
      ghost var (s2, ok) := Spec.EnsureWaiterCapacity(s1, id, p);
      CapacityShape(s1, id, p, s2, ok);
      var room := WaitersFor(id, p);
      if room {
        SlotMakesNoDifference(s2, id);
        r := AddAckWaiter(id);
      } else {
        r := Err(WaiterLimitReached);
      }
      SubscribeAckKeepsInv(old(Abstract()), id, at, p, Abstract(), r);
    }

    /** Registers a new ACK sender after dropping closed ones, up to the limit. */
    method AddAckWaiter(id: Id) returns (r: Result<nat, SubscribeError>)
      requires id in waiters && id in history.latest
      modifies this`waiters, this`ackTags, channels`acks
      ensures (Abstract(), r) == Spec.AddAckWaiter(old(Abstract()), id)
    {
      var kept := RetainEach(waiters[id].acks, channels.acks);
      waiters := waiters[id := waiters[id].(acks := kept)];
      if |kept| >= MAX_WAITERS_PER_ENTRY {
        return Err(WaiterLimitReached);
      }
      var sender := |channels.acks|;
      channels.acks := channels.acks + [Pending];
      ackTags := ackTags + [AckTag(id, history.latest[id])];
      waiters := waiters[id := waiters[id].(acks := kept + [sender])];
      assert waiters == old(waiters)[id := old(waiters)[id].(acks := kept + [sender])];
      r := Ok(sender);
    }

    method AddMessageWaiter(id: Id) returns (r: Result<Fetch, SubscribeError>)
      requires id in waiters
      modifies this`waiters, this`messageTags, channels`messages
      ensures (Abstract(), r) == Spec.AddMessageWaiter(old(Abstract()), id)
    {
      var kept := RetainEach(waiters[id].messages, channels.messages);
      waiters := waiters[id := waiters[id].(messages := kept)];
      if |kept| >= MAX_WAITERS_PER_ENTRY {
        return Err(WaiterLimitReached);
      }
      var sender := |channels.messages|;
      channels.messages := channels.messages + [Pending];
      messageTags := messageTags + [MessageTag(id, |history.accepted|)];
      waiters := waiters[id := waiters[id].(messages := kept + [sender])];
      assert waiters == old(waiters)[id := old(waiters)[id].(messages := kept + [sender])];
      r := Ok(Waiting(sender));
    }

    /** Stores a message and subscribes its producer, checking for waiter room before storing. */
    method StoreAndSubscribeAck(id: Id, message: Message, ttl: nat,
                                p: PruneTimes, t: StoreTimes, subscribedAt: int, p': PruneTimes)
      returns (r: Result<nat, StoreAndSubscribeError>, ghost victims: set<Id>)
      requires Valid() && PruneInOrder(Abstract(), p) && StoreInOrder(Abstract(), t) && t.sweptAt <= subscribedAt
      modifies this, repository, channels
      ensures Valid()
      ensures (Abstract(), r) ==
        Spec.StoreAndSubscribeAck(old(Abstract()), id, message, ttl, p, t, victims, subscribedAt, p')
      ensures id !in old(repository.entries) ==>
        MemoryVictims(old(repository.entries), maxWaitingIds, t.sweptAt, victims)
    {
      hide Inv, Spec.EnsureWaiterCapacity, Spec.Store, Spec.SubscribeAck, Spec.StoreAndSubscribeAck;
      victims := VictimsOf(repository.entries, maxWaitingIds, t.sweptAt, 1);
      ghost var s0 := Abstract();
      var room := EnsureWaiterCapacity(id, p);
      ghost var s1 := Abstract();
      StoreAndSubscribeInParts(s0, id, message, ttl, p, t, subscribedAt, p');
      if !room {
        return Err(NoWaiterRoom), victims;
      }
      CapacityShape(s0, id, p, s1, true);
      var outcome;
      outcome, victims := Store(id, message, ttl, t);
      ghost var s2 := Abstract();
      if outcome == StoreFull {
        return Err(NoStoreRoom), victims;
      }
      StoreSetsClock(s1, id, message, ttl, t, victims);
      var subscribed := SubscribeAck(id, subscribedAt, p');
      r := AsProducer(subscribed);
    }

    /** Checks for a message and subscribes if there is none, in one critical section. */
    method GetOrSubscribe(id: Id, at: int, p: PruneTimes) returns (r: Result<Fetch, SubscribeError>)
      requires Valid() && now <= at
      modifies this, channels
      ensures Valid()
      ensures (Abstract(), r) == Spec.GetOrSubscribe(old(Abstract()), id, at, p)
    {
      now := at;
      PassTimeKeepsInv(old(Abstract()), Abstract());
      var entry := repository.Get(id);
      if entry.Some? {
        if at < entry.value.expiresAt {
          if entry.value.body.Some? {
            return Ok(Delivered(Message(entry.value.body.value, entry.value.contentType)));
          }
        }
      }
      ghost var s1 := Abstract();
      hide Spec.EnsureWaiterCapacity, Spec.AddMessageWaiter;
      ghost var (s2, ok) := Spec.EnsureWaiterCapacity(s1, id, p);
      CapacityShape(s1, id, p, s2, ok);
      var room := WaitersFor(id, p);
      if room {
        SlotMakesNoDifference(s2, id);
        r := AddMessageWaiter(id);
      } else {
        r := Err(WaiterLimitReached);
      }
      GetOrSubscribeKeepsInv(old(Abstract()), id, at, p, Abstract(), r);
    }

    /** Removes expired rows and the waiters that can no longer be served; returns the number of rows. */
    method CleanupExpired(at: int) returns (deleted: nat)
      requires Valid() && now <= at
      modifies this, repository, channels
      ensures Valid()
      ensures (Abstract(), deleted) == Spec.CleanupExpired(old(Abstract()), at)
    {
      hide Inv, RemoveWaiters, Prune;
      ValidSenders();
      var expiredIds := repository.CleanupExpired(at);
      now := at;
      DropWaitersOf(expiredIds);
      RemoveClosedWaiters();
      deleted := |expiredIds|;
      CleanupKeepsInv(old(Abstract()), at, Abstract());
    }

    /** Drops the waiters of each deleted ID in turn. */
    method DropWaitersOf(expiredIds: seq<Id>)
      requires SendersExist()
      modifies this`waiters, channels
      ensures SendersExist()
      ensures Abstract() == RemoveWaiters(old(Abstract()), Elements(expiredIds))
    {
      hide RemoveWaiters;
      var k := 0;
      RemovedNone(Abstract());
      assert expiredIds[..0] == [];
      ghost var start := Abstract();
      while k < |expiredIds|
        invariant 0 <= k <= |expiredIds|
        invariant SendersExist()
        invariant Abstract() == RemoveWaiters(start, Elements(expiredIds[..k]))
      {
        assert expiredIds[..k + 1] == expiredIds[..k] + [expiredIds[k]];
        RemoveWaitersOf(expiredIds[k]);
        RemovedOneMore(start, Elements(expiredIds[..k]), expiredIds[k]);
        assert Elements(expiredIds[..k + 1]) == Elements(expiredIds[..k]) + {expiredIds[k]};
        k := k + 1;
      }
      assert expiredIds[..k] == expiredIds;
    }

    /** `HashMap::remove`: drops all senders of `id`. */
    method RemoveWaitersOf(id: Id)
      requires SendersExist()
      modifies this`waiters, channels
      ensures SendersExist()
      ensures Abstract() == RemoveWaiters(old(Abstract()), {id})
    {
      if id in waiters {
        var w := waiters[id];
        channels.acks := DropEach(w.acks, channels.acks);
        channels.messages := DropEach(w.messages, channels.messages);
        waiters := waiters - {id};
        assert AckSendersOf(old(waiters), {id}) == Elements(w.acks);
        assert MessageSendersOf(old(waiters), {id}) == Elements(w.messages);
      } else {
        assert waiters - {id} == waiters;
        assert AckSendersOf(waiters, {id}) == {} && MessageSendersOf(waiters, {id}) == {};
      }
    }

    /** The receiver of an ACK goes away: its client disconnected or timed out. */
    method AckReceiverCloses(receiver: nat)
      requires Valid() && receiver < |channels.acks|
      modifies channels
      ensures Valid()
      ensures Abstract() == Next(old(Abstract()), Event.AckReceiverCloses(receiver))
    {
      channels.acks := channels.acks[receiver := CloseReceiver(channels.acks[receiver])];
      AckReceiverClosesKeepsInv(old(Abstract()), receiver, Abstract());
    }

    method MessageReceiverCloses(receiver: nat)
      requires Valid() && receiver < |channels.messages|
      modifies channels
      ensures Valid()
      ensures Abstract() == Next(old(Abstract()), Event.MessageReceiverCloses(receiver))
    {
      channels.messages := channels.messages[receiver := CloseReceiver(channels.messages[receiver])];
      MessageReceiverClosesKeepsInv(old(Abstract()), receiver, Abstract());
    }
  }

  /** An empty slot put into the map first does not change what adding a waiter does. */
  lemma SlotMakesNoDifference(s: State, id: Id)
    ensures var slotted := s.(waiters := s.waiters[id := WaitersOf(s.waiters, id)]);
      && Spec.AddAckWaiter(slotted, id) == Spec.AddAckWaiter(s, id)
      && Spec.AddMessageWaiter(slotted, id) == Spec.AddMessageWaiter(s, id)
  {
    var w := WaitersOf(s.waiters, id);
    forall w' {:trigger s.waiters[id := w']}
      ensures s.waiters[id := w][id := w'] == s.waiters[id := w']
    {
    }
  }

  lemma SendersOfOneMore(waiters: WaiterMap, ids: set<Id>, id: Id)
    ensures AckSendersOf(waiters, ids + {id}) == AckSendersOf(waiters, ids) + AckSendersOf(waiters - ids, {id})
    ensures MessageSendersOf(waiters, ids + {id}) ==
      MessageSendersOf(waiters, ids) + MessageSendersOf(waiters - ids, {id})
  {
    forall i: nat, j | j in waiters && j in ids + {id} && i in waiters[j].acks
      ensures i in AckSendersOf(waiters, ids) + AckSendersOf(waiters - ids, {id})
    {
      if j !in ids {
        assert j in waiters - ids && j in {id} && i in (waiters - ids)[j].acks;
      }
    }
    forall i: nat, j | j in waiters && j in ids + {id} && i in waiters[j].messages
      ensures i in MessageSendersOf(waiters, ids) + MessageSendersOf(waiters - ids, {id})
    {
      if j !in ids {
        assert j in waiters - ids && j in {id} && i in (waiters - ids)[j].messages;
      }
    }
  }

  lemma DropInTurn<T>(cells: Cells<T>, a: set<nat>, b: set<nat>)
    ensures DropAll(DropAll(cells, a), b) == DropAll(cells, a + b)
  {
  }

  lemma RemovedNone(s: State)
    ensures RemoveWaiters(s, Elements([])) == s
  {
    assert Elements<Id>([]) == {};
    assert s.waiters - {} == s.waiters;
    assert AckSendersOf(s.waiters, {}) == {} && MessageSendersOf(s.waiters, {}) == {};
    assert DropAll(s.acks, {}) == s.acks && DropAll(s.messages, {}) == s.messages;
  }

  /** Dropping the waiters of one more ID after those of `ids`. */
  lemma RemovedOneMore(s: State, ids: set<Id>, id: Id)
    ensures RemoveWaiters(RemoveWaiters(s, ids), {id}) == RemoveWaiters(s, ids + {id})
  {
    SendersOfOneMore(s.waiters, ids, id);
    assert s.waiters - ids - {id} == s.waiters - (ids + {id});
    DropInTurn(s.acks, AckSendersOf(s.waiters, ids), AckSendersOf(s.waiters - ids, {id}));
    DropInTurn(s.messages, MessageSendersOf(s.waiters, ids), MessageSendersOf(s.waiters - ids, {id}));
    hide AckSendersOf, MessageSendersOf, DropAll;
  }
}
