/** What holds in every reachable state of the waiting list, and that every operation keeps it. */
module WaitingListInvariants {
  import opened Types
  import opened Collections
  import opened Entries
  import opened Oneshots
  import opened WaitingListSpec

  // ----- The invariant ----------------------------------------------------

  /** Sender `i` is registered under `id` to be told of an ACK. */
  ghost predicate AckWaits(waiters: WaiterMap, id: Id, i: nat) {
    id in waiters && i in waiters[id].acks
  }

  /** Sender `i` is registered under `id` to be handed a message. */
  ghost predicate MessageWaits(waiters: WaiterMap, id: Id, i: nat) {
    id in waiters && i in waiters[id].messages
  }

  ghost predicate WellFormedWaiters(w: Waiters) {
    && !w.IsEmpty()
    && |w.acks| <= MAX_WAITERS_PER_ENTRY && Distinct(w.acks)
    && |w.messages| <= MAX_WAITERS_PER_ENTRY && Distinct(w.messages)
  }

  /** Memory stays within the limits the relay documents. */
  ghost predicate Bounded(s: State) {
    && |s.entries| <= s.max
    && |s.waiters| <= s.max
    && forall id :: id in s.waiters ==> WellFormedWaiters(s.waiters[id])
  }

  /** A held ACK sender is registered in one place only: under the ID it was handed out for. */
  ghost predicate AckSlots(waiters: WaiterMap, acks: Cells<()>, tags: seq<AckTag>) {
    && |tags| == |acks|
    && (forall id, i: nat :: AckWaits(waiters, id, i) ==>
          i < |acks| && (acks[i].Pending? || acks[i].Closed?) && tags[i].id == id)
    && (forall i :: 0 <= i < |acks| && acks[i].Pending? ==>
          AckWaits(waiters, tags[i].id, i))
  }

  ghost predicate MessageSlots(waiters: WaiterMap, messages: Cells<Message>, tags: seq<MessageTag>) {
    && |tags| == |messages|
    && (forall id, i: nat :: MessageWaits(waiters, id, i) ==>
          i < |messages| && (messages[i].Pending? || messages[i].Closed?) && tags[i].id == id)
    && (forall i :: 0 <= i < |messages| && messages[i].Pending? ==>
          MessageWaits(waiters, tags[i].id, i))
  }

  /** Generation `g` of `id` is not newer than the one `latest` names. */
  ghost predicate NotNewer(h: History, id: Id, g: nat) {
    id in h.latest && g <= h.latest[id]
  }

  /** `latest` names the last accepted message of every ID. */
  ghost predicate LatestAgrees(h: History) {
    && (forall id :: id in h.latest ==> h.latest[id] < |h.accepted| && h.accepted[h.latest[id]].id == id)
    && (forall g: nat {:trigger NotNewer(h, h.accepted[g].id, g)} ::
          g < |h.accepted| ==> NotNewer(h, h.accepted[g].id, g))
    && (forall g :: g in h.acked ==> g < |h.accepted|)
  }

  /** The row of an ID holds exactly its last accepted message, until that is acknowledged. */
  ghost predicate RowAgrees(e: Entry, a: Accepted, acked: bool) {
    && e.expiresAt == a.expiresAt
    && e.contentType == a.message.contentType
    && e.acked == acked
    && e.body == (if acked then None else Some(a.message.body))
  }

  ghost predicate StoreAgrees(entries: Table, h: History, now: int) {
    && LatestAgrees(h)
    && (forall id :: id in entries ==>
          id in h.latest && RowAgrees(entries[id], h.accepted[h.latest[id]], h.latest[id] in h.acked))
    && (forall id :: id in h.latest && id !in entries ==>
          h.latest[id] in h.acked || h.accepted[h.latest[id]].expiresAt < now)
  }

  ghost predicate IsCurrent(entries: Table, h: History, id: Id, g: nat) {
    id in entries && id in h.latest && h.latest[id] == g
  }

  ghost predicate AckTicketAgrees(entries: Table, h: History, cell: Oneshot<()>, tag: AckTag) {
    && tag.generation < |h.accepted| && h.accepted[tag.generation].id == tag.id
    && (cell.Sent? ==> tag.generation in h.acked)
    && (tag.generation in h.acked ==> cell.Sent? || cell.Closed?)
    && (cell.Dropped? ==> !IsCurrent(entries, h, tag.id, tag.generation))
  }

  ghost predicate AckTickets(s: State) {
    && |s.ackTags| == |s.acks|
    && forall i :: 0 <= i < |s.acks| ==> AckTicketAgrees(s.entries, s.history, s.acks[i], s.ackTags[i])
  }

  /** Registered ACK waiters wait for the last accepted message of their ID, and that is not acknowledged. */
  ghost predicate AckWaitersCurrent(waiters: WaiterMap, tags: seq<AckTag>, h: History) {
    forall id, i: nat :: AckWaits(waiters, id, i) ==>
      i < |tags| && id in h.latest && tags[i].generation == h.latest[id] && h.latest[id] !in h.acked
  }

  /** The first message accepted for `id` from generation `since` on. */
  ghost function FirstSince(accepted: seq<Accepted>, id: Id, since: nat): Option<nat>
    decreases |accepted|
  {
    if |accepted| <= since then None
    else
      var init := accepted[..|accepted| - 1];
      match FirstSince(init, id, since)
      case Some(g) => Some(g)
      case None => if accepted[|accepted| - 1].id == id then Some(|accepted| - 1) else None
  }

  ghost predicate MessageTicketAgrees(h: History, cell: Oneshot<Message>, tag: MessageTag) {
    && tag.since <= |h.accepted|
    && match cell
       case Pending => FirstSince(h.accepted, tag.id, tag.since).None?
       case Sent(m) =>
         var first := FirstSince(h.accepted, tag.id, tag.since);
         first.Some? && first.value < |h.accepted| && h.accepted[first.value].message == m
       case _ => true
  }

  ghost predicate MessageTickets(s: State) {
    && |s.messageTags| == |s.messages|
    && forall i :: 0 <= i < |s.messages| ==>
         MessageTicketAgrees(s.history, s.messages[i], s.messageTags[i])
  }

  /** No lost wake-up: where a message waiter is registered, no reader would find a message. */
  ghost predicate NoSleeperMisses(waiters: WaiterMap, entries: Table, now: int) {
    forall id :: id in waiters && waiters[id].messages != [] ==> Readable(entries, id, now).None?
  }

  ghost predicate Inv(s: State) {
    && Bounded(s)
    && AckSlots(s.waiters, s.acks, s.ackTags)
    && MessageSlots(s.waiters, s.messages, s.messageTags)
    && StoreAgrees(s.entries, s.history, s.now)
    && AckTickets(s)
    && AckWaitersCurrent(s.waiters, s.ackTags, s.history)
    && MessageTickets(s)
    && NoSleeperMisses(s.waiters, s.entries, s.now)
  }

  /**
    * A relay that just started: nobody waits, and the store holds any rows
    * within its limit, each with the last message accepted for its ID.
    */
  ghost predicate Restarted(s: State) {
    && s.waiters == map[] && s.lastPrune.None? && s.prunes == 0
    && s.acks == [] && s.messages == [] && s.ackTags == [] && s.messageTags == []
    && |s.entries| <= s.max && StoreAgrees(s.entries, s.history, s.now)
  }

  lemma RestartedInv(s: State)
    requires Restarted(s)
    ensures Inv(s)
  {
  }

  lemma InitialIsRestarted(max: nat, now: int, mono: int)
    ensures Restarted(Initial(max, now, mono))
  {
  }

  // ----- First accepted message ------------------------------------------

  lemma {:induction false} FirstSinceIsFirst(accepted: seq<Accepted>, id: Id, since: nat)
    ensures match FirstSince(accepted, id, since)
      case Some(g) =>
        && since <= g < |accepted| && accepted[g].id == id
        && forall k :: since <= k < g ==> accepted[k].id != id
      case None => forall k :: since <= k < |accepted| ==> accepted[k].id != id
    decreases |accepted|
  {
    if |accepted| > since {
      FirstSinceIsFirst(accepted[..|accepted| - 1], id, since);
    }
  }

  lemma FirstSinceAppend(accepted: seq<Accepted>, a: Accepted, id: Id, since: nat)
    requires since <= |accepted|
    ensures FirstSince(accepted + [a], id, since) ==
      (match FirstSince(accepted, id, since)
       case Some(g) => Some(g)
       case None => if a.id == id then Some(|accepted|) else None)
  {
    assert (accepted + [a])[..|accepted|] == accepted;
  }

  // ----- Pruning ----------------------------------------------------------

  /** `fewer` has lost closed senders only. */
  ghost predicate OnlyClosedGone(waiters: WaiterMap, fewer: WaiterMap, acks: Cells<()>, messages: Cells<Message>) {
    && (forall id :: id in fewer ==> id in waiters)
    && (forall id, i: nat :: AckWaits(fewer, id, i) ==> AckWaits(waiters, id, i))
    && (forall id, i: nat :: MessageWaits(fewer, id, i) ==> MessageWaits(waiters, id, i))
    && (forall id, i: nat :: AckWaits(waiters, id, i) && !IsClosed(acks, i) ==> AckWaits(fewer, id, i))
    && (forall id, i: nat :: MessageWaits(waiters, id, i) && !IsClosed(messages, i) ==> MessageWaits(fewer, id, i))
  }

  lemma PruneDropsClosed(waiters: WaiterMap, acks: Cells<()>, messages: Cells<Message>)
    ensures OnlyClosedGone(waiters, Prune(waiters, acks, messages), acks, messages)
    ensures forall id, i: nat :: AckWaits(Prune(waiters, acks, messages), id, i) ==> !IsClosed(acks, i)
    ensures forall id, i: nat :: MessageWaits(Prune(waiters, acks, messages), id, i) ==> !IsClosed(messages, i)
  {
    forall id | id in waiters
      ensures forall i :: i in RetainOpen(waiters[id].acks, acks) <==> i in waiters[id].acks && !IsClosed(acks, i)
      ensures forall i :: i in RetainOpen(waiters[id].messages, messages) <==>
        i in waiters[id].messages && !IsClosed(messages, i)
    {
      RetainOpenMembers(waiters[id].acks, acks);
      RetainOpenMembers(waiters[id].messages, messages);
    }
  }

  lemma PruneStaysWellFormed(waiters: WaiterMap, acks: Cells<()>, messages: Cells<Message>)
    requires forall id :: id in waiters ==> WellFormedWaiters(waiters[id])
    ensures var pruned := Prune(waiters, acks, messages);
      |pruned| <= |waiters| && forall id :: id in pruned ==> WellFormedWaiters(pruned[id])
  {
    var pruned := Prune(waiters, acks, messages);
    SubmapCardinality(pruned, waiters);
    forall id | id in pruned
      ensures WellFormedWaiters(pruned[id])
    {
      RetainOpenMembers(waiters[id].acks, acks);
      RetainOpenMembers(waiters[id].messages, messages);
    }
  }

  lemma AckSlotsWithoutClosed(s: State, fewer: WaiterMap)
    requires AckSlots(s.waiters, s.acks, s.ackTags)
    requires AckWaitersCurrent(s.waiters, s.ackTags, s.history)
    requires OnlyClosedGone(s.waiters, fewer, s.acks, s.messages)
    ensures AckSlots(fewer, s.acks, s.ackTags)
    ensures AckWaitersCurrent(fewer, s.ackTags, s.history)
  {
    forall i | 0 <= i < |s.acks| && s.acks[i].Pending?
      ensures AckWaits(fewer, s.ackTags[i].id, i)
    {
      assert !IsClosed(s.acks, i);
    }
    forall id, i: nat | AckWaits(fewer, id, i)
      ensures i < |s.ackTags| && id in s.history.latest
      ensures s.ackTags[i].generation == s.history.latest[id] && s.history.latest[id] !in s.history.acked
    {
      assert AckWaits(s.waiters, id, i);
    }
  }

  lemma MessageSlotsWithoutClosed(s: State, fewer: WaiterMap)
    requires MessageSlots(s.waiters, s.messages, s.messageTags)
    requires OnlyClosedGone(s.waiters, fewer, s.acks, s.messages)
    ensures MessageSlots(fewer, s.messages, s.messageTags)
  {
    forall i | 0 <= i < |s.messages| && s.messages[i].Pending?
      ensures MessageWaits(fewer, s.messageTags[i].id, i)
    {
      assert !IsClosed(s.messages, i);
    }
  }

  lemma SleepersWithoutClosed(s: State, fewer: WaiterMap)
    requires NoSleeperMisses(s.waiters, s.entries, s.now)
    requires OnlyClosedGone(s.waiters, fewer, s.acks, s.messages)
    ensures NoSleeperMisses(fewer, s.entries, s.now)
  {
    forall id | id in fewer && fewer[id].messages != []
      ensures Readable(s.entries, id, s.now).None?
    {
      assert MessageWaits(fewer, id, fewer[id].messages[0]);
    }
  }

  /** Clock readings, the prune timestamp and the prune count are not observed. */
  lemma PassTimeKeepsInv(s: State, s': State)
    requires Inv(s) && s.now <= s'.now
    requires s' == s.(now := s'.now, mono := s'.mono, lastPrune := s'.lastPrune, prunes := s'.prunes)
    ensures Inv(s')
  {
  }

  lemma PruneKeepsInv(s: State, s': State)
    requires Inv(s)
    requires s' == s.(waiters := Prune(s.waiters, s.acks, s.messages))
    ensures Inv(s')
  {
    PruneDropsClosed(s.waiters, s.acks, s.messages);
    PruneStaysWellFormed(s.waiters, s.acks, s.messages);
    AckSlotsWithoutClosed(s, s'.waiters);
    MessageSlotsWithoutClosed(s, s'.waiters);
    SleepersWithoutClosed(s, s'.waiters);
  }

  lemma CapacityKeepsInv(s: State, id: Id, p: PruneTimes, s': State, room: bool)
    requires Inv(s)
    requires (s', room) == EnsureWaiterCapacity(s, id, p)
    ensures Inv(s')
  {
    var pruned := s.(waiters := Prune(s.waiters, s.acks, s.messages));
    PruneKeepsInv(s, pruned);
    if HasRoom(s, id) || !PruneDue(s, p) {
      PassTimeKeepsInv(s, s');
    } else {
      PassTimeKeepsInv(pruned, s');
    }
  }
}
