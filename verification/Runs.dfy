/** Theorems about whole runs of the relay: any events, in any order, any number of them. */
module Runs {
  import opened Types
  import opened Collections
  import opened Oneshots
  import opened WaitingListSpec
  import opened WaitingListInvariants
  import opened WaitingListPreservation
  import opened WaitingListSteps
  import opened Tickets

  /** `states[k]` is the state before `events[k]`. */
  datatype Run = Run(states: seq<State>, events: seq<Event>)

  ghost predicate IsRun(run: Run) {
    && |run.states| == |run.events| + 1
    && forall k :: 0 <= k < |run.events| ==>
         Enabled(run.states[k], run.events[k]) && run.states[k + 1] == Next(run.states[k], run.events[k])
  }

  ghost predicate FromStart(run: Run) {
    && IsRun(run)
    && Restarted(run.states[0])
  }

  /** A run goes on with any event that is enabled, from a state a relay may start in. */
  lemma RunsGoOn(s: State, run: Run, e: Event)
    requires IsRun(run) && Enabled(run.states[|run.events|], e)
    ensures IsRun(Run([s], []))
    ensures var on := Run(run.states + [Next(run.states[|run.events|], e)], run.events + [e]);
      IsRun(on) && (FromStart(run) ==> FromStart(on))
  {
    hide Next, Enabled, Restarted;
    var on := Run(run.states + [Next(run.states[|run.events|], e)], run.events + [e]);
    forall k | 0 <= k < |on.events|
      ensures Enabled(on.states[k], on.events[k]) && on.states[k + 1] == Next(on.states[k], on.events[k])
    {
      if k < |run.events| {
        assert on.states[k] == run.states[k] && on.events[k] == run.events[k] && on.states[k + 1] == run.states[k + 1];
      }
    }
  }

  /** The invariant holds in every reachable state. */
  lemma {:induction false} ReachableStatesAreSafe(run: Run, k: nat)
    requires FromStart(run) && k < |run.states|
    ensures Inv(run.states[k])
  {
    hide Next, Enabled;
    if k == 0 {
      RestartedInv(run.states[0]);
    } else {
      ReachableStatesAreSafe(run, k - 1);
      NextKeepsInv(run.states[k - 1], run.events[k - 1], run.states[k - 1 + 1]);
    }
  }

  lemma GrowsTransitive(a: State, b: State, c: State)
    requires StateGrows(a, b) && StateGrows(b, c)
    ensures StateGrows(a, c)
  {
  }

  lemma {:induction false} RunGrows(run: Run, j: nat, k: nat)
    requires IsRun(run) && j <= k < |run.states|
    ensures StateGrows(run.states[j], run.states[k])
    decreases k
  {
    hide Next, Enabled;
    if j < k {
      RunGrows(run, j, k - 1);
      NextGrows(run.states[k - 1], run.events[k - 1], run.states[k - 1 + 1]);
      GrowsTransitive(run.states[j], run.states[k - 1], run.states[k]);
    }
  }

  // ----- Receivers resolve at most once -----------------------------------

  /** What a receiver got, it keeps: no receiver resolves twice, and nothing takes a result back. */
  lemma ResolvedForever(run: Run, j: nat, k: nat)
    requires IsRun(run) && j <= k < |run.states|
    ensures forall r :: 0 <= r < |run.states[j].acks| && Resolved(run.states[j].acks[r]) ==>
      r < |run.states[k].acks| && run.states[k].acks[r] == run.states[j].acks[r]
    ensures forall r :: 0 <= r < |run.states[j].messages| && Resolved(run.states[j].messages[r]) ==>
      r < |run.states[k].messages| && run.states[k].messages[r] == run.states[j].messages[r]
  {
    hide Next, Enabled;
    RunGrows(run, j, k);
  }

  /** Receivers are handed out waiting, except ACK receivers of a message that was acknowledged already. */
  lemma NewReceivers(s: State, e: Event, s': State)
    requires Enabled(s, e)
    requires s' == Next(s, e)
    ensures forall r :: |s.messages| <= r < |s'.messages| ==> s'.messages[r].Pending?
    ensures forall r :: |s.acks| <= r < |s'.acks| ==> s'.acks[r].Pending? || s'.acks[r].Sent?
  {
    if e.StoreAndSubscribeEvent? {
      NewProducerReceiver(s, e, s');
      hide Next;
    } else if e.SubscribeAckEvent? {
      SubscribeAckGrows(s, e.id, e.at, e.prune, s', SubscribeAck(s, e.id, e.at, e.prune).1);
      NewAckReceiver(s, e.id, e.at, e.prune);
      hide SubscribeAck, EnsureWaiterCapacity;
    } else if e.GetOrSubscribeEvent? {
      NewMessageReceiver(s, e.id, e.at, e.prune);
      hide GetOrSubscribe, EnsureWaiterCapacity;
    }
  }

  lemma NewProducerReceiver(s: State, e: Event, s': State)
    requires Enabled(s, e) && e.StoreAndSubscribeEvent?
    requires s' == Next(s, e)
    ensures |s'.messages| == |s.messages|
    ensures forall r :: |s.acks| <= r < |s'.acks| ==> s'.acks[r].Pending? || s'.acks[r].Sent?
  {
    hide StoreAndSubscribeAck, Store, SubscribeAck, EnsureWaiterCapacity, StateGrows, Enabled, Accepts;
    var (s1, room) := EnsureWaiterCapacity(s, e.id, e.before);
    var s2 := if room then Store(s1, e.id, e.message, e.ttl, e.times, e.victims).0 else s1;
    StoreAndSubscribeParts(s, e, s1, s2, s');
    NewAckReceiver(s2, e.id, e.subscribedAt, e.after);
    StoreAndSubscribeInParts(s, e.id, e.message, e.ttl, e.before, e.times, e.subscribedAt, e.after);
    assert s' ==
      StoreAndSubscribeAck(s, e.id, e.message, e.ttl, e.before, e.times, e.victims, e.subscribedAt, e.after).0;
    var (s3, _) := SubscribeAck(s2, e.id, e.subscribedAt, e.after);
    assert s' == s2 || s' == s3;
  }

  lemma NewMessageReceiver(s: State, id: Id, now: int, p: PruneTimes)
    ensures var (s', r) := GetOrSubscribe(s, id, now, p);
      && s'.acks == s.acks && s'.ackTags == s.ackTags
      && (if r.Ok? && r.value.Waiting? then
            && s'.messages == s.messages + [Pending] && r.value.receiver == |s.messages|
            && s'.messageTags == s.messageTags + [MessageTag(id, |s.history.accepted|)]
          else s'.messages == s.messages && s'.messageTags == s.messageTags)
  {
    var s1 := s.(now := now);
    var (s2, room) := EnsureWaiterCapacity(s1, id, p);
    CapacityShape(s1, id, p, s2, room);
    hide EnsureWaiterCapacity;
  }

  lemma NewAckReceiver(s: State, id: Id, now: int, p: PruneTimes)
    ensures var (s', r) := SubscribeAck(s, id, now, p);
      && s'.messages == s.messages && s'.messageTags == s.messageTags
      && (r.Ok? ==>
            && id in s.entries && r.value == |s.acks|
            && s'.acks == s.acks + [if s.entries[id].acked then Sent(()) else Pending]
            && (id in s.history.latest ==> s'.ackTags == s.ackTags + [AckTag(id, s.history.latest[id])]))
      && (r.Err? ==> s'.acks == s.acks && s'.ackTags == s.ackTags)
  {
    var s1 := s.(now := now);
    var (s2, room) := EnsureWaiterCapacity(s1, id, p);
    CapacityShape(s1, id, p, s2, room);
    hide EnsureWaiterCapacity;
  }

  /** Consumers are handed out waiting; producers too, unless the message they ask about is acknowledged already. */
  lemma HandedOut(run: Run, k: nat)
    requires FromStart(run) && k < |run.events|
    ensures var s, s' := run.states[k], run.states[k + 1];
      && |s'.ackTags| == |s'.acks|
      && (forall r :: |s.messages| <= r < |s'.messages| ==> s'.messages[r].Pending?)
      && (forall r :: |s.acks| <= r < |s'.acks| ==>
            && (s'.acks[r].Sent? <==> s'.ackTags[r].generation in s'.history.acked)
            && (s'.acks[r].Pending? <==> s'.ackTags[r].generation !in s'.history.acked))
  {
    hide Next, Enabled;
    var s, s' := run.states[k], run.states[k + 1];
    NewReceivers(s, run.events[k], s');
    ReachableStatesAreSafe(run, k + 1);
    forall r | |s.acks| <= r < |s'.acks|
      ensures s'.acks[r].Sent? <==> s'.ackTags[r].generation in s'.history.acked
    {
      assert AckTicketAgrees(s'.entries, s'.history, s'.acks[r], s'.ackTags[r]);
    }
  }

  lemma MessageResolvesNow(run: Run, k: nat, r: nat)
    requires FromStart(run) && k < |run.events|
    requires r < |run.states[k + 1].messages| && Resolved(run.states[k + 1].messages[r])
    requires r < |run.states[k].messages| ==> run.states[k].messages[r].Pending?
    ensures r < |run.states[k].messages|
    ensures r < |run.states[k].messageTags|
    ensures MessageCellStep(run.states[k], run.events[k], r, run.states[k + 1].messages[r])
  {
    hide Next, Enabled, MessageCellStep;
    var s, e, s' := run.states[k], run.events[k], run.states[k + 1];
    NewReceivers(s, e, s');
    ReachableStatesAreSafe(run, k);
    MessageReceiverStep(s, e, s', r);
    hide *;
  }

  /** A resolved message receiver was resolved by one event, and that event says how. */
  lemma {:induction false} WhyMessageReceiverResolved(run: Run, n: nat, r: nat) returns (k: nat)
    requires FromStart(run) && n < |run.states|
    requires r < |run.states[n].messages| && Resolved(run.states[n].messages[r])
    ensures k < n && r < |run.states[k].messages| && run.states[k].messages[r].Pending?
    ensures r < |run.states[k].messageTags| && r < |run.states[n].messageTags|
    ensures run.states[k].messageTags[r] == run.states[n].messageTags[r]
    ensures MessageCellStep(run.states[k], run.events[k], r, run.states[n].messages[r])
    decreases n
  {
    hide Next, Enabled, Inv, MessageCellStep;
    assert n > 0;
    k := n - 1;
    ReachableStatesAreSafe(run, k);
    ReachableStatesAreSafe(run, n);
    RunGrows(run, k, n);
    TagsOfMessages(run.states[k]);
    TagsOfMessages(run.states[n]);
    if r < |run.states[k].messages| && Resolved(run.states[k].messages[r]) {
      k := WhyMessageReceiverResolved(run, n - 1, r);
    } else {
      MessageResolvesNow(run, k, r);
    }
  }

  lemma TagsOfMessages(s: State)
    requires Inv(s)
    ensures |s.messageTags| == |s.messages|
  {
  }

  /** At `events[k]`, an ACK receiver that was waiting got its result, or one was handed out with it. */
  ghost predicate AckResolvedAt(run: Run, k: nat, r: nat, tag: AckTag, cell: Oneshot<()>)
    requires k < |run.events| && |run.states| == |run.events| + 1
  {
    var s := run.states[k];
    if r < |s.acks| && r < |s.ackTags| then
      s.acks[r].Pending? && s.ackTags[r] == tag && AckCellStep(s, run.events[k], r, cell)
    else
      cell.Sent? && tag.generation in run.states[k + 1].history.acked
  }

  lemma AckResolvesNow(run: Run, k: nat, r: nat)
    requires FromStart(run) && k < |run.events|
    requires r < |run.states[k + 1].acks| && Resolved(run.states[k + 1].acks[r])
    requires r < |run.states[k].acks| ==> run.states[k].acks[r].Pending?
    ensures r < |run.states[k + 1].ackTags|
    ensures AckResolvedAt(run, k, r, run.states[k + 1].ackTags[r], run.states[k + 1].acks[r])
  {
    hide Next, Enabled;
    var s, e, s' := run.states[k], run.events[k], run.states[k + 1];
    ReachableStatesAreSafe(run, k);
    ReachableStatesAreSafe(run, k + 1);
    NewReceivers(s, e, s');
    NextGrows(s, e, s');
    assert AckTicketAgrees(s'.entries, s'.history, s'.acks[r], s'.ackTags[r]);
    if r < |s.acks| {
      AckReceiverStep(s, e, s', r);
    }
  }

  /** A resolved ACK receiver was resolved by one event that says how, or handed out for an acknowledged message. */
  lemma {:induction false} WhyAckReceiverResolved(run: Run, n: nat, r: nat) returns (k: nat)
    requires FromStart(run) && n < |run.states|
    requires r < |run.states[n].acks| && Resolved(run.states[n].acks[r])
    ensures k < n && r < |run.states[n].ackTags|
    ensures AckResolvedAt(run, k, r, run.states[n].ackTags[r], run.states[n].acks[r])
    decreases n
  {
    hide Next, Enabled, AckResolvedAt, AckCellStep;
    assert n > 0;
    k := n - 1;
    if r < |run.states[k].acks| && Resolved(run.states[k].acks[r]) {
      RunGrows(run, k, n);
      k := WhyAckReceiverResolved(run, n - 1, r);
    } else {
      AckResolvesNow(run, k, r);
    }
  }

  // ----- ACK receivers ----------------------------------------------------

  /** At `events[k]`, generation `g` is the message stored for its ID and is acknowledged for the first time. */
  ghost predicate AckedAt(run: Run, k: nat, g: nat)
    requires IsRun(run) && k < |run.events|
  {
    var s := run.states[k];
    && g < |s.history.accepted| && g !in s.history.acked
    && Acknowledges(s, run.events[k], s.history.accepted[g].id)
    && IsCurrent(s.entries, s.history, s.history.accepted[g].id, g)
  }

  /** Generation `g` was acknowledged by an event of the run before `n`, or before the relay started. */
  ghost predicate AckedBefore(run: Run, n: nat, g: nat)
    requires IsRun(run) && n < |run.states|
  {
    g in run.states[0].history.acked || exists k :: 0 <= k < n && AckedAt(run, k, g)
  }

  lemma {:induction false} WhyAcked(run: Run, n: nat, g: nat) returns (k: nat)
    requires FromStart(run) && n < |run.states|
    requires g in run.states[n].history.acked && g !in run.states[0].history.acked
    ensures k < n && AckedAt(run, k, g)
    decreases n
  {
    hide Next, Enabled;
    assert n > 0;
    var s, e, s' := run.states[n - 1], run.events[n - 1], run.states[n - 1 + 1];
    if g in s.history.acked {
      k := WhyAcked(run, n - 1, g);
    } else {
      k := n - 1;
      ReachableStatesAreSafe(run, n - 1);
      var id := if e.StoreEvent? || e.StoreAndSubscribeEvent? || e.AckEvent? then e.id else "";
      HistoryOfAStep(s, e, s', id);
    }
  }

  /** A generation is acknowledged exactly if the run or an earlier one acknowledged it. */
  lemma AckedExactly(run: Run, n: nat, g: nat)
    requires FromStart(run) && n < |run.states|
    ensures g in run.states[n].history.acked <==> AckedBefore(run, n, g)
  {
    hide Next, Enabled;
    RunGrows(run, 0, n);
    if g in run.states[n].history.acked && g !in run.states[0].history.acked {
      var k := WhyAcked(run, n, g);
    }
    forall k | 0 <= k < n && AckedAt(run, k, g)
      ensures g in run.states[n].history.acked
    {
      ReachableStatesAreSafe(run, k);
      HistoryOfAStep(run.states[k], run.events[k], run.states[k + 1], run.states[k].history.accepted[g].id);
      RunGrows(run, k + 1, n);
    }
  }

  /**
    * An ACK receiver yields Ok exactly when the very message it was handed out
    * for has been acknowledged and its client did not go away first. In
    * particular an ACK of a message that overwrote it never reaches it, and once
    * notified it stays so, even after the row is evicted.
    */
  lemma AckReceiverIsExact(run: Run, n: nat, r: nat)
    requires FromStart(run) && n < |run.states| && r < |run.states[n].acks|
    ensures var s := run.states[n];
      && r < |s.ackTags|
      && (s.acks[r].Sent? <==> s.ackTags[r].generation in s.history.acked && !s.acks[r].Closed?)
    ensures run.states[n].acks[r].Sent? ==> AckedBefore(run, n, run.states[n].ackTags[r].generation)
  {
    hide Next, Enabled;
    ReachableStatesAreSafe(run, n);
    var s := run.states[n];
    assert AckTicketAgrees(s.entries, s.history, s.acks[r], s.ackTags[r]);
    AckedExactly(run, n, s.ackTags[r].generation);
  }

  /** If a message is acknowledged while a receiver for it is open, that receiver holds Ok from then on. */
  lemma OpenReceiverHearsItsAck(run: Run, k: nat, n: nat, r: nat)
    requires FromStart(run) && k < n < |run.states|
    requires r < |run.states[k].acks| && run.states[k].acks[r].Pending?
    requires r < |run.states[k].ackTags| && AckedAt(run, k, run.states[k].ackTags[r].generation)
    ensures r < |run.states[n].acks| && run.states[n].acks[r].Sent?
  {
    hide Next, Enabled;
    ReachableStatesAreSafe(run, k);
    var s, e, s' := run.states[k], run.events[k], run.states[k + 1];
    assert AckTicketAgrees(s.entries, s.history, s.acks[r], s.ackTags[r]);
    AckReceiverStep(s, e, s', r);
    ResolvedForever(run, k + 1, n);
  }

  // ----- Message receivers ------------------------------------------------

  /**
    * A consumer that waits is sent exactly the first message accepted for its
    * ID after it subscribed, and while it still waits there was none.
    */
  lemma MessageReceiverGetsTheFirst(run: Run, n: nat, r: nat)
    requires FromStart(run) && n < |run.states| && r < |run.states[n].messages|
    ensures var s := run.states[n];
      && r < |s.messageTags| && s.messageTags[r].since <= |s.history.accepted|
      && (s.messages[r].Sent? ==>
            exists g :: s.messageTags[r].since <= g < |s.history.accepted|
              && s.history.accepted[g].id == s.messageTags[r].id && s.history.accepted[g].message == s.messages[r].value
              && forall h :: s.messageTags[r].since <= h < g ==> s.history.accepted[h].id != s.messageTags[r].id)
      && (s.messages[r].Pending? ==>
            forall h :: s.messageTags[r].since <= h < |s.history.accepted| ==>
              s.history.accepted[h].id != s.messageTags[r].id)
  {
    hide Next, Enabled;
    ReachableStatesAreSafe(run, n);
    var s := run.states[n];
    assert MessageTicketAgrees(s.history, s.messages[r], s.messageTags[r]);
    FirstSinceIsFirst(s.history.accepted, s.messageTags[r].id, s.messageTags[r].since);
  }

  /** A consumer's sender is dropped unsent only by a cleanup that deletes an expired row of its ID. */
  lemma MessageSenderDroppedOnlyByCleanup(run: Run, n: nat, r: nat)
    requires FromStart(run) && n < |run.states| && r < |run.states[n].messages|
    requires run.states[n].messages[r].Dropped?
    ensures r < |run.states[n].messageTags|
    ensures exists k :: 0 <= k < n && CleansUp(run.states[k], run.events[k], run.states[n].messageTags[r].id)
  {
    hide Next, Enabled;
    var k := WhyMessageReceiverResolved(run, n, r);
  }

  // ----- Receivers and the events of a run --------------------------------

  /** The event leaves consumer `r` of `id` waiting. */
  ghost predicate LeavesConsumer(s: State, e: Event, id: Id, r: nat) {
    !Accepts(s, e, id) && !CleansUp(s, e, id) && e != MessageReceiverCloses(r)
  }

  /** The event leaves a producer of `id` waiting on receiver `r`. */
  ghost predicate LeavesProducer(s: State, e: Event, id: Id, r: nat) {
    !Acknowledges(s, e, id) && !Accepts(s, e, id) && !CleansUp(s, e, id) && e != AckReceiverCloses(r)
  }

  /** The event stores `m` for `id`. */
  ghost predicate Brings(s: State, e: Event, id: Id, m: Message) {
    Accepts(s, e, id) && e.message == m
  }

  ghost predicate ConsumerLeft(run: Run, k: nat, i: nat, id: Id, r: nat)
    requires IsRun(run) && i < |run.states|
  {
    forall h :: k < h < i ==> LeavesConsumer(run.states[h], run.events[h], id, r)
  }

  ghost predicate ProducerLeft(run: Run, k: nat, i: nat, id: Id, r: nat)
    requires IsRun(run) && i < |run.states|
  {
    forall h :: k < h < i ==> LeavesProducer(run.states[h], run.events[h], id, r)
  }

  /** Between `k` and `n` a store of `m` for `id` came before anything else that ends the wait of `r`. */
  ghost predicate BroughtFirst(run: Run, k: nat, n: nat, id: Id, r: nat, m: Message)
    requires IsRun(run) && n < |run.states|
  {
    exists i :: k < i < n && Brings(run.states[i], run.events[i], id, m) && ConsumerLeft(run, k, i, id, r)
  }

  /** Between `k` and `n` an ACK of `id` came before anything else that ends the wait of `r`. */
  ghost predicate AckedFirst(run: Run, k: nat, n: nat, id: Id, r: nat)
    requires IsRun(run) && n < |run.states|
  {
    exists i :: k < i < n && Acknowledges(run.states[i], run.events[i], id) && ProducerLeft(run, k, i, id, r)
  }

  /**
    * What a consumer that waits after event `k` has in a later state, read off
    * the events in between: `m` if and only if a store of `m` was the first
    * event to end its wait.
    */
  lemma {:induction false} ConsumerIsServedExactly(run: Run, k: nat, n: nat, id: Id, r: nat, m: Message)
    requires FromStart(run) && k < n < |run.states|
    requires r < |run.states[k + 1].messages| && run.states[k + 1].messages[r].Pending?
    requires r < |run.states[k + 1].messageTags| && run.states[k + 1].messageTags[r].id == id
    ensures r < |run.states[n].messages|
    ensures run.states[n].messages[r].Pending? <==> ConsumerLeft(run, k, n, id, r)
    ensures run.states[n].messages[r] == Sent(m) <==> BroughtFirst(run, k, n, id, r, m)
    decreases n
  {
    hide Next, Enabled, Inv, Accepts, CleansUp;
    RunGrows(run, k + 1, n);
    if n > k + 1 {
      ConsumerIsServedExactly(run, k, n - 1, id, r, m);
      RunGrows(run, k + 1, n - 1);
      RunGrows(run, n - 1, n);
      var s, e, s' := run.states[n - 1], run.events[n - 1], run.states[n - 1 + 1];
      if s.messages[r].Pending? {
        ReachableStatesAreSafe(run, n - 1);
        MessageReceiverStep(s, e, s', r);
        ServedByStep(s, e, r, s'.messages[r], m);
      }
    }
  }

  lemma ServedByStep(s: State, e: Event, r: nat, cell: Oneshot<Message>, m: Message)
    requires r < |s.messageTags| && MessageCellStep(s, e, r, cell)
    ensures cell == Sent(m) <==> Brings(s, e, s.messageTags[r].id, m)
    ensures cell.Pending? <==> LeavesConsumer(s, e, s.messageTags[r].id, r)
  {
    hide Store, EnsureWaiterCapacity, CleansUp;
  }

  /**
    * What a producer that waits after event `k` has in a later state, read off
    * the events in between: its ACK if and only if an ACK of its ID was the
    * first event to end its wait.
    */
  lemma {:induction false} ProducerIsToldExactly(run: Run, k: nat, n: nat, id: Id, r: nat)
    requires FromStart(run) && k < n < |run.states|
    requires r < |run.states[k + 1].acks| && run.states[k + 1].acks[r].Pending?
    requires r < |run.states[k + 1].ackTags| && run.states[k + 1].ackTags[r].id == id
    ensures r < |run.states[n].acks|
    ensures run.states[n].acks[r].Pending? <==> ProducerLeft(run, k, n, id, r)
    ensures run.states[n].acks[r].Sent? <==> AckedFirst(run, k, n, id, r)
    decreases n
  {
    hide Next, Enabled, Inv, Accepts, CleansUp, Acknowledges;
    RunGrows(run, k + 1, n);
    if n > k + 1 {
      ProducerIsToldExactly(run, k, n - 1, id, r);
      RunGrows(run, k + 1, n - 1);
      RunGrows(run, n - 1, n);
      if run.states[n - 1].acks[r].Pending? {
        ReachableStatesAreSafe(run, n - 1);
        AckReceiverStep(run.states[n - 1], run.events[n - 1], run.states[n - 1 + 1], r);
      }
    }
  }

  // ----- Durability -------------------------------------------------------

  /** The event has no message accepted for `id`, and does not acknowledge the one there is. */
  ghost predicate LeavesAlone(s: State, e: Event, id: Id) {
    !Accepts(s, e, id) && !Acknowledges(s, e, id)
  }

  /** From event `k` on and before `n`, every event leaves `id` alone. */
  ghost predicate LeftAlone(run: Run, k: nat, n: nat, id: Id)
    requires IsRun(run) && n < |run.states|
  {
    forall j :: k <= j < n ==> LeavesAlone(run.states[j], run.events[j], id)
  }

  /** Generation `g` is the last message of `id` and is not acknowledged. */
  ghost predicate Outstanding(s: State, id: Id, g: nat, a: Accepted) {
    && id in s.history.latest && s.history.latest[id] == g && g !in s.history.acked
    && g < |s.history.accepted| && s.history.accepted[g] == a
  }

  /** A message stays outstanding over a step exactly if the step leaves its ID alone. */
  lemma StaysOutstandingExactly(s: State, e: Event, s': State, id: Id, g: nat, a: Accepted)
    requires Inv(s) && Enabled(s, e)
    requires s' == Next(s, e)
    requires Outstanding(s, id, g, a)
    ensures Outstanding(s', id, g, a) <==> LeavesAlone(s, e, id)
  {
    hide Next, Enabled, Store, EnsureWaiterCapacity;
    var other := if e.StoreEvent? || e.StoreAndSubscribeEvent? || e.AckEvent? then e.id else "";
    HistoryOfAStep(s, e, s', id);
    HistoryOfAStep(s, e, s', other);
    if other != id && other in s.history.latest {
      OwnGenerations(s, id, other);
    }
  }

  lemma OwnGenerations(s: State, i: Id, j: Id)
    requires Inv(s) && i != j && i in s.history.latest && j in s.history.latest
    ensures s.history.latest[i] != s.history.latest[j]
  {
    assert s.history.accepted[s.history.latest[i]].id == i;
  }

  /** What is no longer outstanding never is again. */
  lemma OutstandingWasOutstanding(s: State, e: Event, s': State, id: Id, g: nat, a: Accepted)
    requires Inv(s) && Enabled(s, e)
    requires s' == Next(s, e)
    requires g < |s.history.accepted| && Outstanding(s', id, g, a)
    ensures Outstanding(s, id, g, a)
  {
    hide Next, Enabled, Accepts, Acknowledges;
    var other := if e.StoreEvent? || e.StoreAndSubscribeEvent? || e.AckEvent? then e.id else "";
    HistoryOfAStep(s, e, s', other);
    NextGrows(s, e, s');
  }

  lemma {:induction false} RunStaysOutstandingExactly(run: Run, k: nat, n: nat, id: Id, g: nat, a: Accepted)
    requires FromStart(run) && k <= n < |run.states|
    requires Outstanding(run.states[k], id, g, a)
    ensures Outstanding(run.states[n], id, g, a) <==> LeftAlone(run, k, n, id)
    decreases n
  {
    hide Next, Enabled, Inv, LeavesAlone;
    if k < n {
      RunStaysOutstandingExactly(run, k, n - 1, id, g, a);
      ReachableStatesAreSafe(run, n - 1);
      RunGrows(run, k, n - 1);
      assert g < |run.states[n - 1].history.accepted|;
      hide Outstanding, StateGrows;
      var s, e, s' := run.states[n - 1], run.events[n - 1], run.states[n - 1 + 1];
      if Outstanding(s, id, g, a) {
        StaysOutstandingExactly(s, e, s', id, g, a);
      } else if Outstanding(s', id, g, a) {
        OutstandingWasOutstanding(s, e, s', id, g, a);
      }
    }
  }

  lemma OutstandingIsReadable(s: State, id: Id, g: nat, a: Accepted, t: int)
    requires Inv(s) && Outstanding(s, id, g, a)
    requires s.now <= t < a.expiresAt
    ensures Readable(s.entries, id, t) == Some(a.message)
    ensures IsAcked(s.entries, id, t) == Some(false)
  {
    if id in s.entries {
      assert RowAgrees(s.entries[id], a, false);
    }
  }

  /**
    * At-least-once delivery: a message whose store was accepted is what every
    * reader gets until its time to live is over, whatever else happens in
    * between (other IDs, full stores, cleanups, prunes, disconnects, time), as
    * long as no other message is accepted for its ID and it is not acknowledged.
    */
  lemma AcceptedMessageIsDurable(run: Run, k: nat, n: nat, id: Id, t: int, p: PruneTimes)
    requires FromStart(run) && k < n < |run.states|
    requires Accepts(run.states[k], run.events[k], id)
    requires LeftAlone(run, k + 1, n, id)
    requires run.states[n].now <= t < run.events[k].times.startedAt + run.events[k].ttl
    ensures GetOrSubscribe(run.states[n], id, t, p).1 == Ok(Delivered(run.events[k].message))
    ensures IsAcked(run.states[n].entries, id, t) == Some(false)
  {
    hide Next, Enabled, Store, EnsureWaiterCapacity;
    var s, e, s' := run.states[k], run.events[k], run.states[k + 1];
    ReachableStatesAreSafe(run, k);
    HistoryOfAStep(s, e, s', id);
    var g, a := |s.history.accepted|, Accepted(id, e.message, e.times.startedAt + e.ttl);
    assert Outstanding(s', id, g, a);
    RunStaysOutstandingExactly(run, k + 1, n, id, g, a);
    ReachableStatesAreSafe(run, n);
    OutstandingIsReadable(run.states[n], id, g, a, t);
  }

  /** The same for a message that was in the store when the relay started. */
  lemma StoredMessageSurvivesRestart(run: Run, n: nat, id: Id, t: int, p: PruneTimes)
    requires FromStart(run) && n < |run.states|
    requires id in run.states[0].entries && run.states[0].entries[id].body.Some?
    requires LeftAlone(run, 0, n, id)
    requires run.states[n].now <= t < run.states[0].entries[id].expiresAt
    ensures var row := run.states[0].entries[id];
      GetOrSubscribe(run.states[n], id, t, p).1 == Ok(Delivered(Message(row.body.value, row.contentType)))
    ensures IsAcked(run.states[n].entries, id, t) == Some(false)
  {
    hide Next, Enabled, Store, EnsureWaiterCapacity;
    var h := run.states[0].history;
    var g := h.latest[id];
    assert RowAgrees(run.states[0].entries[id], h.accepted[g], g in h.acked);
    RunStaysOutstandingExactly(run, 0, n, id, g, h.accepted[g]);
    ReachableStatesAreSafe(run, n);
    OutstandingIsReadable(run.states[n], id, g, h.accepted[g], t);
  }

  // ----- Every reachable state -------------------------------------------

  /** The last message of `id` is neither acknowledged nor, at time `t`, expired. */
  ghost predicate IsLive(h: History, id: Id, t: int) {
    && id in h.latest && h.latest[id] < |h.accepted|
    && h.latest[id] !in h.acked && t < h.accepted[h.latest[id]].expiresAt
  }

  /**
    * Exactly which message a reader finds: the last one accepted for the ID,
    * while it is neither acknowledged nor expired. A row lost to a full store,
    * an overwritten message or one of another ID is never what a reader gets.
    */
  lemma ReadersGetTheLatest(run: Run, n: nat, id: Id, t: int)
    requires FromStart(run) && n < |run.states| && run.states[n].now <= t
    ensures var h := run.states[n].history;
      Readable(run.states[n].entries, id, t) ==
        if IsLive(h, id, t) then Some(h.accepted[h.latest[id]].message) else None
    ensures var h := run.states[n].history;
      id in h.latest ==>
        && h.latest[id] < |h.accepted| && h.accepted[h.latest[id]].id == id
        && forall g :: h.latest[id] < g < |h.accepted| ==> h.accepted[g].id != id
  {
    hide Next, Enabled;
    ReachableStatesAreSafe(run, n);
    LatestIsReadable(run.states[n], id, t);
  }

  lemma LatestIsReadable(s: State, id: Id, t: int)
    requires StoreAgrees(s.entries, s.history, s.now) && s.now <= t
    ensures var h := s.history;
      Readable(s.entries, id, t) ==
        if IsLive(h, id, t) then Some(h.accepted[h.latest[id]].message) else None
    ensures var h := s.history;
      id in h.latest ==>
        && h.latest[id] < |h.accepted| && h.accepted[h.latest[id]].id == id
        && forall g :: h.latest[id] < g < |h.accepted| ==> h.accepted[g].id != id
  {
    var h := s.history;
    if id in s.entries {
      assert RowAgrees(s.entries[id], h.accepted[h.latest[id]], h.latest[id] in h.acked);
    }
    forall g | 0 <= g < |h.accepted| && h.accepted[g].id == id
      ensures id in h.latest && g <= h.latest[id]
    {
      assert NotNewer(h, h.accepted[g].id, g);
    }
  }

  /** No consumer sleeps while a readable message for its ID is stored, now or later in that state. */
  lemma NoLostWakeUp(run: Run, n: nat, id: Id, t: int)
    requires FromStart(run) && n < |run.states|
    requires id in run.states[n].waiters && run.states[n].waiters[id].messages != []
    requires run.states[n].now <= t
    ensures Readable(run.states[n].entries, id, t).None?
  {
    hide Next, Enabled;
    ReachableStatesAreSafe(run, n);
    var s := run.states[n];
    assert Readable(s.entries, id, s.now).None?;
    var h := s.history;
    assert id in s.entries ==> RowAgrees(s.entries[id], h.accepted[h.latest[id]], h.latest[id] in h.acked);
  }

  /**
    * A registered ACK waiter waits for the last message of its ID: stored and
    * not acknowledged, or expired and gone from the store. So an acknowledged
    * row never has ACK waiters.
    */
  lemma AckWaitersAreConsistent(run: Run, n: nat, id: Id, r: nat)
    requires FromStart(run) && n < |run.states|
    requires AckWaits(run.states[n].waiters, id, r)
    ensures var s := run.states[n];
      && r < |s.ackTags| && s.ackTags[r].id == id
      && id in s.history.latest && s.ackTags[r].generation == s.history.latest[id] < |s.history.accepted|
      && (if id in s.entries then !s.entries[id].acked
          else s.history.accepted[s.ackTags[r].generation].expiresAt < s.now)
  {
    hide Next, Enabled;
    ReachableStatesAreSafe(run, n);
  }

  const SENDERS_PER_ID: nat := 20  // two kinds of waiters, MAX_WAITERS_PER_ENTRY of each

  /** The number of senders held for `ids`. */
  ghost function SendersHeld(waiters: WaiterMap, ids: set<Id>): nat
    requires ids <= waiters.Keys
    decreases ids
  {
    if ids == {} then 0
    else
      var id :| id in ids;
      |waiters[id].acks| + |waiters[id].messages| + SendersHeld(waiters, ids - {id})
  }

  lemma {:induction false} SendersHeldBound(waiters: WaiterMap, ids: set<Id>)
    requires ids <= waiters.Keys
    requires forall id :: id in ids ==>
      |waiters[id].acks| <= MAX_WAITERS_PER_ENTRY && |waiters[id].messages| <= MAX_WAITERS_PER_ENTRY
    ensures SendersHeld(waiters, ids) <= SENDERS_PER_ID * |ids|
    decreases ids
  {
    if ids != {} {
      var id :| id in ids && SendersHeld(waiters, ids) ==
        |waiters[id].acks| + |waiters[id].messages| + SendersHeld(waiters, ids - {id});
      SendersHeldBound(waiters, ids - {id});
    }
  }

  ghost predicate SendersAreUnique(waiters: WaiterMap) {
    && (forall id :: id in waiters ==>
          !waiters[id].IsEmpty() && Distinct(waiters[id].acks) && Distinct(waiters[id].messages))
    && (forall i, j, r: nat :: AckWaits(waiters, i, r) && AckWaits(waiters, j, r) ==> i == j)
    && (forall i, j, r: nat :: MessageWaits(waiters, i, r) && MessageWaits(waiters, j, r) ==> i == j)
  }

  lemma InvMakesSendersUnique(s: State)
    requires Inv(s)
    ensures SendersAreUnique(s.waiters)
  {
  }

  lemma InvBoundsSenders(s: State)
    requires Bounded(s)
    ensures SendersHeld(s.waiters, s.waiters.Keys) <= SENDERS_PER_ID * s.max
  {
    SendersHeldBound(s.waiters, s.waiters.Keys);
    assert |s.waiters.Keys| == |s.waiters|;
  }

  /**
    * Memory is bounded as documented: at most `max` rows, at most `max` waiting
    * IDs with ten senders of each kind, so `max` times 20 senders in all, none of
    * them held twice and no ID without one.
    */
  lemma MemoryIsBounded(run: Run, n: nat)
    requires FromStart(run) && n < |run.states|
    ensures var s := run.states[n];
      && |s.entries| <= s.max && |s.waiters| <= s.max
      && (forall id :: id in s.waiters ==>
            |s.waiters[id].acks| <= MAX_WAITERS_PER_ENTRY && |s.waiters[id].messages| <= MAX_WAITERS_PER_ENTRY)
      && SendersHeld(s.waiters, s.waiters.Keys) <= SENDERS_PER_ID * s.max
      && SendersAreUnique(s.waiters)
  {
    hide Next, Enabled;
    ReachableStatesAreSafe(run, n);
    InvMakesSendersUnique(run.states[n]);
    InvBoundsSenders(run.states[n]);
  }
}
