/**
  * The inbox endpoints as steps: one critical section under the lock, then a
  * wait on a channel that other requests interleave with.
  */
module InboxHandler {
  import opened Types
  import opened Entries
  import opened Oneshots
  import opened WaitingListSpec
  import opened WaitingListInvariants
  import opened Tickets
  import opened Runs
  import opened Answers
  import WaitingList

  const OK: nat := 200
  const NOT_FOUND: nat := 404
  const REQUEST_TIMEOUT: nat := 408
  const SERVICE_UNAVAILABLE: nat := 503

  /** What a critical section leads to: an answer at once, or a wait on a receiver. */
  datatype Entered = Answered(status: nat) | WaitsOn(receiver: nat)

  /** `/await` under the lock: an ACK that is already there answers at once, else subscribe. */
  ghost function AwaitEnters(s: State, id: Id, checkedAt: int, at: int, p: PruneTimes): (State, Entered) {
    if IsAcked(s.entries, id, checkedAt) == Some(true) then (s, Answered(OK))
    else
      var (s', r) := SubscribeAck(s, id, at, p);
      (s', match r
           case Ok(receiver) => WaitsOn(receiver)
           case Err(NotFound) => Answered(NOT_FOUND)
           case Err(WaiterLimitReached) => Answered(SERVICE_UNAVAILABLE))
  }

  /** The answer once the wait is over; `None` while it is not. */
  function AwaitAnswers(cell: Oneshot<()>): Option<nat> {
    match cell
    case Sent(_) => Some(OK)
    case Dropped => Some(NOT_FOUND)
    case Closed => Some(REQUEST_TIMEOUT)
    case Pending => None
  }

  method AwaitHandlerEnters(list: WaitingList.WaitingList, id: Id, checkedAt: int, at: int, p: PruneTimes)
    returns (entered: Entered)
    requires list.Valid() && list.now <= checkedAt <= at
    modifies list, list.channels
    ensures list.Valid()
    ensures (list.Abstract(), entered) == AwaitEnters(old(list.Abstract()), id, checkedAt, at, p)
  {
    var acked := list.IsAcked(id, checkedAt);
    if acked == Some(true) {
      return Answered(OK);
    }
    var r := list.SubscribeAck(id, at, p);
    match r
    case Ok(receiver) => entered := WaitsOn(receiver);
    case Err(NotFound) => entered := Answered(NOT_FOUND);
    case Err(WaiterLimitReached) => entered := Answered(SERVICE_UNAVAILABLE);
  }

  // ----- The other inbox endpoints ----------------------------------------

  method PostHandler(list: WaitingList.WaitingList, id: Id, message: Message, ttl: nat, t: StoreTimes)
    returns (status: nat, ghost victims: set<Id>)
    requires list.Valid() && StoreInOrder(list.Abstract(), t)
    modifies list, list.repository, list.channels
    ensures list.Valid()
    ensures var s, e := old(list.Abstract()), StoreEvent(id, message, ttl, t, victims);
      && Enabled(s, e) && list.Abstract() == Next(s, e)
      && status == if Accepts(s, e, id) then 200 else 503
  {
    hide Inv, Store, MemoryVictims;
    var outcome;
    outcome, victims := list.Store(id, message, ttl, t);
    status := if outcome == Stored then OK else SERVICE_UNAVAILABLE;
  }

  /** DELETE acknowledges: 200 if the message is there and has not expired, again and again. */
  method DeleteHandler(list: WaitingList.WaitingList, id: Id, at: int) returns (status: nat)
    requires list.Valid() && list.now <= at
    modifies list, list.repository, list.channels
    ensures list.Valid()
    ensures list.Abstract() == Next(old(list.Abstract()), AckEvent(id, at))
    ensures var rows := old(list.repository.entries);
      status == if id in rows && at < rows[id].expiresAt then 200 else 404
  {
    var found := list.Ack(id, at);
    status := if found then OK else NOT_FOUND;
  }

  /** What GET leads to: the message, a wait for it, or a refusal. */
  datatype Polled = Got(message: Message) | Polls(receiver: nat) | TurnedAway(status: nat)

  method GetHandlerEnters(list: WaitingList.WaitingList, id: Id, at: int, p: PruneTimes) returns (polled: Polled)
    requires list.Valid() && list.now <= at && PruneInOrder(list.Abstract(), p)
    modifies list, list.channels
    ensures list.Valid()
    ensures list.Abstract() == Next(old(list.Abstract()), GetOrSubscribeEvent(id, at, p))
    ensures polled == match GetOrSubscribe(old(list.Abstract()), id, at, p).1
      case Ok(Delivered(message)) => Got(message)
      case Ok(Waiting(receiver)) => Polls(receiver)
      case Err(_) => TurnedAway(503)
  {
    hide Inv, GetOrSubscribe;
    var r := list.GetOrSubscribe(id, at, p);
    match r
    case Ok(Delivered(message)) => polled := Got(message);
    case Ok(Waiting(receiver)) => polled := Polls(receiver);
    case Err(_) => polled := TurnedAway(SERVICE_UNAVAILABLE);
  }

  /** The answer of a GET once its wait is over; `None` while it is not. */
  function PollAnswers(cell: Oneshot<Message>): Option<Polled> {
    match cell
    case Sent(message) => Some(Got(message))
    case Dropped => Some(TurnedAway(NOT_FOUND))
    case Closed => Some(TurnedAway(REQUEST_TIMEOUT))
    case Pending => None
  }

  // ----- The codes --------------------------------------------------------

  /** What each end of a wait is answered with. */
  lemma WaitsAreAnswered(ack: Oneshot<()>, message: Oneshot<Message>)
    ensures AwaitAnswers(ack) == Some(200) <==> ack.Sent?
    ensures AwaitAnswers(ack) == Some(404) <==> ack == Dropped
    ensures AwaitAnswers(ack) == Some(408) <==> ack == Closed
    ensures AwaitAnswers(ack) == None <==> ack == Pending
    ensures message.Sent? ==> PollAnswers(message) == Some(Got(message.value))
    ensures PollAnswers(message) == Some(TurnedAway(404)) <==> message == Dropped
    ensures PollAnswers(message) == Some(TurnedAway(408)) <==> message == Closed
    ensures PollAnswers(message) == None <==> message == Pending
  {
  }

  /**
    * What the critical section of `/await` leads to, in every reachable state:
    * 200 for an acknowledged row, 404 without an unexpired row, 503 where ten
    * producers wait or a new ID is turned away, and a wait otherwise.
    */
  lemma AwaitEntersExactly(s: State, id: Id, checkedAt: int, at: int, p: PruneTimes, s': State, entered: Entered)
    requires Inv(s) && s.now <= checkedAt <= at
    requires (s', entered) == AwaitEnters(s, id, checkedAt, at, p)
    ensures var acked := id in s.entries && checkedAt < s.entries[id].expiresAt && s.entries[id].acked;
      var live := id in s.entries && at < s.entries[id].expiresAt;
      var refused := TenProducersWait(s, id) || TurnsAway(s, id, p.checkedAt);
      && (entered == Answered(200) <==> acked)
      && (entered == Answered(404) <==> !acked && !live)
      && (entered == Answered(503) <==> !acked && live && refused)
      && (entered == WaitsOn(|s.acks|) <==> !acked && live && !refused)
      && (entered.WaitsOn? ==> s'.acks == s.acks + [Pending] && id in s'.waiters && |s.acks| in s'.waiters[id].acks)
  {
    StatusIsExact(s.entries, id, checkedAt);
    var (s1, r) := SubscribeAck(s, id, at, p);
    SubscribeAckIsExact(s, id, at, p, s1, r);
    hide SubscribeAck, Inv, TenProducersWait, TurnsAway;
  }

  // ----- Awaiting an ACK --------------------------------------------------

  /** An immediate 200 of `/await` means that the message now stored was acknowledged, by an earlier ACK of its own. */
  lemma AwaitAnswersAtOnce(run: Run, k: nat, id: Id, checkedAt: int, at: int, p: PruneTimes)
    requires FromStart(run) && k < |run.states|
    requires AwaitEnters(run.states[k], id, checkedAt, at, p).1 == Answered(OK)
    ensures id in run.states[k].history.latest
    ensures AckedBefore(run, k, run.states[k].history.latest[id])
  {
    hide Next, Enabled;
    ReachableStatesAreSafe(run, k);
    AckedExactly(run, k, run.states[k].history.latest[id]);
  }

  /** The receiver `/await` gets is for the message stored at its critical section. */
  lemma AwaitJoinsTheCurrentMessage(s: State, id: Id, checkedAt: int, at: int, p: PruneTimes, s': State, receiver: nat)
    requires Inv(s)
    requires (s', WaitsOn(receiver)) == AwaitEnters(s, id, checkedAt, at, p)
    ensures id in s.history.latest
    ensures receiver < |s'.ackTags| && s'.ackTags[receiver] == AckTag(id, s.history.latest[id])
    ensures s' == SubscribeAck(s, id, at, p).0 && receiver < |s'.acks|
    ensures id in s.entries && s'.acks[receiver] == (if s.entries[id].acked then Sent(()) else Pending)
  {
    NewAckReceiver(s, id, at, p);
    hide SubscribeAck;
  }

  /**
    * `/await` answers 200 exactly when the very message that was stored at its
    * critical section has been acknowledged while the client was still there,
    * whatever happened to that ID meanwhile.
    */
  lemma AwaitIsExact(run: Run, k: nat, n: nat, id: Id, checkedAt: int, at: int, p: PruneTimes, receiver: nat)
    requires FromStart(run) && k < n < |run.states|
    requires run.events[k] == SubscribeAckEvent(id, at, p)
    requires AwaitEnters(run.states[k], id, checkedAt, at, p) == (run.states[k + 1], WaitsOn(receiver))
    ensures id in run.states[k].history.latest && receiver < |run.states[n].acks|
    ensures var g := run.states[k].history.latest[id]; var cell := run.states[n].acks[receiver];
      && (AwaitAnswers(cell) == Some(OK) <==> g in run.states[n].history.acked && cell != Closed)
      && (AwaitAnswers(cell) == Some(OK) ==> AckedBefore(run, n, g))
    ensures id in run.states[k].entries
    ensures AwaitAnswers(run.states[n].acks[receiver]) == Some(OK) <==>
      run.states[k].entries[id].acked || AckedFirst(run, k, n, id, receiver)
  {
    hide Next, Enabled, AckedFirst, ProducerLeft;
    ReachableStatesAreSafe(run, k);
    AwaitJoinsTheCurrentMessage(run.states[k], id, checkedAt, at, p, run.states[k + 1], receiver);
    RunGrows(run, k + 1, n);
    if run.states[k].entries[id].acked {
      ResolvedForever(run, k + 1, n);
    } else {
      ProducerIsToldExactly(run, k, n, id, receiver);
    }
    AckReceiverIsExact(run, n, receiver);
  }

  // ----- Getting a message ------------------------------------------------

  /**
    * A long poll answers with a message exactly when one was accepted for its
    * ID since it subscribed, unless the client went away or a cleanup dropped
    * its sender first; and the message is the first such one.
    */
  lemma LongPollIsExact(run: Run, k: nat, n: nat, id: Id, at: int, p: PruneTimes, receiver: nat)
    requires FromStart(run) && k < n < |run.states|
    requires run.events[k] == GetOrSubscribeEvent(id, at, p)
    requires GetOrSubscribe(run.states[k], id, at, p).1 == Ok(Waiting(receiver))
    ensures receiver < |run.states[n].messages|
    ensures var cell := run.states[n].messages[receiver];
      var accepted := run.states[n].history.accepted;
      var first := FirstSince(accepted, id, |run.states[k].history.accepted|);
      && (cell.Sent? <==> first.Some? && !cell.Closed? && !cell.Dropped?)
      && (cell.Sent? ==> first.value < |accepted| && cell == Sent(accepted[first.value].message))
    ensures forall m :: run.states[n].messages[receiver] == Sent(m) <==> BroughtFirst(run, k, n, id, receiver, m)
  {
    hide Next, Enabled, GetOrSubscribe, BroughtFirst, ConsumerLeft;
    ReachableStatesAreSafe(run, k);
    LongPollSubscribes(run.states[k], id, at, p, run.states[k + 1], receiver);
    RunGrows(run, k + 1, n);
    forall m
      ensures run.states[n].messages[receiver] == Sent(m) <==> BroughtFirst(run, k, n, id, receiver, m)
    {
      ConsumerIsServedExactly(run, k, n, id, receiver, m);
    }
    ReachableStatesAreSafe(run, n);
    var s := run.states[n];
    hide *;
    LongPollTicket(s, receiver);
  }

  lemma LongPollSubscribes(s: State, id: Id, at: int, p: PruneTimes, s': State, receiver: nat)
    requires Enabled(s, GetOrSubscribeEvent(id, at, p)) && |s.messageTags| == |s.messages|
    requires s' == Next(s, GetOrSubscribeEvent(id, at, p))
    requires GetOrSubscribe(s, id, at, p).1 == Ok(Waiting(receiver))
    ensures receiver < |s'.messages| && receiver < |s'.messageTags|
    ensures s'.messageTags[receiver] == MessageTag(id, |s.history.accepted|) && s'.messages[receiver].Pending?
  {
    NewMessageReceiver(s, id, at, p);
    hide GetOrSubscribe;
  }

  lemma LongPollTicket(s: State, r: nat)
    requires Inv(s) && r < |s.messages|
    ensures r < |s.messageTags|
    ensures var cell := s.messages[r];
      var accepted := s.history.accepted;
      var first := FirstSince(accepted, s.messageTags[r].id, s.messageTags[r].since);
      && (cell.Sent? <==> first.Some? && !cell.Closed? && !cell.Dropped?)
      && (cell.Sent? ==> first.value < |accepted| && cell == Sent(accepted[first.value].message))
  {
    hide FirstSince;
    assert MessageTicketAgrees(s.history, s.messages[r], s.messageTags[r]);
  }
}
