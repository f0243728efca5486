/**
  * The link endpoints. A consumer takes a message in one critical section and
  * acknowledges in a second one; a producer stores and subscribes in one and
  * then waits. Requests are sessions, and everything else on the relay (other
  * endpoints, cleanups, disconnects, time) may happen between any two steps.
  */
module LinkHandler {
  import opened Types
  import opened Entries
  import opened WaitingListSpec
  import opened WaitingListInvariants
  import opened WaitingListSteps
  import opened Tickets
  import opened Runs
  import opened WaiterCapacity
  import opened Readers
  import opened InboxHandler

  /** A request on its way. The generation says which accepted message it is about. */
  datatype Session =
    | Listening(id: Id, receiver: nat)
    | Holding(id: Id, message: Message, generation: nat)
    | Received(id: Id, message: Message, generation: nat)
    | Posted(id: Id, message: Message, generation: nat, receiver: nat)
    | Confirmed(id: Id, message: Message, generation: nat)
    | Failed(status: nat)

  datatype System = System(relay: State, sessions: seq<Session>)

  datatype Step =
    | GetEnters(id: Id, at: int, prune: PruneTimes)
    | GetWakes(session: nat)
    | GetAcks(session: nat, at: int)
    | PostEnters(id: Id, message: Message, ttl: nat, before: PruneTimes, times: StoreTimes,
                 victims: set<Id>, subscribedAt: int, after: PruneTimes)
    | PostWakes(session: nat)
    | GivesUp(session: nat)
    | Otherwise(event: Event)

  /** The relay event a step performs, if any. */
  ghost function EventOf(sys: System, step: Step): Option<Event> {
    match step
    case GetEnters(id, at, p) => Some(GetOrSubscribeEvent(id, at, p))
    case GetWakes(_) => None
    case GetAcks(k, at) =>
      if k < |sys.sessions| && sys.sessions[k].Holding? then Some(AckEvent(sys.sessions[k].id, at)) else None
    case PostEnters(id, message, ttl, p, t, victims, at, p') =>
      Some(StoreAndSubscribeEvent(id, message, ttl, p, t, victims, at, p'))
    case PostWakes(_) => None
    case GivesUp(k) =>
      if k < |sys.sessions| && sys.sessions[k].Listening? then Some(MessageReceiverCloses(sys.sessions[k].receiver))
      else if k < |sys.sessions| && sys.sessions[k].Posted? then Some(AckReceiverCloses(sys.sessions[k].receiver))
      else None
    case Otherwise(e) => Some(e)
  }

  /** The session is there and waits for just this step. */
  ghost predicate Ready(sys: System, step: Step) {
    match step
    case GetWakes(k) =>
      && k < |sys.sessions| && sys.sessions[k].Listening?
      && sys.sessions[k].receiver < |sys.relay.messages|
      && (sys.relay.messages[sys.sessions[k].receiver].Sent? || sys.relay.messages[sys.sessions[k].receiver].Dropped?)
    case GetAcks(k, _) => k < |sys.sessions| && sys.sessions[k].Holding?
    case PostWakes(k) =>
      && k < |sys.sessions| && sys.sessions[k].Posted?
      && sys.sessions[k].receiver < |sys.relay.acks|
      && (sys.relay.acks[sys.sessions[k].receiver].Sent? || sys.relay.acks[sys.sessions[k].receiver].Dropped?)
    case GivesUp(k) =>
      k < |sys.sessions| && (sys.sessions[k].Listening? || sys.sessions[k].Holding? || sys.sessions[k].Posted?)
    case _ => true
  }

  ghost predicate Can(sys: System, step: Step) {
    Ready(sys, step) && (EventOf(sys, step).Some? ==> Enabled(sys.relay, EventOf(sys, step).value))
  }

  ghost function RelayAfter(sys: System, step: Step): State
    requires Can(sys, step)
  {
    match EventOf(sys, step)
    case Some(e) => Next(sys.relay, e)
    case None => sys.relay
  }

  function LatestOf(h: History, id: Id): nat {
    if id in h.latest then h.latest[id] else 0
  }

  /** The session a consumer is in after its first critical section. */
  function GetSession(h: History, id: Id, r: Result<Fetch, SubscribeError>): Session {
    match r
    case Ok(Delivered(message)) => Holding(id, message, LatestOf(h, id))
    case Ok(Waiting(receiver)) => Listening(id, receiver)
    case Err(_) => Failed(SERVICE_UNAVAILABLE)
  }

  /** The session a producer is in after its critical section. */
  function PostSession(h: History, id: Id, message: Message, r: Result<nat, StoreAndSubscribeError>): Session {
    match r
    case Ok(receiver) => Posted(id, message, |h.accepted|, receiver)
    case Err(NoWaiterRoom) => Failed(SERVICE_UNAVAILABLE)
    case Err(NoStoreRoom) => Failed(SERVICE_UNAVAILABLE)
    case Err(ExpiredAtOnce) => Failed(NOT_FOUND)
  }

  /** A waiting consumer wakes up with the message it was sent, or with an error. */
  ghost function WokenGet(s: State, session: Session): Session
    requires session.Listening? && session.receiver < |s.messages|
  {
    match s.messages[session.receiver]
    case Sent(message) =>
      var first := if session.receiver < |s.messageTags|
        then FirstSince(s.history.accepted, session.id, s.messageTags[session.receiver].since) else None;
      Holding(session.id, message, if first.Some? then first.value else 0)
    case _ => Failed(NOT_FOUND)
  }

  ghost function WokenPost(s: State, session: Session): Session
    requires session.Posted? && session.receiver < |s.acks|
  {
    match s.acks[session.receiver]
    case Sent(_) => Confirmed(session.id, session.message, session.generation)
    case _ => Failed(NOT_FOUND)
  }

  ghost function SessionsAfter(sys: System, step: Step): seq<Session>
    requires Can(sys, step)
  {
    match step
    case GetEnters(id, at, p) =>
      sys.sessions + [GetSession(sys.relay.history, id, GetOrSubscribe(sys.relay, id, at, p).1)]
    case GetWakes(k) => sys.sessions[k := WokenGet(sys.relay, sys.sessions[k])]
    case GetAcks(k, _) =>
      sys.sessions[k := Received(sys.sessions[k].id, sys.sessions[k].message, sys.sessions[k].generation)]
    case PostEnters(id, message, ttl, p, t, victims, at, p') =>
      sys.sessions + [PostSession(sys.relay.history, id, message,
        StoreAndSubscribeAck(sys.relay, id, message, ttl, p, t, victims, at, p').1)]
    case PostWakes(k) => sys.sessions[k := WokenPost(sys.relay, sys.sessions[k])]
    case GivesUp(k) => sys.sessions[k := Failed(REQUEST_TIMEOUT)]
    case Otherwise(_) => sys.sessions
  }

  ghost function After(sys: System, step: Step): System
    requires Can(sys, step)
  {
    System(RelayAfter(sys, step), SessionsAfter(sys, step))
  }

  // ----- The handlers' critical sections on the running relay ------------

  /** What a handler knows after a critical section; generations are history only. */
  datatype Phase = Took(message: Message) | ListensOn(receiver: nat) | AwaitsAck(receiver: nat) | Done(status: nat)

  function PhaseOf(session: Session): Phase {
    match session
    case Listening(_, receiver) => ListensOn(receiver)
    case Holding(_, message, _) => Took(message)
    case Received(_, _, _) => Done(OK)
    case Posted(_, _, _, receiver) => AwaitsAck(receiver)
    case Confirmed(_, _, _) => Done(OK)
    case Failed(status) => Done(status)
  }

  method GetHandlerEnters(list: WaitingList.WaitingList, id: Id, at: int, p: PruneTimes) returns (phase: Phase)
    requires list.Valid() && list.now <= at && PruneInOrder(list.Abstract(), p)
    modifies list, list.channels
    ensures list.Valid()
    ensures list.Abstract() == Next(old(list.Abstract()), GetOrSubscribeEvent(id, at, p))
    ensures phase == PhaseOf(GetSession(old(list.history), id, GetOrSubscribe(old(list.Abstract()), id, at, p).1))
    ensures phase == match GetOrSubscribe(old(list.Abstract()), id, at, p).1
      case Ok(Delivered(message)) => Took(message)
      case Ok(Waiting(receiver)) => ListensOn(receiver)
      case Err(_) => Done(503)
  {
    hide Inv, GetOrSubscribe;
    var r := list.GetOrSubscribe(id, at, p);
    match r
    case Ok(Delivered(message)) => phase := Took(message);
    case Ok(Waiting(receiver)) => phase := ListensOn(receiver);
    case Err(_) => phase := Done(SERVICE_UNAVAILABLE);
  }

  /** The automatic ACK, in a critical section of its own; its result is ignored. */
  method GetHandlerAcks(list: WaitingList.WaitingList, id: Id, at: int) returns (phase: Phase)
    requires list.Valid() && list.now <= at
    modifies list, list.repository, list.channels
    ensures list.Valid()
    ensures list.Abstract() == Next(old(list.Abstract()), AckEvent(id, at))
    ensures phase == Done(200)
  {
    var _ := list.Ack(id, at);
    phase := Done(OK);
  }

  method PostHandlerEnters(list: WaitingList.WaitingList, id: Id, message: Message, ttl: nat,
                           p: PruneTimes, t: StoreTimes, at: int, p': PruneTimes)
    returns (phase: Phase, ghost victims: set<Id>)
    requires list.Valid() && PruneInOrder(list.Abstract(), p) && StoreInOrder(list.Abstract(), t)
    requires t.sweptAt <= at && p.stampedAt <= p'.checkedAt <= p'.stampedAt
    modifies list, list.repository, list.channels
    ensures list.Valid()
    ensures var s, e := old(list.Abstract()), StoreAndSubscribeEvent(id, message, ttl, p, t, victims, at, p');
      Enabled(s, e) && list.Abstract() == Next(s, e)
    ensures phase == PhaseOf(PostSession(old(list.history), id, message,
      StoreAndSubscribeAck(old(list.Abstract()), id, message, ttl, p, t, victims, at, p').1))
    ensures phase == match StoreAndSubscribeAck(old(list.Abstract()), id, message, ttl, p, t, victims, at, p').1
      case Ok(receiver) => AwaitsAck(receiver)
      case Err(NoWaiterRoom) => Done(503)
      case Err(NoStoreRoom) => Done(503)
      case Err(ExpiredAtOnce) => Done(404)
  {
    hide StoreAndSubscribeAck, Inv, MemoryVictims;
    var r;
    r, victims := list.StoreAndSubscribeAck(id, message, ttl, p, t, at, p');
    match r
    case Ok(receiver) => phase := AwaitsAck(receiver);
    case Err(NoWaiterRoom) => phase := Done(SERVICE_UNAVAILABLE);
    case Err(NoStoreRoom) => phase := Done(SERVICE_UNAVAILABLE);
    case Err(ExpiredAtOnce) => phase := Done(NOT_FOUND);
  }

  // ----- What sessions mean -----------------------------------------------

  ghost predicate IsGeneration(h: History, id: Id, message: Message, g: nat) {
    g < |h.accepted| && h.accepted[g].id == id && h.accepted[g].message == message
  }

  ghost predicate SessionAgrees(s: State, session: Session) {
    match session
    case Listening(id, receiver) => receiver < |s.messageTags| && s.messageTags[receiver].id == id
    case Holding(id, message, g) => IsGeneration(s.history, id, message, g)
    case Received(id, message, g) => IsGeneration(s.history, id, message, g) && Settled(s, id, g)
    case Posted(id, message, g, receiver) =>
      && IsGeneration(s.history, id, message, g)
      && receiver < |s.ackTags| && s.ackTags[receiver] == AckTag(id, g)
    case Confirmed(id, message, g) => IsGeneration(s.history, id, message, g) && g in s.history.acked
    case Failed(_) => true
  }

  /** Nobody can acknowledge generation `g` for the first time any more. */
  ghost predicate Settled(s: State, id: Id, g: nat) {
    g in s.history.acked || !IsCurrent(s.entries, s.history, id, g) || s.entries[id].expiresAt <= s.now
  }

  ghost predicate Agrees(sys: System) {
    Inv(sys.relay) && forall k :: 0 <= k < |sys.sessions| ==> SessionAgrees(sys.relay, sys.sessions[k])
  }

  /** A message only becomes current by being stored. */
  lemma CurrentOnlyFades(s: State, e: Event, s': State, id: Id, g: nat)
    requires Inv(s) && Enabled(s, e)
    requires s' == Next(s, e)
    requires g < |s.history.accepted| && IsCurrent(s'.entries, s'.history, id, g)
    ensures IsCurrent(s.entries, s.history, id, g)
  {
    hide Next, Enabled, Accepts, Acknowledges;
    var own := if e.StoreEvent? || e.StoreAndSubscribeEvent? || e.AckEvent? then e.id else "";
    HistoryOfAStep(s, e, s', own);
    HistoryOfAStep(s, e, s', id);
    if !Accepts(s, e, id) {
      RowsAppearByStoreOnly(s, e, s', id);
    }
  }

  lemma StaysSettled(s: State, e: Event, s': State, id: Id, g: nat)
    requires Inv(s) && Enabled(s, e)
    requires s' == Next(s, e)
    requires g < |s.history.accepted| && Settled(s, id, g)
    ensures Settled(s', id, g)
  {
    hide Next, Enabled;
    NextGrows(s, e, s');
    NextKeepsInv(s, e, s');
    if IsCurrent(s'.entries, s'.history, id, g) {
      CurrentOnlyFades(s, e, s', id, g);
      assert RowAgrees(s'.entries[id], s'.history.accepted[g], g in s'.history.acked);
      assert RowAgrees(s.entries[id], s.history.accepted[g], g in s.history.acked);
    }
  }

  lemma SessionStaysAgreed(s: State, e: Event, s': State, session: Session)
    requires Inv(s) && Enabled(s, e)
    requires s' == Next(s, e)
    requires SessionAgrees(s, session)
    ensures SessionAgrees(s', session)
  {
    hide Next, Enabled;
    NextGrows(s, e, s');
    if session.Received? {
      StaysSettled(s, e, s', session.id, session.generation);
      hide Settled;
    }
  }

  /** Whatever the relay event of a step, the sessions that were there keep their meaning. */
  lemma OldSessionsAgree(sys: System, step: Step, relay: State)
    requires Agrees(sys) && Can(sys, step)
    requires relay == RelayAfter(sys, step)
    ensures Inv(relay)
    ensures forall k :: 0 <= k < |sys.sessions| ==> SessionAgrees(relay, sys.sessions[k])
  {
    hide Next, Enabled, SessionAgrees;
    match EventOf(sys, step)
    case None =>
    case Some(e) =>
      NextKeepsInv(sys.relay, e, relay);
      forall k | 0 <= k < |sys.sessions|
        ensures SessionAgrees(relay, sys.sessions[k])
      {
        SessionStaysAgreed(sys.relay, e, relay, sys.sessions[k]);
      }
  }

  // ----- New sessions -----------------------------------------------------

  lemma GetSessionAgrees(s: State, id: Id, at: int, p: PruneTimes)
    requires Inv(s) && s.now <= at
    ensures SessionAgrees(GetOrSubscribe(s, id, at, p).0, GetSession(s.history, id, GetOrSubscribe(s, id, at, p).1))
  {
    NewMessageReceiver(s, id, at, p);
    var (s', r) := GetOrSubscribe(s, id, at, p);
    GetOrSubscribeGrows(s, id, at, p, s', r);
    if r.Ok? && r.value.Delivered? {
      var h := s.history;
      assert RowAgrees(s.entries[id], h.accepted[h.latest[id]], h.latest[id] in h.acked);
    }
  }

  lemma SubscribedMeansAccepted(s: State, e: Event, s': State, r: Result<nat, StoreAndSubscribeError>)
    requires e.StoreAndSubscribeEvent? && r.Ok?
    requires (s', r) ==
      StoreAndSubscribeAck(s, e.id, e.message, e.ttl, e.before, e.times, e.victims, e.subscribedAt, e.after)
    ensures Accepts(s, e, e.id)
  {
    hide EnsureWaiterCapacity, Store, SubscribeAck;
  }

  lemma PostSessionAgrees(s: State, e: Event, s': State, r: Result<nat, StoreAndSubscribeError>)
    requires Inv(s) && Enabled(s, e) && e.StoreAndSubscribeEvent?
    requires s' == Next(s, e)
    requires (s', r) ==
      StoreAndSubscribeAck(s, e.id, e.message, e.ttl, e.before, e.times, e.victims, e.subscribedAt, e.after)
    ensures SessionAgrees(s', PostSession(s.history, e.id, e.message, r))
  {
    hide StoreAndSubscribeAck, EnsureWaiterCapacity, Next, Accepts, Inv, Enabled;
    StoreAndSubscribeIsExact(s, e, s', r);
    HistoryOfAStep(s, e, s', e.id);
    if r.Ok? {
      SubscribedMeansAccepted(s, e, s', r);
    }
  }

  lemma WokenGetAgrees(s: State, session: Session)
    requires Inv(s) && SessionAgrees(s, session) && session.Listening? && session.receiver < |s.messages|
    requires s.messages[session.receiver].Sent? || s.messages[session.receiver].Dropped?
    ensures SessionAgrees(s, WokenGet(s, session))
  {
    assert MessageTicketAgrees(s.history, s.messages[session.receiver], s.messageTags[session.receiver]);
    FirstSinceIsFirst(s.history.accepted, session.id, s.messageTags[session.receiver].since);
  }

  lemma WokenPostAgrees(s: State, session: Session)
    requires Inv(s) && SessionAgrees(s, session) && session.Posted? && session.receiver < |s.acks|
    ensures SessionAgrees(s, WokenPost(s, session))
  {
    assert AckTicketAgrees(s.entries, s.history, s.acks[session.receiver], s.ackTags[session.receiver]);
  }

  /** After a consumer's ACK of `id`, its message cannot be acknowledged for the first time any more. */
  lemma AckSettles(s: State, id: Id, at: int, g: nat)
    requires Inv(s) && s.now <= at && g < |s.history.accepted|
    ensures Settled(Ack(s, id, at).0, id, g)
  {
    if id in s.entries {
      var h := s.history;
      assert RowAgrees(s.entries[id], h.accepted[h.latest[id]], h.latest[id] in h.acked);
    }
  }

  lemma GetEntersAgrees(sys: System, step: Step, after: System)
    requires Agrees(sys) && Can(sys, step) && step.GetEnters?
    requires after == After(sys, step)
    ensures |after.sessions| == |sys.sessions| + 1
    ensures SessionAgrees(after.relay, after.sessions[|sys.sessions|])
    ensures forall k :: 0 <= k < |sys.sessions| ==> after.sessions[k] == sys.sessions[k]
  {
    GetSessionAgrees(sys.relay, step.id, step.at, step.prune);
    hide GetOrSubscribe, SessionAgrees, Inv;
  }

  lemma PostEntersAgrees(sys: System, step: Step, after: System)
    requires Agrees(sys) && Can(sys, step) && step.PostEnters?
    requires after == After(sys, step)
    ensures |after.sessions| == |sys.sessions| + 1
    ensures SessionAgrees(after.relay, after.sessions[|sys.sessions|])
    ensures forall k :: 0 <= k < |sys.sessions| ==> after.sessions[k] == sys.sessions[k]
  {
    PostSessionAgrees(sys.relay, EventOf(sys, step).value, after.relay, StoreAndSubscribeAck(sys.relay,
      step.id, step.message, step.ttl, step.before, step.times, step.victims, step.subscribedAt, step.after).1);
    hide StoreAndSubscribeAck, SessionAgrees, Inv;
  }

  /** The session a step moves on. */
  function Moved(step: Step): nat
    requires step.GetWakes? || step.GetAcks? || step.PostWakes? || step.GivesUp?
  {
    step.session
  }

  lemma MovedSessionAgrees(sys: System, step: Step, after: System)
    requires Agrees(sys) && Can(sys, step)
    requires step.GetWakes? || step.GetAcks? || step.PostWakes? || step.GivesUp?
    requires after == After(sys, step)
    ensures Moved(step) < |sys.sessions| == |after.sessions|
    ensures SessionAgrees(after.relay, after.sessions[Moved(step)])
    ensures forall k :: 0 <= k < |sys.sessions| && k != Moved(step) ==> after.sessions[k] == sys.sessions[k]
  {
    match step
    case GetWakes(k) => WokenGetAgrees(sys.relay, sys.sessions[k]);
    case GetAcks(k, at) =>
      assert SessionAgrees(sys.relay, sys.sessions[k]);
      OldSessionsAgree(sys, step, after.relay);
      assert SessionAgrees(after.relay, sys.sessions[k]);
      AckSettles(sys.relay, sys.sessions[k].id, at, sys.sessions[k].generation);
      hide Ack, Settled, Inv;
    case PostWakes(k) => WokenPostAgrees(sys.relay, sys.sessions[k]);
    case GivesUp(k) =>
  }

  /** Every step keeps the invariant and the meaning of every session. */
  lemma StepKeepsAgreement(sys: System, step: Step, after: System)
    requires Agrees(sys) && Can(sys, step)
    requires after == After(sys, step)
    ensures Agrees(after)
  {
    hide Next, Enabled, SessionAgrees;
    OldSessionsAgree(sys, step, after.relay);
    if step.GetEnters? {
      GetEntersAgrees(sys, step, after);
      hide After;
    } else if step.PostEnters? {
      PostEntersAgrees(sys, step, after);
      hide After;
    } else if !step.Otherwise? {
      MovedSessionAgrees(sys, step, after);
      hide After;
    }
  }

  // ----- The handoff ------------------------------------------------------

  /** Generation `g` is an acknowledged message of `id`. */
  ghost predicate IsAckedFor(h: History, id: Id, g: nat) {
    g in h.acked && g < |h.accepted| && h.accepted[g].id == id
  }

  /** Every acknowledged message of `id`, but for those in `before`, was received by a consumer. */
  ghost predicate AckedWereReceived(sys: System, before: set<nat>, id: Id) {
    forall g :: IsAckedFor(sys.relay.history, id, g) && g !in before ==> WasReceived(sys, g)
  }

  ghost predicate WasReceived(sys: System, g: nat) {
    exists k :: 0 <= k < |sys.sessions| && sys.sessions[k].Received? && sys.sessions[k].generation == g
  }

  /** The step acknowledges the message stored for `id`. */
  ghost predicate TakesEffect(sys: System, step: Step, id: Id) {
    EventOf(sys, step).Some? && Acknowledges(sys.relay, EventOf(sys, step).value, id)
  }

  /** The step is a consumer's ACK, and the generation it holds is the last one of its ID. */
  ghost predicate AcksWhatItHolds(sys: System, step: Step) {
    && step.GetAcks? && step.session < |sys.sessions| && sys.sessions[step.session].Holding?
    && sys.sessions[step.session].id in sys.relay.history.latest
    && sys.relay.history.latest[sys.sessions[step.session].id] == sys.sessions[step.session].generation
  }

  /** The step is an ACK of `id` that does not come from a link consumer. */
  ghost predicate ForeignAck(step: Step, id: Id) {
    step.Otherwise? && step.event.AckEvent? && step.event.id == id
  }

  lemma ReceivedStays(sys: System, step: Step, after: System, g: nat)
    requires Can(sys, step) && after == After(sys, step)
    requires WasReceived(sys, g)
    ensures WasReceived(after, g)
  {
    hide Next, Enabled;
    var k :| 0 <= k < |sys.sessions| && sys.sessions[k].Received? && sys.sessions[k].generation == g;
    assert after.sessions[k] == sys.sessions[k];
  }

  /** What one step adds to the acknowledged messages. */
  lemma NewlyAcked(sys: System, step: Step, after: System, g: nat)
    requires Agrees(sys) && Can(sys, step)
    requires after == After(sys, step)
    requires g in after.relay.history.acked && g !in sys.relay.history.acked
    ensures EventOf(sys, step).Some? && EventOf(sys, step).value.AckEvent?
    ensures var e := EventOf(sys, step).value;
      && Acknowledges(sys.relay, e, e.id) && e.id in sys.relay.history.latest && g == sys.relay.history.latest[e.id]
      && g < |sys.relay.history.accepted| && sys.relay.history.accepted[g].id == e.id
  {
    hide Next, Enabled, Accepts, SessionAgrees;
    match EventOf(sys, step)
    case None =>
    case Some(e) =>
      var own := if e.StoreEvent? || e.StoreAndSubscribeEvent? || e.AckEvent? then e.id else "";
      HistoryOfAStep(sys.relay, e, after.relay, own);
  }

  lemma AcceptedStays(sys: System, step: Step, after: System)
    requires Can(sys, step)
    requires after == After(sys, step)
    ensures sys.relay.history.accepted <= after.relay.history.accepted
    ensures sys.relay.history.acked <= after.relay.history.acked
  {
    hide Next, Enabled;
    match EventOf(sys, step)
    case None =>
    case Some(e) => NextGrows(sys.relay, e, after.relay);
  }

  /** A message that can still be acknowledged was not received yet. */
  lemma ReceivedIsNotAckable(s: State, session: Session, id: Id, at: int)
    requires Inv(s) && s.now <= at
    requires session.Received? && SessionAgrees(s, session)
    requires Acknowledges(s, AckEvent(id, at), id) && id in s.history.latest
    ensures session.generation != s.history.latest[id]
  {
  }

  /** A step that takes effect moves no session but its own, which was holding its message. */
  lemma EffectiveStepLeavesOthers(sys: System, step: Step, after: System, id: Id)
    requires Agrees(sys) && Can(sys, step) && TakesEffect(sys, step, id)
    requires after == After(sys, step)
    ensures after.relay == Next(sys.relay, EventOf(sys, step).value)
    ensures EventOf(sys, step).value.AckEvent? && sys.relay.now <= EventOf(sys, step).value.at
    ensures |after.sessions| == |sys.sessions|
    ensures forall k :: 0 <= k < |sys.sessions| && after.sessions[k] != sys.sessions[k] ==>
      step.GetAcks? && k == step.session && sys.sessions[k].id == id && after.sessions[k].Received?
        && after.sessions[k].generation == sys.sessions[k].generation
  {
    hide Next, Agrees, Visible, MemoryVictims, GetOrSubscribe, StoreAndSubscribeAck, GetSession, PostSession;
  }

  /** A message that gets acknowledged was received exactly if the ACK comes from the consumer that holds it. */
  lemma ReceivedByOwnAck(sys: System, step: Step, after: System, id: Id, g: nat)
    requires Agrees(sys) && Can(sys, step) && TakesEffect(sys, step, id)
    requires after == After(sys, step)
    requires id in sys.relay.history.latest && g == sys.relay.history.latest[id]
    ensures IsAckedFor(after.relay.history, id, g) && g !in sys.relay.history.acked
    ensures WasReceived(after, g) <==> AcksWhatItHolds(sys, step)
  {
    hide Next, Enabled, SessionAgrees, Settled;
    EffectiveStepLeavesOthers(sys, step, after, id);
    var s, e := sys.relay, EventOf(sys, step).value;
    HistoryOfAStep(s, e, after.relay, id);
    if AcksWhatItHolds(sys, step) {
      assert after.sessions[step.session].Received? && after.sessions[step.session].generation == g;
    }
    forall j | 0 <= j < |after.sessions| && after.sessions[j].Received? && after.sessions[j] == sys.sessions[j]
      ensures after.sessions[j].generation != g
    {
      assert SessionAgrees(s, sys.sessions[j]);
      ReceivedIsNotAckable(s, sys.sessions[j], id, e.at);
    }
  }

  /** What one step adds to the acknowledged messages of `id`: the one stored, if the step takes effect. */
  lemma AckedAfterStep(sys: System, step: Step, after: System, id: Id, g: nat)
    requires Agrees(sys) && Can(sys, step)
    requires after == After(sys, step)
    ensures TakesEffect(sys, step, id) ==> id in sys.relay.history.latest
    ensures IsAckedFor(after.relay.history, id, g) <==>
      || IsAckedFor(sys.relay.history, id, g)
      || (TakesEffect(sys, step, id) && g == sys.relay.history.latest[id])
  {
    hide Next, Enabled, SessionAgrees, Acknowledges;
    AcceptedStays(sys, step, after);
    if TakesEffect(sys, step, id) {
      EffectiveIdIsStored(sys, step, id);
      ReceivedByOwnAck(sys, step, after, id, sys.relay.history.latest[id]);
    }
    if IsAckedFor(after.relay.history, id, g) && g !in sys.relay.history.acked {
      NewlyAcked(sys, step, after, g);
    } else if IsAckedFor(after.relay.history, id, g) {
      AckedIsAccepted(sys, g);
    }
  }

  lemma EffectiveIdIsStored(sys: System, step: Step, id: Id)
    requires Agrees(sys) && TakesEffect(sys, step, id)
    ensures id in sys.relay.history.latest
  {
  }

  lemma AckedIsAccepted(sys: System, g: nat)
    requires Agrees(sys) && g in sys.relay.history.acked
    ensures g < |sys.relay.history.accepted|
  {
  }
}
