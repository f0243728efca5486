/**
  * What every operation of the waiting list does, as functions on its state.
  * Besides what the relay holds, the state carries a history that no operation
  * looks at: the accepted messages in order (the index of a message is its
  * generation), which generations were acknowledged, what each receiver was
  * handed out for, and how often a full waiter map was pruned.
  */
module WaitingListSpec {
  import opened Types
  import opened Collections
  import opened Entries
  import opened Oneshots

  const MAX_WAITERS_PER_ENTRY: nat := 10
  const FULL_MAP_PRUNE_INTERVAL: int := 1_000_000_000  // nanoseconds

  /** The senders waiting for one ID. */
  datatype Waiters = Waiters(acks: seq<nat>, messages: seq<nat>) {
    predicate IsEmpty() {
      acks == [] && messages == []
    }
  }

  type WaiterMap = map<Id, Waiters>

  const NO_WAITERS := Waiters([], [])

  /** A message the store accepted. */
  datatype Accepted = Accepted(id: Id, message: Message, expiresAt: int)

  /** An ACK receiver: the generation it joined. */
  datatype AckTag = AckTag(id: Id, generation: nat)

  /** A message receiver: how many messages had been accepted when it subscribed. */
  datatype MessageTag = MessageTag(id: Id, since: nat)

  datatype History = History(
    accepted: seq<Accepted>,
    latest: map<Id, nat>,
    acked: set<nat>)

  datatype State = State(
    max: nat,
    entries: Table,
    waiters: WaiterMap,
    lastPrune: Option<int>,
    acks: Cells<()>,
    messages: Cells<Message>,
    now: int,
    mono: int,
    history: History,
    ackTags: seq<AckTag>,
    messageTags: seq<MessageTag>,
    prunes: nat)

  /** The wall-clock readings one store makes, in order. */
  datatype StoreTimes = StoreTimes(startedAt: int, createdAt: int, sweptAt: int)

  /** The monotonic readings one capacity check makes, in order. */
  datatype PruneTimes = PruneTimes(checkedAt: int, stampedAt: int)

  ghost predicate StoreInOrder(s: State, t: StoreTimes) {
    s.now <= t.startedAt <= t.createdAt <= t.sweptAt
  }

  ghost predicate PruneInOrder(s: State, p: PruneTimes) {
    s.mono <= p.checkedAt <= p.stampedAt
  }

  ghost function Initial(max: nat, now: int, mono: int): State {
    State(max, map[], map[], None, [], [], now, mono, History([], map[], {}), [], [], 0)
  }

  // ----- Notifying --------------------------------------------------------

  function WaitersOf(waiters: WaiterMap, id: Id): Waiters {
    if id in waiters then waiters[id] else NO_WAITERS
  }

  /** Drops the ID's stale ACK waiters and hands the message to its message waiters. */
  ghost function NotifyMessageWaiters(s: State, id: Id, message: Message): State {
    var w := WaitersOf(s.waiters, id);
    s.(waiters := s.waiters - {id},
       acks := DropAll(s.acks, Elements(w.acks)),
       messages := SendAll(s.messages, w.messages, message))
  }

  ghost function NotifyAckWaiters(s: State, id: Id): State {
    var w := WaitersOf(s.waiters, id);
    s.(waiters := if w.messages == [] then s.waiters - {id} else s.waiters[id := Waiters([], w.messages)],
       acks := SendAll(s.acks, w.acks, ()))
  }

  // ----- Store ------------------------------------------------------------

  ghost function Remember(h: History, id: Id, message: Message, expiresAt: int): History {
    h.(accepted := h.accepted + [Accepted(id, message, expiresAt)],
       latest := h.latest[id := |h.accepted|])
  }

  ghost function Row(message: Message, ttl: nat, t: StoreTimes): Entry {
    NewRow(message.body, message.contentType, t.startedAt + ttl, t.createdAt)
  }

  ghost function Store(s: State, id: Id, message: Message, ttl: nat, t: StoreTimes, victims: set<Id>)
    : (State, InsertOutcome)
  {
    var (entries, outcome) := Insert(s.entries, s.max, id, Row(message, ttl, t), t.sweptAt, victims);
    var s1 := s.(entries := entries, now := t.sweptAt);
    if outcome == StoreFull then (s1, StoreFull)
    else
      var s2 := s1.(history := Remember(s.history, id, message, t.startedAt + ttl));
      (NotifyMessageWaiters(s2, id, message), Stored)
  }

  // ----- Acknowledge ------------------------------------------------------

  /** Readers see a row until the instant it expires. */
  ghost predicate Visible(entries: Table, id: Id, now: int) {
    id in entries && !ExpiredForReaders(entries[id], now)
  }

  ghost function Ack(s: State, id: Id, now: int): (State, bool) {
    var s1 := s.(now := now);
    if !Visible(s.entries, id, now) then (s1, false)
    else if s.entries[id].acked then (s1, true)
    else
      var h :=
        if id in s.history.latest then s.history.(acked := s.history.acked + {s.history.latest[id]}) else s.history;
      (NotifyAckWaiters(s1.(entries := AckRow(s.entries, id), history := h), id), true)
  }

  ghost function IsAcked(entries: Table, id: Id, now: int): Option<bool> {
    if Visible(entries, id, now) then Some(entries[id].acked) else None
  }

  // ----- Waiter capacity --------------------------------------------------

  function Retain(w: Waiters, acks: Cells<()>, messages: Cells<Message>): Waiters {
    Waiters(RetainOpen(w.acks, acks), RetainOpen(w.messages, messages))
  }

  /** Drops closed senders and IDs left without waiters. */
  ghost function Prune(waiters: WaiterMap, acks: Cells<()>, messages: Cells<Message>): WaiterMap {
    map id | id in waiters && !Retain(waiters[id], acks, messages).IsEmpty() :: Retain(waiters[id], acks, messages)
  }

  ghost predicate HasRoom(s: State, id: Id) {
    id in s.waiters || |s.waiters| < s.max
  }

  ghost predicate PruneDue(s: State, p: PruneTimes) {
    s.lastPrune.None? || p.checkedAt - s.lastPrune.value >= FULL_MAP_PRUNE_INTERVAL
  }

  ghost function EnsureWaiterCapacity(s: State, id: Id, p: PruneTimes): (State, bool) {
    var s1 := s.(mono := p.stampedAt);
    if HasRoom(s, id) then (s1, true)
    else
      var s2 :=
        if PruneDue(s, p) then
          s1.(waiters := Prune(s.waiters, s.acks, s.messages), lastPrune := Some(p.stampedAt), prunes := s.prunes + 1)
        else s1;
      (s2, |s2.waiters| < s.max)
  }

  // ----- Subscribe --------------------------------------------------------

  /** A receiver for the current generation of `id`, if its list has room for the sender. */
  ghost function AddAckWaiter(s: State, id: Id): (State, Result<nat, SubscribeError>) {
    var w := WaitersOf(s.waiters, id);
    var kept := RetainOpen(w.acks, s.acks);
    if |kept| >= MAX_WAITERS_PER_ENTRY then (s.(waiters := s.waiters[id := w.(acks := kept)]), Err(WaiterLimitReached))
    else
      (HandOutAck(s, id, Pending).(waiters := s.waiters[id := w.(acks := kept + [|s.acks|])]), Ok(|s.acks|))
  }

  ghost function HandOutAck(s: State, id: Id, cell: Oneshot<()>): State {
    var generation := if id in s.history.latest then s.history.latest[id] else 0;
    s.(acks := s.acks + [cell],
       ackTags := s.ackTags + [AckTag(id, generation)])
  }

  ghost function SubscribeAck(s: State, id: Id, now: int, p: PruneTimes): (State, Result<nat, SubscribeError>) {
    var s1 := s.(now := now);
    if !Visible(s.entries, id, now) then (s1, Err(NotFound))
    else if s.entries[id].acked then (HandOutAck(s1, id, Sent(())), Ok(|s.acks|))
    else
      var (s2, room) := EnsureWaiterCapacity(s1, id, p);
      if room then AddAckWaiter(s2, id) else (s2, Err(WaiterLimitReached))
  }

  /** How `store_and_subscribe_ack` reports a failed subscription. */
  function AsProducer(r: Result<nat, SubscribeError>): Result<nat, StoreAndSubscribeError> {
    match r
    case Ok(receiver) => Ok(receiver)
    case Err(WaiterLimitReached) => Err(NoWaiterRoom)
    case Err(NotFound) => Err(ExpiredAtOnce)
  }

  /** What follows once the waiter room was checked and found. */
  ghost function StoreThenSubscribe(
      s: State, id: Id, message: Message, ttl: nat, t: StoreTimes, victims: set<Id>, subscribedAt: int, p: PruneTimes)
    : (State, Result<nat, StoreAndSubscribeError>)
  {
    var (s1, outcome) := Store(s, id, message, ttl, t, victims);
    if outcome == StoreFull then (s1, Err(NoStoreRoom))
    else
      var (s2, r) := SubscribeAck(s1, id, subscribedAt, p);
      (s2, AsProducer(r))
  }

  ghost function StoreAndSubscribeAck(
      s: State, id: Id, message: Message, ttl: nat,
      p: PruneTimes, t: StoreTimes, victims: set<Id>, subscribedAt: int, p': PruneTimes)
    : (State, Result<nat, StoreAndSubscribeError>)
  {
    var (s1, room) := EnsureWaiterCapacity(s, id, p);
    if !room then (s1, Err(NoWaiterRoom))
    else StoreThenSubscribe(s1, id, message, ttl, t, victims, subscribedAt, p')
  }

  ghost function AddMessageWaiter(s: State, id: Id): (State, Result<Fetch, SubscribeError>) {
    var w := WaitersOf(s.waiters, id);
    var kept := RetainOpen(w.messages, s.messages);
    if |kept| >= MAX_WAITERS_PER_ENTRY then
      (s.(waiters := s.waiters[id := w.(messages := kept)]), Err(WaiterLimitReached))
    else
      (s.(waiters := s.waiters[id := w.(messages := kept + [|s.messages|])],
          messages := s.messages + [Pending],
          messageTags := s.messageTags + [MessageTag(id, |s.history.accepted|)]),
       Ok(Waiting(|s.messages|)))
  }

  /** The message a reader finds for `id`. */
  ghost function Readable(entries: Table, id: Id, now: int): Option<Message> {
    if Visible(entries, id, now) && entries[id].body.Some?
    then Some(Message(entries[id].body.value, entries[id].contentType))
    else None
  }

  ghost function GetOrSubscribe(s: State, id: Id, now: int, p: PruneTimes): (State, Result<Fetch, SubscribeError>) {
    var s1 := s.(now := now);
    match Readable(s.entries, id, now)
    case Some(message) => (s1, Ok(Delivered(message)))
    case None =>
      var (s2, room) := EnsureWaiterCapacity(s1, id, p);
      if room then AddMessageWaiter(s2, id) else (s2, Err(WaiterLimitReached))
  }

  // ----- Cleanup ----------------------------------------------------------

  ghost function AckSendersOf(waiters: WaiterMap, ids: set<Id>): set<nat> {
    set id, i | id in waiters && id in ids && i in waiters[id].acks :: i
  }

  ghost function MessageSendersOf(waiters: WaiterMap, ids: set<Id>): set<nat> {
    set id, i | id in waiters && id in ids && i in waiters[id].messages :: i
  }

  /** Drops every waiter of `ids`. */
  ghost function RemoveWaiters(s: State, ids: set<Id>): State {
    s.(waiters := s.waiters - ids,
       acks := DropAll(s.acks, AckSendersOf(s.waiters, ids)),
       messages := DropAll(s.messages, MessageSendersOf(s.waiters, ids)))
  }

  ghost function CleanupExpired(s: State, now: int): (State, nat) {
    var expired := SweptIds(s.entries, now);
    var s1 := RemoveWaiters(s.(now := now, entries := DeleteSwept(s.entries, now)), expired);
    (s1.(waiters := Prune(s1.waiters, s1.acks, s1.messages)), |expired|)
  }

  // ----- Events -----------------------------------------------------------

  /** Everything that can happen to the relay; operations carry the clock readings they make. */
  datatype Event =
    | StoreEvent(id: Id, message: Message, ttl: nat, times: StoreTimes, victims: set<Id>)
    | AckEvent(id: Id, at: int)
    | SubscribeAckEvent(id: Id, at: int, prune: PruneTimes)
    | StoreAndSubscribeEvent(id: Id, message: Message, ttl: nat, before: PruneTimes, times: StoreTimes,
                             victims: set<Id>, subscribedAt: int, after: PruneTimes)
    | GetOrSubscribeEvent(id: Id, at: int, prune: PruneTimes)
    | CleanupEvent(at: int)
    | AckReceiverCloses(receiver: nat)
    | MessageReceiverCloses(receiver: nat)
    | ClockAdvances(now: int, mono: int)

  /** The clocks do not go back, and what is deleted to make room is an oldest acknowledged row. */
  ghost predicate Enabled(s: State, e: Event) {
    match e
    case StoreEvent(id, message, ttl, t, victims) =>
      StoreInOrder(s, t) && (id !in s.entries ==> MemoryVictims(s.entries, s.max, t.sweptAt, victims))
    case AckEvent(id, at) => s.now <= at
    case SubscribeAckEvent(id, at, p) => s.now <= at && PruneInOrder(s, p)
    case StoreAndSubscribeEvent(id, message, ttl, p, t, victims, at, p') =>
      && PruneInOrder(s, p) && StoreInOrder(s, t)
      && (id !in s.entries ==> MemoryVictims(s.entries, s.max, t.sweptAt, victims))
      && t.sweptAt <= at && p.stampedAt <= p'.checkedAt <= p'.stampedAt
    case GetOrSubscribeEvent(id, at, p) => s.now <= at && PruneInOrder(s, p)
    case CleanupEvent(at) => s.now <= at
    case AckReceiverCloses(i) => i < |s.acks|
    case MessageReceiverCloses(i) => i < |s.messages|
    case ClockAdvances(now, mono) => s.now <= now && s.mono <= mono
  }

  ghost function Next(s: State, e: Event): State
    requires Enabled(s, e)
  {
    match e
    case StoreEvent(id, message, ttl, t, victims) => Store(s, id, message, ttl, t, victims).0
    case AckEvent(id, at) => Ack(s, id, at).0
    case SubscribeAckEvent(id, at, p) => SubscribeAck(s, id, at, p).0
    case StoreAndSubscribeEvent(id, message, ttl, p, t, victims, at, p') =>
      StoreAndSubscribeAck(s, id, message, ttl, p, t, victims, at, p').0
    case GetOrSubscribeEvent(id, at, p) => GetOrSubscribe(s, id, at, p).0
    case CleanupEvent(at) => CleanupExpired(s, at).0
    case AckReceiverCloses(i) => s.(acks := s.acks[i := CloseReceiver(s.acks[i])])
    case MessageReceiverCloses(i) => s.(messages := s.messages[i := CloseReceiver(s.messages[i])])
    case ClockAdvances(now, mono) => s.(now := now, mono := mono)
  }
}
