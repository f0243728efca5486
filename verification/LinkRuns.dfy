/**
  * Whole runs of the link endpoints, interleaved with everything else on the
  * relay: exactly when a producer's 200 means that its message was received.
  */
module LinkRuns {
  import opened Types
  import opened WaitingListSpec
  import opened WaitingListInvariants
  import opened Tickets
  import opened Runs
  import opened LinkHandler

  /** `systems[k]` is the system before `steps[k]`. */
  datatype LinkRun = LinkRun(systems: seq<System>, steps: seq<Step>)

  ghost predicate Shaped(run: LinkRun) {
    |run.systems| == |run.steps| + 1
  }

  ghost predicate IsLinkRun(run: LinkRun) {
    && Shaped(run)
    && Restarted(run.systems[0].relay) && run.systems[0].sessions == []
    && forall k :: 0 <= k < |run.steps| ==>
         Can(run.systems[k], run.steps[k]) && run.systems[k + 1] == After(run.systems[k], run.steps[k])
  }

  /** A run starts with a relay that just started, and goes on with any step that can be taken. */
  lemma LinkRunsGoOn(s: State, run: LinkRun, step: Step)
    requires IsLinkRun(run) && Can(run.systems[|run.steps|], step)
    ensures Restarted(s) ==> IsLinkRun(LinkRun([System(s, [])], []))
    ensures IsLinkRun(LinkRun(run.systems + [After(run.systems[|run.steps|], step)], run.steps + [step]))
  {
    hide Can, After, Restarted;
    var on := LinkRun(run.systems + [After(run.systems[|run.steps|], step)], run.steps + [step]);
    forall k | 0 <= k < |on.steps|
      ensures Can(on.systems[k], on.steps[k]) && on.systems[k + 1] == After(on.systems[k], on.steps[k])
    {
      if k < |run.steps| {
        assert on.systems[k] == run.systems[k] && on.steps[k] == run.steps[k];
        assert on.systems[k + 1] == run.systems[k + 1];
      }
    }
  }

  lemma {:induction false} SystemsAgree(run: LinkRun, n: nat)
    requires IsLinkRun(run) && n < |run.systems|
    ensures Agrees(run.systems[n])
  {
    hide Can, After, SessionAgrees;
    if n == 0 {
      RestartedInv(run.systems[0].relay);
    } else {
      SystemsAgree(run, n - 1);
      StepKeepsAgreement(run.systems[n - 1], run.steps[n - 1], run.systems[n - 1 + 1]);
    }
  }

  // ----- Growth -----------------------------------------------------------

  lemma StepGrows(sys: System, step: Step, after: System)
    requires Can(sys, step)
    requires after == After(sys, step)
    ensures StateGrows(sys.relay, after.relay) && |sys.sessions| <= |after.sessions|
  {
    hide Next, Enabled;
    match EventOf(sys, step)
    case None =>
    case Some(e) => NextGrows(sys.relay, e, after.relay);
  }

  lemma {:induction false} LinkRunGrows(run: LinkRun, j: nat, k: nat)
    requires IsLinkRun(run) && j <= k < |run.systems|
    ensures StateGrows(run.systems[j].relay, run.systems[k].relay)
    ensures |run.systems[j].sessions| <= |run.systems[k].sessions|
    decreases k
  {
    hide Can, After;
    if j < k {
      LinkRunGrows(run, j, k - 1);
      StepGrows(run.systems[k - 1], run.steps[k - 1], run.systems[k - 1 + 1]);
      GrowsTransitive(run.systems[j].relay, run.systems[k - 1].relay, run.systems[k].relay);
    }
  }

  // ----- Stores of an ID --------------------------------------------------

  /** The step stores a message for `id`, through any endpoint, and the store does not reject it. */
  ghost predicate StoresFor(sys: System, step: Step, id: Id) {
    EventOf(sys, step).Some? && Accepts(sys.relay, EventOf(sys, step).value, id)
  }

  /** No store of `id` lands strictly between steps `j` and `k`. */
  ghost predicate NoStoreBetween(run: LinkRun, j: nat, k: nat, id: Id)
    requires Shaped(run) && k < |run.systems|
  {
    forall i :: j < i < k ==> !StoresFor(run.systems[i], run.steps[i], id)
  }

  ghost function Latest(sys: System, id: Id): Option<nat> {
    if id in sys.relay.history.latest then Some(sys.relay.history.latest[id]) else None
  }

  /** The last message of an ID changes by an accepted store of it and by nothing else. */
  lemma LatestAfterStep(sys: System, step: Step, after: System, id: Id)
    requires Agrees(sys) && Can(sys, step)
    requires after == After(sys, step)
    ensures Latest(after, id) ==
      if StoresFor(sys, step, id) then Some(|sys.relay.history.accepted|) else Latest(sys, id)
  {
    hide Next, Enabled, SessionAgrees, Acknowledges;
    match EventOf(sys, step)
    case None =>
    case Some(e) =>
      var own := if e.StoreEvent? || e.StoreAndSubscribeEvent? || e.AckEvent? then e.id else "";
      HistoryOfAStep(sys.relay, e, after.relay, own);
  }

  /** Over a stretch of a run the last message of an ID, or its having none, stays exactly if no store of it lands. */
  lemma {:induction false} LatestStaysExactly(run: LinkRun, j: nat, k: nat, id: Id)
    requires IsLinkRun(run) && j < k < |run.systems|
    ensures Latest(run.systems[k], id) == Latest(run.systems[j + 1], id) <==> NoStoreBetween(run, j, k, id)
    ensures Latest(run.systems[j + 1], id).Some? ==>
      Latest(run.systems[k], id).Some? && Latest(run.systems[j + 1], id).value <= Latest(run.systems[k], id).value
    decreases k
  {
    hide Can, After, Agrees, StoresFor, Latest;
    if j + 1 < k {
      LatestStaysExactly(run, j, k - 1, id);
      SystemsAgree(run, k - 1);
      LatestAfterStep(run.systems[k - 1], run.steps[k - 1], run.systems[k - 1 + 1], id);
      LatestIsAccepted(run.systems[k - 1], id);
      assert NoStoreBetween(run, j, k, id) <==>
        NoStoreBetween(run, j, k - 1, id) && !StoresFor(run.systems[k - 1], run.steps[k - 1], id);
    }
  }

  lemma LatestIsAccepted(sys: System, id: Id)
    requires Agrees(sys)
    ensures Latest(sys, id).Some? ==> Latest(sys, id).value < |sys.relay.history.accepted|
  {
  }

  // ----- Taking a message -------------------------------------------------

  /** Session `c` of `sys` waits for a message on receiver `r`. */
  ghost predicate ListensFor(sys: System, c: nat, r: nat) {
    c < |sys.sessions| && sys.sessions[c].Listening? && sys.sessions[c].receiver == r
  }

  ghost predicate CellPending(sys: System, r: nat) {
    r < |sys.relay.messages| && sys.relay.messages[r].Pending?
  }

  ghost predicate CellSent(sys: System, r: nat) {
    r < |sys.relay.messages| && sys.relay.messages[r].Sent?
  }

  /** Session `c` finds its message stored as it starts with this step. */
  ghost predicate FindsAt(sys: System, step: Step, after: System, c: nat) {
    step.GetEnters? && c == |sys.sessions| && c < |after.sessions| && after.sessions[c].Holding?
  }

  /** Session `c` waits, and this step sends it its message. */
  ghost predicate IsSentAt(sys: System, after: System, c: nat) {
    && c < |sys.sessions| && sys.sessions[c].Listening?
    && CellPending(sys, sys.sessions[c].receiver) && CellSent(after, sys.sessions[c].receiver)
  }

  /** At step `j` the message that consumer `c` will answer with becomes its own: read under the lock, or sent to it. */
  ghost predicate TakesAt(run: LinkRun, j: nat, c: nat)
    requires Shaped(run) && j < |run.steps|
  {
    || FindsAt(run.systems[j], run.steps[j], run.systems[j + 1], c)
    || IsSentAt(run.systems[j], run.systems[j + 1], c)
  }

  /** A session that waits was waiting before, or is new and so is its receiver. */
  lemma WhereListeningComesFrom(sys: System, step: Step, after: System, c: nat)
    requires Agrees(sys) && Can(sys, step)
    requires after == After(sys, step)
    requires c < |after.sessions| && after.sessions[c].Listening?
    ensures c < |sys.sessions| ==> sys.sessions[c] == after.sessions[c]
    ensures c >= |sys.sessions| ==> CellPending(after, after.sessions[c].receiver)
  {
    hide Enabled, Inv, SessionAgrees;
    if c >= |sys.sessions| && step.GetEnters? {
      NewMessageReceiver(sys.relay, step.id, step.at, step.prune);
    }
    hide GetOrSubscribe, StoreAndSubscribeAck;
  }

  /** A session that holds a message held it before, found it just now, or was sent it and wakes up. */
  lemma WhereHoldingComesFrom(sys: System, step: Step, after: System, c: nat)
    requires Agrees(sys) && Can(sys, step)
    requires after == After(sys, step)
    requires c < |after.sessions| && after.sessions[c].Holding?
    ensures c < |sys.sessions| ==>
      || sys.sessions[c] == after.sessions[c]
      || (step == GetWakes(c) && sys.sessions[c].Listening? && CellSent(sys, sys.sessions[c].receiver)
          && after.sessions[c] == WokenGet(sys.relay, sys.sessions[c]))
    ensures c >= |sys.sessions| ==> FindsAt(sys, step, after, c)
  {
    hide Next, Enabled, Inv, SessionAgrees, GetOrSubscribe, StoreAndSubscribeAck;
  }

  lemma FoundIsLatest(sys: System, step: Step, after: System, c: nat)
    requires Agrees(sys) && Can(sys, step)
    requires after == After(sys, step)
    requires FindsAt(sys, step, after, c)
    ensures Latest(after, after.sessions[c].id) == Some(after.sessions[c].generation)
  {
    hide Next, Enabled, SessionAgrees;
    ReadableIsLatest(sys.relay, step.id, step.at, step.prune);
    LatestAfterStep(sys, step, after, step.id);
    hide Inv, GetOrSubscribe, StoreAndSubscribeAck;
  }

  lemma ReadableIsLatest(s: State, id: Id, at: int, p: PruneTimes)
    requires Inv(s)
    ensures var r := GetOrSubscribe(s, id, at, p).1;
      r.Ok? && r.value.Delivered? ==> id in s.history.latest
  {
  }

  // ----- What a consumer holds is what it took ----------------------------

  /** The first message accepted for an ID stays the first. */
  lemma FirstSinceStable(a: seq<Accepted>, b: seq<Accepted>, id: Id, since: nat)
    requires a <= b && FirstSince(a, id, since).Some?
    ensures FirstSince(b, id, since) == FirstSince(a, id, since)
  {
    FirstSinceIsFirst(a, id, since);
    FirstSinceIsFirst(b, id, since);
    hide FirstSince;
    var g := FirstSince(a, id, since).value;
    assert b[g] == a[g];
  }

  /** The generation a woken consumer takes its message for. */
  ghost function SentGeneration(sys: System, id: Id, r: nat): Option<nat> {
    if r < |sys.relay.messageTags| then
      FirstSince(sys.relay.history.accepted, id, sys.relay.messageTags[r].since)
    else None
  }

  lemma SentGenerationStable(sys: System, after: System, id: Id, r: nat)
    requires StateGrows(sys.relay, after.relay)
    requires SentGeneration(sys, id, r).Some?
    ensures SentGeneration(after, id, r) == SentGeneration(sys, id, r)
  {
    FirstSinceStable(sys.relay.history.accepted, after.relay.history.accepted, id, sys.relay.messageTags[r].since);
    hide FirstSince;
  }

  /** The message a waiting consumer is sent is the one just stored. */
  lemma SentIsLatest(sys: System, step: Step, after: System, id: Id, r: nat)
    requires Agrees(sys) && Can(sys, step)
    requires after == After(sys, step)
    requires r < |sys.relay.messageTags| && sys.relay.messageTags[r].id == id
    requires CellPending(sys, r) && CellSent(after, r)
    ensures Latest(after, id).Some? && SentGeneration(after, id, r) == Latest(after, id)
  {
    hide Next, Enabled, SessionAgrees, FirstSince, Store, EnsureWaiterCapacity;
    var s := sys.relay;
    assert EventOf(sys, step).Some?;
    var e := EventOf(sys, step).value;
    assert MessageTicketAgrees(s.history, s.messages[r], s.messageTags[r]);
    MessageReceiverStep(s, e, after.relay, r);
    HistoryOfAStep(s, e, after.relay, id);
    NextGrows(s, e, after.relay);
    var stored := Accepted(id, e.message, e.times.startedAt + e.ttl);
    FirstSinceAppend(s.history.accepted, stored, id, s.messageTags[r].since);
  }

  /** Where a waiting session whose message is there was sent it, and which generation that was. */
  lemma {:induction false} WhenSent(run: LinkRun, m: nat, c: nat, r: nat) returns (j: nat)
    requires IsLinkRun(run) && m < |run.systems|
    requires ListensFor(run.systems[m], c, r) && CellSent(run.systems[m], r)
    ensures j < m && IsSentAt(run.systems[j], run.systems[j + 1], c)
    ensures var id := run.systems[m].sessions[c].id;
      Latest(run.systems[j + 1], id).Some? && SentGeneration(run.systems[m], id, r) == Latest(run.systems[j + 1], id)
    decreases m
  {
    hide Can, After, Inv, SentGeneration, Latest;
    assert m > 0;
    j := m - 1;
    var sys, step, after := run.systems[j], run.steps[j], run.systems[j + 1];
    SystemsAgree(run, j);
    StepGrows(sys, step, after);
    WhereListeningComesFrom(sys, step, after, c);
    assert SessionAgrees(sys.relay, sys.sessions[c]);
    var id := after.sessions[c].id;
    if CellSent(sys, r) {
      j := WhenSent(run, m - 1, c, r);
      SentGenerationStable(sys, after, id, r);
    } else {
      ListeningCellIsThere(sys, c, r, after);
      SentIsLatest(sys, step, after, id, r);
    }
  }

  lemma ListeningCellIsThere(sys: System, c: nat, r: nat, after: System)
    requires Agrees(sys) && ListensFor(sys, c, r)
    requires StateGrows(sys.relay, after.relay) && CellSent(after, r) && !CellSent(sys, r)
    ensures CellPending(sys, r)
  {
    assert SessionAgrees(sys.relay, sys.sessions[c]);
  }

  /** A consumer that holds a message took it at some earlier step, as the last message of its ID then. */
  lemma {:induction false} WhenTaken(run: LinkRun, k: nat, c: nat) returns (j: nat)
    requires IsLinkRun(run) && k < |run.systems|
    requires c < |run.systems[k].sessions| && run.systems[k].sessions[c].Holding?
    ensures j < k && TakesAt(run, j, c)
    ensures var session := run.systems[k].sessions[c];
      Latest(run.systems[j + 1], session.id) == Some(session.generation)
    decreases k
  {
    hide Can, After, Inv, SentGeneration, Latest;
    assert k > 0;
    j := k - 1;
    var sys, step, after := run.systems[j], run.steps[j], run.systems[j + 1];
    SystemsAgree(run, j);
    WhereHoldingComesFrom(sys, step, after, c);
    if c >= |sys.sessions| {
      FoundIsLatest(sys, step, after, c);
    } else if sys.sessions[c] == after.sessions[c] {
      j := WhenTaken(run, k - 1, c);
    } else {
      var r := sys.sessions[c].receiver;
      j := WhenSent(run, k - 1, c, r);
      WokenGeneration(sys, sys.sessions[c]);
    }
  }

  lemma WokenGeneration(sys: System, session: Session)
    requires session.Listening? && CellSent(sys, session.receiver)
    requires SentGeneration(sys, session.id, session.receiver).Some?
    ensures WokenGet(sys.relay, session).Holding? && WokenGet(sys.relay, session).id == session.id
    ensures Some(WokenGet(sys.relay, session).generation) == SentGeneration(sys, session.id, session.receiver)
  {
  }

  // ----- A message is taken once ------------------------------------------

  /** A session that waits has been waiting, for the same receiver, ever since it is there. */
  lemma {:induction false} ListenedBefore(run: LinkRun, j: nat, k: nat, c: nat)
    requires IsLinkRun(run) && j <= k < |run.systems|
    requires c < |run.systems[j].sessions| && c < |run.systems[k].sessions| && run.systems[k].sessions[c].Listening?
    ensures run.systems[j].sessions[c] == run.systems[k].sessions[c]
    decreases k
  {
    hide Can, After, Inv, SessionAgrees, StateGrows;
    if j < k {
      SystemsAgree(run, k - 1);
      LinkRunGrows(run, j, k - 1);
      WhereListeningComesFrom(run.systems[k - 1], run.steps[k - 1], run.systems[k - 1 + 1], c);
      ListenedBefore(run, j, k - 1, c);
    }
  }

  lemma NotTakenLater(run: LinkRun, j: nat, k: nat, c: nat)
    requires IsLinkRun(run) && j < k < |run.steps|
    requires TakesAt(run, j, c)
    ensures !TakesAt(run, k, c)
  {
    hide Can, After, Inv;
    LinkRunGrows(run, j, j + 1);
    LinkRunGrows(run, j + 1, k);
    if IsSentAt(run.systems[k], run.systems[k + 1], c) {
      ListenedBefore(run, j + 1, k, c);
      if IsSentAt(run.systems[j], run.systems[j + 1], c) {
        ListenedBefore(run, j, k, c);
      }
    }
  }

  lemma TakenOnce(run: LinkRun, j: nat, k: nat, c: nat)
    requires IsLinkRun(run) && j < |run.steps| && k < |run.steps|
    requires TakesAt(run, j, c) && TakesAt(run, k, c)
    ensures j == k
  {
    hide TakesAt, IsLinkRun;
    if j < k {
      NotTakenLater(run, j, k, c);
    } else if k < j {
      NotTakenLater(run, k, j, c);
    }
  }

  /** A consumer acknowledges the very message it took exactly if no store of its ID landed since it took it. */
  lemma AcksWhatItTookExactly(run: LinkRun, j: nat, k: nat)
    requires IsLinkRun(run) && j < k < |run.steps|
    requires run.steps[k].GetAcks? && TakesAt(run, j, run.steps[k].session)
    ensures run.steps[k].session < |run.systems[k].sessions|
    ensures AcksWhatItHolds(run.systems[k], run.steps[k]) <==>
      NoStoreBetween(run, j, k, run.systems[k].sessions[run.steps[k].session].id)
  {
    hide After, Inv, TakesAt, NoStoreBetween;
    var c := run.steps[k].session;
    assert Ready(run.systems[k], run.steps[k]);
    hide Can;
    var taken := WhenTaken(run, k, c);
    TakenOnce(run, j, taken, c);
    LatestStaysExactly(run, j, k, run.systems[k].sessions[c].id);
  }

  // ----- The handoff ------------------------------------------------------

  /** The generations acknowledged before the relay started. */
  ghost function AckedAtStart(run: LinkRun): set<nat>
    requires Shaped(run)
  {
    run.systems[0].relay.history.acked
  }

  /** The guarantee in every system of the run up to `n`: only received messages of `id` were acknowledged. */
  ghost predicate HandoffHolds(run: LinkRun, n: nat, id: Id)
    requires Shaped(run) && n < |run.systems|
  {
    forall k :: 0 <= k <= n ==> AckedWereReceived(run.systems[k], AckedAtStart(run), id)
  }

  /** Step `k` is a consumer's ACK, and no store of `id` landed since that consumer took its message. */
  ghost predicate AcksUndisturbed(run: LinkRun, k: nat, id: Id)
    requires Shaped(run) && k < |run.steps|
  {
    && run.steps[k].GetAcks?
    && forall j :: 0 <= j < k && TakesAt(run, j, run.steps[k].session) ==> NoStoreBetween(run, j, k, id)
  }

  /** Every ACK of `id` before step `n` that takes effect is undisturbed. */
  ghost predicate CleanUpTo(run: LinkRun, n: nat, id: Id)
    requires Shaped(run) && n < |run.systems|
  {
    forall k :: 0 <= k < n && TakesEffect(run.systems[k], run.steps[k], id) ==> AcksUndisturbed(run, k, id)
  }

  lemma EffectOfOwnAck(sys: System, step: Step, id: Id)
    requires Can(sys, step) && TakesEffect(sys, step, id)
    ensures step.GetAcks? ==>
      step.session < |sys.sessions| && sys.sessions[step.session].Holding? && sys.sessions[step.session].id == id
    ensures step.GetAcks? || ForeignAck(step, id)
  {
    hide Enabled;
  }

  /** The condition on the events of a run is the one on the state a step finds. */
  lemma OwnAckExactly(run: LinkRun, k: nat, id: Id)
    requires IsLinkRun(run) && k < |run.steps| && TakesEffect(run.systems[k], run.steps[k], id)
    ensures AcksWhatItHolds(run.systems[k], run.steps[k]) <==> AcksUndisturbed(run, k, id)
  {
    hide After, Inv, TakesAt, NoStoreBetween, TakesEffect, AcksWhatItHolds, Can;
    var sys, step := run.systems[k], run.steps[k];
    if step.GetAcks? {
      EffectOfOwnAck(sys, step, id);
      var taken := WhenTaken(run, k, step.session);
      AcksWhatItTookExactly(run, taken, k);
      forall j | 0 <= j < k && TakesAt(run, j, step.session)
        ensures NoStoreBetween(run, j, k, id) <==> NoStoreBetween(run, taken, k, id)
      {
        TakenOnce(run, j, taken, step.session);
      }
    } else {
      AcksOnlyInGetAcks(sys, step);
    }
  }

  lemma AcksOnlyInGetAcks(sys: System, step: Step)
    ensures AcksWhatItHolds(sys, step) ==> step.GetAcks?
  {
  }

  /**
    * Message by message: when step `k` acknowledges generation `g`, some link
    * consumer has received `g` if and only if the ACK comes from a link
    * consumer, with no store of the ID since that consumer took its message.
    */
  lemma AckedMessageIsReceivedExactly(run: LinkRun, k: nat, id: Id, g: nat)
    requires IsLinkRun(run) && k < |run.steps| && TakesEffect(run.systems[k], run.steps[k], id)
    requires Latest(run.systems[k], id) == Some(g)
    ensures IsAckedFor(run.systems[k + 1].relay.history, id, g) && g !in run.systems[k].relay.history.acked
    ensures WasReceived(run.systems[k + 1], g) <==> AcksUndisturbed(run, k, id)
  {
    hide Can, After, Inv, SessionAgrees, TakesEffect, AcksWhatItHolds, AcksUndisturbed, WasReceived, IsAckedFor;
    SystemsAgree(run, k);
    OwnAckExactly(run, k, id);
    ReceivedByOwnAck(run.systems[k], run.steps[k], run.systems[k + 1], id, g);
  }

  /** One more step: what was received stays so, and the message it acknowledges, if any, decides. */
  lemma HandoffAfterStep(run: LinkRun, k: nat, id: Id)
    requires IsLinkRun(run) && k < |run.steps|
    requires AckedWereReceived(run.systems[k], AckedAtStart(run), id)
    ensures AckedWereReceived(run.systems[k + 1], AckedAtStart(run), id) <==>
      (TakesEffect(run.systems[k], run.steps[k], id) ==> AcksUndisturbed(run, k, id))
  {
    hide Can, After, Inv, SessionAgrees, TakesEffect, AcksUndisturbed, WasReceived, IsAckedFor;
    var sys, step, after := run.systems[k], run.steps[k], run.systems[k + 1];
    SystemsAgree(run, k);
    AckedAfterStep(sys, step, after, id, 0);
    LinkRunGrows(run, 0, k);
    if TakesEffect(sys, step, id) {
      AckedMessageIsReceivedExactly(run, k, id, sys.relay.history.latest[id]);
    }
    forall g: nat | IsAckedFor(after.relay.history, id, g) && g !in AckedAtStart(run)
      ensures || (IsAckedFor(sys.relay.history, id, g) && WasReceived(after, g))
        || (TakesEffect(sys, step, id) && g == sys.relay.history.latest[id])
    {
      AckedAfterStep(sys, step, after, id, g);
      if IsAckedFor(sys.relay.history, id, g) {
        ReceivedStays(sys, step, after, g);
      }
    }
  }

  lemma NothingAckedAtStart(run: LinkRun, id: Id)
    requires IsLinkRun(run)
    ensures AckedWereReceived(run.systems[0], AckedAtStart(run), id)
  {
  }

  /**
    * Exactly when the link endpoint keeps what its 200 promises, for every
    * interleaving with every other request: only received messages of `id` get
    * acknowledged if and only if every ACK of it that takes effect comes from a
    * link consumer, with no store of `id` since that consumer took its message.
    */
  lemma {:induction false} HandoffIsExact(run: LinkRun, n: nat, id: Id)
    requires IsLinkRun(run) && n < |run.systems|
    ensures HandoffHolds(run, n, id) <==> CleanUpTo(run, n, id)
    decreases n
  {
    hide Can, After, Inv, TakesEffect, AckedWereReceived, AcksUndisturbed, AckedAtStart;
    if n == 0 {
      NothingAckedAtStart(run, id);
    } else {
      HandoffIsExact(run, n - 1, id);
      if AckedWereReceived(run.systems[n - 1], AckedAtStart(run), id) {
        HandoffAfterStep(run, n - 1, id);
      }
    }
  }

  // ----- Producers --------------------------------------------------------

  /** A producer's session is about message `g`. */
  ghost predicate IsProducerOf(session: Session, g: nat) {
    (session.Posted? || session.Confirmed?) && session.generation == g
  }

  lemma WhereProducersComeFrom(sys: System, step: Step, after: System, p: nat, g: nat)
    requires Can(sys, step)
    requires after == After(sys, step)
    requires p < |after.sessions| && IsProducerOf(after.sessions[p], g)
    ensures if p < |sys.sessions| then IsProducerOf(sys.sessions[p], g) else g == |sys.relay.history.accepted|
  {
    hide Next, Enabled, GetOrSubscribe, StoreAndSubscribeAck;
  }

  /** Every producer of a run is about a message accepted in that run. */
  lemma {:induction false} ProducersAreNew(run: LinkRun, n: nat, p: nat, g: nat)
    requires IsLinkRun(run) && n < |run.systems|
    requires p < |run.systems[n].sessions| && IsProducerOf(run.systems[n].sessions[p], g)
    ensures |run.systems[0].relay.history.accepted| <= g
    decreases n
  {
    hide Can, After, IsProducerOf, Restarted;
    assert n > 0;
    WhereProducersComeFrom(run.systems[n - 1], run.steps[n - 1], run.systems[n - 1 + 1], p, g);
    LinkRunGrows(run, 0, n - 1);
    if p < |run.systems[n - 1].sessions| {
      ProducersAreNew(run, n - 1, p, g);
    }
  }

  /** If session `p` is a producer of `id` with its 200, some consumer answered with exactly its message. */
  ghost predicate ConfirmedWasReceived(sys: System, p: nat, id: Id)
    requires p < |sys.sessions|
  {
    var c := sys.sessions[p];
    c.Confirmed? && c.id == id ==> Received(c.id, c.message, c.generation) in sys.sessions
  }

  /**
    * The handoff: a producer that got its 200 is preceded by a consumer that
    * answered with exactly that producer's message.
    */
  lemma ConfirmedMeansReceived(run: LinkRun, n: nat, p: nat)
    requires IsLinkRun(run) && n < |run.systems| && p < |run.systems[n].sessions|
    requires run.systems[n].sessions[p].Confirmed? && CleanUpTo(run, n, run.systems[n].sessions[p].id)
    ensures ConfirmedWasReceived(run.systems[n], p, run.systems[n].sessions[p].id)
  {
    hide Can, After, CleanUpTo;
    var sys := run.systems[n];
    var c := sys.sessions[p];
    SystemsAgree(run, n);
    SystemsAgree(run, 0);
    ProducersAreNew(run, n, p, c.generation);
    HandoffIsExact(run, n, c.id);
    assert AckedWereReceived(sys, AckedAtStart(run), c.id);
    assert SessionAgrees(sys.relay, c);
    assert IsAckedFor(sys.relay.history, c.id, c.generation);
    var k :| 0 <= k < |sys.sessions| && sys.sessions[k].Received? && sys.sessions[k].generation == c.generation;
    assert SessionAgrees(sys.relay, sys.sessions[k]);
  }

  /** Before step `n`, no endpoint other than GET on the link acknowledges `id`. */
  ghost predicate NoForeignAck(run: LinkRun, n: nat, id: Id)
    requires Shaped(run) && n < |run.systems|
  {
    forall k :: 0 <= k < n ==> !ForeignAck(run.steps[k], id)
  }

  /** Before step `n`, no store of `id` lands between a consumer's taking its message and its ACK. */
  ghost predicate NoStoreWhileHolding(run: LinkRun, n: nat, id: Id)
    requires Shaped(run) && n < |run.systems|
  {
    forall j, k :: 0 <= j < k < n && AcksFor(run, k, id) && TakesAt(run, j, run.steps[k].session) ==>
      NoStoreBetween(run, j, k, id)
  }

  /** Step `k` is a consumer's ACK of `id`, whether or not it takes effect. */
  ghost predicate AcksFor(run: LinkRun, k: nat, id: Id)
    requires Shaped(run) && k < |run.steps|
  {
    && run.steps[k].GetAcks? && run.steps[k].session < |run.systems[k].sessions|
    && run.systems[k].sessions[run.steps[k].session].Holding?
    && run.systems[k].sessions[run.steps[k].session].id == id
  }

  /**
    * The documented use: an ID acknowledged through the link endpoint only, and
    * no store of it between a consumer's two steps. Then only received messages
    * are acknowledged, and each confirmed producer has its consumer.
    */
  lemma LinkOnlyHandoff(run: LinkRun, n: nat, id: Id)
    requires IsLinkRun(run) && n < |run.systems|
    requires NoForeignAck(run, n, id) && NoStoreWhileHolding(run, n, id)
    ensures CleanUpTo(run, n, id) && HandoffHolds(run, n, id)
    ensures forall p :: 0 <= p < |run.systems[n].sessions| ==> ConfirmedWasReceived(run.systems[n], p, id)
  {
    hide Can, After, TakesEffect, TakesAt, NoStoreBetween, HandoffHolds;
    forall k | 0 <= k < n && TakesEffect(run.systems[k], run.steps[k], id)
      ensures AcksUndisturbed(run, k, id)
    {
      EffectOfOwnAck(run.systems[k], run.steps[k], id);
      assert AcksFor(run, k, id);
    }
    HandoffIsExact(run, n, id);
    forall p | 0 <= p < |run.systems[n].sessions|
      ensures ConfirmedWasReceived(run.systems[n], p, id)
    {
      if run.systems[n].sessions[p].Confirmed? && run.systems[n].sessions[p].id == id {
        ConfirmedMeansReceived(run, n, p);
      }
    }
  }
}
