/**
  * What each step of a link request leads to, with the codes the endpoints
  * answer, and that a consumer's ACK does reach the producer of its message.
  */
module LinkAnswers {
  import opened Types
  import opened Oneshots
  import opened WaitingListSpec
  import opened WaitingListInvariants
  import opened Answers
  import opened LinkHandler

  /** What a consumer's first step leads to. */
  lemma GetEntersExactly(sys: System, step: Step, after: System)
    requires Agrees(sys) && Can(sys, step) && step.GetEnters?
    requires after == After(sys, step)
    ensures |after.sessions| == |sys.sessions| + 1 && after.sessions[..|sys.sessions|] == sys.sessions
    ensures var s, id, session := sys.relay, step.id, after.sessions[|sys.sessions|];
      var there := id in s.entries && s.entries[id].body.Some? && step.at < s.entries[id].expiresAt;
      var refused := TenConsumersWait(s, id) || TurnsAway(s, id, step.prune.checkedAt);
      && (there ==>
            && id in s.history.latest
            && session.Holding? && session.id == id && session.generation == s.history.latest[id]
            && session.message == Message(s.entries[id].body.value, s.entries[id].contentType))
      && (!there && refused ==> session == Failed(503))
      && (!there && !refused ==>
            session == Listening(id, |s.messages|) && after.relay.messages == s.messages + [Pending])
  {
    hide SessionAgrees, Inv, GetOrSubscribe, StoreAndSubscribeAck, TenConsumersWait, TurnsAway;
    var (s', r) := GetOrSubscribe(sys.relay, step.id, step.at, step.prune);
    PollIsExact(sys.relay, step.id, step.at, step.prune, s', r);
    RowsHaveMessages(sys.relay, step.id);
  }

  lemma RowsHaveMessages(s: State, id: Id)
    requires Inv(s)
    ensures id in s.entries ==> id in s.history.latest
  {
  }

  /** What a producer's step leads to. */
  lemma PostEntersExactly(sys: System, step: Step, after: System)
    requires Agrees(sys) && Can(sys, step) && step.PostEnters?
    requires after == After(sys, step)
    ensures |after.sessions| == |sys.sessions| + 1 && after.sessions[..|sys.sessions|] == sys.sessions
    ensures var s, id, session := sys.relay, step.id, after.sessions[|sys.sessions|];
      var away := TurnsAway(s, id, step.before.checkedAt);
      var full := id !in s.entries && FullOfMessages(s, step.times.sweptAt);
      var inTime := step.subscribedAt < step.times.startedAt + step.ttl;
      && (session == Failed(503) <==> away || full)
      && (session == Failed(404) <==> !away && !full && !inTime)
      && (session == Posted(id, step.message, |s.history.accepted|, |s.acks|) <==> !away && !full && inTime)
  {
    hide Enabled, SessionAgrees, Inv, GetOrSubscribe, StoreAndSubscribeAck, TurnsAway;
    var e := EventOf(sys, step).value;
    var (s', r) :=
      StoreAndSubscribeAck(sys.relay, e.id, e.message, e.ttl, e.before, e.times, e.victims, e.subscribedAt, e.after);
    ProducerIsAdmittedExactly(sys.relay, e, s', r);
  }

  /** What the other steps of a request lead to. */
  lemma WaitsEndExactly(sys: System, step: Step, after: System)
    requires Agrees(sys) && Can(sys, step)
    requires step.GetWakes? || step.PostWakes? || step.GetAcks? || step.GivesUp?
    requires after == After(sys, step)
    ensures step.session < |sys.sessions| == |after.sessions|
    ensures var before, now := sys.sessions[step.session], after.sessions[step.session];
      && (step.GetWakes? ==>
            && before.Listening? && before.receiver < |sys.relay.messages|
            && match sys.relay.messages[before.receiver]
               case Sent(m) => now.Holding? && now.id == before.id && now.message == m
               case _ => sys.relay.messages[before.receiver] == Dropped && now == Failed(404))
      && (step.PostWakes? ==>
            && before.Posted? && before.receiver < |sys.relay.acks|
            && match sys.relay.acks[before.receiver]
               case Sent(_) => now == Confirmed(before.id, before.message, before.generation)
               case _ => sys.relay.acks[before.receiver] == Dropped && now == Failed(404))
      && (step.GetAcks? ==> before.Holding? && now == Received(before.id, before.message, before.generation))
      && (step.GivesUp? ==> now == Failed(408))
    ensures forall k :: 0 <= k < |sys.sessions| && k != step.session ==> after.sessions[k] == sys.sessions[k]
  {
    hide Next, Enabled, SessionAgrees, Inv;
  }

  /** What those steps do to the relay: nothing, an ACK, or a receiver that closes. */
  lemma RelayAfterWait(sys: System, step: Step, after: System)
    requires Can(sys, step)
    requires step.GetWakes? || step.PostWakes? || step.GetAcks? || step.GivesUp?
    requires after == After(sys, step)
    ensures step.session < |sys.sessions|
    ensures var before := sys.sessions[step.session];
      && (step.GetWakes? || step.PostWakes? ==> after.relay == sys.relay)
      && (step.GetAcks? ==> after.relay == Ack(sys.relay, before.id, step.at).0)
      && (step.GivesUp? && before.Listening? ==>
            && before.receiver < |sys.relay.messages|
            && after.relay == sys.relay.(messages := Hangup(sys.relay.messages, before.receiver)))
      && (step.GivesUp? && before.Posted? ==>
            && before.receiver < |sys.relay.acks|
            && after.relay == sys.relay.(acks := Hangup(sys.relay.acks, before.receiver)))
  {
    hide Ack;
  }

  /** The cells once the client of receiver `r` is gone; a result that is already there stays. */
  ghost function Hangup<T>(cells: Cells<T>, r: nat): Cells<T>
    requires r < |cells|
  {
    if cells[r].Pending? then cells[r := Closed] else cells
  }

  /** No step of a request waits for anything but its own turn and the clocks. */
  lemma StepsArePossible(sys: System, k: nat, at: int, id: Id, p: PruneTimes)
    requires Agrees(sys)
    requires sys.relay.now <= at && sys.relay.mono <= p.checkedAt <= p.stampedAt
    ensures Can(sys, GetEnters(id, at, p))
    ensures k < |sys.sessions| && sys.sessions[k].Holding? ==> Can(sys, GetAcks(k, at)) && Can(sys, GivesUp(k))
    ensures k < |sys.sessions| && sys.sessions[k].Listening? ==>
      var r := sys.sessions[k].receiver;
      && r < |sys.relay.messages| && Can(sys, GivesUp(k))
      && (sys.relay.messages[r].Sent? || sys.relay.messages[r] == Dropped ==> Can(sys, GetWakes(k)))
    ensures k < |sys.sessions| && sys.sessions[k].Posted? ==>
      var r := sys.sessions[k].receiver;
      && r < |sys.relay.acks| && Can(sys, GivesUp(k))
      && (sys.relay.acks[r].Sent? || sys.relay.acks[r] == Dropped ==> Can(sys, PostWakes(k)))
  {
    hide Can, Inv, SessionAgrees;
    CanEnter(sys, id, at, p);
    if k < |sys.sessions| {
      SessionHasItsCell(sys, k);
      if sys.sessions[k].Holding? {
        CanAck(sys, k, at);
      }
      CanGiveUp(sys, k);
      CanWake(sys, k);
    }
  }

  lemma CanEnter(sys: System, id: Id, at: int, p: PruneTimes)
    requires sys.relay.now <= at && sys.relay.mono <= p.checkedAt <= p.stampedAt
    ensures Can(sys, GetEnters(id, at, p))
  {
  }

  lemma CanAck(sys: System, k: nat, at: int)
    requires k < |sys.sessions| && sys.sessions[k].Holding? && sys.relay.now <= at
    ensures Can(sys, GetAcks(k, at))
  {
  }

  lemma CanGiveUp(sys: System, k: nat)
    requires k < |sys.sessions|
    requires sys.sessions[k].Listening? ==> sys.sessions[k].receiver < |sys.relay.messages|
    requires sys.sessions[k].Posted? ==> sys.sessions[k].receiver < |sys.relay.acks|
    ensures sys.sessions[k].Holding? || sys.sessions[k].Listening? || sys.sessions[k].Posted? ==> Can(sys, GivesUp(k))
  {
  }

  lemma CanWake(sys: System, k: nat)
    requires k < |sys.sessions|
    ensures sys.sessions[k].Listening? && sys.sessions[k].receiver < |sys.relay.messages| ==>
      var cell := sys.relay.messages[sys.sessions[k].receiver];
      cell.Sent? || cell == Dropped ==> Can(sys, GetWakes(k))
    ensures sys.sessions[k].Posted? && sys.sessions[k].receiver < |sys.relay.acks| ==>
      var cell := sys.relay.acks[sys.sessions[k].receiver];
      cell.Sent? || cell == Dropped ==> Can(sys, PostWakes(k))
  {
  }

  lemma SessionHasItsCell(sys: System, k: nat)
    requires Agrees(sys) && k < |sys.sessions|
    ensures sys.sessions[k].Listening? ==> sys.sessions[k].receiver < |sys.relay.messages|
    ensures sys.sessions[k].Posted? ==> sys.sessions[k].receiver < |sys.relay.acks|
  {
    assert SessionAgrees(sys.relay, sys.sessions[k]);
  }

  /** Session `p` is a producer of `id` that still waits. */
  ghost predicate StillPosted(sys: System, p: nat, id: Id) {
    && p < |sys.sessions| && sys.sessions[p].Posted? && sys.sessions[p].id == id
    && sys.sessions[p].receiver < |sys.relay.acks| && sys.relay.acks[sys.sessions[p].receiver] == Pending
  }

  /** Session `p` is a producer whose ACK is there. */
  ghost predicate IsTold(sys: System, p: nat) {
    && p < |sys.sessions| && sys.sessions[p].Posted?
    && sys.sessions[p].receiver < |sys.relay.acks| && sys.relay.acks[sys.sessions[p].receiver] == Sent(())
  }

  /**
    * The positive half of the handoff: when a consumer acknowledges an
    * unexpired message nobody acknowledged before, every producer still waiting
    * for that message is told.
    */
  lemma AckReachesItsProducer(sys: System, step: Step, after: System, id: Id, p: nat)
    requires Agrees(sys) && Can(sys, step) && step.GetAcks? && sys.sessions[step.session].id == id
    requires after == After(sys, step)
    requires id in sys.relay.entries && step.at < sys.relay.entries[id].expiresAt && !sys.relay.entries[id].acked
    requires StillPosted(sys, p, id)
    ensures IsTold(after, p) && after.sessions[p] == sys.sessions[p]
  {
    WaitsEndExactly(sys, step, after);
    RelayAfterWait(sys, step, after);
    hide Next, Enabled, Can, After, Ack;
    var s, r := sys.relay, sys.sessions[p].receiver;
    PostedTag(sys, p);
    PendingIsRegistered(s, r);
    var (s', found) := Ack(s, id, step.at);
    AckIsExact(s, id, step.at, s', found);
    hide Inv, SessionAgrees;
  }

  lemma PostedTag(sys: System, p: nat)
    requires Agrees(sys) && p < |sys.sessions| && sys.sessions[p].Posted?
    ensures var posted := sys.sessions[p];
      posted.receiver < |sys.relay.ackTags| && sys.relay.ackTags[posted.receiver].id == posted.id
  {
    assert SessionAgrees(sys.relay, sys.sessions[p]);
  }

  /** A producer that was told can always take its next step, and that is its 200. */
  lemma ToldProducerIsConfirmed(sys: System, p: nat)
    requires IsTold(sys, p)
    ensures Can(sys, PostWakes(p))
    ensures After(sys, PostWakes(p)).sessions[p] ==
      Confirmed(sys.sessions[p].id, sys.sessions[p].message, sys.sessions[p].generation)
  {
    hide Next, Enabled;
  }

  lemma PendingIsRegistered(s: State, r: nat)
    requires Inv(s) && r < |s.acks| && s.acks[r] == Pending
    ensures r < |s.ackTags| && s.ackTags[r].id in s.waiters && r in s.waiters[s.ackTags[r].id].acks
  {
    assert AckWaits(s.waiters, s.ackTags[r].id, r);
  }
}
