/** A run of the link endpoints that shows why no store may land between a consumer's two steps. */
module LinkInterleaving {
  import opened Types
  import opened Collections
  import opened Entries
  import opened Oneshots
  import opened WaitingListSpec
  import opened WaitingListInvariants
  import opened LinkHandler
  import opened LinkRuns

  const AT := StoreTimes(0, 0, 0)
  const CHECK := PruneTimes(0, 0)
  const FIRST := Message([1], None)
  const SECOND := Message([2], None)

  /** Two producers and a consumer of one ID; the second producer comes between the consumer's two steps. */
  ghost function Interleaved(): seq<Step> {
    [PostEnters("x", FIRST, 10, CHECK, AT, {}, 0, CHECK),
     GetEnters("x", 0, CHECK),
     PostEnters("x", SECOND, 10, CHECK, AT, {}, 0, CHECK),
     GetAcks(1, 0),
     PostWakes(2)]
  }

  ghost function Stored(entries: Table, acks: Cells<()>, accepted: seq<Accepted>, tags: seq<AckTag>): State
    requires |accepted| > 0
  {
    State(1, entries, map[], None, acks, [], 0, 0, History(accepted, map["x" := |accepted| - 1], {}), tags, [], 0)
  }

  const FIRST_ROW := Entry(Some([1]), None, false, 10, 0)
  const SECOND_ROW := Entry(Some([2]), None, false, 10, 0)
  const ACKED_ROW := Entry(None, None, true, 10, 0)
  const ACCEPTED_FIRST := Accepted("x", FIRST, 10)
  const ACCEPTED_SECOND := Accepted("x", SECOND, 10)

  ghost function AfterFirstPost(): State {
    Stored(map["x" := FIRST_ROW], [Pending], [ACCEPTED_FIRST], [AckTag("x", 0)])
      .(waiters := map["x" := Waiters([0], [])])
  }

  ghost function AfterSecondPost(): State {
    Stored(map["x" := SECOND_ROW], [Dropped, Pending],
           [ACCEPTED_FIRST, ACCEPTED_SECOND], [AckTag("x", 0), AckTag("x", 1)])
      .(waiters := map["x" := Waiters([1], [])])
  }

  ghost function AfterAck(): State {
    State(1, map["x" := ACKED_ROW], map[], None, [Dropped, Sent(())], [], 0, 0,
          History([ACCEPTED_FIRST, ACCEPTED_SECOND], map["x" := 1], {1}), [AckTag("x", 0), AckTag("x", 1)], [], 0)
  }

  lemma FirstStore()
    ensures Store(Initial(1, 0, 0), "x", FIRST, 10, AT, {})
      == (Stored(map["x" := FIRST_ROW], [], [ACCEPTED_FIRST], []), InsertOutcome.Stored)
  {
    var s := Initial(1, 0, 0);
    StoreIntoFreeSlot(s);
    FirstInsert();
    var stored := s.(entries := map["x" := FIRST_ROW], history := Remember(s.history, "x", FIRST, 10));
    FirstHistory(s.history);
    NobodyToNotify(stored);
    hide *;
  }

  lemma StoreIntoFreeSlot(s: State)
    requires s.now == 0
    ensures var (entries, outcome) := Insert(s.entries, s.max, "x", FIRST_ROW, 0, {});
      var stored := s.(entries := entries, history := Remember(s.history, "x", FIRST, 10));
      outcome == InsertOutcome.Stored ==>
        Store(s, "x", FIRST, 10, AT, {}) == (NotifyMessageWaiters(stored, "x", FIRST), InsertOutcome.Stored)
  {
    hide Insert, NotifyMessageWaiters, Remember;
    assert Row(FIRST, 10, AT) == FIRST_ROW;
  }

  lemma FirstHistory(h: History)
    requires h == History([], map[], {})
    ensures Remember(h, "x", FIRST, 10) == History([ACCEPTED_FIRST], map["x" := 0], {})
  {
  }

  lemma FirstInsert()
    ensures Insert(map[], 1, "x", FIRST_ROW, 0, {}) == (map["x" := FIRST_ROW], InsertOutcome.Stored)
  {
    var m: Table := map[];
    assert m["x" := FIRST_ROW] == map["x" := FIRST_ROW];
  }

  lemma NobodyToNotify(s: State)
    requires s.waiters == map[]
    ensures NotifyMessageWaiters(s, "x", FIRST) == s
  {
    assert s.waiters - {"x"} == s.waiters;
    assert DropAll(s.acks, Elements([])) == s.acks && SendAll(s.messages, [], FIRST) == s.messages;
  }

  lemma SecondStore()
    ensures Store(AfterFirstPost(), "x", SECOND, 10, AT, {})
      == (Stored(map["x" := SECOND_ROW], [Dropped], [ACCEPTED_FIRST, ACCEPTED_SECOND], [AckTag("x", 0)]),
          InsertOutcome.Stored)
  {
    var s := AfterFirstPost();
    assert s.entries["x" := SECOND_ROW] == map["x" := SECOND_ROW];
    assert s.waiters - {"x"} == map[];
    assert 0 in Elements([0]);
    assert DropAll(s.acks, Elements([0])) == [Dropped];
    assert SendAll(s.messages, [], SECOND) == [];
    assert [ACCEPTED_FIRST] + [ACCEPTED_SECOND] == [ACCEPTED_FIRST, ACCEPTED_SECOND];
    assert s.history.latest["x" := 1] == map["x" := 1];
  }

  /** The state in which a producer of either message is registered. */
  ghost function Subscribed(s: State): State
    requires "x" in s.history.latest
  {
    s.(waiters := map["x" := Waiters([|s.acks|], [])], acks := s.acks + [Pending],
       ackTags := s.ackTags + [AckTag("x", s.history.latest["x"])])
  }

  /** Subscribing right after either store. */
  lemma Subscribe(s: State)
    requires s.max == 1 && s.waiters == map[] && s.now == 0 && s.mono == 0
    requires "x" in s.entries && !s.entries["x"].acked && s.entries["x"].expiresAt == 10
    requires "x" in s.history.latest
    ensures SubscribeAck(s, "x", 0, CHECK) == (Subscribed(s), Ok(|s.acks|))
  {
    assert s.(now := 0).(mono := 0) == s;
    assert RetainOpen([], s.acks) + [|s.acks|] == [|s.acks|];
  }

  lemma PostInParts(s: State, message: Message, stored: State)
    requires EnsureWaiterCapacity(s, "x", CHECK) == (s, true)
    requires Store(s, "x", message, 10, AT, {}) == (stored, InsertOutcome.Stored)
    requires "x" in stored.history.latest
    requires SubscribeAck(stored, "x", 0, CHECK) == (Subscribed(stored), Ok(|stored.acks|))
    ensures StoreAndSubscribeAck(s, "x", message, 10, CHECK, AT, {}, 0, CHECK)
      == (Subscribed(stored), Ok(|stored.acks|))
  {
    hide EnsureWaiterCapacity, Store, SubscribeAck, Subscribed;
  }

  lemma FirstPost()
    ensures StoreAndSubscribeAck(Initial(1, 0, 0), "x", FIRST, 10, CHECK, AT, {}, 0, CHECK) == (AfterFirstPost(), Ok(0))
  {
    FirstStore();
    var s := Stored(map["x" := FIRST_ROW], [], [ACCEPTED_FIRST], []);
    Subscribe(s);
    FirstSubscribed(s);
    FirstCheck();
    hide *;
    PostInParts(Initial(1, 0, 0), FIRST, s);
  }

  lemma FirstSubscribed(s: State)
    requires s == Stored(map["x" := FIRST_ROW], [], [ACCEPTED_FIRST], [])
    ensures "x" in s.history.latest && |s.acks| == 0 && Subscribed(s) == AfterFirstPost()
  {
  }

  lemma FirstCheck()
    ensures EnsureWaiterCapacity(Initial(1, 0, 0), "x", CHECK) == (Initial(1, 0, 0), true)
  {
  }

  lemma SecondPost()
    ensures StoreAndSubscribeAck(AfterFirstPost(), "x", SECOND, 10, CHECK, AT, {}, 0, CHECK)
      == (AfterSecondPost(), Ok(1))
  {
    SecondStore();
    var s := Stored(map["x" := SECOND_ROW], [Dropped], [ACCEPTED_FIRST, ACCEPTED_SECOND], [AckTag("x", 0)]);
    Subscribe(s);
    SecondSubscribed(s);
    SecondCheck();
    hide *;
    PostInParts(AfterFirstPost(), SECOND, s);
  }

  lemma SecondSubscribed(s: State)
    requires s == Stored(map["x" := SECOND_ROW], [Dropped], [ACCEPTED_FIRST, ACCEPTED_SECOND], [AckTag("x", 0)])
    ensures "x" in s.history.latest && |s.acks| == 1 && Subscribed(s) == AfterSecondPost()
  {
  }

  lemma SecondCheck()
    ensures EnsureWaiterCapacity(AfterFirstPost(), "x", CHECK) == (AfterFirstPost(), true)
  {
  }

  lemma AckOfTheSecond()
    ensures Ack(AfterSecondPost(), "x", 0) == (AfterAck(), true)
  {
    var s := AfterSecondPost();
    assert SendAll(s.acks, [1], ()) == [Dropped, Sent(())];
    assert s.waiters - {"x"} == map[];
    assert AckRow(s.entries, "x") == map["x" := ACKED_ROW];
    assert {} + {1} == {1};
  }

  lemma FetchOfTheFirst()
    ensures GetOrSubscribe(AfterFirstPost(), "x", 0, CHECK) == (AfterFirstPost(), Ok(Delivered(FIRST)))
  {
  }

  // ----- The five steps ---------------------------------------------------

  ghost function Systems(): seq<System> {
    [System(Initial(1, 0, 0), []),
     System(AfterFirstPost(), [Posted("x", FIRST, 0, 0)]),
     System(AfterFirstPost(), [Posted("x", FIRST, 0, 0), Holding("x", FIRST, 0)]),
     System(AfterSecondPost(), [Posted("x", FIRST, 0, 0), Holding("x", FIRST, 0), Posted("x", SECOND, 1, 1)]),
     System(AfterAck(), [Posted("x", FIRST, 0, 0), Received("x", FIRST, 0), Posted("x", SECOND, 1, 1)]),
     System(AfterAck(), [Posted("x", FIRST, 0, 0), Received("x", FIRST, 0), Confirmed("x", SECOND, 1)])]
  }

  ghost predicate Leads(k: nat)
    requires k < 5
  {
    Can(Systems()[k], Interleaved()[k]) && Systems()[k + 1] == After(Systems()[k], Interleaved()[k])
  }

  lemma Start()
    ensures Restarted(Systems()[0].relay) && Systems()[0].sessions == []
  {
    InitialIsRestarted(1, 0, 0);
    hide Restarted;
  }

  lemma Step0()
    ensures Leads(0)
  {
    FirstPost();
    hide StoreAndSubscribeAck;
  }

  lemma Step1()
    ensures Leads(1)
  {
    FetchOfTheFirst();
    hide GetOrSubscribe;
  }

  lemma Step2()
    ensures Leads(2)
  {
    SecondPost();
    hide StoreAndSubscribeAck;
  }

  lemma Step3()
    ensures Leads(3)
  {
    AckOfTheSecond();
    hide Ack;
  }

  lemma Step4()
    ensures Leads(4)
  {
  }

  lemma NobodyReceivedTheSecond()
    ensures !AckedWereReceived(Systems()[5], {}, "x")
  {
    assert 1 in Systems()[5].relay.history.acked && Systems()[5].relay.history.accepted[1].id == "x";
    assert !WasReceived(Systems()[5], 1);
  }

  /**
    * With a store in between, a producer can get its 200 although no consumer
    * obtained its message: the consumer that holds the first message
    * acknowledges the second.
    */
  lemma StoreInBetweenBreaksTheHandoff() returns (run: LinkRun)
    ensures IsLinkRun(run) && run.steps == Interleaved()
    ensures run.systems[5].sessions == [Posted("x", FIRST, 0, 0), Received("x", FIRST, 0), Confirmed("x", SECOND, 1)]
    ensures !AckedWereReceived(run.systems[5], {}, "x")
  {
    NobodyReceivedTheSecond();
    Start();
    Step0();
    Step1();
    Step2();
    Step3();
    Step4();
    run := LinkRun(Systems(), Interleaved());
    hide Can, After, AckedWereReceived, Restarted, Initial, AfterFirstPost, AfterSecondPost, AfterAck;
    forall k | 0 <= k < 5
      ensures Leads(k)
    {
    }
  }
}
