/**
  * The two backends follow the same capacity rules. Both are read as relations
  * between states, so every way of breaking ties on equal `createdAt` is
  * covered on both sides.
  */
module Backends {
  import opened Types
  import opened Collections
  import opened Entries

  datatype Backend = Memory | Sqlite

  ghost predicate Victims(b: Backend, m: Table, max: nat, now: int, victims: set<Id>) {
    match b
    case Memory => MemoryVictims(m, max, now, victims)
    case Sqlite => SqliteVictims(m, max, now, victims)
  }

  /** Some way of making room in `m` ends with the rows `room` and the answer `ok`. */
  ghost predicate CanMakeRoom(b: Backend, m: Table, max: nat, now: int, room: Table, ok: bool) {
    exists victims :: Victims(b, m, max, now, victims) && MakeRoom(m, max, now, victims) == (room, ok)
  }

  datatype Operation =
    | InsertOp(id: Id, body: seq<byte>, contentType: Option<string>, expiresAt: int, createdAt: int, sweptAt: int)
    | GetOp(id: Id)
    | AckOp(id: Id)
    | CleanupOp(now: int)
    | CountOp

  datatype Answer =
    | Inserted(outcome: InsertOutcome)
    | Found(entry: Option<StoredEntry>)
    | Acknowledged(found: bool)
    | CleanedUp(ids: set<Id>)
    | Counted(count: nat)

  /** One call of a repository method. */
  ghost predicate Step(b: Backend, max: nat, m: Table, op: Operation, after: Table, answer: Answer) {
    match op
    case InsertOp(id, body, contentType, expiresAt, createdAt, sweptAt) =>
      answer.Inserted? &&
      exists victims :: (id !in m ==> Victims(b, m, max, sweptAt, victims)) &&
        Insert(m, max, id, NewRow(body, contentType, expiresAt, createdAt), sweptAt, victims) == (after, answer.outcome)
    case GetOp(id) => after == m && answer == Found(Lookup(m, id))
    case AckOp(id) => after == AckRow(m, id) && answer == Acknowledged(id in m)
    case CleanupOp(now) => after == DeleteSwept(m, now) && answer == CleanedUp(SweptIds(m, now))
    case CountOp => after == m && answer == Counted(|m|)
  }

  /** A run of a repository: `states[i]` is the table before `ops[i]`, `answers[i]` what that call returns. */
  ghost predicate IsRun(b: Backend, max: nat, ops: seq<Operation>, states: seq<Table>, answers: seq<Answer>) {
    && |states| == |ops| + 1 && |answers| == |ops|
    && forall i :: 0 <= i < |ops| ==> Step(b, max, states[i], ops[i], states[i + 1], answers[i])
  }

  /** A run starts with any table and goes on with any step. */
  lemma RepositoryRunsGoOn(
      b: Backend, max: nat, m: Table, ops: seq<Operation>, states: seq<Table>, answers: seq<Answer>,
      op: Operation, after: Table, answer: Answer)
    requires IsRun(b, max, ops, states, answers) && Step(b, max, states[|ops|], op, after, answer)
    ensures IsRun(b, max, [], [m], [])
    ensures IsRun(b, max, ops + [op], states + [after], answers + [answer])
  {
    hide Step;
  }

  lemma SameVictimsWithinLimit(m: Table, max: nat, now: int, victims: set<Id>)
    requires |m| <= max
    ensures Victims(Memory, m, max, now, victims) <==> Victims(Sqlite, m, max, now, victims)
  {
    FullStoreLosesARow(m, max, now);
  }

  lemma SameStepWithinLimit(max: nat, m: Table, op: Operation, after: Table, answer: Answer)
    requires |m| <= max
    ensures Step(Memory, max, m, op, after, answer) <==> Step(Sqlite, max, m, op, after, answer)
  {
    if op.InsertOp? {
      forall victims
        ensures Victims(Memory, m, max, op.sweptAt, victims) <==> Victims(Sqlite, m, max, op.sweptAt, victims)
      {
        SameVictimsWithinLimit(m, max, op.sweptAt, victims);
      }
    }
  }

  lemma StepKeepsLimit(max: nat, m: Table, op: Operation, after: Table, answer: Answer)
    requires |m| <= max
    requires Step(Memory, max, m, op, after, answer)
    ensures |after| <= max
  {
    match op
    case InsertOp(id, body, contentType, expiresAt, createdAt, sweptAt) =>
      var row := NewRow(body, contentType, expiresAt, createdAt);
      var victims :| (id !in m ==> Victims(Memory, m, max, sweptAt, victims)) &&
        Insert(m, max, id, row, sweptAt, victims) == (after, answer.outcome);
      InsertExact(m, max, id, row, sweptAt, victims);
    case AckOp(id) =>
      if id in m {
        UpdateCardinality(m, id, after[id]);
      }
    case CleanupOp(now) =>
      DeleteSweptFacts(m, now);
    case _ =>
  }

  lemma {:induction false} RunKeepsLimit(
      b: Backend, max: nat, ops: seq<Operation>, states: seq<Table>, answers: seq<Answer>, i: nat)
    requires IsRun(b, max, ops, states, answers)
    requires |states[0]| <= max
    requires i < |states|
    ensures |states[i]| <= max
  {
    if i > 0 {
      RunKeepsLimit(b, max, ops, states, answers, i - 1);
      assert Step(b, max, states[i - 1], ops[i - 1], states[i - 1 + 1], answers[i - 1]);
      SameStepWithinLimit(max, states[i - 1], ops[i - 1], states[i], answers[i - 1]);
      StepKeepsLimit(max, states[i - 1], ops[i - 1], states[i], answers[i - 1]);
    }
  }

  /**
    * Refinement both ways: from a table within the limit (an empty one in
    * particular), the runs of the two backends are the same runs, states and
    * answers alike, whatever the operations and the clock readings are.
    */
  lemma BackendsHaveTheSameRuns(max: nat, ops: seq<Operation>, states: seq<Table>, answers: seq<Answer>)
    requires |states| > 0 && |states[0]| <= max
    ensures IsRun(Memory, max, ops, states, answers) <==> IsRun(Sqlite, max, ops, states, answers)
  {
    forall b | b == Memory || b == Sqlite
      ensures IsRun(b, max, ops, states, answers) ==>
        IsRun(Memory, max, ops, states, answers) && IsRun(Sqlite, max, ops, states, answers)
    {
      if IsRun(b, max, ops, states, answers) {
        forall i | 0 <= i < |ops|
          ensures Step(Memory, max, states[i], ops[i], states[i + 1], answers[i])
          ensures Step(Sqlite, max, states[i], ops[i], states[i + 1], answers[i])
        {
          RunKeepsLimit(b, max, ops, states, answers, i);
          SameStepWithinLimit(max, states[i], ops[i], states[i + 1], answers[i]);
        }
      }
    }
  }

  // ----- Over the limit ---------------------------------------------------

  /** The counts after which the two ways of making room can no longer differ. */
  ghost predicate SameCapacityRule(m: Table, max: nat, now: int) {
    |m| <= max || |DeleteSwept(m, now)| <= max || |AckedIds(DeleteSwept(m, now))| <= 1
  }

  lemma VictimsExist(b: Backend, m: Table, max: nat, now: int) returns (victims: set<Id>)
    ensures Victims(b, m, max, now, victims)
  {
    var left := |DeleteSwept(m, now)|;
    victims := VictimsOf(m, max, now, if b == Sqlite && left >= max then left + 1 - max else 1);
  }

  lemma SameVictimsUnderSameRule(m: Table, max: nat, now: int, victims: set<Id>)
    requires SameCapacityRule(m, max, now)
    ensures Victims(Memory, m, max, now, victims) <==> Victims(Sqlite, m, max, now, victims)
  {
    DeleteSweptFacts(m, now);
    if NeedsVictims(m, max, now) && |m| <= max {
      FullStoreLosesARow(m, max, now);
    }
  }

  lemma OnlyMemoryCan(m: Table, max: nat, now: int) returns (room: Table, ok: bool)
    requires !SameCapacityRule(m, max, now)
    ensures CanMakeRoom(Memory, m, max, now, room, ok) && !CanMakeRoom(Sqlite, m, max, now, room, ok)
  {
    DeleteSweptFacts(m, now);
    var m1 := DeleteSwept(m, now);
    var one := VictimsExist(Memory, m, max, now);
    RemoveKeysCardinality(m1, one);
    hide DeleteSwept;
    room, ok := m1 - one, |m1 - one| < max;
    forall several | Victims(Sqlite, m, max, now, several)
      ensures m1 - several != room
    {
      RemoveKeysCardinality(m1, several);
    }
  }

  /**
    * Exactly when the claim of equal capacity rules holds for a table of any
    * size: not if, after expiry, it is over the limit with two acknowledged rows
    * or more, because SQLite then deletes several rows where HashMap deletes one.
    */
  lemma CapacityRulesAgreeExactly(m: Table, max: nat, now: int)
    ensures SameCapacityRule(m, max, now) <==>
      forall room, ok :: CanMakeRoom(Memory, m, max, now, room, ok) <==> CanMakeRoom(Sqlite, m, max, now, room, ok)
  {
    if SameCapacityRule(m, max, now) {
      forall victims
        ensures Victims(Memory, m, max, now, victims) <==> Victims(Sqlite, m, max, now, victims)
      {
        SameVictimsUnderSameRule(m, max, now, victims);
      }
    } else {
      var room, ok := OnlyMemoryCan(m, max, now);
    }
  }

  /** Two acknowledged rows that have not expired. */
  const OVERFULL: Table := map[
    "a" := Entry(None, None, true, 10, 0),
    "b" := Entry(None, None, true, 10, 0)]

  /** A table over the limit the rules differ on: the HashMap rule rejects a new ID where the SQLite rule finds room. */
  lemma RulesDifferOverTheLimit(victims: set<Id>)
    ensures !SameCapacityRule(OVERFULL, 1, 0)
    ensures Victims(Memory, OVERFULL, 1, 0, victims) ==> !MakeRoom(OVERFULL, 1, 0, victims).1
    ensures Victims(Sqlite, OVERFULL, 1, 0, victims) ==> MakeRoom(OVERFULL, 1, 0, victims).1
  {
    OverfullFacts();
    hide DeleteSwept, AckedIds;
    if victims <= OVERFULL.Keys {
      RemoveKeysCardinality(OVERFULL, victims);
    }
  }

  lemma OverfullFacts()
    ensures |OVERFULL| == 2 && OVERFULL.Keys == {"a", "b"}
    ensures DeleteSwept(OVERFULL, 0) == OVERFULL
    ensures AckedIds(OVERFULL) == {"a", "b"} && |AckedIds(OVERFULL)| == 2
  {
    assert SweptIds(OVERFULL, 0) == {};
    assert AckedIds(OVERFULL) == OVERFULL.Keys;
  }
}
