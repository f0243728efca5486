/**
  * A database file outlives the relay: rows are there when it starts, and its
  * limit may have been lowered since. What one file keeps over all its
  * operations, and how a relay that starts over it joins the theorems on runs.
  */
module Restarts {
  import opened Types
  import opened Collections
  import opened Entries
  import opened Persistence
  import opened Backends
  import opened WaitingListSpec
  import opened WaitingListInvariants
  import opened Runs

  // ----- The life of a database file --------------------------------------

  /** `states[i]` is the table before `ops[i]`, which runs in a process started with `limits[i]`. */
  datatype Life = Life(limits: seq<nat>, ops: seq<Operation>, states: seq<Table>, answers: seq<Answer>)

  ghost predicate IsLife(life: Life) {
    && |life.limits| == |life.answers| == |life.ops| && |life.states| == |life.ops| + 1
    && forall i :: 0 <= i < |life.ops| ==>
         Backends.Step(Sqlite, life.limits[i], life.states[i], life.ops[i], life.states[i + 1], life.answers[i])
  }

  /** A file starts with any table, and goes on with any step of the repository under any limit. */
  lemma LivesGoOn(m: Table, life: Life, limit: nat, op: Operation, after: Table, answer: Answer)
    requires IsLife(life) && Backends.Step(Sqlite, limit, life.states[|life.ops|], op, after, answer)
    ensures IsLife(Life([], [], [m], []))
    ensures IsLife(Life(life.limits + [limit], life.ops + [op], life.states + [after], life.answers + [answer]))
  {
    hide Backends.Step;
  }

  lemma LifeStep(life: Life, i: nat)
    requires IsLife(life) && i < |life.ops|
    ensures Backends.Step(Sqlite, life.limits[i], life.states[i], life.ops[i], life.states[i + 1], life.answers[i])
  {
    hide Backends.Step;
  }

  /** The operation neither stores `id` nor acknowledges it. */
  predicate Spares(op: Operation, id: Id) {
    op.InsertOp? || op.AckOp? ==> op.id != id
  }

  /** No deletion in the operation happens after `expiresAt`. */
  predicate SweepsBy(op: Operation, expiresAt: int) {
    match op
    case InsertOp(_, _, _, _, _, sweptAt) => sweptAt <= expiresAt
    case CleanupOp(now) => now <= expiresAt
    case _ => true
  }

  lemma InsertKeepsMessage(m: Table, max: nat, id: Id, row: Entry, now: int, victims: set<Id>, j: Id)
    requires id !in m ==> SqliteVictims(m, max, now, victims)
    requires j != id && j in UndeliveredIds(m, now)
    ensures j in Insert(m, max, id, row, now, victims).0
    ensures Insert(m, max, id, row, now, victims).0[j] == m[j]
  {
    if id !in m {
      NeverLosesAMessage(m, max, now, victims);
    }
  }

  lemma StepKeepsMessage(max: nat, m: Table, op: Operation, after: Table, answer: Answer, id: Id)
    requires Backends.Step(Sqlite, max, m, op, after, answer)
    requires id in m && !m[id].acked && Spares(op, id) && SweepsBy(op, m[id].expiresAt)
    ensures id in after && after[id] == m[id]
  {
    match op
    case InsertOp(j, body, contentType, expiresAt, createdAt, sweptAt) =>
      var row := NewRow(body, contentType, expiresAt, createdAt);
      var victims :| (j !in m ==> Victims(Sqlite, m, max, sweptAt, victims)) &&
        Insert(m, max, j, row, sweptAt, victims) == (after, answer.outcome);
      InsertKeepsMessage(m, max, j, row, sweptAt, victims, id);
    case _ =>
  }

  lemma {:induction false} LifeKeepsMessage(life: Life, k: nat, n: nat, id: Id)
    requires IsLife(life) && k <= n < |life.states|
    requires id in life.states[k] && !life.states[k][id].acked
    requires forall i :: k <= i < n ==>
      Spares(life.ops[i], id) && SweepsBy(life.ops[i], life.states[k][id].expiresAt)
    ensures id in life.states[n] && life.states[n][id] == life.states[k][id]
    decreases n
  {
    hide Backends.Step;
    if k < n {
      LifeKeepsMessage(life, k, n - 1, id);
      LifeStep(life, n - 1);
      StepKeepsMessage(life.limits[n - 1], life.states[n - 1], life.ops[n - 1],
        life.states[n], life.answers[n - 1], id);
    }
  }

  lemma StoredRow(max: nat, m: Table, op: Operation, after: Table, answer: Answer)
    requires Backends.Step(Sqlite, max, m, op, after, answer)
    requires op.InsertOp? && answer == Inserted(InsertOutcome.Stored)
    ensures op.id in after && after[op.id] == NewRow(op.body, op.contentType, op.expiresAt, op.createdAt)
  {
  }

  /**
    * A message the SQLite repository accepted is what readers find until it
    * expires, from whatever table, through any operations on other IDs and any
    * restarts, also under lower limits, unless its ID is stored again or
    * acknowledged.
    */
  lemma AcceptedMessageSurvivesRestarts(life: Life, k: nat, n: nat, t: int)
    requires IsLife(life) && k < n < |life.states|
    requires life.ops[k].InsertOp? && life.answers[k] == Inserted(InsertOutcome.Stored)
    requires forall i :: k < i < n ==>
      Spares(life.ops[i], life.ops[k].id) && SweepsBy(life.ops[i], life.ops[k].expiresAt)
    requires t < life.ops[k].expiresAt
    ensures Readable(life.states[n], life.ops[k].id, t) == Some(Message(life.ops[k].body, life.ops[k].contentType))
    ensures IsAcked(life.states[n], life.ops[k].id, t) == Some(false)
  {
    LifeStep(life, k);
    StoredRow(life.limits[k], life.states[k], life.ops[k], life.states[k + 1], life.answers[k]);
    LifeKeepsMessage(life, k + 1, n, life.ops[k].id);
  }

  // ----- The number of rows -----------------------------------------------

  lemma InsertKeepsBound(m: Table, max: nat, id: Id, row: Entry, now: int, victims: set<Id>, bound: nat)
    requires id !in m ==> SqliteVictims(m, max, now, victims)
    requires |m| <= bound && max <= bound
    ensures |Insert(m, max, id, row, now, victims).0| <= bound
  {
    if id in m {
      UpdateCardinality(m, id, row);
    } else {
      var (room, ok) := MakeRoom(m, max, now, victims);
      NeverLosesAMessage(m, max, now, victims);
      SubmapCardinality(room, m);
      UpdateCardinality(room, id, row);
      RoomIsBelowLimit(m, max, now, victims);
    }
    hide MakeRoom, SqliteVictims;
  }

  lemma RoomIsBelowLimit(m: Table, max: nat, now: int, victims: set<Id>)
    ensures MakeRoom(m, max, now, victims).1 ==> |MakeRoom(m, max, now, victims).0| < max
  {
  }

  lemma StepKeepsBound(max: nat, m: Table, op: Operation, after: Table, answer: Answer, bound: nat)
    requires Backends.Step(Sqlite, max, m, op, after, answer)
    requires |m| <= bound && max <= bound
    ensures |after| <= bound
  {
    hide Insert, SqliteVictims, DeleteSwept;
    match op
    case InsertOp(id, body, contentType, expiresAt, createdAt, sweptAt) =>
      var row := NewRow(body, contentType, expiresAt, createdAt);
      var victims :| (id !in m ==> Victims(Sqlite, m, max, sweptAt, victims)) &&
        Insert(m, max, id, row, sweptAt, victims) == (after, answer.outcome);
      InsertKeepsBound(m, max, id, row, sweptAt, victims, bound);
    case AckOp(id) =>
      if id in m {
        UpdateCardinality(m, id, after[id]);
      }
    case CleanupOp(now) =>
      DeleteSweptFacts(m, now);
    case _ =>
  }

  /** A file never holds more rows than it started with or than the largest limit it saw. */
  lemma {:induction false} LifeIsBounded(life: Life, n: nat, bound: nat)
    requires IsLife(life) && n < |life.states|
    requires |life.states[0]| <= bound && forall i :: 0 <= i < |life.limits| ==> life.limits[i] <= bound
    ensures |life.states[n]| <= bound
    decreases n
  {
    hide Backends.Step;
    if n > 0 {
      LifeIsBounded(life, n - 1, bound);
      LifeStep(life, n - 1);
      StepKeepsBound(life.limits[n - 1], life.states[n - 1], life.ops[n - 1],
        life.states[n], life.answers[n - 1], bound);
    }
  }

  // ----- Starting over a file ---------------------------------------------

  /** A row has a body until it is acknowledged. */
  ghost predicate RowsHoldUp(m: Table) {
    forall id :: id in m ==> (m[id].acked <==> m[id].body.None?)
  }

  lemma StepKeepsRows(b: Backend, max: nat, m: Table, op: Operation, after: Table, answer: Answer)
    requires Backends.Step(b, max, m, op, after, answer) && RowsHoldUp(m)
    ensures RowsHoldUp(after)
  {
    match op
    case InsertOp(id, body, contentType, expiresAt, createdAt, sweptAt) =>
      var row := NewRow(body, contentType, expiresAt, createdAt);
      var victims :| (id !in m ==> Victims(b, m, max, sweptAt, victims)) &&
        Insert(m, max, id, row, sweptAt, victims) == (after, answer.outcome);
      InsertKeepsRows(m, max, id, row, sweptAt, victims);
    case _ =>
  }

  lemma InsertKeepsRows(m: Table, max: nat, id: Id, row: Entry, now: int, victims: set<Id>)
    requires RowsHoldUp(m) && !row.acked && row.body.Some?
    ensures RowsHoldUp(Insert(m, max, id, row, now, victims).0)
  {
    hide SweptIds;
  }

  lemma {:induction false} LifeKeepsRows(life: Life, n: nat)
    requires IsLife(life) && n < |life.states| && RowsHoldUp(life.states[0])
    ensures RowsHoldUp(life.states[n])
    decreases n
  {
    hide Backends.Step;
    if n > 0 {
      LifeKeepsRows(life, n - 1);
      LifeStep(life, n - 1);
      StepKeepsRows(Sqlite, life.limits[n - 1], life.states[n - 1], life.ops[n - 1],
        life.states[n], life.answers[n - 1]);
    }
  }

  /** A history with one accepted message for each row. */
  lemma {:induction false} HistoryOf(m: Table, now: int) returns (h: History)
    requires RowsHoldUp(m)
    ensures StoreAgrees(m, h, now) && h.latest.Keys == m.Keys
    decreases |m|
  {
    if m == map[] {
      h := History([], map[], {});
    } else {
      var id :| id in m;
      RemoveKeysCardinality(m, {id});
      var rest := HistoryOf(m - {id}, now);
      h := WithRow(m, id, rest, now);
    }
  }

  lemma WithRow(m: Table, id: Id, rest: History, now: int) returns (h: History)
    requires id in m && RowsHoldUp(m)
    requires StoreAgrees(m - {id}, rest, now) && rest.latest.Keys == m.Keys - {id}
    ensures StoreAgrees(m, h, now) && h.latest.Keys == m.Keys
  {
    var row, g := m[id], |rest.accepted|;
    var message := Message(if row.body.Some? then row.body.value else [], row.contentType);
    h := Remember(rest, id, message, row.expiresAt);
    h := h.(acked := if row.acked then h.acked + {g} else h.acked);
    LatestWithRow(rest, Accepted(id, message, row.expiresAt), h);
    hide LatestAgrees;
    forall j | j in m
      ensures j in h.latest && h.latest[j] < |h.accepted|
      ensures RowAgrees(m[j], h.accepted[h.latest[j]], h.latest[j] in h.acked)
    {
      if j != id {
        LatestBound(rest, j);
        assert RowAgrees((m - {id})[j], rest.accepted[rest.latest[j]], rest.latest[j] in rest.acked);
      }
    }
  }

  lemma LatestBound(h: History, id: Id)
    requires LatestAgrees(h) && id in h.latest
    ensures h.latest[id] < |h.accepted|
  {
  }

  lemma LatestWithRow(rest: History, a: Accepted, h: History)
    requires LatestAgrees(rest) && a.id !in rest.latest
    requires h.accepted == rest.accepted + [a] && h.latest == rest.latest[a.id := |rest.accepted|]
    requires rest.acked <= h.acked <= rest.acked + {|rest.accepted|}
    ensures LatestAgrees(h)
  {
    var g := |rest.accepted|;
    forall k: nat {:trigger NotNewer(h, h.accepted[k].id, k)} | k < |h.accepted|
      ensures NotNewer(h, h.accepted[k].id, k)
    {
      if k < g {
        assert NotNewer(rest, rest.accepted[k].id, k);
      }
    }
  }

  /** A relay started over any such file within its limit is where a run can start. */
  lemma RelayOverFile(file: Table, max: nat, now: int, mono: int) returns (s: State)
    requires RowsHoldUp(file) && |file| <= max
    ensures Restarted(s) && s.entries == file && s.max == max && s.now == now && s.mono == mono
  {
    var h := HistoryOf(file, now);
    s := Initial(max, now, mono).(entries := file, history := h);
  }

  /** In every state of a run, the rows SQLite may delete to make room are those the runs allow for. */
  lemma RunsFollowSqlite(run: Run, n: nat, now: int, victims: set<Id>)
    requires FromStart(run) && n < |run.states|
    ensures var s := run.states[n];
      SqliteVictims(s.entries, s.max, now, victims) <==> MemoryVictims(s.entries, s.max, now, victims)
  {
    hide Next, Enabled;
    ReachableStatesAreSafe(run, n);
    SameVictimsWithinLimit(run.states[n].entries, run.states[n].max, now, victims);
  }
}
