# Verification of the HTTP relay

A Dafny model of the relay's coordination core, with proofs about every run of
it. `dafny verify dfyconfig.toml` checks the whole project.

## What is modelled

**Storage.** A repository is a finite map from IDs to rows (body, content type,
acknowledged flag, expiry, creation time), bounded by `max_entries`.
`Entries.dfy` states the capacity rule once, on the map; `StorageMemory.dfy` is
the HashMap repository as a class with its loops, `Persistence.dfy` the SQLite
one with each statement as an operation on the map, and both are proved to
follow the rule. `Backends.dfy` compares the two as relations, so that every way
of breaking ties on equal `created_at` is covered. `Restarts.dfy` follows one
database file over restarts with changing limits.

**The waiting list.** `WaitingList.dfy` is the class as the relay runs it: a
repository, a map from IDs to two lists of senders, a prune timestamp, and the
runtime's channels. `WaitingListSpec.dfy` says what each operation does as a
function on the state, and every method of the class is proved equal to its
function and to keep the invariant. A channel is one cell that is waiting, sent,
dropped by its sender, or closed by its receiver; a sender or receiver is the
index of its cell.

**History.** Next to what the relay holds, the state carries a history that no
operation looks at: the messages the store accepted, in order (the position of a
message is its *generation*), which generations were acknowledged, which
generation each ACK receiver was handed out for, how many messages had been
accepted when each consumer subscribed, and how often a full map was pruned. In
the class it is ghost state. The theorems about runs speak of it.

**Runs.** An event is one operation under the relay's lock, a receiver that goes
away (client disconnect or timeout), or time passing; a run is any sequence of
events from a relay that just started, over an empty repository or over any rows
within its limit. `WaitingListInvariants.dfy`,
`WaitingListPreservation.dfy` and `WaitingListSteps.dfy` prove that every event
keeps the invariant, `Tickets.dfy` what one event can do to a receiver,
`Runs.dfy` the theorems about whole runs, `WaiterCapacity.dfy` when a waiter is
turned away and how often a full map is scanned, `Readers.dfy` what readers of an
ID can see of anything else. `Answers.dfy` writes out what every operation answers
and changes, on the columns of the rows, the cells of the channels and the numbers
the code names, so that what the operations are said to do is pinned from outside.

**Endpoints.** `InboxHandler.dfy` and `LinkHandler.dfy` model the handlers as
critical sections with waits between them. A link request is a session that
moves in steps of its own, interleaved with any other event of the relay;
`LinkRuns.dfy` has the theorems about its runs and `LinkAnswers.dfy` the answers of
each step.

**Client address.** `ClientIp.dfy` is the scan of the `X-Forwarded-For` lines
against a specification on one flat list of entries.

## Assumptions

- The wall clock and the monotonic clock do not go back. They may advance
  between any two readings, also within one operation, so every reading is a
  parameter of its own. `now + ttl` fits into 64 bits, and times are unbounded
  integers here.
- Expiry has two forms in the code and in the model: deletion uses
  `expires_at < now` (`src/http_relay/storage_memory.rs:115`), readers use
  `now >= expires_at` (`src/http_relay/waiting_list.rs:430`).
- The repository returns no errors. The class `WaitingList` runs over the
  in-memory one, which starts empty; the theorems about runs hold for both, because
  within the limit both follow the same rule (`Restarts.RunsFollowSqlite`), and a
  run may start over the rows of a database file (`Restarts.RelayOverFile`).
- Which acknowledged row goes among equally old ones is free. The methods report
  their choice in a ghost result (`victims`), and the theorems hold for all.
- A wait that times out is a receiver that closes. A value sent between the last
  poll of a wait and its end counts as sent after the receiver closed; no sender
  looks at the result of its send, so nobody can tell the difference.
- A channel that is created and given up within one failing call never gets a
  cell, because no other operation can see it.
- An IP network is a predicate on addresses and the address parser a partial
  function on text. Header text holds no blanks other than space and tab, so
  trimming is stated for those two.

## Where the code and its documentation differ

- `src/http_relay/storage_memory.rs:3-4` claims the same capacity rules as the
  SQLite repository. That is true of every run that starts within the limit
  (`Backends.BackendsHaveTheSameRuns`). Only the SQLite repository can start over
  its limit, on a database file written under a higher one; there they can differ
  (`Backends.RulesDifferOverTheLimit` is a smallest table), and
  `Backends.CapacityRulesAgreeExactly` says exactly for which tables they agree.
- `POST /link/{id}` is documented to block until a consumer retrieves the message
  (line 243 of the relay's own README). GET takes the message and acknowledges in
  two critical sections, so a second producer can store in between and get its 200
  for a message nobody retrieved (`LinkInterleaving.StoreInBetweenBreaksTheHandoff`).
  `LinkRuns.HandoffIsExact` gives the exact condition over the events of all runs.

## Model

| member | source | states |
|---|---|---|
| Entries.InsertExact | src/http_relay/storage_memory.rs:48-108 | After any insert into a store within its limit, the limit holds; `StoreFull` happens if and only if the ID is new and every slot holds a row that is neither acknowledged nor `expires_at < now`, and then nothing changes; otherwise the row is written, every other row is unchanged or deleted, and what is deleted is nothing, exactly the expired rows, or one oldest acknowledged row when nothing has expired |
| Entries.HashMapRejectsExactly | src/http_relay/storage_memory.rs:58-85 | On the columns: a message is rejected if and only if its ID is new and at least `max_entries` rows satisfy `!acked && expires_at >= now`, and then nothing changes; otherwise its row is written, and every other row left is one from before |
| Entries.HashMapDeletesExactly | src/http_relay/storage_memory.rs:89-108 | On the columns: below the limit nothing is deleted; at the limit exactly the rows with `expires_at < now` if there are any, and otherwise one acknowledged row of minimal `created_at` |
| Entries.SweptExactly | src/http_relay/storage_memory.rs:113-122 | On the columns: deletion by expiry takes exactly the rows with `expires_at < now` and leaves the others as they were |
| Entries.UndeliveredExactly | src/http_relay/storage_memory.rs:55-57 | The rows nothing may delete are exactly those with `!acked && expires_at >= now` |
| Entries.RoomIsExact | src/http_relay/storage_memory.rs:87-108 | Making room succeeds if and only if fewer than `max_entries` rows are undelivered, then leaves a free slot, and leaves the map as it was when it fails |
| Entries.RoomIsWhatIsLeft | src/http_relay/storage_memory.rs:89-108 | Making room only removes rows, and only rows that may go |
| Entries.OldestAckedExists | src/http_relay/persistence.rs:167-176 | For every limit there is a selection of that many oldest acknowledged rows, so the `ORDER BY created_at LIMIT k` the relation leaves free on ties is never empty |
| StorageMemory.EntryRepository.constructor | src/http_relay/storage_memory.rs:41-46 | A new repository is empty |
| StorageMemory.EntryRepository.Insert | src/http_relay/storage_memory.rs:58-85 | Changes the map and answers exactly as the capacity rule says, with at most one victim, an oldest acknowledged row |
| StorageMemory.EntryRepository.MakeRoom | src/http_relay/storage_memory.rs:89-108 | Deletes the expired rows, then at most one acknowledged row of minimal `created_at`, and stops as soon as a slot is free |
| StorageMemory.EntryRepository.OldestAckedId | src/http_relay/storage_memory.rs:99-103 | The scan finds an acknowledged row that no other acknowledged row is older than, and finds none only if there is none |
| StorageMemory.EntryRepository.ExpiredIds | src/http_relay/storage_memory.rs:113-117 | Collects exactly the IDs with `expires_at < now`, each once |
| StorageMemory.EntryRepository.DeleteExpired | src/http_relay/storage_memory.rs:111-124 | The removal loop leaves exactly the rows that are not swept and returns the others' IDs, each once |
| StorageMemory.EntryRepository.Get | src/http_relay/storage_memory.rs:127-136 | Returns the row, or none if the ID is missing |
| StorageMemory.EntryRepository.Ack | src/http_relay/storage_memory.rs:139-149 | Marks the row acknowledged and clears its body, leaves all others, and says whether there was one |
| StorageMemory.EntryRepository.CleanupExpired | src/http_relay/storage_memory.rs:162-165 | Deletes all swept rows and returns their IDs |
| Persistence.EntryRepository.constructor | src/http_relay/persistence.rs:47-73 | Starts from whatever rows the database file holds, over the limit or not |
| Persistence.EntryRepository.Insert | src/http_relay/persistence.rs:115-140 | Changes the table and answers exactly as the capacity rule says, with as many victims as it takes to get below the limit |
| Persistence.EntryRepository.MakeRoom | src/http_relay/persistence.rs:154-177 | The count kept by subtraction stays a natural number and equals the number of rows, and the outcome is that of the rule on the table |
| Persistence.EntryRepository.DeleteExpired | src/http_relay/persistence.rs:187-196 | Deletes and returns exactly the rows with `expires_at < now` |
| Persistence.EntryRepository.DeleteOldestAcked | src/http_relay/persistence.rs:168-175 | Deletes that many acknowledged rows, all if there are fewer, none newer than a kept one, and counts them |
| Persistence.EntryRepository.Get | src/http_relay/persistence.rs:199-220 | Returns the row, or none if the ID is missing |
| Persistence.EntryRepository.Ack | src/http_relay/persistence.rs:225-236 | Marks the row acknowledged and clears its body, leaves all others, and says whether there was one |
| Persistence.EntryRepository.CleanupExpired | src/http_relay/persistence.rs:256-259 | Deletes all swept rows and returns their IDs |
| Persistence.AdmissionIsExact | src/http_relay/persistence.rs:154-177 | From any starting count, over the limit or not, room is found if and only if fewer than `max_entries` rows are neither acknowledged nor `expires_at < now` |
| Persistence.SqliteRejectsExactly | src/http_relay/persistence.rs:115-140 | On the columns, from a table of any size: a message is rejected if and only if its ID is new and at least `max_entries` rows satisfy `!acked && expires_at >= now` |
| Persistence.SqliteDeletesExactly | src/http_relay/persistence.rs:154-177 | On the columns, from a table of any size: below the limit nothing goes; else exactly the expired rows if that is enough; else oldest acknowledged ones down to `max_entries - 1` rows, or all of them where there is no room |
| Persistence.RecoversToOneFreeSlot | src/http_relay/persistence.rs:165-176 | When acknowledged rows have to go and that succeeds, exactly `max_entries - 1` rows are left, every undelivered message is among them, and no acknowledged row was deleted before an older one |
| Persistence.NeverLosesAMessage | src/http_relay/persistence.rs:103-108 | Every attempt to make room, failed ones included, keeps every undelivered unexpired message and changes no row it keeps |
| Backends.BackendsHaveTheSameRuns | src/http_relay/storage_memory.rs:3-4 | From a table within the limit, a sequence of operations, states and answers is a run of the HashMap backend if and only if it is one of the SQLite backend, whatever the clock readings and the tie-breaks |
| Backends.RepositoryRunsGoOn | src/http_relay/storage_memory.rs:30-178 | Every table begins a run of a backend, which goes on with any call of it |
| Backends.RunKeepsLimit | src/http_relay/storage_memory.rs:29-33 | In every run of either backend that starts within the limit, the limit holds in every state |
| Backends.CapacityRulesAgreeExactly | src/http_relay/storage_memory.rs:3-4 | For a table of any size the two ways of making room have the same outcomes if and only if the table is within the limit, or is so after expiry, or has at most one acknowledged row left then; so the claim of equal rules fails exactly for an over-full table with two acknowledged rows or more |
| Backends.RulesDifferOverTheLimit | src/http_relay/persistence.rs:165-176 | A concrete table of two acknowledged rows over a limit of one: the HashMap rule finds no room and the SQLite rule does |
| Restarts.AcceptedMessageSurvivesRestarts | src/http_relay/persistence.rs:103-115 | A message the SQLite repository accepted is what readers find until it expires, from any table, through any operations on other IDs and any restarts, also under lowered limits, unless the ID is stored again or acknowledged |
| Restarts.LivesGoOn | src/http_relay/persistence.rs:47-73 | Every table begins the life of a file, which goes on with any call of the repository under any limit |
| Restarts.LifeIsBounded | src/http_relay/persistence.rs:154-177 | A database file never holds more rows than it started with or than the largest limit it was opened with |
| Restarts.LifeKeepsRows | src/http_relay/persistence.rs:133-140 | In every table of a file's life a row has a body until it is acknowledged |
| Restarts.RelayOverFile | src/http_relay/waiting_list.rs:180-188 | A relay started over any such file within its limit is a state where the runs may start |
| Restarts.RunsFollowSqlite | src/http_relay/persistence.rs:165-176 | In every state of every run the victims SQLite may choose are the ones the runs allow for |
| Oneshots.RetainOpenMembers | src/http_relay/waiting_list.rs:67 | Retaining keeps exactly the senders whose receivers are still there, each at most once |
| Oneshots.RetainOpenKeepsOrder | src/http_relay/waiting_list.rs:88-92 | Retaining keeps every open sender, in order |
| Oneshots.RetainOpenKeepsAll | src/http_relay/waiting_list.rs:66-73 | Retaining shortens a list if and only if some client in it is gone |
| WaitingList.SendEach | src/http_relay/waiting_list.rs:100-109 | The drain sends on every sender of the list, a message or the ACK, and touches no other channel |
| WaitingList.DropEach | src/http_relay/waiting_list.rs:96-99 | The drain drops every sender of the list unsent and touches no other channel |
| WaitingList.RetainEach | src/http_relay/waiting_list.rs:67 | The `retain` loop returns exactly the open senders in order |
| WaitingList.WaitingList.constructor | src/http_relay/waiting_list.rs:180-188 | A new list has no waiters, takes its limit from the repository, and satisfies the invariant |
| WaitingList.WaitingList.Store | src/http_relay/waiting_list.rs:201-222 | The new state and the outcome are those of the specification, for an insert that deletes no more than it may; the invariant is kept |
| WaitingList.WaitingList.NotifyMessageWaiters | src/http_relay/waiting_list.rs:224-231 | Every message waiter of the ID is sent the message, every stale ACK waiter of it is dropped, the ID leaves the map, nothing else changes |
| WaitingList.WaitingList.Ack | src/http_relay/waiting_list.rs:236-263 | The new state and the answer are those of the specification: only a visible row that is not acknowledged yet is changed and its ACK waiters told, once; the invariant is kept |
| WaitingList.WaitingList.NotifyAckWaiters | src/http_relay/waiting_list.rs:255-260 | Every ACK waiter of the ID is told, its message waiters stay, and the ID leaves the map if it has none |
| WaitingList.WaitingList.IsAcked | src/http_relay/waiting_list.rs:268-273 | Whether the row is acknowledged, and none from the instant it expires |
| WaitingList.WaitingList.EnsureWaiterCapacity | src/http_relay/waiting_list.rs:359-379 | A full map is pruned at most once per interval, and the answer says whether there is room; the invariant is kept |
| WaitingList.WaitingList.RemoveClosedWaiters | src/http_relay/waiting_list.rs:421-426 | The map is left with exactly the open senders, and only IDs that have some |
| WaitingList.WaitingList.WaitersFor | src/http_relay/waiting_list.rs:385-391 | On success the ID has a slot and nothing else changed beyond the capacity check |
| WaitingList.WaitingList.SubscribeAck | src/http_relay/waiting_list.rs:279-300 | The new state and the receiver or error are those of the specification; the invariant is kept, so an empty slot never stays behind |
| WaitingList.WaitingList.AddAckWaiter | src/http_relay/waiting_list.rs:66-73 | Closed senders go first, and the new one is added unless ten are open |
| WaitingList.WaitingList.AddMessageWaiter | src/http_relay/waiting_list.rs:79-86 | Closed senders go first, and the new one is added unless ten are open |
| WaitingList.WaitingList.StoreAndSubscribeAck | src/http_relay/waiting_list.rs:307-321 | The three calls in sequence end in the state and the answer of the specification; the invariant is kept |
| WaitingList.WaitingList.GetOrSubscribe | src/http_relay/waiting_list.rs:330-351 | The new state and the message, receiver or error are those of the specification; the invariant is kept |
| WaitingList.WaitingList.CleanupExpired | src/http_relay/waiting_list.rs:403-418 | The new state and the count are those of the specification; the invariant is kept |
| WaitingList.WaitingList.DropWaitersOf | src/http_relay/waiting_list.rs:412-414 | The loop over the deleted IDs drops all their waiters and no others, whatever the order of the IDs |
| WaitingList.WaitingList.RemoveWaitersOf | src/http_relay/waiting_list.rs:413 | Removing an ID drops all its senders, of both kinds, and nothing else |
| WaitingList.WaitingList.AckReceiverCloses | src/http_relay/waiting_list.rs:88-92 | A client that goes away while it waits closes its own channel only; the invariant is kept |
| WaitingList.WaitingList.MessageReceiverCloses | src/http_relay/waiting_list.rs:88-92 | The same for a consumer |
| WaitingListSteps.NextKeepsInv | src/http_relay/waiting_list.rs:176-432 | Any operation, disconnect or passing of time keeps the whole invariant: limits, unique ownership of senders, agreement of rows with the accepted messages, and of every receiver with the message it was handed out for |
| WaitingListPreservation.StoreKeepsInv | src/http_relay/waiting_list.rs:201-231 | A store, rejected or not, keeps the invariant |
| WaitingListPreservation.AckKeepsInv | src/http_relay/waiting_list.rs:236-263 | An ACK keeps the invariant |
| WaitingListPreservation.SubscribeAckKeepsInv | src/http_relay/waiting_list.rs:279-300 | A subscription for an ACK keeps the invariant |
| WaitingListSteps.StoreAndSubscribeKeepsInv | src/http_relay/waiting_list.rs:307-321 | Storing and subscribing keeps the invariant on every way out |
| WaitingListSteps.GetOrSubscribeKeepsInv | src/http_relay/waiting_list.rs:330-351 | A poll keeps the invariant |
| WaitingListSteps.CleanupKeepsInv | src/http_relay/waiting_list.rs:403-418 | A cleanup keeps the invariant |
| WaitingListInvariants.CapacityKeepsInv | src/http_relay/waiting_list.rs:359-379 | A capacity check, with or without a prune, keeps the invariant |
| WaitingListInvariants.PruneDropsClosed | src/http_relay/waiting_list.rs:421-426 | A prune removes closed senders, all of them, and no open one |
| Tickets.MessageReceiverStep | src/http_relay/waiting_list.rs:95-103 | What one step does to a consumer that waits: it is sent a message if and only if the step is an accepted store for its ID (and then exactly that message), its sender is dropped if and only if a cleanup deletes the expired row of its ID, and otherwise it keeps waiting |
| Tickets.AckReceiverStep | src/http_relay/waiting_list.rs:95-110 | What one step does to a producer that waits: it is told if and only if the step acknowledges the message stored for its ID, it is dropped if and only if an accepted store overwrites that message or a cleanup deletes its expired row, and otherwise it keeps waiting; so the two causes of 404 that the comment at `src/http_relay/link_handler.rs:140` names are the only two |
| Tickets.HistoryOfAStep | src/http_relay/waiting_list.rs:201-263 | A message is added only by an accepted store, as the last one of its ID, and acknowledged only by a first effective ACK, which acknowledges the last message of its ID |
| Tickets.NextGrows | src/http_relay/waiting_list.rs:176-432 | No step changes a receiver that has its result, and none takes back an accepted message or an ACK |
| Runs.RunsGoOn | src/http_relay/waiting_list.rs:176-432 | Every relay that just started begins a run, and every run goes on with any event that is possible |
| Runs.ReachableStatesAreSafe | src/http_relay/waiting_list.rs:176-432 | The invariant holds in every state of every run from the start |
| Runs.ResolvedForever | src/http_relay/waiting_list.rs:95-110 | Over any run a receiver resolves at most once and keeps what it got |
| Runs.HandedOut | src/http_relay/waiting_list.rs:286-300 | Over any run, consumers are handed out waiting, and a new receiver for an ACK holds it if and only if its message is acknowledged already, and waits otherwise |
| Runs.NewAckReceiver | src/http_relay/waiting_list.rs:279-300 | A successful subscription hands out one receiver, for the message stored now, resolved if and only if that is acknowledged; a failed one hands out none |
| Runs.NewMessageReceiver | src/http_relay/waiting_list.rs:330-351 | A poll hands out a waiting receiver if and only if it answers with one, and changes no other channel |
| Runs.WhyMessageReceiverResolved | src/http_relay/waiting_list.rs:95-103 | Every resolved consumer of a run was resolved by one event, which says how |
| Runs.WhyAckReceiverResolved | src/http_relay/waiting_list.rs:95-110 | Every resolved producer of a run was resolved by one event, which says how, or was handed out for a message acknowledged before |
| Runs.WhyAcked | src/http_relay/waiting_list.rs:236-263 | Every message a run acknowledges was, at some event of it, the message stored for its ID and acknowledged there for the first time |
| Runs.AckedExactly | src/http_relay/waiting_list.rs:236-263 | A message is acknowledged if and only if such an event of the run did it, or it was so when the relay started |
| Runs.AckReceiverIsExact | src/http_relay/waiting_list.rs:236-300 | In every state of every run a receiver for an ACK yields Ok if and only if the very message it joined has been acknowledged and its client did not go away first; an ACK of a message that overwrote it never reaches it |
| Runs.OpenReceiverHearsItsAck | src/http_relay/waiting_list.rs:254-260 | If its message is acknowledged while the receiver is open, it holds Ok in every later state, whatever happens to the row |
| Runs.ProducerIsToldExactly | src/http_relay/waiting_list.rs:95-110 | Read off the events of a run, a producer that waits gets its ACK if and only if an ACK of its ID comes before any accepted store of the ID, any cleanup of its row, and the client's leaving; it still waits if and only if none of these happened |
| Runs.MessageReceiverGetsTheFirst | src/http_relay/waiting_list.rs:216-231 | A consumer is sent exactly the first message accepted for its ID after it subscribed, and while it waits there was none |
| Runs.ConsumerIsServedExactly | src/http_relay/waiting_list.rs:95-103 | Read off the events of a run, a consumer that waits gets a message `m` if and only if an accepted store of `m` for its ID comes before any other accepted store of it, any cleanup of its row, and the client's leaving; it still waits if and only if none of these happened |
| Runs.MessageSenderDroppedOnlyByCleanup | src/http_relay/waiting_list.rs:403-418 | A consumer's sender is dropped unsent only by a cleanup that deletes an expired row of its ID |
| Runs.AcceptedMessageIsDurable | src/http_relay/waiting_list.rs:201-222 | After an accepted store, every poll before the time to live is over gets exactly that message, across any interleaving of other IDs, full stores, rejected stores of the same ID, cleanups, prunes, disconnects and time, as long as no other message is accepted for the ID and it is not acknowledged |
| Runs.RunStaysOutstandingExactly | src/http_relay/waiting_list.rs:201-263 | Over any stretch of a run, a message stays the last one of its ID and unacknowledged if and only if no store of the ID is accepted and no ACK of it takes effect |
| Runs.StoredMessageSurvivesRestart | src/http_relay/waiting_list.rs:330-341 | Under the same condition every poll gets a message that was in the store when the relay started, until it expires |
| Runs.ReadersGetTheLatest | src/http_relay/waiting_list.rs:330-341 | In every state of every run, what a reader finds for an ID is the last message accepted for it if that is neither acknowledged nor expired, and nothing otherwise |
| Runs.NoLostWakeUp | src/http_relay/waiting_list.rs:323-351 | In every reachable state no consumer waits for an ID that has a readable message |
| Runs.AckWaitersAreConsistent | src/http_relay/waiting_list.rs:393-418 | In every reachable state a registered ACK waiter waits for the last message of its ID, whose row is there and not acknowledged, or is gone because it had expired |
| Runs.MemoryIsBounded | src/http_relay/waiting_list.rs:16-20 | In every reachable state there are at most `max_entries` rows, at most `max_entries` waiting IDs, at most ten senders of each kind for one ID, and so `max_entries` times 20 in all, no ID without one, none held twice |
| WaiterCapacity.RejectionIsExact | src/http_relay/waiting_list.rs:353-379 | A new ID is turned away if and only if the map is full and either no prune is due or every ID in it has an open waiter |
| Answers.TurnedAwayExactly | src/http_relay/waiting_list.rs:359-379 | In every state that keeps the invariant, a new ID is turned away if and only if the map is full and either the last full scan is under 1,000,000,000 ns old or every ID has a connected client |
| Answers.ScannedExactly | src/http_relay/waiting_list.rs:364-372 | A full map is scanned if and only if there was no scan yet or the last one is at least 1,000,000,000 ns old; a scan stamps its time and keeps exactly the IDs with a connected client, and without one nothing changes |
| Answers.PollIsExact | src/http_relay/waiting_list.rs:330-351 | In every state that keeps the invariant, a poll answers with the message if a row holds one and `now < expires_at`; it is refused if and only if none is there and ten consumers of the ID wait or a new ID is turned away; otherwise a new receiver waits, registered under the ID |
| Answers.SubscribeAckIsExact | src/http_relay/waiting_list.rs:279-300 | In every state that keeps the invariant, a subscription finds nothing if and only if no row has `now < expires_at`; an acknowledged row answers at once; it is refused if and only if ten producers of the ID wait or a new ID is turned away; otherwise a new receiver waits, registered under the ID |
| Answers.StoreIsExact | src/http_relay/waiting_list.rs:201-231 | A store is rejected exactly on the column condition, and then only time passes; otherwise it writes the row with body, type, expiry and creation time, sends the message to exactly the waiting consumers of the ID and drops exactly its waiting producers |
| Answers.AckIsExact | src/http_relay/waiting_list.rs:236-263 | An ACK is found if and only if a row has `now < expires_at`; it changes something if and only if that row is not acknowledged yet: this row alone, which loses its body, and the waiting producers of the ID, which are told |
| Answers.StatusIsExact | src/http_relay/waiting_list.rs:268-273 | The status is `Some(true)` if and only if a row has `now < expires_at` and is acknowledged, `Some(false)` if and only if it has and is not |
| Answers.CleanupIsExact | src/http_relay/waiting_list.rs:403-418 | A cleanup removes and counts exactly the rows with `expires_at < now`, drops exactly the waiting clients of their IDs, and keeps an ID in the map if and only if it has a connected client left |
| Answers.ProducerIsAdmittedExactly | src/http_relay/waiting_list.rs:307-321 | Each answer of storing and subscribing in one call happens if and only if its own condition on rows, cells and readings holds; the producer then waits, registered under its ID, and the row is written |
| Answers.AcceptsExactly | src/http_relay/waiting_list.rs:195-221 | Which events of a run have a message accepted for an ID, on rows, cells and readings |
| Answers.AcknowledgesExactly | src/http_relay/waiting_list.rs:236-263 | Which events acknowledge the message of an ID and which clean its row up, on the columns |
| Answers.EventsArePossible | src/http_relay/waiting_list.rs:176-432 | No operation, disconnect or passing of time is excluded from the runs, but for clocks that go back |
| Answers.StoresArePossible | src/http_relay/waiting_list.rs:201-222 | Nor is a store, for some choice of what goes to make room |
| WaiterCapacity.PruneKeepsOpenIds | src/http_relay/waiting_list.rs:421-426 | An ID survives a prune if and only if it has an open waiter |
| WaiterCapacity.MessageLimitIsExact | src/http_relay/waiting_list.rs:79-86 | A further consumer of an ID is turned away if and only if ten open ones wait |
| WaiterCapacity.AckLimitIsExact | src/http_relay/waiting_list.rs:66-73 | A further producer is turned away if and only if ten open ones wait |
| WaiterCapacity.StoreAndSubscribeIsExact | src/http_relay/waiting_list.rs:302-321 | Each outcome of `store_and_subscribe_ack` happens if and only if its own condition holds; once the store succeeds neither limit can fail, and the receiver is open and belongs to the message just stored |
| WaiterCapacity.RejectedProducerLeavesNoTrace | src/http_relay/waiting_list.rs:302-321 | A producer turned away stores no message, loses no row, is not registered, resolves no receiver and drops no open sender |
| WaiterCapacity.FullScansAreRare | src/http_relay/waiting_list.rs:22-28 | Over any stretch of a run that takes `T`, the full map is scanned at most `1 + T / FULL_MAP_PRUNE_INTERVAL` times |
| WaiterCapacity.ScansAreSpaced | src/http_relay/waiting_list.rs:366-372 | From one full scan of a run to the `m`-th one after it, at least `m` intervals pass |
| Readers.OtherIdsDoNotInterfere | src/http_relay/waiting_list.rs:268-273 | An operation on another ID does not change what readers of an ID see, now or at any later time, except that an acknowledged ID may become absent |
| Readers.CleanupIsInvisible | src/http_relay/waiting_list.rs:403-418 | No reader of any ID can tell at any later time that a cleanup happened |
| Readers.CleanupIsComplete | src/http_relay/waiting_list.rs:393-426 | After a cleanup no swept row is left, the waiters kept are exactly the open ones of IDs whose row was not deleted, and the result is the number of rows deleted |
| Readers.RowsAppearByStoreOnly | src/http_relay/waiting_list.rs:201-222 | A row appears only by an accepted store of its ID |
| Readers.RejectedStoreWritesNothing | src/http_relay/waiting_list.rs:195-221 | A store that is not accepted leaves every row as it was |
| InboxHandler.PostHandler | src/http_relay/inbox_handler.rs:45-60 | Answers 200 if and only if the store accepts the message, 503 otherwise |
| InboxHandler.DeleteHandler | src/http_relay/inbox_handler.rs:110-116 | Answers 200 if and only if the ID has a row that has not expired, acknowledged before or not |
| InboxHandler.GetHandlerEnters | src/http_relay/inbox_handler.rs:75-100 | The critical section leads to the message, to a wait, or to 503, as the poll answers |
| InboxHandler.AwaitHandlerEnters | src/http_relay/inbox_handler.rs:141-160 | The critical section of `/await` answers at once for an acknowledged ID, and otherwise subscribes or answers 404 or 503 |
| InboxHandler.AwaitEntersExactly | src/http_relay/inbox_handler.rs:141-160 | The critical section of `/await` leads to 200 if and only if the row is acknowledged and unexpired, to 404 if and only if none is unexpired, to 503 if and only if ten producers wait or a new ID is turned away, and otherwise to a wait with the receiver registered |
| InboxHandler.WaitsAreAnswered | src/http_relay/inbox_handler.rs:80-92 | Each end of a wait has its answer: the message or 200, 404 for a dropped sender, 408 for a timeout, none while it lasts |
| InboxHandler.AwaitAnswersAtOnce | src/http_relay/inbox_handler.rs:144-146 | An immediate 200 means that the last message of the ID was acknowledged at some earlier event of the run, or before the relay started |
| InboxHandler.AwaitJoinsTheCurrentMessage | src/http_relay/inbox_handler.rs:148-149 | The receiver waited on belongs to the message stored at the critical section |
| InboxHandler.AwaitIsExact | src/http_relay/inbox_handler.rs:141-173 | A later 200 of `/await` happens if and only if the very message stored at its critical section has been acknowledged and the client did not time out first; on the events of the run: the message was acknowledged already, or an ACK of the ID comes before an overwriting store, a cleanup of the row, and the timeout |
| InboxHandler.LongPollIsExact | src/http_relay/inbox_handler.rs:74-92 | A long poll is sent a message if and only if its store is the first event since the subscription that ends the wait: before any other accepted store of the ID, any cleanup of its row, and the timeout; so it is the first message accepted since |
| LinkHandler.GetHandlerEnters | src/http_relay/link_handler.rs:34-66 | The first critical section of GET leads to a message, to a wait, or to 503 |
| LinkHandler.GetHandlerAcks | src/http_relay/link_handler.rs:68-71 | The second critical section acknowledges whatever is stored then, and GET answers 200 either way |
| LinkHandler.PostHandlerEnters | src/http_relay/link_handler.rs:100-134 | The critical section of POST is an enabled event of the relay, and leads to a wait for the ACK, or to 503 or 404 |
| LinkHandler.StepKeepsAgreement | src/http_relay/link_handler.rs:29-154 | Every step of every request, and everything else that may happen between two, keeps the meaning of all sessions: which accepted message each consumer holds and each producer waits for |
| LinkRuns.LinkRunsGoOn | src/http_relay/link_handler.rs:29-154 | Every run starts with a relay that just started, and goes on with any step that can be taken |
| LinkRuns.SystemsAgree | src/http_relay/link_handler.rs:29-154 | That holds in every system of every run |
| LinkRuns.LatestStaysExactly | src/http_relay/waiting_list.rs:201-222 | Over any stretch of a run, the last message of an ID, or its having none, stays the same if and only if no store of it is accepted, by any endpoint |
| LinkRuns.WhenTaken | src/http_relay/link_handler.rs:34-66 | Every consumer that holds a message took it at an earlier step: it read it under the lock, or the step that stored it sent it; and that was the last message of the ID then |
| LinkRuns.TakenOnce | src/http_relay/link_handler.rs:34-66 | A consumer takes a message at one step only |
| LinkRuns.AcksWhatItTookExactly | src/http_relay/link_handler.rs:34-69 | At its second critical section a consumer finds stored the very message it took if and only if no store of the ID was accepted strictly between the two steps |
| LinkRuns.AckedMessageIsReceivedExactly | src/http_relay/link_handler.rs:34-76 | Message by message: a message that a step acknowledges was received by a link consumer if and only if the ACK comes from a link consumer, with no store of the ID accepted since that consumer took its message |
| LinkRuns.HandoffIsExact | src/http_relay/link_handler.rs:34-76 | Over any run and any interleaving with other endpoints, only messages that a link consumer received get acknowledged in it if and only if every ACK that takes effect comes from a link consumer, with no store of the ID accepted since that consumer took its message |
| LinkRuns.LinkOnlyHandoff | src/http_relay/link_handler.rs:34-150 | If an ID is acknowledged through GET on the link only, and no store of it is accepted between the step at which a consumer takes a message and its ACK, then only received messages get acknowledged, and every producer with a 200 has a consumer that answered with exactly its message |
| LinkAnswers.GetEntersExactly | src/http_relay/link_handler.rs:34-66 | What the first step of a consumer leads to: the message if an unexpired row holds one, 503 where a poll is refused, a wait otherwise |
| LinkAnswers.PostEntersExactly | src/http_relay/link_handler.rs:100-134 | What the step of a producer leads to: 503 if and only if it is turned away or the store is full, 404 if and only if the message expires on the spot, a wait otherwise |
| LinkAnswers.WaitsEndExactly | src/http_relay/link_handler.rs:43-54 | What the other steps lead to: the message or 404 for a consumer that wakes, 200 or 404 for a producer, 408 for a client that gives up, and the answer with its message for a consumer that acknowledged |
| LinkAnswers.RelayAfterWait | src/http_relay/link_handler.rs:68-69 | Of these only the ACK and a client that goes away change the relay: by an ACK of the ID, and by closing its own receiver |
| LinkAnswers.StepsArePossible | src/http_relay/link_handler.rs:29-154 | No step waits for anything but its own turn and the clocks |
| LinkAnswers.AckReachesItsProducer | src/http_relay/link_handler.rs:68-69 | When a consumer acknowledges an unexpired message for the first time, every producer of it that still waits is told |
| LinkAnswers.ToldProducerIsConfirmed | src/http_relay/link_handler.rs:136-139 | A producer that was told can always take its next step, which is its 200 |
| LinkRuns.ConfirmedMeansReceived | src/http_relay/link_handler.rs:136-150 | Under the exact condition a producer that got 200 is preceded by a consumer that answered with exactly that producer's message |
| LinkInterleaving.StoreInBetweenBreaksTheHandoff | src/http_relay/link_handler.rs:34-69 | A concrete run of five steps in which a producer gets 200 although no consumer received its message, because it stored between a consumer's two critical sections |
| ClientIp.TrustedProxies.ClientIp | src/http_relay/client_ip.rs:61-94 | The nested scan from the right answers as the specification does on one flat list of all lines' entries |
| ClientIp.TrustedProxies.IsTrusted | src/http_relay/client_ip.rs:96-101 | True if and only if some network contains the canonical form of the address |
| ClientIp.TrustedProxies.UntrustedPeerIsTheClient | src/http_relay/client_ip.rs:66-68 | If no network holds the canonical form of the peer, the answer is that form |
| ClientIp.TrustedProxies.RightmostUntrustedIsTheClient | src/http_relay/client_ip.rs:50-53 | If an entry parses to an address no network holds, and every entry right of it parses to one some network holds, the answer is that address |
| ClientIp.TrustedProxies.LeftmostProxyIsTheClient | src/http_relay/client_ip.rs:90-93 | If every entry parses to an address some network holds, the answer is the leftmost of them, and without any entry it is `Missing` |
| ClientIp.TrustedProxies.BadEntryIsTheError | src/http_relay/client_ip.rs:58-60 | If the rightmost entry that is no trusted address does not parse, or its line is no text, the answer is the error with that text |
| ClientIp.TrustedProxies.ProxiesAreJudgedSo | src/http_relay/client_ip.rs:84-90 | An entry counts as a trusted proxy if and only if it parses and some network holds its canonical form |
| ClientIp.CanonicalExactly | src/http_relay/client_ip.rs:97-99 | Exactly the addresses `::ffff:0:0` to `::ffff:ffff:ffff` change, each to its IPv4 address |
| ClientIp.EntriesInOrder | src/http_relay/client_ip.rs:79-82 | The entries of a line are its pieces in order, trimmed, but for those that are blank |
| ClientIp.TokensInOrder | src/http_relay/client_ip.rs:74-83 | The lines follow each other in order, and one that is no text is a single unreadable entry |
| ClientIp.TrustedProxies.DecisiveIsRightmost | src/http_relay/client_ip.rs:50-53 | The specification picks the rightmost entry that is no trusted proxy, and none only if all are |
| ClientIp.TrustedProxies.AnswersAreCanonical | src/http_relay/client_ip.rs:55-56 | Every address returned is in canonical form, however it was found |
| ClientIp.TrustedProxies.MappedPeersAreTheSame | src/http_relay/client_ip.rs:97-99 | A peer in IPv4-mapped form gets the same answer as its IPv4 address |
| ClientIp.TrustedProxies.NothingLeftOfTheClientMatters | src/http_relay/client_ip.rs:70-72 | Once a line and the lines right of it decide, the answer is the same whatever lines stand before, readable or not, and whatever text stands before a comma at the start of that line |
| ClientIp.TrustedProxies.LinesAreOneList | src/http_relay/client_ip.rs:74-83 | For lines that are text, the answer is that for one line in which they are joined with commas and any blanks, as section 5.3 of RFC 9110 combines them |
| ClientIp.SplitIsExact | src/http_relay/client_ip.rs:79-80 | Splitting at commas is undone by joining with commas, and no piece holds a comma |
| ClientIp.TrimIsExact | src/http_relay/client_ip.rs:81 | Trimming removes exactly the blanks at both ends |
| ClientIp.CommaSplitsLines | src/http_relay/client_ip.rs:79-82 | A comma with any blanks after it separates entries just as a line break does |

## Left out

- Storage errors: with SQLite, an insert may fail and `store` then still notifies waiters (`src/http_relay/waiting_list.rs:198-200`). The repositories of the model return no errors.
- A waiting list over a SQLite file that is over its limit when the relay starts: the runs of the waiting list start within the limit. Over the limit, the storage theorems hold (`Persistence.AdmissionIsExact`, `Restarts.AcceptedMessageSurvivesRestarts`, `Restarts.LifeIsBounded`).
- `Waiters` is a value inside the map, updated by replacing it under its ID; the mutable borrow the code takes of it is not modelled. Nothing else refers to it while it is borrowed.
- Channels: how tokio wakes a task and in which order. A sent value is there from the moment of sending.
- SQLite itself: write-ahead log, secure deletion, files, parsing, locking, row order. Each statement is one operation on a finite map.
- HTTP: routing, extractors, bodies and their limits, headers, CORS, tracing, and the `Deprecation` header. Answers are status codes, plus the message where there is one.
- `validate_id_length`, `message_response`, `ack_handler`, `parse_network`, configuration and builder setters: one-branch facts.
- `EntryRepository::delete` and the constructors' error paths: `delete` is not called by the relay, and opening a database is SQLite's business.
- `IpAddr::parse`, `IpNet::contains` and `escape_ascii`: abstract. Only their place in the scan is modelled.
- The background task's schedule: a cleanup may happen at any time, so any schedule is covered.
- Termination of waits: no theorem says that a client is answered in time; timeouts are events that may happen.
