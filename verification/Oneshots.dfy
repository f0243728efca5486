/**
  * Tokio's oneshot channels. Each channel is one shared cell; all cells live in
  * a table, and a sender or receiver is the index of its cell.
  */
module Oneshots {
  import opened Collections

  /**
    * `Pending`: the sender is held and the receiver waits. `Sent`: the receiver
    * has the value. `Dropped`: the sender was dropped unsent, the receiver gets
    * an error. `Closed`: the receiver went away while it was still waiting
    * (client disconnect or timeout), which the sender can see.
    */
  datatype Oneshot<T> = Pending | Sent(value: T) | Dropped | Closed

  type Cells<T> = seq<Oneshot<T>>

  function Send<T>(c: Oneshot<T>, v: T): Oneshot<T> {
    if c.Pending? then Sent(v) else c
  }

  function DropSender<T>(c: Oneshot<T>): Oneshot<T> {
    if c.Pending? then Dropped else c
  }

  function CloseReceiver<T>(c: Oneshot<T>): Oneshot<T> {
    if c.Pending? then Closed else c
  }

  predicate IsClosed<T>(cells: Cells<T>, sender: nat) {
    sender < |cells| && cells[sender].Closed?
  }

  /** All of `senders` send `v`, every other cell keeps its state. */
  function SendAll<T>(cells: Cells<T>, senders: seq<nat>, v: T): (r: Cells<T>)
    ensures |r| == |cells|
  {
    seq(|cells|, i requires 0 <= i < |cells| => if i in senders then Send(cells[i], v) else cells[i])
  }

  /** All of `senders` are dropped unsent. */
  function DropAll<T>(cells: Cells<T>, senders: set<nat>): (r: Cells<T>)
    ensures |r| == |cells|
  {
    seq(|cells|, i requires 0 <= i < |cells| => if i in senders then DropSender(cells[i]) else cells[i])
  }

  /** The senders whose receivers are still there, in order. */
  function RetainOpen<T>(senders: seq<nat>, cells: Cells<T>): (kept: seq<nat>) {
    if senders == [] then []
    else
      var rest := RetainOpen(senders[..|senders| - 1], cells);
      if IsClosed(cells, senders[|senders| - 1]) then rest else rest + [senders[|senders| - 1]]
  }

  lemma {:induction false} RetainOpenMembers<T>(senders: seq<nat>, cells: Cells<T>)
    ensures forall i :: i in RetainOpen(senders, cells) <==> i in senders && !IsClosed(cells, i)
    ensures |RetainOpen(senders, cells)| <= |senders|
    ensures Distinct(senders) ==> Distinct(RetainOpen(senders, cells))
  {
    if senders != [] {
      var init, last := senders[..|senders| - 1], senders[|senders| - 1];
      RetainOpenMembers(init, cells);
      assert senders == init + [last];
    }
  }

  lemma {:induction false} RetainOpenKeepsAll<T>(senders: seq<nat>, cells: Cells<T>)
    ensures |RetainOpen(senders, cells)| == |senders| <==> forall i :: i in senders ==> !IsClosed(cells, i)
  {
    if senders != [] {
      var init, last := senders[..|senders| - 1], senders[|senders| - 1];
      RetainOpenKeepsAll(init, cells);
      RetainOpenMembers(init, cells);
      assert senders == init + [last];
    }
  }

  /** Retaining keeps every open sender and the order among them. */
  lemma {:induction false} RetainOpenKeepsOrder<T>(senders: seq<nat>, cells: Cells<T>) returns (from: seq<nat>)
    ensures |from| == |RetainOpen(senders, cells)|
    ensures forall k :: 0 <= k < |from| ==> from[k] < |senders| && senders[from[k]] == RetainOpen(senders, cells)[k]
    ensures forall j, k :: 0 <= j < k < |from| ==> from[j] < from[k]
    ensures forall i :: 0 <= i < |senders| && !IsClosed(cells, senders[i]) ==> i in from
  {
    from := [];
    if senders != [] {
      var init, last := senders[..|senders| - 1], senders[|senders| - 1];
      from := RetainOpenKeepsOrder(init, cells);
      if !IsClosed(cells, last) {
        from := from + [|senders| - 1];
      }
      assert senders == init + [last];
    }
  }
}
