/**
 CoAP message retransmission: a pool of four transactions, the linked list of the open
 ones, and a retransmission timer in each block of the pool.

 Time is counted in clock ticks. A timer that runs out is stopped by the timer process,
 which posts one event; each event makes the receiver process check the list. A timer
 that is not running counts as expired. The times at which a transaction was sent, and
 the transactions that have ended, are recorded only to state properties of whole runs.
 */
module Transactions {
  import opened Wrappers

  const MAX_OPEN_TRANSACTIONS: nat := 4
  const MAX_RETRANSMIT: nat := 4
  const RESPONSE_TIMEOUT: nat := 2

  /** The timer of a block keeps its start and interval when it stops, also while the
      block is free. */
  datatype Timer = Timer(running: bool, start: nat, interval: nat)

  datatype Txn = Txn(mid: nat, confirmable: bool, counter: nat, sent: seq<nat>)

  datatype Ending = Cleared | TimedOut | NotConfirmable

  /** `pending` counts the timer events that have been posted and not handled yet. */
  datatype State = State(now: nat, slots: seq<Option<Txn>>, timers: seq<Timer>, order: seq<nat>,
                         pending: nat, ended: seq<(Txn, Ending)>)

  predicate Shaped(s: State) {
    |s.slots| == |s.timers| == MAX_OPEN_TRANSACTIONS
  }

  // ---------------------------------------------------------------------------
  // Operations
  // ---------------------------------------------------------------------------

  /** The first free slot, or the number of slots. */
  function FreeSlot(slots: seq<Option<Txn>>): (i: nat)
    ensures i <= |slots|
    ensures forall j :: 0 <= j < i ==> slots[j].Some?
    ensures i < |slots| ==> slots[i].None?
  {
    if slots == [] || slots[0].None? then 0 else 1 + FreeSlot(slots[1..])
  }

  /** coap_new_transaction; the timer of the block is left as it is. */
  function New(s: State, mid: nat, confirmable: bool): (State, Option<nat>) {
    var i := FreeSlot(s.slots);
    if i == |s.slots| then (s, None)
    else (s.(slots := s.slots[i := Some(Txn(mid, confirmable, 0, []))], order := s.order + [i]), Some(i))
  }

  function Remove(order: seq<nat>, i: nat): (r: seq<nat>)
    ensures forall j :: j in r <==> j in order && j != i
  {
    if order == [] then []
    else if order[0] == i then Remove(order[1..], i)
    else [order[0]] + Remove(order[1..], i)
  }

  predicate Open(s: State, i: nat) {
    i < |s.slots| && s.slots[i].Some?
  }

  function Stopped(t: Timer): Timer {
    t.(running := false)
  }

  /** Stopping the timer, removing the transaction from the list and freeing it. */
  function End(s: State, i: nat, t: Txn, why: Ending): State
    requires i < |s.slots| == |s.timers|
  {
    s.(slots := s.slots[i := None], timers := s.timers[i := Stopped(s.timers[i])],
       order := Remove(s.order, i), ended := s.ended + [(t, why)])
  }

  /** coap_clear_transaction. */
  function Clear(s: State, i: nat): State
    requires Shaped(s) && Open(s, i)
  {
    End(s, i, s.slots[i].value, Cleared)
  }

  function FirstInterval(second: nat, rand: nat): (r: nat)
    ensures RESPONSE_TIMEOUT * second <= r <= (RESPONSE_TIMEOUT + 1) * second
  {
    RESPONSE_TIMEOUT * second + rand % (second + 1)
  }

  /** coap_send_transaction of a transaction with a given counter. */
  function SendAs(s: State, i: nat, counter: nat, second: nat, rand: nat): State
    requires Shaped(s) && Open(s, i)
  {
    var t := s.slots[i].value.(counter := counter, sent := s.slots[i].value.sent + [s.now]);
    if !t.confirmable then End(s, i, t, NotConfirmable)
    else if counter < MAX_RETRANSMIT then
      var interval := if counter == 0 then FirstInterval(second, rand) else 2 * s.timers[i].interval;
      s.(slots := s.slots[i := Some(t)], timers := s.timers[i := Timer(true, s.now, interval)])
    else End(s, i, t, TimedOut)
  }

  function Send(s: State, i: nat, second: nat, rand: nat): State
    requires Shaped(s) && Open(s, i)
  {
    SendAs(s, i, s.slots[i].value.counter, second, rand)
  }

  /** etimer_expired of an open transaction's timer. */
  predicate Expired(s: State, i: nat) {
    Open(s, i) && i < |s.timers| && !s.timers[i].running
  }

  /** One turn of the loop of coap_check_transactions. */
  function CheckOne(s: State, i: nat, second: nat): (r: State)
    requires Shaped(s)
    ensures Shaped(r)
  {
    if Expired(s, i) then SendAs(s, i, s.slots[i].value.counter + 1, second, 0) else s
  }

  /** The walk over the list: list_remove takes the link out of a removed item, so the
      walk is over when a transaction ends. */
  function CheckFrom(s: State, todo: seq<nat>, second: nat): (r: State)
    requires Shaped(s)
    ensures Shaped(r)
    decreases |todo|
  {
    if todo == [] then s
    else
      var next := CheckOne(s, todo[0], second);
      if Open(next, todo[0]) then CheckFrom(next, todo[1..], second) else next
  }

  /** coap_check_transactions, for one posted event. */
  function Check(s: State, second: nat): (r: State)
    requires Shaped(s)
    ensures Shaped(r)
  {
    CheckFrom(s.(pending := if s.pending > 0 then s.pending - 1 else 0), s.order, second)
  }

  /** The timer process finds that a timer has run out. */
  function Fire(s: State, i: nat): State
    requires Shaped(s) && i < MAX_OPEN_TRANSACTIONS
  {
    if s.timers[i].running && s.now >= s.timers[i].start + s.timers[i].interval
    then s.(timers := s.timers[i := Stopped(s.timers[i])], pending := s.pending + 1) else s
  }

  // ---------------------------------------------------------------------------
  // Runs
  // ---------------------------------------------------------------------------

  datatype Event =
    | NewEvent(mid: nat, confirmable: bool)
    | SendEvent(slot: nat, rand: nat)
    | ClearEvent(slot: nat)
    | FireEvent(slot: nat)
    | CheckEvent
    | Tick(ticks: nat)

  /** The caller sends a transaction once and clears only open ones; the rest of the
      sending is the timer's. */
  function Step(s: State, e: Event, second: nat): (r: State)
    requires Shaped(s)
    ensures Shaped(r)
  {
    match e
    case NewEvent(mid, confirmable) => New(s, mid, confirmable).0
    case SendEvent(i, rand) => if Open(s, i) && s.slots[i].value.sent == [] then Send(s, i, second, rand) else s
    case ClearEvent(i) => if Open(s, i) then Clear(s, i) else s
    case FireEvent(i) => if i < MAX_OPEN_TRANSACTIONS then Fire(s, i) else s
    case CheckEvent => Check(s, second)
    case Tick(ticks) => s.(now := s.now + ticks)
  }

  function Run(s: State, es: seq<Event>, second: nat): (r: State)
    requires Shaped(s)
    ensures Shaped(r)
    decreases |es|
  {
    if es == [] then s else Step(Run(s, es[..|es| - 1], second), es[|es| - 1], second)
  }

  /** No open transaction is still to be sent for the first time. */
  ghost predicate AllSent(s: State) {
    forall i :: 0 <= i < |s.slots| && s.slots[i].Some? ==> s.slots[i].value.sent != []
  }

  /** Transactions are sent before the list is checked next. */
  ghost predicate Orderly(s: State, es: seq<Event>, second: nat)
    requires Shaped(s)
    decreases |es|
  {
    es == [] ||
    (Orderly(s, es[..|es| - 1], second)
     && (es[|es| - 1].CheckEvent? ==> AllSent(Run(s, es[..|es| - 1], second))))
  }

  /** No timer that has run out is left unserved while time passes. */
  ghost predicate Prompt(s: State, es: seq<Event>, second: nat)
    requires Shaped(s)
    decreases |es|
  {
    es == [] ||
    (Prompt(s, es[..|es| - 1], second)
     && (es[|es| - 1].Tick? ==> InTime(Run(s, es[..|es| - 1], second), es[|es| - 1].ticks)))
  }

  ghost predicate InTime(s: State, ticks: nat)
    requires Shaped(s)
  {
    ticks > 0 ==>
      forall i :: 0 <= i < |s.slots| && s.slots[i].Some? && s.slots[i].value.sent != [] ==>
        s.timers[i].running && s.now + ticks <= s.timers[i].start + s.timers[i].interval
  }

  const UNUSED: Timer := Timer(false, 0, 0)
  const INITIAL: State := State(0, [None, None, None, None], [UNUSED, UNUSED, UNUSED, UNUSED], [], 0, [])

  // ---------------------------------------------------------------------------
  // The invariant
  // ---------------------------------------------------------------------------

  function Doubled(x: nat, k: nat): nat {
    if k == 0 then x else 2 * Doubled(x, k - 1)
  }

  /** A first interval of two to three seconds that doubles from one sending to the
      next: the gaps between sendings are at least the intervals, and equal to them if
      `exact`. */
  ghost predicate Schedule(sent: seq<nat>, first: nat, second: nat, exact: bool) {
    && RESPONSE_TIMEOUT * second <= first <= (RESPONSE_TIMEOUT + 1) * second
    && forall k :: 0 <= k < |sent| - 1 ==>
         && sent[k + 1] >= sent[k] + Doubled(first, k)
         && (exact ==> sent[k + 1] == sent[k] + Doubled(first, k))
  }

  ghost predicate GoodTxn(t: Txn, timer: Timer, now: nat, second: nat, exact: bool) {
    if t.sent == [] then t.counter == 0 && !timer.running
    else
      && t.confirmable && t.counter < MAX_RETRANSMIT && |t.sent| == t.counter + 1
      && timer.start == t.sent[t.counter] <= now
      && (!timer.running ==> now >= timer.start + timer.interval)
      && (exact ==> now <= timer.start + timer.interval)
      && exists first :: timer.interval == Doubled(first, t.counter) && Schedule(t.sent, first, second, exact)
  }

  ghost predicate GoodEnd(t: Txn, why: Ending, second: nat, exact: bool) {
    match why
    case NotConfirmable => !t.confirmable && |t.sent| == 1
    case TimedOut => t.confirmable && |t.sent| == MAX_RETRANSMIT + 1 && exists first :: Schedule(t.sent, first, second, exact)
    case Cleared =>
      t.sent == [] || (t.confirmable && |t.sent| <= MAX_RETRANSMIT && exists first :: Schedule(t.sent, first, second, exact))
  }

  /** The list holds every open slot once, and no timer of a free block is running. */
  ghost predicate ListInv(s: State) {
    && Shaped(s)
    && (forall j, k :: 0 <= j < k < |s.order| ==> s.order[j] != s.order[k])
    && (forall i :: i in s.order <==> Open(s, i))
    && (forall i :: 0 <= i < |s.slots| && s.slots[i].None? ==> !s.timers[i].running)
  }

  ghost predicate TimesInv(s: State, second: nat, exact: bool)
    requires Shaped(s)
  {
    && (forall i :: 0 <= i < |s.slots| && s.slots[i].Some? ==> GoodTxn(s.slots[i].value, s.timers[i], s.now, second, exact))
    && (forall k :: 0 <= k < |s.ended| ==> GoodEnd(s.ended[k].0, s.ended[k].1, second, exact))
  }

  ghost predicate Inv(s: State, second: nat, exact: bool) {
    ListInv(s) && TimesInv(s, second, exact)
  }

  // ---------------------------------------------------------------------------
  // The list
  // ---------------------------------------------------------------------------

  lemma {:induction false} RemoveDistinct(order: seq<nat>, i: nat)
    requires forall j, k :: 0 <= j < k < |order| ==> order[j] != order[k]
    ensures forall j, k :: 0 <= j < k < |Remove(order, i)| ==> Remove(order, i)[j] != Remove(order, i)[k]
  {
    if order != [] {
      RemoveDistinct(order[1..], i);
      var rest := Remove(order[1..], i);
      assert forall x :: x in rest ==> x in order[1..];
      assert order[0] !in order[1..];
    }
  }

  lemma EndKeepsList(s: State, i: nat, t: Txn, why: Ending)
    requires ListInv(s) && Open(s, i)
    ensures ListInv(End(s, i, t, why))
  {
    RemoveDistinct(s.order, i);
    var r := End(s, i, t, why);
    forall j: nat ensures j in r.order <==> Open(r, j) {
      assert j in s.order <==> Open(s, j);
    }
  }

  lemma NewKeepsList(s: State, mid: nat, confirmable: bool)
    requires ListInv(s)
    ensures ListInv(New(s, mid, confirmable).0)
  {
    var i := FreeSlot(s.slots);
    if i < |s.slots| {
      assert i !in s.order;
      var r := New(s, mid, confirmable).0;
      forall j: nat ensures j in r.order <==> Open(r, j) {
        assert j in s.order <==> Open(s, j);
        assert j in r.order <==> j in s.order || j == i;
      }
    }
  }

  /** Replacing an open transaction and its timer. */
  lemma SetKeepsList(s: State, i: nat, t: Txn, timer: Timer)
    requires ListInv(s) && Open(s, i)
    ensures ListInv(s.(slots := s.slots[i := Some(t)], timers := s.timers[i := timer]))
  {
    var r := s.(slots := s.slots[i := Some(t)], timers := s.timers[i := timer]);
    forall j: nat ensures j in r.order <==> Open(r, j) {
      assert j in s.order <==> Open(s, j);
    }
  }

  /** Changing time, events and timers that run only in open blocks. */
  lemma SameSlotsKeepList(s: State, r: State)
    requires ListInv(s) && r.slots == s.slots && r.order == s.order && Shaped(r)
    requires forall i :: 0 <= i < |s.slots| ==> r.timers[i].running ==> s.timers[i].running
    ensures ListInv(r)
  {
    forall j: nat ensures j in r.order <==> Open(r, j) {
      assert j in s.order <==> Open(s, j);
    }
  }

  lemma SendKeepsList(s: State, i: nat, counter: nat, second: nat, rand: nat)
    requires ListInv(s) && Open(s, i)
    ensures ListInv(SendAs(s, i, counter, second, rand))
  {
    hide ListInv, Remove;
    assert Shaped(s) by { ListShaped(s); }
    var t := s.slots[i].value.(counter := counter, sent := s.slots[i].value.sent + [s.now]);
    EndKeepsList(s, i, t, NotConfirmable);
    EndKeepsList(s, i, t, TimedOut);
    SetKeepsList(s, i, t, Timer(true, s.now, FirstInterval(second, rand)));
    SetKeepsList(s, i, t, Timer(true, s.now, 2 * s.timers[i].interval));
  }

  lemma ListShaped(s: State)
    requires ListInv(s)
    ensures Shaped(s)
  {
  }

  lemma {:induction false} CheckKeepsList(s: State, todo: seq<nat>, second: nat)
    requires ListInv(s)
    ensures ListInv(CheckFrom(s, todo, second))
    decreases |todo|
  {
    hide ListInv, SendAs;
    ListShaped(s);
    if todo != [] {
      if Expired(s, todo[0]) { SendKeepsList(s, todo[0], s.slots[todo[0]].value.counter + 1, second, 0); }
      CheckKeepsList(CheckOne(s, todo[0], second), todo[1..], second);
    }
  }

  lemma StepKeepsList(s: State, e: Event, second: nat)
    requires ListInv(s)
    ensures ListInv(Step(s, e, second))
  {
    hide ListInv, New, SendAs, End, CheckFrom;
    ListShaped(s);
    match e
    case NewEvent(mid, confirmable) => NewKeepsList(s, mid, confirmable);
    case SendEvent(i, rand) => if Open(s, i) { SendKeepsList(s, i, s.slots[i].value.counter, second, rand); }
    case ClearEvent(i) => if Open(s, i) { EndKeepsList(s, i, s.slots[i].value, Cleared); }
    case FireEvent(i) => if i < MAX_OPEN_TRANSACTIONS { SameSlotsKeepList(s, Fire(s, i)); }
    case CheckEvent =>
      var s1 := s.(pending := if s.pending > 0 then s.pending - 1 else 0);
      SameSlotsKeepList(s, s1);
      CheckKeepsList(s1, s.order, second);
    case Tick(ticks) => SameSlotsKeepList(s, s.(now := s.now + ticks));
  }

  lemma {:induction false} RunKeepsList(es: seq<Event>, second: nat)
    ensures ListInv(Run(INITIAL, es, second))
    decreases |es|
  {
    hide Step;
    if es != [] {
      RunKeepsList(es[..|es| - 1], second);
      StepKeepsList(Run(INITIAL, es[..|es| - 1], second), es[|es| - 1], second);
    }
  }

  /** A list of distinct slots is no longer than the pool. */
  lemma ListFits(s: State)
    requires ListInv(s)
    ensures |s.order| <= MAX_OPEN_TRANSACTIONS
  {
    assert forall j :: 0 <= j < |s.order| ==> s.order[j] in s.order;
    DistinctBelow(s.order, MAX_OPEN_TRANSACTIONS);
  }

  lemma {:induction false} DistinctBelow(order: seq<nat>, n: nat)
    requires forall j, k :: 0 <= j < k < |order| ==> order[j] != order[k]
    requires forall j :: 0 <= j < |order| ==> order[j] < n
    ensures |order| <= n
    decreases n
  {
    if order == [] {
    } else if order[0] >= n {
      assert false;
    } else {
      var rest := Remove(order, n - 1);
      RemoveDistinct(order, n - 1);
      forall j | 0 <= j < |rest| ensures rest[j] < n - 1 {
        assert rest[j] in order;
      }
      DistinctBelow(rest, n - 1);
      RemoveLength(order, n - 1);
    }
  }

  lemma {:induction false} RemoveLength(order: seq<nat>, i: nat)
    requires forall j, k :: 0 <= j < k < |order| ==> order[j] != order[k]
    ensures |order| <= |Remove(order, i)| + 1
    ensures i !in order ==> Remove(order, i) == order
  {
    if order != [] {
      RemoveLength(order[1..], i);
      if order[0] == i {
        assert i !in order[1..];
      }
    }
  }

  /** A new transaction is refused exactly when four are open. */
  lemma RefusedExactly(s: State, mid: nat, confirmable: bool)
    requires ListInv(s)
    ensures New(s, mid, confirmable).1.None? <==> |s.order| == MAX_OPEN_TRANSACTIONS
  {
    ListFits(s);
    var i := FreeSlot(s.slots);
    if i == |s.slots| {
      AllOpen(s);
    } else {
      assert i !in s.order;
      var order := s.order + [i];
      forall j | 0 <= j < |order| ensures order[j] < MAX_OPEN_TRANSACTIONS {
        assert j < |s.order| ==> s.order[j] in s.order;
      }
      DistinctBelow(order, MAX_OPEN_TRANSACTIONS);
    }
  }

  lemma AllOpen(s: State)
    requires ListInv(s) && forall j :: 0 <= j < |s.slots| ==> s.slots[j].Some?
    ensures |s.order| == MAX_OPEN_TRANSACTIONS
  {
    ListFits(s);
    assert Open(s, 0) && Open(s, 1) && Open(s, 2) && Open(s, 3);
    var a :| 0 <= a < |s.order| && s.order[a] == 0;
    var b :| 0 <= b < |s.order| && s.order[b] == 1;
    var c :| 0 <= c < |s.order| && s.order[c] == 2;
    var d :| 0 <= d < |s.order| && s.order[d] == 3;
  }

  // ---------------------------------------------------------------------------
  // Times
  // ---------------------------------------------------------------------------

  lemma EndKeepsTimes(s: State, i: nat, t: Txn, why: Ending, second: nat, exact: bool)
    requires Shaped(s) && TimesInv(s, second, exact) && i < |s.slots| && GoodEnd(t, why, second, exact)
    ensures TimesInv(End(s, i, t, why), second, exact)
  {
    hide GoodTxn, GoodEnd;
  }

  lemma SetKeepsTimes(s: State, i: nat, t: Txn, timer: Timer, second: nat, exact: bool)
    requires Shaped(s) && TimesInv(s, second, exact) && i < |s.slots| && GoodTxn(t, timer, s.now, second, exact)
    ensures TimesInv(s.(slots := s.slots[i := Some(t)], timers := s.timers[i := timer]), second, exact)
  {
    hide GoodTxn, GoodEnd;
  }

  /** Sending for the first time. */
  lemma FirstSend(s: State, i: nat, second: nat, rand: nat, exact: bool)
    requires Inv(s, second, exact) && Open(s, i) && s.slots[i].value.sent == []
    ensures TimesInv(Send(s, i, second, rand), second, exact)
  {
    hide Remove;
    var t := s.slots[i].value;
    var t1 := t.(sent := [s.now]);
    assert t.sent + [s.now] == [s.now];
    assert GoodTxn(t, s.timers[i], s.now, second, exact);
    if !t.confirmable {
      EndKeepsTimes(s, i, t1, NotConfirmable, second, exact);
    } else {
      var first := FirstInterval(second, rand);
      assert first == Doubled(first, 0);
      assert Schedule([s.now], first, second, exact);
      SetKeepsTimes(s, i, t1, Timer(true, s.now, first), second, exact);
    }
  }

  /** One more sending, at or after the end of the interval. */
  lemma ScheduleGrows(sent: seq<nat>, first: nat, now: nat, second: nat, exact: bool)
    requires sent != [] && Schedule(sent, first, second, exact)
    requires now >= sent[|sent| - 1] + Doubled(first, |sent| - 1)
    requires exact ==> now == sent[|sent| - 1] + Doubled(first, |sent| - 1)
    ensures Schedule(sent + [now], first, second, exact)
  {
  }

  /** Retransmission by an expired timer. */
  lemma CheckOneKeepsTimes(s: State, i: nat, second: nat, exact: bool)
    requires Shaped(s) && TimesInv(s, second, exact) && AllSent(s)
    ensures TimesInv(CheckOne(s, i, second), second, exact) && AllSent(CheckOne(s, i, second))
  {
    hide Remove;
    if Expired(s, i) {
      var t, timer := s.slots[i].value, s.timers[i];
      assert GoodTxn(t, timer, s.now, second, exact);
      var first :| timer.interval == Doubled(first, t.counter) && Schedule(t.sent, first, second, exact);
      ScheduleGrows(t.sent, first, s.now, second, exact);
      Resent(s, i, first, second, exact);
    }
  }

  lemma Resent(s: State, i: nat, first: nat, second: nat, exact: bool)
    requires Shaped(s) && TimesInv(s, second, exact) && AllSent(s) && Expired(s, i)
    requires var t := s.slots[i].value;
             && t.confirmable && t.counter < MAX_RETRANSMIT && |t.sent| == t.counter + 1
             && s.timers[i].interval == Doubled(first, t.counter)
             && Schedule(t.sent + [s.now], first, second, exact)
    ensures TimesInv(CheckOne(s, i, second), second, exact) && AllSent(CheckOne(s, i, second))
  {
    hide Schedule, Remove;
    var t := s.slots[i].value;
    var t1 := t.(counter := t.counter + 1, sent := t.sent + [s.now]);
    if t1.counter < MAX_RETRANSMIT {
      assert Doubled(first, t1.counter) == 2 * Doubled(first, t.counter);
      SetKeepsTimes(s, i, t1, Timer(true, s.now, 2 * s.timers[i].interval), second, exact);
    } else {
      EndKeepsTimes(s, i, t1, TimedOut, second, exact);
    }
  }

  lemma {:induction false} CheckKeepsTimes(s: State, todo: seq<nat>, second: nat, exact: bool)
    requires Shaped(s) && TimesInv(s, second, exact) && AllSent(s)
    ensures TimesInv(CheckFrom(s, todo, second), second, exact)
    decreases |todo|
  {
    hide TimesInv, CheckOne, AllSent;
    if todo != [] {
      CheckOneKeepsTimes(s, todo[0], second, exact);
      CheckKeepsTimes(CheckOne(s, todo[0], second), todo[1..], second, exact);
    }
  }

  lemma ClearKeepsTimes(s: State, i: nat, second: nat, exact: bool)
    requires Inv(s, second, exact) && Open(s, i)
    ensures TimesInv(Clear(s, i), second, exact)
  {
    hide Schedule;
    assert GoodTxn(s.slots[i].value, s.timers[i], s.now, second, exact);
    EndKeepsTimes(s, i, s.slots[i].value, Cleared, second, exact);
  }

  lemma NewKeepsTimes(s: State, mid: nat, confirmable: bool, second: nat, exact: bool)
    requires Inv(s, second, exact)
    ensures Shaped(New(s, mid, confirmable).0) && TimesInv(New(s, mid, confirmable).0, second, exact)
  {
    hide Schedule;
  }

  lemma FireKeepsTimes(s: State, i: nat, second: nat, exact: bool)
    requires Inv(s, second, exact) && i < MAX_OPEN_TRANSACTIONS
    ensures TimesInv(Fire(s, i), second, exact)
  {
    hide Schedule;
    var r := Fire(s, i);
    forall j | 0 <= j < |r.slots| && r.slots[j].Some? ensures GoodTxn(r.slots[j].value, r.timers[j], r.now, second, exact) {
      assert GoodTxn(s.slots[j].value, s.timers[j], s.now, second, exact);
    }
  }

  lemma TickKeepsTimes(s: State, ticks: nat, second: nat, exact: bool)
    requires Inv(s, second, exact) && (exact ==> InTime(s, ticks))
    ensures TimesInv(s.(now := s.now + ticks), second, exact)
  {
    hide Schedule;
    var r := s.(now := s.now + ticks);
    forall i | 0 <= i < |r.slots| && r.slots[i].Some? ensures GoodTxn(r.slots[i].value, r.timers[i], r.now, second, exact) {
      assert GoodTxn(s.slots[i].value, s.timers[i], s.now, second, exact);
    }
  }

  lemma StepKeeps(s: State, e: Event, second: nat, exact: bool)
    requires Inv(s, second, exact) && (exact && e.Tick? ==> InTime(s, e.ticks)) && (e.CheckEvent? ==> AllSent(s))
    ensures Inv(Step(s, e, second), second, exact)
  {
    hide ListInv, TimesInv, InTime, New, Send, Clear, CheckFrom, Fire;
    ListShaped(s);
    StepKeepsList(s, e, second);
    match e
    case NewEvent(mid, confirmable) => NewKeepsTimes(s, mid, confirmable, second, exact);
    case SendEvent(i, rand) => if Open(s, i) && s.slots[i].value.sent == [] { FirstSend(s, i, second, rand, exact); }
    case ClearEvent(i) => if Open(s, i) { ClearKeepsTimes(s, i, second, exact); }
    case FireEvent(i) => if i < MAX_OPEN_TRANSACTIONS { FireKeepsTimes(s, i, second, exact); }
    case CheckEvent =>
      var s1 := s.(pending := if s.pending > 0 then s.pending - 1 else 0);
      SameTimes(s, s1, second, exact);
      CheckKeepsTimes(s1, s.order, second, exact);
    case Tick(ticks) => TickKeepsTimes(s, ticks, second, exact);
  }

  lemma SameTimes(s: State, r: State, second: nat, exact: bool)
    requires Shaped(s) && TimesInv(s, second, exact) && r == s.(pending := r.pending)
    ensures TimesInv(r, second, exact)
  {
    hide GoodTxn, GoodEnd;
  }

  /** Every orderly run keeps the invariant, and its exact form if the run is prompt. */
  lemma {:induction false} RunKeeps(es: seq<Event>, second: nat, exact: bool)
    requires Orderly(INITIAL, es, second) && (exact ==> Prompt(INITIAL, es, second))
    ensures Inv(Run(INITIAL, es, second), second, exact)
    decreases |es|
  {
    hide Step;
    if es != [] {
      RunKeeps(es[..|es| - 1], second, exact);
      StepKeeps(Run(INITIAL, es[..|es| - 1], second), es[|es| - 1], second, exact);
    }
  }

  // ---------------------------------------------------------------------------
  // Whole runs
  // ---------------------------------------------------------------------------

  /** In every run the list holds each open transaction once and at most four in all,
      and a new one is refused exactly when four are open. */
  lemma RunList(es: seq<Event>, second: nat, mid: nat, confirmable: bool)
    ensures var s := Run(INITIAL, es, second);
            && (forall j, k :: 0 <= j < k < |s.order| ==> s.order[j] != s.order[k])
            && (forall i :: i in s.order <==> Open(s, i)) && |s.order| <= MAX_OPEN_TRANSACTIONS
            && (New(s, mid, confirmable).1.None? <==> |s.order| == MAX_OPEN_TRANSACTIONS)
  {
    hide New, Run;
    RunKeepsList(es, second);
    var s := Run(INITIAL, es, second);
    ListFits(s);
    RefusedExactly(s, mid, confirmable);
  }

  /** In every orderly run a transaction that ended without an answer was sent five
      times, with gaps of at least I, 2I, 4I and 8I for an I between two and three
      seconds; if expired timers are served promptly the gaps are exactly these and the
      last sending is at most 45 seconds after the first. A non-confirmable one was sent
      once. */
  lemma RunEnded(es: seq<Event>, second: nat, k: nat)
    requires Orderly(INITIAL, es, second) && k < |Run(INITIAL, es, second).ended|
    ensures var (t, why) := Run(INITIAL, es, second).ended[k];
            && (why.NotConfirmable? ==> !t.confirmable && |t.sent| == 1)
            && (why.Cleared? ==> |t.sent| <= 4)
            && (why.TimedOut? ==>
                  && t.confirmable && |t.sent| == 5
                  && (exists i: nat :: Gaps(t.sent, i, second, false))
                  && (Prompt(INITIAL, es, second) ==>
                        (exists i: nat :: Gaps(t.sent, i, second, true)) && t.sent[4] <= t.sent[0] + 45 * second))
  {
    hide Run, Schedule;
    RunKeeps(es, second, false);
    var s := Run(INITIAL, es, second);
    var (t, why) := s.ended[k];
    assert GoodEnd(t, why, second, false);
    if why.TimedOut? {
      var first :| Schedule(t.sent, first, second, false);
      FiveSendings(t.sent, first, second, false);
      if Prompt(INITIAL, es, second) {
        RunKeeps(es, second, true);
        assert GoodEnd(t, why, second, true);
        var first1 :| Schedule(t.sent, first1, second, true);
        FiveSendings(t.sent, first1, second, true);
      }
    }
  }

  /** The gaps between five sendings, written out. */
  ghost predicate Gaps(sent: seq<nat>, i: nat, second: nat, exact: bool)
    requires |sent| == 5
  {
    && 2 * second <= i <= 3 * second
    && sent[1] >= sent[0] + i && sent[2] >= sent[1] + 2 * i && sent[3] >= sent[2] + 4 * i && sent[4] >= sent[3] + 8 * i
    && (exact ==> sent[1] == sent[0] + i && sent[2] == sent[1] + 2 * i
                  && sent[3] == sent[2] + 4 * i && sent[4] == sent[3] + 8 * i)
  }

  lemma FiveSendings(sent: seq<nat>, first: nat, second: nat, exact: bool)
    requires |sent| == 5 && Schedule(sent, first, second, exact)
    ensures Gaps(sent, first, second, exact)
    ensures exact ==> sent[4] <= sent[0] + 45 * second
  {
    assert Doubled(first, 1) == 2 * first;
    assert Doubled(first, 2) == 2 * Doubled(first, 1);
    assert Doubled(first, 3) == 2 * Doubled(first, 2);
    assert sent[0 + 1] >= sent[0] + Doubled(first, 0);
    assert sent[1 + 1] >= sent[1] + Doubled(first, 1);
    assert sent[2 + 1] >= sent[2] + Doubled(first, 2);
    assert sent[3 + 1] >= sent[3] + Doubled(first, 3);
  }

  // ---------------------------------------------------------------------------
  // What one check serves
  // ---------------------------------------------------------------------------

  /** Serving the transaction ends it: it is not confirmable or was sent often enough. */
  predicate Ends(s: State, i: nat) {
    Expired(s, i) && (!s.slots[i].value.confirmable || s.slots[i].value.counter + 1 >= MAX_RETRANSMIT)
  }

  /** Slot and timer after the transaction has been served. */
  function Served(s: State, i: nat): (Option<Txn>, Timer)
    requires Shaped(s) && Expired(s, i)
  {
    var t := s.slots[i].value;
    if Ends(s, i) then (None, Stopped(s.timers[i]))
    else (Some(t.(counter := t.counter + 1, sent := t.sent + [s.now])), Timer(true, s.now, 2 * s.timers[i].interval))
  }

  lemma CheckOneServes(s: State, i: nat, second: nat)
    requires Shaped(s)
    ensures var r := CheckOne(s, i, second);
            && Shaped(r) && r.now == s.now && r.pending == s.pending
            && (forall j :: 0 <= j < |s.slots| && j != i ==> r.slots[j] == s.slots[j] && r.timers[j] == s.timers[j])
            && (Expired(s, i) ==> (r.slots[i], r.timers[i]) == Served(s, i))
            && (!Expired(s, i) ==> r == s)
            && (Open(r, i) <==> Open(s, i) && !Ends(s, i))
  {
    hide Remove;
  }

  /** The walk over `todo` gets to slot `i`. */
  predicate Reached(s: State, todo: seq<nat>, i: nat)
    decreases |todo|
  {
    todo != [] && (todo[0] == i || (!Ends(s, todo[0]) && Reached(s, todo[1..], i)))
  }

  lemma {:induction false} ReachedAgrees(s: State, r: State, done: nat, todo: seq<nat>, i: nat)
    requires Shaped(s) && Shaped(r) && done !in todo
    requires forall j :: 0 <= j < |s.slots| && j != done ==> r.slots[j] == s.slots[j] && r.timers[j] == s.timers[j]
    ensures Reached(r, todo, i) <==> Reached(s, todo, i)
    decreases |todo|
  {
    if todo != [] {
      assert todo[0] in todo;
      ReachedAgrees(s, r, done, todo[1..], i);
    }
  }

  /** The walk serves the expired transactions that it reaches and changes no others. */
  lemma {:induction false} WalkServes(s: State, todo: seq<nat>, second: nat, i: nat)
    requires Shaped(s) && i < MAX_OPEN_TRANSACTIONS
    requires forall j, k :: 0 <= j < k < |todo| ==> todo[j] != todo[k]
    requires forall j :: 0 <= j < |todo| ==> Open(s, todo[j])
    ensures var r := CheckFrom(s, todo, second);
            && r.now == s.now && r.pending == s.pending
            && (r.slots[i], r.timers[i])
               == if Reached(s, todo, i) && Expired(s, i) then Served(s, i) else (s.slots[i], s.timers[i])
    decreases |todo|
  {
    hide CheckOne, Served;
    if todo != [] {
      var k := todo[0];
      var next := CheckOne(s, k, second);
      CheckOneServes(s, k, second);
      if Open(next, k) {
        assert k !in todo[1..];
        forall j | 0 <= j < |todo[1..]| ensures Open(next, todo[1..][j]) {
          assert todo[1..][j] in todo[1..] && Open(s, todo[j + 1]);
        }
        WalkServes(next, todo[1..], second, i);
        ReachedAgrees(s, next, k, todo[1..], i);
        if i != k {
          SameServed(s, next, i);
        } else {
          NotReached(next, todo[1..], i);
        }
      }
    }
  }

  lemma SameServed(s: State, r: State, i: nat)
    requires Shaped(s) && Shaped(r) && i < MAX_OPEN_TRANSACTIONS
    requires s.slots[i] == r.slots[i] && s.timers[i] == r.timers[i] && s.now == r.now
    ensures Expired(s, i) <==> Expired(r, i)
    ensures Expired(s, i) ==> Served(s, i) == Served(r, i)
  {
  }

  lemma {:induction false} NotReached(s: State, todo: seq<nat>, i: nat)
    requires i !in todo
    ensures !Reached(s, todo, i)
    decreases |todo|
  {
    if todo != [] {
      assert todo[0] in todo;
      NotReached(s, todo[1..], i);
    }
  }

  lemma {:induction false} ReachedByPosition(s: State, todo: seq<nat>, k: nat)
    requires k < |todo| && forall a, b :: 0 <= a < b < |todo| ==> todo[a] != todo[b]
    ensures Reached(s, todo, todo[k]) <==> forall j :: 0 <= j < k ==> !Ends(s, todo[j])
    decreases |todo|
  {
    if k > 0 {
      ReachedByPosition(s, todo[1..], k - 1);
      assert forall j :: 0 <= j < k - 1 ==> todo[1..][j] == todo[j + 1];
      if Reached(s, todo, todo[k]) {
        forall j | 0 <= j < k ensures !Ends(s, todo[j]) {
          if j > 0 { assert todo[1..][j - 1] == todo[j]; }
        }
      }
    }
  }

  /** coap_check_transactions serves exactly the expired transactions up to and including
      the first one that ends, and leaves everything behind it alone. */
  lemma CheckEffect(s: State, second: nat, k: nat)
    requires ListInv(s) && k < |s.order|
    ensures var i := s.order[k];
            var r := Check(s, second);
            && i < MAX_OPEN_TRANSACTIONS
            && (r.slots[i], r.timers[i])
               == if Expired(s, i) && (forall j :: 0 <= j < k ==> !Ends(s, s.order[j])) then Served(s, i)
                  else (s.slots[i], s.timers[i])
  {
    hide Served, CheckFrom, Ends, Expired, Reached;
    var i := s.order[k];
    assert i in s.order;
    forall j | 0 <= j < |s.order| ensures Open(s, s.order[j]) { assert s.order[j] in s.order; }
    var s1 := s.(pending := if s.pending > 0 then s.pending - 1 else 0);
    WalkServes(s1, s.order, second, i);
    ReachedByPosition(s1, s.order, k);
    SameServed(s, s1, i);
    forall j: nat ensures Ends(s1, j) <==> Ends(s, j) { EndsAgrees(s, s1, j); }
  }

  lemma EndsAgrees(s: State, r: State, j: nat)
    requires s.slots == r.slots && s.timers == r.timers
    ensures Ends(s, j) <==> Ends(r, j)
  {
  }

  /** One check leaves no transaction expired exactly when none in front of an expired
      one ends. */
  lemma AllServedExactly(s: State, second: nat)
    requires ListInv(s)
    ensures (forall i :: 0 <= i < MAX_OPEN_TRANSACTIONS ==> !Expired(Check(s, second), i))
            <==> (forall j, k :: 0 <= j < k < |s.order| && Expired(s, s.order[k]) ==> !Ends(s, s.order[j]))
  {
    hide Check, Ends, Expired;
    var r := Check(s, second);
    forall k | 0 <= k < |s.order|
      ensures s.order[k] < MAX_OPEN_TRANSACTIONS
      ensures Expired(r, s.order[k])
              <==> Expired(s, s.order[k]) && !(forall j :: 0 <= j < k ==> !Ends(s, s.order[j]))
    {
      CheckEffect(s, second, k);
      ServedIsNotExpired(s, r, s.order[k]);
    }
    forall i | 0 <= i < MAX_OPEN_TRANSACTIONS && i !in s.order ensures !Expired(r, i) {
      ClosedStaysClosed(s, second, i);
    }
    if forall i :: 0 <= i < MAX_OPEN_TRANSACTIONS ==> !Expired(r, i) {
      forall j, k | 0 <= j < k < |s.order| && Expired(s, s.order[k]) ensures !Ends(s, s.order[j]) {
        assert !Expired(r, s.order[k]);
      }
    }
  }

  lemma ServedIsNotExpired(s: State, r: State, i: nat)
    requires Shaped(s) && Shaped(r) && i < MAX_OPEN_TRANSACTIONS
    ensures (r.slots[i], r.timers[i]) == (s.slots[i], s.timers[i]) ==> (Expired(r, i) <==> Expired(s, i))
    ensures Expired(s, i) && (r.slots[i], r.timers[i]) == Served(s, i) ==> !Expired(r, i)
  {
  }

  lemma ClosedStaysClosed(s: State, second: nat, i: nat)
    requires ListInv(s) && i < MAX_OPEN_TRANSACTIONS && i !in s.order
    ensures !Expired(Check(s, second), i)
  {
    forall j | 0 <= j < |s.order| ensures Open(s, s.order[j]) { assert s.order[j] in s.order; }
    var s1 := s.(pending := if s.pending > 0 then s.pending - 1 else 0);
    WalkServes(s1, s.order, second, i);
    NotReached(s1, s.order, i);
    assert !Open(s, i);
  }

  /** Two expired transactions of which the first ends: the second is left alone. */
  lemma WalkStops(s: State, second: nat)
    requires ListInv(s) && s.order == [0, 1] && Expired(s, 0) && Expired(s, 1)
    requires s.slots[0].value.counter == 3 && s.slots[1].value.counter == 0
    ensures var r := Check(s, second);
            r.slots[0] == None && r.slots[1] == s.slots[1] && Expired(r, 1)
  {
    CheckEffect(s, second, 0);
    CheckEffect(s, second, 1);
    assert Ends(s, s.order[0]);
  }

  // ---------------------------------------------------------------------------
  // No expired transaction is forgotten
  // ---------------------------------------------------------------------------

  /** 1 for a transaction that was sent, whose timer has run out, and that has not been
      served yet. */
  function Waits(s: State, i: nat): nat {
    if Expired(s, i) && s.slots[i].value.sent != [] then 1 else 0
  }

  function Waiting(s: State): nat {
    Waits(s, 0) + Waits(s, 1) + Waits(s, 2) + Waits(s, 3)
  }

  /** The first expired transaction of a list is reached by the walk. */
  lemma {:induction false} FirstExpired(s: State, todo: seq<nat>, i: nat) returns (k: nat)
    requires i in todo && Expired(s, i)
    ensures k < |todo| && Expired(s, todo[k]) && forall j :: 0 <= j < k ==> !Expired(s, todo[j])
    decreases |todo|
  {
    if Expired(s, todo[0]) {
      k := 0;
    } else {
      var rest := FirstExpired(s, todo[1..], i);
      k := rest + 1;
      forall j | 0 <= j < k ensures !Expired(s, todo[j]) {
        if j > 0 { assert todo[1..][j - 1] == todo[j]; }
      }
    }
  }

  /** A check serves at least one waiting transaction if there is any. */
  lemma CheckServesOne(s: State, second: nat)
    requires ListInv(s) && AllSent(s)
    ensures Waiting(Check(s, second)) <= if Waiting(s) > 0 then Waiting(s) - 1 else 0
  {
    hide Check, CheckFrom, Served;
    var r := Check(s, second);
    forall i | 0 <= i < MAX_OPEN_TRANSACTIONS
      ensures Waits(r, i) <= Waits(s, i)
    {
      WaitsLess(s, second, i);
    }
    assert Waits(r, 0) <= Waits(s, 0) && Waits(r, 1) <= Waits(s, 1) && Waits(r, 2) <= Waits(s, 2) && Waits(r, 3) <= Waits(s, 3);
    if Waiting(s) > 0 {
      var i := if Waits(s, 0) > 0 then 0 else if Waits(s, 1) > 0 then 1 else if Waits(s, 2) > 0 then 2 else 3;
      assert i in s.order;
      var k := FirstExpired(s, s.order, i);
      CheckEffect(s, second, k);
      ServedIsNotExpired(s, r, s.order[k]);
      assert Waits(r, s.order[k]) == 0 && Waits(s, s.order[k]) == 1;
    }
  }

  lemma WaitsLess(s: State, second: nat, i: nat)
    requires ListInv(s) && AllSent(s) && i < MAX_OPEN_TRANSACTIONS
    ensures Waits(Check(s, second), i) <= Waits(s, i)
  {
    hide Check, Served;
    if i in s.order {
      var k :| 0 <= k < |s.order| && s.order[k] == i;
      CheckEffect(s, second, k);
      ServedIsNotExpired(s, Check(s, second), i);
    } else {
      ClosedStaysClosed(s, second, i);
    }
  }

  lemma {:induction false} CheckPending(s: State, todo: seq<nat>, second: nat)
    requires Shaped(s)
    ensures CheckFrom(s, todo, second).pending == s.pending
    decreases |todo|
  {
    if todo != [] {
      CheckOneServes(s, todo[0], second);
      CheckPending(CheckOne(s, todo[0], second), todo[1..], second);
    }
  }

  lemma StepWaiting(s: State, e: Event, second: nat)
    requires ListInv(s) && Waiting(s) <= s.pending && (e.CheckEvent? ==> AllSent(s))
    ensures Waiting(Step(s, e, second)) <= Step(s, e, second).pending
  {
    hide Check, New, Clear, Send, Fire, Waiting;
    match e
    case CheckEvent =>
      CheckServesOne(s, second);
      CheckHandlesEvent(s, second);
    case NewEvent(mid, confirmable) => NewWaiting(s, mid, confirmable);
    case SendEvent(i, rand) => if Open(s, i) { SendWaiting(s, i, second, rand); }
    case ClearEvent(i) => if Open(s, i) { ClearWaiting(s, i); }
    case FireEvent(i) => if i < MAX_OPEN_TRANSACTIONS { FireWaiting(s, i); }
    case Tick(ticks) => TickWaiting(s, ticks);
  }

  lemma NewWaiting(s: State, mid: nat, confirmable: bool)
    requires ListInv(s)
    ensures var r := New(s, mid, confirmable).0; Waiting(r) <= Waiting(s) && r.pending == s.pending
  {
  }

  lemma SendWaiting(s: State, i: nat, second: nat, rand: nat)
    requires Shaped(s) && Open(s, i)
    ensures var r := Send(s, i, second, rand); Waiting(r) <= Waiting(s) && r.pending == s.pending
  {
    hide Remove;
  }

  lemma ClearWaiting(s: State, i: nat)
    requires Shaped(s) && Open(s, i)
    ensures Waiting(Clear(s, i)) <= Waiting(s) && Clear(s, i).pending == s.pending
  {
    hide Remove;
  }

  lemma FireWaiting(s: State, i: nat)
    requires Shaped(s) && i < MAX_OPEN_TRANSACTIONS
    ensures Waiting(Fire(s, i)) - Waiting(s) <= Fire(s, i).pending - s.pending
  {
  }

  lemma TickWaiting(s: State, ticks: nat)
    ensures Waiting(s.(now := s.now + ticks)) == Waiting(s)
  {
  }

  lemma CheckHandlesEvent(s: State, second: nat)
    requires Shaped(s)
    ensures Check(s, second).pending == if s.pending > 0 then s.pending - 1 else 0
  {
    CheckPending(s.(pending := if s.pending > 0 then s.pending - 1 else 0), s.order, second);
  }

  /** In every orderly run at most as many transactions wait to be served as timer events
      are still to be handled, so none waits once all have been. */
  lemma {:induction false} RunWaiting(es: seq<Event>, second: nat)
    requires Orderly(INITIAL, es, second)
    ensures Waiting(Run(INITIAL, es, second)) <= Run(INITIAL, es, second).pending
    decreases |es|
  {
    hide Step, Waiting;
    if es == [] {
      NobodyWaits();
    } else {
      RunWaiting(es[..|es| - 1], second);
      RunKeepsList(es[..|es| - 1], second);
      StepWaiting(Run(INITIAL, es[..|es| - 1], second), es[|es| - 1], second);
    }
  }

  lemma NoneForgotten(es: seq<Event>, second: nat, i: nat)
    requires Orderly(INITIAL, es, second) && Run(INITIAL, es, second).pending == 0
    requires Open(Run(INITIAL, es, second), i) && Run(INITIAL, es, second).slots[i].value.sent != []
    ensures !Expired(Run(INITIAL, es, second), i)
  {
    hide Run;
    RunWaiting(es, second);
    assert Waits(Run(INITIAL, es, second), i) == 0;
  }

  lemma NobodyWaits()
    ensures Waiting(INITIAL) == 0
  {
  }

  // ---------------------------------------------------------------------------
  // Why runs must be orderly
  // ---------------------------------------------------------------------------

  /** A check while a transaction is still to be sent: its idle timer counts as expired,
      so the walk, if it gets there, sends it with the counter at 1 and twice the
      interval that an earlier transaction left in the block. */
  lemma CheckBeforeSend(s: State, second: nat, k: nat)
    requires ListInv(s) && k < |s.order| && Open(s, s.order[k])
    requires var t := s.slots[s.order[k]].value; t.sent == [] && t.counter == 0 && t.confirmable
    requires !s.timers[s.order[k]].running && forall j :: 0 <= j < k ==> !Ends(s, s.order[j])
    ensures var r := Check(s, second);
            var i := s.order[k];
            && r.slots[i] == Some(s.slots[i].value.(counter := 1, sent := [s.now]))
            && r.timers[i] == Timer(true, s.now, 2 * s.timers[i].interval)
  {
    CheckEffect(s, second, k);
    assert [] + [s.now] == [s.now];
  }

  /** The state of a run in which one transaction is checked before it is sent. */
  function Attempt(counter: nat, sent: seq<nat>, running: bool, pending: nat): State {
    State(0, [Some(Txn(7, true, counter, sent)), None, None, None], [Timer(running, 0, 0), UNUSED, UNUSED, UNUSED],
          [0], pending, [])
  }

  lemma RunSnoc(es: seq<Event>, e: Event, second: nat)
    ensures Run(INITIAL, es + [e], second) == Step(Run(INITIAL, es, second), e, second)
  {
    assert (es + [e])[..|es + [e]| - 1] == es;
  }

  lemma FailedAttempt(counter: nat, sent: seq<nat>, pending: nat, second: nat)
    requires counter < 3
    ensures Step(Attempt(counter, sent, false, pending), CheckEvent, second)
            == Attempt(counter + 1, sent + [0], true, if pending > 0 then pending - 1 else 0)
  {
    var s := Attempt(counter, sent, false, if pending > 0 then pending - 1 else 0);
    CheckOnly(s, second);
  }

  lemma LastAttempt(sent: seq<nat>, pending: nat, second: nat)
    ensures Step(Attempt(3, sent, false, pending), CheckEvent, second).ended == [(Txn(7, true, 4, sent + [0]), TimedOut)]
  {
    var s := Attempt(3, sent, false, if pending > 0 then pending - 1 else 0);
    CheckOnly(s, second);
  }

  lemma CheckOnly(s: State, second: nat)
    requires Shaped(s) && s.order == [0]
    ensures CheckFrom(s, s.order, second) == CheckOne(s, 0, second)
  {
    hide CheckOne;
    CheckOneServes(s, 0, second);
    assert s.order[1..] == [];
  }

  lemma FireAttempt(counter: nat, sent: seq<nat>, second: nat)
    ensures Step(Attempt(counter, sent, true, 0), FireEvent(0), second) == Attempt(counter, sent, false, 1)
  {
  }

  /** Such a run in a fresh pool, where the interval is zero: four sendings at one instant
      end the transaction. */
  lemma FourSendingsAtOnce(second: nat)
    ensures var es := [NewEvent(7, true), CheckEvent, FireEvent(0), CheckEvent, FireEvent(0), CheckEvent, FireEvent(0), CheckEvent];
            Run(INITIAL, es, second).ended == [(Txn(7, true, 4, [0, 0, 0, 0]), TimedOut)]
  {
    hide Step, Run;
    var es1 := [NewEvent(7, true)];
    var es2, es3 := es1 + [CheckEvent], es1 + [CheckEvent] + [FireEvent(0)];
    var es4, es5 := es3 + [CheckEvent], es3 + [CheckEvent] + [FireEvent(0)];
    var es6, es7 := es5 + [CheckEvent], es5 + [CheckEvent] + [FireEvent(0)];
    FirstAttempt(second);
    RunSnoc(es1, CheckEvent, second);
    FailedAttempt(0, [], 0, second);
    RunSnoc(es2, FireEvent(0), second);
    FireAttempt(1, [] + [0], second);
    RunSnoc(es3, CheckEvent, second);
    FailedAttempt(1, [] + [0], 1, second);
    RunSnoc(es4, FireEvent(0), second);
    FireAttempt(2, [] + [0] + [0], second);
    RunSnoc(es5, CheckEvent, second);
    FailedAttempt(2, [] + [0] + [0], 1, second);
    RunSnoc(es6, FireEvent(0), second);
    FireAttempt(3, [] + [0] + [0] + [0], second);
    RunSnoc(es7, CheckEvent, second);
    LastAttempt([] + [0] + [0] + [0], 1, second);
    assert [] + [0] + [0] + [0] + [0] == [0, 0, 0, 0];
    assert es7 + [CheckEvent]
        == [NewEvent(7, true), CheckEvent, FireEvent(0), CheckEvent, FireEvent(0), CheckEvent, FireEvent(0), CheckEvent];
  }

  lemma FirstAttempt(second: nat)
    ensures Run(INITIAL, [NewEvent(7, true)], second) == Attempt(0, [], false, 0)
  {
    RunSnoc([], NewEvent(7, true), second);
    assert [] + [NewEvent(7, true)] == [NewEvent(7, true)];
  }

  // ---------------------------------------------------------------------------
  // The schedule is reached
  // ---------------------------------------------------------------------------

  /** One open transaction, sent last at `now`. */
  function Alone(mid: nat, counter: nat, sent: seq<nat>, now: nat, timer: Timer, pending: nat): State {
    State(now, [Some(Txn(mid, true, counter, sent)), None, None, None], [timer, UNUSED, UNUSED, UNUSED], [0], pending, [])
  }

  ghost predicate Reaches(es: seq<Event>, second: nat, s: State) {
    Orderly(INITIAL, es, second) && Prompt(INITIAL, es, second) && Run(INITIAL, es, second) == s
  }

  lemma ReachesSnoc(es: seq<Event>, e: Event, second: nat, s: State)
    requires Reaches(es, second, s) && Shaped(s)
    requires e.CheckEvent? ==> AllSent(s)
    requires e.Tick? ==> InTime(s, e.ticks)
    ensures Reaches(es + [e], second, Step(s, e, second))
  {
    hide Step, AllSent, InTime;
    assert (es + [e])[..|es + [e]| - 1] == es;
  }

  /** Created and sent at once. */
  lemma SentFirst(mid: nat, second: nat, rand: nat) returns (es: seq<Event>)
    ensures var i := FirstInterval(second, rand);
            Reaches(es, second, Alone(mid, 0, [0], 0, Timer(true, 0, i), 0))
  {
    assert Reaches([], second, INITIAL);
    ReachesSnoc([], NewEvent(mid, true), second, INITIAL);
    es := [] + [NewEvent(mid, true)];
    var s := Alone(mid, 0, [], 0, UNUSED, 0);
    assert Step(INITIAL, NewEvent(mid, true), second) == s;
    ReachesSnoc(es, SendEvent(0, rand), second, s);
    es := es + [SendEvent(0, rand)];
    assert [] + [0] == [0];
  }

  /** The interval passes, the timer runs out when it has, and the list is checked. */
  lemma NextSending(es: seq<Event>, second: nat, mid: nat, counter: nat, sent: seq<nat>, now: nat, interval: nat)
      returns (next: seq<Event>, r: State)
    requires sent != [] && Reaches(es, second, Alone(mid, counter, sent, now, Timer(true, now, interval), 0))
    ensures Reaches(next, second, r)
    ensures counter < 3 ==> r == Alone(mid, counter + 1, sent + [now + interval], now + interval, Timer(true, now + interval, 2 * interval), 0)
    ensures counter == 3 ==> r.slots[0] == None && r.order == [] && r.ended == [(Txn(mid, true, 4, sent + [now + interval]), TimedOut)]
  {
    hide Reaches, CheckFrom;
    var s := Alone(mid, counter, sent, now, Timer(true, now, interval), 0);
    ReachesSnoc(es, Tick(interval), second, s);
    var s1 := s.(now := now + interval);
    ReachesSnoc(es + [Tick(interval)], FireEvent(0), second, s1);
    var s2 := Alone(mid, counter, sent, now + interval, Timer(false, now, interval), 1);
    assert Step(s1, FireEvent(0), second) == s2;
    next := es + [Tick(interval)] + [FireEvent(0)];
    ReachesSnoc(next, CheckEvent, second, s2);
    next, r := next + [CheckEvent], Step(s2, CheckEvent, second);
    CheckOnly(s2.(pending := 0), second);
  }

  /** Every schedule is reached: whatever the clock and the random number, a confirmable
      message is sent at 0, I, 3I, 7I and 15I in an orderly and prompt run, with I the
      first interval, after which it has timed out and its slot is free. */
  lemma TimeoutReached(mid: nat, second: nat, rand: nat) returns (es: seq<Event>)
    ensures Orderly(INITIAL, es, second) && Prompt(INITIAL, es, second)
    ensures var r := Run(INITIAL, es, second);
            var i := FirstInterval(second, rand);
            r.ended == [(Txn(mid, true, 4, [0, i, 3 * i, 7 * i, 15 * i]), TimedOut)] && r.slots[0] == None && r.order == []
  {
    hide Run, Orderly, Prompt, Step, FirstInterval;
    var i := FirstInterval(second, rand);
    var s;
    es := SentFirst(mid, second, rand);
    es, s := NextSending(es, second, mid, 0, [0], 0, i);
    assert [0] + [i] == [0, i];
    es, s := NextSending(es, second, mid, 1, [0, i], i, 2 * i);
    assert [0, i] + [3 * i] == [0, i, 3 * i];
    es, s := NextSending(es, second, mid, 2, [0, i, 3 * i], 3 * i, 4 * i);
    assert [0, i, 3 * i] + [7 * i] == [0, i, 3 * i, 7 * i];
    es, s := NextSending(es, second, mid, 3, [0, i, 3 * i, 7 * i], 7 * i, 8 * i);
    assert [0, i, 3 * i, 7 * i] + [15 * i] == [0, i, 3 * i, 7 * i, 15 * i];
  }

  /** A timer that was started now runs out, and posts its event, exactly from the end of
      its interval on. */
  lemma RunsOutExactly(s: State, i: nat, second: nat, ticks: nat)
    requires Shaped(s) && i < MAX_OPEN_TRANSACTIONS && s.timers[i].running && s.timers[i].start == s.now
    ensures var r := Fire(Step(s, Tick(ticks), second), i);
            && (r.timers[i].running <==> ticks < s.timers[i].interval)
            && r.pending == s.pending + (if ticks < s.timers[i].interval then 0 else 1)
            && r.slots == s.slots && r.timers[i].interval == s.timers[i].interval
  {
  }

  /** Every interval from two to three seconds can be the first. */
  lemma FirstIntervals(second: nat, ticks: nat)
    ensures (exists rand :: FirstInterval(second, rand) == ticks) <==> 2 * second <= ticks <= 3 * second
  {
    if 2 * second <= ticks <= 3 * second {
      assert FirstInterval(second, ticks - 2 * second) == ticks;
    }
  }

  /** A new transaction starts idle at the end of the list, in a free block whose timer it
      takes over as it is; the others and their order stay. */
  lemma NewGoesLast(s: State, mid: nat, confirmable: bool)
    requires Shaped(s) && New(s, mid, confirmable).1.Some?
    ensures var (r, t) := New(s, mid, confirmable);
            && t.value < MAX_OPEN_TRANSACTIONS && !Open(s, t.value) && r.timers == s.timers
            && |r.order| == |s.order| + 1 && r.order[|s.order|] == t.value
            && (forall k :: 0 <= k < |s.order| ==> r.order[k] == s.order[k])
            && r.slots[t.value] == Some(Txn(mid, confirmable, 0, []))
            && forall i :: 0 <= i < MAX_OPEN_TRANSACTIONS && i != t.value ==> r.slots[i] == s.slots[i]
  {
  }
}
