/**
 The transaction pool as the program keeps it: blocks, timers and the links of the list
 updated in place. Every method leaves the state that the corresponding function of
 module Transactions gives.
 */
module TransactionPool {
  import opened Transactions
  import opened Wrappers

  /** The items of a list and their links. */
  ghost predicate Linked(head: Option<nat>, next: seq<Option<nat>>, order: seq<nat>) {
    && head == LinkTo(order, 0)
    && forall k :: 0 <= k < |order| ==> order[k] < |next| && next[order[k]] == LinkTo(order, k + 1)
  }

  ghost function LinkTo(order: seq<nat>, k: nat): Option<nat> {
    if k < |order| then Some(order[k]) else None
  }

  /** The list without its item `k`. */
  ghost function Without(order: seq<nat>, k: nat): (r: seq<nat>)
    requires k < |order|
    ensures |r| == |order| - 1 && forall j :: 0 <= j < |r| ==> r[j] == order[if j < k then j else j + 1]
  {
    order[..k] + order[k + 1..]
  }

  ghost predicate AllDistinct(order: seq<nat>) {
    forall j, k :: 0 <= j < k < |order| ==> order[j] != order[k]
  }

  class TransactionPool {
    const second: nat
    const slots: array<Option<Txn>>
    const timers: array<Timer>
    const next: array<Option<nat>>
    var head: Option<nat>
    var now: nat
    var pending: nat
    /** The items of the list. */
    ghost var order: seq<nat>
    ghost var ended: seq<(Txn, Ending)>

    ghost function State(): State
      reads this, slots, timers
    {
      Transactions.State(now, slots[..], timers[..], order, pending, ended)
    }

    ghost predicate Valid()
      reads this, slots, timers, next
    {
      && next.Length == MAX_OPEN_TRANSACTIONS
      && ListInv(State()) && Linked(head, next[..], order)
    }

    constructor (clockSecond: nat)
      ensures Valid() && fresh(slots) && fresh(timers) && fresh(next) && State() == INITIAL && second == clockSecond
    {
      second := clockSecond;
      slots := new Option<Txn>[MAX_OPEN_TRANSACTIONS](_ => None);
      timers := new Timer[MAX_OPEN_TRANSACTIONS](_ => UNUSED);
      next := new Option<nat>[MAX_OPEN_TRANSACTIONS](_ => None);
      head, now, pending, order, ended := None, 0, 0, [], [];
    }

    // -------------------------------------------------------------------------
    // The list
    // -------------------------------------------------------------------------

    /** list_remove: the removed item loses its link. */
    method ListRemove(item: nat)
      requires AllDistinct(order) && Linked(head, next[..], order) && item < next.Length
      modifies this`head, this`order, next
      ensures AllDistinct(order) && Linked(head, next[..], order) && order == Remove(old(order), item)
      ensures item in old(order) ==> next[item] == None
      ensures item !in old(order) ==> next[..] == old(next[..])
    {
      hide Remove, AllDistinct, Without;
      var l, r := head, None;
      ghost var k := 0;
      RemoveKeepsDistinct(order, item);
      while l.Some? && l.value != item
        invariant 0 <= k <= |order| && l == LinkTo(order, k)
        invariant r == if k == 0 then None else Some(order[k - 1])
        invariant item !in order[..k]
        decreases |order| - k
      {
        assert order[..k + 1] == order[..k] + [order[k]];
        r := l;
        l := next[l.value];
        k := k + 1;
      }
      RemoveAt(order, k, item);
      if l.Some? {
        assert order[k] == item && item in order;
        if k > 0 { Apart(order, k - 1, k); }
        if r.None? {
          head := next[item];
        } else {
          next[r.value] := next[item];
        }
        next[item] := None;
        Unlinked(old(next[..]), next[..], order, k);
        order := Without(order, k);
      } else {
        assert order[..k] == order;
      }
    }

    /** list_add of an item that is not in the list. */
    method ListAdd(item: nat)
      requires AllDistinct(order) && Linked(head, next[..], order) && item < next.Length && item !in order
      modifies this`head, this`order, next
      ensures AllDistinct(order) && Linked(head, next[..], order) && order == old(order) + [item]
    {
      ListRemove(item);
      RemoveAt(old(order), |old(order)|, item);
      next[item] := None;
      if head.None? {
        head := Some(item);
      } else {
        var l := head.value;
        ghost var k := 0;
        while next[l].Some?
          invariant 0 <= k < |order| && l == order[k] && l < next.Length
          invariant next[..] == old(next[..])[item := None] && Linked(head, next[..], order)
          decreases |order| - k
        {
          l := next[l].value;
          k := k + 1;
        }
        assert k == |order| - 1;
        next[l] := Some(item);
      }
      order := order + [item];
    }

    // -------------------------------------------------------------------------
    // Transactions
    // -------------------------------------------------------------------------

    method NewTransaction(mid: nat, confirmable: bool) returns (t: Option<nat>)
      requires Valid()
      modifies this`head, this`order, slots, next
      ensures Valid() && (State(), t) == New(old(State()), mid, confirmable)
    {
      NewKeepsList(State(), mid, confirmable);
      var i := 0;
      while i < slots.Length && slots[i].Some?
        invariant 0 <= i <= slots.Length
        invariant forall j :: 0 <= j < i ==> slots[j].Some?
      {
        i := i + 1;
      }
      if i == slots.Length {
        return None;
      }
      assert i == FreeSlot(slots[..]);
      assert i in order <==> Open(State(), i);
      slots[i] := Some(Txn(mid, confirmable, 0, []));
      ListAdd(i);
      t := Some(i);
    }

    method ClearTransaction(i: nat)
      requires Valid() && Open(State(), i)
      modifies this`head, this`order, this`ended, slots, timers, next
      ensures Valid() && State() == Clear(old(State()), i) && next[i] == None
    {
      EndTransaction(i, slots[i].value, Cleared);
    }

    /** Stopping the timer, list_remove and memb_free. */
    method EndTransaction(i: nat, t: Txn, why: Ending)
      requires Valid() && Open(State(), i)
      modifies this`head, this`order, this`ended, slots, timers, next
      ensures Valid() && State() == End(old(State()), i, t, why) && next[i] == None
    {
      EndKeepsList(State(), i, t, why);
      assert i in order;
      timers[i] := Stopped(timers[i]);
      ListRemove(i);
      slots[i] := None;
      ended := ended + [(t, why)];
    }

    method SendTransaction(i: nat, rand: nat)
      requires Valid() && Open(State(), i)
      modifies this`head, this`order, this`ended, slots, timers, next
      ensures Valid() && State() == Send(old(State()), i, second, rand)
      ensures Open(State(), i) ==> order == old(order) && next[..] == old(next[..])
      ensures !Open(State(), i) ==> next[i] == None
    {
      hide Remove, ListInv;
      ListShaped(State());
      SendKeepsList(State(), i, slots[i].value.counter, second, rand);
      var t := slots[i].value;
      t := t.(sent := t.sent + [now]);
      if t.confirmable {
        if t.counter < MAX_RETRANSMIT {
          var interval := timers[i].interval;
          if t.counter == 0 {
            interval := FirstInterval(second, rand);
          } else {
            interval := 2 * interval;
          }
          slots[i] := Some(t);
          timers[i] := Timer(true, now, interval);
        } else {
          EndTransaction(i, t, TimedOut);
        }
      } else {
        EndTransaction(i, t, NotConfirmable);
      }
    }

    method GetTransactionByMid(mid: nat) returns (t: Option<nat>)
      requires Valid()
      ensures match t
              case None => forall i :: i in order ==> Open(State(), i) && slots[i].value.mid != mid
              case Some(i) => i in order && Open(State(), i) && slots[i].value.mid == mid
    {
      var l := head;
      ghost var k := 0;
      while l.Some?
        invariant 0 <= k <= |order| && l == LinkTo(order, k)
        invariant forall j :: 0 <= j < k ==> Open(State(), order[j]) && slots[order[j]].value.mid != mid
        decreases |order| - k
      {
        assert order[k] in order && Open(State(), order[k]);
        if slots[l.value].value.mid == mid {
          return l;
        }
        l := next[l.value];
        k := k + 1;
      }
      return None;
    }

    /** The timer process stops a timer that has run out and posts an event. */
    method FireTimer(i: nat)
      requires Valid() && i < MAX_OPEN_TRANSACTIONS
      modifies this`pending, timers
      ensures Valid() && State() == Fire(old(State()), i)
    {
      SameSlotsKeepList(State(), Fire(State(), i));
      if timers[i].running && now >= timers[i].start + timers[i].interval {
        timers[i] := Stopped(timers[i]);
        pending := pending + 1;
      }
    }

    /** coap_check_transactions: follows the links of the list while transactions are
        sent, and the link of an item that was removed is gone. */
    method CheckTransactions()
      requires Valid()
      modifies this`head, this`order, this`ended, this`pending, slots, timers, next
      ensures Valid() && State() == Check(old(State()), second)
    {
      hide CheckOne, ListInv, Expired;
      ListShaped(State());
      ghost var goal := Check(State(), second);
      SameSlotsKeepList(State(), State().(pending := if pending > 0 then pending - 1 else 0));
      pending := if pending > 0 then pending - 1 else 0;
      var t := head;
      ghost var todo: seq<nat> := order;
      ghost var k := 0;
      while t.Some?
        invariant Valid() && t == LinkTo(todo, 0)
        invariant todo != [] ==> k <= |order| && todo == order[k..]
        invariant CheckFrom(State(), todo, second) == goal
        decreases |todo|
      {
        var i := t.value;
        assert i == order[k] && i in order;
        ghost var before := order;
        CheckTransaction(i);
        t := next[i];
        if Open(State(), i) {
          assert order[k..][1..] == order[k + 1..];
          todo, k := todo[1..], k + 1;
        } else {
          todo := [];
        }
      }
    }

    method CheckTransaction(i: nat)
      requires Valid() && i < slots.Length && i in order
      modifies this`head, this`order, this`ended, slots, timers, next
      ensures Valid() && State() == CheckOne(old(State()), i, second)
      ensures Open(State(), i) ==> order == old(order) && next[..] == old(next[..])
      ensures !Open(State(), i) ==> next[i] == None
    {
      hide Remove, ListInv, SendAs;
      ListShaped(State());
      OpenInList(i);
      if !timers[i].running {
        var t := slots[i].value;
        SetKeepsList(State(), i, t.(counter := t.counter + 1), timers[i]);
        SendRaised(State(), i, second);
        assert timers[..][i := timers[i]] == timers[..];
        slots[i] := Some(t.(counter := t.counter + 1));
        SendTransaction(i, 0);
      }
    }

    lemma OpenInList(i: nat)
      requires Valid() && i in order
      ensures Open(State(), i)
    {
    }
  }

  /** Raising the counter first and sending then is sending with the raised counter. */
  lemma SendRaised(s: State, i: nat, second: nat)
    requires Shaped(s) && Open(s, i)
    ensures var t := s.slots[i].value.(counter := s.slots[i].value.counter + 1);
            Send(s.(slots := s.slots[i := Some(t)]), i, second, 0) == SendAs(s, i, t.counter, second, 0)
  {
    hide Remove;
    var t := s.slots[i].value.(counter := s.slots[i].value.counter + 1);
    var r := s.(slots := s.slots[i := Some(t)]);
    var u := Some(t.(sent := t.sent + [s.now]));
    assert r.slots[i := u] == s.slots[i := u] && r.slots[i := None] == s.slots[i := None];
  }

  lemma RemoveKeepsDistinct(order: seq<nat>, i: nat)
    requires AllDistinct(order)
    ensures AllDistinct(Remove(order, i))
  {
    RemoveDistinct(order, i);
  }

  /** Removing the only occurrence. */
  lemma {:induction false} RemoveAt(order: seq<nat>, k: nat, i: nat)
    requires AllDistinct(order)
    requires k <= |order| && i !in order[..k] && (k < |order| ==> order[k] == i)
    ensures Remove(order, i) == if k < |order| then Without(order, k) else order
  {
    if order != [] {
      if k == 0 {
        assert i !in order[1..];
        RemoveAt(order[1..], |order| - 1, i);
      } else {
        RemoveAt(order[1..], k - 1, i);
        assert order[0] == order[..k][0];
        assert order[1..][..k - 1] == order[..k][1..];
        if k < |order| {
          assert Without(order, k) == [order[0]] + Without(order[1..], k - 1);
        }
      }
    }
  }

  /** The links after item `k` has been taken out. */
  lemma Unlinked(before: seq<Option<nat>>, after: seq<Option<nat>>, order: seq<nat>, k: nat)
    requires AllDistinct(order) && k < |order| && |before| == |after| && Linked(LinkTo(order, 0), before, order)
    requires order[k] < |before| && (k > 0 ==> order[k - 1] < |before|)
    requires after == (if k > 0 then before[order[k - 1] := LinkTo(order, k + 1)] else before)[order[k] := None]
    ensures Linked(LinkTo(Without(order, k), 0), after, Without(order, k))
  {
    hide Without;
    var r := Without(order, k);
    forall j | 0 <= j < |r| ensures r[j] < |after| && after[r[j]] == LinkTo(r, j + 1) {
      var o := if j < k then j else j + 1;
      assert r[j] == order[o] && before[order[o]] == LinkTo(order, o + 1);
      Apart(order, o, k);
      if k > 0 && o != k - 1 {
        Apart(order, o, k - 1);
      }
      assert j + 1 < |r| ==> r[j + 1] == order[if j + 1 < k then j + 1 else j + 2];
    }
  }

  lemma Apart(order: seq<nat>, a: nat, b: nat)
    requires AllDistinct(order) && a < |order| && b < |order| && a != b
    ensures order[a] != order[b]
  {
  }
}
