/**
 The equi-join of two relations over an inline index on the right one: a routine
 that returns after every joined row and continues, on the next call, in the middle
 of its inner loop.
 */
module RelationJoin {
  import I = InlineIndex

  datatype DbResult = DB_GOT_ROW | DB_FINISHED | DB_IMPLEMENTATION_ERROR | DB_STRAY

  /** The row of `vals` that holds `x`, or their number if there is none. */
  function Find(vals: seq<int>, x: int): (i: nat)
    ensures i <= |vals| && (i < |vals| ==> vals[i] == x) && (i == |vals| <==> x !in vals)
  {
    if vals == [] then 0 else if vals[0] == x then 0 else 1 + Find(vals[1..], x)
  }

  /** Pairs of rows with equal join values, in the order of the left rows; each left
      row meets at most one right row, since the right values are distinct. */
  function EquiJoin(left: seq<int>, right: seq<int>, n: nat): seq<(nat, nat)>
    requires n <= |left|
  {
    if n == 0 then []
    else EquiJoin(left, right, n - 1) +
         if left[n - 1] in right then [(n - 1, Find(right, left[n - 1]))] else []
  }

  /** The equi-join holds exactly the pairs of rows with equal values, each once, in
      left-row order. */
  lemma {:induction false} EquiJoinIsJoin(left: seq<int>, right: seq<int>, n: nat)
    requires n <= |left| && I.Increasing(right)
    ensures forall i: nat, j: nat :: (i, j) in EquiJoin(left, right, n) <==>
              i < n && j < |right| && left[i] == right[j]
    ensures forall a, b :: 0 <= a < b < |EquiJoin(left, right, n)| ==>
              EquiJoin(left, right, n)[a].0 < EquiJoin(left, right, n)[b].0
  {
    if n > 0 {
      EquiJoinIsJoin(left, right, n - 1);
      var prev := EquiJoin(left, right, n - 1);
      forall a | 0 <= a < |prev|
        ensures prev[a].0 < n - 1
      {
        assert (prev[a].0, prev[a].1) in prev;
      }
      forall i: nat, j: nat
        ensures (i, j) in EquiJoin(left, right, n) <==> i < n && j < |right| && left[i] == right[j]
      {
        assert (i, j) in EquiJoin(left, right, n) <==>
               (i, j) in prev || (left[n - 1] in right && (i, j) == (n - 1, Find(right, left[n - 1])));
        UniqueRow(right, left[n - 1]);
      }
    }
  }

  lemma UniqueRow(vals: seq<int>, x: int)
    requires I.Increasing(vals)
    ensures forall j :: 0 <= j < |vals| && vals[j] == x ==> j == Find(vals, x)
  {
  }

  class JoinHandle {
    const left: seq<int>
    const right: seq<int>
    const index: I.Iterator
    var indexStep: bool
    var tupleId: nat
    var leftRow: nat        // the row that the left row buffer holds
    var currentRow: nat

    constructor (l: seq<int>, r: seq<int>, unique: bool)
      requires I.Increasing(r) && |r| < 0x8000_0000
      ensures Valid() && fresh(index) && left == l && right == r && indexStep
    {
      left, right := l, r;
      index := new I.Iterator(r, unique);
      indexStep, tupleId, leftRow, currentRow := true, 0, 0, 0;
    }

    /** Between calls: at the start, or in the inner loop for the left row
        `tupleId`, whose match has just been handed out. */
    ghost predicate Valid()
      reads this, index
    {
      && index.Valid() && index.vals == right
      && (!indexStep ==>
            && tupleId < |left| && leftRow == tupleId
            && index.minValue == index.maxValue == left[tupleId]
            && index.nextItemNo == 1 && index.Running() && index.cachedStart == index.cachedEnd)
    }

    /** The left row from which the next call looks on. */
    ghost function From(): nat
      reads this
    {
      if indexStep then 0 else tupleId + 1
    }

    /** relation_process_join. */
    method Process() returns (result: DbResult, row: (nat, nat))
      requires Valid()
      modifies this`indexStep, this`tupleId, this`leftRow, this`currentRow, index
      ensures result != DB_IMPLEMENTATION_ERROR
      ensures result != DB_STRAY ==> Valid()
      ensures result == DB_GOT_ROW ==>
                && !indexStep && old(From()) <= tupleId < |left| && left[tupleId] in right
                && row == (tupleId, Find(right, left[tupleId]))
                && Skipped(left, right, old(From()), tupleId)
      ensures result == DB_FINISHED ==> indexStep && Skipped(left, right, old(From()), |left|)
      ensures result == DB_STRAY ==>
                && old(From()) <= tupleId < |left| && I.Strays(right, left[tupleId])
                && Skipped(left, right, old(From()), tupleId)
    {
      ghost var from := From();
      row := (0, 0);
      var inInnerLoop := !indexStep;
      if !inInnerLoop {
        tupleId := 0;
      }
      while true
        invariant index.Valid() && index.vals == right
        invariant inInnerLoop ==> Valid() && !indexStep && tupleId + 1 == from
        invariant !inInnerLoop ==> from <= tupleId && indexStep && Skipped(left, right, from, tupleId)
        invariant !inInnerLoop ==> tupleId <= |left| || from > |left|
        decreases inInnerLoop, |left| - tupleId
      {
        if !inInnerLoop {
          if tupleId >= |left| {
            return DB_FINISHED, row;
          }
          leftRow := tupleId;
          index.Start(left[tupleId], left[tupleId]);
          indexStep := false;
        }
        inInnerLoop := false;
        UniqueRow(right, left[tupleId]);
        var rightTuple := index.IndexGetNext();
        match rightTuple {
          case Stray => return DB_STRAY, row;
          case NoTuple =>
            indexStep := true;
            tupleId := tupleId + 1;
          case Row(id) =>
            if id >= |right| {
              return DB_IMPLEMENTATION_ERROR, row;
            }
            currentRow := currentRow + 1;
            return DB_GOT_ROW, (leftRow, id);
        }
      }
    }
  }

  /** No left row in [lo, hi) has a match, and no search for one leaves the relation. */
  ghost predicate Skipped(left: seq<int>, right: seq<int>, lo: nat, hi: nat) {
    hi <= |left| && forall i :: lo <= i < hi ==> left[i] !in right && !I.Strays(right, left[i])
  }

  lemma {:induction false} JoinSkips(left: seq<int>, right: seq<int>, lo: nat, hi: nat)
    requires lo <= hi && Skipped(left, right, lo, hi)
    ensures EquiJoin(left, right, hi) == EquiJoin(left, right, lo)
    decreases hi
  {
    if lo < hi {
      JoinSkips(left, right, lo, hi - 1);
    }
  }

  lemma PresentDoesNotStray(vals: seq<int>, x: int)
    requires I.Increasing(vals) && x in vals
    ensures !I.Strays(vals, x)
  {
  }

  lemma JoinStep(left: seq<int>, right: seq<int>, n: nat)
    requires n <= |left|
    ensures EquiJoin(left, right, 0) == []
    ensures n < |left| && left[n] in right ==>
              EquiJoin(left, right, n + 1) == EquiJoin(left, right, n) + [(n, Find(right, left[n]))]
  {
  }

  /** Calls the join until it is finished. The emitted rows are the equi-join, unless
      some left value is below all right values: then the search for it leaves the
      right relation, and the rows emitted until then are the join of the left rows
      before it. */
  method RunJoin(left: seq<int>, right: seq<int>, unique: bool)
    returns (emitted: seq<(nat, nat)>, stray: bool, ghost done: nat)
    requires I.Increasing(right) && |right| < 0x8000_0000
    ensures stray <==> exists i :: 0 <= i < |left| && I.Strays(right, left[i])
    ensures !stray ==> emitted == EquiJoin(left, right, |left|)
    ensures stray ==> done < |left| && I.Strays(right, left[done])
                      && (forall i :: 0 <= i < done ==> !I.Strays(right, left[i]))
                      && emitted == EquiJoin(left, right, done)
  {
    hide I.Strays, EquiJoin, Find, I.Increasing;
    JoinStep(left, right, 0);
    var h := new JoinHandle(left, right, unique);
    emitted, stray, done := [], false, 0;
    while true
      invariant h.Valid() && h.left == left && h.right == right && fresh(h) && fresh(h.index)
      invariant !stray && done == h.From() <= |left|
      invariant emitted == EquiJoin(left, right, done)
      invariant forall i :: 0 <= i < done ==> !I.Strays(right, left[i])
      decreases |left| - done
    {
      var result, row := h.Process();
      match result {
        case DB_FINISHED =>
          JoinSkips(left, right, done, |left|);
          done := |left|;
          return;
        case DB_STRAY =>
          JoinSkips(left, right, done, h.tupleId);
          stray, done := true, h.tupleId;
          return;
        case DB_GOT_ROW =>
          JoinSkips(left, right, done, h.tupleId);
          JoinStep(left, right, h.tupleId);
          PresentDoesNotStray(right, left[h.tupleId]);
          emitted := emitted + [row];
          done := h.tupleId + 1;
        case DB_IMPLEMENTATION_ERROR =>
          assert false;
      }
    }
  }
}
