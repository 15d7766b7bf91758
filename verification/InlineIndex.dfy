/**
 The inline index: binary search over an attribute whose values increase from row
 to row, and the iterator that hands out the rows of a value range.

 Row numbers are 32-bit unsigned. A search for a value below the first one steps to
 row "minus one", which wraps round, and from there probes a row that does not
 exist; the program then compares with a row buffer it has not filled. The model
 reports such a search as `Stray`.
 */
module InlineIndex {

  const INVALID: nat := 0xFFFF_FFFF

  /** One less in 32-bit unsigned arithmetic. */
  function Pred(id: nat): nat { if id == 0 then 0xFFFF_FFFF else id - 1 }

  /** A row number, INVALID_TUPLE, or a probe outside the relation. */
  datatype Tuple = Row(id: nat) | NoTuple | Stray

  function IdOf(t: Tuple): nat {
    match t
    case Row(id) => id
    case _ => INVALID
  }

  ghost predicate Increasing(vals: seq<int>) {
    forall i, j :: 0 <= i < j < |vals| ==> vals[i] < vals[j]
  }

  /** Searching for `target` leaves the relation. */
  predicate Strays(vals: seq<int>, target: int) {
    vals == [] || target < vals[0]
  }

  /** `row` holds the target, or is next to where it would be. */
  predicate Near(vals: seq<int>, target: int, row: nat) {
    row < |vals| &&
    (vals[row] == target
     || (vals[row] < target && (row + 1 < |vals| ==> target < vals[row + 1]))
     || (vals[row] > target && (row > 0 ==> vals[row - 1] < target)))
  }

  /** binary_search: the row of the target if there is one, and otherwise, unless an
      exact match is wanted, the row just before or just after its place. */
  method BinarySearch(vals: seq<int>, target: int, exactMatch: bool) returns (r: Tuple)
    requires Increasing(vals) && |vals| < 0x8000_0000
    ensures r == Stray <==> Strays(vals, target)
    ensures r == NoTuple <==> !Strays(vals, target) && exactMatch && target !in vals
    ensures r.Row? ==> Near(vals, target, r.id) && (target in vals ==> vals[r.id] == target)
  {
    hide Increasing;
    var max := Pred(|vals|);
    var min := 0;
    var center := min + (max - min) / 2;
    if center >= |vals| {
      return Stray;
    }
    var value := vals[center];
    if target > value { min := center + 1; } else { max := Pred(center); }
    ProbeNarrows(vals, target, center);
    while min <= max && target != value
      invariant center < |vals| && value == vals[center] && vals[0] <= value
      invariant target == value || BelowFirst(vals, target, min, max) || Narrowed(vals, target, min, max, center)
      decreases if target == value then 0 else if max == INVALID then 1 else 2 + max + 1 - min
    {
      center := min + (max - min) / 2;
      if center >= |vals| {
        return Stray;
      }
      value := vals[center];
      if target > value { min := center + 1; } else { max := Pred(center); }
      ProbeNarrows(vals, target, center);
    }
    if target != value {
      NarrowedOut(vals, target, min, max, center);
    }
    if target != value && exactMatch {
      return NoTuple;
    }
    return Row(center);
  }

  /** What a probe says about the rows on either side of it. */
  lemma ProbeNarrows(vals: seq<int>, target: int, center: nat)
    requires Increasing(vals) && center < |vals|
    ensures vals[0] <= vals[center]
    ensures target > vals[center] ==> forall i :: 0 <= i <= center ==> vals[i] < target
    ensures target < vals[center] ==> forall i :: center <= i < |vals| ==> target < vals[i]
  {
  }

  /** When the ends have crossed, the target does not occur and the last row looked
      at is next to its place. */
  lemma NarrowedOut(vals: seq<int>, target: int, min: nat, max: nat, center: nat)
    requires Increasing(vals) && center < |vals| && target != vals[center]
    requires BelowFirst(vals, target, min, max) || Narrowed(vals, target, min, max, center)
    requires min > max
    ensures !Strays(vals, target) && target !in vals && Near(vals, target, center)
  {
    assert min == max + 1;
    assert forall i :: 0 <= i < |vals| ==> vals[i] != target;
  }

  /** The search went below row 0 and its upper end wrapped round. */
  ghost predicate BelowFirst(vals: seq<int>, target: int, min: nat, max: nat) {
    max == INVALID && min == 0 && vals != [] && target < vals[0]
  }

  /** Everything before `min` is smaller than the target and everything after `max`
      is greater; the last row looked at is at one of the two ends. */
  ghost predicate Narrowed(vals: seq<int>, target: int, min: nat, max: nat, center: nat) {
    && max < |vals| && min <= max + 1
    && (forall i :: 0 <= i < min ==> vals[i] < target)
    && (forall i :: max < i < |vals| ==> target < vals[i])
    && (center + 1 == min || center == max + 1)
  }

  class Iterator {
    const vals: seq<int>
    const unique: bool
    var minValue: int
    var maxValue: int
    var nextItemNo: nat
    var cachedStart: nat
    var cachedEnd: nat

    constructor (v: seq<int>, u: bool)
      ensures vals == v && unique == u && nextItemNo == 0
    {
      vals, unique := v, u;
      minValue, maxValue, nextItemNo, cachedStart, cachedEnd := 0, 0, 0, 0, 0;
    }

    ghost predicate Valid() {
      Increasing(vals) && |vals| < 0x8000_0000
    }

    /** index_get_iterator. */
    method Start(min: int, max: int)
      modifies this
      ensures minValue == min && maxValue == max && nextItemNo == 0
    {
      minValue, maxValue, nextItemNo := min, max, 0;
    }

    /** range_search. A value that is searched exactly and not found leaves
        INVALID_TUPLE as the start; the error code that is returned then is
        unsigned, so the caller does not take it for an error. */
    method RangeSearch() returns (stray: bool)
      requires Valid()
      modifies this`cachedStart, this`cachedEnd
      ensures stray <==> Strays(vals, minValue) || Strays(vals, maxValue)
      ensures !stray ==>
        if minValue == maxValue && minValue !in vals then cachedStart == INVALID
        else Near(vals, minValue, cachedStart) && Near(vals, maxValue, cachedEnd)
             && (minValue in vals ==> vals[cachedStart] == minValue)
             && (maxValue in vals ==> vals[cachedEnd] == maxValue)
    {
      var exactMatch := minValue == maxValue;
      var start := BinarySearch(vals, minValue, exactMatch);
      if start.Stray? {
        return true;
      }
      cachedStart := IdOf(start);
      if cachedStart == INVALID {
        return false;
      }
      var end := BinarySearch(vals, maxValue, exactMatch);
      if end.Stray? {
        return true;
      }
      cachedEnd := IdOf(end);
      stray := false;
    }

    /** The rows that a started iteration over a found range has still to hand out
        are those from `cachedStart + nextItemNo` to `cachedEnd`. */
    ghost predicate Running()
      reads this
    {
      nextItemNo >= 1 && cachedStart < |vals| && cachedEnd < |vals|
    }

    /** get_next. */
    method GetNext() returns (r: Tuple)
      requires Valid() && (nextItemNo == 0 || Running())
      modifies this`cachedStart, this`cachedEnd, this`nextItemNo
      ensures old(nextItemNo) == 0 ==>
        if Strays(vals, minValue) || Strays(vals, maxValue) then r == Stray && nextItemNo == 0
        else if minValue == maxValue && minValue !in vals then r == NoTuple && nextItemNo == 1
        else
          && r == Row(cachedStart) && nextItemNo == 1 && Running()
          && Near(vals, minValue, cachedStart) && Near(vals, maxValue, cachedEnd)
          && (minValue in vals ==> vals[cachedStart] == minValue)
          && (maxValue in vals ==> vals[cachedEnd] == maxValue)
      ensures old(nextItemNo) > 0 ==>
        && cachedStart == old(cachedStart) && cachedEnd == old(cachedEnd)
        && if old(nextItemNo) + cachedStart <= cachedEnd
           then r == Row(cachedStart + old(nextItemNo)) && nextItemNo == old(nextItemNo) + 1
           else r == NoTuple && nextItemNo == old(nextItemNo)
    {
      if nextItemNo == 0 {
        var stray := RangeSearch();
        if stray {
          return Stray;
        }
        nextItemNo := nextItemNo + 1;
        if cachedStart == INVALID {
          return NoTuple;
        }
        return Row(cachedStart);
      } else if cachedStart + nextItemNo <= cachedEnd {
        nextItemNo := nextItemNo + 1;
        return Row(cachedStart + nextItemNo - 1);
      }
      return NoTuple;
    }

    /** index_get_next: an equality search on a unique attribute stops after one row. */
    method IndexGetNext() returns (r: Tuple)
      requires Valid() && (nextItemNo == 0 || Running())
      modifies this`cachedStart, this`cachedEnd, this`nextItemNo
      ensures old(nextItemNo) == 0 ==>
        if Strays(vals, minValue) || Strays(vals, maxValue) then r == Stray && nextItemNo == 0
        else if minValue == maxValue && minValue !in vals then r == NoTuple && nextItemNo == 1
        else
          && r == Row(cachedStart) && nextItemNo == 1 && Running()
          && Near(vals, minValue, cachedStart) && Near(vals, maxValue, cachedEnd)
          && (minValue in vals ==> vals[cachedStart] == minValue)
          && (maxValue in vals ==> vals[cachedEnd] == maxValue)
      ensures old(nextItemNo) > 0 ==>
        && cachedStart == old(cachedStart) && cachedEnd == old(cachedEnd)
        && if old(nextItemNo) + cachedStart <= cachedEnd && !(unique && old(nextItemNo) == 1 && minValue == maxValue)
           then r == Row(cachedStart + old(nextItemNo)) && nextItemNo == old(nextItemNo) + 1
           else r == NoTuple && nextItemNo == old(nextItemNo)
    {
      if unique && nextItemNo == 1 && minValue == maxValue {
        return NoTuple;
      }
      r := GetNext();
    }
  }

  // ---------------------------------------------------------------------------
  // What a range search covers
  // ---------------------------------------------------------------------------

  /** Rows found for the two ends of a range enclose every row of the range, with at
      most one row too many at either end. */
  lemma RangeCovered(vals: seq<int>, low: int, high: int, s: nat, e: nat)
    requires Increasing(vals) && Near(vals, low, s) && Near(vals, high, e)
    ensures forall i :: 0 <= i < |vals| && low <= vals[i] <= high ==> s <= i <= e
    ensures forall i :: s < i < e ==> low <= vals[i] <= high
  {
    assert forall i :: 0 <= i < s ==> vals[i] < low;
    assert forall i :: e < i < |vals| ==> high < vals[i];
    assert forall i :: s < i < |vals| ==> low <= vals[i];
    assert forall i :: 0 <= i < e ==> vals[i] <= high;
  }

  /** An upper bound alone never works: the derived lower end is below any first
      value but the least one. */
  lemma UnboundedBelowStrays(vals: seq<int>, least: int)
    requires forall i :: 0 <= i < |vals| ==> least <= vals[i]
    ensures Strays(vals, least) <==> vals == [] || vals[0] != least
  {
  }
}
