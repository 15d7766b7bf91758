/**
 Processing a SELECT row by row: a scan of the relation, or the rows that an inline
 index yields for a derived range, each tested by the compiled condition.
 */
module RelationSelect {
  import opened Lvm
  import opened LvmMachine
  import opened LvmDerive
  import I = InlineIndex
  import opened Wrappers

  datatype DbResult = DB_OK | DB_GOT_ROW | DB_FINISHED | DB_STRAY

  /** Rows are the values of the condition's variables, by variable slot. */
  ghost predicate Relation(rows: seq<seq<int>>) {
    |rows| < 0x8000_0000 && forall i :: 0 <= i < |rows| ==> LongRow(rows[i])
  }

  function Column(rows: seq<seq<int>>, slot: nat): (vals: seq<int>)
    requires slot < MAX_VARIABLES && forall i :: 0 <= i < |rows| ==> |rows[i]| == MAX_VARIABLES
    ensures |vals| == |rows|
  {
    seq(|rows|, i requires 0 <= i < |rows| => rows[i][slot])
  }

  /** Numbers of the rows in [lo, hi) that satisfy the condition, in order. */
  function Matching(rows: seq<seq<int>>, c: Cond, lo: nat, hi: nat): seq<nat>
    requires lo <= hi <= |rows|
    decreases hi - lo
  {
    if lo == hi then []
    else Matching(rows, c, lo, hi - 1) + (if Meaning(c, rows[hi - 1]) == TRUE then [hi - 1] else [])
  }

  /** The last of the relation's attributes that is indexed and has a derived range. The
      program means to take the narrowest range, but never records how narrow the
      one it holds is. */
  function Selected(derived: seq<Derivation>, attributes: seq<Attribute>, n: nat): (r: Option<Attribute>)
    requires n <= |attributes| && |derived| == MAX_VARIABLES
    ensures r.Some? ==> Candidate(derived, r.value) && exists k :: 0 <= k < n && attributes[k] == r.value
  {
    if n == 0 then None
    else if Candidate(derived, attributes[n - 1]) then Some(attributes[n - 1])
    else Selected(derived, attributes, n - 1)
  }

  /** An attribute of the relation: the slot of its variable, MAX_VARIABLES or more if the
      condition has none, whether it has an index, and whether that is ready: an iterator
      over an index that is not cannot be had. */
  datatype Attribute = Attribute(slot: nat, indexed: bool, ready: bool)

  predicate Candidate(derived: seq<Derivation>, a: Attribute)
    requires |derived| == MAX_VARIABLES
  {
    a.indexed && a.slot < MAX_VARIABLES && derived[a.slot].derived
  }

  /** The values of an attribute with a ready index are strictly increasing. */
  ghost predicate Indexable(rows: seq<seq<int>>, attributes: seq<Attribute>)
    requires forall i :: 0 <= i < |rows| ==> |rows[i]| == MAX_VARIABLES
  {
    forall k :: 0 <= k < |attributes| && attributes[k].indexed && attributes[k].ready && attributes[k].slot < MAX_VARIABLES ==>
      I.Increasing(Column(rows, attributes[k].slot))
  }

  /** The index that a condition selects, with its range, if it is ready. */
  function Plan(c: Cond, attributes: seq<Attribute>): Option<(nat, Derivation)>
  {
    match Derive(c)
    case None => None
    case Some(d) =>
      match Selected(d, attributes, |attributes|)
      case None => None
      case Some(a) => if a.ready then Some((a.slot, d[a.slot])) else None
  }

  class SelectHandle {
    const rows: seq<seq<int>>
    const machine: Machine
    const index: I.Iterator
    var searchIndex: bool
    var tupleId: nat
    var currentRow: nat

    ghost predicate Valid(c: Cond)
      reads this, machine, machine.code, index
    {
      && Relation(rows) && machine.Valid()
      && Fits(c, MAX_VARIABLES) && At(machine.code[..], 0, Encode(c))
      && (searchIndex ==> index.Valid() && |index.vals| == |rows|)
    }

    /** The iteration has not ended. */
    ghost predicate Ready()
      reads this, index
    {
      searchIndex ==> index.nextItemNo == 0 || index.Running()
    }

    /** Derives ranges and chooses between index and scan. */
    constructor Open(rows: seq<seq<int>>, machine: Machine, attributes: seq<Attribute>, unique: bool, ghost c: Cond)
      requires Relation(rows) && machine.Valid() && machine.ip == 0
      requires Fits(c, MAX_VARIABLES) && At(machine.code[..], 0, Encode(c))
      requires Indexable(rows, attributes)
      modifies machine`ip
      ensures Valid(c) && this.rows == rows && this.machine == machine && tupleId == 0 && currentRow == 0
      ensures fresh(index) && machine.code[..] == old(machine.code[..])
      ensures searchIndex <==> Plan(c, attributes).Some?
      ensures searchIndex ==>
                && index.vals == Column(rows, Plan(c, attributes).value.0) && index.nextItemNo == 0
                && index.minValue == Plan(c, attributes).value.1.min && index.maxValue == Plan(c, attributes).value.1.max
    {
      hide Encode, Fits, At, Derive, DeriveAt, Meaning;
      DeriveEncoded(c, machine.code[..], 0);
      var derivations := new Derivation[MAX_VARIABLES](_ => BLANK);
      assert derivations[..] == NOTHING;
      var derived := DeriveRelation(machine, derivations);
      var slot, found := 0, false;
      if derived {
        var attr, any := SelectIndex(derivations[..], attributes);
        slot, found := attr.slot, any && attr.ready;
      }
      var it := new I.Iterator(if found then Column(rows, slot) else [], unique);
      if found {
        it.Start(derivations[slot].min, derivations[slot].max);
      }
      this.rows, this.machine, this.index := rows, machine, it;
      searchIndex, tupleId, currentRow := found, 0, 0;
    }

    /** relation_process_select: looks at one row. */
    method Process(ghost c: Cond) returns (result: DbResult, row: nat)
      requires Valid(c) && Ready()
      modifies this`tupleId, this`currentRow, machine, index
      ensures Valid(c) && machine.code[..] == old(machine.code[..])
      ensures result == DB_OK || result == DB_GOT_ROW ==> Ready()
      ensures index.minValue == old(index.minValue) && index.maxValue == old(index.maxValue)
      ensures !searchIndex ==>
        if old(tupleId) >= |rows| then result == DB_FINISHED
        else row == old(tupleId) && tupleId == old(tupleId) + 1
             && result == if Meaning(c, rows[row]) == TRUE then DB_GOT_ROW else DB_OK
      ensures searchIndex && result == DB_STRAY <==>
        searchIndex && old(index.nextItemNo) == 0
        && (I.Strays(index.vals, index.minValue) || I.Strays(index.vals, index.maxValue))
      ensures searchIndex && (result == DB_GOT_ROW || result == DB_OK) ==>
        && index.Running() && index.nextItemNo == old(index.nextItemNo) + 1
        && (row == if old(index.nextItemNo) == 0 then index.cachedStart else index.cachedStart + old(index.nextItemNo))
        && row < |rows| && (result == DB_GOT_ROW <==> Meaning(c, rows[row]) == TRUE)
        && (old(index.nextItemNo) == 0 ==>
              I.Near(index.vals, index.minValue, index.cachedStart) && I.Near(index.vals, index.maxValue, index.cachedEnd)
              && (index.minValue == index.maxValue ==> index.cachedStart == index.cachedEnd))
        && (old(index.nextItemNo) > 0 ==>
              index.cachedStart == old(index.cachedStart) && index.cachedEnd == old(index.cachedEnd) && row <= index.cachedEnd)
      ensures searchIndex && result == DB_FINISHED ==>
        if old(index.nextItemNo) == 0 then index.minValue == index.maxValue && index.minValue !in index.vals
        else index.cachedStart == old(index.cachedStart) && index.cachedEnd == old(index.cachedEnd)
             && (index.cachedStart + old(index.nextItemNo) > index.cachedEnd
                 || (old(index.nextItemNo) == 1 && index.minValue == index.maxValue))
    {
      hide Meaning, Execute, Encode, Fits, At, I.Near, I.Strays;
      row := 0;
      if searchIndex {
        var t := index.IndexGetNext();
        match t
        case Stray => return DB_STRAY, 0;
        case NoTuple => return DB_FINISHED, 0;
        case Row(id) => tupleId := id;
      }
      if tupleId >= |rows| {
        return DB_FINISHED, 0;
      }
      row := tupleId;
      tupleId := tupleId + 1;
      var status := RunRow(machine, rows[row], c);
      if status == TRUE {
        currentRow := currentRow + 1;
        return DB_GOT_ROW, row;
      }
      return DB_OK, row;
    }
  }

  /** Sets the variables to a row's values and runs the condition. */
  method RunRow(machine: Machine, row: seq<int>, ghost c: Cond) returns (status: Status)
    requires machine.Valid() && |row| == MAX_VARIABLES
    requires Fits(c, MAX_VARIABLES) && At(machine.code[..], 0, Encode(c))
    modifies machine
    ensures machine.Valid() && machine.code[..] == old(machine.code[..]) && status == Meaning(c, row)
  {
    machine.values := row;
    ExecuteEncoded(c, machine.code[..], row);
    status := machine.Run();
  }

  /** select_index. */
  method SelectIndex(derived: seq<Derivation>, attributes: seq<Attribute>) returns (attr: Attribute, found: bool)
    requires |derived| == MAX_VARIABLES
    ensures found <==> Selected(derived, attributes, |attributes|).Some?
    ensures found ==> Selected(derived, attributes, |attributes|) == Some(attr)
    ensures attr.slot < MAX_VARIABLES
  {
    attr, found := Attribute(0, false, false), false;
    var i := 0;
    while i < |attributes|
      invariant 0 <= i <= |attributes| && attr.slot < MAX_VARIABLES
      invariant Selected(derived, attributes, i) == if found then Some(attr) else None
    {
      if Candidate(derived, attributes[i]) {
        attr, found := attributes[i], true;
      }
      i := i + 1;
    }
  }

  lemma {:induction false} MatchingSplit(rows: seq<seq<int>>, c: Cond, lo: nat, mid: nat, hi: nat)
    requires lo <= mid <= hi <= |rows|
    ensures Matching(rows, c, lo, hi) == Matching(rows, c, lo, mid) + Matching(rows, c, mid, hi)
    decreases hi - mid
  {
    if mid < hi {
      MatchingSplit(rows, c, lo, mid, hi - 1);
    }
  }

  lemma {:induction false} MatchingEmpty(rows: seq<seq<int>>, c: Cond, lo: nat, hi: nat)
    requires lo <= hi <= |rows|
    requires forall i :: lo <= i < hi ==> Meaning(c, rows[i]) != TRUE
    ensures Matching(rows, c, lo, hi) == []
    decreases hi - lo
  {
    if lo < hi {
      MatchingEmpty(rows, c, lo, hi - 1);
    }
  }

  /** All rows that satisfy the condition lie between the ends that the index found
      for the condition's range. */
  lemma IndexCovers(rows: seq<seq<int>>, c: Cond, slot: nat, d: Derivation, s: nat, e: nat)
    requires Relation(rows) && Oriented(c) && SameArms(c) && Derive(c).Some? && slot < MAX_VARIABLES
    requires d == Derive(c).value[slot] && d.derived
    requires var vals := Column(rows, slot);
             I.Increasing(vals) && I.Near(vals, d.min, s) && I.Near(vals, d.max, e)
    ensures forall i :: 0 <= i < |rows| && Meaning(c, rows[i]) == TRUE ==> s <= i <= e
  {
    var vals := Column(rows, slot);
    I.RangeCovered(vals, d.min, d.max, s, e);
    forall i | 0 <= i < |rows|
      ensures Meaning(c, rows[i]) == TRUE ==> s <= i <= e
    {
      DeriveCovers(c, rows[i]);
      assert Meaning(c, rows[i]) == TRUE ==> InRange(Derive(c).value[slot], rows[i][slot]);
      assert vals[i] == rows[i][slot];
    }
  }

  /** No row satisfies the condition when the range is one value that does not occur. */
  lemma AbsentValue(rows: seq<seq<int>>, c: Cond, slot: nat, d: Derivation)
    requires Relation(rows) && Oriented(c) && SameArms(c) && Derive(c).Some? && slot < MAX_VARIABLES
    requires d == Derive(c).value[slot] && d.derived && d.min == d.max && d.min !in Column(rows, slot)
    ensures forall i :: 0 <= i < |rows| ==> Meaning(c, rows[i]) != TRUE
  {
    forall i | 0 <= i < |rows|
      ensures Meaning(c, rows[i]) != TRUE
    {
      DeriveCovers(c, rows[i]);
      var range, x := Derive(c).value[slot], Column(rows, slot)[i];
      assert Meaning(c, rows[i]) == TRUE ==> InRange(range, x);
    }
  }

  /** A search for the planned range leaves the relation. */
  predicate PlanStrays(rows: seq<seq<int>>, plan: (nat, Derivation))
    requires plan.0 < MAX_VARIABLES && forall i :: 0 <= i < |rows| ==> |rows[i]| == MAX_VARIABLES
  {
    I.Strays(Column(rows, plan.0), plan.1.min) || I.Strays(Column(rows, plan.0), plan.1.max)
  }

  /** Calls Process until the scan has finished. */
  method RunScan(h: SelectHandle, ghost c: Cond) returns (emitted: seq<nat>)
    requires h.Valid(c) && !h.searchIndex && h.tupleId == 0
    modifies h, h.machine, h.index
    ensures emitted == Matching(h.rows, c, 0, |h.rows|)
  {
    hide Meaning, Execute, Encode, Fits, At, Matching;
    emitted := [];
    MatchingStart(h.rows, c, 0);
    while true
      invariant h.Valid(c) && !h.searchIndex && h.tupleId <= |h.rows|
      invariant emitted == Matching(h.rows, c, 0, h.tupleId)
      decreases |h.rows| - h.tupleId
    {
      var result, row := h.Process(c);
      if result == DB_FINISHED {
        return;
      }
      MatchingStep(h.rows, c, 0, row);
      if result == DB_GOT_ROW {
        emitted := emitted + [row];
      }
    }
  }

  /** Calls Process until the index yields no more rows. */
  method RunIndexed(h: SelectHandle, ghost c: Cond) returns (emitted: seq<nat>, stray: bool, ghost ends: Option<(nat, nat, nat)>)
    requires h.Valid(c) && h.searchIndex && h.index.nextItemNo == 0
    modifies h, h.machine, h.index
    ensures stray <==> I.Strays(h.index.vals, old(h.index.minValue)) || I.Strays(h.index.vals, old(h.index.maxValue))
    ensures !stray ==> IndexRun(h.rows, c, h.index.vals, old(h.index.minValue), old(h.index.maxValue), emitted, ends)
  {
    hide Meaning, Execute, Encode, Fits, At, Matching;
    ghost var vals, min, max := h.index.vals, h.index.minValue, h.index.maxValue;
    emitted, stray, ends := [], false, None;
    var result, row := h.Process(c);
    if result == DB_STRAY {
      return emitted, true, None;
    }
    if result == DB_FINISHED {
      return;
    }
    ghost var s, e := h.index.cachedStart, h.index.cachedEnd;
    MatchingStart(h.rows, c, s);
    while true
      invariant h.Valid(c) && h.searchIndex && h.index.Running()
      invariant h.index.cachedStart == s && h.index.cachedEnd == e && h.index.minValue == min && h.index.maxValue == max
      invariant row + 1 == s + h.index.nextItemNo <= |h.rows|
      invariant result == DB_GOT_ROW || result == DB_OK
      invariant result == DB_GOT_ROW <==> Meaning(c, h.rows[row]) == TRUE
      invariant emitted == Matching(h.rows, c, s, row)
      decreases if row <= e then e + 1 - row else 0
    {
      MatchingStep(h.rows, c, s, row);
      if result == DB_GOT_ROW {
        emitted := emitted + [row];
      }
      ghost var seen := row + 1;
      var next, nextRow := h.Process(c);
      if next == DB_FINISHED {
        return emitted, false, Some((s, e, seen));
      }
      result, row := next, nextRow;
    }
  }

  /** An index run either found nothing, for a single value that does not occur, or
      looked at the rows from `s` to past `e` and emitted those that match. */
  ghost predicate IndexRun(rows: seq<seq<int>>, c: Cond, vals: seq<int>, min: int, max: int,
                           emitted: seq<nat>, ends: Option<(nat, nat, nat)>)
  {
    match ends
    case None => emitted == [] && min == max && min !in vals
    case Some((s, e, seen)) =>
      && I.Near(vals, min, s) && I.Near(vals, max, e) && s < seen <= |rows| && e < seen
      && emitted == Matching(rows, c, s, seen)
  }

  /** Runs a SELECT to its end and collects the rows it emits. For a condition that
      yields no usable range, or one for which derivation is sound, the rows are
      exactly those that a scan with the condition's meaning yields, in the same
      order; unless the index search leaves the relation, which happens exactly when
      the relation is empty or an end of the range is below the first value. */
  method RunSelect(rows: seq<seq<int>>, machine: Machine, attributes: seq<Attribute>, unique: bool, ghost c: Cond)
    returns (emitted: seq<nat>, stray: bool)
    requires Relation(rows) && machine.Valid() && machine.ip == 0
    requires Fits(c, MAX_VARIABLES) && At(machine.code[..], 0, Encode(c))
    requires Indexable(rows, attributes)
    modifies machine
    ensures var plan := Plan(c, attributes);
            && (stray <==> plan.Some? && PlanStrays(rows, plan.value))
            && (!stray && (plan.None? || (Oriented(c) && SameArms(c))) ==> emitted == Matching(rows, c, 0, |rows|))
  {
    hide Meaning, Execute, Encode, Fits, At, Derive, Column, IndexRun;
    var h := new SelectHandle.Open(rows, machine, attributes, unique, c);
    if !h.searchIndex {
      emitted := RunScan(h, c);
      stray := false;
    } else {
      ghost var ends;
      emitted, stray, ends := RunIndexed(h, c);
      if !stray && Oriented(c) && SameArms(c) {
        IndexRunComplete(rows, c, attributes, emitted, ends);
      }
    }
  }

  /** For an OR of satisfiable conjunctions on the same variables, a search leaves the
      relation exactly when that is empty or some row that satisfies the condition would
      come before its first one. */
  lemma StraysExactly(rows: seq<seq<int>>, c: Cond, attributes: seq<Attribute>)
    requires Relation(rows) && Alternatives(c) && Fits(c, MAX_VARIABLES) && Plan(c, attributes).Some?
    ensures var plan := Plan(c, attributes).value;
            PlanStrays(rows, plan)
            <==> rows == [] || exists env :: Satisfies(env, c) && env[plan.0] < rows[0][plan.0]
  {
    hide Derive, Meaning, Alternatives, Vars;
    var (slot, d) := Plan(c, attributes).value;
    AlternativesShape(c);
    DerivedVars(c);
    var low, high := DeriveTight(c, slot);
    forall env | Satisfies(env, c)
      ensures d.min <= env[slot] <= d.max
    {
      DeriveSound(c, env);
      assert InRange(d, env[slot]);
    }
    if rows != [] {
      assert Column(rows, slot)[0] == rows[0][slot];
      assert d.min == low[slot];
    }
  }

  lemma MatchingStart(rows: seq<seq<int>>, c: Cond, lo: nat)
    requires lo <= |rows|
    ensures Matching(rows, c, lo, lo) == []
  {
  }

  lemma MatchingStep(rows: seq<seq<int>>, c: Cond, lo: nat, hi: nat)
    requires lo <= hi < |rows|
    ensures Matching(rows, c, lo, lo) == []
    ensures Matching(rows, c, lo, hi + 1) ==
            Matching(rows, c, lo, hi) + if Meaning(c, rows[hi]) == TRUE then [hi] else []
  {
  }

  /** What an index run emitted is everything that matches. */
  lemma IndexRunComplete(rows: seq<seq<int>>, c: Cond, attributes: seq<Attribute>, emitted: seq<nat>,
                         ends: Option<(nat, nat, nat)>)
    requires Relation(rows) && Oriented(c) && SameArms(c) && Plan(c, attributes).Some?
    requires var (slot, d) := Plan(c, attributes).value;
             I.Increasing(Column(rows, slot)) && IndexRun(rows, c, Column(rows, slot), d.min, d.max, emitted, ends)
    ensures emitted == Matching(rows, c, 0, |rows|)
  {
    hide Column, Meaning, Matching, I.Near;
    var (slot, d) := Plan(c, attributes).value;
    match ends
    case None =>
      AbsentValue(rows, c, slot, d);
      MatchingEmpty(rows, c, 0, |rows|);
    case Some((s, e, seen)) =>
      IndexCovers(rows, c, slot, d, s, e);
      MatchingWindow(rows, c, s, seen);
  }

  lemma MatchingWindow(rows: seq<seq<int>>, c: Cond, s: nat, t: nat)
    requires s <= t <= |rows| && forall i :: 0 <= i < |rows| && Meaning(c, rows[i]) == TRUE ==> s <= i < t
    ensures Matching(rows, c, 0, |rows|) == Matching(rows, c, s, t)
  {
    hide Meaning, Matching;
    MatchingEmpty(rows, c, 0, s);
    MatchingEmpty(rows, c, t, |rows|);
    MatchingSplit(rows, c, 0, s, t);
    MatchingSplit(rows, c, 0, t, |rows|);
  }

  /** The attribute whose index is used is the last one in the relation's order that has an
      index and a derived range; there is none exactly if no attribute has both. */
  lemma {:induction false} SelectedExactly(derived: seq<Derivation>, attributes: seq<Attribute>, n: nat, k: nat)
    requires n <= |attributes| && |derived| == MAX_VARIABLES && k < n
    requires attributes[k].indexed && attributes[k].slot < MAX_VARIABLES && derived[attributes[k].slot].derived
    requires forall j :: k < j < n ==>
               !attributes[j].indexed || attributes[j].slot >= MAX_VARIABLES || !derived[attributes[j].slot].derived
    ensures Selected(derived, attributes, n) == Some(attributes[k])
    decreases n
  {
    if k < n - 1 {
      SelectedExactly(derived, attributes, n - 1, k);
    }
  }

  lemma {:induction false} NoneSelected(derived: seq<Derivation>, attributes: seq<Attribute>, n: nat)
    requires n <= |attributes| && |derived| == MAX_VARIABLES
    requires forall j :: 0 <= j < n ==>
               !attributes[j].indexed || attributes[j].slot >= MAX_VARIABLES || !derived[attributes[j].slot].derived
    ensures Selected(derived, attributes, n) == None
    decreases n
  {
    if n > 0 {
      NoneSelected(derived, attributes, n - 1);
    }
  }
}
