/**
 Compiling a WHERE clause and running the bytecode, end to end.
 */
module AqlCompile {
  import opened Bytes
  import opened Lvm
  import opened LvmMachine
  import opened AqlWhere
  import opened AqlGrammar
  import AqlParser

  // ---------------------------------------------------------------------------
  // Few enough short names always fit the variable table
  // ---------------------------------------------------------------------------

  function OperandNameSet(o: Operand): set<string> {
    match o
    case Name(s) => {s}
    case Const(_) => {}
  }

  function SideNameSet(s: Side): set<string> {
    OperandNameSet(s.first) + set i, n | 0 <= i < |s.rest| && n in OperandNameSet(s.rest[i].1) :: n
  }

  function WhereNameSet(w: Where): set<string> {
    SideNameSet(w.c.l) + SideNameSet(w.c.r) + (if w.Link? then WhereNameSet(w.next) else {})
  }

  ghost predicate Table(names: seq<string>, all: set<string>) {
    && |names| <= MAX_VARIABLES && |all| <= MAX_VARIABLES
    && (forall n <- all :: |n| <= MAX_NAME_LENGTH)
    && (forall i :: 0 <= i < |names| ==> names[i] in all)
    && (forall i, j :: 0 <= i < j < |names| ==> names[i] != names[j])
  }

  lemma {:induction false} DistinctBound(names: seq<string>, all: set<string>)
    requires forall i :: 0 <= i < |names| ==> names[i] in all
    requires forall i, j :: 0 <= i < j < |names| ==> names[i] != names[j]
    ensures |names| <= |all|
  {
    if names != [] {
      DistinctBound(names[1..], all - {names[0]});
    }
  }

  lemma OperandTable(names: seq<string>, o: Operand, all: set<string>)
    requires Table(names, all) && OperandNameSet(o) <= all
    ensures Table(OperandNames(names, o), all) && OperandKnown(OperandNames(names, o), o)
  {
    if o.Name? {
      assert o.name in all;
      if o.name !in names {
        DistinctBound(names, all - {o.name});
      }
    }
  }

  lemma {:induction false} StepsTable(names: seq<string>, rest: seq<(ArithOp, Operand)>, all: set<string>)
    requires Table(names, all) && forall i :: 0 <= i < |rest| ==> OperandNameSet(rest[i].1) <= all
    ensures Table(StepNames(names, rest), all) && StepsFit(names, rest)
  {
    if rest != [] {
      var front := rest[..|rest| - 1];
      StepsTable(names, front, all);
      OperandTable(StepNames(names, front), rest[|rest| - 1].1, all);
      forall k | 0 <= k < |rest|
        ensures OperandKnown(StepNames(names, rest[..k + 1]), rest[k].1)
      {
        if k < |rest| - 1 {
          assert rest[..k + 1] == front[..k + 1];
        } else {
          assert rest[..k + 1] == rest;
        }
      }
    }
  }

  lemma SideTable(names: seq<string>, s: Side, all: set<string>)
    requires Table(names, all) && SideNameSet(s) <= all
    ensures Table(SideNames(names, s), all) && SideFits(names, s)
  {
    OperandTable(names, s.first, all);
    forall i | 0 <= i < |s.rest|
      ensures OperandNameSet(s.rest[i].1) <= all
    {
      assert OperandNameSet(s.rest[i].1) <= SideNameSet(s);
    }
    StepsTable(OperandNames(names, s.first), s.rest, all);
  }

  lemma {:induction false} WhereTable(names: seq<string>, w: Where, all: set<string>)
    requires Table(names, all) && WhereNameSet(w) <= all
    ensures WhereFits(names, w)
    decreases w
  {
    hide Table, SideNameSet, SideFits, SideNames;
    TableSize(names, all);
    SideTable(names, w.c.l, all);
    TableSize(SideNames(names, w.c.l), all);
    SideTable(SideNames(names, w.c.l), w.c.r, all);
    if w.Link? {
      WhereTable(ComparisonNames(names, w.c), w.next, all);
    }
  }

  lemma TableSize(names: seq<string>, all: set<string>)
    requires Table(names, all)
    ensures |names| <= MAX_VARIABLES
  {
  }

  /** A clause over at most four variables with names of at most twelve characters
      fits the variable table. */
  lemma FewNamesFit(w: Where)
    requires |WhereNameSet(w)| <= MAX_VARIABLES
    requires forall n <- WhereNameSet(w) :: |n| <= MAX_NAME_LENGTH
    ensures WhereFits([], w)
  {
    WhereTable([], w, WhereNameSet(w));
  }

  // ---------------------------------------------------------------------------
  // The compiled tree is executable
  // ---------------------------------------------------------------------------

  predicate OperandInRange(o: Operand) { o.Const? ==> IsLong(o.n) }

  predicate SideInRange(s: Side) {
    OperandInRange(s.first) && forall i :: 0 <= i < |s.rest| ==> OperandInRange(s.rest[i].1)
  }

  predicate WhereInRange(w: Where) {
    SideInRange(w.c.l) && SideInRange(w.c.r) && (w.Link? ==> WhereInRange(w.next))
  }

  lemma {:induction false} StepsExprFits(names: seq<string>, e: Expr, rest: seq<(ArithOp, Operand)>)
    requires |names| <= MAX_VARIABLES && ExprFits(e, MAX_VARIABLES)
    requires forall i :: 0 <= i < |rest| ==> OperandInRange(rest[i].1) && OperandKnown(names, rest[i].1)
    ensures ExprFits(StepsExpr(names, e, rest), MAX_VARIABLES)
  {
    if rest != [] {
      StepsExprFits(names, e, rest[..|rest| - 1]);
      assert OperandInRange(rest[|rest| - 1].1) && OperandKnown(names, rest[|rest| - 1].1);
    }
  }

  lemma SideExprFits(names: seq<string>, after: seq<string>, s: Side)
    requires |names| <= MAX_VARIABLES && |after| <= MAX_VARIABLES
    requires SideFits(names, s) && SideInRange(s) && SideNames(names, s) <= after
    ensures ExprFits(SideExpr(after, s), MAX_VARIABLES)
  {
    SideFitsKnown(names, s);
    assert forall i :: 0 <= i < |s.rest| ==> OperandKnown(SideNames(names, s), s.rest[i].1);
    StepsExprFits(after, OperandExpr(after, s.first), s.rest);
  }

  lemma {:induction false} TreeFits(names: seq<string>, w: Where)
    requires |names| <= MAX_VARIABLES && WhereFits(names, w) && WhereInRange(w)
    ensures Fits(Tree(WhereNames(names, w), w), MAX_VARIABLES)
    decreases w
  {
    hide SideFits, SideNames, SideExpr, SideInRange;
    var after := WhereNames(names, w);
    SideExprFits(names, after, w.c.l);
    SideExprFits(SideNames(names, w.c.l), after, w.c.r);
    if w.Link? {
      TreeFits(ComparisonNames(names, w.c), w.next);
    }
  }

  /** Executing the code that the parser left for a clause, under any variable
      values, gives the truth value or error of the right-nested tree. */
  lemma CompiledClauseRuns(w: Where, code: seq<byte>, values: seq<int>)
    requires Simple(w) && WhereInRange(w) && WhereFits([], w) && |values| == MAX_VARIABLES
    requires At(code, 0, WhereCode(WhereNames([], w), w))
    ensures Execute(code, values) == Meaning(Tree(WhereNames([], w), w), values)
  {
    WhereCodeEncodes(WhereNames([], w), w);
    TreeFits([], w);
    ExecuteEncoded(Tree(WhereNames([], w), w), code, values);
  }

  /** Runs the compiled condition for each row of variable values. */
  method RunRows(machine: Machine, rows: seq<seq<int>>) returns (results: seq<Status>)
    requires machine.Valid() && forall i :: 0 <= i < |rows| ==> |rows[i]| == MAX_VARIABLES
    modifies machine
    ensures machine.code[..] == old(machine.code[..]) && |results| == |rows|
    ensures forall i :: 0 <= i < |rows| ==> results[i] == Execute(machine.code[..], rows[i])
  {
    hide Execute;
    results := [];
    ghost var code := machine.code[..];
    var i := 0;
    while i < |rows|
      invariant 0 <= i <= |rows| && |results| == i
      invariant machine.Valid() && machine.code[..] == code
      invariant forall k :: 0 <= k < i ==> results[k] == Execute(code, rows[k])
    {
      machine.values := rows[i];
      var r := machine.Run();
      results := results + [r];
      i := i + 1;
    }
  }

  /** The tokens are those of a clause that the buffer and the variable table hold,
      with at most one arithmetic step on each side of a comparison. */
  ghost predicate Compilable(tokens: seq<Token>, w: Where, size: nat) {
    && tokens == WhereTokens(w) && Simple(w) && WhereInRange(w) && WhereFits([], w)
    && |WhereCode(WhereNames([], w), w)| < size
  }

  /** The pipeline of a query: compile the clause once, then run it for every row. */
  method CompileAndRun(size: nat, tokens: seq<Token>, rows: seq<seq<int>>, ghost w: Where)
    returns (status: int, results: seq<Status>)
    requires Room(tokens, 0) + 8 <= size
    requires forall i :: 0 <= i < |rows| ==> |rows[i]| == MAX_VARIABLES
    ensures status == WhereAt(tokens, 0).status
    ensures Compilable(tokens, w, size) ==>
              && status == OK && |results| == |rows|
              && forall i :: 0 <= i < |rows| ==> results[i] == Meaning(Tree(WhereNames([], w), w), rows[i])
  {
    hide Execute, Meaning, Tree, WhereCode, WhereTokens, WhereFits, Simple, WhereInRange, At, Room;
    var machine := new Machine.Reset(size);
    var parser := new AqlParser.WhereParser(tokens, machine);
    ghost var plain := Compilable(tokens, w, size);
    assert plain ==> parser.ReadsWhere(w, 0, [], 0) by {
      assert tokens[0..|tokens|] == tokens;
    }
    status := parser.ParseWhere(w, 0);
    results := [];
    if !IsError(status) {
      results := RunRows(machine, rows);
      if plain {
        forall i | 0 <= i < |rows|
          ensures results[i] == Meaning(Tree(WhereNames([], w), w), rows[i])
        {
          CompiledClauseRuns(w, machine.code[..], rows[i]);
        }
      }
    }
  }
}
