/**
 The one-pass WHERE parser: recursive descent over the token input that writes,
 shifts and patches the bytecode buffer as it goes.

 Every method takes any token sequence; its status and the position where it stops are
 those that module AqlGrammar gives. The code that it emits is stated for an input that
 starts with the tokens of a clause without parentheses, passed as a ghost argument.
 */
module AqlParser {
  import opened Bytes
  import opened Lvm
  import opened LvmMachine
  import opened AqlWhere
  import opened AqlGrammar

  class WhereParser {
    const tokens: seq<Token>
    const p: Machine
    var pos: nat
    var prev: nat
    var token: Token

    ghost predicate Valid()
      reads this, p
    {
      p.Valid() && prev <= pos <= |tokens|
    }

    /** What the remaining tokens can emit, and `slack` more, fits the buffer. */
    ghost predicate Budget(slack: nat)
      reads this, p
    {
      p.end + Room(tokens, pos) + slack <= p.code.Length
    }

    constructor (ts: seq<Token>, machine: Machine)
      requires machine.Valid()
      ensures Valid() && tokens == ts && p == machine && pos == 0
    {
      tokens, p := ts, machine;
      pos, prev, token := 0, 0, NoToken;
    }

    // -------------------------------------------------------------------------
    // Lexer
    // -------------------------------------------------------------------------

    method Next()
      requires Valid()
      modifies this
      ensures Valid() && prev == old(pos) && token == Peek(tokens, old(pos))
      ensures pos == if old(pos) < |tokens| then old(pos) + 1 else old(pos)
    {
      prev := pos;
      token := NoToken;
      if pos < |tokens| {
        token := tokens[pos];
        pos := pos + 1;
      }
    }

    method Rewind()
      requires Valid()
      modifies this`pos
      ensures Valid() && pos == prev
    {
      pos := prev;
    }

    // -------------------------------------------------------------------------
    // Operands
    // -------------------------------------------------------------------------

    method ParseOperand(ghost slack: nat) returns (status: int)
      requires Valid() && Budget(slack)
      modifies this, p, p.code
      ensures Valid() && Budget(slack) && p.values == old(p.values) && p.error == old(p.error)
      ensures old(pos) <= pos && (old(pos) < |tokens| ==> pos == old(pos) + 1)
      ensures status == (match Peek(tokens, old(pos))
                         case Identifier(_) => OK
                         case IntegerValue(_) => OK
                         case StringValue => OK
                         case FloatValue => OK
                         case _ => SYNTAX_ERROR)
      ensures match Peek(tokens, old(pos))
              case Identifier(s) =>
                && p.names == Register(old(p.names), s)
                && (s in p.names ==> Appended(old(p.code[..]), old(p.end), p.code[..], p.end,
                                              OperandNode(VARIABLE, IndexOf(p.names, s))))
              case IntegerValue(n) =>
                && p.names == old(p.names)
                && Appended(old(p.code[..]), old(p.end), p.code[..], p.end, OperandNode(LONG, n))
              case _ => p.names == old(p.names) && p.end == old(p.end) && p.code[..] == old(p.code[..])
    {
      Next();
      match token
      case Identifier(s) =>
        var _ := p.RegisterVariable(s);
        p.SetVariable(s);
        status := OK;
      case IntegerValue(n) =>
        p.SetOperand(LONG, n);
        status := OK;
      case StringValue =>
        status := OK;
      case FloatValue =>
        status := OK;
      case _ =>
        status := SYNTAX_ERROR;
    }

    /** Shifts the code from `from` on, puts a node in the gap and restores the end. */
    method InsertNode(from: nat, nodeType: int, operator: int) returns (saved: nat)
      requires Valid() && p.end + 8 <= p.code.Length
      modifies p, p.code
      ensures Valid() && p.names == old(p.names) && p.values == old(p.values)
      ensures p.end <= old(p.end) + 8
      ensures from < old(p.end) && old(p.end) + 8 < p.code.Length ==>
                && p.error == old(p.error) && saved == p.end == old(p.end) + 8
                && p.code[..from] == old(p.code[..])[..from]
                && p.code[from..from + 8] == Node(nodeType, operator)
                && p.code[from + 8..p.end] == old(p.code[..])[from..old(p.end)]
    {
      hide Overwrite, Node;
      ghost var was := p.code[..];
      saved := p.ShiftForOperator(from);
      p.SetNode(nodeType, operator);
      if from < old(p.end) {
        GapFilled(was, from, old(p.end), Node(nodeType, operator));
      }
      var _ := p.SetEnd(saved);
    }

    /** parse_op: an arithmetic operator or a closing parenthesis. */
    method ParseOp() returns (t: Token)
      requires Valid()
      modifies this
      ensures Valid() && prev == old(pos)
      ensures pos == if old(pos) < |tokens| then old(pos) + 1 else old(pos)
      ensures var next := Peek(tokens, old(pos));
              t == if IsArith(next) || next.RightParen? then next else NoToken
    {
      Next();
      match token
      case Plus => t := token;
      case Minus => t := token;
      case Times => t := token;
      case Slash => t := token;
      case RightParen => t := token;
      case _ => t := NoToken;
    }

    method ParseCmp() returns (t: Token)
      requires Valid()
      modifies this
      ensures Valid() && prev == old(pos)
      ensures pos == if old(pos) < |tokens| then old(pos) + 1 else old(pos)
      ensures var next := Peek(tokens, old(pos)); t == if IsComparison(next) then next else NoToken
    {
      Next();
      match token
      case Equal => t := token;
      case NotEqual => t := token;
      case Greater => t := token;
      case Less => t := token;
      case GreaterEqual => t := token;
      case LessEqual => t := token;
      case _ => t := NoToken;
    }

    // -------------------------------------------------------------------------
    // Expressions
    // -------------------------------------------------------------------------

    /** The input at `at` is `side` and no further step, its names fit the table and
        its code fits the buffer. */
    ghost predicate ReadsSide(side: Side, at: nat, names: seq<string>, end: nat)
      requires |names| <= MAX_VARIABLES
    {
      var next := Peek(tokens, at + |SideTokens(side)|);
      && Stands(tokens, at, SideTokens(side)) && !IsArith(next) && !next.RightParen?
      && SideFits(names, side)
      && end + |SideCode(SideNames(names, side), side)| < p.code.Length
    }

    /** The result and the position of the parser are those of a reading. */
    predicate Agrees(status: int, r: Reading)
      reads this
    {
      status == (if r.ok then OK else SYNTAX_ERROR) && pos == r.pos
    }

    /** Parses a side of a comparison. */
    method ParseExpr(ghost side: Side, ghost slack: nat) returns (status: int)
      requires Valid() && Budget(slack)
      modifies this, p, p.code
      ensures Valid() && Budget(slack) && p.values == old(p.values) && old(pos) <= pos
      ensures Agrees(status, ExprAt(tokens, old(pos)))
      ensures ReadsSide(side, old(pos), old(p.names), old(p.end)) ==>
                && status == OK && p.error == old(p.error)
                && pos == old(pos) + |SideTokens(side)|
                && p.names == SideNames(old(p.names), side)
                && Appended(old(p.code[..]), old(p.end), p.code[..], p.end, SideCode(p.names, side))
      decreases |tokens| - pos, 1
    {
      hide SideTokens, SideNames, SideCode, SideFits, Appended, Stands, Room, SideSoFar, HeadAt, StepAt;
      ghost var o := Origin(side, pos, p.names, p.end, p.code[..]);
      ghost var plain := ReadsSide(side, pos, p.names, p.end);
      var savedEnd := p.end;
      status := ParseHead(o, slack);
      if IsError(status) {
        return SYNTAX_ERROR;
      }
      ghost var k: nat := 0;
      while true
        invariant Valid() && Budget(slack) && p.values == old(p.values) && old(pos) <= pos
        invariant ExprAt(tokens, old(pos)) == StepsAt(tokens, pos)
        invariant plain ==> p.error == old(p.error) && Progress(o, k, pos, savedEnd)
        decreases |tokens| - pos
      {
        if plain {
          NextStep(o.side, o.pos, k);
        }
        var op := ParseOp();
        RoomStep(tokens, prev);
        if op.NoToken? {
          savedEnd := p.end;
          Rewind();
          break;
        } else if op.RightParen? {
          break;
        }
        var next;
        status, next := ParseStep(op, savedEnd, plain, o, k, slack);
        if IsError(status) {
          return SYNTAX_ERROR;
        }
        savedEnd := next;
        k := k + 1;
      }
      status := OK;
      if plain {
        SideComplete(o, p.names, p.code[..], p.end);
      }
    }

    /** The first operand of a side, or a parenthesized side. */
    method ParseHead(ghost o: Origin, ghost slack: nat) returns (status: int)
      requires Valid() && Budget(slack)
      requires o.pos == pos && o.names == p.names && o.end == p.end && o.code == p.code[..]
      modifies this, p, p.code
      ensures Valid() && Budget(slack) && p.values == old(p.values) && old(pos) <= pos
      ensures Agrees(status, HeadAt(tokens, old(pos)))
      ensures ReadsSide(o.side, o.pos, o.names, o.end) ==>
                status == OK && p.error == old(p.error) && Progress(o, 0, pos, o.end)
      decreases |tokens| - pos, 0
    {
      hide SideNames, SideCode, Appended, Room, SideSoFar, ExprAt;
      Next();
      RoomStep(tokens, prev);
      if token.LeftParen? {
        status := ParseExpr(o.side, slack);
        if IsError(status) {
          return SYNTAX_ERROR;
        }
        Next();
        RoomStep(tokens, prev);
        if !token.RightParen? {
          return SYNTAX_ERROR;
        }
      } else {
        Rewind();
        status := ParseOperand(slack);
        if IsError(status) {
          return SYNTAX_ERROR;
        }
        if ReadsSide(o.side, o.pos, o.names, o.end) {
          SideFirstToken(tokens, o.pos, o.side);
          FirstOperand(o, p.names, p.code[..], p.end);
        }
      }
      status := OK;
    }

    /** One arithmetic step: the operand after operator `op`, then the operator's
        node in front of it. */
    method ParseStep(op: Token, from: nat, ghost plain: bool, ghost o: Origin, ghost k: nat, ghost slack: nat)
      returns (status: int, saved: nat)
      requires Valid() && Budget(slack + 8) && IsArith(op)
      requires plain ==> && |o.names| <= MAX_VARIABLES && ReadsSide(o.side, o.pos, o.names, o.end)
                         && k < |o.side.rest| && op == ArithToken(o.side.rest[k].0)
                         && pos > 0 && Progress(o, k, pos - 1, from)
      modifies this, p, p.code
      ensures Valid() && Budget(slack) && p.values == old(p.values) && old(pos) <= pos
      ensures Agrees(status, StepAt(tokens, old(pos)))
      ensures plain ==> status == OK && p.error == old(p.error) && Progress(o, k + 1, pos, saved)
      decreases |tokens| - pos, 2
    {
      hide SideNames, SideCode, SideTokens, Stands, Appended, Room, SideSoFar, SideFits, PrefixNames, Node, Register, IndexOf, ExprAt;
      saved := from;
      ghost var before, end1, names1 := p.code[..], p.end, p.names;
      if plain {
        NextStep(o.side, o.pos, k);
      }
      status := ParseOperand(slack + 8);
      if IsError(status) {
        NoOperandLeft(tokens, old(pos));
        status := ParseExpr(o.side, slack + 8);
        if IsError(status) {
          return SYNTAX_ERROR, from;
        }
      }
      ghost var emitted, end2 := p.code[..], p.end;
      if plain {
        StepKnown(o, k, names1, before, end1);
        StepFits(o, k, names1, before, end1, p.names, emitted, end2);
      }
      saved := InsertNode(from, ARITH_OP, OperatorOf(op));
      if plain {
        StepDone(o, k, names1, before, end1, p.names, emitted, end2, p.code[..]);
      }
      status := OK;
    }

    // -------------------------------------------------------------------------
    // Comparisons
    // -------------------------------------------------------------------------

    ghost predicate ReadsComparison(c: Comparison, at: nat, names: seq<string>, end: nat)
      requires |names| <= MAX_VARIABLES
    {
      var next := Peek(tokens, at + |ComparisonTokens(c)|);
      && Stands(tokens, at, ComparisonTokens(c)) && !IsArith(next) && !next.RightParen?
      && ComparisonFits(names, c)
      && end + |ComparisonCode(ComparisonNames(names, c), c)| < p.code.Length
    }

    /** Parses a comparison: room for the operator, the left side, the operator in
        the room, the right side. */
    method ParseComparison(ghost c: Comparison, ghost slack: nat) returns (status: int)
      requires Valid() && Budget(slack + 8)
      modifies this, p, p.code
      ensures Valid() && Budget(if IsError(status) then slack else slack + 8)
      ensures p.values == old(p.values) && old(pos) <= pos
      ensures Agrees(status, ComparisonAt(tokens, old(pos)))
      ensures ReadsComparison(c, old(pos), old(p.names), old(p.end)) ==>
                && status == OK && p.error == old(p.error)
                && pos == old(pos) + |ComparisonTokens(c)|
                && p.names == ComparisonNames(old(p.names), c)
                && Appended(old(p.code[..]), old(p.end), p.code[..], p.end, ComparisonCode(p.names, c))
      decreases |tokens| - pos, 2
    {
      hide SideTokens, SideNames, SideCode, SideFits, Appended, Stands, Room, ComparisonCode, Overwrite, Node, ExprAt;
      ghost var plain := ReadsComparison(c, pos, p.names, p.end);
      ghost var pos0, names0, end0, code0 := pos, p.names, p.end, p.code[..];
      if plain {
        SplitComparison(c, pos, p.names, p.end);
      }
      var start := p.JumpToOperand();
      status := ParseExpr(c.l, slack);
      if IsError(status) {
        return SYNTAX_ERROR;
      }
      ghost var names1, end1, code1 := p.names, p.end, p.code[..];
      if plain {
        AppendedEnd(code0, end0 + 8, code1, end1, SideCode(names1, c.l));
      }
      RoomMonotone(tokens, old(pos), pos);
      var related := ParseRelation(start, slack);
      if !related {
        return SYNTAX_ERROR;
      }
      ghost var code2 := p.code[..];
      status := ParseExpr(c.r, slack + 8);
      if IsError(status) {
        return SYNTAX_ERROR;
      }
      status := OK;
      if plain {
        ComparisonDone(c, names0, code0, end0, names1, code1, end1, code2, p.names, p.code[..], p.end);
      }
    }

    /** The operator of a comparison, written into the room in front of the left side. */
    method ParseRelation(start: nat, ghost slack: nat) returns (ok: bool)
      requires Valid() && Budget(slack) && start + Room(tokens, pos) + slack + 8 <= p.code.Length
      modifies this, p, p.code
      ensures Valid() && p.names == old(p.names) && p.values == old(p.values)
      ensures ok == IsComparison(Peek(tokens, old(pos))) && pos == Skip(tokens, old(pos))
      ensures Budget(if ok then slack + 8 else slack)
      ensures ok && old(p.end) < p.code.Length ==>
                && p.end == old(p.end) && p.error == old(p.error)
                && p.code[..] == Overwrite(old(p.code[..]), start, Node(CMP_OP, RelationOf(Peek(tokens, old(pos)))))
    {
      hide Overwrite, Node, Room;
      RoomStep(tokens, pos);
      var savedEnd := p.SetEnd(start);
      var op := ParseCmp();
      ok := !op.NoToken?;
      if ok {
        p.SetNode(CMP_OP, RelationOf(op));
        var _ := p.SetEnd(savedEnd);
      }
    }

    function RelationOf(t: Token): int {
      match t
      case Greater => OP_GE
      case GreaterEqual => OP_GEQ
      case Less => OP_LE
      case LessEqual => OP_LEQ
      case Equal => OP_EQ
      case _ => OP_NEQ
    }

    lemma SplitComparison(c: Comparison, at: nat, names: seq<string>, end: nat)
      requires |names| <= MAX_VARIABLES && ReadsComparison(c, at, names, end)
      ensures end + 8 < p.code.Length
      ensures ReadsSide(c.l, at, names, end + 8)
      ensures Peek(tokens, at + |SideTokens(c.l)|) == CmpToken(c.op)
      ensures var names1 := SideNames(names, c.l);
              ReadsSide(c.r, at + |SideTokens(c.l)| + 1, names1, end + 8 + |SideCode(names1, c.l)|)
      ensures |ComparisonTokens(c)| == |SideTokens(c.l)| + 1 + |SideTokens(c.r)|
    {
      hide SideTokens, SideNames, SideCode, SideFits, Node;
      ComparisonCodeStable(names, ComparisonNames(names, c), c);
      var l, r := SideTokens(c.l), SideTokens(c.r);
      StandsSplit(tokens, at, l + [CmpToken(c.op)], r);
      StandsSplit(tokens, at, l, [CmpToken(c.op)]);
      assert tokens[at + |l|] == tokens[at + |l|..at + |l| + 1][0];
    }

    /** The pieces of a comparison make up its code. */
    lemma ComparisonDone(c: Comparison, names0: seq<string>, code0: seq<byte>, end0: nat,
                         names1: seq<string>, code1: seq<byte>, end1: nat, code2: seq<byte>,
                         names3: seq<string>, code3: seq<byte>, end3: nat)
      requires |names0| <= MAX_VARIABLES && ComparisonFits(names0, c) && end0 + 8 <= |code0|
      requires names1 == SideNames(names0, c.l) && names3 == SideNames(names1, c.r)
      requires Appended(code0, end0 + 8, code1, end1, SideCode(names1, c.l))
      requires code2 == Overwrite(code1, end0, Node(CMP_OP, CmpCode(c.op)))
      requires Appended(code2, end1, code3, end3, SideCode(names3, c.r))
      ensures Appended(code0, end0, code3, end3, ComparisonCode(names3, c))
    {
      hide SideNames, SideCode, SideFits, Node;
      ComparisonCodeStable(names0, names3, c);
      var node := Node(CMP_OP, CmpCode(c.op));
      var l := SideCode(names1, c.l);
      assert code2[..end0] == code1[..end0] == code1[..end0 + 8][..end0] == code0[..end0];
      assert code2[end0..end1] == code2[end0..end0 + 8] + code2[end0 + 8..end1];
      assert code2[end0 + 8..end1] == code1[end0 + 8..end1];
      assert Appended(code0, end0, code2, end1, node + l);
      AppendedTwice(code0, end0, code2, end1, node + l, code3, end3, SideCode(names3, c.r));
    }

    // -------------------------------------------------------------------------
    // WHERE clauses
    // -------------------------------------------------------------------------

    /** The rest of the input at `at` is the clause and nothing that continues it. */
    ghost predicate ReadsWhere(w: Where, at: nat, names: seq<string>, end: nat)
      requires |names| <= MAX_VARIABLES
    {
      var next := Peek(tokens, at + |WhereTokens(w)|);
      && Stands(tokens, at, WhereTokens(w)) && !IsArith(next) && !next.RightParen? && !next.AndToken? && !next.OrToken?
      && WhereFits(names, w)
      && end + |WhereCode(WhereNames(names, w), w)| < p.code.Length
    }

    /** Parses a WHERE clause. A comparison that fails after a connective makes the
        result 0, which callers do not take for an error; AqlGrammar.ZeroExactly says
        when. */
    method ParseWhere(ghost w: Where, ghost slack: nat) returns (status: int)
      requires Valid() && Budget(slack + 8)
      modifies this, p, p.code
      ensures Valid() && Budget(if status == OK then slack + 8 else slack)
      ensures p.values == old(p.values) && old(pos) <= pos
      ensures Parsed(status, pos) == WhereAt(tokens, old(pos))
      ensures old(p.end) == 0 && ReadsWhere(w, old(pos), old(p.names), 0) ==>
                && status == OK && p.error == old(p.error)
                && pos == old(pos) + |WhereTokens(w)|
                && p.names == WhereNames(old(p.names), w)
                && At(p.code[..], 0, WhereCode(p.names, w))
      decreases |tokens| - pos, 3
    {
      hide ComparisonTokens, ComparisonNames, ComparisonCode, ComparisonFits, Appended, Stands, Room,
           WhereTokens, WhereNames, WhereCode, WhereFits, ChainSoFar, Node, At, ComparisonAt, ArmAt;
      ghost var plain := p.end == 0 && ReadsWhere(w, pos, p.names, 0);
      ghost var o := Chain(w, w, WhereNames(p.names, w), [], pos + |WhereTokens(w)|);
      if plain {
        NothingYet(o, p.code[..]);
      }
      status := ParseLink(o, plain, slack);
      if IsError(status) {
        return SYNTAX_ERROR;
      }
      var savedEnd := 0;
      while true
        invariant Valid() && Budget(slack + 8) && p.values == old(p.values) && old(pos) <= pos
        invariant WhereAt(tokens, old(pos)) == LinksAt(tokens, pos)
        invariant plain ==> p.error == old(p.error) && ChainSoFar(o, pos, p.names, p.code[..], p.end)
        invariant plain ==> savedEnd == |o.done| && o.w == w && o.final == WhereNames(old(p.names), w)
                            && o.stop == old(pos) + |WhereTokens(w)|
        decreases |tokens| - pos
      {
        Next();
        RoomStep(tokens, prev);
        if plain {
          ChainToken(o, prev, p.names, p.code[..], p.end);
        }
        if !token.AndToken? && !token.OrToken? {
          Rewind();
          break;
        }
        ghost var code1, end1 := p.code[..], p.end;
        savedEnd := InsertNode(savedEnd, CMP_OP, if token.AndToken? then OP_AND else OP_OR);
        if plain {
          LinkEmitted(o, prev, p.names, code1, end1, p.code[..]);
          o := Advance(o);
        }
        status := ParseArm(o, plain, slack);
        if status != OK {
          return;
        }
      }
      status := OK;
    }

    /** What follows a connective: a clause in parentheses or a comparison. */
    method ParseArm(ghost o: Chain, ghost plain: bool, ghost slack: nat) returns (status: int)
      requires Valid() && Budget(slack + 8)
      requires plain ==> LinkStarts(o, pos, p.names, p.code[..], p.end)
      modifies this, p, p.code
      ensures Valid() && Budget(if status == OK then slack + 8 else slack)
      ensures p.values == old(p.values) && old(pos) <= pos
      ensures Parsed(status, pos) == ArmAt(tokens, old(pos))
      ensures plain ==> status == OK && p.error == old(p.error)
                        && ChainSoFar(o, pos, p.names, p.code[..], p.end)
      decreases |tokens| - pos, 4
    {
      hide ReadsWhere, WhereCode, WhereNames, WhereTokens, Room, ChainSoFar, At, WhereAt, ComparisonAt;
      if plain {
        FirstComparison(o.todo, pos, p.names, p.end);
      }
      Next();
      RoomStep(tokens, prev);
      if token.LeftParen? {
        status := ParseWhere(o.w, slack + 8);
        if IsError(status) {
          return SYNTAX_ERROR;
        }
        Next();
        RoomStep(tokens, prev);
        if !token.RightParen? {
          return SYNTAX_ERROR;
        }
        status := OK;
      } else {
        Rewind();
        status := ParseLink(o, plain, slack);
        status := if IsError(status) then 0 else OK;
      }
    }

    // -------------------------------------------------------------------------
    // The chain as it is compiled
    // -------------------------------------------------------------------------

    /** The code of everything before `o.todo` is in place, and `o.todo` is next in
        the input. */
    ghost predicate LinkStarts(o: Chain, at: nat, names: seq<string>, code: seq<byte>, end: nat) {
      && |names| <= MAX_VARIABLES && ReadsWhere(o.todo, at, names, end)
      && WhereNames(names, o.todo) == o.final && at + |WhereTokens(o.todo)| == o.stop
      && end == |o.done| && At(code, 0, o.done)
      && WhereCode(o.final, o.w) == o.done + WhereCode(o.final, o.todo)
    }

    /** The first comparison of `o.todo` has been read and emitted as well. */
    ghost predicate ChainSoFar(o: Chain, at: nat, names: seq<string>, code: seq<byte>, end: nat) {
      var c := ComparisonCode(o.final, o.todo.c);
      && |names| <= MAX_VARIABLES && end == |o.done| + |c| && At(code, 0, o.done + c)
      && WhereCode(o.final, o.w) == o.done + WhereCode(o.final, o.todo)
      && match o.todo
         case Last(_) => at == o.stop && names == o.final && !Peek(tokens, at).AndToken? && !Peek(tokens, at).OrToken?
         case Link(_, isAnd, next) =>
           && Peek(tokens, at) == (if isAnd then AndToken else OrToken)
           && ReadsWhere(next, at + 1, names, end + 8)
           && WhereNames(names, next) == o.final && at + 1 + |WhereTokens(next)| == o.stop
    }

    lemma FirstComparison(w: Where, at: nat, names: seq<string>, end: nat)
      requires |names| <= MAX_VARIABLES && ReadsWhere(w, at, names, end)
      ensures ReadsComparison(w.c, at, names, end)
      ensures !Peek(tokens, at).LeftParen?
    {
      hide ComparisonNames, ComparisonCode, ComparisonFits, Node, SideTokens;
      var final := WhereNames(names, w);
      ComparisonCodeStable(names, final, w.c);
      var ts := ComparisonTokens(w.c);
      if w.Link? {
        var t := [if w.isAnd then AndToken else OrToken];
        StandsSplit(tokens, at, ts + t, WhereTokens(w.next));
        StandsSplit(tokens, at, ts, t);
        assert tokens[at + |ts|] == tokens[at + |ts|..at + |ts| + 1][0];
      }
      StandsSplit(tokens, at, SideTokens(w.c.l) + [CmpToken(w.c.op)], SideTokens(w.c.r));
      StandsSplit(tokens, at, SideTokens(w.c.l), [CmpToken(w.c.op)]);
      SideFirstToken(tokens, at, w.c.l);
    }

    lemma NextLink(w: Where, at: nat, names: seq<string>, end: nat)
      requires |names| <= MAX_VARIABLES && ReadsWhere(w, at, names, end) && w.Link?
      ensures var names1 := ComparisonNames(names, w.c);
              var at1 := at + |ComparisonTokens(w.c)|;
              && Peek(tokens, at1) == (if w.isAnd then AndToken else OrToken)
              && ReadsWhere(w.next, at1 + 1, names1, end + 8 + |ComparisonCode(names1, w.c)|)
              && |WhereTokens(w)| == |ComparisonTokens(w.c)| + 1 + |WhereTokens(w.next)|
    {
      hide ComparisonTokens, ComparisonNames, ComparisonCode, ComparisonFits, Node, Stands, Peek;
      ComparisonCodeStable(names, WhereNames(names, w), w.c);
      NextTokens(w, at);
    }

    /** The connective and the rest of the clause, as tokens. */
    lemma NextTokens(w: Where, at: nat)
      requires w.Link? && Stands(tokens, at, WhereTokens(w))
      ensures var at1 := at + |ComparisonTokens(w.c)|;
              && Peek(tokens, at1) == (if w.isAnd then AndToken else OrToken)
              && Stands(tokens, at1 + 1, WhereTokens(w.next))
              && |WhereTokens(w)| == |ComparisonTokens(w.c)| + 1 + |WhereTokens(w.next)|
    {
      hide ComparisonTokens;
      var ts := ComparisonTokens(w.c);
      var t := [if w.isAnd then AndToken else OrToken];
      StandsSplit(tokens, at, ts + t, WhereTokens(w.next));
      StandsSplit(tokens, at, ts, t);
      assert tokens[at + |ts|] == tokens[at + |ts|..at + |ts| + 1][0];
    }

    lemma NothingYet(o: Chain, code: seq<byte>)
      requires o.done == [] && o.todo == o.w
      ensures At(code, 0, o.done) && WhereCode(o.final, o.w) == o.done + WhereCode(o.final, o.todo)
    {
    }

    lemma ComparisonEmitted(o: Chain, at0: nat, names0: seq<string>, code0: seq<byte>, end0: nat,
                            names: seq<string>, code: seq<byte>, end: nat)
      requires LinkStarts(o, at0, names0, code0, end0)
      requires names == ComparisonNames(names0, o.todo.c)
      requires Appended(code0, end0, code, end, ComparisonCode(names, o.todo.c))
      ensures ChainSoFar(o, at0 + |ComparisonTokens(o.todo.c)|, names, code, end)
    {
      hide ComparisonTokens, ComparisonNames, ComparisonCode, ComparisonFits, Node, ReadsWhere, WhereCode;
      WhereUnfold(o.todo, at0, names0, end0);
      ComparisonCodeStable(names0, o.final, o.todo.c);
      assert code[..end] == code[..end0] + code[end0..end];
      if o.todo.Link? {
        NextLink(o.todo, at0, names0, end0);
      }
    }

    lemma WhereUnfold(w: Where, at: nat, names: seq<string>, end: nat)
      requires |names| <= MAX_VARIABLES && ReadsWhere(w, at, names, end)
      ensures ComparisonFits(names, w.c) && ComparisonNames(names, w.c) <= WhereNames(names, w)
      ensures w.Last? ==> var next := Peek(tokens, at + |ComparisonTokens(w.c)|); !next.AndToken? && !next.OrToken?
    {
      hide ComparisonTokens, ComparisonNames, ComparisonFits;
    }

    lemma ChainToken(o: Chain, at: nat, names: seq<string>, code: seq<byte>, end: nat)
      requires ChainSoFar(o, at, names, code, end)
      ensures Peek(tokens, at).AndToken? || Peek(tokens, at).OrToken? <==> o.todo.Link?
      ensures o.todo.Link? ==>
                && Peek(tokens, at) == (if o.todo.isAnd then AndToken else OrToken)
                && |names| <= MAX_VARIABLES && ReadsWhere(o.todo.next, at + 1, names, end + 8)
                && |o.done| < end && end + 8 < p.code.Length && !Peek(tokens, at + 1).LeftParen?
      ensures o.todo.Last? ==>
                at == o.stop && names == o.final && At(code, 0, WhereCode(o.final, o.w))
    {
      hide ComparisonCode, WhereCode, WhereTokens, WhereNames, ReadsWhere, At;
      match o.todo
      case Link(_, _, next) =>
        FirstComparison(next, at + 1, names, end + 8);
        CodeSizes(o.final, o.todo.c);
        LinkFits(next, at + 1, names, end + 8);
      case Last(c) =>
        LastCode(o.final, c);
    }

    lemma CodeSizes(names: seq<string>, c: Comparison)
      ensures |ComparisonCode(names, c)| >= 8
    {
    }

    lemma LinkFits(w: Where, at: nat, names: seq<string>, end: nat)
      requires |names| <= MAX_VARIABLES && ReadsWhere(w, at, names, end)
      ensures end < p.code.Length
    {
    }

    lemma LastCode(names: seq<string>, c: Comparison)
      ensures WhereCode(names, Last(c)) == ComparisonCode(names, c)
    {
    }

    /** The code of a chain up to and including its pending comparison. */
    ghost function Advance(o: Chain): Chain
      requires o.todo.Link?
    {
      o.(done := o.done + Node(CMP_OP, if o.todo.isAnd then OP_AND else OP_OR) + ComparisonCode(o.final, o.todo.c),
         todo := o.todo.next)
    }

    lemma LinkEmitted(o: Chain, at: nat, names: seq<string>, code: seq<byte>, end: nat, code': seq<byte>)
      requires o.todo.Link? && ChainSoFar(o, at, names, code, end)
      requires |code'| == |code| && end + 8 <= |code|
      requires var from := |o.done|;
               && code'[..from] == code[..from]
               && code'[from..from + 8] == Node(CMP_OP, if o.todo.isAnd then OP_AND else OP_OR)
               && code'[from + 8..end + 8] == code[from..end]
      ensures LinkStarts(Advance(o), at + 1, names, code', end + 8)
    {
      hide ComparisonCode, Node, ReadsWhere, WhereNames, WhereTokens;
      var node := Node(CMP_OP, if o.todo.isAnd then OP_AND else OP_OR);
      var c := ComparisonCode(o.final, o.todo.c);
      AtSplit(code, 0, o.done, c);
      assert code'[..end + 8] == code'[..|o.done|] + code'[|o.done|..|o.done| + 8] + code'[|o.done| + 8..end + 8];
      assert o.done + (node + c + WhereCode(o.final, o.todo.next)) == o.done + node + c + WhereCode(o.final, o.todo.next);
    }


    /** Reads one comparison of the chain `o.w` and keeps account of it. */
    method ParseLink(ghost o: Chain, ghost plain: bool, ghost slack: nat) returns (status: int)
      requires Valid() && Budget(slack + 8)
      requires plain ==> LinkStarts(o, pos, p.names, p.code[..], p.end)
      modifies this, p, p.code
      ensures Valid() && Budget(if IsError(status) then slack else slack + 8)
      ensures p.values == old(p.values) && old(pos) <= pos
      ensures Agrees(status, ComparisonAt(tokens, old(pos)))
      ensures plain ==> status == OK && p.error == old(p.error)
                        && ChainSoFar(o, pos, p.names, p.code[..], p.end)
      decreases |tokens| - pos, 3
    {
      hide ComparisonTokens, ComparisonNames, ComparisonCode, ComparisonFits, Appended, Stands, Room,
           WhereTokens, WhereNames, WhereCode, WhereFits, ChainSoFar, At, ComparisonAt;
      ghost var at0, names0, code0, end0 := pos, p.names, p.code[..], p.end;
      if plain {
        FirstComparison(o.todo, pos, p.names, p.end);
      }
      status := ParseComparison(o.todo.c, slack);
      if plain {
        ComparisonEmitted(o, at0, names0, code0, end0, p.names, p.code[..], p.end);
      }
    }

    function OperatorOf(t: Token): int {
      match t
      case Plus => OP_ADD
      case Minus => OP_SUB
      case Times => OP_MUL
      case _ => OP_DIV
    }

    /** The first `k` steps of a side have been read and emitted. */
    ghost predicate SideSoFar(o: Origin, k: nat, names: seq<string>, code: seq<byte>, end: nat)
    {
      && |o.names| <= MAX_VARIABLES && k <= |o.side.rest| && names == PrefixNames(o.names, o.side, k)
      && Appended(o.code, o.end, code, end, SideCode(SideNames(o.names, o.side), Prefix(o.side, k)))
    }

    ghost predicate Progress(o: Origin, k: nat, at: nat, from: nat)
      reads p, p.code
    {
      && k <= |o.side.rest| && at == o.pos + 1 + 2 * k
      && SideSoFar(o, k, p.names, p.code[..], p.end)
      && from == if k == 0 then o.end else p.end
    }

    lemma FirstOperand(o: Origin, names: seq<string>, code: seq<byte>, end: nat)
      requires |o.names| <= MAX_VARIABLES && ReadsSide(o.side, o.pos, o.names, o.end)
      requires names == OperandNames(o.names, o.side.first)
      requires Appended(o.code, o.end, code, end, EncodeExpr(OperandExpr(names, o.side.first)))
      ensures SideSoFar(o, 0, names, code, end)
    {
      assert o.side.rest[..0] == [];
      StepNamesGrow(names, o.side.rest, 0);
      OperandStable(names, SideNames(o.names, o.side), o.side.first);
    }

    lemma SideComplete(o: Origin, names: seq<string>, code: seq<byte>, end: nat)
      requires SideSoFar(o, |o.side.rest|, names, code, end)
      ensures names == SideNames(o.names, o.side)
      ensures Appended(o.code, o.end, code, end, SideCode(names, o.side))
    {
      assert o.side.rest[..|o.side.rest|] == o.side.rest;
    }

    lemma NextStep(side: Side, pos0: nat, k: nat)
      requires Stands(tokens, pos0, SideTokens(side)) && k <= |side.rest|
      ensures |SideTokens(side)| == 1 + 2 * |side.rest|
      ensures Peek(tokens, pos0 + 1 + 2 * k) ==
              if k < |side.rest| then ArithToken(side.rest[k].0) else Peek(tokens, pos0 + |SideTokens(side)|)
      ensures k < |side.rest| ==> Peek(tokens, pos0 + 2 + 2 * k) == OperandToken(side.rest[k].1)
    {
      if k < |side.rest| {
        SideStepTokens(tokens, pos0, side, k);
      }
    }

    lemma StepKnown(o: Origin, k: nat, names1: seq<string>, code: seq<byte>, end: nat)
      requires |o.names| <= MAX_VARIABLES && SideFits(o.names, o.side) && k < |o.side.rest|
      requires SideSoFar(o, k, names1, code, end)
      ensures |names1| <= MAX_VARIABLES
      ensures OperandKnown(OperandNames(names1, o.side.rest[k].1), o.side.rest[k].1)
    {
      PrefixNamesStep(o.names, o.side, k);
    }

    /** After the step's operand has been emitted, the operator node still fits. */
    lemma StepFits(o: Origin, k: nat, names1: seq<string>, before: seq<byte>, end1: nat,
                   names2: seq<string>, emitted: seq<byte>, end2: nat)
      requires |o.names| <= MAX_VARIABLES && ReadsSide(o.side, o.pos, o.names, o.end) && k < |o.side.rest|
      requires SideSoFar(o, k, names1, before, end1)
      requires StepEmitted(o, k, names1, before, end1, names2, emitted, end2)
      ensures o.end <= end1 < end2 && end2 + 8 < p.code.Length
    {
      SideLength(SideNames(o.names, o.side), Prefix(o.side, k));
      SideLength(SideNames(o.names, o.side), o.side);
      OperandLength(names2, o.side.rest[k].1);
    }

    /** The operand of step `k` has been registered and its code emitted. */
    ghost predicate StepEmitted(o: Origin, k: nat, names1: seq<string>, before: seq<byte>, end1: nat,
                                names2: seq<string>, emitted: seq<byte>, end2: nat)
      requires k < |o.side.rest|
    {
      && |names1| <= MAX_VARIABLES
      && names2 == OperandNames(names1, o.side.rest[k].1) && OperandKnown(names2, o.side.rest[k].1)
      && Appended(before, end1, emitted, end2, EncodeExpr(OperandExpr(names2, o.side.rest[k].1)))
    }

    lemma StepDone(o: Origin, k: nat, names1: seq<string>, before: seq<byte>, end1: nat,
                   names2: seq<string>, emitted: seq<byte>, end2: nat, after: seq<byte>)
      requires |o.names| <= MAX_VARIABLES && k < |o.side.rest| && o.end <= end1 <= end2
      requires SideSoFar(o, k, names1, before, end1)
      requires StepEmitted(o, k, names1, before, end1, names2, emitted, end2)
      requires var from := if k == 0 then o.end else end1;
               && |after| == |emitted| && end2 + 8 <= |after| && after[..from] == emitted[..from]
               && after[from..from + 8] == Node(ARITH_OP, ArithCode(o.side.rest[k].0))
               && after[from + 8..end2 + 8] == emitted[from..end2]
      ensures SideSoFar(o, k + 1, names2, after, end2 + 8)
    {
      hide SideCode, Node, StepNames, OperandNames, PrefixNames, EncodeExpr;
      var final := SideNames(o.names, o.side);
      PrefixNamesStep(o.names, o.side, k);
      PrefixCodeStep(final, o.side, k);
      OperandStable(names2, final, o.side.rest[k].1);
      var code := SideCode(final, Prefix(o.side, k));
      var operand := EncodeExpr(OperandExpr(final, o.side.rest[k].1));
      var node := Node(ARITH_OP, ArithCode(o.side.rest[k].0));
      AppendedTwice(o.code, o.end, before, end1, code, emitted, end2, operand);
      if k == 0 {
        assert [] + (code + operand) == code + operand && [] + node + (code + operand) == node + (code + operand);
        AppendedInsert(o.code, o.end, emitted, o.end, end2, [], code + operand, node, after);
      } else {
        AppendedInsert(o.code, o.end, emitted, end1, end2, code, operand, node, after);
      }
    }
  }

  /** A WHERE chain during compilation: the whole clause, the part whose first
      comparison is pending, the table that the clause leaves, the code before the
      pending comparison, and the position after the clause. */
  datatype Chain = Chain(w: Where, todo: Where, final: seq<string>, done: seq<byte>, stop: nat)

  /** Where a side starts: the expected side, and the parser state at its start. */
  datatype Origin = Origin(side: Side, pos: nat, names: seq<string>, end: nat, code: seq<byte>)

  lemma {:induction false} RoomMonotone(tokens: seq<Token>, a: nat, b: nat)
    requires a <= b
    ensures Room(tokens, b) <= Room(tokens, a)
    decreases b
  {
    if a < b {
      RoomMonotone(tokens, a, b - 1);
      RoomStep(tokens, b - 1);
    }
  }

  /** The effect of shifting `code[from..end]` up and writing `node` into the gap. */
  lemma GapFilled(code: seq<byte>, from: nat, end: nat, node: seq<byte>)
    requires from <= end && |node| == 8 && end + 8 <= |code|
    ensures var r := Overwrite(Overwrite(code, from + 8, code[from..end]), from, node);
            r[..from] == code[..from] && r[from..from + 8] == node && r[from + 8..end + 8] == code[from..end]
  {
    var shifted := Overwrite(code, from + 8, code[from..end]);
    assert shifted[..from] == code[..from];
    assert shifted[from + 8..end + 8] == code[from..end];
  }

  lemma RoomStep(tokens: seq<Token>, pos: nat)
    ensures Room(tokens, pos) == if pos >= |tokens| then 0 else Weight(tokens[pos]) + Room(tokens, pos + 1)
  {
  }

  /** Behind the last token there is neither an operand nor a side. */
  lemma NoOperandLeft(tokens: seq<Token>, pos: nat)
    ensures pos >= |tokens| ==> ExprAt(tokens, pos) == Reading(false, pos) == OperandAt(tokens, pos)
  {
  }
}
