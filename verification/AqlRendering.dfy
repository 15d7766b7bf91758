/**
 The token sequences without parentheses that the WHERE parser accepts, against the
 clauses that they are meant to be: an accepted sequence renders a clause exactly when
 every arithmetic operator is followed by an operand. The parser also accepts one token
 of any kind in between.
 */
module AqlRendering {
  import opened Lvm
  import opened AqlWhere
  import opened AqlGrammar

  predicate IsOperand(t: Token) { t.Identifier? || t.IntegerValue? }

  /** No parentheses, and no values that have no code. */
  predicate Plain(ts: seq<Token>) {
    forall i :: 0 <= i < |ts| ==>
      !ts[i].LeftParen? && !ts[i].RightParen? && !ts[i].StringValue? && !ts[i].FloatValue?
  }

  /** An operand follows every arithmetic operator. */
  predicate Proper(ts: seq<Token>) {
    forall i :: 0 <= i < |ts| && IsArith(ts[i]) ==> i + 1 < |ts| && IsOperand(ts[i + 1])
  }

  // ---------------------------------------------------------------------------
  // What is accepted renders a clause
  // ---------------------------------------------------------------------------

  lemma OperandOf(t: Token) returns (o: Operand)
    requires IsOperand(t)
    ensures OperandToken(o) == t
  {
    o := if t.Identifier? then Name(t.name) else Const(t.n);
  }

  lemma ArithOf(t: Token) returns (op: ArithOp)
    requires IsArith(t)
    ensures ArithToken(op) == t
  {
    op := if t.Plus? then Add else if t.Minus? then Sub else if t.Times? then Mul else Div;
  }

  lemma CmpOf(t: Token) returns (op: CmpOp)
    requires IsComparison(t)
    ensures CmpToken(op) == t
  {
    op := if t.Greater? then Gt else if t.GreaterEqual? then Geq else if t.Less? then Lt
          else if t.LessEqual? then Leq else if t.Equal? then Eq else Neq;
  }

  /** One token more. */
  lemma StandsMore(ts: seq<Token>, pos: nat, a: seq<Token>, t: Token)
    requires Stands(ts, pos, a) && Peek(ts, pos + |a|) == t && pos + |a| < |ts|
    ensures Stands(ts, pos, a + [t])
  {
    assert ts[pos..pos + |a| + 1] == ts[pos..pos + |a|] + [t];
  }

  lemma {:induction false} ReadSteps(ts: seq<Token>, start: nat, s: Side) returns (r: Side)
    requires Plain(ts) && Proper(ts) && Stands(ts, start, SideTokens(s)) && StepsAt(ts, start + |SideTokens(s)|).ok
    ensures Stands(ts, start, SideTokens(r)) && StepsAt(ts, start + |SideTokens(s)|).pos == start + |SideTokens(r)|
    decreases |ts| - |SideTokens(s)|
  {
    hide Stands, ExprAt;
    StandsFits(ts, start, SideTokens(s));
    r := s;
    var pos := start + |SideTokens(s)|;
    if IsArith(Peek(ts, pos)) {
      var op := ArithOf(ts[pos]);
      var o := OperandOf(ts[pos + 1]);
      var longer := Side(s.first, s.rest + [(op, o)]);
      assert longer.rest[..|s.rest|] == s.rest;
      assert SideTokens(longer) == SideTokens(s) + [ts[pos]] + [ts[pos + 1]];
      StandsMore(ts, start, SideTokens(s), ts[pos]);
      StandsMore(ts, start, SideTokens(s) + [ts[pos]], ts[pos + 1]);
      StandsFits(ts, start, SideTokens(longer));
      r := ReadSteps(ts, start, longer);
    }
  }

  lemma StandsFits(ts: seq<Token>, pos: nat, a: seq<Token>)
    requires Stands(ts, pos, a)
    ensures pos + |a| <= |ts|
  {
  }

  lemma ReadSide(ts: seq<Token>, pos: nat) returns (s: Side)
    requires Plain(ts) && Proper(ts) && ExprAt(ts, pos).ok
    ensures Stands(ts, pos, SideTokens(s)) && ExprAt(ts, pos).pos == pos + |SideTokens(s)|
  {
    hide StepsAt;
    var first := OperandOf(Peek(ts, pos));
    s := Side(first, []);
    assert SideTokens(s) == [] + [Peek(ts, pos)];
    StandsMore(ts, pos, [], Peek(ts, pos));
    s := ReadSteps(ts, pos, s);
  }

  lemma ReadComparison(ts: seq<Token>, pos: nat) returns (c: Comparison)
    requires Plain(ts) && Proper(ts) && ComparisonAt(ts, pos).ok
    ensures Stands(ts, pos, ComparisonTokens(c)) && ComparisonAt(ts, pos).pos == pos + |ComparisonTokens(c)|
  {
    hide ExprAt, Stands, SideTokens, Plain, Proper;
    var l := ReadSide(ts, pos);
    var mid := ExprAt(ts, pos).pos;
    var op := CmpOf(Peek(ts, mid));
    var r := ReadSide(ts, mid + 1);
    c := Comparison(l, op, r);
    StandsMore(ts, pos, SideTokens(l), Peek(ts, mid));
    StandsSplit(ts, pos, SideTokens(l) + [CmpToken(op)], SideTokens(r));
  }

  /** After a comparison and a connective the rest is read like a clause. */
  lemma NextArm(ts: seq<Token>, pos: nat)
    requires ComparisonAt(ts, pos).ok && StartsArm(Peek(ts, ComparisonAt(ts, pos).pos))
    requires !Peek(ts, ComparisonAt(ts, pos).pos + 1).LeftParen?
    ensures var next := ComparisonAt(ts, pos).pos + 1;
            if ComparisonAt(ts, next).ok then WhereAt(ts, pos) == WhereAt(ts, next) else WhereAt(ts, pos).status == 0
  {
    hide ComparisonAt;
    var mid := ComparisonAt(ts, pos).pos;
    var c := ComparisonAt(ts, mid + 1);
    assert WhereAt(ts, pos) == LinksAt(ts, mid);
    assert ArmAt(ts, mid + 1) == Parsed(if c.ok then OK else 0, c.pos);
    if c.ok {
      assert WhereAt(ts, mid + 1) == LinksAt(ts, c.pos);
    }
  }

  /** A clause that is read is one that stands in the input. */
  lemma {:induction false} ReadClause(ts: seq<Token>, pos: nat) returns (w: Where)
    requires Plain(ts) && Proper(ts) && WhereAt(ts, pos).status == OK
    ensures Stands(ts, pos, WhereTokens(w)) && WhereAt(ts, pos).pos == pos + |WhereTokens(w)|
    decreases |ts| - pos
  {
    hide ComparisonAt, Stands, ComparisonTokens, Proper;
    var c := ReadComparison(ts, pos);
    var mid := ComparisonAt(ts, pos).pos;
    w := Last(c);
    if StartsArm(Peek(ts, mid)) {
      assert !Peek(ts, mid + 1).LeftParen?;
      NextArm(ts, pos);
      var next := ReadClause(ts, mid + 1);
      w := Link(c, Peek(ts, mid).AndToken?, next);
      StandsMore(ts, pos, ComparisonTokens(c), Peek(ts, mid));
      StandsSplit(ts, pos, ComparisonTokens(c) + [Peek(ts, mid)], WhereTokens(next));
    }
  }

  // ---------------------------------------------------------------------------
  // Every clause is accepted
  // ---------------------------------------------------------------------------

  /** The token ends a side. */
  predicate EndsSide(t: Token) { !IsArith(t) && !t.RightParen? }

  lemma {:induction false} StepsRead(ts: seq<Token>, pos: nat, s: Side, k: nat)
    requires Stands(ts, pos, SideTokens(s)) && k <= |s.rest| && !IsArith(Peek(ts, pos + |SideTokens(s)|))
    ensures var end := pos + |SideTokens(s)|;
            StepsAt(ts, pos + 1 + 2 * k) == Reading(true, if Peek(ts, end).RightParen? then end + 1 else end)
    decreases |s.rest| - k
  {
    hide ExprAt, Stands;
    if k < |s.rest| {
      SideStepTokens(ts, pos, s, k);
      StepsRead(ts, pos, s, k + 1);
    }
  }

  /** A closing parenthesis ends a side and is taken with it. */
  lemma SideRead(ts: seq<Token>, pos: nat, s: Side)
    requires Stands(ts, pos, SideTokens(s)) && !IsArith(Peek(ts, pos + |SideTokens(s)|))
    ensures var end := pos + |SideTokens(s)|;
            ExprAt(ts, pos) == Reading(true, if Peek(ts, end).RightParen? then end + 1 else end) && IsOperand(Peek(ts, pos))
  {
    hide StepsAt;
    SideFirstToken(ts, pos, s);
    StepsRead(ts, pos, s, 0);
  }

  lemma ComparisonRead(ts: seq<Token>, pos: nat, c: Comparison)
    requires Stands(ts, pos, ComparisonTokens(c)) && !IsArith(Peek(ts, pos + |ComparisonTokens(c)|))
    ensures var end := pos + |ComparisonTokens(c)|;
            ComparisonAt(ts, pos) == Reading(true, if Peek(ts, end).RightParen? then end + 1 else end) && IsOperand(Peek(ts, pos))
  {
    hide ExprAt, SideTokens;
    var l, r := SideTokens(c.l), SideTokens(c.r);
    StandsSplit(ts, pos, l + [CmpToken(c.op)], r);
    StandsSplit(ts, pos, l, [CmpToken(c.op)]);
    assert Peek(ts, pos + |l|) == ts[pos + |l|..pos + |l| + 1][0];
    SideRead(ts, pos, c.l);
    SideRead(ts, pos + |l| + 1, c.r);
  }

  /** A clause that stands in the input, and does not go on, is read. */
  lemma {:induction false} ClauseRead(ts: seq<Token>, pos: nat, w: Where)
    requires Stands(ts, pos, WhereTokens(w))
    requires var next := Peek(ts, pos + |WhereTokens(w)|); EndsSide(next) && !StartsArm(next)
    ensures WhereAt(ts, pos) == Parsed(OK, pos + |WhereTokens(w)|) && IsOperand(Peek(ts, pos))
    decreases w
  {
    hide ComparisonAt, ComparisonTokens;
    match w
    case Last(c) => ComparisonRead(ts, pos, c);
    case Link(c, isAnd, next) =>
      var link := if isAnd then AndToken else OrToken;
      var mid := pos + |ComparisonTokens(c)|;
      StandsSplit(ts, pos, ComparisonTokens(c) + [link], WhereTokens(next));
      StandsSplit(ts, pos, ComparisonTokens(c), [link]);
      assert Peek(ts, mid) == ts[mid..mid + 1][0];
      ComparisonRead(ts, pos, c);
      ClauseRead(ts, mid + 1, next);
      NextArm(ts, pos);
  }

  // ---------------------------------------------------------------------------
  // Renderings
  // ---------------------------------------------------------------------------

  predicate Tidy(ts: seq<Token>) { Plain(ts) && Proper(ts) }

  lemma TidyConcat(a: seq<Token>, b: seq<Token>)
    requires Tidy(a) && Tidy(b)
    ensures Tidy(a + b)
  {
  }

  lemma {:induction false} StepsTidy(rest: seq<(ArithOp, Operand)>)
    ensures Tidy(StepTokens(rest))
  {
    if rest != [] {
      var (op, o) := rest[|rest| - 1];
      StepsTidy(rest[..|rest| - 1]);
      TidyConcat(StepTokens(rest[..|rest| - 1]), [ArithToken(op), OperandToken(o)]);
    }
  }

  lemma SideTidy(s: Side)
    ensures Tidy(SideTokens(s))
  {
    StepsTidy(s.rest);
    TidyConcat([OperandToken(s.first)], StepTokens(s.rest));
  }

  lemma {:induction false} WhereTidy(w: Where)
    ensures Tidy(WhereTokens(w))
    decreases w
  {
    hide SideTokens, Tidy;
    SideTidy(w.c.l);
    SideTidy(w.c.r);
    assert Tidy([CmpToken(w.c.op)]) by { CmpTidy(w.c.op); }
    TidyConcat(SideTokens(w.c.l), [CmpToken(w.c.op)]);
    TidyConcat(SideTokens(w.c.l) + [CmpToken(w.c.op)], SideTokens(w.c.r));
    if w.Link? {
      var link := if w.isAnd then AndToken else OrToken;
      LinkTidy(link);
      WhereTidy(w.next);
      TidyConcat(ComparisonTokens(w.c), [link]);
      TidyConcat(ComparisonTokens(w.c) + [link], WhereTokens(w.next));
    }
  }

  lemma CmpTidy(op: CmpOp)
    ensures Tidy([CmpToken(op)])
  {
  }

  lemma LinkTidy(t: Token)
    requires t == AndToken || t == OrToken
    ensures Tidy([t])
  {
  }

  // ---------------------------------------------------------------------------
  // Main results
  // ---------------------------------------------------------------------------

  ghost predicate Renders(ts: seq<Token>) {
    exists w :: ts == WhereTokens(w)
  }

  /** A sequence of tokens renders a clause exactly when it is plain and accepted to its
      end and every arithmetic operator is followed by an operand. */
  lemma RendersExactly(ts: seq<Token>)
    ensures Renders(ts) <==> Plain(ts) && Proper(ts) && WhereAt(ts, 0) == Parsed(OK, |ts|)
  {
    hide WhereAt, WhereTokens, Plain, Proper;
    if Renders(ts) {
      var w :| ts == WhereTokens(w);
      WhereTidy(w);
      ClauseRead(ts, 0, w);
    }
    if Plain(ts) && Proper(ts) && WhereAt(ts, 0) == Parsed(OK, |ts|) {
      var w := ReadClause(ts, 0);
      assert ts[0..|ts|] == ts;
    }
  }

  /** `a + + 1 = 2` is accepted to its end and renders nothing. */
  lemma SpareOperator()
    ensures var ts := [Identifier("a"), Plus, Plus, IntegerValue(1), Equal, IntegerValue(2)];
            Plain(ts) && WhereAt(ts, 0) == Parsed(OK, |ts|) && !Renders(ts)
  {
    var ts := [Identifier("a"), Plus, Plus, IntegerValue(1), Equal, IntegerValue(2)];
    assert StepsAt(ts, 4) == Reading(true, 4);
    assert ExprAt(ts, 3) == Reading(true, 4);
    assert StepAt(ts, 2) == Reading(true, 4);
    assert StepsAt(ts, 1) == Reading(true, 4);
    assert ExprAt(ts, 0) == Reading(true, 4);
    assert StepsAt(ts, 6) == Reading(true, 6);
    assert ExprAt(ts, 5) == Reading(true, 6);
    assert ComparisonAt(ts, 0) == Reading(true, 6);
    assert IsArith(ts[1]) && !IsOperand(ts[2]);
    RendersExactly(ts);
  }

  // ---------------------------------------------------------------------------
  // Parentheses
  // ---------------------------------------------------------------------------

  /** A side in parentheses is read exactly if they are closed twice: the first closing
      parenthesis is taken with the side. */
  lemma SideInParentheses(ts: seq<Token>, pos: nat, s: Side)
    requires Stands(ts, pos, [LeftParen] + SideTokens(s) + [RightParen])
    ensures var behind := pos + |SideTokens(s)| + 2;
            HeadAt(ts, pos) == Reading(Peek(ts, behind).RightParen?, Skip(ts, behind))
  {
    hide SideTokens, StepsAt;
    StandsSplit(ts, pos, [LeftParen] + SideTokens(s), [RightParen]);
    StandsSplit(ts, pos, [LeftParen], SideTokens(s));
    OneStands(ts, pos, LeftParen);
    OneStands(ts, pos + 1 + |SideTokens(s)|, RightParen);
    SideRead(ts, pos + 1, s);
  }

  lemma OneStands(ts: seq<Token>, pos: nat, t: Token)
    requires Stands(ts, pos, [t])
    ensures Peek(ts, pos) == t
  {
    assert ts[pos] == ts[pos..pos + 1][0];
  }

  /** The same for a comparison in parentheses behind a connective. */
  lemma ArmInParentheses(ts: seq<Token>, pos: nat, c: Comparison)
    requires Stands(ts, pos, [LeftParen] + ComparisonTokens(c) + [RightParen])
    requires !StartsArm(Peek(ts, pos + |ComparisonTokens(c)| + 2))
    ensures var behind := pos + |ComparisonTokens(c)| + 2;
            ArmAt(ts, pos) == Parsed(if Peek(ts, behind).RightParen? then OK else SYNTAX_ERROR, Skip(ts, behind))
  {
    hide ComparisonTokens, ComparisonAt;
    StandsSplit(ts, pos, [LeftParen] + ComparisonTokens(c), [RightParen]);
    StandsSplit(ts, pos, [LeftParen], ComparisonTokens(c));
    OneStands(ts, pos, LeftParen);
    OneStands(ts, pos + 1 + |ComparisonTokens(c)|, RightParen);
    ComparisonRead(ts, pos + 1, c);
    var behind := pos + |ComparisonTokens(c)| + 2;
    assert LinksAt(ts, behind) == Parsed(OK, behind);
    assert WhereAt(ts, pos + 1) == Parsed(OK, behind);
  }

  /** Strings and floats are accepted as operands, although no code is emitted for them,
      and a token that is refused is taken. */
  lemma OtherOperands(t: Token)
    requires t.StringValue? || t.FloatValue?
    ensures WhereAt([Identifier("a"), Equal, t], 0) == Parsed(OK, 3)
    ensures ComparisonAt([Identifier("a"), AndToken], 0) == Reading(false, 2)
  {
    var ts := [Identifier("a"), Equal, t];
    assert StepsAt(ts, 1) == Reading(true, 1);
    assert ExprAt(ts, 0) == Reading(true, 1);
    assert StepsAt(ts, 3) == Reading(true, 3);
    assert ExprAt(ts, 2) == Reading(true, 3);
    assert ComparisonAt(ts, 0) == Reading(true, 3);
    assert LinksAt(ts, 3) == Parsed(OK, 3);
    var us := [Identifier("a"), AndToken];
    assert StepsAt(us, 1) == Reading(true, 1);
    assert ExprAt(us, 0) == Reading(true, 1);
  }
}
