/**
 Which token sequences the WHERE parser accepts, where it stops, and with which status:
 functions of the tokens alone, for all tokens, parentheses included. The parser never
 backs up by more than one token, an operand that is refused is consumed, and a closing
 parenthesis ends a side and is consumed with it.
 */
module AqlGrammar {
  import opened AqlWhere

  // Parser results: values from 3 on are errors.
  const OK := 2
  const SYNTAX_ERROR := 3

  predicate IsError(status: int) { status >= 3 }

  /** Success and the position after what was read. */
  datatype Reading = Reading(ok: bool, pos: nat)

  /** Status and position of a clause. */
  datatype Parsed = Parsed(status: int, pos: nat)

  /** The position after one more token. */
  function Skip(ts: seq<Token>, pos: nat): nat {
    if pos < |ts| then pos + 1 else pos
  }

  function OperandAt(ts: seq<Token>, pos: nat): (r: Reading)
    ensures r.pos == Skip(ts, pos)
  {
    var t := Peek(ts, pos);
    Reading(t.Identifier? || t.IntegerValue? || t.StringValue? || t.FloatValue?, Skip(ts, pos))
  }

  /** parse_expr. */
  function ExprAt(ts: seq<Token>, pos: nat): (r: Reading)
    ensures pos <= r.pos
    decreases |ts| - pos, 1
  {
    var head := HeadAt(ts, pos);
    if head.ok then StepsAt(ts, head.pos) else head
  }

  /** A side in parentheses or an operand. */
  function HeadAt(ts: seq<Token>, pos: nat): (r: Reading)
    ensures pos <= r.pos && (r.ok ==> pos < r.pos)
    decreases |ts| - pos, 0
  {
    if Peek(ts, pos).LeftParen? then
      var inner := ExprAt(ts, pos + 1);
      if inner.ok then Reading(Peek(ts, inner.pos).RightParen?, Skip(ts, inner.pos)) else inner
    else OperandAt(ts, pos)
  }

  /** What follows an arithmetic operator: an operand, or else, behind the token that is
      none, a side. */
  function StepAt(ts: seq<Token>, pos: nat): (r: Reading)
    ensures pos <= r.pos
    decreases |ts| - pos, 2
  {
    if OperandAt(ts, pos).ok || pos >= |ts| then OperandAt(ts, pos) else ExprAt(ts, pos + 1)
  }

  /** The rest of a side. */
  function StepsAt(ts: seq<Token>, pos: nat): (r: Reading)
    ensures pos <= r.pos
    decreases |ts| - pos, 0
  {
    var t := Peek(ts, pos);
    if t.RightParen? then Reading(true, pos + 1)
    else if !IsArith(t) then Reading(true, pos)
    else
      var step := StepAt(ts, pos + 1);
      if step.ok then StepsAt(ts, step.pos) else step
  }

  /** parse_comparison. */
  function ComparisonAt(ts: seq<Token>, pos: nat): (r: Reading)
    ensures pos <= r.pos
  {
    var l := ExprAt(ts, pos);
    if !l.ok then l
    else if !IsComparison(Peek(ts, l.pos)) then Reading(false, Skip(ts, l.pos))
    else ExprAt(ts, l.pos + 1)
  }

  predicate StartsArm(t: Token) { t.AndToken? || t.OrToken? }

  /** parse_where. */
  function WhereAt(ts: seq<Token>, pos: nat): (r: Parsed)
    ensures pos <= r.pos && (r.status == 0 || r.status == OK || r.status == SYNTAX_ERROR)
    decreases |ts| - pos, 2
  {
    var c := ComparisonAt(ts, pos);
    if c.ok then LinksAt(ts, c.pos) else Parsed(SYNTAX_ERROR, c.pos)
  }

  /** The connectives after a comparison. */
  function LinksAt(ts: seq<Token>, pos: nat): (r: Parsed)
    ensures pos <= r.pos && (r.status == 0 || r.status == OK || r.status == SYNTAX_ERROR)
    decreases |ts| - pos, 1
  {
    if !StartsArm(Peek(ts, pos)) then Parsed(OK, pos)
    else
      var arm := ArmAt(ts, pos + 1);
      if arm.status == OK then LinksAt(ts, arm.pos) else arm
  }

  /** What follows a connective: a clause in parentheses, of which only an error counts as
      failure, or a comparison, whose failure gives 0. */
  function ArmAt(ts: seq<Token>, pos: nat): (r: Parsed)
    ensures pos <= r.pos && (r.status == 0 || r.status == OK || r.status == SYNTAX_ERROR)
    decreases |ts| - pos, 0
  {
    if Peek(ts, pos).LeftParen? then
      var inner := WhereAt(ts, pos + 1);
      if IsError(inner.status) then Parsed(SYNTAX_ERROR, inner.pos)
      else Parsed(if Peek(ts, inner.pos).RightParen? then OK else SYNTAX_ERROR, Skip(ts, inner.pos))
    else
      var c := ComparisonAt(ts, pos);
      Parsed(if c.ok then OK else 0, c.pos)
  }

  // ---------------------------------------------------------------------------
  // When a clause gets which status
  // ---------------------------------------------------------------------------

  /** The arms of a clause start at `arms`, one behind a connective after the other, and
      all but the last are read successfully. */
  ghost predicate Arms(ts: seq<Token>, pos: nat, arms: seq<nat>)
    decreases |arms|
  {
    if arms == [] then true
    else
      && StartsArm(Peek(ts, pos)) && arms[0] == pos + 1
      && (|arms| > 1 ==> ArmAt(ts, arms[0]).status == OK && Arms(ts, ArmAt(ts, arms[0]).pos, arms[1..]))
  }

  /** The position behind the last of the arms. */
  ghost function Behind(ts: seq<Token>, pos: nat, arms: seq<nat>): nat {
    if arms == [] then pos else ArmAt(ts, arms[|arms| - 1]).pos
  }

  /** The arm is a comparison without parentheses that cannot be read. */
  predicate BareFailure(ts: seq<Token>, at: nat) {
    !Peek(ts, at).LeftParen? && !ComparisonAt(ts, at).ok
  }

  /** The arm is a parenthesis around a clause that is an error, or is not closed behind
      its clause. */
  predicate ParenthesisFailure(ts: seq<Token>, at: nat) {
    && Peek(ts, at).LeftParen?
    && (WhereAt(ts, at + 1).status == SYNTAX_ERROR || !Peek(ts, WhereAt(ts, at + 1).pos).RightParen?)
  }

  lemma ArmCases(ts: seq<Token>, at: nat)
    ensures ArmAt(ts, at).status == 0 <==> BareFailure(ts, at)
    ensures ArmAt(ts, at).status == SYNTAX_ERROR <==> ParenthesisFailure(ts, at)
  {
    hide ComparisonAt, WhereAt;
  }

  /** The arms up to the first that fails, or all of them. */
  lemma {:induction false} ReadArms(ts: seq<Token>, pos: nat) returns (arms: seq<nat>)
    ensures Arms(ts, pos, arms)
    ensures LinksAt(ts, pos).status == OK ==>
              !StartsArm(Peek(ts, Behind(ts, pos, arms)))
              && (arms != [] ==> ArmAt(ts, arms[|arms| - 1]).status == OK)
    ensures LinksAt(ts, pos).status != OK ==>
              arms != [] && ArmAt(ts, arms[|arms| - 1]).status == LinksAt(ts, pos).status
    decreases |ts| - pos
  {
    hide ArmAt;
    if !StartsArm(Peek(ts, pos)) {
      arms := [];
    } else {
      var arm := ArmAt(ts, pos + 1);
      if arm.status != OK {
        arms := [pos + 1];
      } else {
        var rest := ReadArms(ts, arm.pos);
        arms := [pos + 1] + rest;
        assert arms[1..] == rest;
      }
    }
  }

  /** Arms up to one that fails determine the status. */
  lemma {:induction false} ArmsFail(ts: seq<Token>, pos: nat, arms: seq<nat>)
    requires Arms(ts, pos, arms) && arms != [] && ArmAt(ts, arms[|arms| - 1]).status != OK
    ensures LinksAt(ts, pos).status == ArmAt(ts, arms[|arms| - 1]).status
    decreases |arms|
  {
    hide ArmAt;
    if |arms| > 1 {
      ArmsFail(ts, ArmAt(ts, arms[0]).pos, arms[1..]);
    }
  }

  lemma {:induction false} ArmsSucceed(ts: seq<Token>, pos: nat, arms: seq<nat>)
    requires Arms(ts, pos, arms) && (arms != [] ==> ArmAt(ts, arms[|arms| - 1]).status == OK)
    requires !StartsArm(Peek(ts, Behind(ts, pos, arms)))
    ensures LinksAt(ts, pos) == Parsed(OK, Behind(ts, pos, arms))
    decreases |arms|
  {
    hide ArmAt;
    if arms != [] {
      ArmsSucceed(ts, ArmAt(ts, arms[0]).pos, arms[1..]);
    }
  }

  /** The result is 0, which callers take for success, exactly when the first comparison
      is read and the first arm that fails is a comparison without parentheses. */
  lemma ZeroExactly(ts: seq<Token>, pos: nat)
    ensures var c := ComparisonAt(ts, pos);
            WhereAt(ts, pos).status == 0
            <==> c.ok && exists arms :: Arms(ts, c.pos, arms) && arms != [] && BareFailure(ts, arms[|arms| - 1])
  {
    hide ArmAt, LinksAt, BareFailure, ComparisonAt;
    var c := ComparisonAt(ts, pos);
    if c.ok {
      var arms := ReadArms(ts, c.pos);
      if arms != [] { ArmCases(ts, arms[|arms| - 1]); }
      forall other | Arms(ts, c.pos, other) && other != [] && BareFailure(ts, other[|other| - 1])
        ensures LinksAt(ts, c.pos).status == 0
      {
        ArmCases(ts, other[|other| - 1]);
        ArmsFail(ts, c.pos, other);
      }
    }
  }

  /** The result is SYNTAX_ERROR exactly when the first comparison is not read or the first
      arm that fails is a parenthesis. */
  lemma SyntaxErrorExactly(ts: seq<Token>, pos: nat)
    ensures var c := ComparisonAt(ts, pos);
            WhereAt(ts, pos).status == SYNTAX_ERROR
            <==> !c.ok || exists arms :: Arms(ts, c.pos, arms) && arms != [] && ParenthesisFailure(ts, arms[|arms| - 1])
  {
    hide ArmAt, LinksAt, ParenthesisFailure, ComparisonAt;
    var c := ComparisonAt(ts, pos);
    if c.ok {
      var arms := ReadArms(ts, c.pos);
      if arms != [] { ArmCases(ts, arms[|arms| - 1]); }
      forall other | Arms(ts, c.pos, other) && other != [] && ParenthesisFailure(ts, other[|other| - 1])
        ensures LinksAt(ts, c.pos).status == SYNTAX_ERROR
      {
        ArmCases(ts, other[|other| - 1]);
        ArmsFail(ts, c.pos, other);
      }
    }
  }

  /** The result is OK exactly when the first comparison and every arm are read, up to a
      token that is no connective. */
  lemma OkExactly(ts: seq<Token>, pos: nat)
    ensures var c := ComparisonAt(ts, pos);
            WhereAt(ts, pos).status == OK
            <==> c.ok && exists arms :: Arms(ts, c.pos, arms) && !StartsArm(Peek(ts, Behind(ts, c.pos, arms)))
                                        && (arms != [] ==> ArmAt(ts, arms[|arms| - 1]).status == OK)
  {
    hide ArmAt, LinksAt, ComparisonAt, StartsArm;
    var c := ComparisonAt(ts, pos);
    if c.ok {
      var arms := ReadArms(ts, c.pos);
      forall other | Arms(ts, c.pos, other) && !StartsArm(Peek(ts, Behind(ts, c.pos, other)))
                     && (other != [] ==> ArmAt(ts, other[|other| - 1]).status == OK)
        ensures LinksAt(ts, c.pos).status == OK
      {
        ArmsSucceed(ts, c.pos, other);
      }
    }
  }

  /** `a = 1 AND` has the result 0 with all tokens consumed. */
  lemma DanglingConnective()
    ensures WhereAt([Identifier("a"), Equal, IntegerValue(1), AndToken], 0) == Parsed(0, 4)
  {
    var ts := [Identifier("a"), Equal, IntegerValue(1), AndToken];
    assert StepsAt(ts, 1) == Reading(true, 1);
    assert ExprAt(ts, 0) == Reading(true, 1);
    assert StepsAt(ts, 3) == Reading(true, 3);
    assert ExprAt(ts, 2) == Reading(true, 3);
    assert HeadAt(ts, 4) == Reading(false, 4);
    assert ExprAt(ts, 4) == Reading(false, 4);
    assert ArmAt(ts, 4) == Parsed(0, 4);
  }
}
