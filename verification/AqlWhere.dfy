/**
 The WHERE clause of Antelope's query language: its tokens, the clauses written
 without parentheses, and the bytecode that the one-pass parser leaves for them.
 */
module AqlWhere {
  import opened Bytes
  import opened Lvm
  import opened LvmMachine

  datatype Token =
    | Identifier(name: string) | IntegerValue(n: int) | StringValue | FloatValue
    | Plus | Minus | Times | Slash
    | Greater | Less | GreaterEqual | LessEqual | Equal | NotEqual
    | AndToken | OrToken | LeftParen | RightParen
    | OtherToken | NoToken

  datatype Operand = Name(name: string) | Const(n: int)

  /** One side of a comparison: an operand and any number of arithmetic steps. */
  datatype Side = Side(first: Operand, rest: seq<(ArithOp, Operand)>)
  datatype Comparison = Comparison(l: Side, op: CmpOp, r: Side)
  datatype Where = Last(c: Comparison) | Link(c: Comparison, isAnd: bool, next: Where)

  // ---------------------------------------------------------------------------
  // Tokens
  // ---------------------------------------------------------------------------

  function OperandToken(o: Operand): Token {
    match o
    case Name(s) => Identifier(s)
    case Const(n) => IntegerValue(n)
  }

  function ArithToken(op: ArithOp): Token {
    match op
    case Add => Plus
    case Sub => Minus
    case Mul => Times
    case Div => Slash
  }

  function CmpToken(op: CmpOp): Token {
    match op
    case Gt => Greater
    case Geq => GreaterEqual
    case Lt => Less
    case Leq => LessEqual
    case Eq => Equal
    case Neq => NotEqual
  }

  function StepTokens(rest: seq<(ArithOp, Operand)>): (r: seq<Token>)
    ensures |r| == 2 * |rest|
  {
    if rest == [] then []
    else StepTokens(rest[..|rest| - 1]) + [ArithToken(rest[|rest| - 1].0), OperandToken(rest[|rest| - 1].1)]
  }

  function SideTokens(s: Side): seq<Token> {
    [OperandToken(s.first)] + StepTokens(s.rest)
  }

  function ComparisonTokens(c: Comparison): seq<Token> {
    SideTokens(c.l) + [CmpToken(c.op)] + SideTokens(c.r)
  }

  function WhereTokens(w: Where): seq<Token> {
    match w
    case Last(c) => ComparisonTokens(c)
    case Link(c, isAnd, next) =>
      ComparisonTokens(c) + [if isAnd then AndToken else OrToken] + WhereTokens(next)
  }

  predicate IsArith(t: Token) { t.Plus? || t.Minus? || t.Times? || t.Slash? }
  predicate IsComparison(t: Token) {
    t.Greater? || t.Less? || t.GreaterEqual? || t.LessEqual? || t.Equal? || t.NotEqual?
  }

  /** `ts` stand in the input at `pos`. */
  ghost predicate Stands(tokens: seq<Token>, pos: nat, ts: seq<Token>) {
    pos + |ts| <= |tokens| && tokens[pos..pos + |ts|] == ts
  }

  function Peek(tokens: seq<Token>, pos: nat): Token {
    if pos < |tokens| then tokens[pos] else NoToken
  }

  // ---------------------------------------------------------------------------
  // Names and code
  // ---------------------------------------------------------------------------

  function OperandNames(names: seq<string>, o: Operand): (r: seq<string>)
    requires |names| <= MAX_VARIABLES
    ensures |r| <= MAX_VARIABLES && names <= r
  {
    match o
    case Name(s) => Register(names, s)
    case Const(_) => names
  }

  function StepNames(names: seq<string>, rest: seq<(ArithOp, Operand)>): (r: seq<string>)
    requires |names| <= MAX_VARIABLES
    ensures |r| <= MAX_VARIABLES && names <= r
  {
    if rest == [] then names
    else OperandNames(StepNames(names, rest[..|rest| - 1]), rest[|rest| - 1].1)
  }

  function SideNames(names: seq<string>, s: Side): (r: seq<string>)
    requires |names| <= MAX_VARIABLES
    ensures |r| <= MAX_VARIABLES && names <= r
  {
    StepNames(OperandNames(names, s.first), s.rest)
  }

  function ComparisonNames(names: seq<string>, c: Comparison): (r: seq<string>)
    requires |names| <= MAX_VARIABLES
    ensures |r| <= MAX_VARIABLES && names <= r
  {
    SideNames(SideNames(names, c.l), c.r)
  }

  function WhereNames(names: seq<string>, w: Where): (r: seq<string>)
    requires |names| <= MAX_VARIABLES
    ensures |r| <= MAX_VARIABLES && names <= r
    decreases w
  {
    match w
    case Last(c) => ComparisonNames(names, c)
    case Link(c, _, next) => WhereNames(ComparisonNames(names, c), next)
  }

  function OperandExpr(names: seq<string>, o: Operand): Expr {
    match o
    case Name(s) => Var(IndexOf(names, s))
    case Const(n) => Num(n)
  }

  /** Code for further steps: each operator is put in front of its right operand
      only, because the shift starts at the end of what precedes. */
  function StepCode(names: seq<string>, rest: seq<(ArithOp, Operand)>): seq<byte> {
    if rest == [] then []
    else StepCode(names, rest[..|rest| - 1])
         + Node(ARITH_OP, ArithCode(rest[|rest| - 1].0)) + EncodeExpr(OperandExpr(names, rest[|rest| - 1].1))
  }

  /** Code for a side: the first operator goes in front of both of its operands. */
  function SideCode(names: seq<string>, s: Side): seq<byte> {
    if s.rest == [] then EncodeExpr(OperandExpr(names, s.first))
    else Node(ARITH_OP, ArithCode(s.rest[0].0)) + EncodeExpr(OperandExpr(names, s.first))
         + EncodeExpr(OperandExpr(names, s.rest[0].1)) + StepCode(names, s.rest[1..])
  }

  function ComparisonCode(names: seq<string>, c: Comparison): seq<byte> {
    Node(CMP_OP, CmpCode(c.op)) + SideCode(names, c.l) + SideCode(names, c.r)
  }

  function WhereCode(names: seq<string>, w: Where): seq<byte> {
    match w
    case Last(c) => ComparisonCode(names, c)
    case Link(c, isAnd, next) =>
      Node(CMP_OP, if isAnd then OP_AND else OP_OR) + ComparisonCode(names, c) + WhereCode(names, next)
  }

  // ---------------------------------------------------------------------------
  // The tree that a clause denotes
  // ---------------------------------------------------------------------------

  predicate SimpleSide(s: Side) { |s.rest| <= 1 }

  predicate Simple(w: Where) {
    SimpleSide(w.c.l) && SimpleSide(w.c.r) && (w.Link? ==> Simple(w.next))
  }

  /** Left-to-right arithmetic. */
  function StepsExpr(names: seq<string>, e: Expr, rest: seq<(ArithOp, Operand)>): Expr {
    if rest == [] then e
    else Arith(rest[|rest| - 1].0, StepsExpr(names, e, rest[..|rest| - 1]), OperandExpr(names, rest[|rest| - 1].1))
  }

  function SideExpr(names: seq<string>, s: Side): Expr {
    StepsExpr(names, OperandExpr(names, s.first), s.rest)
  }

  /** Connectives group to the right: c0 op1 (c1 op2 (...)). */
  function Tree(names: seq<string>, w: Where): Cond {
    var c := Cmp(w.c.op, SideExpr(names, w.c.l), SideExpr(names, w.c.r));
    match w
    case Last(_) => c
    case Link(_, isAnd, next) => if isAnd then And(c, Tree(names, next)) else Or(c, Tree(names, next))
  }

  lemma SideCodeEncodes(names: seq<string>, s: Side)
    requires SimpleSide(s)
    ensures SideCode(names, s) == EncodeExpr(SideExpr(names, s))
  {
    if s.rest != [] {
      assert s.rest[..0] == [] && s.rest[1..] == [];
      var e := OperandExpr(names, s.first);
      assert StepsExpr(names, e, s.rest[..0]) == e;
    }
  }

  lemma {:induction false} StepLengths(names: seq<string>, e: Expr, rest: seq<(ArithOp, Operand)>)
    ensures |StepCode(names, rest)| == 20 * |rest|
    ensures |EncodeExpr(StepsExpr(names, e, rest))| == |EncodeExpr(e)| + 20 * |rest|
  {
    if rest != [] {
      StepLengths(names, e, rest[..|rest| - 1]);
    }
  }

  lemma SideLength(names: seq<string>, s: Side)
    ensures |SideCode(names, s)| == |EncodeExpr(SideExpr(names, s))| == 12 + 20 * |s.rest|
  {
    StepLengths(names, OperandExpr(names, s.first), s.rest);
    if s.rest != [] {
      StepLengths(names, OperandExpr(names, s.first), s.rest[1..]);
    }
  }

  /** With two or more steps, the second node of the tree's encoding is an operator,
      but the second node of the emitted code is an operand. */
  lemma LongSideDiffers(names: seq<string>, s: Side)
    requires !SimpleSide(s)
    ensures SideCode(names, s) != EncodeExpr(SideExpr(names, s))
  {
    hide Word;
    SideLength(names, s);
    var n := |s.rest|;
    var e := OperandExpr(names, s.first);
    var inner := StepsExpr(names, e, s.rest[..n - 1]);
    assert SideExpr(names, s) == Arith(s.rest[n - 1].0, inner, OperandExpr(names, s.rest[n - 1].1));
    assert inner.Arith?;
    var code := SideCode(names, s);
    var encoding := EncodeExpr(SideExpr(names, s));
    assert code[8..12] == Word(OPERAND);
    assert encoding[8..12] == Word(ARITH_OP);
    TypesDiffer();
  }

  lemma TypesDiffer()
    ensures Word(OPERAND) != Word(ARITH_OP)
  {
    assert Word(OPERAND)[0] == 0x20 && Word(ARITH_OP)[0] == 0x10;
  }

  /** Pieces of equal lengths make equal wholes only if they are equal. */
  lemma SameSplit(a: seq<byte>, b: seq<byte>, c: seq<byte>, d: seq<byte>)
    requires |a| == |c|
    ensures a + b == c + d <==> a == c && b == d
  {
    if a + b == c + d {
      assert a == (a + b)[..|a|] && c == (c + d)[..|a|];
      assert b == (a + b)[|a|..] && d == (c + d)[|a|..];
    }
  }

  /** The emitted code is the prefix encoding of the right-nested tree if and only if
      no side of a comparison has more than one arithmetic step. */
  lemma {:induction false} WhereCodeEncodes(names: seq<string>, w: Where)
    ensures WhereCode(names, w) == Encode(Tree(names, w)) <==> Simple(w)
    decreases w
  {
    hide SideCode, SideExpr, Node, EncodeExpr;
    var head := Node(CMP_OP, CmpCode(w.c.op));
    var l, l' := SideCode(names, w.c.l), EncodeExpr(SideExpr(names, w.c.l));
    var r, r' := SideCode(names, w.c.r), EncodeExpr(SideExpr(names, w.c.r));
    SideExactly(names, w.c.l);
    SideExactly(names, w.c.r);
    SameSplit(head + l, r, head + l', r');
    SameSplit(head, l, head, l');
    if w.Link? {
      WhereCodeEncodes(names, w.next);
      var link := Node(CMP_OP, if w.isAnd then OP_AND else OP_OR);
      SameSplit(link + (head + l + r), WhereCode(names, w.next), link + (head + l' + r'), Encode(Tree(names, w.next)));
      SameSplit(link, head + l + r, link, head + l' + r');
    }
  }

  lemma SideExactly(names: seq<string>, s: Side)
    ensures SideCode(names, s) == EncodeExpr(SideExpr(names, s)) <==> SimpleSide(s)
    ensures |SideCode(names, s)| == |EncodeExpr(SideExpr(names, s))|
  {
    SideLength(names, s);
    if SimpleSide(s) {
      SideCodeEncodes(names, s);
    } else {
      LongSideDiffers(names, s);
    }
  }

  /** A chain of additions that the engine gets wrong: `1 + 2 + 3 = 6` is true, but
      the emitted code compares 1 + 2 with 3 + 6. */
  lemma LongChainFails()
    ensures var s := Side(Const(1), [(Add, Const(2)), (Add, Const(3))]);
            var w := Last(Comparison(s, Eq, Side(Const(6), [])));
            Meaning(Tree([], w), []) == TRUE && Execute(WhereCode([], w), []) == FALSE
  {
    var s := Side(Const(1), [(Add, Const(2)), (Add, Const(3))]);
    var w := Last(Comparison(s, Eq, Side(Const(6), [])));
    assert s.rest[..1] == [(Add, Const(2))] && s.rest[..1][..0] == [];
    assert SideExpr([], s) == Arith(Add, Arith(Add, Num(1), Num(2)), Num(3)) by {
      assert StepsExpr([], Num(1), s.rest[..1]) == Arith(Add, Num(1), Num(2)) by {
        assert StepsExpr([], Num(1), s.rest[..1][..0]) == Num(1);
      }
    }
    assert SideExpr([], Side(Const(6), [])) == Num(6);
    var t := Cmp(Eq, Arith(Add, Num(1), Num(2)), Arith(Add, Num(3), Num(6)));
    assert s.rest[1..] == [(Add, Const(3))];
    assert StepCode([], s.rest[1..]) == Node(ARITH_OP, OP_ADD) + EncodeExpr(Num(3)) by {
      assert s.rest[1..][..0] == [];
      assert StepCode([], s.rest[1..][..0]) == [];
    }
    assert WhereCode([], w) == Encode(t) by {
      hide Node, OperandNode;
    }
    ExecuteEncoded(t, Encode(t), []);
  }

  // ---------------------------------------------------------------------------
  // Names stay where they are registered
  // ---------------------------------------------------------------------------

  predicate OperandKnown(names: seq<string>, o: Operand) {
    o.Name? ==> o.name in names
  }

  predicate SideKnown(names: seq<string>, s: Side) {
    OperandKnown(names, s.first) && forall i :: 0 <= i < |s.rest| ==> OperandKnown(names, s.rest[i].1)
  }

  lemma {:induction false} IndexOfPrefix(a: seq<string>, b: seq<string>, name: string)
    requires a <= b && name in a
    ensures IndexOf(a, name) == IndexOf(b, name)
  {
    if a[0] != name {
      assert name in a[1..];
      IndexOfPrefix(a[1..], b[1..], name);
    }
  }

  lemma {:induction false} StepCodeStable(a: seq<string>, b: seq<string>, rest: seq<(ArithOp, Operand)>)
    requires a <= b && forall i :: 0 <= i < |rest| ==> OperandKnown(a, rest[i].1)
    ensures StepCode(a, rest) == StepCode(b, rest)
  {
    if rest != [] {
      StepCodeStable(a, b, rest[..|rest| - 1]);
      OperandStable(a, b, rest[|rest| - 1].1);
    }
  }

  lemma OperandStable(a: seq<string>, b: seq<string>, o: Operand)
    requires a <= b && OperandKnown(a, o)
    ensures OperandExpr(a, o) == OperandExpr(b, o)
  {
    if o.Name? {
      IndexOfPrefix(a, b, o.name);
    }
  }

  /** Code emitted under a table stays right when the table grows. */
  lemma SideCodeStable(a: seq<string>, b: seq<string>, s: Side)
    requires a <= b && SideKnown(a, s)
    ensures SideCode(a, s) == SideCode(b, s)
  {
    OperandStable(a, b, s.first);
    if s.rest != [] {
      OperandStable(a, b, s.rest[0].1);
      StepCodeStable(a, b, s.rest[1..]);
    }
  }

  // ---------------------------------------------------------------------------
  // Buffer room
  // ---------------------------------------------------------------------------

  /** Bytes of code that a token can add. A parenthesis can hold a comparison that
      fails after room for its operator has been reserved. */
  function Weight(t: Token): nat {
    if t.Identifier? || t.IntegerValue? then 12
    else if IsArith(t) || IsComparison(t) || t.AndToken? || t.OrToken? || t.LeftParen? then 8
    else 0
  }

  function Room(tokens: seq<Token>, pos: nat): nat
    decreases |tokens| - pos
  {
    if pos >= |tokens| then 0 else Weight(tokens[pos]) + Room(tokens, pos + 1)
  }

  // ---------------------------------------------------------------------------
  // Clauses whose names fit the variable table
  // ---------------------------------------------------------------------------

  /** Each operand's name is in the table once it has been registered. */
  predicate StepsFit(names: seq<string>, rest: seq<(ArithOp, Operand)>)
    requires |names| <= MAX_VARIABLES
  {
    forall k :: 0 <= k < |rest| ==> OperandKnown(StepNames(names, rest[..k + 1]), rest[k].1)
  }

  predicate SideFits(names: seq<string>, s: Side)
    requires |names| <= MAX_VARIABLES
  {
    var first := OperandNames(names, s.first);
    OperandKnown(first, s.first) && StepsFit(first, s.rest)
  }

  predicate ComparisonFits(names: seq<string>, c: Comparison)
    requires |names| <= MAX_VARIABLES
  {
    SideFits(names, c.l) && SideFits(SideNames(names, c.l), c.r)
  }

  predicate WhereFits(names: seq<string>, w: Where)
    requires |names| <= MAX_VARIABLES
    decreases w
  {
    ComparisonFits(names, w.c) && (w.Link? ==> WhereFits(ComparisonNames(names, w.c), w.next))
  }

  lemma {:induction false} StepNamesGrow(names: seq<string>, rest: seq<(ArithOp, Operand)>, k: nat)
    requires |names| <= MAX_VARIABLES && k <= |rest|
    ensures StepNames(names, rest[..k]) <= StepNames(names, rest)
  {
    if k < |rest| {
      StepNamesGrow(names, rest[..|rest| - 1], k);
      assert rest[..|rest| - 1][..k] == rest[..k];
    } else {
      assert rest[..k] == rest;
    }
  }

  lemma SideFitsKnown(names: seq<string>, s: Side)
    requires |names| <= MAX_VARIABLES && SideFits(names, s)
    ensures SideKnown(SideNames(names, s), s)
  {
    forall i | 0 <= i < |s.rest|
      ensures OperandKnown(SideNames(names, s), s.rest[i].1)
    {
      StepNamesGrow(OperandNames(names, s.first), s.rest, i + 1);
    }
  }

  lemma ComparisonCodeStable(names: seq<string>, after: seq<string>, c: Comparison)
    requires |names| <= MAX_VARIABLES && ComparisonFits(names, c) && ComparisonNames(names, c) <= after
    ensures ComparisonCode(ComparisonNames(names, c), c) == ComparisonCode(after, c)
    ensures SideCode(SideNames(names, c.l), c.l) == SideCode(ComparisonNames(names, c), c.l)
  {
    hide SideCode, StepNames, OperandNames, SideFits;
    var mid := SideNames(names, c.l);
    SideFitsKnown(names, c.l);
    SideFitsKnown(mid, c.r);
    SideCodeStable(mid, ComparisonNames(names, c), c.l);
    SideCodeStable(mid, after, c.l);
    SideCodeStable(ComparisonNames(names, c), after, c.r);
  }

  // ---------------------------------------------------------------------------
  // Reading rendered tokens
  // ---------------------------------------------------------------------------

  lemma {:induction false} StepTokensAt(rest: seq<(ArithOp, Operand)>, k: nat)
    requires k < |rest|
    ensures StepTokens(rest)[2 * k] == ArithToken(rest[k].0)
    ensures StepTokens(rest)[2 * k + 1] == OperandToken(rest[k].1)
  {
    if k < |rest| - 1 {
      StepTokensAt(rest[..|rest| - 1], k);
    }
  }

  lemma SideFirstToken(tokens: seq<Token>, pos: nat, s: Side)
    requires Stands(tokens, pos, SideTokens(s))
    ensures Peek(tokens, pos) == OperandToken(s.first)
  {
    assert tokens[pos] == tokens[pos..pos + |SideTokens(s)|][0];
  }

  lemma SideStepTokens(tokens: seq<Token>, pos: nat, s: Side, k: nat)
    requires Stands(tokens, pos, SideTokens(s)) && k < |s.rest|
    ensures Peek(tokens, pos + 1 + 2 * k) == ArithToken(s.rest[k].0)
    ensures Peek(tokens, pos + 2 + 2 * k) == OperandToken(s.rest[k].1)
  {
    var ts := SideTokens(s);
    StepTokensAt(s.rest, k);
    assert ts[1 + 2 * k] == StepTokens(s.rest)[2 * k] && ts[2 + 2 * k] == StepTokens(s.rest)[2 * k + 1];
    assert tokens[pos + (1 + 2 * k)] == tokens[pos..pos + |ts|][1 + 2 * k];
    assert tokens[pos + (2 + 2 * k)] == tokens[pos..pos + |ts|][2 + 2 * k];
  }

  lemma StandsSplit(tokens: seq<Token>, pos: nat, a: seq<Token>, b: seq<Token>)
    ensures Stands(tokens, pos, a + b) <==> Stands(tokens, pos, a) && Stands(tokens, pos + |a|, b)
  {
    if pos + |a| + |b| <= |tokens| {
      var s := tokens[pos..pos + |a| + |b|];
      assert s[..|a|] == tokens[pos..pos + |a|] && s[|a|..] == tokens[pos + |a|..pos + |a| + |b|];
      assert s == s[..|a|] + s[|a|..];
      assert (a + b)[..|a|] == a && (a + b)[|a|..] == b;
    }
  }

  // ---------------------------------------------------------------------------
  // Code in the buffer
  // ---------------------------------------------------------------------------

  /** Emission from `start` left exactly `bytes` there and nothing below changed. */
  ghost predicate Appended(before: seq<byte>, start: nat, after: seq<byte>, end: nat, bytes: seq<byte>) {
    && |after| == |before| && start <= end <= |after| && end == start + |bytes|
    && after[..start] == before[..start] && after[start..end] == bytes
  }

  lemma AppendedEnd(before: seq<byte>, start: nat, after: seq<byte>, end: nat, bytes: seq<byte>)
    requires Appended(before, start, after, end, bytes)
    ensures end == start + |bytes| && |after| == |before| && end <= |after|
  {
  }

  lemma AppendedTwice(s0: seq<byte>, e0: nat, s1: seq<byte>, e1: nat, a: seq<byte>, s2: seq<byte>, e2: nat, b: seq<byte>)
    requires Appended(s0, e0, s1, e1, a) && Appended(s1, e1, s2, e2, b)
    ensures Appended(s0, e0, s2, e2, a + b)
  {
    assert s2[..e0] == s2[..e1][..e0] && s1[..e0] == s1[..e1][..e0];
    assert s2[e0..e1] == s2[..e1][e0..] && s1[e0..e1] == s1[..e1][e0..];
    assert s2[e0..e2] == s2[e0..e1] + s2[e1..e2];
  }

  /** Putting a node in front of the last piece of what was emitted. */
  lemma AppendedInsert(s0: seq<byte>, e0: nat, s1: seq<byte>, mid: nat, e1: nat, a: seq<byte>, b: seq<byte>,
                       node: seq<byte>, s2: seq<byte>)
    requires Appended(s0, e0, s1, e1, a + b) && mid == e0 + |a| && |s2| == |s1| && e1 + |node| <= |s1|
    requires s2[..mid] == s1[..mid] && s2[mid..mid + |node|] == node && s2[mid + |node|..e1 + |node|] == s1[mid..e1]
    ensures Appended(s0, e0, s2, e1 + |node|, a + node + b)
  {
    assert s2[..e0] == s2[..mid][..e0] && s1[..e0] == s1[..mid][..e0];
    assert s2[e0..mid] == s2[..mid][e0..] && s1[e0..mid] == s1[..mid][e0..];
    assert s1[e0..mid] == s1[e0..e1][..|a|] && s1[mid..e1] == s1[e0..e1][|a|..];
    assert s2[e0..e1 + |node|] == s2[e0..mid] + s2[mid..mid + |node|] + s2[mid + |node|..e1 + |node|];
  }

  // ---------------------------------------------------------------------------
  // One arithmetic step of the parser
  // ---------------------------------------------------------------------------

  function Prefix(s: Side, k: nat): Side
    requires k <= |s.rest|
  {
    Side(s.first, s.rest[..k])
  }

  /** Names after the first `k` steps of a side. */
  function PrefixNames(names: seq<string>, s: Side, k: nat): (r: seq<string>)
    requires |names| <= MAX_VARIABLES && k <= |s.rest|
    ensures |r| <= MAX_VARIABLES
  {
    StepNames(OperandNames(names, s.first), s.rest[..k])
  }

  lemma PrefixNamesStep(names: seq<string>, s: Side, k: nat)
    requires |names| <= MAX_VARIABLES && k < |s.rest|
    ensures PrefixNames(names, s, k + 1) == OperandNames(PrefixNames(names, s, k), s.rest[k].1)
    ensures PrefixNames(names, s, k + 1) <= SideNames(names, s)
  {
    assert s.rest[..k + 1][..k] == s.rest[..k];
    StepNamesGrow(OperandNames(names, s.first), s.rest, k + 1);
  }

  /** The code of one more step: the operator goes in front of both operands the
      first time, and in front of the new operand only after that. */
  lemma PrefixCodeStep(names: seq<string>, s: Side, k: nat)
    requires k < |s.rest|
    ensures var node := Node(ARITH_OP, ArithCode(s.rest[k].0));
            var operand := EncodeExpr(OperandExpr(names, s.rest[k].1));
            var before := SideCode(names, Prefix(s, k));
            SideCode(names, Prefix(s, k + 1)) == if k == 0 then node + (before + operand) else before + node + operand
  {
    hide Node, EncodeExpr, OperandExpr, StepCode;
    var r, r1 := s.rest[..k], s.rest[..k + 1];
    var node := Node(ARITH_OP, ArithCode(s.rest[k].0));
    var operand := EncodeExpr(OperandExpr(names, s.rest[k].1));
    var first := EncodeExpr(OperandExpr(names, s.first));
    assert r1[0] == s.rest[0];
    if k == 0 {
      assert r == [] && r1[1..] == [];
      StepCodeLast(names, r1[1..]);
      assert node + first + operand + [] == node + (first + operand);
    } else {
      assert r[0] == s.rest[0] && r1[1..][..k - 1] == r[1..] && r1[1..][k - 1] == s.rest[k];
      StepCodeLast(names, r1[1..]);
      var head := Node(ARITH_OP, ArithCode(s.rest[0].0)) + first + EncodeExpr(OperandExpr(names, s.rest[0].1));
      var tail := StepCode(names, r[1..]);
      assert head + (tail + node + operand) == head + tail + node + operand;
    }
  }

  lemma StepCodeLast(names: seq<string>, rest: seq<(ArithOp, Operand)>)
    ensures StepCode(names, rest) ==
            if rest == [] then []
            else StepCode(names, rest[..|rest| - 1])
                 + Node(ARITH_OP, ArithCode(rest[|rest| - 1].0)) + EncodeExpr(OperandExpr(names, rest[|rest| - 1].1))
  {
  }

  lemma OperandLength(names: seq<string>, o: Operand)
    ensures |EncodeExpr(OperandExpr(names, o))| == 12
  {
  }

  // ---------------------------------------------------------------------------
  // What the tokens mean
  // ---------------------------------------------------------------------------

  /** The token between two operands says what is computed from their values. */
  lemma ArithmeticTokens(op: ArithOp, l: Expr, r: Expr, env: seq<int>, a: int, b: int)
    requires ExprMeaning(l, env) == Val(a) && ExprMeaning(r, env) == Val(b)
    ensures match ArithToken(op)
            case Plus => ExprMeaning(Arith(op, l, r), env) == Val(a + b)
            case Minus => ExprMeaning(Arith(op, l, r), env) == Val(a - b)
            case Times => ExprMeaning(Arith(op, l, r), env) == Val(a * b)
            case _ => if b == 0 then ExprMeaning(Arith(op, l, r), env) == Err(MATH_ERROR)
                      else ArithToken(op) == Slash
                           && forall q :: ExprMeaning(Arith(op, l, r), env) == Val(q) <==> Divides(a, b, q)
  {
    ArithmeticValues(l, r, env, a, b);
  }

  /** The token between two sides says how their values are compared. */
  lemma RelationTokens(op: CmpOp, l: Expr, r: Expr, env: seq<int>, a: int, b: int)
    requires ExprMeaning(l, env) == Val(a) && ExprMeaning(r, env) == Val(b)
    ensures var holds := Meaning(Cmp(op, l, r), env) == TRUE;
            match CmpToken(op)
            case Greater => holds <==> a > b
            case Less => holds <==> a < b
            case GreaterEqual => holds <==> a >= b
            case LessEqual => holds <==> a <= b
            case Equal => holds <==> a == b
            case _ => CmpToken(op) == NotEqual && (holds <==> a != b)
  {
  }

  /** The token behind the first comparison says how it is combined with the rest. */
  lemma LinkTokens(names: seq<string>, c: Comparison, isAnd: bool, next: Where, env: seq<int>)
    ensures var w := Link(c, isAnd, next);
            var first, rest := Meaning(Tree(names, Last(c)), env), Meaning(Tree(names, next), env);
            && WhereTokens(w)[..|ComparisonTokens(c)|] == ComparisonTokens(c)
            && match WhereTokens(w)[|ComparisonTokens(c)|]
               case AndToken => Meaning(Tree(names, w), env) == TRUE <==> first == TRUE && rest == TRUE
               case _ => WhereTokens(w)[|ComparisonTokens(c)|] == OrToken
                         && (Meaning(Tree(names, w), env) == FALSE <==> first == FALSE && rest == FALSE)
  {
    hide SideExpr, SideTokens;
  }
}
