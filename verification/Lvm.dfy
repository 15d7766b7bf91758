/**
 Antelope's logic engine: conditions as trees, their prefix bytecode, and the
 interpreter that runs over the bytes.

 The layout is that of a 32-bit little-endian machine: node types, operators,
 operand types and operand values are four bytes each.
 */
module Lvm {
  import opened Bytes

  const LONG_MIN: int := -0x8000_0000
  const LONG_MAX: int := 0x7FFF_FFFF

  const ARITH_OP := 0x10
  const OPERAND := 0x20
  const CMP_OP := 0x40
  const CONNECTIVE := 0x80

  const OP_ADD := 0x11
  const OP_SUB := 0x12
  const OP_MUL := 0x13
  const OP_DIV := 0x14
  const OP_EQ := 0x41
  const OP_NEQ := 0x42
  const OP_GE := 0x43    // strictly greater
  const OP_GEQ := 0x44
  const OP_LE := 0x45    // strictly less
  const OP_LEQ := 0x46
  const OP_AND := 0x81
  const OP_OR := 0x82
  const OP_NOT := 0x83

  const VARIABLE := 0
  const LONG := 2

  /** OVERRUN stands for a read outside the code buffer or the variable table,
      which the program does not detect. */
  datatype Status = FALSE | TRUE | SEMANTIC_ERROR | MATH_ERROR | EXECUTION_ERROR | DERIVATION_ERROR | OVERRUN
  {
    predicate IsError() { !FALSE? && !TRUE? }
  }

  function Truth(b: bool): Status { if b then TRUE else FALSE }

  // ---------------------------------------------------------------------------
  // Words
  // ---------------------------------------------------------------------------

  predicate IsLong(x: int) { LONG_MIN <= x <= LONG_MAX }

  function Word(x: int): (s: seq<byte>)
    ensures |s| == 4
  {
    var u: int := x % 0x1_0000_0000;
    var u1: int := u / 0x100;
    var u2: int := u1 / 0x100;
    var u3: int := u2 / 0x100;
    var d0: int, d1: int, d2: int := u % 0x100, u1 % 0x100, u2 % 0x100;
    [d0, d1, d2, u3]
  }

  function WordAt(code: seq<byte>, ip: nat): (x: int)
    requires ip + 4 <= |code|
    ensures IsLong(x)
  {
    var b0: int, b1: int, b2: int, b3: int := code[ip], code[ip + 1], code[ip + 2], code[ip + 3];
    var u := b0 + 0x100 * b1 + 0x1_0000 * b2 + 0x100_0000 * b3;
    if u > LONG_MAX then u - 0x1_0000_0000 else u
  }

  /** `bytes` stand in the code at `ip`. */
  ghost predicate At(code: seq<byte>, ip: nat, bytes: seq<byte>) {
    ip + |bytes| <= |code| && code[ip..ip + |bytes|] == bytes
  }

  lemma AtSplit(code: seq<byte>, ip: nat, a: seq<byte>, b: seq<byte>)
    ensures At(code, ip, a + b) <==> At(code, ip, a) && At(code, ip + |a|, b)
  {
    if ip + |a| + |b| <= |code| {
      var s := code[ip..ip + |a| + |b|];
      assert s[..|a|] == code[ip..ip + |a|] && s[|a|..] == code[ip + |a|..ip + |a| + |b|];
      assert s == s[..|a|] + s[|a|..];
      assert (a + b)[..|a|] == a && (a + b)[|a|..] == b;
    }
  }

  lemma WordReadsBack(code: seq<byte>, ip: nat, x: int)
    requires At(code, ip, Word(x)) && IsLong(x)
    ensures WordAt(code, ip) == x
  {
    WordDigits(code, ip, Word(x));
    WordRoundTrip(x);
  }

  /** The value of the word whose bytes stand at `ip`. */
  lemma WordDigits(code: seq<byte>, ip: nat, w: seq<byte>)
    requires |w| == 4 && At(code, ip, w)
    ensures code[ip] == w[0] && WordAt(code, ip) == WordAt(w, 0)
  {
    var c := code[ip..ip + 4];
    assert code[ip] == c[0] && code[ip + 1] == c[1] && code[ip + 2] == c[2] && code[ip + 3] == c[3];
  }

  lemma WordRoundTrip(x: int)
    requires IsLong(x)
    ensures WordAt(Word(x), 0) == x
  {
  }

  lemma VariableReadsBack(code: seq<byte>, ip: nat, id: byte)
    requires At(code, ip, Word(id))
    ensures code[ip] == id
  {
    var w := code[ip..ip + 4];
    assert w == Word(id);
    assert code[ip] == w[0];
  }

  // ---------------------------------------------------------------------------
  // Conditions and their meaning
  // ---------------------------------------------------------------------------

  datatype ArithOp = Add | Sub | Mul | Div
  datatype CmpOp = Eq | Neq | Gt | Geq | Lt | Leq
  datatype Expr = Num(n: int) | Var(id: nat) | Arith(op: ArithOp, l: Expr, r: Expr)
  datatype Cond = Cmp(op: CmpOp, l: Expr, r: Expr) | And(a: Cond, b: Cond) | Or(a: Cond, b: Cond) | Not(a: Cond)

  datatype Value = Val(v: int) | Err(status: Status)

  /** C division truncates towards zero. */
  function Quotient(a: int, b: int): int
    requires b != 0
  {
    if (a >= 0) == (b > 0) || a == 0 then Abs(a) / Abs(b) else -(Abs(a) / Abs(b))
  }

  function Abs(a: int): nat { if a < 0 then -a else a }

  function ApplyArith(op: ArithOp, a: int, b: int): Value {
    match op
    case Add => Val(a + b)
    case Sub => Val(a - b)
    case Mul => Val(a * b)
    case Div => if b == 0 then Err(MATH_ERROR) else Val(Quotient(a, b))
  }

  predicate Compare(op: CmpOp, a: int, b: int) {
    match op
    case Eq => a == b
    case Neq => a != b
    case Gt => a > b
    case Geq => a >= b
    case Lt => a < b
    case Leq => a <= b
  }

  /** The value of an expression; an error in either operand is the result. */
  function ExprMeaning(e: Expr, env: seq<int>): Value {
    match e
    case Num(n) => Val(n)
    case Var(id) => if id < |env| then Val(env[id]) else Err(OVERRUN)
    case Arith(op, l, r) =>
      var a := ExprMeaning(l, env);
      if a.Err? then a else
      var b := ExprMeaning(r, env);
      if b.Err? then b else ApplyArith(op, a.v, b.v)
  }

  /** The truth of a condition. Both sides of a connective are always evaluated. */
  function Meaning(c: Cond, env: seq<int>): Status {
    match c
    case Cmp(op, l, r) =>
      var a := ExprMeaning(l, env);
      if a.Err? then a.status else
      var b := ExprMeaning(r, env);
      if b.Err? then b.status else Truth(Compare(op, a.v, b.v))
    case Not(a) =>
      var x := Meaning(a, env);
      if x.IsError() then x else Truth(x == FALSE)
    case And(a, b) =>
      var x := Meaning(a, env);
      if x.IsError() then x else
      var y := Meaning(b, env);
      if y.IsError() then y else Truth(x == TRUE && y == TRUE)
    case Or(a, b) =>
      var x := Meaning(a, env);
      if x.IsError() then x else
      var y := Meaning(b, env);
      if y.IsError() then y else Truth(x == TRUE || y == TRUE)
  }

  /** Constants fit a machine word and variables have a slot. */
  predicate ExprFits(e: Expr, nvars: nat) {
    match e
    case Num(n) => IsLong(n)
    case Var(id) => id < nvars && id < 256
    case Arith(_, l, r) => ExprFits(l, nvars) && ExprFits(r, nvars)
  }

  predicate Fits(c: Cond, nvars: nat) {
    match c
    case Cmp(_, l, r) => ExprFits(l, nvars) && ExprFits(r, nvars)
    case And(a, b) => Fits(a, nvars) && Fits(b, nvars)
    case Or(a, b) => Fits(a, nvars) && Fits(b, nvars)
    case Not(a) => Fits(a, nvars)
  }

  // ---------------------------------------------------------------------------
  // Prefix encoding
  // ---------------------------------------------------------------------------

  function ArithCode(op: ArithOp): int {
    match op
    case Add => OP_ADD
    case Sub => OP_SUB
    case Mul => OP_MUL
    case Div => OP_DIV
  }

  function CmpCode(op: CmpOp): int {
    match op
    case Eq => OP_EQ
    case Neq => OP_NEQ
    case Gt => OP_GE
    case Geq => OP_GEQ
    case Lt => OP_LE
    case Leq => OP_LEQ
  }

  function Node(nodeType: int, operator: int): (s: seq<byte>)
    ensures |s| == 8
  {
    Word(nodeType) + Word(operator)
  }

  function OperandNode(operandType: int, value: int): (s: seq<byte>)
    ensures |s| == 12
  {
    Word(OPERAND) + Word(operandType) + Word(value)
  }

  function EncodeExpr(e: Expr): seq<byte> {
    match e
    case Num(n) => OperandNode(LONG, n)
    case Var(id) => OperandNode(VARIABLE, id)
    case Arith(op, l, r) => Node(ARITH_OP, ArithCode(op)) + EncodeExpr(l) + EncodeExpr(r)
  }

  function Encode(c: Cond): seq<byte> {
    match c
    case Cmp(op, l, r) => Node(CMP_OP, CmpCode(op)) + EncodeExpr(l) + EncodeExpr(r)
    case And(a, b) => Node(CMP_OP, OP_AND) + Encode(a) + Encode(b)
    case Or(a, b) => Node(CMP_OP, OP_OR) + Encode(a) + Encode(b)
    case Not(a) => Node(CMP_OP, OP_NOT) + Encode(a)
  }

  // ---------------------------------------------------------------------------
  // The interpreter over arbitrary bytes
  // ---------------------------------------------------------------------------

  /** A value and the position after it, or the reason evaluation stopped. */
  datatype Outcome<+T> = Reached(ip: nat, value: T) | Stop(status: Status)

  function OperandValue(code: seq<byte>, ip: nat, env: seq<int>): Outcome<int> {
    if ip + 8 > |code| then Stop(OVERRUN)
    else
      var t := WordAt(code, ip);
      if t == LONG then Reached(ip + 8, WordAt(code, ip + 4))
      else if t == VARIABLE then
        (if code[ip + 4] < |env| then Reached(ip + 8, env[code[ip + 4]]) else Stop(OVERRUN))
      else Reached(ip + 8, 0)
  }

  /** One argument: an arithmetic node or an operand. */
  function EvalArgument(code: seq<byte>, ip: nat, env: seq<int>): (r: Outcome<int>)
    ensures r.Reached? ==> ip < r.ip <= |code|
    ensures r.Stop? ==> r.status.IsError()
    decreases |code| - ip, 0
  {
    if ip + 4 > |code| then Stop(OVERRUN)
    else if WordAt(code, ip) == ARITH_OP then
      (if ip + 8 > |code| then Stop(OVERRUN) else EvalExpr(code, ip + 8, WordAt(code, ip + 4), env))
    else if WordAt(code, ip) == OPERAND then OperandValue(code, ip + 4, env)
    else Stop(SEMANTIC_ERROR)
  }

  function EvalExpr(code: seq<byte>, ip: nat, op: int, env: seq<int>): (r: Outcome<int>)
    ensures r.Reached? ==> ip < r.ip <= |code|
    ensures r.Stop? ==> r.status.IsError()
    decreases |code| - ip, 1
  {
    var a := EvalArgument(code, ip, env);
    if a.Stop? then a else
    var b := EvalArgument(code, a.ip, env);
    if b.Stop? then b
    else if op == OP_ADD then Reached(b.ip, a.value + b.value)
    else if op == OP_SUB then Reached(b.ip, a.value - b.value)
    else if op == OP_MUL then Reached(b.ip, a.value * b.value)
    else if op == OP_DIV then
      (if b.value == 0 then Stop(MATH_ERROR) else Reached(b.ip, Quotient(a.value, b.value)))
    else Stop(EXECUTION_ERROR)
  }

  /** Whether the connective bit of an operator word is set. */
  predicate IsConnective(op: int) { op / CONNECTIVE % 2 == 1 }

  /** One argument of a connective: a comparison node and what follows. */
  function EvalBranch(code: seq<byte>, ip: nat, env: seq<int>): (r: Outcome<bool>)
    ensures r.Reached? ==> ip < r.ip <= |code|
    ensures r.Stop? ==> r.status.IsError()
    decreases |code| - ip, 0
  {
    if ip + 4 > |code| then Stop(OVERRUN)
    else if WordAt(code, ip) != CMP_OP then Stop(SEMANTIC_ERROR)
    else if ip + 8 > |code| then Stop(OVERRUN)
    else EvalLogic(code, ip + 8, WordAt(code, ip + 4), env)
  }

  function EvalLogic(code: seq<byte>, ip: nat, op: int, env: seq<int>): (r: Outcome<bool>)
    ensures r.Reached? ==> ip < r.ip <= |code|
    ensures r.Stop? ==> r.status.IsError()
    decreases |code| - ip, 1
  {
    if IsConnective(op) then
      var a := EvalBranch(code, ip, env);
      if a.Stop? then a
      else if op == OP_NOT then Reached(a.ip, !a.value)
      else
        var b := EvalBranch(code, a.ip, env);
        if b.Stop? then b
        else if op == OP_AND then Reached(b.ip, a.value && b.value)
        else Reached(b.ip, a.value || b.value)
    else
      var a := EvalArgument(code, ip, env);
      if a.Stop? then Stop(a.status) else
      var b := EvalArgument(code, a.ip, env);
      if b.Stop? then Stop(b.status)
      else if op == OP_EQ then Reached(b.ip, a.value == b.value)
      else if op == OP_NEQ then Reached(b.ip, a.value != b.value)
      else if op == OP_GE then Reached(b.ip, a.value > b.value)
      else if op == OP_GEQ then Reached(b.ip, a.value >= b.value)
      else if op == OP_LE then Reached(b.ip, a.value < b.value)
      else if op == OP_LEQ then Reached(b.ip, a.value <= b.value)
      else Stop(EXECUTION_ERROR)
  }

  /** lvm_execute. */
  function Execute(code: seq<byte>, env: seq<int>): Status {
    if |code| < 4 then OVERRUN
    else if WordAt(code, 0) != CMP_OP then EXECUTION_ERROR
    else if |code| < 8 then OVERRUN
    else
      var r := EvalLogic(code, 8, WordAt(code, 4), env);
      if r.Stop? then r.status else Truth(r.value)
  }

  // ---------------------------------------------------------------------------
  // Running the encoding of a tree gives the tree's meaning
  // ---------------------------------------------------------------------------

  lemma NodeReadsBack(code: seq<byte>, ip: nat, nodeType: int, operator: int)
    requires At(code, ip, Node(nodeType, operator)) && IsLong(nodeType) && IsLong(operator)
    ensures ip + 8 <= |code| && WordAt(code, ip) == nodeType && WordAt(code, ip + 4) == operator
  {
    AtSplit(code, ip, Word(nodeType), Word(operator));
    WordReadsBack(code, ip, nodeType);
    WordReadsBack(code, ip + 4, operator);
  }

  lemma OperandReadsBack(code: seq<byte>, ip: nat, operandType: int, value: int)
    requires At(code, ip, OperandNode(operandType, value)) && IsLong(operandType) && IsLong(value)
    ensures ip + 12 <= |code|
    ensures WordAt(code, ip) == OPERAND && WordAt(code, ip + 4) == operandType && WordAt(code, ip + 8) == value
    ensures 0 <= value < 256 ==> code[ip + 8] == value
  {
    AtSplit(code, ip, Word(OPERAND) + Word(operandType), Word(value));
    AtSplit(code, ip, Word(OPERAND), Word(operandType));
    WordReadsBack(code, ip, OPERAND);
    WordReadsBack(code, ip + 4, operandType);
    WordReadsBack(code, ip + 8, value);
    if 0 <= value < 256 {
      VariableReadsBack(code, ip + 8, value);
    }
  }

  /** An encoded expression evaluates to its meaning and is consumed exactly. */
  lemma {:induction false} RunExpr(e: Expr, code: seq<byte>, ip: nat, env: seq<int>)
    requires ExprFits(e, |env|) && At(code, ip, EncodeExpr(e))
    ensures var m := ExprMeaning(e, env);
            EvalArgument(code, ip, env) ==
            if m.Val? then Reached(ip + |EncodeExpr(e)|, m.v) else Stop(m.status)
    decreases e
  {
    hide WordAt, Word, Node, OperandNode, IsConnective;
    match e
    case Num(n) =>
      OperandReadsBack(code, ip, LONG, n);
    case Var(id) =>
      OperandReadsBack(code, ip, VARIABLE, id);
    case Arith(op, l, r) =>
      var head := Node(ARITH_OP, ArithCode(op));
      AtSplit(code, ip, head + EncodeExpr(l), EncodeExpr(r));
      AtSplit(code, ip, head, EncodeExpr(l));
      NodeReadsBack(code, ip, ARITH_OP, ArithCode(op));
      RunExpr(l, code, ip + 8, env);
      RunExpr(r, code, ip + 8 + |EncodeExpr(l)|, env);
      RunArith(op, code, ip + 8, env);
  }

  lemma RunArith(op: ArithOp, code: seq<byte>, ip: nat, env: seq<int>)
    ensures var a := EvalArgument(code, ip, env);
            var b := if a.Stop? then a else EvalArgument(code, a.ip, env);
            EvalExpr(code, ip, ArithCode(op), env) ==
            if a.Stop? then a else if b.Stop? then b
            else match ApplyArith(op, a.value, b.value)
                 case Val(v) => Reached(b.ip, v)
                 case Err(s) => Stop(s)
  {
  }

  lemma RunCmp(op: CmpOp, code: seq<byte>, ip: nat, env: seq<int>)
    ensures var a := EvalArgument(code, ip, env);
            var b := if a.Stop? then a else EvalArgument(code, a.ip, env);
            EvalLogic(code, ip, CmpCode(op), env) ==
            if a.Stop? then Stop(a.status) else if b.Stop? then Stop(b.status)
            else Reached(b.ip, Compare(op, a.value, b.value))
  {
  }

  /** Evaluation that ended with status `m` at `ip`. */
  function OutcomeOf(m: Status, ip: nat): Outcome<bool> {
    if m.IsError() then Stop(m) else Reached(ip, m == TRUE)
  }

  /** An encoded condition evaluates to its meaning and is consumed exactly:
      evaluation terminates, ip advances by the encoded length, and a division by
      zero anywhere gives MATH_ERROR. */
  lemma {:induction false} RunCond(c: Cond, code: seq<byte>, ip: nat, env: seq<int>)
    requires Fits(c, |env|) && At(code, ip, Encode(c))
    ensures EvalBranch(code, ip, env) == OutcomeOf(Meaning(c, env), ip + |Encode(c)|)
    decreases c
  {
    hide WordAt, Word, Node, EvalArgument, ExprMeaning, EvalBranch, EvalLogic, EncodeExpr, ExprFits, Meaning, OutcomeOf;
    match c
    case Cmp(op, l, r) =>
      RunComparison(op, l, r, code, ip, env);
    case Not(a) =>
      AtSplit(code, ip, Node(CMP_OP, OP_NOT), Encode(a));
      NodeReadsBack(code, ip, CMP_OP, OP_NOT);
      RunCond(a, code, ip + 8, env);
      RunNot(a, code, ip, env);
    case And(a, b) =>
      RunConnective(OP_AND, a, b, code, ip);
      RunCond(a, code, ip + 8, env);
      RunCond(b, code, ip + 8 + |Encode(a)|, env);
      RunBinary(c, a, b, OP_AND, code, ip, env);
    case Or(a, b) =>
      RunConnective(OP_OR, a, b, code, ip);
      RunCond(a, code, ip + 8, env);
      RunCond(b, code, ip + 8 + |Encode(a)|, env);
      RunBinary(c, a, b, OP_OR, code, ip, env);
  }

  lemma RunNot(a: Cond, code: seq<byte>, ip: nat, env: seq<int>)
    requires ip + 8 <= |code| && WordAt(code, ip) == CMP_OP && WordAt(code, ip + 4) == OP_NOT
    requires EvalBranch(code, ip + 8, env) == OutcomeOf(Meaning(a, env), ip + 8 + |Encode(a)|)
    ensures EvalBranch(code, ip, env) == OutcomeOf(Meaning(Not(a), env), ip + |Encode(Not(a))|)
  {
    hide WordAt, Word, Node, EvalArgument, ExprMeaning, EvalLogic, EncodeExpr;
    RunLogic(code, ip + 8, env);
  }

  lemma RunBinary(c: Cond, a: Cond, b: Cond, op: int, code: seq<byte>, ip: nat, env: seq<int>)
    requires (c == And(a, b) && op == OP_AND) || (c == Or(a, b) && op == OP_OR)
    requires ip + 8 <= |code| && WordAt(code, ip) == CMP_OP && WordAt(code, ip + 4) == op
    requires EvalBranch(code, ip + 8, env) == OutcomeOf(Meaning(a, env), ip + 8 + |Encode(a)|)
    requires EvalBranch(code, ip + 8 + |Encode(a)|, env)
             == OutcomeOf(Meaning(b, env), ip + 8 + |Encode(a)| + |Encode(b)|)
    ensures EvalBranch(code, ip, env) == OutcomeOf(Meaning(c, env), ip + |Encode(c)|)
  {
    hide WordAt, Word, Node, EvalArgument, ExprMeaning, EvalLogic, EncodeExpr;
    RunLogic(code, ip + 8, env);
  }

  lemma RunComparison(op: CmpOp, l: Expr, r: Expr, code: seq<byte>, ip: nat, env: seq<int>)
    requires ExprFits(l, |env|) && ExprFits(r, |env|) && At(code, ip, Encode(Cmp(op, l, r)))
    ensures var c := Cmp(op, l, r);
            EvalBranch(code, ip, env) == OutcomeOf(Meaning(c, env), ip + |Encode(c)|)
  {
    hide WordAt, Word, Node, EvalArgument, ExprMeaning, EvalLogic, EncodeExpr, ExprFits;
    var head := Node(CMP_OP, CmpCode(op));
    AtSplit(code, ip, head + EncodeExpr(l), EncodeExpr(r));
    AtSplit(code, ip, head, EncodeExpr(l));
    NodeReadsBack(code, ip, CMP_OP, CmpCode(op));
    RunExpr(l, code, ip + 8, env);
    RunExpr(r, code, ip + 8 + |EncodeExpr(l)|, env);
    RunCmp(op, code, ip + 8, env);
    ErrorsAreErrors(l, env);
    ErrorsAreErrors(r, env);
  }

  lemma RunLogic(code: seq<byte>, ip: nat, env: seq<int>)
    ensures var a := EvalBranch(code, ip, env);
            var b := if a.Stop? then a else EvalBranch(code, a.ip, env);
            && EvalLogic(code, ip, OP_NOT, env) == (if a.Stop? then a else Reached(a.ip, !a.value))
            && EvalLogic(code, ip, OP_AND, env) ==
               (if a.Stop? then a else if b.Stop? then b else Reached(b.ip, a.value && b.value))
            && EvalLogic(code, ip, OP_OR, env) ==
               (if a.Stop? then a else if b.Stop? then b else Reached(b.ip, a.value || b.value))
  {
  }

  lemma RunConnective(op: int, a: Cond, b: Cond, code: seq<byte>, ip: nat)
    requires At(code, ip, Node(CMP_OP, op) + Encode(a) + Encode(b)) && IsLong(op)
    ensures At(code, ip + 8, Encode(a)) && At(code, ip + 8 + |Encode(a)|, Encode(b))
    ensures ip + 8 <= |code| && WordAt(code, ip) == CMP_OP && WordAt(code, ip + 4) == op
  {
    hide WordAt, Word, Node, Encode;
    AtSplit(code, ip, Node(CMP_OP, op) + Encode(a), Encode(b));
    AtSplit(code, ip, Node(CMP_OP, op), Encode(a));
    NodeReadsBack(code, ip, CMP_OP, op);
  }

  lemma {:induction false} ErrorsAreErrors(e: Expr, env: seq<int>)
    ensures ExprMeaning(e, env).Err? ==> ExprMeaning(e, env).status.IsError()
    decreases e
  {
    if e.Arith? {
      ErrorsAreErrors(e.l, env);
      ErrorsAreErrors(e.r, env);
    }
  }

  /** Executing a buffer that starts with the encoding of a condition returns the
      condition's meaning, whatever follows in the buffer. */
  lemma ExecuteEncoded(c: Cond, code: seq<byte>, env: seq<int>)
    requires Fits(c, |env|) && At(code, 0, Encode(c))
    ensures Execute(code, env) == Meaning(c, env)
  {
    hide WordAt, Encode, EvalLogic, Meaning;
    RunCond(c, code, 0, env);
    EncodingStarts(c, code);
  }

  lemma EncodingStarts(c: Cond, code: seq<byte>)
    requires At(code, 0, Encode(c))
    ensures |code| >= 8 && WordAt(code, 0) == CMP_OP
  {
    hide WordAt, Word, Node;
    match c
    case Cmp(op, l, r) =>
      AtSplit(code, 0, Node(CMP_OP, CmpCode(op)) + EncodeExpr(l), EncodeExpr(r));
      AtSplit(code, 0, Node(CMP_OP, CmpCode(op)), EncodeExpr(l));
      NodeReadsBack(code, 0, CMP_OP, CmpCode(op));
    case Not(a) =>
      AtSplit(code, 0, Node(CMP_OP, OP_NOT), Encode(a));
      NodeReadsBack(code, 0, CMP_OP, OP_NOT);
    case And(a, b) =>
      RunConnective(OP_AND, a, b, code, 0);
    case Or(a, b) =>
      RunConnective(OP_OR, a, b, code, 0);
  }

  ghost predicate DividesByZero(e: Expr, env: seq<int>) {
    e.Arith? && (DividesByZero(e.l, env) || DividesByZero(e.r, env)
                 || (e.op.Div? && ExprMeaning(e.l, env).Val? && ExprMeaning(e.r, env) == Val(0)))
  }

  ghost predicate CondDividesByZero(c: Cond, env: seq<int>) {
    match c
    case Cmp(_, l, r) => DividesByZero(l, env) || DividesByZero(r, env)
    case And(a, b) => CondDividesByZero(a, env) || CondDividesByZero(b, env)
    case Or(a, b) => CondDividesByZero(a, env) || CondDividesByZero(b, env)
    case Not(a) => CondDividesByZero(a, env)
  }

  lemma {:induction false} ExprMathError(e: Expr, env: seq<int>)
    requires ExprFits(e, |env|)
    ensures DividesByZero(e, env) <==> ExprMeaning(e, env).Err?
    ensures DividesByZero(e, env) ==> ExprMeaning(e, env) == Err(MATH_ERROR)
    decreases e
  {
    if e.Arith? {
      ExprMathError(e.l, env);
      ExprMathError(e.r, env);
    }
  }

  /** The only run-time error is MATH_ERROR, and it occurs exactly when some
      division anywhere in the condition has a zero divisor. */
  lemma {:induction false} MathErrorExactly(c: Cond, env: seq<int>)
    requires Fits(c, |env|)
    ensures CondDividesByZero(c, env) <==> Meaning(c, env) == MATH_ERROR
    ensures CondDividesByZero(c, env) <==> Meaning(c, env).IsError()
    decreases c
  {
    match c
    case Cmp(_, l, r) =>
      ExprMathError(l, env);
      ExprMathError(r, env);
    case And(a, b) =>
      MathErrorExactly(a, env);
      MathErrorExactly(b, env);
    case Or(a, b) =>
      MathErrorExactly(a, env);
      MathErrorExactly(b, env);
    case Not(a) =>
      MathErrorExactly(a, env);
  }

  // ---------------------------------------------------------------------------
  // What the operators compute
  // ---------------------------------------------------------------------------

  /** `q` is `a` divided by `b` in C: the remainder is smaller than the divisor and is zero
      or has the sign of the dividend. */
  predicate Divides(a: int, b: int, q: int) {
    var r := a - b * q;
    Abs(r) < Abs(b) && (r == 0 || (r < 0 <==> a < 0))
  }

  lemma EuclideanParts(m: nat, n: nat)
    requires n > 0
    ensures m == n * (m / n) + m % n && 0 <= m % n < n
  {
  }

  lemma Negated(x: int, y: int)
    ensures (-x) * y == -(x * y) && x * (-y) == -(x * y)
  {
  }

  lemma QuotientDivides(a: int, b: int)
    requires b != 0
    ensures Divides(a, b, Quotient(a, b))
  {
    EuclideanParts(Abs(a), Abs(b));
    Negated(b, Quotient(a, b));
    Negated(b, Abs(a) / Abs(b));
  }

  /** Two quotients of one division differ by less than one. */
  lemma QuotientUnique(a: int, b: int, q: int, p: int)
    requires b != 0 && Divides(a, b, q) && Divides(a, b, p)
    ensures q == p
  {
    var r, t := a - b * q, a - b * p;
    Distribute(b, p, q);
    assert b * (p - q) == r - t;
    assert Abs(r - t) < Abs(b);
    SmallMultiple(b, p - q);
  }

  lemma Distribute(b: int, p: int, q: int)
    ensures b * (p - q) == b * p - b * q
  {
  }

  lemma SmallMultiple(b: int, k: int)
    requires b != 0 && Abs(b * k) < Abs(b)
    ensures k == 0
  {
    if k > 0 {
      Distribute(b, k, 1);
      Grows(Abs(b), k);
      Negated(b, k);
    } else if k < 0 {
      Grows(Abs(b), -k);
      Negated(b, k);
      Negated(-b, k);
    }
  }

  lemma Grows(b: nat, k: nat)
    requires k > 0
    ensures b * k >= b
  {
    assert b * k == b + b * (k - 1);
    assert b * (k - 1) >= 0;
  }

  /** What the four operations compute on values that their operands have: sum, difference
      and product of integers, and the one quotient that truncates towards zero, which is
      missing exactly for a zero divisor. */
  lemma ArithmeticValues(l: Expr, r: Expr, env: seq<int>, a: int, b: int)
    requires ExprMeaning(l, env) == Val(a) && ExprMeaning(r, env) == Val(b)
    ensures ExprMeaning(Arith(Add, l, r), env) == Val(a + b)
    ensures ExprMeaning(Arith(Sub, l, r), env) == Val(a - b)
    ensures ExprMeaning(Arith(Mul, l, r), env) == Val(a * b)
    ensures b == 0 <==> ExprMeaning(Arith(Div, l, r), env) == Err(MATH_ERROR)
    ensures forall q :: ExprMeaning(Arith(Div, l, r), env) == Val(q) <==> b != 0 && Divides(a, b, q)
  {
    hide Quotient, Divides;
    if b != 0 {
      QuotientDivides(a, b);
      forall q | Divides(a, b, q) ensures q == Quotient(a, b) {
        QuotientUnique(a, b, q, Quotient(a, b));
      }
    }
  }

  /** What the six relations mean on values that their sides have: the order of the
      integers, with exactly one of less, equal and greater. */
  lemma RelationValues(l: Expr, r: Expr, env: seq<int>, a: int, b: int)
    requires ExprMeaning(l, env) == Val(a) && ExprMeaning(r, env) == Val(b)
    ensures Meaning(Cmp(Lt, l, r), env) == TRUE <==> 0 < b - a
    ensures Meaning(Cmp(Gt, l, r), env) == Meaning(Cmp(Lt, r, l), env)
    ensures Meaning(Cmp(Eq, l, r), env) == TRUE <==> a == b
    ensures Meaning(Cmp(Leq, l, r), env) == Meaning(Or(Cmp(Lt, l, r), Cmp(Eq, l, r)), env)
    ensures Meaning(Cmp(Geq, l, r), env) == Meaning(Or(Cmp(Gt, l, r), Cmp(Eq, l, r)), env)
    ensures Meaning(Cmp(Neq, l, r), env) == Meaning(Not(Cmp(Eq, l, r)), env)
    ensures forall op :: !Meaning(Cmp(op, l, r), env).IsError()
  {
  }

  /** What the connectives mean when both sides have a truth value, and that an error of
      either side, the left one first, is the result otherwise. */
  lemma ConnectiveValues(a: Cond, b: Cond, env: seq<int>)
    ensures Meaning(And(a, b), env) == TRUE <==> Meaning(a, env) == TRUE && Meaning(b, env) == TRUE
    ensures Meaning(Or(a, b), env) == FALSE <==> Meaning(a, env) == FALSE && Meaning(b, env) == FALSE
    ensures Meaning(Not(a), env) == TRUE <==> Meaning(a, env) == FALSE
    ensures forall c <- {And(a, b), Or(a, b)} :: Meaning(c, env).IsError() ==>
              Meaning(c, env) == if Meaning(a, env).IsError() then Meaning(a, env) else Meaning(b, env)
    ensures forall c <- {And(a, b), Or(a, b)} ::
              Meaning(c, env).IsError() <==> Meaning(a, env).IsError() || Meaning(b, env).IsError()
  {
  }

  /** An operand that is neither a number nor a variable counts as zero. */
  lemma OtherOperandIsZero(code: seq<byte>, ip: nat, t: int, value: int, env: seq<int>)
    requires IsLong(t) && t != LONG && t != VARIABLE && At(code, ip, OperandNode(t, value))
    ensures EvalArgument(code, ip, env) == Reached(ip + 12, 0)
  {
    hide Word, WordAt;
    AtSplit(code, ip, Word(OPERAND) + Word(t), Word(value));
    AtSplit(code, ip, Word(OPERAND), Word(t));
    WordReadsBack(code, ip, OPERAND);
    WordReadsBack(code, ip + 4, t);
  }

  /** What is neither an operand nor arithmetic is no argument, and a node with another
      operator than the four is evaluated in vain. */
  lemma BadNodes(code: seq<byte>, ip: nat, t: int, op: int, l: Expr, r: Expr, env: seq<int>)
    requires IsLong(t) && t != OPERAND && t != ARITH_OP && IsLong(op) && op !in {OP_ADD, OP_SUB, OP_MUL, OP_DIV}
    requires ExprFits(l, |env|) && ExprFits(r, |env|) && ExprMeaning(l, env).Val? && ExprMeaning(r, env).Val?
    ensures At(code, ip, Word(t)) ==> EvalArgument(code, ip, env) == Stop(SEMANTIC_ERROR)
    ensures At(code, ip, EncodeExpr(l) + EncodeExpr(r)) ==> EvalExpr(code, ip, op, env) == Stop(EXECUTION_ERROR)
  {
    hide Word, WordAt, EncodeExpr, ExprMeaning;
    if At(code, ip, Word(t)) {
      WordReadsBack(code, ip, t);
    }
    if At(code, ip, EncodeExpr(l) + EncodeExpr(r)) {
      AtSplit(code, ip, EncodeExpr(l), EncodeExpr(r));
      RunExpr(l, code, ip, env);
      RunExpr(r, code, ip + |EncodeExpr(l)|, env);
    }
  }

  /** A connective needs comparisons below it; any operator with the connective bit other
      than NOT and AND counts as OR. */
  lemma OddConnective(code: seq<byte>, ip: nat, op: int, env: seq<int>)
    requires op % 256 >= 128 && op != OP_NOT && op != OP_AND
    ensures EvalLogic(code, ip, op, env) == EvalLogic(code, ip, OP_OR, env)
    ensures ip + 4 <= |code| && WordAt(code, ip) != CMP_OP ==> EvalLogic(code, ip, op, env) == Stop(SEMANTIC_ERROR)
  {
    assert op / 128 % 2 == 1;
  }

  /** Code that does not start with a comparison or connective is not executed. */
  lemma NoCondition(code: seq<byte>, t: int, env: seq<int>)
    requires IsLong(t) && t != CMP_OP && At(code, 0, Word(t))
    ensures Execute(code, env) == EXECUTION_ERROR
  {
    hide Word, WordAt;
    WordReadsBack(code, 0, t);
  }
}
