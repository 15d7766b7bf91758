/**
 Range derivation: an over-approximation of a condition by one interval per
 variable, read off the bytecode, which selects the rows that an index visits.
 */
module LvmDerive {
  import opened Bytes
  import opened Lvm
  import opened LvmMachine
  import opened Wrappers

  datatype Derivation = Derivation(min: int, max: int, derived: bool)

  const BLANK := Derivation(0, 0, false)
  const NOTHING: seq<Derivation> := [BLANK, BLANK, BLANK, BLANK]

  // ---------------------------------------------------------------------------
  // Combining derivations
  // ---------------------------------------------------------------------------

  function Max(a: int, b: int): int { if a > b then a else b }
  function Min(a: int, b: int): int { if a < b then a else b }

  /** One slot of create_intersection. */
  function Meet(a: Derivation, b: Derivation): Derivation {
    if !a.derived && !b.derived then BLANK
    else if !b.derived then Derivation(a.min, a.max, true)
    else if !a.derived then Derivation(b.min, b.max, true)
    else Derivation(Max(a.min, b.min), Min(a.max, b.max), true)
  }

  /** One slot of create_union. */
  function Join(a: Derivation, b: Derivation): Derivation {
    if !a.derived && !b.derived then BLANK
    else if !b.derived then Derivation(a.min, a.max, true)
    else if !a.derived then Derivation(b.min, b.max, true)
    else Derivation(Min(a.min, b.min), Max(a.max, b.max), true)
  }

  function MeetAll(a: seq<Derivation>, b: seq<Derivation>): (r: seq<Derivation>)
    requires |a| == |b|
    ensures |r| == |a|
  {
    seq(|a|, i requires 0 <= i < |a| => Meet(a[i], b[i]))
  }

  function JoinAll(a: seq<Derivation>, b: seq<Derivation>): (r: seq<Derivation>)
    requires |a| == |b|
    ensures |r| == |a|
  {
    seq(|a|, i requires 0 <= i < |a| => Join(a[i], b[i]))
  }

  /** The interval that `variable op value` allows; nothing for "differs from". */
  function RangeOf(op: int, value: int): Option<Derivation> {
    if op == OP_EQ then Some(Derivation(value, value, true))
    else if op == OP_GE then Some(Derivation(value + 1, LONG_MAX, true))
    else if op == OP_GEQ then Some(Derivation(value, LONG_MAX, true))
    else if op == OP_LE then Some(Derivation(LONG_MIN, value - 1, true))
    else if op == OP_LEQ then Some(Derivation(LONG_MIN, value, true))
    else None
  }

  // ---------------------------------------------------------------------------
  // Derivation on trees
  // ---------------------------------------------------------------------------

  /** The variable slot that a comparison constrains. When neither side is a
      variable, the low byte of the right constant is taken for one. */
  function Slot(l: Expr, r: Expr): nat
    requires !l.Arith? && !r.Arith?
  {
    if l.Var? then l.id else if r.Var? then r.id else r.n % 256
  }

  function Bound(l: Expr, r: Expr): int
    requires !l.Arith? && !r.Arith? && !(l.Var? && r.Var?)
  {
    if l.Var? then r.n else l.n
  }

  function DeriveCmp(op: CmpOp, l: Expr, r: Expr): (d: Option<seq<Derivation>>)
    ensures d.Some? ==> |d.value| == MAX_VARIABLES
  {
    if l.Arith? || r.Arith? || (l.Var? && r.Var?) || Slot(l, r) >= MAX_VARIABLES then None
    else match RangeOf(CmpCode(op), Bound(l, r))
         case None => None
         case Some(range) => Some(NOTHING[Slot(l, r) := range])
  }

  function Derive(c: Cond): (d: Option<seq<Derivation>>)
    ensures d.Some? ==> |d.value| == MAX_VARIABLES
  {
    match c
    case Cmp(op, l, r) => DeriveCmp(op, l, r)
    case Not(_) => None
    case And(a, b) =>
      var x, y := Derive(a), Derive(b);
      if x.None? || y.None? then None else Some(MeetAll(x.value, y.value))
    case Or(a, b) =>
      var x, y := Derive(a), Derive(b);
      if x.None? || y.None? then None else Some(JoinAll(x.value, y.value))
  }

  // ---------------------------------------------------------------------------
  // Derivation on bytes
  // ---------------------------------------------------------------------------

  datatype Fetched = Fetched(operandType: int, value: int, id: nat)

  function FetchOperand(code: seq<byte>, ip: nat): Option<Fetched> {
    if ip + 12 > |code| || WordAt(code, ip) != OPERAND then None
    else Some(Fetched(WordAt(code, ip + 4), WordAt(code, ip + 8), code[ip + 8]))
  }

  function CompareSlots(op: int, a: Fetched, b: Fetched): (d: Option<seq<Derivation>>)
    ensures d.Some? ==> |d.value| == MAX_VARIABLES
  {
    if a.operandType == VARIABLE && b.operandType == VARIABLE then None
    else
      var id := if a.operandType == VARIABLE then a.id else b.id;
      var value := if a.operandType == VARIABLE then b.value else a.value;
      if id >= MAX_VARIABLES then None
      else match RangeOf(op, value)
           case None => None
           case Some(range) => Some(NOTHING[id := range])
  }

  /** derive_relation on the code at `ip`: the derivations and the position after
      the part that was read. */
  function DeriveAt(code: seq<byte>, ip: nat): (d: Option<(seq<Derivation>, nat)>)
    ensures d.Some? ==> |d.value.0| == MAX_VARIABLES && ip < d.value.1 <= |code|
    decreases |code| - ip
  {
    if ip + 8 > |code| then None
    else
      var op := WordAt(code, ip + 4);
      if IsConnective(op) then
        if op != OP_AND && op != OP_OR then None
        else
          var a := DeriveAt(code, ip + 8);
          if a.None? then None else
          var b := DeriveAt(code, a.value.1);
          if b.None? then None
          else if op == OP_AND then Some((MeetAll(a.value.0, b.value.0), b.value.1))
          else Some((JoinAll(a.value.0, b.value.0), b.value.1))
      else
        var a, b := FetchOperand(code, ip + 8), FetchOperand(code, ip + 20);
        if a.None? || b.None? then None
        else match CompareSlots(op, a.value, b.value)
             case None => None
             case Some(d) => Some((d, ip + 32))
  }

  // ---------------------------------------------------------------------------
  // The program's derivation
  // ---------------------------------------------------------------------------

  method CreateIntersection(result: array<Derivation>, d1: array<Derivation>, d2: array<Derivation>)
    requires result.Length == d1.Length == d2.Length == MAX_VARIABLES
    requires result != d1 && result != d2 && result[..] == NOTHING
    modifies result
    ensures result[..] == MeetAll(d1[..], d2[..])
  {
    var i := 0;
    while i < MAX_VARIABLES
      invariant 0 <= i <= MAX_VARIABLES
      invariant forall k :: 0 <= k < i ==> result[k] == Meet(d1[k], d2[k])
      invariant forall k :: i <= k < MAX_VARIABLES ==> result[k] == BLANK
      invariant d1[..] == old(d1[..]) && d2[..] == old(d2[..])
    {
      if d1[i].derived || d2[i].derived {
        var min, max;
        if d1[i].derived && !d2[i].derived {
          min, max := d1[i].min, d1[i].max;
        } else if !d1[i].derived && d2[i].derived {
          min, max := d2[i].min, d2[i].max;
        } else {
          if d1[i].min > d2[i].min { min := d1[i].min; } else { min := d2[i].min; }
          if d1[i].max < d2[i].max { max := d1[i].max; } else { max := d2[i].max; }
        }
        result[i] := Derivation(min, max, true);
      }
      i := i + 1;
    }
  }

  method CreateUnion(result: array<Derivation>, d1: array<Derivation>, d2: array<Derivation>)
    requires result.Length == d1.Length == d2.Length == MAX_VARIABLES
    requires result != d1 && result != d2 && result[..] == NOTHING
    modifies result
    ensures result[..] == JoinAll(d1[..], d2[..])
  {
    var i := 0;
    while i < MAX_VARIABLES
      invariant 0 <= i <= MAX_VARIABLES
      invariant forall k :: 0 <= k < i ==> result[k] == Join(d1[k], d2[k])
      invariant forall k :: i <= k < MAX_VARIABLES ==> result[k] == BLANK
      invariant d1[..] == old(d1[..]) && d2[..] == old(d2[..])
    {
      if d1[i].derived || d2[i].derived {
        var min, max;
        if d1[i].derived && !d2[i].derived {
          min, max := d1[i].min, d1[i].max;
        } else if !d1[i].derived && d2[i].derived {
          min, max := d2[i].min, d2[i].max;
        } else {
          if d1[i].min > d2[i].min { min := d2[i].min; } else { min := d1[i].min; }
          if d1[i].max < d2[i].max { max := d2[i].max; } else { max := d1[i].max; }
        }
        result[i] := Derivation(min, max, true);
      }
      i := i + 1;
    }
  }

  /** get_type and get_operand of a derivation's operand. */
  method ReadOperand(p: Machine) returns (r: Option<Fetched>)
    modifies p`ip
    ensures r == FetchOperand(p.code[..], old(p.ip))
    ensures r.Some? ==> p.ip == old(p.ip) + 12
  {
    if p.ip + 12 > p.code.Length {
      return None;
    }
    var _, nodeType := p.Fetch();
    if nodeType != OPERAND {
      return None;
    }
    var _, operandType := p.Fetch();
    var _, value := p.Fetch();
    r := Some(Fetched(operandType, value, p.code[p.ip - 4]));
  }

  /** derive_relation. */
  method DeriveRelation(p: Machine, local: array<Derivation>) returns (ok: bool)
    requires local.Length == MAX_VARIABLES && local[..] == NOTHING
    modifies p`ip, local
    ensures ok <==> DeriveAt(p.code[..], old(p.ip)).Some?
    ensures ok ==> (local[..], p.ip) == DeriveAt(p.code[..], old(p.ip)).value
    decreases p.code.Length - p.ip
  {
    hide MeetAll, JoinAll, WordAt, CompareSlots;
    if p.ip + 8 > p.code.Length {
      return false;
    }
    var _, _ := p.Fetch();
    var _, op := p.Fetch();
    if IsConnective(op) {
      if op != OP_AND && op != OP_OR {
        return false;
      }
      var d1 := new Derivation[MAX_VARIABLES](_ => BLANK);
      var d2 := new Derivation[MAX_VARIABLES](_ => BLANK);
      assert d1[..] == NOTHING && d2[..] == NOTHING;
      var ok1 := DeriveRelation(p, d1);
      if !ok1 {
        return false;
      }
      var ok2 := DeriveRelation(p, d2);
      if !ok2 {
        return false;
      }
      if op == OP_AND {
        CreateIntersection(local, d1, d2);
      } else {
        CreateUnion(local, d1, d2);
      }
      return true;
    }
    var a := ReadOperand(p);
    if a.None? {
      return false;
    }
    var b := ReadOperand(p);
    if b.None? {
      return false;
    }
    ok := DeriveComparison(op, a.value, b.value, local);
  }

  /** The comparison part of derive_relation. */
  method DeriveComparison(op: int, a: Fetched, b: Fetched, local: array<Derivation>) returns (ok: bool)
    requires local.Length == MAX_VARIABLES && local[..] == NOTHING
    modifies local
    ensures ok <==> CompareSlots(op, a, b).Some?
    ensures ok ==> local[..] == CompareSlots(op, a, b).value
  {
    if a.operandType == VARIABLE && b.operandType == VARIABLE {
      return false;
    }
    var id, value := b.id, a.value;
    if a.operandType == VARIABLE {
      id, value := a.id, b.value;
    }
    if id >= MAX_VARIABLES {
      return false;
    }
    var min, max := LONG_MIN, LONG_MAX;
    if op == OP_EQ {
      min, max := value, value;
    } else if op == OP_GE {
      min := value + 1;
    } else if op == OP_GEQ {
      min := value;
    } else if op == OP_LE {
      max := value - 1;
    } else if op == OP_LEQ {
      max := value;
    } else {
      return false;
    }
    local[id] := Derivation(min, max, true);
    ok := true;
  }

  // ---------------------------------------------------------------------------
  // Bytes and trees agree
  // ---------------------------------------------------------------------------

  lemma OperandFetched(e: Expr, code: seq<byte>, ip: nat)
    requires ExprFits(e, MAX_VARIABLES) && At(code, ip, EncodeExpr(e))
    ensures e.Arith? ==> FetchOperand(code, ip).None?
    ensures !e.Arith? ==>
              && FetchOperand(code, ip).Some?
              && var f := FetchOperand(code, ip).value;
                 && f.operandType == (if e.Var? then VARIABLE else LONG)
                 && (e.Var? ==> f.id == e.id)
                 && (e.Num? ==> f.value == e.n && f.id == e.n % 256)
  {
    hide WordAt, Word, OperandNode, Node;
    match e
    case Num(n) =>
      OperandReadsBack(code, ip, LONG, n);
      AtSplit(code, ip, Word(OPERAND) + Word(LONG), Word(n));
      NumBytes(code, ip, n);
    case Var(id) =>
      OperandReadsBack(code, ip, VARIABLE, id);
    case Arith(op, l, r) =>
      AtSplit(code, ip, Node(ARITH_OP, ArithCode(op)) + EncodeExpr(l), EncodeExpr(r));
      AtSplit(code, ip, Node(ARITH_OP, ArithCode(op)), EncodeExpr(l));
      NodeReadsBack(code, ip, ARITH_OP, ArithCode(op));
  }

  lemma NumBytes(code: seq<byte>, ip: nat, n: int)
    requires At(code, ip, OperandNode(LONG, n))
    ensures ip + 12 <= |code| && code[ip + 8] == n % 256
  {
    AtSplit(code, ip, Word(OPERAND) + Word(LONG), Word(n));
    LowByte(n);
    WordDigits(code, ip + 8, Word(n));
  }

  lemma LowByte(n: int)
    ensures Word(n)[0] == n % 256
  {
    assert n == 0x100 * (0x100_0000 * (n / 0x1_0000_0000)) + n % 0x1_0000_0000;
  }

  /** Deriving from the bytes of an encoded condition is deriving from the tree. */
  lemma {:induction false} DeriveEncoded(c: Cond, code: seq<byte>, ip: nat)
    requires Fits(c, MAX_VARIABLES) && At(code, ip, Encode(c))
    ensures DeriveAt(code, ip) ==
            match Derive(c) case None => None case Some(d) => Some((d, ip + |Encode(c)|))
    decreases c
  {
    hide WordAt, Word, Node, MeetAll, JoinAll, EncodeExpr, DeriveCmp, DeriveAt;
    match c
    case Cmp(op, l, r) =>
      CmpEncoded(op, l, r, code, ip);
    case Not(a) =>
      AtSplit(code, ip, Node(CMP_OP, OP_NOT), Encode(a));
      NodeReadsBack(code, ip, CMP_OP, OP_NOT);
      DeriveNode(code, ip);
    case And(a, b) =>
      RunConnective(OP_AND, a, b, code, ip);
      DeriveEncoded(a, code, ip + 8);
      DeriveEncoded(b, code, ip + 8 + |Encode(a)|);
      DeriveNode(code, ip);
    case Or(a, b) =>
      RunConnective(OP_OR, a, b, code, ip);
      DeriveEncoded(a, code, ip + 8);
      DeriveEncoded(b, code, ip + 8 + |Encode(a)|);
      DeriveNode(code, ip);
  }

  lemma DeriveNode(code: seq<byte>, ip: nat)
    requires ip + 8 <= |code|
    ensures var op := WordAt(code, ip + 4);
            var a := DeriveAt(code, ip + 8);
            var b := if a.None? then None else DeriveAt(code, a.value.1);
            && (op == OP_NOT ==> DeriveAt(code, ip).None?)
            && (op == OP_AND ==>
                  DeriveAt(code, ip) == if b.None? then None else Some((MeetAll(a.value.0, b.value.0), b.value.1)))
            && (op == OP_OR ==>
                  DeriveAt(code, ip) == if b.None? then None else Some((JoinAll(a.value.0, b.value.0), b.value.1)))
  {
    hide MeetAll, JoinAll, WordAt, CompareSlots, FetchOperand;
  }

  lemma CmpEncoded(op: CmpOp, l: Expr, r: Expr, code: seq<byte>, ip: nat)
    requires ExprFits(l, MAX_VARIABLES) && ExprFits(r, MAX_VARIABLES) && At(code, ip, Encode(Cmp(op, l, r)))
    ensures DeriveAt(code, ip) ==
            match DeriveCmp(op, l, r) case None => None case Some(d) => Some((d, ip + |Encode(Cmp(op, l, r))|))
  {
    hide WordAt, Word, Node, FetchOperand, RangeOf;
    AtSplit(code, ip, Node(CMP_OP, CmpCode(op)) + EncodeExpr(l), EncodeExpr(r));
    AtSplit(code, ip, Node(CMP_OP, CmpCode(op)), EncodeExpr(l));
    NodeReadsBack(code, ip, CMP_OP, CmpCode(op));
    OperandFetched(l, code, ip + 8);
    if !l.Arith? {
      OperandFetched(r, code, ip + 20);
    }
  }

  // ---------------------------------------------------------------------------
  // Soundness and exactness
  // ---------------------------------------------------------------------------

  predicate LongRow(env: seq<int>) {
    |env| == MAX_VARIABLES && forall i :: 0 <= i < |env| ==> IsLong(env[i])
  }

  predicate InRange(d: Derivation, x: int) { d.derived ==> d.min <= x <= d.max }

  predicate InRanges(d: seq<Derivation>, env: seq<int>)
    requires |d| == |env|
  {
    forall i :: 0 <= i < |d| ==> InRange(d[i], env[i])
  }

  /** Every comparison has the variable on the left and a constant on the right. */
  predicate Oriented(c: Cond) {
    match c
    case Cmp(_, l, r) => l.Var? && r.Num?
    case And(a, b) => Oriented(a) && Oriented(b)
    case Or(a, b) => Oriented(a) && Oriented(b)
    case Not(a) => Oriented(a)
  }

  function Vars(c: Cond): set<nat> {
    match c
    case Cmp(_, l, r) => (if l.Var? then {l.id} else {}) + (if r.Var? then {r.id} else {})
    case And(a, b) => Vars(a) + Vars(b)
    case Or(a, b) => Vars(a) + Vars(b)
    case Not(a) => Vars(a)
  }

  /** The two arms of every OR constrain the same variables. */
  predicate SameArms(c: Cond) {
    match c
    case Cmp(_, _, _) => true
    case And(a, b) => SameArms(a) && SameArms(b)
    case Or(a, b) => SameArms(a) && SameArms(b) && Vars(a) == Vars(b)
    case Not(a) => SameArms(a)
  }

  predicate Conjunction(c: Cond) {
    match c
    case Cmp(_, _, _) => true
    case And(a, b) => Conjunction(a) && Conjunction(b)
    case Or(_, _) => false
    case Not(_) => false
  }

  lemma {:induction false} DerivedVars(c: Cond)
    requires Oriented(c) && Derive(c).Some?
    ensures forall i :: 0 <= i < MAX_VARIABLES ==> (Derive(c).value[i].derived <==> i in Vars(c))
    decreases c
  {
    match c
    case Cmp(_, _, _) =>
    case And(a, b) =>
      DerivedVars(a);
      DerivedVars(b);
    case Or(a, b) =>
      DerivedVars(a);
      DerivedVars(b);
  }

  lemma CmpExact(op: CmpOp, id: nat, n: int, env: seq<int>)
    requires DeriveCmp(op, Var(id), Num(n)).Some? && LongRow(env)
    ensures Meaning(Cmp(op, Var(id), Num(n)), env) == TRUE
            <==> InRanges(DeriveCmp(op, Var(id), Num(n)).value, env)
  {
    var d := DeriveCmp(op, Var(id), Num(n)).value;
    assert forall i :: 0 <= i < MAX_VARIABLES && i != id ==> InRange(d[i], env[i]);
    assert InRanges(d, env) <==> InRange(d[id], env[id]);
  }

  /** Derivation is sound: a row that satisfies the condition has each derived
      variable in its range. */
  lemma {:induction false} DeriveSound(c: Cond, env: seq<int>)
    requires Oriented(c) && SameArms(c) && Derive(c).Some? && LongRow(env)
    requires Meaning(c, env) == TRUE
    ensures InRanges(Derive(c).value, env)
    decreases c
  {
    match c
    case Cmp(op, l, r) =>
      CmpExact(op, l.id, r.n, env);
    case And(a, b) =>
      DeriveSound(a, env);
      DeriveSound(b, env);
    case Or(a, b) =>
      DerivedVars(a);
      DerivedVars(b);
      if Meaning(a, env) == TRUE {
        DeriveSound(a, env);
      } else {
        DeriveSound(b, env);
      }
  }

  /** The same as an implication. */
  lemma DeriveCovers(c: Cond, env: seq<int>)
    requires Oriented(c) && SameArms(c) && Derive(c).Some? && LongRow(env)
    ensures Meaning(c, env) == TRUE ==> InRanges(Derive(c).value, env)
  {
    if Meaning(c, env) == TRUE {
      DeriveSound(c, env);
    }
  }

  /** For conjunctions derivation is exact: the rows inside all ranges are the rows
      that satisfy the condition. */
  lemma {:induction false} DeriveExact(c: Cond, env: seq<int>)
    requires Oriented(c) && Conjunction(c) && Derive(c).Some? && LongRow(env)
    ensures Meaning(c, env) == TRUE <==> InRanges(Derive(c).value, env)
    ensures !Meaning(c, env).IsError()
    decreases c
  {
    match c
    case Cmp(op, l, r) =>
      CmpExact(op, l.id, r.n, env);
    case And(a, b) =>
      DeriveExact(a, env);
      DeriveExact(b, env);
      MeetRanges(Derive(a).value, Derive(b).value, env);
  }

  lemma MeetRanges(a: seq<Derivation>, b: seq<Derivation>, env: seq<int>)
    requires |a| == |b| == |env|
    ensures InRanges(MeetAll(a, b), env) <==> InRanges(a, env) && InRanges(b, env)
  {
    var m := MeetAll(a, b);
    if InRanges(m, env) {
      forall i | 0 <= i < |a|
        ensures InRange(a[i], env[i]) && InRange(b[i], env[i])
      {
        assert InRange(m[i], env[i]);
      }
    }
  }

  // ---------------------------------------------------------------------------
  // Tightness
  // ---------------------------------------------------------------------------

  /** A row of 32-bit values on which the condition is true. */
  ghost predicate Satisfies(env: seq<int>, c: Cond) {
    LongRow(env) && Meaning(c, env) == TRUE
  }

  /** An OR of any number of conjunctions, each satisfiable, on the same variables. */
  ghost predicate Alternatives(c: Cond) {
    match c
    case Or(a, b) => Alternatives(a) && Alternatives(b) && Vars(a) == Vars(b)
    case _ => Oriented(c) && Conjunction(c) && Derive(c).Some? && exists env :: Satisfies(env, c)
  }

  lemma {:induction false} AlternativesShape(c: Cond)
    requires Alternatives(c)
    ensures Oriented(c) && SameArms(c) && Derive(c).Some?
    decreases c
  {
    match c
    case Or(a, b) =>
      AlternativesShape(a);
      AlternativesShape(b);
    case _ => ConjunctionShape(c);
  }

  lemma {:induction false} ConjunctionShape(c: Cond)
    requires Conjunction(c)
    ensures SameArms(c)
    decreases c
  {
    match c
    case Cmp(_, _, _) =>
    case And(a, b) =>
      ConjunctionShape(a);
      ConjunctionShape(b);
  }

  /** The derived range is tight: each of its ends is the value of the variable in a row
      that satisfies the condition. As derivation is sound, it is the least interval that
      holds the variable's value in every such row. */
  lemma {:induction false} DeriveTight(c: Cond, i: nat) returns (low: seq<int>, high: seq<int>)
    requires Alternatives(c) && Fits(c, MAX_VARIABLES) && i in Vars(c)
    ensures i < MAX_VARIABLES && Derive(c).Some? && Derive(c).value[i].derived
    ensures Satisfies(low, c) && low[i] == Derive(c).value[i].min
    ensures Satisfies(high, c) && high[i] == Derive(c).value[i].max
    decreases c
  {
    hide DeriveCmp, Conjunction, Oriented;
    AlternativesShape(c);
    if c.Or? {
      var x, y := DeriveTight(c.a, i);
      var u, v := DeriveTight(c.b, i);
      NoErrors(c.a, u);
      NoErrors(c.a, v);
      NoErrors(c.b, x);
      NoErrors(c.b, y);
      low := if x[i] <= u[i] then x else u;
      high := if y[i] >= v[i] then y else v;
    } else {
      var env :| Satisfies(env, c);
      low, high := ConjunctionEnds(c, env, i);
    }
  }

  /** A satisfied conjunction is also satisfied with one of its variables at either end of
      its range. */
  lemma ConjunctionEnds(c: Cond, env: seq<int>, i: nat) returns (low: seq<int>, high: seq<int>)
    requires Oriented(c) && Conjunction(c) && Derive(c).Some? && Fits(c, MAX_VARIABLES) && Satisfies(env, c) && i in Vars(c)
    ensures i < MAX_VARIABLES && Derive(c).value[i].derived
    ensures Satisfies(low, c) && low[i] == Derive(c).value[i].min
    ensures Satisfies(high, c) && high[i] == Derive(c).value[i].max
  {
    hide Derive, Meaning;
    DerivedSlots(c);
    DerivedVars(c);
    DeriveExact(c, env);
    RangesAreLong(c);
    var d := Derive(c).value;
    assert InRange(d[i], env[i]);
    low, high := env[i := d[i].min], env[i := d[i].max];
    DeriveExact(c, low);
    DeriveExact(c, high);
  }

  lemma {:induction false} DerivedSlots(c: Cond)
    requires Oriented(c) && Derive(c).Some?
    ensures forall i <- Vars(c) :: i < MAX_VARIABLES
    decreases c
  {
    match c
    case Cmp(_, _, _) =>
    case And(a, b) =>
      DerivedSlots(a);
      DerivedSlots(b);
    case Or(a, b) =>
      DerivedSlots(a);
      DerivedSlots(b);
  }

  /** The ranges of a conjunction lie within 32 bits. */
  lemma {:induction false} RangesAreLong(c: Cond)
    requires Oriented(c) && Conjunction(c) && Derive(c).Some? && Fits(c, MAX_VARIABLES)
    ensures forall i :: 0 <= i < MAX_VARIABLES && Derive(c).value[i].derived ==>
              LONG_MIN <= Derive(c).value[i].min && Derive(c).value[i].max <= LONG_MAX
    decreases c
  {
    match c
    case Cmp(_, _, _) =>
    case And(a, b) =>
      RangesAreLong(a);
      RangesAreLong(b);
  }

  lemma {:induction false} NoErrors(c: Cond, env: seq<int>)
    requires Alternatives(c) && LongRow(env)
    ensures !Meaning(c, env).IsError()
    decreases c
  {
    match c
    case Or(a, b) =>
      NoErrors(a, env);
      NoErrors(b, env);
    case _ => DeriveExact(c, env);
  }

  // ---------------------------------------------------------------------------
  // Where derivation is not sound
  // ---------------------------------------------------------------------------

  ghost predicate SoundFor(c: Cond) {
    Derive(c).Some? ==> forall env :: LongRow(env) && Meaning(c, env) == TRUE ==> InRanges(Derive(c).value, env)
  }

  /** A comparison with the constant on the left is derived as if the sides were
      swapped without turning the operator round. That is sound exactly for
      equality and for bounds that leave nothing, or nothing but the bound, to satisfy. */
  lemma ConstantOnLeftExactly(op: CmpOp, n: int, id: nat)
    requires IsLong(n) && id < MAX_VARIABLES && op != Neq
    ensures SoundFor(Cmp(op, Num(n), Var(id))) <==>
              op == Eq || ((op == Gt || op == Geq) && n == LONG_MIN) || ((op == Lt || op == Leq) && n == LONG_MAX)
  {
    var c := Cmp(op, Num(n), Var(id));
    var d := Derive(c).value;
    forall env | LongRow(env)
      ensures InRanges(d, env) <==> InRange(d[id], env[id])
    {
      assert forall i :: 0 <= i < MAX_VARIABLES && i != id ==> InRange(d[i], env[i]);
    }
    var x := if op == Gt || op == Geq then LONG_MIN else LONG_MAX;
    var row := seq(MAX_VARIABLES, _ => x);
    assert LongRow(row) && row[id] == x;
    assert Meaning(c, row) == Truth(Compare(op, n, x));
    assert op != Eq && Compare(op, n, x) ==> (InRanges(d, row) <==> n == x);
    forall env | LongRow(env) && Meaning(c, env) == TRUE
      ensures op == Eq || ((op == Gt || op == Geq) && n == LONG_MIN) || ((op == Lt || op == Leq) && n == LONG_MAX)
              ==> InRanges(d, env)
    {
      assert IsLong(env[id]);
    }
  }

  predicate Unsatisfiable(op: CmpOp, n: int) { (op == Gt && n == LONG_MAX) || (op == Lt && n == LONG_MIN) }
  predicate Tautology(op: CmpOp, n: int) { (op == Geq && n == LONG_MIN) || (op == Leq && n == LONG_MAX) }

  /** An OR of comparisons on different variables constrains both of them, although
      each arm constrains only one. That is sound exactly when each arm is
      unsatisfiable or the other arm's range leaves nothing out. */
  lemma OrArmsExactly(op1: CmpOp, i: nat, n: int, op2: CmpOp, j: nat, m: int)
    requires IsLong(n) && IsLong(m) && i < MAX_VARIABLES && j < MAX_VARIABLES && i != j && op1 != Neq && op2 != Neq
    ensures SoundFor(Or(Cmp(op1, Var(i), Num(n)), Cmp(op2, Var(j), Num(m)))) <==>
              && (Unsatisfiable(op1, n) || Tautology(op2, m))
              && (Unsatisfiable(op2, m) || Tautology(op1, n))
  {
    var a, b := Cmp(op1, Var(i), Num(n)), Cmp(op2, Var(j), Num(m));
    var c := Or(a, b);
    var d := Derive(c).value;
    forall env | LongRow(env)
      ensures InRanges(d, env) <==> Compare(op1, env[i], n) && Compare(op2, env[j], m)
      ensures Meaning(c, env) == Truth(Compare(op1, env[i], n) || Compare(op2, env[j], m))
    {
      OrRange(op1, i, n, op2, j, m, env);
    }
    var s1, u1 := Satisfying(op1, n), Violating(op1, n);
    var s2, u2 := Satisfying(op2, m), Violating(op2, m);
    assert LongRow(Row(i, s1, j, u2)) && LongRow(Row(i, u1, j, s2));
    var r1, r2 := Row(i, s1, j, u2), Row(i, u1, j, s2);
    assert r1[i] == s1 && r1[j] == u2 && r2[i] == u1 && r2[j] == s2;
  }

  function Row(i: nat, x: int, j: nat, y: int): (r: seq<int>)
    requires i < MAX_VARIABLES && j < MAX_VARIABLES && i != j
    ensures |r| == MAX_VARIABLES && r[i] == x && r[j] == y
    ensures IsLong(x) && IsLong(y) ==> LongRow(r)
  {
    seq(MAX_VARIABLES, _ => 0)[i := x][j := y]
  }

  /** A value that meets the comparison, if there is one. */
  function Satisfying(op: CmpOp, n: int): (x: int)
    requires IsLong(n) && op != Neq
    ensures IsLong(x) && (Compare(op, x, n) <==> !Unsatisfiable(op, n))
  {
    match op
    case Gt => LONG_MAX
    case Lt => LONG_MIN
    case _ => n
  }

  /** A value that does not meet the comparison, if there is one. */
  function Violating(op: CmpOp, n: int): (x: int)
    requires IsLong(n) && op != Neq
    ensures IsLong(x) && (!Compare(op, x, n) <==> !Tautology(op, n))
  {
    match op
    case Gt => LONG_MIN
    case Geq => LONG_MIN
    case Lt => LONG_MAX
    case Leq => LONG_MAX
    case _ => if n == 0 then 1 else 0
  }

  lemma OrRange(op1: CmpOp, i: nat, n: int, op2: CmpOp, j: nat, m: int, env: seq<int>)
    requires i < MAX_VARIABLES && j < MAX_VARIABLES && i != j && op1 != Neq && op2 != Neq && LongRow(env)
    ensures var c := Or(Cmp(op1, Var(i), Num(n)), Cmp(op2, Var(j), Num(m)));
            && Derive(c).Some?
            && (InRanges(Derive(c).value, env) <==> Compare(op1, env[i], n) && Compare(op2, env[j], m))
            && Meaning(c, env) == Truth(Compare(op1, env[i], n) || Compare(op2, env[j], m))
  {
    var a, b := Cmp(op1, Var(i), Num(n)), Cmp(op2, Var(j), Num(m));
    var d := Derive(Or(a, b)).value;
    var x, y := Derive(a).value, Derive(b).value;
    assert forall k :: 0 <= k < MAX_VARIABLES ==> d[k] == Join(x[k], y[k]);
    assert forall k :: 0 <= k < MAX_VARIABLES && k != i && k != j ==> d[k] == BLANK && InRange(d[k], env[k]);
    assert InRanges(d, env) <==> InRange(d[i], env[i]) && InRange(d[j], env[j]);
  }

  /** A comparison of two constants is derived as a range of the variable whose slot is the
      low byte of the right constant. That is sound exactly when there is no such variable,
      the comparison is false, or the range leaves nothing out. */
  lemma TwoConstantsExactly(op: CmpOp, n: int, m: int)
    requires IsLong(n) && IsLong(m) && op != Neq
    ensures SoundFor(Cmp(op, Num(n), Num(m)))
            <==> m % 256 >= MAX_VARIABLES || !Compare(op, n, m) || Tautology(op, n)
  {
    var c, id := Cmp(op, Num(n), Num(m)), m % 256;
    if id < MAX_VARIABLES {
      var d := Derive(c).value;
      assert forall env | LongRow(env) :: Meaning(c, env) == Truth(Compare(op, n, m));
      forall env | LongRow(env)
        ensures InRanges(d, env) <==> Compare(op, env[id], n)
      {
        assert forall i :: 0 <= i < MAX_VARIABLES && i != id ==> InRange(d[i], env[i]);
      }
      var row := seq(MAX_VARIABLES, _ => Violating(op, n));
      assert LongRow(row) && row[id] == Violating(op, n);
      forall env | LongRow(env) && Tautology(op, n) ensures Compare(op, env[id], n) {
        assert IsLong(env[id]);
      }
    }
  }

  /** `5 < x` is derived as x <= 4, which excludes x = 9. */
  lemma ConstantOnLeftFails()
    ensures var c := Cmp(Lt, Num(5), Var(0));
            Meaning(c, [9, 0, 0, 0]) == TRUE && Derive(c).Some? && !InRanges(Derive(c).value, [9, 0, 0, 0])
  {
    var c, env := Cmp(Lt, Num(5), Var(0)), [9, 0, 0, 0];
    assert !InRange(Derive(c).value[0], env[0]);
  }

  /** `x = 1 OR y = 2` is derived as x in [1, 1] and y in [2, 2], which excludes the row
      with x = 1 and y = 0. */
  lemma DifferentArmsFail()
    ensures var c := Or(Cmp(Eq, Var(0), Num(1)), Cmp(Eq, Var(1), Num(2)));
            Meaning(c, [1, 0, 0, 0]) == TRUE && Derive(c).Some? && !InRanges(Derive(c).value, [1, 0, 0, 0])
  {
    var c, env := Or(Cmp(Eq, Var(0), Num(1)), Cmp(Eq, Var(1), Num(2))), [1, 0, 0, 0];
    OrRange(Eq, 0, 1, Eq, 1, 2, env);
  }
}
