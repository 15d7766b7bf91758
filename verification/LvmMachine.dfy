/**
 The logic engine as the program runs it: one code buffer that is written and
 shifted in place, an end position, an instruction pointer that every read
 advances, and a table of variables.
 */
module LvmMachine {
  import opened Bytes
  import opened Lvm

  const MAX_VARIABLES: nat := 4
  const MAX_NAME_LENGTH: nat := 12

  /** `code` with `bytes` copied to position `at`. */
  function Overwrite(code: seq<byte>, at: nat, bytes: seq<byte>): (r: seq<byte>)
    requires at + |bytes| <= |code|
    ensures |r| == |code|
  {
    code[..at] + bytes + code[at + |bytes|..]
  }

  /** Slot of a name: its own, or the first free one if it is not registered. */
  function IndexOf(names: seq<string>, name: string): (i: nat)
    ensures i <= |names|
    ensures i < |names| ==> names[i] == name
    ensures i == |names| <==> name !in names
  {
    if names == [] then 0
    else if names[0] == name then 0
    else 1 + IndexOf(names[1..], name)
  }

  function Truncated(name: string): string {
    if |name| <= MAX_NAME_LENGTH then name else name[..MAX_NAME_LENGTH]
  }

  /** The name table after registering `name`. */
  function Register(names: seq<string>, name: string): (r: seq<string>)
    requires |names| <= MAX_VARIABLES
    ensures |r| <= MAX_VARIABLES && names <= r
  {
    if name in names || |names| == MAX_VARIABLES then names else names + [Truncated(name)]
  }

  class Machine {
    const code: array<byte>
    var end: nat
    var ip: nat
    var error: bool
    var names: seq<string>
    var values: seq<int>

    ghost predicate Valid()
      reads this
    {
      |names| <= MAX_VARIABLES && |values| == MAX_VARIABLES && end <= code.Length
    }

    /** lvm_reset: cleared code and no variables. */
    constructor Reset(size: nat)
      ensures Valid() && fresh(code) && code.Length == size
      ensures end == 0 && ip == 0 && !error && names == []
    {
      code := new byte[size](_ => 0);
      end, ip, error := 0, 0, false;
      names, values := [], seq(MAX_VARIABLES, _ => 0);
    }

    // -------------------------------------------------------------------------
    // Variables
    // -------------------------------------------------------------------------

    method Lookup(name: string) returns (id: nat)
      requires Valid()
      ensures id == IndexOf(names, name)
    {
      id := 0;
      while id < |names|
        invariant id <= |names|
        invariant IndexOf(names, name) == id + IndexOf(names[id..], name)
      {
        if names[id] == name {
          return;
        }
        id := id + 1;
      }
    }

    method RegisterVariable(name: string) returns (ok: bool)
      requires Valid()
      modifies this`names
      ensures Valid() && names == Register(old(names), name)
      ensures ok <==> (name in old(names) || |old(names)| < MAX_VARIABLES)
    {
      var id := Lookup(name);
      if id == MAX_VARIABLES {
        return false;
      }
      if id == |names| {
        names := names + [Truncated(name)];
      }
      ok := true;
    }

    method SetVariableValue(name: string, value: int) returns (ok: bool)
      requires Valid()
      modifies this`values
      ensures Valid() && ok == (IndexOf(names, name) < MAX_VARIABLES)
      ensures values == if ok then old(values)[IndexOf(names, name) := value] else old(values)
    {
      var id := Lookup(name);
      if id == MAX_VARIABLES {
        return false;
      }
      values := values[id := value];
      ok := true;
    }

    // -------------------------------------------------------------------------
    // Emitting code
    // -------------------------------------------------------------------------

    method Write(bytes: seq<byte>)
      requires Valid() && end + |bytes| <= code.Length
      modifies this`end, code
      ensures Valid() && end == old(end) + |bytes|
      ensures code[..] == Overwrite(old(code[..]), old(end), bytes)
    {
      ghost var was := code[..];
      var i := 0;
      while i < |bytes|
        invariant 0 <= i <= |bytes| && end == old(end)
        invariant code[..] == Overwrite(was, end, bytes[..i])
      {
        code[end + i] := bytes[i];
        assert bytes[..i + 1] == bytes[..i] + [bytes[i]];
        i := i + 1;
      }
      assert bytes[..i] == bytes;
      end := end + |bytes|;
    }

    /** lvm_set_op and lvm_set_relation. */
    method SetNode(nodeType: int, operator: int)
      requires Valid() && end + 8 <= code.Length
      modifies this`end, code
      ensures Valid() && end == old(end) + 8
      ensures code[..] == Overwrite(old(code[..]), old(end), Node(nodeType, operator))
    {
      ghost var was := code[..];
      Write(Word(nodeType));
      Write(Word(operator));
      OverwriteTwice(was, old(end), Word(nodeType), Word(operator));
    }

    method SetOperand(operandType: int, value: int)
      requires Valid() && end + 12 <= code.Length
      modifies this`end, code
      ensures Valid() && end == old(end) + 12
      ensures code[..] == Overwrite(old(code[..]), old(end), OperandNode(operandType, value))
    {
      ghost var was := code[..];
      Write(Word(OPERAND));
      Write(Word(operandType));
      OverwriteTwice(was, old(end), Word(OPERAND), Word(operandType));
      Write(Word(value));
      OverwriteTwice(was, old(end), Word(OPERAND) + Word(operandType), Word(value));
    }

    /** lvm_set_variable: nothing is emitted when the table is full. */
    method SetVariable(name: string)
      requires Valid() && end + 12 <= code.Length
      modifies this`end, code
      ensures Valid()
      ensures var id := IndexOf(names, name);
              if id < MAX_VARIABLES
              then end == old(end) + 12 && code[..] == Overwrite(old(code[..]), old(end), OperandNode(VARIABLE, id))
              else end == old(end) && code[..] == old(code[..])
    {
      var id := Lookup(name);
      if id < MAX_VARIABLES {
        SetOperand(VARIABLE, id);
      }
    }

    /** Leaves room for an operator in front of its first operand. */
    method JumpToOperand() returns (start: nat)
      requires Valid()
      modifies this`end, this`error
      ensures Valid() && start == old(end)
      ensures if old(end) + 8 >= code.Length then end == old(end) && error
              else end == old(end) + 8 && error == old(error)
    {
      start := end;
      end := end + 8;
      if end >= code.Length {
        error := true;
        end := start;
      }
    }

    method SetEnd(e: nat) returns (was: nat)
      requires Valid()
      modifies this`end, this`error
      ensures Valid() && was == old(end)
      ensures if e >= code.Length then end == old(end) && error else end == e && error == old(error)
    {
      if e >= code.Length {
        error := true;
        return end;
      }
      was := end;
      end := e;
    }

    /** Moves the code from `from` on up by the size of an operator node, and puts
        the end where that node goes. */
    method ShiftForOperator(from: nat) returns (next: nat)
      requires Valid() && end + 8 <= code.Length
      modifies this`end, this`error, code
      ensures Valid()
      ensures if from >= old(end)
              then next == 0 && error && end == old(end) && code[..] == old(code[..])
              else
                && next == old(end) + 8 && error == old(error) && end == from
                && code[..] == Overwrite(old(code[..]), from + 8, old(code[..])[from..old(end)])
    {
      if end + 4 > code.Length || from >= end {
        error := true;
        return 0;
      }
      MoveUp(from);
      next := end + 8;
      end := from;
    }

    /** memmove of the code between `from` and the end, by eight bytes. */
    method MoveUp(from: nat)
      requires end + 8 <= code.Length && from <= end
      modifies code
      ensures code[..] == Overwrite(old(code[..]), from + 8, old(code[..])[from..end])
    {
      var i := end;
      while i > from
        invariant from <= i <= end
        invariant forall k :: 0 <= k < code.Length ==>
          code[k] == if i + 8 <= k < end + 8 then old(code[k - 8]) else old(code[k])
      {
        i := i - 1;
        code[i + 8] := code[i];
      }
    }

    // -------------------------------------------------------------------------
    // Running code
    // -------------------------------------------------------------------------

    /** get_type, get_operator and the fields of get_operand. */
    method Fetch() returns (ok: bool, word: int)
      modifies this`ip
      ensures ok <==> old(ip) + 4 <= code.Length
      ensures ok ==> ip == old(ip) + 4 && word == WordAt(code[..], old(ip))
      ensures !ok ==> ip == old(ip)
    {
      if ip + 4 > code.Length {
        return false, 0;
      }
      var bytes := code[ip..ip + 4];
      assert bytes == code[..][ip..ip + 4];
      word := WordAt(bytes, 0);
      ip := ip + 4;
      ok := true;
    }

    /** get_operand followed by operand_to_long. */
    method FetchOperand() returns (status: Status, value: int)
      requires Valid()
      modifies this`ip
      ensures match OperandValue(code[..], old(ip), values)
              case Reached(next, v) => status == TRUE && ip == next && value == v
              case Stop(s) => status == s
    {
      if ip + 8 > code.Length {
        return OVERRUN, 0;
      }
      var _, operandType := Fetch();
      var _, word := Fetch();
      if operandType == LONG {
        value := word;
      } else if operandType == VARIABLE {
        var id := code[ip - 4];
        if id >= MAX_VARIABLES {
          return OVERRUN, 0;
        }
        value := values[id];
      } else {
        value := 0;
      }
      status := TRUE;
    }

    /** The argument that stands at ip. */
    method EvalOne() returns (status: Status, value: int)
      requires Valid()
      modifies this`ip
      ensures match EvalArgument(code[..], old(ip), values)
              case Reached(next, v) => status == TRUE && ip == next && value == v
              case Stop(s) => status == s
      decreases code.Length - ip, 0
    {
      value := 0;
      var ok, nodeType := Fetch();
      if !ok {
        return OVERRUN, 0;
      }
      if nodeType == ARITH_OP {
        var ok2, op := Fetch();
        if !ok2 {
          return OVERRUN, 0;
        }
        status, value := EvalArith(op);
      } else if nodeType == OPERAND {
        status, value := FetchOperand();
      } else {
        status := SEMANTIC_ERROR;
      }
    }

    /** eval_expr. */
    method EvalArith(op: int) returns (status: Status, result: int)
      requires Valid()
      modifies this`ip
      ensures match EvalExpr(code[..], old(ip), op, values)
              case Reached(next, v) => status == TRUE && ip == next && result == v
              case Stop(s) => status == s
      decreases code.Length - ip, 1
    {
      result := 0;
      var r, v0 := EvalOne();
      if r.IsError() {
        return r, 0;
      }
      var r1, v1 := EvalOne();
      if r1.IsError() {
        return r1, 0;
      }
      if op == OP_ADD {
        result := v0 + v1;
      } else if op == OP_SUB {
        result := v0 - v1;
      } else if op == OP_MUL {
        result := v0 * v1;
      } else if op == OP_DIV {
        if v1 == 0 {
          return MATH_ERROR, 0;
        }
        result := Quotient(v0, v1);
      } else {
        return EXECUTION_ERROR, 0;
      }
      status := TRUE;
    }

    /** eval_logic. */
    method EvalCondition(op: int) returns (status: Status)
      requires Valid()
      modifies this`ip
      ensures match EvalLogic(code[..], old(ip), op, values)
              case Reached(next, b) => status == Truth(b) && ip == next
              case Stop(s) => status == s
      decreases code.Length - ip
    {
      if IsConnective(op) {
        var arguments := if op == OP_NOT then 1 else 2;
        var results := [FALSE, FALSE];
        var i := 0;
        while i < arguments
          invariant 0 <= i <= arguments && |results| == 2
          invariant !results[0].IsError() && !results[1].IsError()
          invariant i == 0 ==> ip == old(ip)
          invariant i > 0 ==> EvalBranch(code[..], old(ip), values).Reached?
                              && results[0] == Truth(EvalBranch(code[..], old(ip), values).value)
          invariant i == 1 ==> ip == EvalBranch(code[..], old(ip), values).ip
          invariant i == 2 ==> EvalBranch(code[..], EvalBranch(code[..], old(ip), values).ip, values)
                               == Reached(ip, results[1] == TRUE)
        {
          var ok, nodeType := Fetch();
          if !ok {
            return OVERRUN;
          }
          if nodeType != CMP_OP {
            return SEMANTIC_ERROR;
          }
          var ok2, operator := Fetch();
          if !ok2 {
            return OVERRUN;
          }
          var r := EvalCondition(operator);
          if r.IsError() {
            return r;
          }
          results := results[i := r];
          i := i + 1;
        }
        if op == OP_NOT {
          return Truth(results[0] == FALSE);
        } else if op == OP_AND {
          return Truth(results[0] == TRUE && results[1] == TRUE);
        } else {
          return Truth(results[0] == TRUE || results[1] == TRUE);
        }
      }
      var r, l1 := EvalOne();
      if r.IsError() {
        return r;
      }
      var r1, l2 := EvalOne();
      if r1.IsError() {
        return r1;
      }
      if op == OP_EQ {
        return Truth(l1 == l2);
      } else if op == OP_NEQ {
        return Truth(l1 != l2);
      } else if op == OP_GE {
        return Truth(l1 > l2);
      } else if op == OP_GEQ {
        return Truth(l1 >= l2);
      } else if op == OP_LE {
        return Truth(l1 < l2);
      } else if op == OP_LEQ {
        return Truth(l1 <= l2);
      }
      return EXECUTION_ERROR;
    }

    /** lvm_execute. */
    method Run() returns (status: Status)
      requires Valid()
      modifies this`ip
      ensures status == Execute(code[..], values)
    {
      ip := 0;
      var ok, nodeType := Fetch();
      if !ok {
        return OVERRUN;
      }
      if nodeType != CMP_OP {
        return EXECUTION_ERROR;
      }
      var ok2, operator := Fetch();
      if !ok2 {
        return OVERRUN;
      }
      status := EvalCondition(operator);
    }
  }

  lemma OverwriteTwice(code: seq<byte>, at: nat, a: seq<byte>, b: seq<byte>)
    requires at + |a| + |b| <= |code|
    ensures Overwrite(Overwrite(code, at, a), at + |a|, b) == Overwrite(code, at, a + b)
  {
  }

  /** A name that does not fit a slot of the table is cut when it is registered, and is not
      found under its own name: every use of it takes another slot while there is one. */
  lemma LongName(names: seq<string>, name: string)
    requires |name| > MAX_NAME_LENGTH && |names| < MAX_VARIABLES && forall i :: 0 <= i < |names| ==> |names[i]| <= MAX_NAME_LENGTH
    ensures var r := Register(names, name);
            && r == names + [name[..MAX_NAME_LENGTH]] && name !in r
            && (|r| < MAX_VARIABLES ==> Register(r, name) == r + [name[..MAX_NAME_LENGTH]])
  {
  }
}
