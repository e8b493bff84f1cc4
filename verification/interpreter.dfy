/** The interpreter object itself: the register array, the program counter, the `terminated`
    flag and the label tables it updates in place, line by line. Each method is proved against
    the functional engine: after it returns, the object's state is the one the engine computes
    from the state before the call. */
module Interpreter {
  import opened Wrappers
  import opened Int32
  import opened JavaString
  import opened Registers
  import opened Instructions
  import opened Engine
  import EngineFacts
  import ActionFacts

  /** A call that produced `r`: on success the new state is `r`'s and no exception escapes; on
      failure the exception is `r`'s (the state the throw leaves behind is not observed: the
      exception ends the program). */
  predicate Follows(r: Result<Machine>, after: Machine, fault: Option<Fault>) {
    match r
    case Ok(st) => fault.None? && after == st
    case Err(f) => fault == Some(f)
  }

  /** Operand resolution that produced `o`: `Ok(None)` for a line that returned early, the
      operands for a line that goes on to call its action. */
  predicate Resolved(o: Result<Outcome>, after: Machine, result: Result<Option<Operands>>) {
    match o
    case Err(f) => result == Err(f)
    case Ok(Return(st)) => result == Ok(None) && after == st
    case Ok(Call(st, ops)) => result == Ok(Some(ops)) && after == st
  }

  /** A semantic action that produced `r` on the register bank. */
  predicate Applied(r: Result<seq<Cell>>, after: seq<Cell>, fault: Option<Fault>) {
    match r
    case Ok(regs) => fault.None? && after == regs
    case Err(f) => fault == Some(f)
  }

  class MipsInterpreter {
    const registers: array<Cell>
    const labels: map<string, Int32>
    var spaceLabels: map<string, seq<Int32>>
    var asciizLabels: map<string, string>
    var intInput: seq<Int32>
    var lineInput: seq<string>
    var pc: Int32
    var terminated: bool

    ghost predicate Valid()
      reads this
    {
      registers.Length == COUNT
    }

    /** The object's state as an engine value. */
    ghost function State(): (st: Machine)
      reads this, registers
      requires Valid()
      ensures st.Valid()
    {
      Machine(registers[..], pc, terminated, spaceLabels, asciizLabels, intInput, lineInput)
    }

    /** 34 fresh registers, and the tables the loader filled in from the program text; the two
        input streams stand for what the scanner will read from standard input. */
    constructor (labels: map<string, Int32>, space: map<string, seq<Int32>>, asciiz: map<string, string>,
                 intInput: seq<Int32>, lineInput: seq<string>)
      ensures Valid()
      ensures fresh(registers)
      ensures this.labels == labels
      ensures State() == Initial(space, asciiz, intInput, lineInput, 0)
    {
      var cells := new Cell[COUNT];
      for i := 0 to COUNT
        invariant forall j | 0 <= j < i :: cells[j] == Fresh
      {
        cells[i] := Fresh;
      }
      assert cells[..] == Initial(space, asciiz, intInput, lineInput, 0).regs;
      registers := cells;
      this.labels := labels;
      spaceLabels, asciizLabels := space, asciiz;
      this.intInput, this.lineInput := intInput, lineInput;
      pc, terminated := 0, false;
    }

    /** `rd.setValue(rs.getValue() op rt.getValue())`. */
    method CallRegisterOp(ops: Operands, op: ArithOp) returns (fault: Option<Fault>)
      requires Valid() && ValidOperands(ops)
      modifies registers
      ensures Applied(RegisterOp(old(registers[..]), ops, op), registers[..], fault)
    {
      if ops.rd.None? || ops.rs.None? || ops.rt.None? {
        return Some(NullPointer);
      }
      registers[ops.rd.value] := SetValue(Arith(op, registers[ops.rs.value].value, registers[ops.rt.value].value));
      return None;
    }

    /** `rd.setValue(rs.getValue() op immediate)`. */
    method CallImmediateOp(ops: Operands, op: ArithOp) returns (fault: Option<Fault>)
      requires Valid() && ValidOperands(ops)
      modifies registers
      ensures Applied(ImmediateOp(old(registers[..]), ops, op), registers[..], fault)
    {
      if ops.rd.None? || ops.rs.None? {
        return Some(NullPointer);
      }
      registers[ops.rd.value] := SetValue(Arith(op, registers[ops.rs.value].value, ops.immediate));
      return None;
    }

    /** `rd.setValue(v)`. */
    method CallWrite(rd: Option<nat>, v: Int32) returns (fault: Option<Fault>)
      requires Valid() && ValidSlot(rd)
      modifies registers
      ensures Applied(WriteOp(old(registers[..]), rd, v), registers[..], fault)
    {
      if rd.None? {
        return Some(NullPointer);
      }
      registers[rd.value] := SetValue(v);
      return None;
    }

    /** `move`: copies rt's reference into rs, or else its value. */
    method CallMove(ops: Operands) returns (fault: Option<Fault>)
      requires Valid() && ValidOperands(ops)
      modifies registers
      ensures Applied(MoveOp(old(registers[..]), ops), registers[..], fault)
    {
      if ops.rt.None? || registers[ops.rt.value].symbol.None? || ops.rs.None? {
        return Some(NullPointer);
      }
      var source := registers[ops.rt.value];
      var d := ops.rs.value;
      if |source.symbol.value| > 0 {
        registers[d] := registers[d].(symbol := source.symbol);
      } else {
        registers[d] := SetValue(source.value);
      }
      return None;
    }

    /** `mult`/`multu`: HI is zeroed first, then LO gets the product. */
    method CallMult(ops: Operands) returns (fault: Option<Fault>)
      requires Valid() && ValidOperands(ops)
      modifies registers
      ensures Applied(MultOp(old(registers[..]), ops), registers[..], fault)
    {
      registers[HI] := SetValue(0);
      if ops.rs.None? || ops.rt.None? {
        return Some(NullPointer);
      }
      registers[LO] := SetValue(Wrap(registers[ops.rs.value].value * registers[ops.rt.value].value));
      return None;
    }

    /** `div`/`divu`: HI gets the quotient, then LO the remainder. */
    method CallDiv(ops: Operands) returns (fault: Option<Fault>)
      requires Valid() && ValidOperands(ops)
      modifies registers
      ensures Applied(DivOp(old(registers[..]), ops), registers[..], fault)
    {
      if ops.rs.None? || ops.rt.None? {
        return Some(NullPointer);
      }
      var a, b := registers[ops.rs.value].value, registers[ops.rt.value].value;
      if b == 0 {
        return Some(Arithmetic);
      }
      registers[HI] := SetValue(Wrap(TruncDiv(a, b)));
      registers[LO] := SetValue(TruncRem(a, b));
      return None;
    }

    /** `mipsInstruction.call(...)`: the table entry's action, on the register array in place. */
    method Call(m: Mnemonic, ops: Operands) returns (fault: Option<Fault>)
      requires Valid() && ValidOperands(ops)
      modifies registers
      ensures Applied(Action(m, old(registers[..]), ops), registers[..], fault)
    {
      match m
      case Noop | J | Beq | Bne | Beqz | Bgez | Bgtz | Blez | Bltz | Lw | Lb | Sw | Sb | Jal | Jr =>
        fault := None;
      case Add | Addu | Sub | Subu | Slt | Sltu | And | Or | Xor | Sllv | Srlv =>
        fault := CallRegisterArith(m, ops);
      case Sll | Srl | Sra | Addi | Addiu | Slti | Sltiu | Andi | Ori | Xori =>
        fault := CallImmediateArith(m, ops);
      case Mfhi | Mflo | Li | Lui | La =>
        fault := CallDestinationOnly(m, ops);
      case Move => fault := CallMove(ops);
      case Mult | Multu => fault := CallMult(ops);
      case Div | Divu => fault := CallDiv(ops);
    }

    /** The actions that write rd from HI, LO, the immediate or the label operand. */
    method CallDestinationOnly(m: Mnemonic, ops: Operands) returns (fault: Option<Fault>)
      requires Valid() && ValidOperands(ops) && m in {Mfhi, Mflo, Li, Lui, La}
      modifies registers
      ensures Applied(Action(m, old(registers[..]), ops), registers[..], fault)
    {
      match m
      case Mfhi => fault := CallWrite(ops.rd, registers[HI].value);
      case Mflo => fault := CallWrite(ops.rd, registers[LO].value);
      case Li => fault := CallWrite(ops.rd, ops.immediate);
      case Lui => fault := CallWrite(ops.rd, Shl(ops.immediate, 16));
      case La =>
        if ops.rd.None? {
          return Some(NullPointer);
        }
        registers[ops.rd.value] := registers[ops.rd.value].(symbol := Some(ops.symbol));
        fault := None;
    }

    /** The actions `rd.setValue(rs.getValue() op rt.getValue())`. */
    method CallRegisterArith(m: Mnemonic, ops: Operands) returns (fault: Option<Fault>)
      requires Valid() && ValidOperands(ops)
      requires m in {Add, Addu, Sub, Subu, Slt, Sltu, And, Or, Xor, Sllv, Srlv}
      modifies registers
      ensures Applied(Action(m, old(registers[..]), ops), registers[..], fault)
    {
      var op := match m
        case Add | Addu => Plus
        case Sub | Subu => Minus
        case Slt | Sltu => LessThan
        case And => BitAnd
        case Or => BitOr
        case Xor => BitXor
        case Sllv => ShiftLeft
        case Srlv => ShiftRightLogical;
      assert Action(m, registers[..], ops) == RegisterOp(registers[..], ops, op);
      fault := CallRegisterOp(ops, op);
    }

    /** The actions `rd.setValue(rs.getValue() op immediate)`. */
    method CallImmediateArith(m: Mnemonic, ops: Operands) returns (fault: Option<Fault>)
      requires Valid() && ValidOperands(ops)
      requires m in {Sll, Srl, Sra, Addi, Addiu, Slti, Sltiu, Andi, Ori, Xori}
      modifies registers
      ensures Applied(Action(m, old(registers[..]), ops), registers[..], fault)
    {
      match m
      case Andi =>
        ActionFacts.AndiAction(registers[..], ops);
        fault := CallImmediateOp(ops, BitAnd);
      case Ori =>
        ActionFacts.OriAction(registers[..], ops);
        fault := CallImmediateOp(ops, BitOr);
      case Xori =>
        ActionFacts.XoriAction(registers[..], ops);
        fault := CallImmediateOp(ops, BitXor);
      case Sll | Srl | Sra | Addi | Addiu | Slti | Sltiu =>
        var op := match m
          case Sll => ShiftLeft
          case Srl => ShiftRightLogical
          case Sra => ShiftRightArithmetic
          case Addi | Addiu => Plus
          case Slti | Sltiu => LessThan;
        assert Action(m, registers[..], ops) == ImmediateOp(registers[..], ops, op);
        fault := CallImmediateOp(ops, op);
    }

    /** The load/store path of a two-operand R-format line: `offset(register)`, then the word
        array named by that register's reference. */
    method AccessMemory(inst: string, s: nat, operand: string) returns (fault: Option<Fault>)
      requires Valid() && s < 32 && (IsLoad(inst) || IsStore(inst))
      modifies this, registers
      ensures Valid()
      ensures Follows(Engine.AccessMemory(old(State()), inst, s, operand), State(), fault)
    {
      var p := IndexOf(operand, '(');
      if p < 0 {
        terminated := true;
        return None;
      }
      var digits := Trim(operand[..p]);
      var offset: Int32 := 0;
      if |digits| != 0 {
        match ParseInt(digits)
        case None => return Some(NumberFormat);
        case Some(v) => offset := v;
      }
      if p + 1 > |operand| - 1 {
        return Some(IndexOutOfBounds);
      }
      var b := RegisterByName(Trim(operand[p + 1..|operand| - 1]));
      if b.Err? {
        return Some(b.fault);
      }
      fault := AccessHeap(inst, s, b.value, offset);
    }

    /** The load or store itself: word `offset / 4` of the array named by register `b`'s
        reference. */
    method AccessHeap(inst: string, s: nat, b: nat, offset: Int32) returns (fault: Option<Fault>)
      requires Valid() && s < 32 && b < 32 && (IsLoad(inst) || IsStore(inst))
      modifies this, registers
      ensures Valid()
      ensures Follows(Engine.AccessHeap(old(State()), inst, s, b, offset), State(), fault)
    {
      var base := registers[b].symbol;
      if base.None? {
        return Some(NullPointer);
      }
      if |base.value| == 0 {
        terminated := true;
        return None;
      }
      if base.value !in spaceLabels {
        return Some(NullPointer);
      }
      var heap := spaceLabels[base.value];
      var k := TruncDiv(offset, 4);
      if IsLoad(inst) {
        if !(0 <= k < |heap|) {
          return Some(IndexOutOfBounds);
        }
        registers[s] := SetValue(heap[k]);
      } else if k >= |heap| {
        spaceLabels := spaceLabels[base.value := heap + [registers[s].value]];
      } else if k < 0 {
        return Some(IndexOutOfBounds);
      } else {
        spaceLabels := spaceLabels[base.value := heap[k := registers[s].value]];
      }
      return None;
    }

    /** The three-operand R-format case: register arithmetic, or `beq`/`bne` on a text label. */
    method ResolveThreeOperands(inst: string, t0: string, t1: string, t2: string)
      returns (result: Result<Option<Operands>>)
      requires Valid()
      modifies this
      ensures Valid()
      ensures Resolved(ResolveR3(old(State()), labels, inst, t0, t1, t2), State(), result)
    {
      var d := RegisterByName(t0);
      if d.Err? {
        return Err(d.fault);
      }
      var t := Parse(t2);
      if t.Err? {
        return Err(t.fault);
      }
      if t.value > 0 {
        var s := RegisterByName(t1);
        if s.Err? {
          return Err(s.fault);
        }
        return Ok(Some(Operands(Some(d.value), Some(s.value), Some(t.value), 0, "")));
      }
      if t2 !in labels {
        return Ok(Some(Operands(Some(d.value), None, None, 0, "")));
      }
      var s := Parse(t1);
      if s.Err? {
        return Err(s.fault);
      }
      if s.value >= 0 {
        var a, b := registers[d.value].value, registers[s.value].value;
        if (inst == "beq" && a == b) || (inst == "bne" && a != b) {
          pc := Target(labels, t2);
        } else if !IsZeroRegister(t2) {
          var immediate := ParseNumber(t2);
          if immediate.Err? {
            return Err(immediate.fault);
          }
          return Ok(None);
        }
        return Ok(Some(Operands(Some(d.value), Some(s.value), None, 0, "")));
      }
      var v := ParseNumber(t1);
      if v.Err? {
        return Err(v.fault);
      }
      var a := registers[d.value].value;
      if (inst == "beq" && a == v.value) || (inst == "bne" && a != v.value) {
        pc := Target(labels, t2);
      }
      return Ok(Some(Operands(Some(d.value), None, None, 0, "")));
    }

    /** The `case 'R'` operand resolution, by the number of tokens. */
    method ResolveRegisterOperands(inst: string, tokens: seq<string>) returns (result: Result<Option<Operands>>)
      requires Valid() && 1 <= |tokens| <= 3
      modifies this, registers
      ensures Valid()
      ensures Resolved(ResolveR(old(State()), labels, inst, tokens), State(), result)
    {
      if |tokens| == 1 {
        if inst == "jr" {
          var i := Parse(tokens[0]);
          if i.Err? {
            return Err(i.fault);
          }
          if i.value == RA {
            pc := registers[RA].value;
          }
          return Ok(None);
        }
        var d := RegisterByName(tokens[0]);
        if d.Err? {
          return Err(d.fault);
        }
        return Ok(Some(Operands(Some(d.value), None, None, 0, "")));
      } else if |tokens| == 2 {
        var s := RegisterByName(tokens[0]);
        if s.Err? {
          return Err(s.fault);
        }
        var t := Parse(tokens[1]);
        if t.Err? {
          return Err(t.fault);
        }
        if t.value >= 0 {
          return Ok(Some(Operands(None, Some(s.value), Some(t.value), 0, "")));
        }
        if IsLoad(inst) || IsStore(inst) {
          var fault := AccessMemory(inst, s.value, tokens[1]);
          if fault.Some? {
            return Err(fault.value);
          }
          return Ok(None);
        }
        return Ok(Some(Operands(None, Some(s.value), None, 0, "")));
      } else {
        result := ResolveThreeOperands(inst, tokens[0], tokens[1], tokens[2]);
      }
    }

    /** The `case 'I'` operand resolution: a branch on a text label, or rd with rs and an
        immediate, or rd with an immediate or a label name. */
    method ResolveImmediateOperands(inst: string, tokens: seq<string>) returns (result: Result<Option<Operands>>)
      requires Valid() && 1 <= |tokens| <= 3
      modifies this
      ensures Valid()
      ensures Resolved(ResolveI(old(State()), labels, inst, tokens), State(), result)
    {
      if |tokens| != 2 && |tokens| != 3 {
        return Ok(Some(Operands(None, None, None, 0, "")));
      }
      var d := RegisterByName(tokens[0]);
      if d.Err? {
        return Err(d.fault);
      }
      if tokens[1] in labels {
        if BranchTaken(inst, registers[d.value].value) {
          pc := Target(labels, tokens[1]);
        }
        return Ok(None);
      }
      var t := Parse(tokens[1]);
      if t.Err? {
        return Err(t.fault);
      }
      if t.value >= 0 && |tokens| == 3 {
        var immediate := ParseNumber(tokens[2]);
        if immediate.Err? {
          return Err(immediate.fault);
        }
        return Ok(Some(Operands(Some(d.value), Some(t.value), None, immediate.value, "")));
      }
      if !IsZeroRegister(tokens[1]) && |tokens| == 2 {
        match ParseInt(tokens[1])
        case Some(immediate) => return Ok(Some(Operands(Some(d.value), None, None, immediate, "")));
        case None => return Ok(Some(Operands(Some(d.value), None, None, 0, tokens[1])));
      }
      return Ok(Some(Operands(Some(d.value), None, None, 0, "")));
    }

    /** The `case 'J'` operand resolution: `jal` writes $ra before the label is looked up. */
    method ResolveJump(inst: string, tokens: seq<string>, lineNumber: Int32) returns (result: Result<Option<Operands>>)
      requires Valid() && 1 <= |tokens| <= 3
      modifies this, registers
      ensures Valid()
      ensures Resolved(ResolveJ(old(State()), labels, inst, tokens, lineNumber), State(), result)
    {
      if |tokens| != 1 {
        return Ok(None);
      }
      if inst == "j" {
        if tokens[0] !in labels {
          return Err(NullPointer);
        }
        pc := Target(labels, tokens[0]);
      } else if inst == "jal" {
        registers[RA] := SetValue(lineNumber);
        if tokens[0] !in labels {
          return Err(NullPointer);
        }
        pc := Target(labels, tokens[0]);
      }
      return Ok(None);
    }

    /** `syscall()`, in the order the source performs its reads and writes. */
    method SystemCall() returns (fault: Option<Fault>)
      requires Valid()
      modifies this, registers
      ensures Valid()
      ensures Follows(Syscall(old(State()), labels), State(), fault)
    {
      var service := registers[V0].value;
      var a0 := registers[A0];
      if service == 1 {
        if a0.symbol.None? {
          return Some(NullPointer);
        }
      } else if service == 4 {
        if a0.symbol.None? {
          return Some(NullPointer);
        }
        var name := a0.symbol.value;
        if |name| > 0 && !(name in labels || name in spaceLabels || name in asciizLabels) {
          return Some(NullPointer);
        }
      } else if service == 5 {
        if |intInput| == 0 {
          return Some(NoSuchElement);
        }
        registers[V0] := SetValue(intInput[0]);
        intInput := intInput[1..];
      } else if service == 8 {
        if |lineInput| == 0 {
          return Some(NoSuchElement);
        }
        var whole := lineInput[0];
        lineInput := lineInput[1..];
        var n := if registers[A1].value < |whole| then registers[A1].value else |whole|;
        if a0.symbol.Some? {
          spaceLabels := spaceLabels - {a0.symbol.value};
        }
        if n < 0 {
          return Some(IndexOutOfBounds);
        }
        if a0.symbol.Some? {
          asciizLabels := asciizLabels[a0.symbol.value := whole[..n]];
        }
      } else if service == 10 {
        terminated := true;
      } else if service == 11 {
        if a0.value < 0 || a0.value > 0x10FFFF {
          return Some(IllegalArgument);
        }
      }
      return None;
    }

    /** `executeMipsInstruction(line, lineNumber)`: tokenize, resolve the operands by the
        mnemonic's format, then call the action unless resolution returned early. */
    method ExecuteMipsInstruction(line: string, lineNumber: Int32) returns (fault: Option<Fault>)
      requires Valid()
      modifies this, registers
      ensures Valid()
      ensures Follows(Step(old(State()), labels, line, lineNumber), State(), fault)
    {
      match Decode(line)
      case Blank =>
        return None;
      case SyscallLine =>
        fault := SystemCall();
      case Malformed =>
        terminated := true;
        return None;
      case Instruction(m, inst, tokens) =>
        var resolved: Result<Option<Operands>>;
        match FormatOf(m) {
          case RFormat => resolved := ResolveRegisterOperands(inst, tokens);
          case IFormat => resolved := ResolveImmediateOperands(inst, tokens);
          case JFormat => resolved := ResolveJump(inst, tokens, lineNumber);
        }
        match resolved {
          case Err(f) => return Some(f);
          case Ok(None) => return None;
          case Ok(Some(ops)) => fault := Call(m, ops);
        }
    }

    /** One iteration of the driver loop: execute the line at pc, then `pc++`. When no exception
        escapes, the rest of the run from the new state is the rest of the run from the old one. */
    method ExecuteAndAdvance(lines: seq<string>, ghost fuel: nat) returns (fault: Option<Fault>)
      requires Valid() && 0 <= pc < |lines| && !terminated && fuel > 0
      modifies this, registers
      ensures Valid()
      ensures fault.None? ==>
        Engine.Run(State(), labels, lines, fuel - 1) == Engine.Run(old(State()), labels, lines, fuel)
      ensures fault.Some? ==>
        Engine.Run(old(State()), labels, lines, fuel) == (Crashed(fault.value), old(State()))
    {
      ghost var before := State();
      assert before.pc == pc;
      fault := ExecuteMipsInstruction(lines[pc], pc);
      ghost var r := Step(before, labels, lines[before.pc], before.pc);
      if fault.Some? {
        assert r == Err(fault.value);
        EngineFacts.RunCrash(before, labels, lines, fuel, fault.value);
        return;
      }
      ghost var after := State();
      assert r == Ok(after);
      EngineFacts.RunAdvance(before, labels, lines, fuel, after);
      ghost var cells := registers[..];
      pc := Wrap(pc as int + 1);
      assert registers[..] == cells;
      assert State() == after.(pc := pc);
    }

    /** The driver loop `for (pc = first; pc < lines.size() && !terminated; pc++)`, run for at
        most `fuel` lines. It ends as the engine's driver does; when no exception escaped, in the
        engine's final state. */
    method Run(lines: seq<string>, first: Int32, fuel: nat) returns (halt: Halt)
      requires Valid()
      modifies this, registers
      ensures Valid()
      ensures var (h, last) := Engine.Run(old(State()).(pc := first), labels, lines, fuel);
        halt == h && (!h.Crashed? ==> State() == last)
    {
      ghost var start := State().(pc := first);
      ghost var cells := registers[..];
      pc := first;
      assert registers[..] == cells;
      assert State() == start;
      var remaining := fuel;
      ghost var goal := Engine.Run(start, labels, lines, fuel);
      while pc < |lines| && !terminated
        invariant Valid()
        invariant Engine.Run(State(), labels, lines, remaining) == goal
        decreases remaining
      {
        EngineFacts.RunStops(State(), labels, lines, remaining);
        if remaining == 0 {
          return OutOfFuel;
        }
        if pc < 0 {
          return Crashed(IndexOutOfBounds);
        }
        var fault := ExecuteAndAdvance(lines, remaining);
        if fault.Some? {
          return Crashed(fault.value);
        }
        remaining := remaining - 1;
      }
      EngineFacts.RunStops(State(), labels, lines, remaining);
      return Finished;
    }
  }
}
