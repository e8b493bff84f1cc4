/** The fetch-decode-execute engine as functions of the machine state: what one line does
    (`executeMipsInstruction` together with `syscall`) and what the driver loop does. */
module Engine {
  import opened Wrappers
  import opened Int32
  import opened JavaString
  import opened Registers
  import opened Instructions

  /** Everything a line can read or change: the register bank, the program counter, the
      `terminated` flag, the word arrays of the `.space` labels, the strings of the `.asciiz`
      labels, and the console input still unread (integers for syscall 5, lines for syscall 8). */
  datatype Machine = Machine(
    regs: seq<Cell>,
    pc: Int32,
    terminated: bool,
    space: map<string, seq<Int32>>,
    asciiz: map<string, string>,
    intInput: seq<Int32>,
    lineInput: seq<string>)
  {
    predicate Valid() { |regs| == COUNT }
  }

  /** The state the driver starts from: 34 fresh registers, nothing terminated, and the data the
      loader extracted from the program. */
  function Initial(space: map<string, seq<Int32>>, asciiz: map<string, string>,
                   intInput: seq<Int32>, lineInput: seq<string>, start: Int32): (st: Machine)
    ensures st.Valid() && !st.terminated && st.pc == start
    ensures forall i | 0 <= i < COUNT :: st.regs[i] == Fresh
  {
    Machine(seq(COUNT, _ => Fresh), start, false, space, asciiz, intInput, lineInput)
  }

  /** What tokenizing makes of a line. */
  datatype Decoded =
    | Blank                                                    // nothing to do
    | SyscallLine                                              // starts with `syscall` or `.syscall`
    | Malformed                                                // the program halts silently
    | Instruction(m: Mnemonic, inst: string, tokens: seq<string>)

  function TrimEach(pieces: seq<string>): (r: seq<string>)
    ensures |r| == |pieces|
    ensures forall i | 0 <= i < |r| :: r[i] == Trim(pieces[i])
  {
    seq(|pieces|, i requires 0 <= i < |pieces| => Trim(pieces[i]))
  }

  /** Tokenizing: trim the line, split the mnemonic off at the first space (or, when there is no
      space, the first tab), split the rest at commas and trim each piece. A line with no
      separator, with fewer than one or more than three operand tokens, or whose lower-cased
      mnemonic is not in the table is malformed. */
  function Decode(line: string): (d: Decoded)
    ensures d.Instruction? ==> 1 <= |d.tokens| <= 3 && d.inst == Name(d.m)
  {
    var s := Trim(line);
    if |s| == 0 then Blank
    else if StartsWith(s, "syscall") || StartsWith(s, ".syscall") then SyscallLine
    else
      var space, tab := IndexOf(s, ' '), IndexOf(s, '\t');
      if space < 0 && tab < 0 then Malformed
      else
        var w := if space < 0 then tab else space;
        var inst := ToLower(Trim(s[..w]));
        var tokens := TrimEach(Split(Trim(s[w + 1..]), ','));
        if |tokens| < 1 || |tokens| > 3 then Malformed
        else match Lookup(inst)
          case None => Malformed
          case Some(m) => LookupKey(inst); Instruction(m, inst, tokens)
  }

  /** `Integer.parseInt` with its exception. */
  function ParseNumber(s: string): Result<Int32> {
    match ParseInt(s)
    case Some(v) => Ok(v)
    case None => Err(NumberFormat)
  }

  /** A branch or jump target: the line before the label's line, so that the driver's increment
      lands on it. */
  function Target(labels: map<string, Int32>, name: string): Int32
    requires name in labels
  {
    Wrap(labels[name] as int - 1)
  }

  /** How operand resolution ends: either the line is finished without calling the semantic
      action (`return` in the source), or the action is to be called with the resolved operands
      on the given state (the single `mipsInstruction.call` at the end). */
  datatype Outcome =
    | Return(st: Machine)
    | Call(st: Machine, ops: Operands)
  {
    predicate Valid() { st.Valid() && (Call? ==> ValidOperands(ops)) }
  }

  /** The load/store of register `s` through the word array named by register `b`'s reference,
      at byte offset `offset`: word `offset / 4`, with Java's truncating division. A store at or
      past the end appends. */
  function AccessHeap(st: Machine, inst: string, s: nat, b: nat, offset: Int32): (r: Result<Machine>)
    requires st.Valid() && s < 32 && b < 32 && (IsLoad(inst) || IsStore(inst))
    ensures r.Ok? ==> r.value.Valid()
  {
    var base := st.regs[b].symbol;
    if base.None? then Err(NullPointer)
    else if |base.value| == 0 then Ok(st.(terminated := true))
    else if base.value !in st.space then Err(NullPointer)
    else
      var heap := st.space[base.value];
      var k := TruncDiv(offset, 4);
      if IsLoad(inst) then
        if 0 <= k < |heap| then Ok(st.(regs := st.regs[s := SetValue(heap[k])]))
        else Err(IndexOutOfBounds)
      else if k >= |heap| then Ok(st.(space := st.space[base.value := heap + [st.regs[s].value]]))
      else if k < 0 then Err(IndexOutOfBounds)
      else Ok(st.(space := st.space[base.value := heap[k := st.regs[s].value]]))
  }

  /** The `offset(register)` operand of a load or store: the offset before the parenthesis (0 when
      empty) and the base register inside it. Without a parenthesis the program halts. */
  function AccessMemory(st: Machine, inst: string, s: nat, operand: string): (r: Result<Machine>)
    requires st.Valid() && s < 32 && (IsLoad(inst) || IsStore(inst))
    ensures r.Ok? ==> r.value.Valid()
  {
    var p := IndexOf(operand, '(');
    if p < 0 then Ok(st.(terminated := true))
    else
      var digits := Trim(operand[..p]);
      var offset :- if |digits| == 0 then Ok(0) else ParseNumber(digits);
      if p + 1 > |operand| - 1 then Err(IndexOutOfBounds)
      else
        var b :- RegisterByName(Trim(operand[p + 1..|operand| - 1]));
        AccessHeap(st, inst, s, b, offset)
  }

  /** A three-operand R-format line: register/register arithmetic when the third token is a
      register other than $0; `beq`/`bne` when it is a text label, comparing with a register or a
      number; otherwise the action is called with only rd resolved. */
  function ResolveR3(st: Machine, labels: map<string, Int32>, inst: string,
                     t0: string, t1: string, t2: string): (r: Result<Outcome>)
    requires st.Valid()
    ensures r.Ok? ==> r.value.Valid()
  {
    var d :- RegisterByName(t0);
    var t :- Parse(t2);
    if t > 0 then
      var s :- RegisterByName(t1);
      Ok(Call(st, Operands(Some(d), Some(s), Some(t), 0, "")))
    else if t2 in labels then
      var s :- Parse(t1);
      if s >= 0 then
        var a, b := st.regs[d].value, st.regs[s].value;
        if (inst == "beq" && a == b) || (inst == "bne" && a != b) then
          Ok(Call(st.(pc := Target(labels, t2)), Operands(Some(d), Some(s), None, 0, "")))
        else if !IsZeroRegister(t2) then
          var _ :- ParseNumber(t2);
          Ok(Return(st))
        else Ok(Call(st, Operands(Some(d), Some(s), None, 0, "")))
      else
        var v :- ParseNumber(t1);
        var a := st.regs[d].value;
        if (inst == "beq" && a == v) || (inst == "bne" && a != v) then
          Ok(Call(st.(pc := Target(labels, t2)), Operands(Some(d), None, None, 0, "")))
        else Ok(Call(st, Operands(Some(d), None, None, 0, "")))
    else Ok(Call(st, Operands(Some(d), None, None, 0, "")))
  }

  /** An R-format line. One token: `jr`, or an action on rd alone. Two tokens: rs and rt, or a
      load/store through an `offset(register)` operand. Three tokens: see ResolveR3. */
  function ResolveR(st: Machine, labels: map<string, Int32>, inst: string, tokens: seq<string>): (r: Result<Outcome>)
    requires st.Valid() && 1 <= |tokens| <= 3
    ensures r.Ok? ==> r.value.Valid()
  {
    if |tokens| == 1 then
      if inst == "jr" then
        var i :- Parse(tokens[0]);
        if i != RA then Ok(Return(st)) else Ok(Return(st.(pc := st.regs[RA].value)))
      else
        var d :- RegisterByName(tokens[0]);
        Ok(Call(st, Operands(Some(d), None, None, 0, "")))
    else if |tokens| == 2 then
      var s :- RegisterByName(tokens[0]);
      var t :- Parse(tokens[1]);
      if t >= 0 then Ok(Call(st, Operands(None, Some(s), Some(t), 0, "")))
      else if IsLoad(inst) || IsStore(inst) then
        var next :- AccessMemory(st, inst, s, tokens[1]);
        Ok(Return(next))
      else Ok(Call(st, Operands(None, Some(s), None, 0, "")))
    else ResolveR3(st, labels, inst, tokens[0], tokens[1], tokens[2])
  }

  /** The comparison an I-format branch makes. The source tests the strings `bgz` and `blz`,
      which are not table keys, so `bgez` and `blez` never branch. */
  predicate BranchTaken(inst: string, v: Int32) {
    || (inst == "beqz" && v == 0)
    || (inst == "bgz" && v > 0)
    || (inst == "bgtz" && v >= 0)
    || (inst == "blz" && v < 0)
    || (inst == "bltz" && v <= 0)
  }

  /** An I-format line: a register-vs-zero branch when the second token is a text label,
      otherwise register/immediate arithmetic, or `li`/`lui`/`la` with an immediate or a label
      name. */
  function ResolveI(st: Machine, labels: map<string, Int32>, inst: string, tokens: seq<string>): (r: Result<Outcome>)
    requires st.Valid() && 1 <= |tokens| <= 3
    ensures r.Ok? ==> r.value.Valid()
  {
    if |tokens| != 2 && |tokens| != 3 then Ok(Call(st, Operands(None, None, None, 0, "")))
    else
      var d :- RegisterByName(tokens[0]);
      if tokens[1] in labels then
        Ok(Return(if BranchTaken(inst, st.regs[d].value) then st.(pc := Target(labels, tokens[1])) else st))
      else
        var t :- Parse(tokens[1]);
        if t >= 0 && |tokens| == 3 then
          var imm :- ParseNumber(tokens[2]);
          Ok(Call(st, Operands(Some(d), Some(t), None, imm, "")))
        else if !IsZeroRegister(tokens[1]) && |tokens| == 2 then
          match ParseInt(tokens[1])
          case Some(imm) => Ok(Call(st, Operands(Some(d), None, None, imm, "")))
          case None => Ok(Call(st, Operands(Some(d), None, None, 0, tokens[1])))
        else Ok(Call(st, Operands(Some(d), None, None, 0, "")))
  }

  /** A J-format line: `j` and `jal` to a text label; `jal` first records the line index in $ra.
      An unknown label is unboxed from a null map entry. */
  function ResolveJ(st: Machine, labels: map<string, Int32>, inst: string, tokens: seq<string>,
                    lineNumber: Int32): (r: Result<Outcome>)
    requires st.Valid() && 1 <= |tokens| <= 3
    ensures r.Ok? ==> r.value.Valid() && r.value.Return?
  {
    if |tokens| != 1 then Ok(Return(st))
    else if inst == "j" then
      if tokens[0] !in labels then Err(NullPointer)
      else Ok(Return(st.(pc := Target(labels, tokens[0]))))
    else if inst == "jal" then
      if tokens[0] !in labels then Err(NullPointer)
      else Ok(Return(st.(regs := st.regs[RA := SetValue(lineNumber)], pc := Target(labels, tokens[0]))))
    else Ok(Return(st))
  }

  /** Operand resolution, by the mnemonic's format. */
  function Resolve(st: Machine, labels: map<string, Int32>, m: Mnemonic, inst: string,
                   tokens: seq<string>, lineNumber: Int32): (r: Result<Outcome>)
    requires st.Valid() && 1 <= |tokens| <= 3
    ensures r.Ok? ==> r.value.Valid()
  {
    match FormatOf(m)
    case RFormat => ResolveR(st, labels, inst, tokens)
    case IFormat => ResolveI(st, labels, inst, tokens)
    case JFormat => ResolveJ(st, labels, inst, tokens, lineNumber)
  }

  /** Whether `getLabel` finds something for a register's reference. */
  predicate Resolves(st: Machine, labels: map<string, Int32>, name: string) {
    name in labels || name in st.space || name in st.asciiz
  }

  /** `syscall`, selected by $v0. Services 1, 4 and 11 only print: their output is not modelled,
      but the exceptions printing raises are. Service 5 reads an integer into $v0; service 8 reads
      a line, keeps at most $a1 characters of it and makes it the string of the label $a0 refers
      to, discarding that label's word array; service 10 terminates. */
  function Syscall(st: Machine, labels: map<string, Int32>): (r: Result<Machine>)
    requires st.Valid()
    ensures r.Ok? ==> r.value.Valid()
  {
    var service := st.regs[V0].value;
    var a0 := st.regs[A0];
    if service == 1 then
      if a0.symbol.None? then Err(NullPointer) else Ok(st)
    else if service == 4 then
      if a0.symbol.None? then Err(NullPointer)
      else if |a0.symbol.value| > 0 && !Resolves(st, labels, a0.symbol.value) then Err(NullPointer)
      else Ok(st)
    else if service == 5 then
      if |st.intInput| == 0 then Err(NoSuchElement)
      else Ok(st.(regs := st.regs[V0 := SetValue(st.intInput[0])], intInput := st.intInput[1..]))
    else if service == 8 then
      if |st.lineInput| == 0 then Err(NoSuchElement)
      else
        var line := st.lineInput[0];
        var n := if st.regs[A1].value < |line| then st.regs[A1].value else |line|;
        if n < 0 then Err(IndexOutOfBounds)
        else if a0.symbol.None? then Ok(st.(lineInput := st.lineInput[1..]))
        else
          var name := a0.symbol.value;
          Ok(st.(space := st.space - {name}, asciiz := st.asciiz[name := line[..n]],
                 lineInput := st.lineInput[1..]))
    else if service == 10 then Ok(st.(terminated := true))
    else if service == 11 then
      if a0.value < 0 || a0.value > 0x10FFFF then Err(IllegalArgument) else Ok(st)
    else Ok(st)
  }

  /** What a decoded line does: operands are resolved and then, unless resolution returned
      early, the semantic action is called once. */
  function Execute(st: Machine, labels: map<string, Int32>, d: Decoded, lineNumber: Int32): (r: Result<Machine>)
    requires st.Valid() && (d.Instruction? ==> 1 <= |d.tokens| <= 3)
    ensures r.Ok? ==> r.value.Valid()
  {
    match d
    case Blank => Ok(st)
    case SyscallLine => Syscall(st, labels)
    case Malformed => Ok(st.(terminated := true))
    case Instruction(m, inst, tokens) =>
      var outcome :- Resolve(st, labels, m, inst, tokens, lineNumber);
      match outcome
      case Return(next) => Ok(next)
      case Call(next, ops) =>
        var regs :- Action(m, next.regs, ops);
        Ok(next.(regs := regs))
  }

  /** `executeMipsInstruction(line, lineNumber)`: the state after the line, or the exception it
      raises. */
  function Step(st: Machine, labels: map<string, Int32>, line: string, lineNumber: Int32): (r: Result<Machine>)
    requires st.Valid()
    ensures r.Ok? ==> r.value.Valid()
  {
    Execute(st, labels, Decode(line), lineNumber)
  }

  /** How the driver loop ended. */
  datatype Halt =
    | Finished           // pc left the program or the program terminated
    | Crashed(f: Fault)  // a line raised an exception
    | OutOfFuel          // the step bound ran out first

  /** A semantics for one line: defined on every well-formed state, and keeping it well formed. */
  ghost predicate LineSemantics(step: (Machine, string, Int32) --> Result<Machine>) {
    forall st: Machine, line: string, n: Int32 | st.Valid() ::
      step.requires(st, line, n) && (step(st, line, n).Ok? ==> step(st, line, n).value.Valid())
  }

  /** The driver loop `for (pc = first; pc < lines; pc++) execute(lines[pc], pc)` stopping once
      `terminated` is set, run for at most `fuel` lines, for any semantics `step` of one line.
      `pc` is a Java `int`: the increment wraps and a negative `pc` makes `lines.get` throw. */
  function Drive(step: (Machine, string, Int32) --> Result<Machine>, st: Machine, lines: seq<string>,
                 fuel: nat): (Halt, Machine)
    requires st.Valid() && LineSemantics(step)
    decreases fuel
  {
    if !(st.pc < |lines| && !st.terminated) then (Finished, st)
    else if fuel == 0 then (OutOfFuel, st)
    else if st.pc < 0 then (Crashed(IndexOutOfBounds), st)
    else match step(st, lines[st.pc], st.pc)
      case Err(f) => (Crashed(f), st)
      case Ok(next) => Drive(step, next.(pc := Wrap(next.pc as int + 1)), lines, fuel - 1)
  }

  /** `executeMipsInstruction` against the given text labels, as a line semantics. */
  function Executor(labels: map<string, Int32>): (step: (Machine, string, Int32) --> Result<Machine>)
    ensures LineSemantics(step)
  {
    (st: Machine, line: string, n: Int32) requires st.Valid() => Step(st, labels, line, n)
  }

  /** The interpreter's driver loop. */
  function Run(st: Machine, labels: map<string, Int32>, lines: seq<string>, fuel: nat): (Halt, Machine)
    requires st.Valid()
  {
    Drive(Executor(labels), st, lines, fuel)
  }
}
