/** The instruction table: the closed set of mnemonics, their operand formats, and the semantic
    action each one applies to the register bank (the `call` bodies of the source's table). */
module Instructions {
  import opened Wrappers
  import opened Int32
  import opened JavaString
  import opened Registers

  datatype Mnemonic =
    | Noop | Move | Add | Addu | Sub | Subu | Slt | Sltu | And | Or | Xor
    | Sll | Sllv | Srl | Sra | Srlv | Mfhi | Mflo | Mult | Multu | Div | Divu
    | Addi | Addiu | Slti | Sltiu | Andi | Ori | Xori | Li | La | Lui
    | J | Beq | Bne | Beqz | Bgez | Bgtz | Blez | Bltz | Lw | Lb | Sw | Sb | Jal | Jr

  /** The operand-format tag `getType` returns. */
  datatype Format = RFormat | IFormat | JFormat

  /** The table key of each mnemonic. */
  function Name(m: Mnemonic): string {
    match m
    case Noop => "noop"   case Move => "move"   case Add => "add"     case Addu => "addu"
    case Sub => "sub"     case Subu => "subu"   case Slt => "slt"     case Sltu => "sltu"
    case And => "and"     case Or => "or"       case Xor => "xor"     case Sll => "sll"
    case Sllv => "sllv"   case Srl => "srl"     case Sra => "sra"     case Srlv => "srlv"
    case Mfhi => "mfhi"   case Mflo => "mflo"   case Mult => "mult"   case Multu => "multu"
    case Div => "div"     case Divu => "divu"   case Addi => "addi"   case Addiu => "addiu"
    case Slti => "slti"   case Sltiu => "sltiu" case Andi => "andi"   case Ori => "ori"
    case Xori => "xori"   case Li => "li"       case La => "la"       case Lui => "lui"
    case J => "j"         case Beq => "beq"     case Bne => "bne"     case Beqz => "beqz"
    case Bgez => "bgez"   case Bgtz => "bgtz"   case Blez => "blez"   case Bltz => "bltz"
    case Lw => "lw"       case Lb => "lb"       case Sw => "sw"       case Sb => "sb"
    case Jal => "jal"     case Jr => "jr"
  }

  /** `MIPS_INSTRUCTIONS.get`: the mnemonic whose key is `s`, if there is one (decided on the
      length and then character by character). */
  function Lookup(s: string): Option<Mnemonic> {
    if |s| == 1 then
      if s[0] == 'j' then Some(J)
      else None
    else if |s| == 2 then
      if s[0] == 'o' && s[1] == 'r' then Some(Or)
      else if s[0] == 'l' && s[1] == 'i' then Some(Li)
      else if s[0] == 'l' && s[1] == 'a' then Some(La)
      else if s[0] == 'l' && s[1] == 'w' then Some(Lw)
      else if s[0] == 'l' && s[1] == 'b' then Some(Lb)
      else if s[0] == 's' && s[1] == 'w' then Some(Sw)
      else if s[0] == 's' && s[1] == 'b' then Some(Sb)
      else if s[0] == 'j' && s[1] == 'r' then Some(Jr)
      else None
    else if |s| == 3 then
      if s[0] == 'a' && s[1] == 'd' && s[2] == 'd' then Some(Add)
      else if s[0] == 's' && s[1] == 'u' && s[2] == 'b' then Some(Sub)
      else if s[0] == 's' && s[1] == 'l' && s[2] == 't' then Some(Slt)
      else if s[0] == 'a' && s[1] == 'n' && s[2] == 'd' then Some(And)
      else if s[0] == 'x' && s[1] == 'o' && s[2] == 'r' then Some(Xor)
      else if s[0] == 's' && s[1] == 'l' && s[2] == 'l' then Some(Sll)
      else if s[0] == 's' && s[1] == 'r' && s[2] == 'l' then Some(Srl)
      else if s[0] == 's' && s[1] == 'r' && s[2] == 'a' then Some(Sra)
      else if s[0] == 'd' && s[1] == 'i' && s[2] == 'v' then Some(Div)
      else if s[0] == 'o' && s[1] == 'r' && s[2] == 'i' then Some(Ori)
      else if s[0] == 'l' && s[1] == 'u' && s[2] == 'i' then Some(Lui)
      else if s[0] == 'b' && s[1] == 'e' && s[2] == 'q' then Some(Beq)
      else if s[0] == 'b' && s[1] == 'n' && s[2] == 'e' then Some(Bne)
      else if s[0] == 'j' && s[1] == 'a' && s[2] == 'l' then Some(Jal)
      else None
    else if |s| == 4 then
      if s[0] == 'n' && s[1] == 'o' && s[2] == 'o' && s[3] == 'p' then Some(Noop)
      else if s[0] == 'm' && s[1] == 'o' && s[2] == 'v' && s[3] == 'e' then Some(Move)
      else if s[0] == 'a' && s[1] == 'd' && s[2] == 'd' && s[3] == 'u' then Some(Addu)
      else if s[0] == 's' && s[1] == 'u' && s[2] == 'b' && s[3] == 'u' then Some(Subu)
      else if s[0] == 's' && s[1] == 'l' && s[2] == 't' && s[3] == 'u' then Some(Sltu)
      else if s[0] == 's' && s[1] == 'l' && s[2] == 'l' && s[3] == 'v' then Some(Sllv)
      else if s[0] == 's' && s[1] == 'r' && s[2] == 'l' && s[3] == 'v' then Some(Srlv)
      else if s[0] == 'm' && s[1] == 'f' && s[2] == 'h' && s[3] == 'i' then Some(Mfhi)
      else if s[0] == 'm' && s[1] == 'f' && s[2] == 'l' && s[3] == 'o' then Some(Mflo)
      else if s[0] == 'm' && s[1] == 'u' && s[2] == 'l' && s[3] == 't' then Some(Mult)
      else if s[0] == 'd' && s[1] == 'i' && s[2] == 'v' && s[3] == 'u' then Some(Divu)
      else if s[0] == 'a' && s[1] == 'd' && s[2] == 'd' && s[3] == 'i' then Some(Addi)
      else if s[0] == 's' && s[1] == 'l' && s[2] == 't' && s[3] == 'i' then Some(Slti)
      else if s[0] == 'a' && s[1] == 'n' && s[2] == 'd' && s[3] == 'i' then Some(Andi)
      else if s[0] == 'x' && s[1] == 'o' && s[2] == 'r' && s[3] == 'i' then Some(Xori)
      else if s[0] == 'b' && s[1] == 'e' && s[2] == 'q' && s[3] == 'z' then Some(Beqz)
      else if s[0] == 'b' && s[1] == 'g' && s[2] == 'e' && s[3] == 'z' then Some(Bgez)
      else if s[0] == 'b' && s[1] == 'g' && s[2] == 't' && s[3] == 'z' then Some(Bgtz)
      else if s[0] == 'b' && s[1] == 'l' && s[2] == 'e' && s[3] == 'z' then Some(Blez)
      else if s[0] == 'b' && s[1] == 'l' && s[2] == 't' && s[3] == 'z' then Some(Bltz)
      else None
    else if |s| == 5 then
      if s[0] == 'm' && s[1] == 'u' && s[2] == 'l' && s[3] == 't' && s[4] == 'u' then Some(Multu)
      else if s[0] == 'a' && s[1] == 'd' && s[2] == 'd' && s[3] == 'i' && s[4] == 'u' then Some(Addiu)
      else if s[0] == 's' && s[1] == 'l' && s[2] == 't' && s[3] == 'i' && s[4] == 'u' then Some(Sltiu)
      else None
    else None
  }

  lemma LookupKeyShort(s: string)
    requires |s| <= 3 && Lookup(s).Some?
    ensures Name(Lookup(s).value) == s
  {
  }

  lemma LookupKeyLong(s: string)
    requires |s| > 3 && Lookup(s).Some?
    ensures Name(Lookup(s).value) == s
  {
  }

  /** Whatever the table finds was stored under exactly that key. */
  lemma LookupKey(s: string)
    ensures Lookup(s).Some? ==> Name(Lookup(s).value) == s
  {
    if Lookup(s).Some? {
      if |s| <= 3 { LookupKeyShort(s); } else { LookupKeyLong(s); }
    }
  }

  /** Every mnemonic is found under its own key, so the table and Name agree both ways. */
  lemma LookupName(m: Mnemonic)
    ensures Lookup(Name(m)) == Some(m)
  {
  }

  /** Every key is one to five lower-case ASCII letters. */
  lemma NameLetters(m: Mnemonic)
    ensures 1 <= |Name(m)| <= 5
    ensures forall i | 0 <= i < |Name(m)| :: 'a' <= Name(m)[i] <= 'z'
  {
  }

  function FormatOf(m: Mnemonic): Format {
    match m
    case Sll | Srl | Sra | Addi | Addiu | Slti | Sltiu | Andi | Ori | Xori | Li | La | Lui
       | Beqz | Bgez | Bgtz | Blez | Bltz => IFormat
    case J | Jal => JFormat
    case _ => RFormat
  }

  /** `isLoadInstruction`. */
  predicate IsLoad(inst: string) {
    inst == "lw" || inst == "lb"
  }

  /** `isStoreInstruction`. */
  predicate IsStore(inst: string) {
    inst == "sw" || inst == "sb"
  }

  /** The two predicates pick out exactly the keys of the load and the store entries. */
  lemma LoadStoreKeys(inst: string)
    ensures IsLoad(inst) <==> Lookup(inst) == Some(Lw) || Lookup(inst) == Some(Lb)
    ensures IsStore(inst) <==> Lookup(inst) == Some(Sw) || Lookup(inst) == Some(Sb)
  {
    LookupKey(inst);
    LookupName(Lw);
    LookupName(Lb);
    LookupName(Sw);
    LookupName(Sb);
  }

  /** The operands handed to a semantic action: three register slots that may be null, the
      immediate and the label string. */
  datatype Operands = Operands(rd: Option<nat>, rs: Option<nat>, rt: Option<nat>, immediate: Int32, symbol: string)

  predicate ValidSlot(o: Option<nat>) { o.Some? ==> o.value < 32 }

  /** The resolver only ever names general-purpose registers. */
  predicate ValidOperands(ops: Operands) {
    ValidSlot(ops.rd) && ValidSlot(ops.rs) && ValidSlot(ops.rt)
  }

  datatype ArithOp =
    | Plus | Minus | LessThan | BitAnd | BitOr | BitXor
    | ShiftLeft | ShiftRightLogical | ShiftRightArithmetic

  /** The Java `int` operator each arithmetic action applies. */
  function Arith(op: ArithOp, a: Int32, b: Int32): Int32 {
    match op
    case Plus => Wrap(a + b)
    case Minus => Wrap(a - b)
    case LessThan => if a < b then 1 else 0
    case BitAnd => Bitwise32(AndOp, a, b)
    case BitOr => Bitwise32(OrOp, a, b)
    case BitXor => Bitwise32(XorOp, a, b)
    case ShiftLeft => Shl(a, b)
    case ShiftRightLogical => Ushr(a, b)
    case ShiftRightArithmetic => Sar(a, b)
  }

  /** `rd.setValue(rs.getValue() op rt.getValue())`; a null slot raises NullPointerException. */
  function RegisterOp(regs: seq<Cell>, ops: Operands, op: ArithOp): Result<seq<Cell>>
    requires |regs| == COUNT && ValidOperands(ops)
  {
    if ops.rd.None? || ops.rs.None? || ops.rt.None? then Err(NullPointer)
    else
      var v := Arith(op, regs[ops.rs.value].value, regs[ops.rt.value].value);
      Ok(regs[ops.rd.value := SetValue(v)])
  }

  /** `rd.setValue(rs.getValue() op immediate)`. */
  function ImmediateOp(regs: seq<Cell>, ops: Operands, op: ArithOp): Result<seq<Cell>>
    requires |regs| == COUNT && ValidOperands(ops)
  {
    if ops.rd.None? || ops.rs.None? then Err(NullPointer)
    else
      var v := Arith(op, regs[ops.rs.value].value, ops.immediate);
      Ok(regs[ops.rd.value := SetValue(v)])
  }

  /** `rd.setValue(v)` for a value that does not depend on rs or rt. */
  function WriteOp(regs: seq<Cell>, rd: Option<nat>, v: Int32): Result<seq<Cell>>
    requires |regs| == COUNT && ValidSlot(rd)
  {
    if rd.None? then Err(NullPointer) else Ok(regs[rd.value := SetValue(v)])
  }

  /** `move`: the destination is the FIRST operand slot (rs), the source the second (rt). A
      reference is copied as a symbol, leaving the destination's value alone; otherwise the value
      is copied and the destination's symbol cleared. */
  function MoveOp(regs: seq<Cell>, ops: Operands): Result<seq<Cell>>
    requires |regs| == COUNT && ValidOperands(ops)
  {
    if ops.rt.None? || regs[ops.rt.value].symbol.None? || ops.rs.None? then Err(NullPointer)
    else
      var source := regs[ops.rt.value];
      var d := ops.rs.value;
      if |source.symbol.value| > 0 then Ok(regs[d := regs[d].(symbol := source.symbol)])
      else Ok(regs[d := SetValue(source.value)])
  }

  /** `mult`/`multu`: HI is zeroed and LO gets the product narrowed to 32 bits. */
  function MultOp(regs: seq<Cell>, ops: Operands): Result<seq<Cell>>
    requires |regs| == COUNT && ValidOperands(ops)
  {
    if ops.rs.None? || ops.rt.None? then Err(NullPointer)
    else
      var a, b := regs[ops.rs.value].value, regs[ops.rt.value].value;
      Ok(regs[HI := SetValue(0)][LO := SetValue(Wrap(a * b))])
  }

  /** `div`/`divu`: HI gets the quotient and LO the remainder (the reverse of the MIPS
      convention), both rounded as Java does; a zero divisor raises ArithmeticException. */
  function DivOp(regs: seq<Cell>, ops: Operands): Result<seq<Cell>>
    requires |regs| == COUNT && ValidOperands(ops)
  {
    if ops.rs.None? || ops.rt.None? then Err(NullPointer)
    else
      var a, b := regs[ops.rs.value].value, regs[ops.rt.value].value;
      if b == 0 then Err(Arithmetic)
      else Ok(regs[HI := SetValue(Wrap(TruncDiv(a, b)))][LO := SetValue(TruncRem(a, b))])
  }

  /** The semantic action of each table entry, applied to the register bank. Branches, jumps,
      loads and stores have empty actions: the engine produces their effect itself. */
  function Action(m: Mnemonic, regs: seq<Cell>, ops: Operands): (r: Result<seq<Cell>>)
    requires |regs| == COUNT && ValidOperands(ops)
    ensures r.Ok? ==> |r.value| == COUNT
  {
    match m
    case Noop | J | Beq | Bne | Beqz | Bgez | Bgtz | Blez | Bltz | Lw | Lb | Sw | Sb | Jal | Jr =>
      Ok(regs)
    case Move => MoveOp(regs, ops)
    case Add | Addu => RegisterOp(regs, ops, Plus)
    case Sub | Subu => RegisterOp(regs, ops, Minus)
    case Slt | Sltu => RegisterOp(regs, ops, LessThan)
    case And => RegisterOp(regs, ops, BitAnd)
    case Or => RegisterOp(regs, ops, BitOr)
    case Xor => RegisterOp(regs, ops, BitXor)
    case Sllv => RegisterOp(regs, ops, ShiftLeft)
    case Srlv => RegisterOp(regs, ops, ShiftRightLogical)
    case Sll => ImmediateOp(regs, ops, ShiftLeft)
    case Srl => ImmediateOp(regs, ops, ShiftRightLogical)
    case Sra => ImmediateOp(regs, ops, ShiftRightArithmetic)
    case Addi | Addiu => ImmediateOp(regs, ops, Plus)
    case Slti | Sltiu => ImmediateOp(regs, ops, LessThan)
    case Andi => ImmediateOp(regs, ops, BitAnd)
    case Ori => ImmediateOp(regs, ops, BitOr)
    case Xori => ImmediateOp(regs, ops, BitXor)
    case Mfhi => WriteOp(regs, ops.rd, regs[HI].value)
    case Mflo => WriteOp(regs, ops.rd, regs[LO].value)
    case Mult | Multu => MultOp(regs, ops)
    case Div | Divu => DivOp(regs, ops)
    case Li => WriteOp(regs, ops.rd, ops.immediate)
    case Lui => WriteOp(regs, ops.rd, Shl(ops.immediate, 16))
    case La =>
      if ops.rd.None? then Err(NullPointer)
      else Ok(regs[ops.rd.value := regs[ops.rd.value].(symbol := Some(ops.symbol))])
  }
}
