/** What the semantic actions of the instruction table do to the register bank. */
module ActionFacts {
  import opened Wrappers
  import opened Int32
  import opened Registers
  import opened Instructions

  /** `after` is `before` except possibly at the indices in `touched`. */
  predicate OnlyChanged(before: seq<Cell>, after: seq<Cell>, touched: set<nat>) {
    |after| == |before| && forall i | 0 <= i < |before| && i !in touched :: after[i] == before[i]
  }

  /** `move d, s`: a reference in `s` is copied as a reference (the destination keeps its integer);
      otherwise the integer is copied and the destination's reference cleared. No other register
      changes. A source whose label was never assigned raises NullPointerException. */
  lemma MoveSemantics(regs: seq<Cell>, d: nat, s: nat)
    requires |regs| == COUNT && d < 32 && s < 32
    ensures var r := Action(Move, regs, Operands(None, Some(d), Some(s), 0, ""));
      && (r.Err? <==> regs[s].symbol.None?)
      && (r.Err? ==> r.fault == NullPointer)
      && (r.Ok? ==> OnlyChanged(regs, r.value, {d}))
      && (r.Ok? && IsReference(regs[s]) ==> r.value[d] == Cell(regs[d].value, regs[s].symbol))
      && (r.Ok? && !IsReference(regs[s]) ==> r.value[d] == Cell(regs[s].value, Some("")))
  {
  }

  /** `la d, name` followed by `move t, d`: `t` ends up referring to `name`, not holding a copied
      integer, and keeps its own integer. */
  lemma LoadAddressThenMove(regs: seq<Cell>, d: nat, t: nat, name: string)
    requires |regs| == COUNT && d < 32 && t < 32 && |name| > 0
    ensures var r := Action(La, regs, Operands(Some(d), None, None, 0, name));
      && r.Ok?
      && var r' := Action(Move, r.value, Operands(None, Some(t), Some(d), 0, ""));
      && r'.Ok?
      && r'.value[t].symbol == Some(name)
      && r'.value[t].value == (if t == d then regs[d].value else regs[t].value)
      && OnlyChanged(regs, r'.value, {d, t})
  {
    var r := Action(La, regs, Operands(Some(d), None, None, 0, name));
    assert r.value[d].symbol == Some(name);
    MoveSemantics(r.value, t, d);
  }

  /** The register/register actions and the Java operator each applies. */
  predicate IsRegisterArith(m: Mnemonic) {
    m in {Add, Addu, Sub, Subu, Slt, Sltu, And, Or, Xor, Sllv, Srlv}
  }

  /** `add`/`addu` and `sub`/`subu`: only rd changes; it gets the sum or difference reduced to
      32 bits (exactly the mathematical value when that fits) and its reference is cleared. */
  lemma AddSubSemantics(m: Mnemonic, regs: seq<Cell>, d: nat, s: nat, t: nat)
    requires |regs| == COUNT && d < 32 && s < 32 && t < 32 && m in {Add, Addu, Sub, Subu}
    ensures var r := Action(m, regs, Operands(Some(d), Some(s), Some(t), 0, ""));
      var a, b := regs[s].value, regs[t].value;
      var exact := if m in {Add, Addu} then a + b else a - b;
      && r.Ok?
      && OnlyChanged(regs, r.value, {d})
      && r.value[d].symbol == Some("")
      && (r.value[d].value - exact) % MODULUS == 0
      && (InRange(exact) ==> r.value[d].value == exact)
  {
  }

  /** `slt`/`sltu`: rd becomes 1 when rs is less than rt and 0 otherwise (both compare signed). */
  lemma SetLessThanSemantics(m: Mnemonic, regs: seq<Cell>, d: nat, s: nat, t: nat)
    requires |regs| == COUNT && d < 32 && s < 32 && t < 32 && m in {Slt, Sltu}
    ensures var r := Action(m, regs, Operands(Some(d), Some(s), Some(t), 0, ""));
      && r.Ok?
      && OnlyChanged(regs, r.value, {d})
      && r.value[d] == Cell(if regs[s].value < regs[t].value then 1 else 0, Some(""))
  {
  }

  /** `and`, `or`, `xor`: rd's 32-bit pattern is the bitwise combination of the patterns of rs
      and rt. */
  lemma BitwiseSemantics(m: Mnemonic, regs: seq<Cell>, d: nat, s: nat, t: nat)
    requires |regs| == COUNT && d < 32 && s < 32 && t < 32 && m in {And, Or, Xor}
    ensures var r := Action(m, regs, Operands(Some(d), Some(s), Some(t), 0, ""));
      var op := if m == And then AndOp else if m == Or then OrOp else XorOp;
      && r.Ok?
      && OnlyChanged(regs, r.value, {d})
      && r.value[d].symbol == Some("")
      && Unsigned(r.value[d].value) == Bitwise(op, Unsigned(regs[s].value), Unsigned(regs[t].value), 32)
  {
    var op := if m == And then AndOp else if m == Or then OrOp else XorOp;
    BitwiseAction(m, regs, d, s, t);
    Bitwise32Pattern(op, regs[s].value, regs[t].value);
  }

  lemma BitwiseAction(m: Mnemonic, regs: seq<Cell>, d: nat, s: nat, t: nat)
    requires |regs| == COUNT && d < 32 && s < 32 && t < 32 && m in {And, Or, Xor}
    ensures var op := if m == And then AndOp else if m == Or then OrOp else XorOp;
      Action(m, regs, Operands(Some(d), Some(s), Some(t), 0, ""))
        == Ok(regs[d := SetValue(Bitwise32(op, regs[s].value, regs[t].value))])
  {
  }

  /** The 32-bit pattern of a bitwise result is the operator applied to the operands' patterns. */
  lemma Bitwise32Pattern(op: BitOp, a: Int32, b: Int32)
    ensures Unsigned(Bitwise32(op, a, b)) == Bitwise(op, Unsigned(a), Unsigned(b), 32)
  {
    UnsignedWrap(Bitwise(op, Unsigned(a), Unsigned(b), 32));
  }

  /** Reading a 32-bit pattern back as a Java `int` and then as unsigned gives the pattern. */
  lemma UnsignedWrap(x: nat)
    requires x < Pow2(32)
    ensures Unsigned(Wrap(x)) == x
  {
    Pow2Values();
    var w := Wrap(x);
    var u := Unsigned(w);
    assert (u - x) % MODULUS == 0 by {
      SumOfMultiples(u - w, w - x);
    }
    SmallMultiple(u - x);
  }

  lemma SumOfMultiples(x: int, y: int)
    requires x % MODULUS == 0 && y % MODULUS == 0
    ensures (x + y) % MODULUS == 0
  {
  }

  lemma SmallMultiple(x: int)
    requires x % MODULUS == 0 && -MODULUS < x < MODULUS
    ensures x == 0
  {
  }

  /** Any action on a register slot left null by the operand resolver raises
      NullPointerException: the three-register actions need rd, rs and rt. */
  lemma RegisterArithNeedsOperands(m: Mnemonic, regs: seq<Cell>, ops: Operands)
    requires |regs| == COUNT && ValidOperands(ops) && IsRegisterArith(m)
    ensures Action(m, regs, ops).Err? <==> ops.rd.None? || ops.rs.None? || ops.rt.None?
    ensures Action(m, regs, ops).Err? ==> Action(m, regs, ops).fault == NullPointer
  {
  }

  /** `mult`/`multu`: HI becomes 0, LO the product reduced to 32 bits; nothing else changes. */
  lemma MultSemantics(m: Mnemonic, regs: seq<Cell>, s: nat, t: nat)
    requires |regs| == COUNT && s < 32 && t < 32 && m in {Mult, Multu}
    ensures var r := Action(m, regs, Operands(None, Some(s), Some(t), 0, ""));
      var a, b := regs[s].value, regs[t].value;
      && r.Ok?
      && OnlyChanged(regs, r.value, {HI, LO})
      && r.value[HI] == Cell(0, Some(""))
      && r.value[LO].symbol == Some("")
      && (r.value[LO].value - a * b) % MODULUS == 0
  {
  }

  /** `div`/`divu`: a zero divisor raises ArithmeticException. Otherwise HI gets the quotient
      rounded toward zero (reduced to 32 bits, which matters only for MIN / -1) and LO the
      remainder, which together satisfy `a == b * quotient + remainder` with the remainder smaller
      than the divisor and of the dividend's sign; nothing else changes. */
  lemma DivSemantics(m: Mnemonic, regs: seq<Cell>, s: nat, t: nat)
    requires |regs| == COUNT && s < 32 && t < 32 && m in {Div, Divu}
    ensures var r := Action(m, regs, Operands(None, Some(s), Some(t), 0, ""));
      var a, b := regs[s].value, regs[t].value;
      && (r.Err? <==> b == 0)
      && (r.Err? ==> r.fault == Arithmetic)
      && (r.Ok? ==> exists q: int ::
            && a == b * q + r.value[LO].value
            && Abs(r.value[LO].value) < Abs(b)
            && (r.value[LO].value == 0 || (r.value[LO].value < 0 <==> a < 0))
            && (q - r.value[HI].value) % MODULUS == 0
            && (InRange(q) ==> r.value[HI].value == q))
      && (r.Ok? ==> OnlyChanged(regs, r.value, {HI, LO}))
      && (r.Ok? ==> r.value[HI].symbol == Some("") && r.value[LO].symbol == Some(""))
  {
    var a, b := regs[s].value, regs[t].value;
    if b != 0 {
      DivisionIdentity(a, b);
      var r := Action(m, regs, Operands(None, Some(s), Some(t), 0, ""));
      var q := TruncDiv(a, b);
      assert a == b * q + r.value[LO].value;
    }
  }

  /** `mfhi`/`mflo` copy HI or LO into rd as a plain integer and `li` loads the immediate. Only rd
      changes. */
  lemma WriteSemantics(m: Mnemonic, regs: seq<Cell>, d: nat, imm: Int32)
    requires |regs| == COUNT && d < 32 && m in {Mfhi, Mflo, Li}
    ensures var r := Action(m, regs, Operands(Some(d), None, None, imm, ""));
      && r.Ok?
      && OnlyChanged(regs, r.value, {d})
      && r.value[d].symbol == Some("")
      && (m == Mfhi ==> r.value[d].value == regs[HI].value)
      && (m == Mflo ==> r.value[d].value == regs[LO].value)
      && (m == Li ==> r.value[d].value == imm)
  {
    var v := if m == Mfhi then regs[HI].value else if m == Mflo then regs[LO].value else imm;
    assert Action(m, regs, Operands(Some(d), None, None, imm, "")) == Ok(regs[d := SetValue(v)]);
  }

  /** `lui` loads the immediate shifted left by 16 bits, reduced to 32 bits. Only rd changes. */
  lemma LoadUpperSemantics(regs: seq<Cell>, d: nat, imm: Int32)
    requires |regs| == COUNT && d < 32
    ensures var r := Action(Lui, regs, Operands(Some(d), None, None, imm, ""));
      && r.Ok?
      && OnlyChanged(regs, r.value, {d})
      && r.value[d].symbol == Some("")
      && (r.value[d].value - imm * 65536) % MODULUS == 0
  {
    var v := Shl(imm, 16);
    assert Action(Lui, regs, Operands(Some(d), None, None, imm, "")) == Ok(regs[d := SetValue(v)]);
    Pow2Values();
  }

  /** The register/immediate actions: like their register/register forms, with the immediate as
      the second operand and the shifts taking their distance from it (`srl`: see
      LogicalShiftSemantics). */
  lemma ImmediateArithSemantics(m: Mnemonic, regs: seq<Cell>, d: nat, s: nat, imm: Int32)
    requires |regs| == COUNT && d < 32 && s < 32
    requires m in {Addi, Addiu, Slti, Sltiu, Sll, Sra}
    ensures var r := Action(m, regs, Operands(Some(d), Some(s), None, imm, ""));
      var a := regs[s].value;
      && r.Ok?
      && OnlyChanged(regs, r.value, {d})
      && r.value[d].symbol == Some("")
      && (m in {Addi, Addiu} ==> (r.value[d].value - (a + imm)) % MODULUS == 0
                                 && (InRange(a + imm) ==> r.value[d].value == a + imm))
      && (m in {Slti, Sltiu} ==> r.value[d].value == (if a < imm then 1 else 0))
      && (m == Sll ==> (r.value[d].value - a * Pow2(imm % 32)) % MODULUS == 0)
      && (m == Sra ==> r.value[d].value * Pow2(imm % 32) <= a < (r.value[d].value + 1) * Pow2(imm % 32))
  {
    var a := regs[s].value;
    var op := if m in {Addi, Addiu} then Plus else if m in {Slti, Sltiu} then LessThan
      else if m == Sll then ShiftLeft else ShiftRightArithmetic;
    assert Action(m, regs, Operands(Some(d), Some(s), None, imm, "")) == Ok(regs[d := SetValue(Arith(op, a, imm))]);
  }

  /** `srl`: rs's unsigned 32-bit pattern divided by two to the power of the distance taken
      modulo 32, rounding down, so that zeros come in from the left even for a negative rs; a
      distance that is a multiple of 32 leaves the value as it is. Only rd changes. */
  lemma LogicalShiftSemantics(regs: seq<Cell>, d: nat, s: nat, imm: Int32)
    requires |regs| == COUNT && d < 32 && s < 32
    ensures var r := Action(Srl, regs, Operands(Some(d), Some(s), None, imm, ""));
      var a, k := regs[s].value, imm % 32;
      && r.Ok?
      && OnlyChanged(regs, r.value, {d})
      && r.value[d].symbol == Some("")
      && (k == 0 ==> r.value[d].value == a)
      && (k != 0 ==> r.value[d].value * Pow2(k) <= Unsigned(a) < (r.value[d].value + 1) * Pow2(k))
  {
    var a := regs[s].value;
    assert Action(Srl, regs, Operands(Some(d), Some(s), None, imm, "")) == Ok(regs[d := SetValue(Ushr(a, imm))]);
    if imm % 32 != 0 {
      UshrBounds(a, imm);
    }
  }

  /** `andi`, `ori`, `xori`: rd's 32-bit pattern is the bitwise combination of rs's pattern and
      the immediate's. */
  lemma ImmediateBitwiseSemantics(m: Mnemonic, regs: seq<Cell>, d: nat, s: nat, imm: Int32)
    requires |regs| == COUNT && d < 32 && s < 32 && m in {Andi, Ori, Xori}
    ensures var r := Action(m, regs, Operands(Some(d), Some(s), None, imm, ""));
      var op := if m == Andi then AndOp else if m == Ori then OrOp else XorOp;
      && r.Ok?
      && OnlyChanged(regs, r.value, {d})
      && r.value[d].symbol == Some("")
      && Unsigned(r.value[d].value) == Bitwise(op, Unsigned(regs[s].value), Unsigned(imm), 32)
  {
    var op := if m == Andi then AndOp else if m == Ori then OrOp else XorOp;
    var aop := if m == Andi then BitAnd else if m == Ori then BitOr else BitXor;
    var ops := Operands(Some(d), Some(s), None, imm, "");
    ImmediateBitwiseAction(m, regs, ops, aop);
    assert Arith(aop, regs[s].value, imm) == Bitwise32(op, regs[s].value, imm);
    Bitwise32Pattern(op, regs[s].value, imm);
  }

  lemma ImmediateBitwiseAction(m: Mnemonic, regs: seq<Cell>, ops: Operands, aop: ArithOp)
    requires |regs| == COUNT && ValidOperands(ops) && m in {Andi, Ori, Xori}
    requires aop == if m == Andi then BitAnd else if m == Ori then BitOr else BitXor
    ensures Action(m, regs, ops) == ImmediateOp(regs, ops, aop)
  {
    match m
    case Andi => AndiAction(regs, ops);
    case Ori => OriAction(regs, ops);
    case Xori => XoriAction(regs, ops);
  }

  lemma AndiAction(regs: seq<Cell>, ops: Operands)
    requires |regs| == COUNT && ValidOperands(ops)
    ensures Action(Andi, regs, ops) == ImmediateOp(regs, ops, BitAnd)
  {
  }

  lemma OriAction(regs: seq<Cell>, ops: Operands)
    requires |regs| == COUNT && ValidOperands(ops)
    ensures Action(Ori, regs, ops) == ImmediateOp(regs, ops, BitOr)
  {
  }

  lemma XoriAction(regs: seq<Cell>, ops: Operands)
    requires |regs| == COUNT && ValidOperands(ops)
    ensures Action(Xori, regs, ops) == ImmediateOp(regs, ops, BitXor)
  {
  }

  /** `sllv`, `srlv`: the shift distance is rt's value taken modulo 32, as Java masks it; `sllv`
      multiplies by that power of two modulo 2^32, and `srlv` divides rs's unsigned 32-bit pattern
      by it, rounding down (a distance of 0 leaves rs's value as it is). */
  lemma VariableShiftSemantics(m: Mnemonic, regs: seq<Cell>, d: nat, s: nat, t: nat)
    requires |regs| == COUNT && d < 32 && s < 32 && t < 32 && m in {Sllv, Srlv}
    ensures var r := Action(m, regs, Operands(Some(d), Some(s), Some(t), 0, ""));
      var a, k := regs[s].value, regs[t].value % 32;
      && r.Ok?
      && OnlyChanged(regs, r.value, {d})
      && r.value[d].symbol == Some("")
      && (m == Sllv ==> (r.value[d].value - a * Pow2(k)) % MODULUS == 0)
      && (m == Srlv && k == 0 ==> r.value[d].value == a)
      && (m == Srlv && k != 0 ==> r.value[d].value * Pow2(k) <= Unsigned(a) < (r.value[d].value + 1) * Pow2(k))
  {
    if m == Srlv && regs[t].value % 32 != 0 {
      UshrBounds(regs[s].value, regs[t].value);
    }
    var op := if m == Sllv then ShiftLeft else ShiftRightLogical;
    var v := Arith(op, regs[s].value, regs[t].value);
    assert Action(m, regs, Operands(Some(d), Some(s), Some(t), 0, "")) == Ok(regs[d := SetValue(v)]);
  }

  /** The actions of branches, jumps, loads, stores, `jr` and `noop` leave every register as it
      is: the engine produces their effect itself. */
  lemma EmptyActions(m: Mnemonic, regs: seq<Cell>, ops: Operands)
    requires |regs| == COUNT && ValidOperands(ops)
    requires m in {Noop, J, Jal, Jr, Beq, Bne, Beqz, Bgez, Bgtz, Blez, Bltz, Lw, Lb, Sw, Sb}
    ensures Action(m, regs, ops) == Ok(regs)
  {
  }
}
