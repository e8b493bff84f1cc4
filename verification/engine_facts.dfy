/** Properties of one line's execution and of the driver loop. */
module EngineFacts {
  import opened Wrappers
  import opened Int32
  import opened JavaString
  import opened Registers
  import opened Instructions
  import opened Engine
  import opened ActionFacts

  /** A line with no separator after the mnemonic, with too few or too many operands, or with an
      unknown mnemonic sets `terminated` and changes nothing else. */
  lemma MalformedHalts(st: Machine, labels: map<string, Int32>, line: string, n: Int32)
    requires st.Valid() && Decode(line).Malformed?
    ensures var r := Step(st, labels, line, n);
      && r.Ok? && r.value.terminated
      && r.value.regs == st.regs && r.value.pc == st.pc && r.value.space == st.space
      && r.value.asciiz == st.asciiz
      && r.value.intInput == st.intInput && r.value.lineInput == st.lineInput
  {
  }

  /** A non-blank, non-syscall line without a space or tab is malformed. */
  lemma DecodeNoSeparator(line: string)
    ensures var s := Trim(line);
      (|s| > 0 && !StartsWith(s, "syscall") && !StartsWith(s, ".syscall") && ' ' !in s && '\t' !in s)
      ==> Decode(line) == Malformed
  {
  }

  /** A non-blank, non-syscall line whose mnemonic is not a table key in any letter case, or whose
      operand list has no comma-separated token (only commas) or more than three, is malformed. */
  lemma DecodeUnknown(line: string)
    ensures var s := Trim(line);
      var w := if ' ' in s then IndexOf(s, ' ') else IndexOf(s, '\t');
      (|s| > 0 && !StartsWith(s, "syscall") && !StartsWith(s, ".syscall") && 0 <= w
       && (|| Lookup(ToLower(Trim(s[..w]))).None?
           || |Split(Trim(s[w + 1..]), ',')| < 1
           || |Split(Trim(s[w + 1..]), ',')| > 3))
      ==> Decode(line) == Malformed
  {
  }

  /** Tokenizing inverts writing a line out: a mnemonic's key, a space and the operand tokens
      joined by commas decode to that instruction with exactly those tokens, provided there are
      one to three of them and each is non-empty, has no comma and no white space at either end. */
  lemma DecodeLine(m: Mnemonic, tokens: seq<string>)
    requires 1 <= |tokens| <= 3
    requires forall i | 0 <= i < |tokens| :: |tokens[i]| > 0 && ',' !in tokens[i] && Trim(tokens[i]) == tokens[i]
    ensures Decode(Name(m) + " " + Join(tokens, ',')) == Instruction(m, Name(m), tokens)
  {
    KeyLetters(m);
    LookupName(m);
    DecodeWord(Name(m), m, tokens);
  }

  /** DecodeLine for any short lower-case key the table maps to `m`. */
  lemma DecodeWord(name: string, m: Mnemonic, tokens: seq<string>)
    requires 1 <= |name| <= 5 && 'a' <= name[0] <= 'z' && ' ' !in name
    requires Trim(name) == name && ToLower(name) == name && Lookup(name) == Some(m)
    requires 1 <= |tokens| <= 3
    requires forall i | 0 <= i < |tokens| :: |tokens[i]| > 0 && ',' !in tokens[i] && Trim(tokens[i]) == tokens[i]
    ensures Decode(name + " " + Join(tokens, ',')) == Instruction(m, name, tokens)
  {
    OperandList(tokens);
    KeyThenOperands(name, Join(tokens, ','));
  }

  /** The operand list of DecodeLine is its own trim and splits back into the tokens. */
  lemma OperandList(tokens: seq<string>)
    requires 1 <= |tokens|
    requires forall i | 0 <= i < |tokens| :: |tokens[i]| > 0 && ',' !in tokens[i] && Trim(tokens[i]) == tokens[i]
    ensures var rest := Join(tokens, ',');
      && |rest| > 0 && !IsWhite(rest[|rest| - 1])
      && TrimEach(Split(Trim(rest), ',')) == tokens
  {
    JoinTrimmed(tokens, ',');
    SplitJoin(tokens, ',');
    assert TrimEach(tokens) == tokens;
  }

  /** A line made of a short lower-case word, a space and a rest that does not end in white space
      is its own trim, is not a syscall line, and splits at that space. */
  lemma KeyThenOperands(name: string, rest: string)
    requires 1 <= |name| <= 5 && 'a' <= name[0] <= 'z' && ' ' !in name
    requires Trim(name) == name && ToLower(name) == name
    requires |rest| > 0 && !IsWhite(rest[|rest| - 1])
    ensures var line := name + " " + rest;
      && Trim(line) == line
      && |line| > 0 && !StartsWith(line, "syscall") && !StartsWith(line, ".syscall")
      && IndexOf(line, ' ') == |name|
      && ToLower(Trim(line[..|name|])) == name
      && line[|name| + 1..] == rest
  {
    var line := name + [' '] + rest;
    assert name + " " + rest == line;
    assert line[0] == name[0];
    TrimUnchanged(line);
    assert |line| >= 7 ==> line[..7][|name|] == ' ';
    assert ' ' !in "syscall";
    IndexOfAfter(name, ' ', rest);
    assert line[..|name|] == name;
  }

  /** A mnemonic's key is short, starts with a letter, has no space and is unchanged by trimming
      and lower-casing. */
  lemma KeyLetters(m: Mnemonic)
    ensures var name := Name(m);
      && 1 <= |name| <= 5 && 'a' <= name[0] <= 'z' && ' ' !in name
      && Trim(name) == name && ToLower(name) == name
  {
    var name := Name(m);
    NameLetters(m);
    TrimUnchanged(name);
    assert ToLower(name) == name;
  }

  /** The comparison of each register-vs-zero branch, by mnemonic: `beqz` jumps on zero, `bgtz` on
      zero or more, `bltz` on zero or less, and `bgez` and `blez` never jump, because the engine
      compares against the strings "bgz" and "blz", which are not mnemonics. */
  lemma BranchConditions(m: Mnemonic, v: Int32)
    ensures BranchTaken(Name(m), v) <==>
      (m == Beqz && v == 0) || (m == Bgtz && v >= 0) || (m == Bltz && v <= 0)
  {
  }

  /** A line whose operand resolution returns early has exactly the resolved effect. */
  lemma ExecuteReturn(st: Machine, labels: map<string, Int32>, n: Int32,
                      m: Mnemonic, tokens: seq<string>, next: Machine)
    requires st.Valid() && 1 <= |tokens| <= 3
    requires Resolve(st, labels, m, Name(m), tokens, n) == Ok(Return(next))
    ensures Execute(st, labels, Instruction(m, Name(m), tokens), n) == Ok(next)
  {
  }

  /** A line whose operand resolution raises an exception raises it. */
  lemma ExecuteFault(st: Machine, labels: map<string, Int32>, n: Int32,
                     m: Mnemonic, tokens: seq<string>, f: Fault)
    requires st.Valid() && 1 <= |tokens| <= 3
    requires Resolve(st, labels, m, Name(m), tokens, n) == Err(f)
    ensures Execute(st, labels, Instruction(m, Name(m), tokens), n) == Err(f)
  {
  }

  /** A line whose operands resolve calls its semantic action on the resolved state. */
  lemma ExecuteCall(st: Machine, labels: map<string, Int32>, n: Int32,
                    m: Mnemonic, tokens: seq<string>, next: Machine, ops: Operands)
    requires st.Valid() && 1 <= |tokens| <= 3
    requires Resolve(st, labels, m, Name(m), tokens, n) == Ok(Call(next, ops))
    ensures next.Valid() && ValidOperands(ops)
    ensures var r := Action(m, next.regs, ops);
      Execute(st, labels, Instruction(m, Name(m), tokens), n)
        == if r.Ok? then Ok(next.(regs := r.value)) else Err(r.fault)
  {
  }

  /** A register-vs-zero branch on a text label (any I-format line whose second token is a known
      label): the semantic action is never invoked, no register changes, and pc becomes the line
      before the label exactly when the mnemonic's comparison holds. */
  lemma BranchOnLabel(st: Machine, labels: map<string, Int32>, n: Int32,
                      m: Mnemonic, tokens: seq<string>, d: nat)
    requires st.Valid() && FormatOf(m) == IFormat && 2 <= |tokens| <= 3
    requires RegisterByName(tokens[0]) == Ok(d) && tokens[1] in labels
    ensures var v := st.regs[d].value;
      var taken := (m == Beqz && v == 0) || (m == Bgtz && v >= 0) || (m == Bltz && v <= 0);
      Execute(st, labels, Instruction(m, Name(m), tokens), n)
        == Ok(if taken then st.(pc := Wrap(labels[tokens[1]] as int - 1)) else st)
  {
    BranchConditions(m, st.regs[d].value);
    var next := if BranchTaken(Name(m), st.regs[d].value) then st.(pc := Target(labels, tokens[1])) else st;
    assert ResolveI(st, labels, Name(m), tokens) == Ok(Return(next));
    ExecuteReturn(st, labels, n, m, tokens, next);
  }

  /** `beq`/`bne` between two registers on a text label: when the comparison holds, pc becomes the
      line before the label and no register changes; when it does not, the engine parses the label
      name as an integer, which for a name that is not a number raises NumberFormatException. */
  lemma BranchRegisters(st: Machine, labels: map<string, Int32>, n: Int32,
                        m: Mnemonic, tokens: seq<string>, d: nat, s: nat)
    requires st.Valid() && m in {Beq, Bne}
    requires |tokens| == 3 && RegisterByName(tokens[0]) == Ok(d) && RegisterByName(tokens[1]) == Ok(s)
    requires tokens[2] in labels && Parse(tokens[2]) == Ok(-1)
    ensures var equal := st.regs[d].value == st.regs[s].value;
      var r := Execute(st, labels, Instruction(m, Name(m), tokens), n);
      && ((m == Beq) == equal ==> r == Ok(st.(pc := Wrap(labels[tokens[2]] as int - 1))))
      && ((m == Beq) != equal && ParseInt(tokens[2]).None? ==> r == Err(NumberFormat))
  {
    var equal := st.regs[d].value == st.regs[s].value;
    var o := ResolveR3(st, labels, Name(m), tokens[0], tokens[1], tokens[2]);
    assert Resolve(st, labels, m, Name(m), tokens, n) == o;
    if (m == Beq) == equal {
      var next := st.(pc := Target(labels, tokens[2]));
      var ops := Operands(Some(d), Some(s), None, 0, "");
      assert o == Ok(Call(next, ops));
      ExecuteCall(st, labels, n, m, tokens, next, ops);
    } else if ParseInt(tokens[2]).None? {
      assert !IsZeroRegister(tokens[2]);
      assert o == Err(NumberFormat);
      ExecuteFault(st, labels, n, m, tokens, NumberFormat);
    }
  }

  /** `beq`/`bne` between a register and a number on a text label (`beq $t0, 5, end`): pc becomes
      the line before the label exactly when the comparison holds, and no register changes. A
      second token that is neither a register nor a number raises NumberFormatException. */
  lemma BranchImmediate(st: Machine, labels: map<string, Int32>, n: Int32,
                        m: Mnemonic, tokens: seq<string>, d: nat)
    requires st.Valid() && m in {Beq, Bne}
    requires |tokens| == 3 && RegisterByName(tokens[0]) == Ok(d) && Parse(tokens[1]) == Ok(-1)
    requires tokens[2] in labels && Parse(tokens[2]).Ok? && Parse(tokens[2]).value <= 0
    ensures var r := Execute(st, labels, Instruction(m, Name(m), tokens), n);
      && (ParseInt(tokens[1]).None? ==> r == Err(NumberFormat))
      && (ParseInt(tokens[1]).Some? ==>
            var taken := (m == Beq) == (st.regs[d].value == ParseInt(tokens[1]).value);
            r == Ok(if taken then st.(pc := Wrap(labels[tokens[2]] as int - 1)) else st))
  {
    var o := ResolveR3(st, labels, Name(m), tokens[0], tokens[1], tokens[2]);
    assert Resolve(st, labels, m, Name(m), tokens, n) == o;
    if ParseInt(tokens[1]).None? {
      assert o == Err(NumberFormat);
      ExecuteFault(st, labels, n, m, tokens, NumberFormat);
    } else {
      var v := ParseInt(tokens[1]).value;
      var taken := (m == Beq) == (st.regs[d].value == v);
      var next := if taken then st.(pc := Target(labels, tokens[2])) else st;
      var ops := Operands(Some(d), None, None, 0, "");
      assert o == Ok(Call(next, ops));
      EmptyActions(m, next.regs, ops);
      ExecuteCall(st, labels, n, m, tokens, next, ops);
    }
  }

  /** A three-token register/register line whose third token is `$0`, a non-register or any
      other index not above 0, and not a text label, reaches the action with rs and rt null: it
      raises NullPointerException. */
  lemma ThirdOperandNotRegister(st: Machine, labels: map<string, Int32>, n: Int32,
                                m: Mnemonic, tokens: seq<string>, d: nat)
    requires st.Valid() && IsRegisterArith(m) && |tokens| == 3
    requires RegisterByName(tokens[0]) == Ok(d) && Parse(tokens[2]).Ok? && Parse(tokens[2]).value <= 0
    requires tokens[2] !in labels
    ensures Execute(st, labels, Instruction(m, Name(m), tokens), n) == Err(NullPointer)
  {
    var ops := Operands(Some(d), None, None, 0, "");
    assert ResolveR3(st, labels, Name(m), tokens[0], tokens[1], tokens[2]) == Ok(Call(st, ops));
    assert Resolve(st, labels, m, Name(m), tokens, n) == Ok(Call(st, ops));
    RegisterArithNeedsOperands(m, st.regs, ops);
    ExecuteCall(st, labels, n, m, tokens, st, ops);
  }

  /** A two-token load or store whose second token is not a register goes through the
      `offset(register)` path, and the line's effect is exactly that access's. */
  lemma MemoryLine(st: Machine, labels: map<string, Int32>, n: Int32, m: Mnemonic, tokens: seq<string>, s: nat)
    requires st.Valid() && m in {Lw, Lb, Sw, Sb} && |tokens| == 2
    requires RegisterByName(tokens[0]) == Ok(s) && Parse(tokens[1]) == Ok(-1)
    ensures Execute(st, labels, Instruction(m, Name(m), tokens), n) == AccessMemory(st, Name(m), s, tokens[1])
  {
    var r := AccessMemory(st, Name(m), s, tokens[1]);
    if r.Ok? {
      assert ResolveR(st, labels, Name(m), tokens) == Ok(Return(r.value));
      ExecuteReturn(st, labels, n, m, tokens, r.value);
    } else {
      assert ResolveR(st, labels, Name(m), tokens) == Err(r.fault);
      ExecuteFault(st, labels, n, m, tokens, r.fault);
    }
  }

  /** `li rd, k` and `lui rd, k` with a number `k` that is not a text label: rd gets `k` (`li`) or
      `k` shifted left by 16 bits (`lui`) as a plain integer, and nothing else changes. */
  lemma LoadImmediateLine(st: Machine, labels: map<string, Int32>, n: Int32,
                          m: Mnemonic, tokens: seq<string>, d: nat, k: Int32)
    requires st.Valid() && m in {Li, Lui} && |tokens| == 2
    requires RegisterByName(tokens[0]) == Ok(d) && tokens[1] !in labels && ParseInt(tokens[1]) == Some(k)
    ensures Execute(st, labels, Instruction(m, Name(m), tokens), n)
      == Ok(st.(regs := st.regs[d := Cell(if m == Li then k else Shl(k, 16), Some(""))]))
  {
    assert tokens[1][0] != '$';
    var ops := Operands(Some(d), None, None, k, "");
    assert ResolveI(st, labels, Name(m), tokens) == Ok(Call(st, ops));
    assert Action(m, st.regs, ops) == Ok(st.regs[d := SetValue(if m == Li then k else Shl(k, 16))]);
    ExecuteCall(st, labels, n, m, tokens, st, ops);
  }

  /** `la rd, name` with a name that is neither a text label nor a number: rd keeps its value and
      now refers to the label `name`. Only `$0`, taken for the zero register, leaves rd referring
      to the empty label. Nothing else changes. */
  lemma LoadAddressLine(st: Machine, labels: map<string, Int32>, n: Int32, tokens: seq<string>, d: nat)
    requires st.Valid() && |tokens| == 2
    requires RegisterByName(tokens[0]) == Ok(d) && tokens[1] !in labels
    requires Parse(tokens[1]).Ok? && ParseInt(tokens[1]).None?
    ensures var name := if tokens[1] == "$0" then "" else tokens[1];
      Execute(st, labels, Instruction(La, "la", tokens), n)
        == Ok(st.(regs := st.regs[d := st.regs[d].(symbol := Some(name))]))
  {
    var name := if tokens[1] == "$0" then "" else tokens[1];
    var ops := Operands(Some(d), None, None, 0, name);
    assert ResolveI(st, labels, "la", tokens) == Ok(Call(st, ops));
    ExecuteCall(st, labels, n, La, tokens, st, ops);
  }

  /** `addi`/`addiu rd, rs, k` with a register rs that is not a text label: rd gets the sum of rs
      and the immediate `k`, wrapped to 32 bits, as a plain integer, and nothing else changes. An
      immediate that is not a number raises NumberFormatException. */
  lemma AddImmediateLine(st: Machine, labels: map<string, Int32>, n: Int32,
                         m: Mnemonic, tokens: seq<string>, d: nat, s: nat)
    requires st.Valid() && m in {Addi, Addiu} && |tokens| == 3
    requires RegisterByName(tokens[0]) == Ok(d) && RegisterByName(tokens[1]) == Ok(s) && tokens[1] !in labels
    ensures var r := Execute(st, labels, Instruction(m, Name(m), tokens), n);
      && (ParseInt(tokens[2]).None? ==> r == Err(NumberFormat))
      && (ParseInt(tokens[2]).Some? ==>
            r == Ok(st.(regs := st.regs[d := Cell(Wrap(st.regs[s].value + ParseInt(tokens[2]).value), Some(""))])))
  {
    var o := ResolveI(st, labels, Name(m), tokens);
    assert Resolve(st, labels, m, Name(m), tokens, n) == o;
    if ParseInt(tokens[2]).None? {
      assert o == Err(NumberFormat);
      ExecuteFault(st, labels, n, m, tokens, NumberFormat);
    } else {
      var k := ParseInt(tokens[2]).value;
      var ops := Operands(Some(d), Some(s), None, k, "");
      assert o == Ok(Call(st, ops));
      assert Action(m, st.regs, ops) == Ok(st.regs[d := SetValue(Wrap(st.regs[s].value + k))]);
      ExecuteCall(st, labels, n, m, tokens, st, ops);
    }
  }

  /** `j name` and `jal name`: pc becomes the line before the label; `jal` also stores the current
      line index in $ra as a plain integer. No other register changes. An unknown label raises
      NullPointerException. */
  lemma JumpSemantics(st: Machine, labels: map<string, Int32>, n: Int32, m: Mnemonic, name: string)
    requires st.Valid() && m in {J, Jal}
    ensures var r := Execute(st, labels, Instruction(m, Name(m), [name]), n);
      && (name !in labels ==> r == Err(NullPointer))
      && (name in labels && m == J ==> r == Ok(st.(pc := Wrap(labels[name] as int - 1))))
      && (name in labels && m == Jal ==>
            r == Ok(st.(regs := st.regs[RA := Cell(n, Some(""))], pc := Wrap(labels[name] as int - 1))))
  {
    var o := ResolveJ(st, labels, Name(m), [name], n);
    assert Resolve(st, labels, m, Name(m), [name], n) == o;
    if o.Ok? {
      ExecuteReturn(st, labels, n, m, [name], o.value.st);
    } else {
      ExecuteFault(st, labels, n, m, [name], o.fault);
    }
  }

  /** `jr` honours only $ra: `jr $ra` (or `jr $31`) sets pc to $ra's value, so that the driver's
      increment resumes after the `jal`; `jr` on any other register does nothing. */
  lemma JumpRegister(st: Machine, labels: map<string, Int32>, n: Int32, name: string, i: int)
    requires st.Valid() && Parse(name) == Ok(i)
    ensures Execute(st, labels, Instruction(Jr, "jr", [name]), n)
      == Ok(if i == RA then st.(pc := st.regs[RA].value) else st)
  {
    var next := if i == RA then st.(pc := st.regs[RA].value) else st;
    assert ResolveR(st, labels, "jr", [name]) == Ok(Return(next));
    ExecuteReturn(st, labels, n, Jr, [name], next);
  }

  /** A store through a base register that refers to the word array `name`, at word index
      `offset / 4`: a negative index raises IndexOutOfBoundsException; an index inside the array
      overwrites that element; any index at or past the end appends exactly one element. Nothing
      else changes. */
  lemma StoreSemantics(st: Machine, inst: string, s: nat, b: nat, offset: Int32)
    requires st.Valid() && s < 32 && b < 32 && IsStore(inst)
    requires st.regs[b].symbol.Some? && |st.regs[b].symbol.value| > 0 && st.regs[b].symbol.value in st.space
    ensures var name := st.regs[b].symbol.value;
      var heap := st.space[name];
      var k := TruncDiv(offset, 4);
      var r := AccessHeap(st, inst, s, b, offset);
      && (r.Err? <==> k < 0)
      && (r.Err? ==> r.fault == IndexOutOfBounds)
      && (r.Ok? ==> var heap' := r.value.space[name];
            var at := if k < |heap| then k else |heap|;
            && r.value == st.(space := st.space[name := heap'])
            && |heap'| == (if k < |heap| then |heap| else |heap| + 1)
            && heap'[at] == st.regs[s].value
            && (forall i | 0 <= i < |heap| && i != at :: heap'[i] == heap[i]))
  {
    IsLoadOrStore(inst);
  }

  /** The load and store mnemonics are disjoint. */
  lemma IsLoadOrStore(inst: string)
    ensures !(IsLoad(inst) && IsStore(inst))
  {
  }

  /** A load through a base register that refers to the word array `name` copies element
      `offset / 4` into the destination as a plain integer when the index is inside the array and
      raises IndexOutOfBoundsException otherwise, including past the end. Nothing else changes. */
  lemma LoadSemantics(st: Machine, inst: string, s: nat, b: nat, offset: Int32)
    requires st.Valid() && s < 32 && b < 32 && IsLoad(inst)
    requires st.regs[b].symbol.Some? && |st.regs[b].symbol.value| > 0 && st.regs[b].symbol.value in st.space
    ensures var heap := st.space[st.regs[b].symbol.value];
      var k := TruncDiv(offset, 4);
      var r := AccessHeap(st, inst, s, b, offset);
      && (r.Err? <==> !(0 <= k < |heap|))
      && (r.Err? ==> r.fault == IndexOutOfBounds)
      && (r.Ok? ==> r.value == st.(regs := st.regs[s := Cell(heap[k], Some(""))]))
  {
  }

  /** A base register whose reference is the empty string (set by any integer write) makes a load
      or store terminate the program; one never written raises NullPointerException, and so does
      one that names no word array. */
  lemma BaseWithoutArray(st: Machine, inst: string, s: nat, b: nat, offset: Int32)
    requires st.Valid() && s < 32 && b < 32 && (IsLoad(inst) || IsStore(inst))
    ensures var base := st.regs[b].symbol;
      var r := AccessHeap(st, inst, s, b, offset);
      && (base == Some("") ==> r == Ok(st.(terminated := true)))
      && (base.None? ==> r == Err(NullPointer))
      && (base.Some? && |base.value| > 0 && base.value !in st.space ==> r == Err(NullPointer))
  {
  }

  /** Storing a register and then loading the same offset through the same base reads back the
      stored value, provided the store did not land past the end of the array. */
  lemma StoreThenLoad(st: Machine, store: string, load: string, s: nat, t: nat, b: nat, offset: Int32)
    requires st.Valid() && s < 32 && t < 32 && b < 32 && IsStore(store) && IsLoad(load)
    requires st.regs[b].symbol.Some? && |st.regs[b].symbol.value| > 0 && st.regs[b].symbol.value in st.space
    requires 0 <= TruncDiv(offset, 4) <= |st.space[st.regs[b].symbol.value]|
    ensures var r := AccessHeap(st, store, s, b, offset);
      && r.Ok?
      && var r' := AccessHeap(r.value, load, t, b, offset);
      && r'.Ok? && r'.value.regs[t] == Cell(st.regs[s].value, Some(""))
  {
    StoreSemantics(st, store, s, b, offset);
    var r := AccessHeap(st, store, s, b, offset);
    LoadSemantics(r.value, load, t, b, offset);
  }

  /** A store more than one word past the end appends at the end, so loading the same offset back
      raises IndexOutOfBoundsException. */
  lemma StorePastEndThenLoad(st: Machine, store: string, load: string, s: nat, t: nat, b: nat, offset: Int32)
    requires st.Valid() && s < 32 && t < 32 && b < 32 && IsStore(store) && IsLoad(load)
    requires st.regs[b].symbol.Some? && |st.regs[b].symbol.value| > 0 && st.regs[b].symbol.value in st.space
    requires TruncDiv(offset, 4) > |st.space[st.regs[b].symbol.value]|
    ensures var r := AccessHeap(st, store, s, b, offset);
      && r.Ok?
      && AccessHeap(r.value, load, t, b, offset) == Err(IndexOutOfBounds)
  {
    StoreSemantics(st, store, s, b, offset);
    var r := AccessHeap(st, store, s, b, offset);
    LoadSemantics(r.value, load, t, b, offset);
  }

  /** Syscall 10 sets `terminated` and changes nothing else. */
  lemma ExitTerminates(st: Machine, labels: map<string, Int32>)
    requires st.Valid() && st.regs[V0].value == 10
    ensures Syscall(st, labels) == Ok(st.(terminated := true))
  {
  }

  /** Syscall 5 consumes one integer of input and puts it in $v0 as a plain integer; with no
      input left it raises NoSuchElementException. */
  lemma ReadIntSemantics(st: Machine, labels: map<string, Int32>)
    requires st.Valid() && st.regs[V0].value == 5
    ensures var r := Syscall(st, labels);
      && (r.Err? <==> |st.intInput| == 0)
      && (r.Ok? ==> |st.intInput| > 0 && r.value.regs == st.regs[V0 := Cell(st.intInput[0], Some(""))]
                    && st.intInput == [r.value.regs[V0].value] + r.value.intInput
                    && r.value == st.(regs := r.value.regs, intInput := r.value.intInput))
  {
  }

  /** Syscall 8 consumes one line of input; the label $a0 refers to loses its word array and gets
      as its string the first $a1 characters of the line (all of it when $a1 is larger). A negative
      $a1 raises IndexOutOfBoundsException. Registers, pc and the other labels are unchanged. */
  lemma ReadStringSemantics(st: Machine, labels: map<string, Int32>)
    requires st.Valid() && st.regs[V0].value == 8 && |st.lineInput| > 0
    requires st.regs[A0].symbol.Some?
    ensures var r := Syscall(st, labels);
      var line, name, limit := st.lineInput[0], st.regs[A0].symbol.value, st.regs[A1].value;
      && (r.Err? <==> limit < 0)
      && (r.Ok? ==>
            && r.value.regs == st.regs && r.value.pc == st.pc && r.value.terminated == st.terminated
            && r.value.intInput == st.intInput
            && r.value.space.Keys == st.space.Keys - {name}
            && r.value.asciiz.Keys == st.asciiz.Keys + {name}
            && name in r.value.asciiz
            && line == r.value.asciiz[name] + line[|r.value.asciiz[name]|..]
            && |r.value.asciiz[name]| == (if limit < |line| then limit else |line|)
            && (forall other | other in st.space && other != name ::
                  other in r.value.space && r.value.space[other] == st.space[other])
            && (forall other | other in st.asciiz && other != name ::
                  other in r.value.asciiz && r.value.asciiz[other] == st.asciiz[other])
            && r.value.lineInput == st.lineInput[1..])
  {
  }

  /** The console-output services change nothing; they fail only where printing throws: service 1
      on a register whose reference was never set, service 4 also on a reference that names
      nothing, and service 11 on a value that is not a Unicode code point. */
  lemma PrintServices(st: Machine, labels: map<string, Int32>)
    requires st.Valid() && st.regs[V0].value in {1, 4, 11}
    ensures var r := Syscall(st, labels);
      var a0 := st.regs[A0];
      && (r.Ok? ==> r.value == st)
      && (st.regs[V0].value == 1 ==> (r.Err? <==> a0.symbol.None?))
      && (st.regs[V0].value == 4 ==>
            (r.Err? <==> a0.symbol.None? || (IsReference(a0) && !Resolves(st, labels, a0.symbol.value))))
      && (st.regs[V0].value == 11 ==> (r.Err? <==> !(0 <= a0.value <= 0x10FFFF)))
  {
  }

  /** During one line each word array either disappears (syscall 8) or keeps its length or grows
      by one element, and no array appears. */
  predicate HeapsGrowByAtMostOne(before: Machine, after: Machine) {
    forall name | name in after.space ::
      name in before.space && |before.space[name]| <= |after.space[name]| <= |before.space[name]| + 1
  }

  /** Of any two word arrays, at least one is left as it was: a line changes at most one array. */
  predicate AtMostOneHeapChanges(before: Machine, after: Machine) {
    forall x, y | x in before.space && y in before.space && x != y ::
      (x in after.space && after.space[x] == before.space[x])
      || (y in after.space && after.space[y] == before.space[y])
  }

  lemma {:induction false} AccessHeapGrowth(st: Machine, inst: string, s: nat, b: nat, offset: Int32)
    requires st.Valid() && s < 32 && b < 32 && (IsLoad(inst) || IsStore(inst))
    requires AccessHeap(st, inst, s, b, offset).Ok?
    ensures HeapsGrowByAtMostOne(st, AccessHeap(st, inst, s, b, offset).value)
    ensures AtMostOneHeapChanges(st, AccessHeap(st, inst, s, b, offset).value)
  {
    var base := st.regs[b].symbol;
    if base.Some? && |base.value| > 0 && IsStore(inst) {
      StoreSemantics(st, inst, s, b, offset);
    }
  }

  lemma AccessMemoryGrowth(st: Machine, inst: string, s: nat, operand: string)
    requires st.Valid() && s < 32 && (IsLoad(inst) || IsStore(inst))
    requires AccessMemory(st, inst, s, operand).Ok?
    ensures HeapsGrowByAtMostOne(st, AccessMemory(st, inst, s, operand).value)
    ensures AtMostOneHeapChanges(st, AccessMemory(st, inst, s, operand).value)
    ensures st.terminated ==> AccessMemory(st, inst, s, operand).value.terminated
  {
    var p := IndexOf(operand, '(');
    if p >= 0 {
      var digits := Trim(operand[..p]);
      var offset := if |digits| == 0 then 0 else ParseInt(digits).value;
      var b := RegisterByName(Trim(operand[p + 1..|operand| - 1])).value;
      AccessHeapGrowth(st, inst, s, b, offset);
    }
  }

  /** Resolving an R-format line keeps `terminated` once set and changes word arrays only by one
      load or store. */
  lemma ResolveRFrame(st: Machine, labels: map<string, Int32>, inst: string, tokens: seq<string>)
    requires st.Valid() && 1 <= |tokens| <= 3 && ResolveR(st, labels, inst, tokens).Ok?
    ensures var next := ResolveR(st, labels, inst, tokens).value.st;
      (st.terminated ==> next.terminated) && HeapsGrowByAtMostOne(st, next) && AtMostOneHeapChanges(st, next)
  {
    if |tokens| == 2 {
      var s := RegisterByName(tokens[0]).value;
      var t := Parse(tokens[1]).value;
      if t < 0 && (IsLoad(inst) || IsStore(inst)) {
        AccessMemoryGrowth(st, inst, s, tokens[1]);
      }
    } else if |tokens| == 3 {
      assert ResolveR3(st, labels, inst, tokens[0], tokens[1], tokens[2]).value.st.space == st.space;
    }
  }

  /** Operand resolution keeps `terminated` once set and changes word arrays only by one load or
      store. */
  lemma ResolveFrame(st: Machine, labels: map<string, Int32>, m: Mnemonic, inst: string,
                     tokens: seq<string>, n: Int32)
    requires st.Valid() && 1 <= |tokens| <= 3 && Resolve(st, labels, m, inst, tokens, n).Ok?
    ensures var next := Resolve(st, labels, m, inst, tokens, n).value.st;
      (st.terminated ==> next.terminated) && HeapsGrowByAtMostOne(st, next) && AtMostOneHeapChanges(st, next)
  {
    match FormatOf(m)
    case RFormat => ResolveRFrame(st, labels, inst, tokens);
    case IFormat => assert ResolveI(st, labels, inst, tokens).value.st.space == st.space;
    case JFormat => assert ResolveJ(st, labels, inst, tokens, n).value.st.space == st.space;
  }

  /** Every decoded line keeps `terminated` once set and lets each word array grow by at most one
      element. */
  lemma ExecuteFrame(st: Machine, labels: map<string, Int32>, d: Decoded, n: Int32)
    requires st.Valid() && (d.Instruction? ==> 1 <= |d.tokens| <= 3) && Execute(st, labels, d, n).Ok?
    ensures var next := Execute(st, labels, d, n).value;
      (st.terminated ==> next.terminated) && HeapsGrowByAtMostOne(st, next) && AtMostOneHeapChanges(st, next)
  {
    match d
    case Instruction(m, inst, tokens) =>
      ResolveFrame(st, labels, m, inst, tokens, n);
    case SyscallLine =>
      var next := Syscall(st, labels).value;
      assert forall name | name in next.space :: name in st.space && next.space[name] == st.space[name];
    case _ =>
  }

  /** Every line keeps `terminated` once set and lets each word array grow by at most one
      element. */
  lemma StepFrame(st: Machine, labels: map<string, Int32>, line: string, n: Int32)
    requires st.Valid() && Step(st, labels, line, n).Ok?
    ensures var next := Step(st, labels, line, n).value;
      (st.terminated ==> next.terminated) && HeapsGrowByAtMostOne(st, next) && AtMostOneHeapChanges(st, next)
  {
    ExecuteFrame(st, labels, Decode(line), n);
  }

  /** Whatever the line semantics, the driver stops only when pc has left the program or
      `terminated` is set. */
  lemma {:induction false} DriveFinished(step: (Machine, string, Int32) --> Result<Machine>, st: Machine,
                                         lines: seq<string>, fuel: nat)
    requires st.Valid() && LineSemantics(step)
    ensures var (halt, last) := Drive(step, st, lines, fuel);
      halt == Finished ==> last.terminated || last.pc >= |lines|
    decreases fuel
  {
    if st.pc < |lines| && !st.terminated && fuel > 0 && st.pc >= 0 {
      var r := step(st, lines[st.pc], st.pc);
      if r.Ok? {
        DriveFinished(step, r.value.(pc := Wrap(r.value.pc as int + 1)), lines, fuel - 1);
      }
    }
  }

  /** Whatever the line semantics, more fuel does not change an outcome reached with less. */
  lemma {:induction false} DriveMoreFuel(step: (Machine, string, Int32) --> Result<Machine>, st: Machine,
                                         lines: seq<string>, fuel: nat, more: nat)
    requires st.Valid() && LineSemantics(step)
    requires fuel <= more && Drive(step, st, lines, fuel).0 != OutOfFuel
    ensures Drive(step, st, lines, more) == Drive(step, st, lines, fuel)
    decreases fuel
  {
    if st.pc < |lines| && !st.terminated && fuel > 0 && st.pc >= 0 {
      var r := step(st, lines[st.pc], st.pc);
      if r.Ok? {
        DriveMoreFuel(step, r.value.(pc := Wrap(r.value.pc as int + 1)), lines, fuel - 1, more - 1);
      }
    }
  }

  /** One iteration of the driver, as its definition gives it. */
  lemma RunUnfold(st: Machine, labels: map<string, Int32>, lines: seq<string>, fuel: nat)
    requires st.Valid()
    ensures var going := st.pc < |lines| && !st.terminated;
      && (!going ==> Run(st, labels, lines, fuel) == (Finished, st))
      && (going && fuel == 0 ==> Run(st, labels, lines, fuel) == (OutOfFuel, st))
      && (going && fuel > 0 && st.pc < 0 ==> Run(st, labels, lines, fuel) == (Crashed(IndexOutOfBounds), st))
      && (going && fuel > 0 && 0 <= st.pc ==>
            var r := Step(st, labels, lines[st.pc], st.pc);
            && (r.Err? ==> Run(st, labels, lines, fuel) == (Crashed(r.fault), st))
            && (r.Ok? ==> Run(st, labels, lines, fuel)
                            == Run(r.value.(pc := Wrap(r.value.pc as int + 1)), labels, lines, fuel - 1)))
  {
    if st.pc < |lines| && !st.terminated && fuel > 0 && 0 <= st.pc {
      assert Executor(labels)(st, lines[st.pc], st.pc) == Step(st, labels, lines[st.pc], st.pc);
    }
  }

  /** The three ways the driver stops before executing a line. */
  lemma RunStops(st: Machine, labels: map<string, Int32>, lines: seq<string>, fuel: nat)
    requires st.Valid()
    ensures !(st.pc < |lines| && !st.terminated) ==> Run(st, labels, lines, fuel) == (Finished, st)
    ensures st.pc < |lines| && !st.terminated && fuel == 0 ==> Run(st, labels, lines, fuel) == (OutOfFuel, st)
    ensures st.pc < 0 && !st.terminated && fuel > 0 ==> Run(st, labels, lines, fuel) == (Crashed(IndexOutOfBounds), st)
  {
    RunUnfold(st, labels, lines, fuel);
  }

  /** A line that raises an exception ends the run with that exception. */
  lemma RunCrash(st: Machine, labels: map<string, Int32>, lines: seq<string>, fuel: nat, f: Fault)
    requires st.Valid() && 0 <= st.pc < |lines| && !st.terminated && fuel > 0
    requires Step(st, labels, lines[st.pc], st.pc) == Err(f)
    ensures Run(st, labels, lines, fuel) == (Crashed(f), st)
  {
    RunUnfold(st, labels, lines, fuel);
  }

  /** A line that completes hands the rest of the run to the next line. */
  lemma RunAdvance(st: Machine, labels: map<string, Int32>, lines: seq<string>, fuel: nat, after: Machine)
    requires st.Valid() && 0 <= st.pc < |lines| && !st.terminated && fuel > 0
    requires Step(st, labels, lines[st.pc], st.pc) == Ok(after)
    ensures after.Valid()
    ensures Run(st, labels, lines, fuel) == Run(after.(pc := Wrap(after.pc as int + 1)), labels, lines, fuel - 1)
  {
    RunUnfold(st, labels, lines, fuel);
  }

  /** The driver stops only when pc has left the program or `terminated` is set. */
  lemma RunFinished(st: Machine, labels: map<string, Int32>, lines: seq<string>, fuel: nat)
    requires st.Valid()
    ensures var (halt, last) := Run(st, labels, lines, fuel);
      halt == Finished ==> last.terminated || last.pc >= |lines|
  {
    DriveFinished(Executor(labels), st, lines, fuel);
  }

  /** More fuel does not change an outcome reached with less. */
  lemma RunMoreFuel(st: Machine, labels: map<string, Int32>, lines: seq<string>, fuel: nat, more: nat)
    requires st.Valid() && fuel <= more && Run(st, labels, lines, fuel).0 != OutOfFuel
    ensures Run(st, labels, lines, more) == Run(st, labels, lines, fuel)
  {
    DriveMoreFuel(Executor(labels), st, lines, fuel, more);
  }

  /** A malformed line halts the run right there: no later line is executed, and the final state
      differs from the one before the line only in `terminated` (and pc's increment). */
  lemma MalformedStopsRun(st: Machine, labels: map<string, Int32>, lines: seq<string>, fuel: nat)
    requires st.Valid() && 0 <= st.pc < |lines| && !st.terminated && fuel > 0
    requires Decode(lines[st.pc]).Malformed?
    ensures Run(st, labels, lines, fuel) == (Finished, st.(terminated := true, pc := Wrap(st.pc as int + 1)))
  {
    var last := st.(terminated := true, pc := Wrap(st.pc as int + 1));
    assert Executor(labels)(st, lines[st.pc], st.pc) == Ok(st.(terminated := true));
    assert Drive(Executor(labels), last, lines, fuel - 1) == (Finished, last);
  }

  /** Whatever the line semantics, if no line makes a word array grow by more than one element,
      every word array's length at the end of a run is at most its length at the start plus the
      number of lines executed, and no array appears that was not there at the start. */
  lemma {:induction false} DriveHeapBound(step: (Machine, string, Int32) --> Result<Machine>, st: Machine,
                                          lines: seq<string>, fuel: nat, name: string)
    requires st.Valid() && LineSemantics(step)
    requires forall s: Machine, line: string, n: Int32 | s.Valid() && step(s, line, n).Ok? ::
      HeapsGrowByAtMostOne(s, step(s, line, n).value)
    ensures var last := Drive(step, st, lines, fuel).1;
      name in last.space ==> name in st.space && |last.space[name]| <= |st.space[name]| + fuel
    decreases fuel
  {
    if st.pc < |lines| && !st.terminated && fuel > 0 && st.pc >= 0 {
      var r := step(st, lines[st.pc], st.pc);
      if r.Ok? {
        var next := r.value.(pc := Wrap(r.value.pc as int + 1));
        DriveHeapBound(step, next, lines, fuel - 1, name);
        assert Drive(step, st, lines, fuel) == Drive(step, next, lines, fuel - 1);
        assert HeapsGrowByAtMostOne(st, r.value);
        if name in next.space {
          assert name in st.space && |next.space[name]| <= |st.space[name]| + 1;
        }
      }
    }
  }

  /** Every word array's length at the end of a run is at most its length at the start plus the
      number of lines executed, and no array appears that was not there at the start. */
  lemma RunHeapBound(st: Machine, labels: map<string, Int32>, lines: seq<string>, fuel: nat, name: string)
    requires st.Valid()
    ensures var last := Run(st, labels, lines, fuel).1;
      name in last.space ==> name in st.space && |last.space[name]| <= |st.space[name]| + fuel
  {
    var step := Executor(labels);
    forall s: Machine, line: string, n: Int32 | s.Valid() && step(s, line, n).Ok?
      ensures HeapsGrowByAtMostOne(s, step(s, line, n).value)
    {
      StepFrame(s, labels, line, n);
    }
    DriveHeapBound(step, st, lines, fuel, name);
  }
}
