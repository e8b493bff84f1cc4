# MIPS interpreter core in Dafny

A model of the execution core of a line-by-line MIPS assembly interpreter written in Java
(`MipsInterpreter.java`). The interpreter keeps 34 registers (32 general-purpose ones plus HI and
LO), a program counter, a `terminated` flag, and three label tables produced by its loader: text
labels (line numbers), `.space` labels (growable word arrays) and `.asciiz` labels (strings). Each
register holds an `int` and a string *label* that, when non-empty, makes the register refer to a
data label instead of holding a number.

The model covers:

- register-name parsing (`MipsRegister.parse`), `getValue`/`setValue` and register lookup by name;
- the instruction table: the 46 mnemonics, their operand-format tags and the semantic action of
  each entry, with Java's 32-bit `int` arithmetic (wrap-around, truncating `/` and `%`, shift
  distances taken modulo 32, `>>` versus `>>>`) written out;
- `executeMipsInstruction`: trimming, splitting off the mnemonic at the first space (or at the
  first tab when the line has no space), splitting the operands at commas, the lower-cased table lookup, operand resolution for the
  R, I and J formats (including the `offset(register)` load/store path, `beq`/`bne` on labels,
  the register-vs-zero branches, `j`, `jal` and `jr`), and the final call of the action;
- `syscall` (services 1, 4, 5, 8, 10 and 11);
- the driver loop that executes lines from the first text line until the end or until
  `terminated` is set;
- `isZeroRegister`, `isLoadInstruction` and `isStoreInstruction`.

Java exceptions are a `Fault` value (NullPointerException, IndexOutOfBoundsException,
NumberFormatException, ArithmeticException, NoSuchElementException, IllegalArgumentException).
A register's label is `Option<string>`: `None` is Java's `null` (a register never written),
`Some("")` a plain integer, `Some(name)` a reference.

Modules:

- `Wrappers`: `Option`, `Result` and `Fault`.
- `Int32`: Java `int` arithmetic.
- `JavaString`: `trim`, `indexOf`, `split`, `toLowerCase` on ASCII, and `Integer.parseInt`.
- `Registers`: register cells and name parsing.
- `Instructions`: the instruction table and its semantic actions.
- `Engine`: one line and the driver loop as functions of a `Machine` value. `Step` is the
  specification of `executeMipsInstruction`; `Run` is the specification of the driver loop.
- `ActionFacts` and `EngineFacts`: lemmas about the actions, one line, and whole runs.
- `Interpreter`: the class `MipsInterpreter`. It has the register `array` and the mutable
  fields the Java class updates. Its methods follow the Java statements in order. Each method is
  proved against the matching `Engine` function.

Behaviour the model reproduces from the code, as written:

- `bgtz` jumps when the register is `>= 0` and `bltz` when it is `<= 0`.
- The code tests the strings `"bgz"` and `"blz"`, which are not mnemonics, so `bgez` and `blez`
  never jump.
- `$zero` is not recognised: parsing it raises NumberFormatException. Register 0 is named by `$0`
  and by any other spelling whose number `parseInt` reads as 0 (`$00`, `$+0`). A `$`, a letter
  other than v, a, t and s, and a digit D name register D, so `$x0` is register 0 too.
- `$t8` and `$t9` are computed as 8+8 and 8+9, so they alias `$s0` and `$s1`.
- The third token of a three-operand R line counts as a register only when its index is above 0.
  With `$0` there, or a token that is neither a register nor a text label, the action gets null
  `rs` and `rt`. The register/register arithmetic, `move`, `mult` and `div` actions then raise
  NullPointerException. The branch, jump, load and store actions ignore their operands, so a
  `beq $8, $9, end` without a label `end` does nothing.
- A register/register `beq`/`bne` whose branch is not taken parses the label name as an integer,
  which raises NumberFormatException.
- The arithmetic actions use a register's integer even when it holds a reference.
- `div` puts the quotient in HI and the remainder in LO.
- A load past the end of a word array raises IndexOutOfBoundsException. A store at or past the
  end appends exactly one element.

## Model

| member | source | states |
|---|---|---|
| Int32.Wrap | MipsInterpreter.java:42 | the result of Java `int` addition/subtraction/multiplication is congruent to the exact value modulo 2^32, and equal to it when the exact value fits |
| Int32.WrapUnique | MipsInterpreter.java:42 | the 32-bit representative of a congruence class is unique, so any in-range value congruent to x is Wrap(x) |
| Int32.DivisionIdentity | MipsInterpreter.java:170-171 | Java `/` and `%`: a == b*q + r, with abs(r) < abs(b) and r zero or of the dividend's sign |
| Int32.Shl | MipsInterpreter.java:105 | `a << n` is a times 2^(n mod 32), reduced modulo 2^32 |
| Int32.Sar | MipsInterpreter.java:126 | `a >> n` is the floor of a / 2^(n mod 32) |
| Int32.Ushr | MipsInterpreter.java:119 | `a >>> n` leaves a unchanged when n is a multiple of 32, and otherwise is a's unsigned 32-bit pattern divided by 2^(n mod 32), a non-negative int; it agrees with `>>` on non-negative a |
| JavaString.TrimSpec | MipsInterpreter.java:446 | `trim` removes exactly the leading and trailing characters up to U+0020 and keeps the middle |
| JavaString.IndexOf | MipsInterpreter.java:452-453 | `indexOf` returns -1 exactly when the character is absent, otherwise its first position |
| JavaString.SplitAll | MipsInterpreter.java:464 | splitting at a separator gives at least one piece and no piece contains the separator |
| JavaString.JoinSplitAll | MipsInterpreter.java:464 | joining the pieces with the separator gives the original string back |
| JavaString.SplitAllJoin | MipsInterpreter.java:464 | splitting the joined pieces gives them back when no piece contains the separator |
| JavaString.Split | MipsInterpreter.java:464 | Java `split` keeps a prefix of the full split whose last piece is non-empty and drops only empty pieces after it; a string without the separator is one piece |
| JavaString.SplitJoin | MipsInterpreter.java:464 | `split` gives back comma-free pieces joined by commas when the last piece is not empty |
| JavaString.ParseShow | MipsInterpreter.java:679 | `Integer.parseInt` reads back the decimal rendering of every int |
| Registers.SetValue | MipsInterpreter.java:707-710 | `setValue` stores the value and clears the label to the empty string, so the register holds a plain integer |
| Registers.Parse | MipsInterpreter.java:665-701 | `parse` yields an index in -1..31 or a fault |
| Registers.ParseNotDollar | MipsInterpreter.java:666 | a name not starting with `$` parses to -1, and looking that register up raises IndexOutOfBoundsException |
| Registers.ParseNamed | MipsInterpreter.java:668-675 | `$at`, `$gp`, `$sp`, `$ra` are 1, 28, 29, 31 |
| Registers.ParseNumbered | MipsInterpreter.java:677-681 | `$N` for N in 0..31 parses to N |
| Registers.ParseNumberedOutOfRange | MipsInterpreter.java:680 | `$N` for an int N outside 0..31 parses to -1 |
| Registers.ParseFamily | MipsInterpreter.java:683-699 | `$vD`, `$aD`, `$tD`, `$sD` parse to 2, 4, 8, 16 plus the digit D, whatever follows it |
| Registers.ParseTemporaryOverlap | MipsInterpreter.java:691-699 | `$t8` and `$t9` parse to 16 and 17, the same registers as `$s0` and `$s1` |
| Registers.ParseZeroNames | MipsInterpreter.java:683-698 | `$0` is register 0; `$zero` raises NumberFormatException |
| Registers.ParseZeroNameFaults | MipsInterpreter.java:638-640 | looking up `$zero` as an operand raises NumberFormatException |
| Registers.RegisterByName | MipsInterpreter.java:638-640 | lookup by name succeeds exactly when the parsed index is not negative, and returns that index |
| Registers.IsZeroRegister | MipsInterpreter.java:642-644 | a name `isZeroRegister` accepts parses to register 0 or raises NumberFormatException |
| Instructions.LookupKey | MipsInterpreter.java:472 | a mnemonic found by the table lookup has exactly the looked-up key |
| Instructions.LookupName | MipsInterpreter.java:22-349 | every mnemonic's key finds that mnemonic, so distinct table entries have distinct keys |
| Instructions.LoadStoreKeys | MipsInterpreter.java:646-652 | `isLoadInstruction` holds exactly for the keys of `lw` and `lb`, `isStoreInstruction` exactly for `sw` and `sb` |
| ActionFacts.MoveSemantics | MipsInterpreter.java:29-36 | `move` copies a reference as a label, keeping the destination's integer, or copies the integer and clears the label; a never-written source raises NullPointerException; only the destination changes |
| ActionFacts.LoadAddressThenMove | MipsInterpreter.java:239-244 | `la` then `move` leaves the second register referring to the label and keeping its own integer |
| ActionFacts.AddSubSemantics | MipsInterpreter.java:39-65 | `add`/`addu`/`sub`/`subu` write the sum or difference modulo 2^32 (exact when it fits) to rd and change nothing else |
| ActionFacts.SetLessThanSemantics | MipsInterpreter.java:67-79 | `slt`/`sltu` write 1 when rs < rt (signed) and 0 otherwise |
| ActionFacts.BitwiseSemantics | MipsInterpreter.java:81-100 | `and`/`or`/`xor` give the bitwise combination of the two 32-bit patterns |
| ActionFacts.VariableShiftSemantics | MipsInterpreter.java:109-135 | `sllv` multiplies by 2^(rt mod 32) modulo 2^32; `srlv` divides rs's unsigned 32-bit pattern by it, rounding down, and leaves rs's value for a distance of 0 |
| ActionFacts.RegisterArithNeedsOperands | MipsInterpreter.java:39-135 | a three-register action fails exactly when rd, rs or rt is null, with NullPointerException |
| ActionFacts.MultSemantics | MipsInterpreter.java:151-165 | `mult`/`multu` zero HI and put the product modulo 2^32 in LO; nothing else changes |
| ActionFacts.DivSemantics | MipsInterpreter.java:167-181 | `div`/`divu` raise ArithmeticException exactly on a zero divisor; otherwise HI gets the truncated quotient and LO the remainder |
| ActionFacts.WriteSemantics | MipsInterpreter.java:137-149 | `mfhi`, `mflo` and `li` write HI, LO or the immediate to rd as a plain integer; nothing else changes |
| ActionFacts.LoadUpperSemantics | MipsInterpreter.java:246-251 | `lui` writes the immediate times 65536, modulo 2^32 |
| ActionFacts.ImmediateArithSemantics | MipsInterpreter.java:102-128 | `addi`/`addiu` add modulo 2^32, `slti`/`sltiu` compare, `sll` multiplies by 2^(imm mod 32) modulo 2^32 and `sra` divides by it rounding down; only rd changes |
| ActionFacts.LogicalShiftSemantics | MipsInterpreter.java:116-121 | `srl` divides rs's unsigned 32-bit pattern by 2^(imm mod 32), rounding down, and leaves rs's value for a distance of 0; only rd changes |
| ActionFacts.ImmediateBitwiseSemantics | MipsInterpreter.java:211-230 | `andi`/`ori`/`xori` give the bitwise combination of rs's pattern and the immediate's |
| ActionFacts.EmptyActions | MipsInterpreter.java:253-349 | the actions of branches, jumps, loads, stores and `jr` change no register |
| Engine.Initial | MipsInterpreter.java:365-368 | the run starts with 34 fresh registers, not terminated, at the first text line |
| Engine.Decode | MipsInterpreter.java:445-476 | a decoded instruction has one to three operand tokens and its lower-cased key is its mnemonic's |
| EngineFacts.DecodeLine | MipsInterpreter.java:445-476 | a key, a space and one to three trimmed, comma-free, non-empty tokens joined by commas decode to that mnemonic with exactly those tokens |
| EngineFacts.MalformedHalts | MipsInterpreter.java:454-476 | a line with no separator, a wrong operand count or an unknown mnemonic sets `terminated` and changes nothing else |
| EngineFacts.DecodeNoSeparator | MipsInterpreter.java:452-457 | a non-blank, non-syscall line with no space or tab is malformed |
| EngineFacts.DecodeUnknown | MipsInterpreter.java:462-476 | an unknown mnemonic in any letter case, or no operand token or more than three, makes the line malformed |
| EngineFacts.BranchConditions | MipsInterpreter.java:564-574 | the branch test holds exactly for `beqz` on 0, `bgtz` on >= 0 and `bltz` on <= 0; `bgez` and `blez` never jump |
| EngineFacts.BranchOnLabel | MipsInterpreter.java:560-576 | an I line whose second token is a text label changes only pc, to the line before the label, exactly when the branch test holds |
| EngineFacts.BranchRegisters | MipsInterpreter.java:538-549 | register/register `beq`/`bne` jumps when the comparison holds and otherwise parses the label name, raising NumberFormatException |
| EngineFacts.BranchImmediate | MipsInterpreter.java:550-556 | register/number `beq`/`bne` on a text label jumps to the line before the label exactly when the comparison holds, changes nothing else, and raises NumberFormatException for a token that is not a number |
| EngineFacts.ThirdOperandNotRegister | MipsInterpreter.java:532-559 | a three-operand arithmetic line whose third token is `$0` or not a register, and not a label, raises NullPointerException |
| EngineFacts.MemoryLine | MipsInterpreter.java:498-530 | a two-token load or store whose second token is not a register has exactly the effect of the `offset(register)` access |
| EngineFacts.LoadImmediateLine | MipsInterpreter.java:577-588 | `li rd, k` and `lui rd, k` with a number k that is not a label set rd to k, or k shifted by 16, as a plain integer; nothing else changes |
| EngineFacts.LoadAddressLine | MipsInterpreter.java:577-588 | `la rd, name` with a name that is not a label or a number makes rd refer to `name` (to the empty label for `$0`) and keeps its value; nothing else changes |
| EngineFacts.AddImmediateLine | MipsInterpreter.java:577-580 | `addi rd, rs, k` sets rd to rs + k wrapped to 32 bits; an immediate that is not a number raises NumberFormatException |
| EngineFacts.JumpSemantics | MipsInterpreter.java:589-597 | `j` sets pc to the line before the label; `jal` also stores the line number in $ra; an unknown label raises NullPointerException |
| EngineFacts.JumpRegister | MipsInterpreter.java:489-495 | `jr` sets pc to $ra's value when its operand is $ra and does nothing otherwise |
| EngineFacts.StoreSemantics | MipsInterpreter.java:519-528 | a store overwrites the word inside the array or appends one word at or past the end; a negative index raises IndexOutOfBoundsException; nothing else changes |
| EngineFacts.LoadSemantics | MipsInterpreter.java:519-521 | a load copies the word inside the array as a plain integer and raises IndexOutOfBoundsException outside it, past the end included |
| EngineFacts.BaseWithoutArray | MipsInterpreter.java:514-519 | a base register holding a plain integer terminates the program; a never-written one or one naming no array raises NullPointerException |
| EngineFacts.StoreThenLoad | MipsInterpreter.java:519-528 | storing and then loading the same offset reads back the stored value when the store did not land past the end |
| EngineFacts.StorePastEndThenLoad | MipsInterpreter.java:523-524 | a store more than one word past the end appends, so loading that offset back raises IndexOutOfBoundsException |
| EngineFacts.ExitTerminates | MipsInterpreter.java:620-622 | syscall 10 sets `terminated` and nothing else |
| EngineFacts.ReadIntSemantics | MipsInterpreter.java:610-612 | syscall 5 consumes one integer into $v0 and fails exactly when no input is left |
| EngineFacts.ReadStringSemantics | MipsInterpreter.java:613-619 | syscall 8 consumes a line, removes $a0's word array and stores the first min($a1, length) characters as its string; no other label appears or disappears, registers and the integer input are unchanged; a negative $a1 raises IndexOutOfBoundsException |
| EngineFacts.PrintServices | MipsInterpreter.java:603-627 | services 1, 4 and 11 change nothing and fail exactly on a null label, an unresolvable label, or a value that is not a code point |
| EngineFacts.AccessMemoryGrowth | MipsInterpreter.java:498-530 | a load or store makes no word array appear and grows at most one array by at most one element |
| EngineFacts.StepFrame | MipsInterpreter.java:445-628 | one line keeps `terminated` once set, creates no word array and grows each by at most one element |
| EngineFacts.DriveFinished | MipsInterpreter.java:437-439 | whatever each line does, the loop ends normally only when pc has left the program or `terminated` is set |
| EngineFacts.DriveMoreFuel | MipsInterpreter.java:437-439 | whatever each line does, a bigger step budget does not change an outcome reached with a smaller one |
| EngineFacts.RunFinished | MipsInterpreter.java:437-439 | the driver loop ends normally only when pc has left the program or `terminated` is set |
| EngineFacts.RunMoreFuel | MipsInterpreter.java:437-439 | a bigger step budget does not change a run's outcome |
| EngineFacts.MalformedStopsRun | MipsInterpreter.java:437-439 | a malformed line ends the run right there, changing only `terminated` and pc |
| EngineFacts.RunHeapBound | MipsInterpreter.java:437-439 | after n lines no new word array exists and each has grown by at most n elements |
| Interpreter.MipsInterpreter.constructor | MipsInterpreter.java:365-375 | the new interpreter's state is the initial machine: 34 fresh registers in a fresh array |
| Interpreter.MipsInterpreter.Call | MipsInterpreter.java:22-349 | calling the action updates the register array as the table's action specifies, or reports its exception |
| Interpreter.MipsInterpreter.AccessMemory | MipsInterpreter.java:503-530 | the `offset(register)` path changes the fields exactly as the engine's memory access does, or reports the same exception |
| Interpreter.MipsInterpreter.AccessHeap | MipsInterpreter.java:514-528 | the word-array access changes the fields exactly as the engine's, or reports the same exception |
| Interpreter.MipsInterpreter.ResolveThreeOperands | MipsInterpreter.java:532-558 | three-operand resolution returns the operands, finishes the line, or faults exactly as the engine's resolution |
| Interpreter.MipsInterpreter.ResolveRegisterOperands | MipsInterpreter.java:487-559 | R-format resolution agrees with the engine's |
| Interpreter.MipsInterpreter.ResolveImmediateOperands | MipsInterpreter.java:560-588 | I-format resolution agrees with the engine's |
| Interpreter.MipsInterpreter.ResolveJump | MipsInterpreter.java:589-597 | J-format resolution agrees with the engine's |
| Interpreter.MipsInterpreter.SystemCall | MipsInterpreter.java:602-628 | `syscall` changes the fields exactly as the engine's syscall, or reports the same exception |
| Interpreter.MipsInterpreter.ExecuteMipsInstruction | MipsInterpreter.java:445-600 | executing a line leaves the object in the engine's next state, or reports the engine's exception |
| Interpreter.MipsInterpreter.Run | MipsInterpreter.java:437-439 | the loop ends with the engine's outcome and, unless an exception escaped, in the engine's final state |

## Left out

- The loader (`readFile`, lines 377-436) is not part of this model: the text labels, word arrays, strings and program lines are parameters. In the code, `.space N` creates an array holding the single element N (line 423), not N/4 zero words. The model takes whatever arrays it is given.
- Console output of syscalls 1, 4 and 11 is not modelled. Only their exceptions are.
- `System.in` is read through one `Scanner` by both `nextInt` and `nextLine`. The model gives syscall 5 a queue of integers and syscall 8 a queue of lines. It does not model how the two calls interleave on one stream, nor a non-integer token for `nextInt`.
- `main`, `toString` and `getLabel` rendering, and the anonymous-class and HashMap plumbing are not modelled. Syscall 4's lookup succeeds when the name is in any of the three label tables.
- Syscall 8 on a register whose label is null stores the string under a null key. The model consumes the line and leaves both label tables unchanged, since a null key cannot be named later.
- Syscall 8 counts the line's length and cuts it (lines 615 and 618) in Java `char`s, which are UTF-16 code units. The model counts Dafny characters, which are code points. A line with a character outside the Basic Multilingual Plane is cut at a different place.
- `toLowerCase` and `Integer.parseInt` are modelled on ASCII only. Unicode case mappings and non-ASCII digits are left out.
- `MipsRegister` objects are cells held by value in the register array. Aliasing between registers is not modelled; the code never shares a register object between slots.
- Division by zero is the ArithmeticException outcome of `div`/`divu`; no precondition excludes it.
- Engine.Run and Engine.Drive: the driver loop is bounded by a step budget (`fuel`), with an `OutOfFuel` outcome; the Java loop has no bound.
- Interpreter.MipsInterpreter.ExecuteMipsInstruction, Interpreter.MipsInterpreter.Run, Interpreter.MipsInterpreter.SystemCall, Interpreter.MipsInterpreter.AccessMemory, Interpreter.MipsInterpreter.AccessHeap, Interpreter.MipsInterpreter.Call and the Resolve methods: when an exception escapes, the object's state afterwards is left unspecified. The Java process dies there. The engine functions return the fault and no state.
- ActionFacts.MultSemantics and ActionFacts.LoadUpperSemantics state the result modulo 2^32, not its exact 32-bit representative (Int32.WrapUnique gives that).
