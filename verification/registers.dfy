/** A register cell and the register-name resolver (`MipsRegister` in the source). */
module Registers {
  import opened Wrappers
  import opened Int32
  import opened JavaString

  const COUNT: nat := 34
  const V0: nat := 2
  const A0: nat := 4
  const A1: nat := 5
  const AT: nat := 1
  const GP: nat := 28
  const SP: nat := 29
  const RA: nat := 31
  const HI: nat := 32
  const LO: nat := 33

  /** A register: a 32-bit value and a symbol (the Java field `label`). A non-empty symbol makes
      the register a symbolic reference to the storage named by it; `None` is the symbol of a
      register nobody has written yet (Java's null), which is not the empty symbol `setValue`
      leaves. */
  datatype Cell = Cell(value: Int32, symbol: Option<string>)

  /** A freshly constructed register: value 0, symbol never assigned. */
  const Fresh: Cell := Cell(0, None)

  /** `setValue`: the new value, and the reference (if any) is dropped. */
  function SetValue(v: Int32): (c: Cell)
    ensures c.value == v && !IsReference(c) && c.symbol.Some?
  {
    Cell(v, Some(""))
  }

  predicate IsReference(c: Cell) { c.symbol.Some? && |c.symbol.value| > 0 }

  /** The offset `parse` adds to the digit after `$v`, `$a`, `$t` or `$s`; any other letter adds 0. */
  function FamilyOffset(c: char): nat {
    if c == 'v' then 2 else if c == 'a' then 4 else if c == 't' then 8 else if c == 's' then 16 else 0
  }

  /** `MipsRegister.parse`: the index a register name denotes, -1 for a token that is not a
      register, or the exception the Java code raises on the way. */
  function Parse(s: string): (r: Result<int>)
    ensures r.Ok? ==> -1 <= r.value <= 31
  {
    if |s| == 0 then Err(IndexOutOfBounds)
    else if s[0] != '$' then Ok(-1)
    else if s == "$at" then Ok(AT)
    else if s == "$gp" then Ok(GP)
    else if s == "$sp" then Ok(SP)
    else if s == "$ra" then Ok(RA)
    else match ParseInt(s[1..])
      case Some(n) => if n < 0 || n > 31 then Ok(-1) else Ok(n)
      case None =>
        if |s| < 3 then Err(IndexOutOfBounds)
        else if !IsDigit(s[2]) then Err(NumberFormat)
        else Ok(FamilyOffset(s[1]) + DigitValue(s[2]))
  }

  /** `getMipsRegisterByString`: indexing the register array with what `parse` returned. */
  function RegisterByName(s: string): (r: Result<nat>)
    ensures r.Ok? <==> Parse(s).Ok? && Parse(s).value >= 0
    ensures r.Ok? ==> r.value == Parse(s).value && r.value < 32
  {
    var i :- Parse(s);
    if i < 0 then Err(IndexOutOfBounds) else Ok(i)
  }

  /** `isZeroRegister`. Of the two spellings only `$0` resolves; `$zero` makes `parse` throw. */
  predicate IsZeroRegister(s: string)
    ensures IsZeroRegister(s) ==> Parse(s) == Ok(0) || Parse(s) == Err(NumberFormat)
  {
    ParseZeroNames();
    s == "$0" || s == "$zero"
  }

  lemma ParseIntLetter(s: string)
    requires |s| > 0 && !IsDigit(s[0]) && s[0] != '-' && s[0] != '+'
    ensures ParseInt(s) == None
  {
  }

  /** `$N` names register N for every N from 0 to 31. */
  lemma ParseNumbered(n: int)
    requires 0 <= n <= 31
    ensures Parse("$" + Show(n)) == Ok(n)
  {
    var s := "$" + Show(n);
    assert s[1..] == Show(n);
    ParseShow(n);
    assert IsDigit(s[1]);
  }

  /** A numeral that is a valid `int` but not between 0 and 31 is not a register. */
  lemma ParseNumberedOutOfRange(n: Int32)
    requires n < 0 || n > 31
    ensures Parse("$" + Show(n)) == Ok(-1)
  {
    var s := "$" + Show(n);
    assert s[1..] == Show(n);
    ParseShow(n);
    assert IsDigit(s[1]) || s[1] == '-';
  }

  /** A token that does not start with `$` is not a register. */
  lemma ParseNotDollar(s: string)
    requires |s| > 0 && s[0] != '$'
    ensures Parse(s) == Ok(-1) && RegisterByName(s) == Err(IndexOutOfBounds)
  {
  }

  /** The four names that are looked up before anything else. */
  lemma ParseNamed()
    ensures Parse("$at") == Ok(1) && Parse("$gp") == Ok(28)
    ensures Parse("$sp") == Ok(29) && Parse("$ra") == Ok(31)
  {
  }

  /** `$vK`, `$aK`, `$tK` and `$sK` name 2, 4, 8 and 16 plus the digit K, whatever follows it. */
  lemma ParseFamily(f: char, d: char, rest: string)
    requires f in "vats" && IsDigit(d)
    ensures Parse(['$', f, d] + rest) == Ok(
      (if f == 'v' then 2 else if f == 'a' then 4 else if f == 't' then 8 else 16) + DigitValue(d))
  {
    var s := ['$', f, d] + rest;
    assert s[1..][0] == f;
    ParseIntLetter(s[1..]);
    assert s != "$at" && s != "$gp" && s != "$sp" && s != "$ra" by {
      assert s[2] != 't' && s[2] != 'p' && s[2] != 'a';
    }
  }

  /** `$t8` and `$t9` land on 16 and 17, the registers `$s0` and `$s1` name, because the offset
      is 8 plus the digit. */
  lemma ParseTemporaryOverlap(d: char, rest: string)
    requires d == '8' || d == '9'
    ensures Parse(['$', 't', d] + rest) == Ok(8 + DigitValue(d))
    ensures Parse(['$', 't', d] + rest) == Parse(['$', 's', (d as int - 8) as char] + rest)
  {
    ParseFamily('t', d, rest);
    ParseFamily('s', (d as int - 8) as char, rest);
  }

  lemma ParseZeroNames()
    ensures Parse("$0") == Ok(0) && Parse("$zero") == Err(NumberFormat)
  {
    assert "$0"[1..] == "0";
    assert DigitsValue("0") == 0 by { assert "0"[..0] == ""; }
    ParseIntLetter("zero");
  }

  /** `$zero` is not understood: `parse` falls back to the letter families and then fails to read
      the digit `e`, so the name raises NumberFormatException instead of naming register 0. */
  lemma ParseZeroNameFaults()
    ensures Parse("$zero") == Err(NumberFormat)
    ensures RegisterByName("$zero") == Err(NumberFormat)
  {
    ParseZeroNames();
  }
}
