/** The few `java.lang.String` and `Integer` operations the interpreter relies on, with Java's
    exact edge cases: `trim` strips every character up to U+0020, `split` drops trailing empty
    pieces, `parseInt` accepts an optional sign and rejects anything outside the `int` range. */
module JavaString {
  import opened Wrappers
  import opened Int32

  /** `String.trim` treats every character at or below the space as white space. */
  predicate IsWhite(c: char) { c <= ' ' }

  function TrimStart(s: string): (r: string)
    ensures |r| <= |s|
  {
    if |s| > 0 && IsWhite(s[0]) then TrimStart(s[1..]) else s
  }

  function TrimEnd(s: string): (r: string)
    ensures |r| <= |s|
  {
    if |s| > 0 && IsWhite(s[|s| - 1]) then TrimEnd(s[..|s| - 1]) else s
  }

  /** `String.trim`. */
  function Trim(s: string): (r: string)
    ensures |r| <= |s|
  {
    TrimEnd(TrimStart(s))
  }

  /** Trimming removes a white prefix and a white suffix and nothing else. */
  lemma {:induction false} TrimStartSpec(s: string)
    ensures var r := TrimStart(s);
      && r == s[|s| - |r|..]
      && (|r| > 0 ==> !IsWhite(r[0]))
      && (forall i | 0 <= i < |s| - |r| :: IsWhite(s[i]))
  {
    if |s| > 0 && IsWhite(s[0]) {
      TrimStartSpec(s[1..]);
    }
  }

  lemma {:induction false} TrimEndSpec(s: string)
    ensures var r := TrimEnd(s);
      && r == s[..|r|]
      && (|r| > 0 ==> !IsWhite(r[|r| - 1]))
      && (forall i | |r| <= i < |s| :: IsWhite(s[i]))
  {
    if |s| > 0 && IsWhite(s[|s| - 1]) {
      TrimEndSpec(s[..|s| - 1]);
    }
  }

  /** `trim` yields the part of `s` between a white prefix of length `k` and a white suffix, and
      that part neither starts nor ends with white space. */
  lemma TrimSpec(s: string)
    ensures var r, k := Trim(s), |s| - |TrimStart(s)|;
      && k + |r| <= |s|
      && r == s[k..k + |r|]
      && (forall i | 0 <= i < k :: IsWhite(s[i]))
      && (forall i | k + |r| <= i < |s| :: IsWhite(s[i]))
      && (|r| > 0 ==> !IsWhite(r[0]) && !IsWhite(r[|r| - 1]))
  {
    TrimStartSpec(s);
    var t := TrimStart(s);
    TrimEndSpec(t);
    var r := Trim(s);
    var k := |s| - |t|;
    assert r == s[k..k + |r|];
    forall i | k + |r| <= i < |s| ensures IsWhite(s[i]) {
      assert s[i] == t[i - k];
    }
    if |r| > 0 {
      assert r[0] == t[0];
    }
  }

  /** `String.indexOf(char)`: the first position of `c`, or -1. */
  function IndexOf(s: string, c: char): (r: int)
    ensures -1 <= r < |s|
    ensures r < 0 <==> c !in s
    ensures 0 <= r ==> s[r] == c && c !in s[..r]
  {
    if |s| == 0 then -1
    else if s[0] == c then 0
    else
      var i := IndexOf(s[1..], c);
      if i < 0 then -1
      else
        assert s[..i + 1] == [s[0]] + s[1..][..i];
        i + 1
  }

  /** `String.startsWith`. */
  predicate StartsWith(s: string, prefix: string) {
    |prefix| <= |s| && s[..|prefix|] == prefix
  }

  /** Every piece of `s` between occurrences of `c`, empty pieces included. */
  function SplitAll(s: string, c: char): (parts: seq<string>)
    ensures |parts| >= 1
    ensures forall i | 0 <= i < |parts| :: c !in parts[i]
  {
    var i := IndexOf(s, c);
    if i < 0 then [s]
    else
      var rest := SplitAll(s[i + 1..], c);
      var parts := [s[..i]] + rest;
      assert forall k | 0 <= k < |parts| :: c !in parts[k] by {
        forall k | 0 <= k < |parts| ensures c !in parts[k] {
          if k > 0 {
            assert parts[k] == rest[k - 1];
          }
        }
      }
      parts
  }

  /** The pieces put back together with `c` between them. */
  function Join(parts: seq<string>, c: char): string
    requires |parts| >= 1
  {
    if |parts| == 1 then parts[0] else parts[0] + [c] + Join(parts[1..], c)
  }

  /** Splitting loses nothing: joining the pieces gives the string back. */
  lemma {:induction false} JoinSplitAll(s: string, c: char)
    ensures Join(SplitAll(s, c), c) == s
    decreases |s|
  {
    var i := IndexOf(s, c);
    if i < 0 {
      assert SplitAll(s, c) == [s];
    } else {
      var rest := SplitAll(s[i + 1..], c);
      var parts := [s[..i]] + rest;
      assert SplitAll(s, c) == parts;
      assert parts[1..] == rest;
      JoinSplitAll(s[i + 1..], c);
      calc {
        Join(parts, c);
        s[..i] + [c] + Join(rest, c);
        s[..i] + [c] + s[i + 1..];
        { assert s == s[..i] + [c] + s[i + 1..]; }
        s;
      }
    }
  }

  /** The first occurrence of `c` in `a + [c] + b`, when `a` has none, is right after `a`. */
  lemma IndexOfAfter(a: string, c: char, b: string)
    requires c !in a
    ensures IndexOf(a + [c] + b, c) == |a|
  {
    var s := a + [c] + b;
    assert s[|a|] == c;
    assert s[..|a|] == a;
  }

  /** The converse of JoinSplitAll: splitting the joined pieces gives them back, provided no
      piece contains the separator. */
  lemma {:induction false} SplitAllJoin(parts: seq<string>, c: char)
    requires |parts| >= 1 && forall i | 0 <= i < |parts| :: c !in parts[i]
    ensures SplitAll(Join(parts, c), c) == parts
    decreases |parts|
  {
    if |parts| > 1 {
      var rest := Join(parts[1..], c);
      var s := parts[0] + [c] + rest;
      assert Join(parts, c) == s;
      IndexOfAfter(parts[0], c, rest);
      assert s[..|parts[0]|] == parts[0];
      assert s[|parts[0]| + 1..] == rest;
      SplitAllJoin(parts[1..], c);
      assert parts == [parts[0]] + parts[1..];
    }
  }

  /** Joining non-empty pieces starts with the first piece's first character and ends with the
      last piece's last character. */
  lemma {:induction false} JoinEnds(parts: seq<string>, c: char)
    requires |parts| >= 1 && forall i | 0 <= i < |parts| :: |parts[i]| > 0
    ensures var s, last := Join(parts, c), parts[|parts| - 1];
      |s| > 0 && s[0] == parts[0][0] && s[|s| - 1] == last[|last| - 1]
    decreases |parts|
  {
    if |parts| > 1 {
      JoinEnds(parts[1..], c);
    }
  }

  /** A string that neither starts nor ends with white space is its own trim. */
  lemma TrimUnchanged(s: string)
    requires |s| > 0 ==> !IsWhite(s[0]) && !IsWhite(s[|s| - 1])
    ensures Trim(s) == s
  {
  }

  function DropTrailingEmpty(parts: seq<string>): (r: seq<string>)
    ensures |r| <= |parts| && r == parts[..|r|]
    ensures |r| > 0 ==> r[|r| - 1] != ""
    ensures forall i | |r| <= i < |parts| :: parts[i] == ""
  {
    if |parts| > 0 && parts[|parts| - 1] == "" then DropTrailingEmpty(parts[..|parts| - 1]) else parts
  }

  /** `String.split` with a one-character pattern: a string without `c` is returned whole,
      otherwise the pieces are returned with the trailing empty ones removed. */
  function Split(s: string, c: char): (r: seq<string>)
    ensures forall i | 0 <= i < |r| :: c !in r[i]
    ensures c !in s ==> r == [s]
    ensures c in s ==> |r| <= |SplitAll(s, c)| && r == SplitAll(s, c)[..|r|]
    ensures c in s ==> (|r| > 0 ==> r[|r| - 1] != "")
    ensures c in s ==> forall i | |r| <= i < |SplitAll(s, c)| :: SplitAll(s, c)[i] == ""
  {
    if c !in s then [s] else DropTrailingEmpty(SplitAll(s, c))
  }

  /** `split` inverts joining when no piece contains the separator and the last piece is not
      empty (an empty last piece would be dropped as a trailing one). */
  lemma SplitJoin(parts: seq<string>, c: char)
    requires |parts| >= 1 && forall i | 0 <= i < |parts| :: c !in parts[i]
    requires parts[|parts| - 1] != ""
    ensures Split(Join(parts, c), c) == parts
  {
    var s := Join(parts, c);
    SplitAllJoin(parts, c);
    if |parts| > 1 {
      assert s == parts[0] + [c] + Join(parts[1..], c);
      assert s[|parts[0]|] == c;
    }
  }

  /** Joining non-empty pieces that are their own trim gives a string that is its own trim. */
  lemma JoinTrimmed(parts: seq<string>, c: char)
    requires |parts| >= 1 && !IsWhite(c)
    requires forall i | 0 <= i < |parts| :: |parts[i]| > 0 && Trim(parts[i]) == parts[i]
    ensures var s := Join(parts, c);
      |s| > 0 && !IsWhite(s[|s| - 1]) && Trim(s) == s
  {
    var last := parts[|parts| - 1];
    JoinEnds(parts, c);
    TrimSpec(parts[0]);
    TrimSpec(last);
    TrimUnchanged(Join(parts, c));
  }

  function LowerChar(c: char): char {
    if 'A' <= c <= 'Z' then (c as int - 'A' as int + 'a' as int) as char else c
  }

  /** `String.toLowerCase` restricted to ASCII letters. */
  function ToLower(s: string): (r: string)
    ensures |r| == |s|
  {
    seq(|s|, i requires 0 <= i < |s| => LowerChar(s[i]))
  }

  predicate IsDigit(c: char) { '0' <= c <= '9' }

  function DigitValue(c: char): nat
    requires IsDigit(c)
  {
    c as int - '0' as int
  }

  function DigitChar(d: nat): (c: char)
    requires d < 10
    ensures IsDigit(c) && DigitValue(c) == d
  {
    (d + '0' as int) as char
  }

  predicate AllDigits(s: string) { forall i | 0 <= i < |s| :: IsDigit(s[i]) }

  /** The value of a string of decimal digits, most significant first. */
  function DigitsValue(s: string): nat
    requires AllDigits(s)
  {
    if |s| == 0 then 0 else 10 * DigitsValue(s[..|s| - 1]) + DigitValue(s[|s| - 1])
  }

  /** `Integer.parseInt(s)`: None where Java throws NumberFormatException. */
  function ParseInt(s: string): Option<Int32> {
    if |s| == 0 then None
    else
      var digits := if s[0] == '-' || s[0] == '+' then s[1..] else s;
      if |digits| == 0 || !AllDigits(digits) then None
      else
        var v: int := if s[0] == '-' then -(DigitsValue(digits) as int) else DigitsValue(digits);
        if InRange(v) then Some(v) else None
  }

  /** The decimal digits of `n`, as `Integer.toString` writes a non-negative number. */
  function ShowNat(n: nat): (s: string)
    ensures |s| >= 1 && AllDigits(s) && DigitsValue(s) == n
    ensures s[0] != '-' && s[0] != '+'
  {
    if n < 10 then [DigitChar(n)]
    else
      var s := ShowNat(n / 10) + [DigitChar(n % 10)];
      assert s[..|s| - 1] == ShowNat(n / 10);
      s
  }

  /** `Integer.toString`. */
  function Show(n: Int32): string {
    if n < 0 then "-" + ShowNat(-(n as int)) else ShowNat(n)
  }

  /** Parsing what `Integer.toString` printed gives the number back. */
  lemma ParseShow(n: Int32)
    ensures ParseInt(Show(n)) == Some(n)
  {
    var s := Show(n);
    if n < 0 {
      assert s[1..] == ShowNat(-(n as int));
    }
  }
}
