/** The pieces of java.lang.String and java.lang.Integer that the GFF tool relies on,
    written out so that their edge cases are explicit: String.split with a one-character
    separator (trailing empty strings dropped), trim, indexOf, startsWith, contains,
    toUpperCase, Integer.parseInt, Integer.toString, and 32-bit int arithmetic. */
module JavaText {
  import opened Wrappers

  const TAB: char := '\t'
  const INT_MIN: int := -0x8000_0000
  const INT_MAX: int := 0x7fff_ffff

  /** The values of a Java `int`. */
  predicate IsInt32(n: int) {
    INT_MIN <= n <= INT_MAX
  }

  /** Java's `int` subtraction `a - b`: the exact difference, wrapped into 32 bits. */
  function Int32Sub(a: int, b: int): (r: int)
    requires IsInt32(a) && IsInt32(b)
    ensures IsInt32(r)
    ensures IsInt32(a - b) ==> r == a - b
    ensures r == a - b || r == a - b - 0x1_0000_0000 || r == a - b + 0x1_0000_0000
  {
    var d := a - b;
    if d > INT_MAX then d - 0x1_0000_0000
    else if d < INT_MIN then d + 0x1_0000_0000
    else d
  }

  /** Java's integer division for a positive divisor: the quotient is truncated toward
      zero, which differs from Dafny's `/` when the dividend is negative. */
  function JavaDiv(a: int, b: int): (q: int)
    requires b > 0
    ensures a >= 0 ==> q == a / b
    ensures a < 0 ==> q == -((-a) / b)
  {
    if a >= 0 then a / b else -((-a) / b)
  }

  // ---------------------------------------------------------------- prefixes, substrings

  /** String.startsWith */
  predicate StartsWith(s: string, prefix: string) {
    |prefix| <= |s| && s[..|prefix|] == prefix
  }

  /** String.endsWith */
  predicate EndsWith(s: string, suffix: string) {
    |suffix| <= |s| && s[|s| - |suffix|..] == suffix
  }

  /** String.contains: `t` occurs in `s` at some position (the empty string occurs everywhere). */
  predicate HasSubstring(s: string, t: string)
    decreases |s|
  {
    StartsWith(s, t) || (|s| > 0 && HasSubstring(s[1..], t))
  }

  /** String.indexOf for one character: the first position of `c`, or -1. */
  function IndexOf(s: string, c: char): (i: int)
    ensures -1 <= i < |s|
    ensures i == -1 <==> c !in s
    ensures 0 <= i ==> s[i] == c && c !in s[..i]
    decreases |s|
  {
    if |s| == 0 then -1
    else if s[0] == c then 0
    else
      var j := IndexOf(s[1..], c);
      assert 0 <= j ==> s[..j + 1] == [s[0]] + s[1..][..j];
      if j == -1 then -1 else j + 1
  }

  /** String.toUpperCase, restricted to the ASCII letters. */
  function UpperChar(c: char): char {
    if 'a' <= c <= 'z' then (c as int - 32) as char else c
  }

  function ToUpper(s: string): string {
    seq(|s|, i requires 0 <= i < |s| => UpperChar(s[i]))
  }

  // ---------------------------------------------------------------- trim

  /** Java's trim removes leading and trailing characters whose code is at most U+0020. */
  predicate IsTrimmed(s: string) {
    |s| == 0 || (s[0] > ' ' && s[|s| - 1] > ' ')
  }

  function TrimStart(s: string): (r: string)
    ensures |r| <= |s| && r == s[|s| - |r|..]
    ensures |r| == 0 || r[0] > ' '
    decreases |s|
  {
    if |s| > 0 && s[0] <= ' ' then TrimStart(s[1..]) else s
  }

  function TrimEnd(s: string): (r: string)
    ensures |r| <= |s| && r == s[..|r|]
    ensures |r| == 0 || r[|r| - 1] > ' '
    decreases |s|
  {
    if |s| > 0 && s[|s| - 1] <= ' ' then TrimEnd(s[..|s| - 1]) else s
  }

  /** String.trim */
  function Trim(s: string): (r: string)
    ensures IsTrimmed(r)
    ensures IsTrimmed(s) ==> r == s
  {
    var t := TrimStart(s);
    var r := TrimEnd(t);
    assert |r| > 0 ==> r[0] == t[0];
    r
  }

  // ---------------------------------------------------------------- split and join

  /** Every piece of `s` between occurrences of `c`, empty pieces included. */
  function SplitAll(s: string, c: char): (parts: seq<string>)
    ensures |parts| >= 1
    ensures forall i :: 0 <= i < |parts| ==> c !in parts[i]
    decreases |s|
  {
    if |s| == 0 then [""]
    else
      var rest := SplitAll(s[1..], c);
      if s[0] == c then [""] + rest
      else [[s[0]] + rest[0]] + rest[1..]
  }

  /** The pieces joined with `c` between consecutive ones. */
  function Join(parts: seq<string>, c: char): string
    requires |parts| >= 1
    decreases |parts|
  {
    if |parts| == 1 then parts[0] else parts[0] + [c] + Join(parts[1..], c)
  }

  /** The pieces without their trailing run of empty strings. */
  function DropTrailingEmpty(parts: seq<string>): (r: seq<string>)
    ensures |r| <= |parts| && r == parts[..|r|]
    ensures |r| > 0 ==> r[|r| - 1] != ""
    ensures forall i :: |r| <= i < |parts| ==> parts[i] == ""
    decreases |parts|
  {
    if |parts| == 0 then []
    else if parts[|parts| - 1] == "" then DropTrailingEmpty(parts[..|parts| - 1])
    else parts
  }

  /** String.split with a one-character separator that is not a regular-expression
      metacharacter: a string without the separator (the empty string included) gives
      itself alone; otherwise every piece, with the trailing empty pieces dropped. */
  function JavaSplit(s: string, c: char): (parts: seq<string>)
    ensures forall i :: 0 <= i < |parts| ==> c !in parts[i]
    ensures c !in s ==> parts == [s]
  {
    if c !in s then [s] else DropTrailingEmpty(SplitAll(s, c))
  }

  lemma {:induction false} SplitAllNoSeparator(s: string, c: char)
    requires c !in s
    ensures SplitAll(s, c) == [s]
    decreases |s|
  {
    if |s| > 0 {
      SplitAllNoSeparator(s[1..], c);
      assert [s[0]] + s[1..] == s;
    }
  }

  lemma {:induction false} SplitAllPiece(t: string, c: char, rest: string)
    requires c !in t
    ensures SplitAll(t + [c] + rest, c) == [t] + SplitAll(rest, c)
    decreases |t|
  {
    var s := t + [c] + rest;
    if |t| == 0 {
      assert s[1..] == rest;
    } else {
      assert s[1..] == t[1..] + [c] + rest;
      SplitAllPiece(t[1..], c, rest);
      assert [t[0]] + t[1..] == t;
    }
  }

  /** Splitting undoes joining when no piece holds the separator. */
  lemma {:induction false} SplitAllJoin(parts: seq<string>, c: char)
    requires |parts| >= 1
    requires forall i :: 0 <= i < |parts| ==> c !in parts[i]
    ensures SplitAll(Join(parts, c), c) == parts
    decreases |parts|
  {
    if |parts| == 1 {
      SplitAllNoSeparator(parts[0], c);
    } else {
      SplitAllJoin(parts[1..], c);
      SplitAllPiece(parts[0], c, Join(parts[1..], c));
    }
  }

  /** Joining undoes splitting: no character is lost or added. */
  lemma {:induction false} JoinSplitAll(s: string, c: char)
    ensures Join(SplitAll(s, c), c) == s
    decreases |s|
  {
    if |s| > 0 {
      JoinSplitAll(s[1..], c);
      var rest := SplitAll(s[1..], c);
      if s[0] == c {
        assert Join([""] + rest, c) == "" + [c] + Join(rest, c);
      } else if |rest| > 1 {
        var p := [[s[0]] + rest[0]] + rest[1..];
        assert p[1..] == rest[1..];
        assert Join(p, c) == [s[0]] + rest[0] + [c] + Join(rest[1..], c);
      }
      assert [s[0]] + s[1..] == s;
    }
  }

  lemma {:induction false} JoinAppend(parts: seq<string>, c: char, last: string)
    requires |parts| >= 1
    ensures Join(parts + [last], c) == Join(parts, c) + [c] + last
    decreases |parts|
  {
    if |parts| > 1 {
      assert (parts + [last])[1..] == parts[1..] + [last];
      JoinAppend(parts[1..], c, last);
    }
  }

  /** String.split gives back the joined pieces when none holds the separator and the
      last one is not empty. */
  lemma JavaSplitJoin(parts: seq<string>, c: char)
    requires |parts| >= 1
    requires forall i :: 0 <= i < |parts| ==> c !in parts[i]
    requires parts[|parts| - 1] != ""
    ensures JavaSplit(Join(parts, c), c) == parts
  {
    var s := Join(parts, c);
    if |parts| > 1 {
      assert s[|parts[0]|] == c;
      SplitAllJoin(parts, c);
    }
  }

  /** A text that ends in the separator splits into the pieces before it: the empty piece
      after the final separator is dropped. */
  lemma JavaSplitJoinTrailing(parts: seq<string>, c: char)
    requires |parts| >= 1
    requires forall i :: 0 <= i < |parts| ==> c !in parts[i]
    requires parts[|parts| - 1] != ""
    ensures JavaSplit(Join(parts, c) + [c], c) == parts
  {
    var all := parts + [""];
    JoinAppend(parts, c, "");
    var s := Join(parts, c) + [c];
    assert s[|s| - 1] == c;
    assert Join(all, c) == s;
    SplitAllJoin(all, c);
    assert all[..|parts|] == parts;
  }

  // ---------------------------------------------------------------- integers as text

  predicate IsDigit(ch: char) {
    '0' <= ch <= '9'
  }

  predicate AllDigits(s: string) {
    forall i :: 0 <= i < |s| ==> IsDigit(s[i])
  }

  /** The value of a run of decimal digits, or None when some character is not a digit. */
  function DigitsValue(s: string): (r: Option<nat>)
    ensures r.Some? <==> AllDigits(s)
    decreases |s|
  {
    if |s| == 0 then Some(0)
    else
      var last := s[|s| - 1];
      match DigitsValue(s[..|s| - 1])
      case Some(v) => if IsDigit(last) then Some(v * 10 + (last as int - '0' as int)) else None
      case None => None
  }

  /** Integer.parseInt: an optional sign and at least one decimal digit, in the int range;
      anything else is a NumberFormatException (None). */
  function ParseInt(s: string): (r: Option<int>)
    ensures r.Some? ==> IsInt32(r.value)
    ensures |s| == 0 ==> r == None
  {
    var signed := |s| > 0 && (s[0] == '-' || s[0] == '+');
    var digits := if signed then s[1..] else s;
    if |digits| == 0 then None
    else match DigitsValue(digits)
      case None => None
      case Some(n) =>
        var v: int := if s[0] == '-' then 0 - (n as int) else n as int;
        if IsInt32(v) then Some(v) else None
  }

  function DigitChar(d: nat): char
    requires d < 10
  {
    ('0' as int + d) as char
  }

  function NatToString(n: nat): (s: string)
    ensures |s| > 0 && AllDigits(s)
    decreases n
  {
    if n < 10 then [DigitChar(n)] else NatToString(n / 10) + [DigitChar(n % 10)]
  }

  /** Integer.toString (and the int operand of string concatenation). */
  function IntToString(n: int): string {
    if n < 0 then "-" + NatToString(-n) else NatToString(n)
  }

  lemma {:induction false} NatToStringValue(n: nat)
    ensures DigitsValue(NatToString(n)) == Some(n)
    decreases n
  {
    if n >= 10 {
      NatToStringValue(n / 10);
      var s := NatToString(n / 10);
      assert (s + [DigitChar(n % 10)])[..|s|] == s;
    } else {
      assert NatToString(n)[..0] == "";
    }
  }

  /** Integer.parseInt reads back every int that Integer.toString writes. */
  lemma ParseIntToString(n: int)
    requires IsInt32(n)
    ensures ParseInt(IntToString(n)) == Some(n)
  {
    NatToStringValue(if n < 0 then -n else n);
    if n < 0 {
      assert IntToString(n)[1..] == NatToString(-n);
    }
  }

  /** Text printed from an int never holds a tab or any other non-digit except a leading '-'. */
  lemma IntToStringChars(n: int, c: char)
    requires c != '-' && !IsDigit(c)
    ensures c !in IntToString(n)
  {
    var d := NatToString(if n < 0 then -n else n);
    assert c !in d by {
      forall i | 0 <= i < |d| ensures d[i] != c { }
    }
  }
}
