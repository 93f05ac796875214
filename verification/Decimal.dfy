/** Decimal printing and parsing as std::to_string, std::stoi and std::stoll do it. */
module Decimal {
  import opened Wrappers

  const INT32_MAX := 0x7fff_ffff
  const INT64_MAX := 0x7fff_ffff_ffff_ffff

  type Int64 = n: int | -INT64_MAX - 1 <= n <= INT64_MAX

  /** std::invalid_argument and std::out_of_range. */
  datatype NumberError = InvalidArgument | OutOfRange

  predicate IsDigit(c: char) { '0' <= c <= '9' }

  predicate IsSpace(c: char) { c == ' ' || '\t' <= c <= '\r' }

  function DigitValue(c: char): nat
    requires IsDigit(c)
  {
    c as int - '0' as int
  }

  function NatToString(n: nat): (s: string)
    ensures |s| >= 1 && forall i :: 0 <= i < |s| ==> IsDigit(s[i])
  {
    if n < 10 then [('0' as int + n) as char] else NatToString(n / 10) + NatToString(n % 10)
  }

  function IntToString(n: int): (s: string)
    ensures |s| >= 1 && (IsDigit(s[0]) || s[0] == '-')
    ensures forall i :: 1 <= i < |s| ==> IsDigit(s[i])
  {
    if n < 0 then "-" + NatToString(-n) else NatToString(n)
  }

  /** Length of the longest prefix of digits. */
  function DigitRun(s: string): (k: nat)
    ensures k <= |s| && (forall i :: 0 <= i < k ==> IsDigit(s[i])) && (k < |s| ==> !IsDigit(s[k]))
  {
    if s == "" || !IsDigit(s[0]) then 0 else 1 + DigitRun(s[1..])
  }

  function DigitsValue(s: string): nat
    requires forall i :: 0 <= i < |s| ==> IsDigit(s[i])
  {
    if s == "" then 0 else 10 * DigitsValue(s[..|s| - 1]) + DigitValue(s[|s| - 1])
  }

  function SkipSpace(s: string): string {
    if s != "" && IsSpace(s[0]) then SkipSpace(s[1..]) else s
  }

  /** Blanks, an optional sign, then digits up to the first other character; None without a digit. */
  function ParsePrefix(s: string): Option<int> {
    var t := SkipSpace(s);
    var signed := t != "" && (t[0] == '-' || t[0] == '+');
    var body := if signed then t[1..] else t;
    var k := DigitRun(body);
    if k == 0 then None
    else
      var magnitude: int := DigitsValue(body[..k]);
      Some(if signed && t[0] == '-' then -magnitude else magnitude)
  }

  function Bounded(s: string, max: int): Result<int, NumberError> {
    match ParsePrefix(s)
    case None => Err(InvalidArgument)
    case Some(n) => if -max - 1 <= n <= max then Ok(n) else Err(OutOfRange)
  }

  function Stoi(s: string): Result<int, NumberError> { Bounded(s, INT32_MAX) }

  function Stoll(s: string): Result<int, NumberError> { Bounded(s, INT64_MAX) }

  lemma {:induction false} DigitsOfNat(n: nat)
    ensures DigitsValue(NatToString(n)) == n
  {
    var s := NatToString(n);
    if n >= 10 {
      DigitsOfNat(n / 10);
      assert s[..|s| - 1] == NatToString(n / 10);
    } else {
      assert s[..|s| - 1] == "";
    }
  }

  lemma {:induction false} DigitRunAppend(s: string, tail: string)
    requires forall i :: 0 <= i < |s| ==> IsDigit(s[i])
    requires tail != "" ==> !IsDigit(tail[0])
    ensures DigitRun(s + tail) == |s|
  {
    assert forall i :: 0 <= i < |s| ==> (s + tail)[i] == s[i];
    assert tail != "" ==> (s + tail)[|s|] == tail[0];
  }

  /** A printed integer parses back to itself whatever follows, unless a digit follows. */
  lemma {:induction false} PrintParse(n: int, tail: string)
    requires tail != "" ==> !IsDigit(tail[0])
    ensures ParsePrefix(IntToString(n) + tail) == Some(n)
  {
    var s := IntToString(n) + tail;
    var digits := NatToString(if n < 0 then -n else n);
    assert SkipSpace(s) == s;
    var body := if n < 0 then s[1..] else s;
    assert body == digits + tail;
    DigitRunAppend(digits, tail);
    assert body[..|digits|] == digits;
    DigitsOfNat(if n < 0 then -n else n);
  }

  /** A text is no number unless it starts with a digit, a sign or a blank; the blanks are those of
      isspace, the codes 9 to 13 and 32. */
  lemma {:induction false} NumberStarts(text: string)
    requires ParsePrefix(text).Some?
    ensures text != "" && (IsDigit(text[0]) || text[0] in "+-" || text[0] as int in {9, 10, 11, 12, 13, 32})
  {
    assert text != "" && !IsSpace(text[0]) ==> SkipSpace(text) == text;
  }

  /** Blanks in front are skipped, and so is a plus sign. */
  lemma {:induction false} BlanksAndPlus(blanks: string, n: nat)
    requires forall i :: 0 <= i < |blanks| ==> blanks[i] as int in {9, 10, 11, 12, 13, 32}
    ensures ParsePrefix(blanks + "+" + NatToString(n)) == Some(n)
  {
    var t := "+" + NatToString(n);
    assert blanks + "+" + NatToString(n) == blanks + t;
    BlanksAreSkipped(blanks, t);
    assert t[1..] == NatToString(n);
    DigitRunAppend(NatToString(n), "");
    assert NatToString(n) + "" == NatToString(n) == NatToString(n)[..|NatToString(n)|];
    DigitsOfNat(n);
  }

  lemma {:induction false} BlanksAreSkipped(blanks: string, t: string)
    requires forall i :: 0 <= i < |blanks| ==> IsSpace(blanks[i])
    ensures SkipSpace(blanks + t) == SkipSpace(t)
  {
    if blanks == "" {
      assert blanks + t == t;
    } else {
      assert (blanks + t)[1..] == blanks[1..] + t;
      BlanksAreSkipped(blanks[1..], t);
    }
  }

  lemma {:induction false} PrintParseExact(n: int)
    ensures ParsePrefix(IntToString(n)) == Some(n)
  {
    PrintParse(n, "");
    assert IntToString(n) + "" == IntToString(n);
  }

  lemma {:induction false} IntToStringInjective(m: int, n: int)
    requires IntToString(m) == IntToString(n)
    ensures m == n
  {
    PrintParseExact(m);
    PrintParseExact(n);
  }

  lemma {:induction false} PrefixValueBound(s: string, k: nat)
    requires forall i :: 0 <= i < |s| ==> IsDigit(s[i])
    requires k <= |s|
    ensures DigitsValue(s[..k]) <= DigitsValue(s)
  {
    if k == |s| {
      assert s[..k] == s;
    } else {
      PrefixValueBound(s[..|s| - 1], k);
      assert s[..|s| - 1][..k] == s[..k];
    }
  }

  /** A cut-off number still parses, to something no larger than the whole. */
  lemma {:induction false} TruncatedNumber(n: nat, k: nat)
    requires 1 <= k <= |NatToString(n)|
    ensures ParsePrefix(NatToString(n)[..k]).Some?
    ensures 0 <= ParsePrefix(NatToString(n)[..k]).value <= n
  {
    var s := NatToString(n)[..k];
    PrefixValueBound(NatToString(n), k);
    DigitsOfNat(n);
    assert SkipSpace(s) == s;
    DigitRunAppend(s, "");
    assert s + "" == s && s[..|s|] == s;
  }

  lemma {:induction false} DigitsShortest(s: string)
    requires |s| >= 1 && forall i :: 0 <= i < |s| ==> IsDigit(s[i])
    ensures |NatToString(DigitsValue(s))| <= |s|
    ensures |NatToString(DigitsValue(s))| == |s| ==> s == NatToString(DigitsValue(s))
  {
    var d := DigitValue(s[|s| - 1]);
    assert s == s[..|s| - 1] + [s[|s| - 1]];
    if |s| > 1 {
      var n := DigitsValue(s[..|s| - 1]);
      assert (10 * n + d) / 10 == n && (10 * n + d) % 10 == d;
      DigitsShortest(s[..|s| - 1]);
    }
  }

  lemma {:induction false} ZerosAddNothing(zeros: string, s: string)
    requires forall i :: 0 <= i < |zeros| ==> zeros[i] == '0'
    requires forall i :: 0 <= i < |s| ==> IsDigit(s[i])
    ensures DigitsValue(zeros + s) == DigitsValue(s)
    decreases |zeros| + |s|
  {
    if s != "" {
      assert (zeros + s)[..|zeros + s| - 1] == zeros + s[..|s| - 1];
      ZerosAddNothing(zeros, s[..|s| - 1]);
    } else if zeros != "" {
      assert zeros + s == zeros;
      assert zeros[..|zeros| - 1] + "" == zeros[..|zeros| - 1];
      ZerosAddNothing(zeros[..|zeros| - 1], "");
    }
  }

  /** Zeros in front of a number change nothing. */
  lemma {:induction false} LeadingZeros(zeros: string, n: nat)
    requires forall i :: 0 <= i < |zeros| ==> zeros[i] == '0'
    ensures ParsePrefix(zeros + NatToString(n)) == Some(n)
  {
    hide NatToString;
    var s := zeros + NatToString(n);
    assert SkipSpace(s) == s;
    ZerosAddNothing(zeros, NatToString(n));
    DigitsOfNat(n);
    DigitRunAppend(s, "");
    assert s + "" == s == s[..|s|];
  }

  lemma {:induction false} SkipSpaceShortens(s: string)
    ensures |SkipSpace(s)| <= |s| && (|SkipSpace(s)| == |s| ==> SkipSpace(s) == s)
  {
    if s != "" && IsSpace(s[0]) { SkipSpaceShortens(s[1..]); }
  }

  /** The digits of a text that parses, and how the number is made of them. */
  lemma ParsedDigits(t: string) returns (digits: string, signed: bool)
    requires t == "" || !IsSpace(t[0])
    requires ParsePrefix(t).Some?
    ensures t != "" && |digits| >= 1 && forall i :: 0 <= i < |digits| ==> IsDigit(digits[i])
    ensures signed <==> t[0] == '-' || t[0] == '+'
    ensures digits <= if signed then t[1..] else t
    ensures ParsePrefix(t).value == if t[0] == '-' then 0 - DigitsValue(digits) else DigitsValue(digits)
  {
    signed := t != "" && (t[0] == '-' || t[0] == '+');
    var body := if signed then t[1..] else t;
    digits := body[..DigitRun(body)];
    assert SkipSpace(t) == t;
  }

  lemma SkippedParses(s: string)
    ensures var t := SkipSpace(s); ParsePrefix(t) == ParsePrefix(s) && (t == "" || !IsSpace(t[0]))
  {
    SkippedTwice(s);
  }

  lemma {:induction false} SkippedTwice(s: string)
    ensures var t := SkipSpace(s); SkipSpace(t) == t && (t == "" || !IsSpace(t[0]))
  {
    if s != "" && IsSpace(s[0]) { SkippedTwice(s[1..]); }
  }

  /** Among all texts that parse to n the printed one is the only shortest. */
  lemma {:induction false} PrintIsShortest(s: string, n: int)
    requires ParsePrefix(s) == Some(n)
    ensures |IntToString(n)| <= |s|
    ensures |IntToString(n)| == |s| <==> s == IntToString(n)
  {
    hide ParsePrefix, SkipSpace, DigitsValue, NatToString;
    SkipSpaceShortens(s);
    SkippedParses(s);
    var t := SkipSpace(s);
    var digits, signed := ParsedDigits(t);
    DigitsShortest(digits);
    if signed {
      assert t == [t[0]] + t[1..];
      if |digits| == |t| - 1 { assert t[1..] == digits; }
    } else if |digits| == |t| {
      assert t == digits;
    }
  }
}
