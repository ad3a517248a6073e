/**
 * The .NET string operations the billing code relies on: Int32 parsing and formatting,
 * ASCII case mapping, the regular expression `\s+` replaced by "", Substring, and the
 * ordinal ordering of strings.
 */
module Text {
  import opened Wrappers

  const Int32Min: int := -0x8000_0000
  const Int32Max: int := 0x7FFF_FFFF

  predicate IsInt32(x: int) { Int32Min <= x <= Int32Max }

  /** Two's-complement wrap-around of unchecked Int32 arithmetic. */
  function Wrap32(x: int): (r: int)
    ensures IsInt32(r)
    ensures IsInt32(x) ==> r == x
    ensures (r - x) % 0x1_0000_0000 == 0
  {
    (x - Int32Min) % 0x1_0000_0000 + Int32Min
  }

  // ---------------------------------------------------------------- digits

  predicate IsDigit(c: char) { '0' <= c <= '9' }

  predicate AllDigits(s: string) { forall i :: 0 <= i < |s| ==> IsDigit(s[i]) }

  function DigitValue(c: char): nat
    requires IsDigit(c)
  {
    c as int - '0' as int
  }

  function DigitChar(d: nat): (c: char)
    requires d < 10
    ensures IsDigit(c) && DigitValue(c) == d
  {
    ('0' as int + d) as char
  }

  /** The value of a string of decimal digits, most significant first. */
  function DigitsValue(s: string): nat
    requires AllDigits(s)
  {
    if |s| == 0 then 0 else DigitsValue(s[..|s| - 1]) * 10 + DigitValue(s[|s| - 1])
  }

  /** The shortest decimal spelling of n. */
  function NatToString(n: nat): (s: string)
    ensures |s| > 0 && AllDigits(s)
    decreases n
  {
    if n < 10 then [DigitChar(n)] else NatToString(n / 10) + [DigitChar(n % 10)]
  }

  lemma {:induction false} NatToStringValue(n: nat)
    ensures DigitsValue(NatToString(n)) == n
    decreases n
  {
    if n >= 10 {
      NatToStringValue(n / 10);
      var s := NatToString(n);
      assert s[..|s| - 1] == NatToString(n / 10);
    }
  }

  /** Int32.ToString() in the invariant culture. */
  function Int32ToString(i: int): string
  {
    if i < 0 then "-" + NatToString(-i) else NatToString(i)
  }

  // ---------------------------------------------------------------- parsing

  /** The white space NumberStyles.Integer accepts around a number: U+0009..U+000D and U+0020. */
  predicate IsNumberWhite(c: char) { c == ' ' || '\t' <= c <= '\r' }

  function TrimStartWhite(s: string): (r: string)
    ensures |r| <= |s|
    ensures |r| > 0 ==> !IsNumberWhite(r[0])
    ensures (|s| == 0 || !IsNumberWhite(s[0])) ==> r == s
  {
    if |s| > 0 && IsNumberWhite(s[0]) then TrimStartWhite(s[1..]) else s
  }

  function TrimEndWhite(s: string): (r: string)
    ensures |r| <= |s|
    ensures |r| > 0 ==> r[0] == s[0]
    ensures (|s| == 0 || !IsNumberWhite(s[|s| - 1])) ==> r == s
  {
    if |s| > 0 && IsNumberWhite(s[|s| - 1]) then TrimEndWhite(s[..|s| - 1]) else s
  }

  /**
   * int.Parse(s) for a non-null s: optional surrounding white space, an optional '+' or '-',
   * then one or more ASCII digits; FormatException otherwise, OverflowException outside Int32.
   */
  function ParseInt32(s: string): (r: Result<int>)
    ensures r.Ok? ==> IsInt32(r.value)
    ensures r.Err? ==> r.fault == FormatError || r.fault == OverflowError
  {
    var t := TrimEndWhite(TrimStartWhite(s));
    var signed := |t| > 0 && (t[0] == '-' || t[0] == '+');
    var digits := if signed then t[1..] else t;
    if |digits| == 0 || !AllDigits(digits) then Err(FormatError)
    else
      var v: int := if signed && t[0] == '-' then -(DigitsValue(digits) as int) else DigitsValue(digits);
      if IsInt32(v) then Ok(v) else Err(OverflowError)
  }

  /** int.TryParse(s, out n) followed by a use of n: the parsed value, or 0 for null or unparseable s. */
  function TryParseInt32(s: Option<string>): (r: int)
    ensures IsInt32(r)
    ensures s.Some? && ParseInt32(s.value).Ok? ==> r == ParseInt32(s.value).value
    ensures r != 0 ==> s.Some? && ParseInt32(s.value) == Ok(r)
  {
    match s
    case None => 0
    case Some(str) => if ParseInt32(str).Ok? then ParseInt32(str).value else 0
  }

  /** Int32 formatting and parsing are inverse: int.Parse(i.ToString()) == i. */
  lemma {:induction false} ParseInt32OfToString(i: int)
    requires IsInt32(i)
    ensures ParseInt32(Int32ToString(i)) == Ok(i)
  {
    var s := Int32ToString(i);
    var n: nat := if i < 0 then -i else i;
    NatToStringValue(n);
    var d := NatToString(n);
    assert !IsNumberWhite(d[0]) && !IsNumberWhite(d[|d| - 1]);
    if i < 0 {
      assert s == "-" + d;
      assert TrimStartWhite(s) == s;
      assert TrimEndWhite(s) == s by { assert s[|s| - 1] == d[|d| - 1]; }
      assert s[1..] == d;
    } else {
      assert TrimStartWhite(s) == s;
      assert TrimEndWhite(s) == s;
      assert !(s[0] == '-' || s[0] == '+');
    }
  }

  // ---------------------------------------------------------------- case mapping

  function UpperChar(c: char): char { if 'a' <= c <= 'z' then (c as int - 32) as char else c }

  function LowerChar(c: char): char { if 'A' <= c <= 'Z' then (c as int + 32) as char else c }

  /** string.ToUpper(), restricted to the ASCII letters. */
  function ToUpper(s: string): (r: string)
    ensures |r| == |s| && forall i :: 0 <= i < |s| ==> r[i] == UpperChar(s[i])
  {
    seq(|s|, i requires 0 <= i < |s| => UpperChar(s[i]))
  }

  /** string.ToLower(), restricted to the ASCII letters. */
  function ToLower(s: string): (r: string)
    ensures |r| == |s| && forall i :: 0 <= i < |s| ==> r[i] == LowerChar(s[i])
  {
    seq(|s|, i requires 0 <= i < |s| => LowerChar(s[i]))
  }

  /** A one-letter flag upper-cases to the letter L exactly when it is L or its lower-case form. */
  lemma ToUpperIsLetter(s: string, upper: char)
    requires 'A' <= upper <= 'Z'
    ensures ToUpper(s) == [upper] <==> s == [upper] || s == [LowerChar(upper)]
  {
    if ToUpper(s) == [upper] {
      assert |s| == 1 && UpperChar(s[0]) == upper;
    }
  }

  // ---------------------------------------------------------------- Regex.Replace(s, @"\s+", "")

  /** .NET's `\s`: [\f\n\r\t\v\x85\p{Z}]. */
  predicate IsRegexSpace(c: char)
  {
    ('\t' <= c <= '\r') || c == ' ' || c == '\U{85}' || c == '\U{A0}' || c == '\U{1680}'
    || ('\U{2000}' <= c <= '\U{200A}') || c == '\U{2028}' || c == '\U{2029}'
    || c == '\U{202F}' || c == '\U{205F}' || c == '\U{3000}'
  }

  /** Regex.Replace(s, @"\s+", ""): every run of white space removed. */
  function RemoveWhiteSpace(s: string): (r: string)
    ensures |r| <= |s|
  {
    if |s| == 0 then ""
    else (if IsRegexSpace(s[0]) then "" else [s[0]]) + RemoveWhiteSpace(s[1..])
  }

  lemma {:induction false} RemoveWhiteSpaceLeavesNone(s: string)
    ensures forall i :: 0 <= i < |RemoveWhiteSpace(s)| ==> !IsRegexSpace(RemoveWhiteSpace(s)[i])
  {
    if |s| > 0 { RemoveWhiteSpaceLeavesNone(s[1..]); }
  }

  lemma {:induction false} RemoveWhiteSpaceKeepsOthers(s: string)
    requires forall i :: 0 <= i < |s| ==> !IsRegexSpace(s[i])
    ensures RemoveWhiteSpace(s) == s
  {
    if |s| > 0 { RemoveWhiteSpaceKeepsOthers(s[1..]); }
  }

  lemma {:induction false} RemoveWhiteSpaceAppend(a: string, b: string)
    ensures RemoveWhiteSpace(a + b) == RemoveWhiteSpace(a) + RemoveWhiteSpace(b)
  {
    if |a| > 0 {
      assert (a + b)[1..] == a[1..] + b;
      RemoveWhiteSpaceAppend(a[1..], b);
    } else {
      assert a + b == b;
    }
  }

  /** Stripping twice strips nothing more. */
  lemma RemoveWhiteSpaceIdempotent(s: string)
    ensures RemoveWhiteSpace(RemoveWhiteSpace(s)) == RemoveWhiteSpace(s)
  {
    RemoveWhiteSpaceLeavesNone(s);
    RemoveWhiteSpaceKeepsOthers(RemoveWhiteSpace(s));
  }

  // ---------------------------------------------------------------- Substring

  /** s.Substring(start): ArgumentOutOfRangeException when start exceeds the length. */
  function Substring(s: string, start: nat): (r: Result<string>)
    ensures r.Ok? <==> start <= |s|
    ensures r.Ok? ==> r.value == s[start..]
  {
    if start <= |s| then Ok(s[start..]) else Err(ArgumentOutOfRange)
  }

  // ---------------------------------------------------------------- ordering

  /** Ordinal (code point) lexicographic order on strings. */
  predicate LexLeq(a: string, b: string)
    decreases |a|
  {
    |a| == 0 || (|b| > 0 && (a[0] < b[0] || (a[0] == b[0] && LexLeq(a[1..], b[1..]))))
  }

  lemma {:induction false} LexLeqTotal(a: string, b: string)
    ensures LexLeq(a, b) || LexLeq(b, a)
    decreases |a|
  {
    if |a| > 0 && |b| > 0 && a[0] == b[0] { LexLeqTotal(a[1..], b[1..]); }
  }

  lemma {:induction false} LexLeqTransitive(a: string, b: string, c: string)
    requires LexLeq(a, b) && LexLeq(b, c)
    ensures LexLeq(a, c)
    decreases |a|
  {
    if |a| > 0 && a[0] == b[0] && b[0] == c[0] { LexLeqTransitive(a[1..], b[1..], c[1..]); }
  }

  lemma {:induction false} LexLeqAntisymmetric(a: string, b: string)
    requires LexLeq(a, b) && LexLeq(b, a)
    ensures a == b
    decreases |a|
  {
    if |a| > 0 {
      LexLeqAntisymmetric(a[1..], b[1..]);
      assert a == [a[0]] + a[1..] && b == [b[0]] + b[1..];
    }
  }

  /** Comparer<string>.Default's treatment of null: null sorts before every string. */
  predicate OptLexLeq(a: Option<string>, b: Option<string>)
  {
    a.None? || (b.Some? && LexLeq(a.value, b.value))
  }
}
