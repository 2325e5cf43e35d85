/**
 * The few java.lang.String / java.lang.Integer behaviours the modelled code
 * relies on, written out over Dafny strings (sequences of characters).
 */
module JavaText {

  import opened Wrappers

  /** Integer.MAX_VALUE. */
  const MaxInt: int := 0x7fff_ffff

  /** Sign of an integer: the only part of a Java comparator result that matters. */
  function Sign(x: int): (s: int)
    ensures -1 <= s <= 1
    ensures (s < 0 <==> x < 0) && (s == 0 <==> x == 0)
  {
    if x < 0 then -1 else if x == 0 then 0 else 1
  }

  /** String.startsWith. */
  predicate StartsWith(s: string, prefix: string)
  {
    |prefix| <= |s| && s[..|prefix|] == prefix
  }

  /** String.endsWith. */
  predicate EndsWith(s: string, suffix: string)
  {
    |suffix| <= |s| && s[|s| - |suffix|..] == suffix
  }

  lemma EndsWithConcat(a: string, b: string)
    ensures EndsWith(a + b, b)
  {
    assert (a + b)[|a|..] == b;
  }

  lemma EndsWithSplit(s: string, suffix: string)
    requires EndsWith(s, suffix)
    ensures s == s[..|s| - |suffix|] + suffix
  {
  }

  lemma StartsWithConcat(a: string, b: string)
    ensures StartsWith(a + b, a)
  {
    assert (a + b)[..|a|] == a;
  }

  /** Digits accepted by the regular expression class \d (ASCII only by default). */
  predicate IsAsciiDigit(c: char)
  {
    '0' <= c <= '9'
  }

  predicate AllAsciiDigits(s: string)
  {
    forall i | 0 <= i < |s| :: IsAsciiDigit(s[i])
  }

  function DigitChar(d: nat): (c: char)
    requires d < 10
    ensures IsAsciiDigit(c) && c as int - '0' as int == d
  {
    ('0' as int + d) as char
  }

  /** c - '0' in Java: the character's code minus the code of '0', for any character. */
  function DigitValue(c: char): int
  {
    c as int - '0' as int
  }

  /** Decimal text of a non-negative integer, without leading zeros. */
  function NatToString(n: nat): (s: string)
    ensures |s| >= 1 && AllAsciiDigits(s)
    ensures s[0] == '0' ==> n == 0
    ensures n < 10 <==> |s| == 1
    decreases n
  {
    if n < 10 then [DigitChar(n)] else NatToString(n / 10) + [DigitChar(n % 10)]
  }

  /** Integer.toString (also what StringBuilder.append(int) and "" + i produce). */
  function IntToString(i: int): (s: string)
    ensures |s| >= 1
    ensures i >= 0 ==> AllAsciiDigits(s)
    ensures i < 0 ==> s[0] == '-'
    ensures IsAsciiDigit(s[|s| - 1])
    ensures forall k | 0 <= k < |s| :: IsAsciiDigit(s[k]) || s[k] == '-'
  {
    if i < 0 then "-" + NatToString(-i) else NatToString(i)
  }

  /** The value of a string of ASCII digits read in base 10 (leading zeros allowed). */
  function DigitsValue(s: string): nat
    requires AllAsciiDigits(s)
  {
    if s == [] then 0 else DigitsValue(s[..|s| - 1]) * 10 + DigitValue(s[|s| - 1])
  }

  function Pow10(k: nat): (p: nat)
    ensures p >= 1
  {
    if k == 0 then 1 else 10 * Pow10(k - 1)
  }

  /** k digits are worth less than 10^k. */
  lemma {:induction false} DigitsValueBound(s: string)
    requires AllAsciiDigits(s)
    ensures DigitsValue(s) < Pow10(|s|)
    decreases |s|
  {
    if s != [] {
      DigitsValueBound(s[..|s| - 1]);
    }
  }

  /** Reading back the decimal text of n gives n. */
  lemma {:induction false} DigitsValueOfNatToString(n: nat)
    ensures DigitsValue(NatToString(n)) == n
    decreases n
  {
    if n >= 10 {
      var s := NatToString(n / 10) + [DigitChar(n % 10)];
      assert s[..|s| - 1] == NatToString(n / 10);
      DigitsValueOfNatToString(n / 10);
    }
  }

  lemma {:induction false} DigitsValuePositive(s: string)
    requires AllAsciiDigits(s) && |s| >= 1 && s[0] != '0'
    ensures DigitsValue(s) >= 1
    decreases |s|
  {
    if |s| > 1 {
      DigitsValuePositive(s[..|s| - 1]);
    }
  }

  /** Printing the value of a digit string without leading zeros gives the string back. */
  lemma {:induction false} NatToStringOfDigitsValue(s: string)
    requires AllAsciiDigits(s) && |s| >= 1 && (s[0] != '0' || |s| == 1)
    ensures NatToString(DigitsValue(s)) == s
    decreases |s|
  {
    if |s| > 1 {
      var p := s[..|s| - 1];
      DigitsValuePositive(p);
      NatToStringOfDigitsValue(p);
      var v := DigitsValue(s);
      assert v / 10 == DigitsValue(p) && v % 10 == DigitValue(s[|s| - 1]);
      assert s == p + [s[|s| - 1]];
    }
  }

  /**
   * Integer.parseInt restricted to ASCII digits: an optional sign, then at
   * least one digit '0'..'9', the value within the 32-bit range; anything
   * else is a NumberFormatException. The other Unicode decimal digits that
   * Java's Character.digit also accepts are rejected here.
   */
  function ParseInt(s: string): (r: Result<int, Error>)
    ensures r.Success? ==> -MaxInt - 1 <= r.value <= MaxInt
    ensures r.Failure? ==> r.error == NumberFormat
    ensures s == [] ==> r.Failure?
    ensures r.Success? && s[0] != '-' ==> r.value >= 0
  {
    if s == [] then Failure(NumberFormat)
    else
      var digits := if s[0] == '-' || s[0] == '+' then s[1..] else s;
      if digits == [] || !AllAsciiDigits(digits) then Failure(NumberFormat)
      else if s[0] == '-' then
        (if DigitsValue(digits) <= MaxInt + 1 then Success(0 - DigitsValue(digits) as int) else Failure(NumberFormat))
      else
        (if DigitsValue(digits) <= MaxInt then Success(DigitsValue(digits)) else Failure(NumberFormat))
  }

  /** On a string of digits, parseInt is the digits' value when it fits in an int. */
  lemma ParseIntDigits(s: string)
    requires |s| >= 1 && AllAsciiDigits(s)
    ensures ParseInt(s) == if DigitsValue(s) <= MaxInt then Success(DigitsValue(s)) else Failure(NumberFormat)
  {
    assert IsAsciiDigit(s[0]);
  }

  /** parseInt reads back what Integer.toString prints, for every int. */
  lemma ParseIntToString(i: int)
    requires -MaxInt - 1 <= i <= MaxInt
    ensures ParseInt(IntToString(i)) == Success(i)
  {
    if i < 0 {
      var s := "-" + NatToString(-i);
      assert s[1..] == NatToString(-i);
      DigitsValueOfNatToString(-i);
    } else {
      ParseIntDigits(NatToString(i));
      DigitsValueOfNatToString(i);
    }
  }

  /**
   * String.compareTo, reduced to its sign: the first differing character
   * decides, otherwise the shorter string comes first.
   */
  function CompareStrings(a: string, b: string): (c: int)
    ensures -1 <= c <= 1
  {
    if a == [] then (if b == [] then 0 else -1)
    else if b == [] then 1
    else if a[0] < b[0] then -1
    else if a[0] > b[0] then 1
    else CompareStrings(a[1..], b[1..])
  }

  lemma {:induction false} CompareStringsAntisymmetric(a: string, b: string)
    ensures CompareStrings(a, b) == -CompareStrings(b, a)
  {
    if a != [] && b != [] && a[0] == b[0] {
      CompareStringsAntisymmetric(a[1..], b[1..]);
    }
  }

  lemma {:induction false} CompareStringsZero(a: string, b: string)
    ensures CompareStrings(a, b) == 0 <==> a == b
  {
    if a != [] && b != [] && a[0] == b[0] {
      CompareStringsZero(a[1..], b[1..]);
      assert a == [a[0]] + a[1..] && b == [b[0]] + b[1..];
    }
  }

  lemma {:induction false} CompareStringsTransitive(a: string, b: string, c: string)
    requires CompareStrings(a, b) <= 0 && CompareStrings(b, c) <= 0
    ensures CompareStrings(a, c) <= 0
  {
    if a != [] && b != [] && c != [] && a[0] == b[0] && b[0] == c[0] {
      CompareStringsTransitive(a[1..], b[1..], c[1..]);
    }
  }

  /** Character.isWhitespace, for the characters a Java String can hold. */
  predicate IsJavaWhitespace(c: char)
  {
    ('\U{9}' <= c <= '\U{D}') || ('\U{1C}' <= c <= ' ')
    || c == '\U{1680}' || ('\U{2000}' <= c <= '\U{2006}') || ('\U{2008}' <= c <= '\U{200A}')
    || c == '\U{2028}' || c == '\U{2029}' || c == '\U{205F}' || c == '\U{3000}'
  }

  /** StringUtil.isBlank: null, empty, or only whitespace. */
  predicate IsBlank(s: Option<string>)
  {
    s.None? || forall i | 0 <= i < |s.value| :: IsJavaWhitespace(s.value[i])
  }

  /** The characters the regular-expression dot does not match. */
  predicate IsLineTerminator(c: char)
  {
    c == '\n' || c == '\r' || c == '\U{85}' || c == '\U{2028}' || c == '\U{2029}'
  }

  predicate NoLineTerminator(s: string)
  {
    forall i | 0 <= i < |s| :: !IsLineTerminator(s[i])
  }

  /** String.replace(c, ""): every occurrence of c removed. */
  function RemoveChar(s: string, c: char): (r: string)
    ensures forall i | 0 <= i < |r| :: r[i] != c
    ensures |r| <= |s|
  {
    if s == [] then []
    else if s[|s| - 1] == c then RemoveChar(s[..|s| - 1], c)
    else RemoveChar(s[..|s| - 1], c) + [s[|s| - 1]]
  }

  lemma {:induction false} RemoveAbsentChar(s: string, c: char)
    requires forall i | 0 <= i < |s| :: s[i] != c
    ensures RemoveChar(s, c) == s
  {
    if s != [] {
      RemoveAbsentChar(s[..|s| - 1], c);
      assert s == s[..|s| - 1] + [s[|s| - 1]];
    }
  }

  /** One character is dropped when it is c and kept otherwise. */
  lemma RemoveCharSingle(x: char, c: char)
    ensures RemoveChar([x], c) == if x == c then [] else [x]
  {
    assert [x][..0] == [];
  }

  lemma {:induction false} RemoveCharConcat(a: string, b: string, c: char)
    ensures RemoveChar(a + b, c) == RemoveChar(a, c) + RemoveChar(b, c)
    decreases |b|
  {
    if b == [] {
      assert a + b == a;
    } else {
      var b' := b[..|b| - 1];
      assert (a + b)[..|a + b| - 1] == a + b';
      RemoveCharConcat(a, b', c);
    }
  }

  /** The letter case of an ASCII letter folded to lower case; other characters unchanged. */
  function AsciiLower(c: char): char
  {
    if 'A' <= c <= 'Z' then (c as int + 32) as char else c
  }

  /** Suffix test under ASCII case folding, what a regular expression with (?i) does. */
  predicate EndsWithIgnoreCase(s: string, suffix: string)
  {
    |suffix| <= |s|
    && forall i | 0 <= i < |suffix| :: AsciiLower(s[|s| - |suffix| + i]) == AsciiLower(suffix[i])
  }

  /** A case-blind suffix test sees only the end of the string: a longer common ending decides it. */
  lemma EndsWithIgnoreCaseOfEnding(s: string, ending: string, suffix: string)
    requires EndsWith(s, ending) && |suffix| <= |ending|
    ensures EndsWithIgnoreCase(s, suffix) == EndsWithIgnoreCase(ending, suffix)
  {
    forall j | 0 <= j < |ending| ensures s[|s| - |ending| + j] == ending[j] {
      assert s[|s| - |ending|..][j] == ending[j];
    }
  }

  /** String.lastIndexOf(c). */
  function LastIndexOf(s: string, c: char): (r: Option<nat>)
    ensures r.Some? ==> r.value < |s| && s[r.value] == c
    ensures r.Some? ==> forall j | r.value < j < |s| :: s[j] != c
    ensures r.None? ==> forall j | 0 <= j < |s| :: s[j] != c
  {
    if s == [] then None
    else if s[|s| - 1] == c then Some(|s| - 1)
    else LastIndexOf(s[..|s| - 1], c)
  }

}
