/** The few Python string operations the core relies on, restricted to ASCII:
    str.strip, str.isdigit, int(str), str(int), str.lower and the ordering
    of str values. */
module Text {
  import opened Wrappers

  /** str.isspace on the ASCII range: tab, line feed, vertical tab, form feed,
      carriage return, the four separators 0x1C..0x1F, and space. */
  predicate IsSpace(c: char) {
    (9 <= c as int <= 13) || (28 <= c as int <= 32)
  }

  predicate IsDigit(c: char) {
    '0' <= c <= '9'
  }

  predicate IsAsciiLetter(c: char) {
    ('A' <= c <= 'Z') || ('a' <= c <= 'z')
  }

  /** A string with no leading and no trailing whitespace. */
  predicate Stripped(s: string) {
    s == [] || (!IsSpace(s[0]) && !IsSpace(s[|s| - 1]))
  }

  function StripLeft(s: string): (r: string)
    ensures |r| <= |s|
    ensures r == [] || !IsSpace(r[0])
    ensures r != [] ==> r[|r| - 1] == s[|s| - 1]
  {
    if |s| > 0 && IsSpace(s[0]) then StripLeft(s[1..]) else s
  }

  function StripRight(s: string): (r: string)
    ensures |r| <= |s|
    ensures r == [] || !IsSpace(r[|r| - 1])
    ensures r != [] ==> r[0] == s[0]
  {
    if |s| > 0 && IsSpace(s[|s| - 1]) then StripRight(s[..|s| - 1]) else s
  }

  /** str.strip(): the input with its leading and trailing whitespace removed. */
  function Strip(s: string): (r: string)
    ensures Stripped(r) && |r| <= |s|
  {
    var t := StripLeft(s);
    var r := StripRight(t);
    assert r != [] ==> r[0] == t[0];
    r
  }

  /** Every character of `s` is whitespace. */
  predicate AllSpace(s: string) {
    forall k :: 0 <= k < |s| ==> IsSpace(s[k])
  }

  /** StripLeft drops a run of leading whitespace and nothing else. */
  lemma {:induction false} StripLeftIsSuffix(s: string)
    ensures StripLeft(s) == s[|s| - |StripLeft(s)|..]
    ensures AllSpace(s[..|s| - |StripLeft(s)|])
  {
    if |s| > 0 && IsSpace(s[0]) {
      var t := s[1..];
      StripLeftIsSuffix(t);
      var i := |t| - |StripLeft(t)|;
      assert t[i..] == s[i + 1..];
      assert s[..i + 1] == [s[0]] + t[..i];
    } else {
      assert s[..0] == [];
    }
  }

  /** StripRight drops a run of trailing whitespace and nothing else. */
  lemma {:induction false} StripRightIsPrefix(s: string)
    ensures StripRight(s) == s[..|StripRight(s)|]
    ensures AllSpace(s[|StripRight(s)|..])
  {
    if |s| > 0 && IsSpace(s[|s| - 1]) {
      var t := s[..|s| - 1];
      StripRightIsPrefix(t);
      var j := |StripRight(t)|;
      assert t[..j] == s[..j];
      assert s[j..] == t[j..] + [s[|s| - 1]];
    } else {
      assert s[|s|..] == [];
    }
  }

  /** str.strip() removes exactly the leading and the trailing whitespace:
      the result is a slice of the input with only whitespace on either side
      of it, and (by the contract of Strip) no whitespace at its own ends. */
  lemma StripRemovesSurroundingSpace(s: string)
    ensures exists i, j ::
      && 0 <= i <= j <= |s| && Strip(s) == s[i..j]
      && (forall k :: 0 <= k < i ==> IsSpace(s[k]))
      && (forall k :: j <= k < |s| ==> IsSpace(s[k]))
  {
    var t := StripLeft(s);
    var i := |s| - |t|;
    StripLeftIsSuffix(s);
    StripRightIsPrefix(t);
    var j := i + |StripRight(t)|;
    assert Strip(s) == StripRight(t);
    assert t[..j - i] == s[i..j];
    assert t[j - i..] == s[j..];
    assert Strip(s) == s[i..j];
    assert forall k :: 0 <= k < i ==> IsSpace(s[k]) by {
      assert forall k :: 0 <= k < i ==> s[k] == s[..i][k];
    }
    assert forall k :: j <= k < |s| ==> IsSpace(s[k]) by {
      assert forall k :: j <= k < |s| ==> s[k] == s[j..][k - j];
    }
  }

  lemma StripOfStripped(s: string)
    requires Stripped(s)
    ensures Strip(s) == s
  {
  }

  /** Stripping twice is the same as stripping once. */
  lemma StripIdempotent(s: string)
    ensures Strip(Strip(s)) == Strip(s)
  {
    StripOfStripped(Strip(s));
  }

  /** str.isdigit(): non-empty and made of digits only. */
  predicate IsDigits(s: string) {
    |s| > 0 && forall k :: 0 <= k < |s| ==> IsDigit(s[k])
  }

  predicate AllDigits(s: string) {
    forall k :: 0 <= k < |s| ==> IsDigit(s[k])
  }

  /** The value of a decimal digit string (leading zeros allowed, as in int()). */
  function DigitsValue(s: string): nat
    requires AllDigits(s)
  {
    if s == [] then 0 else DigitsValue(s[..|s| - 1]) * 10 + (s[|s| - 1] as int - '0' as int)
  }

  /** The information separators 0x1C..0x1F: str.isspace() holds for them,
      but int() does not skip them (it skips only tab to carriage return and space). */
  predicate IsSeparator(c: char) {
    28 <= c as int <= 31
  }

  predicate NoSeparator(s: string) {
    forall k :: 0 <= k < |s| ==> !IsSeparator(s[k])
  }

  /** int(str): optional surrounding whitespace, an optional sign, then one or
      more digits; anything else is a ValueError, here None. A separator
      character anywhere is an error: around the digits int() does not skip
      it, and among them it is not a digit. Without separators the whitespace
      int() skips is exactly what str.strip() removes. */
  function ParseInt(s: string): (r: Option<int>)
    ensures r.Some? ==> exists k :: 0 <= k < |Strip(s)| && IsDigit(Strip(s)[k])
    ensures var t := Strip(s);
      r.Some? <==> NoSeparator(s) && (IsDigits(t) || (|t| > 0 && (t[0] == '-' || t[0] == '+') && IsDigits(t[1..])))
    ensures var t := Strip(s);
      NoSeparator(s) && IsDigits(t) ==> r == Some(DigitsValue(t))
    ensures var t := Strip(s);
      NoSeparator(s) && |t| > 0 && (t[0] == '-' || t[0] == '+') && IsDigits(t[1..]) ==>
        r == Some(if t[0] == '-' then 0 - DigitsValue(t[1..]) as int else DigitsValue(t[1..]) as int)
  {
    var t := Strip(s);
    if !NoSeparator(s) then None
    else if |t| > 0 && (t[0] == '-' || t[0] == '+') then
      if IsDigits(t[1..]) then
        assert IsDigit(t[1..][0]);
        var v: int := DigitsValue(t[1..]);
        Some(if t[0] == '-' then -v else v)
      else None
    else if IsDigits(t) then
      assert IsDigit(t[0]);
      Some(DigitsValue(t))
    else None
  }

  function DigitChar(d: nat): (c: char)
    requires d < 10
    ensures IsDigit(c) && c as int - '0' as int == d
  {
    (('0' as int) + d) as char
  }

  /** str(n) for a natural number: its shortest decimal spelling. */
  function NatToString(n: nat): (r: string)
    ensures IsDigits(r)
    ensures DigitsValue(r) == n
    ensures n == 0 || r[0] != '0'
    decreases n
  {
    if n < 10 then [DigitChar(n)]
    else
      var p := NatToString(n / 10);
      var r := p + [DigitChar(n % 10)];
      assert r[..|r| - 1] == p;
      r
  }

  /** str(i) for any Python int. */
  function IntToString(i: int): string {
    if i < 0 then "-" + NatToString(-i) else NatToString(i)
  }

  /** int(str(i)) == i: the decimal spelling parses back to the same number. */
  lemma {:induction false} ParseIntToString(i: int)
    ensures ParseInt(IntToString(i)) == Some(i)
  {
    var s := IntToString(i);
    var d := NatToString(if i < 0 then -i else i);
    assert !IsSpace(d[0]) && !IsSpace(d[|d| - 1]);
    assert Stripped(s);
    StripOfStripped(s);
    assert NoSeparator(s) by {
      forall k | 0 <= k < |s| ensures !IsSeparator(s[k]) {
        if i < 0 && k > 0 {
          assert s[k] == d[k - 1];
        }
      }
    }
    if i < 0 {
      assert s[1..] == d;
    } else {
      assert s[0] != '-' && s[0] != '+';
    }
  }

  /** str.lower() on ASCII: upper-case letters map to lower case. */
  function LowerChar(c: char): char {
    if 'A' <= c <= 'Z' then ((c as int) + 32) as char else c
  }

  function Lower(s: string): (r: string)
    ensures |r| == |s| && forall k :: 0 <= k < |s| ==> r[k] == LowerChar(s[k])
  {
    seq(|s|, k requires 0 <= k < |s| => LowerChar(s[k]))
  }

  /** After lowering no ASCII capital is left, every other character is kept,
      and lowering again changes nothing. */
  lemma LowerFacts(s: string)
    ensures |Lower(s)| == |s|
    ensures forall k :: 0 <= k < |s| ==> !('A' <= Lower(s)[k] <= 'Z')
    ensures forall k :: 0 <= k < |s| && !('A' <= s[k] <= 'Z') ==> Lower(s)[k] == s[k]
    ensures Lower(Lower(s)) == Lower(s)
  {
  }

  /** Python's `<` on str: lexicographic by code point, a proper prefix first. */
  predicate StrLess(a: string, b: string) {
    if |a| == 0 then |b| > 0
    else if |b| == 0 then false
    else if a[0] != b[0] then a[0] < b[0]
    else StrLess(a[1..], b[1..])
  }

  predicate StrLe(a: string, b: string) {
    a == b || StrLess(a, b)
  }

  lemma {:induction false} StrLessIrreflexive(a: string)
    ensures !StrLess(a, a)
  {
    if |a| > 0 { StrLessIrreflexive(a[1..]); }
  }

  lemma {:induction false} StrLessTotal(a: string, b: string)
    ensures a == b || StrLess(a, b) || StrLess(b, a)
  {
    if |a| > 0 && |b| > 0 && a[0] == b[0] {
      StrLessTotal(a[1..], b[1..]);
      if a[1..] == b[1..] {
        assert a == [a[0]] + a[1..] && b == [b[0]] + b[1..];
      }
    }
  }

  lemma {:induction false} StrLessAsymmetric(a: string, b: string)
    ensures !(StrLess(a, b) && StrLess(b, a))
  {
    if |a| > 0 && |b| > 0 && a[0] == b[0] {
      StrLessAsymmetric(a[1..], b[1..]);
    }
  }

  lemma {:induction false} StrLessTransitive(a: string, b: string, c: string)
    requires StrLess(a, b) && StrLess(b, c)
    ensures StrLess(a, c)
  {
    if |a| > 0 && a[0] == b[0] && b[0] == c[0] {
      StrLessTransitive(a[1..], b[1..], c[1..]);
    }
  }
}
