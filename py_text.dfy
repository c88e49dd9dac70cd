/**
 * The parts of Python's `str` that the password manager relies on:
 * `str.strip()` with no argument, `str(n)` of an integer and `int(text)`
 * applied back to such a text.
 */
module PyText {

  import opened Wrappers

  /** `c.isspace()` in Python 3: the characters `str.strip()` removes. */
  predicate IsSpace(c: char)
  {
    || ('\t' <= c <= '\r')
    || ('\U{1C}' <= c <= ' ')
    || c == '\U{85}' || c == '\U{A0}' || c == '\U{1680}'
    || ('\U{2000}' <= c <= '\U{200A}')
    || c == '\U{2028}' || c == '\U{2029}' || c == '\U{202F}' || c == '\U{205F}' || c == '\U{3000}'
  }

  /** `s.lstrip()`: the suffix left after dropping leading whitespace. */
  function StripLeading(s: string): (r: string)
    ensures |r| <= |s| && r == s[|s| - |r|..]
    ensures r == [] || !IsSpace(r[0])
    ensures forall i :: 0 <= i < |s| - |r| ==> IsSpace(s[i])
  {
    if s != [] && IsSpace(s[0]) then StripLeading(s[1..]) else s
  }

  /** `s.rstrip()`: the prefix left after dropping trailing whitespace. */
  function StripTrailing(s: string): (r: string)
    ensures |r| <= |s| && r == s[..|r|]
    ensures r == [] || !IsSpace(r[|r| - 1])
    ensures forall i :: |r| <= i < |s| ==> IsSpace(s[i])
  {
    if s != [] && IsSpace(s[|s| - 1]) then StripTrailing(s[..|s| - 1]) else s
  }

  /** `r` is `s` with only whitespace before position `i` and after `r`. */
  predicate TrimmedAt(s: string, r: string, i: int)
  {
    && 0 <= i <= |s| - |r| && r == s[i..i + |r|]
    && (forall k :: 0 <= k < i ==> IsSpace(s[k]))
    && (forall k :: i + |r| <= k < |s| ==> IsSpace(s[k]))
  }

  /** `s.strip()`: `s` with its leading and trailing whitespace cut off. */
  function Strip(s: string): (r: string)
    ensures r == [] || (!IsSpace(r[0]) && !IsSpace(r[|r| - 1]))
    ensures r == [] <==> forall i :: 0 <= i < |s| ==> IsSpace(s[i])
    ensures exists i :: 0 <= i <= |s| && TrimmedAt(s, r, i)
  {
    var t := StripLeading(s);
    var r := StripTrailing(t);
    StripTrimsBothEnds(s, t, r);
    TrimmedAllSpace(s, r, |s| - |t|);
    r
  }

  /** Cutting whitespace off the front, then off the back, leaves `s` trimmed where the front cut ended. */
  lemma StripTrimsBothEnds(s: string, t: string, r: string)
    requires |t| <= |s| && t == s[|s| - |t|..] && forall k :: 0 <= k < |s| - |t| ==> IsSpace(s[k])
    requires |r| <= |t| && r == t[..|r|] && forall k :: |r| <= k < |t| ==> IsSpace(t[k])
    ensures TrimmedAt(s, r, |s| - |t|)
  {
    var i := |s| - |t|;
    assert r == s[i..i + |r|];
    forall k | i + |r| <= k < |s| ensures IsSpace(s[k]) {
      assert s[k] == t[k - i];
    }
  }

  /** A trimmed piece that neither starts nor ends with whitespace is empty exactly when `s` is all whitespace. */
  lemma TrimmedAllSpace(s: string, r: string, i: int)
    requires TrimmedAt(s, r, i) && (r == [] || !IsSpace(r[0]))
    ensures r == [] <==> forall k :: 0 <= k < |s| ==> IsSpace(s[k])
  {
    if r != [] {
      assert s[i] == r[0];
    }
  }

  /** The decimal digit character for `d`. */
  function DigitChar(d: nat): (c: char)
    requires d < 10
    ensures '0' <= c <= '9'
  {
    ('0' as int + d) as char
  }

  predicate IsDecimal(s: string)
  {
    forall i :: 0 <= i < |s| ==> '0' <= s[i] <= '9'
  }

  /** `str(n)` for a non-negative integer: its decimal digits without leading zeros. */
  function NatToDecimal(n: nat): (s: string)
    ensures |s| >= 1 && IsDecimal(s)
    ensures s[0] == '0' ==> n == 0
    decreases n
  {
    if n < 10 then [DigitChar(n)] else NatToDecimal(n / 10) + [DigitChar(n % 10)]
  }

  /** `str(n)` for any integer. */
  function IntToString(n: int): (s: string)
    ensures |s| >= 1
    ensures n < 0 <==> s[0] == '-'
  {
    if n < 0 then "-" + NatToDecimal(-n) else NatToDecimal(n)
  }

  /** The value of a string of decimal digits. */
  function ParseDecimal(s: string): nat
    requires IsDecimal(s)
  {
    if s == [] then 0 else 10 * ParseDecimal(s[..|s| - 1]) + (s[|s| - 1] as int - '0' as int)
  }

  /**
   * `int(s)` on an optional minus sign followed by decimal digits; `None`
   * where Python would raise `ValueError` (other spellings Python accepts,
   * such as surrounding blanks or `+`, do not arise from `str(n)`).
   */
  function ParseInt(s: string): Option<int>
  {
    if |s| > 1 && s[0] == '-' && IsDecimal(s[1..]) then Some(-(ParseDecimal(s[1..]) as int))
    else if s != [] && IsDecimal(s) then Some(ParseDecimal(s))
    else None
  }

  lemma {:induction false} ParseNatToDecimal(n: nat)
    ensures ParseDecimal(NatToDecimal(n)) == n
    decreases n
  {
    if n >= 10 {
      var prefix := NatToDecimal(n / 10);
      var s := prefix + [DigitChar(n % 10)];
      assert s[..|s| - 1] == prefix;
      ParseNatToDecimal(n / 10);
    }
  }

  /** `int(str(n)) == n`: the decimal text of an integer gives the integer back. */
  lemma IntToStringRoundTrip(n: int)
    ensures ParseInt(IntToString(n)) == Some(n)
  {
    var s := IntToString(n);
    if n < 0 {
      var d := NatToDecimal(-n);
      assert s == "-" + d && s[1..] == d;
      ParseNatToDecimal(-n);
      assert ParseInt(s) == Some(-(ParseDecimal(d) as int));
    } else {
      assert s == NatToDecimal(n) && s[0] != '-';
      ParseNatToDecimal(n);
      assert ParseInt(s) == Some(ParseDecimal(s));
    }
  }

  /** Distinct integers have distinct decimal texts. */
  lemma IntToStringInjective(m: int, n: int)
    ensures IntToString(m) == IntToString(n) ==> m == n
  {
    IntToStringRoundTrip(m);
    IntToStringRoundTrip(n);
  }
}
