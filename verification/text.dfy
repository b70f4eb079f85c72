/** The JavaScript string operations the forms and the login rely on:
    `trim`, `toLowerCase`, `parseInt`, the decimal rendering of a number in an
    input field, and the string order used to sort usernames. */
module Text {
  import opened Collections

  /** ECMAScript WhiteSpace and LineTerminator code points (what `trim` and `parseInt` skip). */
  predicate IsSpace(c: char)
  {
    || c == ' ' || c == '\t' || c == '\n' || c == '\r' || c == '\U{000B}' || c == '\U{000C}'
    || c == '\U{00A0}' || c == '\U{1680}' || ('\U{2000}' <= c <= '\U{200A}')
    || c == '\U{2028}' || c == '\U{2029}' || c == '\U{202F}' || c == '\U{205F}'
    || c == '\U{3000}' || c == '\U{FEFF}'
  }

  function TrimStart(s: string): (r: string)
    ensures |r| <= |s| && r == s[|s| - |r|..]
    ensures forall i | 0 <= i < |s| - |r| :: IsSpace(s[i])
    ensures r == [] || !IsSpace(r[0])
  {
    if |s| > 0 && IsSpace(s[0]) then
      var r := TrimStart(s[1..]);
      assert s[1..][|s| - 1 - |r|..] == s[|s| - |r|..];
      assert forall i | 1 <= i < |s| :: s[i] == s[1..][i - 1];
      r
    else s
  }

  function TrimEnd(s: string): (r: string)
    ensures |r| <= |s| && r == s[..|r|]
    ensures forall i | |r| <= i < |s| :: IsSpace(s[i])
    ensures r == [] || !IsSpace(r[|r| - 1])
  {
    if |s| > 0 && IsSpace(s[|s| - 1]) then
      var r := TrimEnd(s[..|s| - 1]);
      assert s[..|s| - 1][..|r|] == s[..|r|];
      assert forall i | 0 <= i < |s| - 1 :: s[i] == s[..|s| - 1][i];
      r
    else s
  }

  /** `r` is `s` from index `i` on, with only white space cut at either end. */
  ghost predicate Strips(s: string, i: int, r: string)
  {
    && 0 <= i <= |s| - |r|
    && r == s[i..i + |r|]
    && (forall k | 0 <= k < i :: IsSpace(s[k]))
    && (forall k | i + |r| <= k < |s| :: IsSpace(s[k]))
  }

  /** `String.prototype.trim`: the middle of `s` left after dropping white space at both ends. */
  function Trim(s: string): (r: string)
    ensures exists i :: Strips(s, i, r)
    ensures r == [] || (!IsSpace(r[0]) && !IsSpace(r[|r| - 1]))
  {
    var t := TrimStart(s);
    var r := TrimEnd(t);
    TrimsStrip(s, t, r);
    r
  }

  /** Trimming the start and then the end cuts only white space, around one middle piece. */
  lemma TrimsStrip(s: string, t: string, r: string)
    requires |t| <= |s| && t == s[|s| - |t|..] && forall k | 0 <= k < |s| - |t| :: IsSpace(s[k])
    requires |r| <= |t| && r == t[..|r|] && forall k | |r| <= k < |t| :: IsSpace(t[k])
    requires t == [] || !IsSpace(t[0])
    requires r == [] || !IsSpace(r[|r| - 1])
    ensures Strips(s, |s| - |t|, r)
    ensures r == [] || (!IsSpace(r[0]) && !IsSpace(r[|r| - 1]))
  {
    var i := |s| - |t|;
    assert r == [] || r[0] == t[0];
    forall k | i + |r| <= k < |s|
      ensures IsSpace(s[k])
    {
      assert s[k] == t[k - i];
    }
  }

  /** A string trims to nothing exactly when it consists of white space only. */
  lemma TrimEmptyIff(s: string)
    ensures Trim(s) == [] <==> forall k | 0 <= k < |s| :: IsSpace(s[k])
  {
    var r := Trim(s);
    var i :| Strips(s, i, r);
    assert r != [] ==> r[0] == s[i];
  }

  lemma TrimIdempotent(s: string)
    ensures Trim(Trim(s)) == Trim(s)
  {
    var r := Trim(s);
    assert TrimStart(r) == r;
    assert TrimEnd(r) == r;
  }

  /** Lower-cases ASCII and Latin-1 capitals (`toLowerCase` on those ranges). */
  function LowerChar(c: char): (d: char)
    ensures 'A' <= c <= 'Z' ==> d as int == c as int + 32
    ensures !('A' <= c <= 'Z') && !('\U{00C0}' <= c <= '\U{00DE}') ==> d == c
  {
    if 'A' <= c <= 'Z' || ('\U{00C0}' <= c <= '\U{00DE}' && c != '\U{00D7}') then (c as int + 32) as char else c
  }

  function ToLower(s: string): (r: string)
    ensures |r| == |s|
    ensures forall i | 0 <= i < |s| :: r[i] == LowerChar(s[i])
  {
    Map(s, LowerChar)
  }

  /** Case-insensitive equality as `a.toLowerCase() === b.toLowerCase()`. */
  predicate EqualsIgnoreCase(a: string, b: string)
  {
    ToLower(a) == ToLower(b)
  }

  lemma ToLowerIdempotent(s: string)
    ensures ToLower(ToLower(s)) == ToLower(s)
  {
  }

  /** Strings that differ only in the case of ASCII letters compare equal. */
  lemma {:induction false} AsciiCaseIgnored(a: string, b: string)
    requires |a| == |b|
    requires forall i | 0 <= i < |a| :: a[i] == b[i] || ('a' <= a[i] <= 'z' && b[i] as int == a[i] as int - 32)
    ensures EqualsIgnoreCase(a, b)
  {
    var la, lb := ToLower(a), ToLower(b);
    forall i | 0 <= i < |a|
      ensures la[i] == lb[i]
    {
      if a[i] != b[i] {
        assert LowerChar(b[i]) == a[i];
      }
    }
  }

  // ----- numbers -------------------------------------------------------

  predicate IsDigit(c: char)
  {
    '0' <= c <= '9'
  }

  predicate AllDigits(s: string)
  {
    forall i | 0 <= i < |s| :: IsDigit(s[i])
  }

  /** The longest prefix of decimal digits. */
  function DigitPrefix(s: string): (r: string)
    ensures |r| <= |s| && r == s[..|r|]
    ensures AllDigits(r)
    ensures |r| == |s| || !IsDigit(s[|r|])
  {
    if |s| > 0 && IsDigit(s[0]) then [s[0]] + DigitPrefix(s[1..]) else []
  }

  function DigitsValue(ds: string): nat
    requires AllDigits(ds)
  {
    if |ds| == 0 then 0 else DigitsValue(ds[..|ds| - 1]) * 10 + (ds[|ds| - 1] as int - '0' as int)
  }

  /** `t` without a leading sign character. */
  function Unsigned(t: string): string
  {
    if |t| > 0 && (t[0] == '-' || t[0] == '+') then t[1..] else t
  }

  /** `parseInt(s)` on a decimal string: skips leading white space, reads an optional
      sign and the longest run of digits after it; `None` stands for `NaN`. */
  function ParseInt(s: string): Option<int>
  {
    ParseSigned(TrimStart(s))
  }

  /** `parseInt` from the first character that is not white space on. */
  function ParseSigned(t: string): Option<int>
  {
    var ds := DigitPrefix(Unsigned(t));
    if |ds| == 0 then None
    else
      var v: int := DigitsValue(ds);
      if |t| > 0 && t[0] == '-' then Some(-v) else Some(v)
  }

  function ShowNat(n: nat): (r: string)
    ensures |r| > 0 && AllDigits(r)
  {
    var d := ['0' + (n % 10) as char];
    if n < 10 then d else ShowNat(n / 10) + d
  }

  /** `String(n)` for an integer: a minus sign for negatives, then the decimal digits. */
  function Show(n: int): (r: string)
    ensures |r| > 0
  {
    if n < 0 then "-" + ShowNat(-n) else ShowNat(n)
  }

  lemma {:induction false} ShowNatValue(n: nat)
    ensures DigitsValue(ShowNat(n)) == n
  {
    var s := ShowNat(n);
    if n >= 10 {
      ShowNatValue(n / 10);
      assert s[..|s| - 1] == ShowNat(n / 10);
    }
  }

  lemma {:induction false} DigitPrefixAll(s: string)
    requires AllDigits(s)
    ensures DigitPrefix(s) == s
  {
    if |s| > 0 {
      DigitPrefixAll(s[1..]);
    }
  }

  lemma ShowNatTrimmed(n: nat)
    ensures TrimStart(ShowNat(n)) == ShowNat(n)
    ensures Unsigned(ShowNat(n)) == ShowNat(n)
  {
    var s := ShowNat(n);
    assert IsDigit(s[0]);
    DigitNotSpace(s[0]);
  }

  lemma DigitNotSpace(c: char)
    requires IsDigit(c)
    ensures !IsSpace(c) && c != '-' && c != '+'
  {
  }

  lemma ParseNegative(t: string, ds: string, v: int)
    requires AllDigits(ds) && |ds| > 0 && v == DigitsValue(ds)
    requires DigitPrefix(Unsigned(t)) == ds
    requires |t| > 0 && t[0] == '-'
    ensures ParseSigned(t) == Some(-v)
  {
  }

  lemma ParseNonNegative(t: string, ds: string, v: int)
    requires AllDigits(ds) && |ds| > 0 && v == DigitsValue(ds)
    requires DigitPrefix(Unsigned(t)) == ds
    requires !(|t| > 0 && t[0] == '-')
    ensures ParseSigned(t) == Some(v)
  {
  }

  /** Whatever integer an input field displays, `parseInt` reads back. */
  lemma ParseShow(n: int)
    ensures ParseInt(Show(n)) == Some(n)
  {
    if n < 0 {
      var ds := ShowNat(-n);
      ShowNatValue(-n);
      var s := "-" + ds;
      assert s[0] == '-' && s[1..] == ds;
      assert TrimStart(s) == s;
      assert Unsigned(s) == ds;
      DigitPrefixAll(ds);
      ParseNegative(s, ds, -n);
      assert Show(n) == s;
    } else {
      var ds := ShowNat(n);
      ShowNatValue(n);
      ShowNatTrimmed(n);
      DigitNotSpace(ds[0]);
      DigitPrefixAll(ds);
      ParseNonNegative(ds, ds, n);
      assert Show(n) == ds;
    }
  }

  /** `parseInt(text) || fallback`: `NaN` and `0` are falsy and give the fallback. */
  function OrFallback(r: Option<int>, fallback: int): (v: int)
    ensures r.Some? && r.value != 0 ==> v == r.value
    ensures r.None? || r.value == 0 ==> v == fallback
  {
    if r.Some? && r.value != 0 then r.value else fallback
  }

  // ----- string order --------------------------------------------------

  /** Lexicographic order on code units. */
  predicate StrLe(a: string, b: string)
  {
    |a| == 0 || (|b| > 0 && (a[0] < b[0] || (a[0] == b[0] && StrLe(a[1..], b[1..]))))
  }

  lemma {:induction false} StrLeTotal(a: string, b: string)
    ensures StrLe(a, b) || StrLe(b, a)
  {
    if |a| > 0 && |b| > 0 && a[0] == b[0] {
      StrLeTotal(a[1..], b[1..]);
    }
  }

  lemma {:induction false} StrLeTransitive(a: string, b: string, c: string)
    requires StrLe(a, b) && StrLe(b, c)
    ensures StrLe(a, c)
  {
    if |a| > 0 && |b| > 0 && |c| > 0 && a[0] == b[0] && b[0] == c[0] {
      StrLeTransitive(a[1..], b[1..], c[1..]);
    }
  }
}
