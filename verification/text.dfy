/**
 * The JavaScript string primitives the application relies on, for the inputs it
 * feeds them: `String(n)` of an integer, `padStart(2, '0')`, `parseInt(v, 10)`,
 * `split(sep)` and the `LIKE 'prefix%'` test on text columns.
 */
module Text {
  import opened Common

  predicate IsDigit(c: char) {
    '0' <= c <= '9'
  }

  function DigitChar(n: nat): (c: char)
    requires n < 10
    ensures IsDigit(c)
  {
    (48 + n) as char
  }

  function DigitValue(c: char): (n: nat)
    requires IsDigit(c)
    ensures n < 10
  {
    c as int - 48
  }

  predicate AllDigits(s: string) {
    forall i :: 0 <= i < |s| ==> IsDigit(s[i])
  }

  /** Decimal digits of `n`, most significant first, without leading zeros. */
  function NatStr(n: nat): (s: string)
    ensures |s| >= 1 && AllDigits(s)
    ensures |s| == 1 <==> n < 10
    decreases n
  {
    if n < 10 then [DigitChar(n)] else NatStr(n / 10) + [DigitChar(n % 10)]
  }

  /** JavaScript `String(n)` (also template interpolation) for an integral number. */
  function Str(n: int): (s: string)
    ensures |s| >= 1
    ensures n >= 0 ==> AllDigits(s)
    ensures n < 0 ==> s[0] == '-' && AllDigits(s[1..])
  {
    if n < 0 then "-" + NatStr(-n) else NatStr(n)
  }

  /** `String(n).padStart(2, '0')`: one leading zero when the text is a single character. */
  function Pad2(n: int): (s: string)
    ensures |s| >= 2
    ensures 0 <= n < 10 ==> s == ['0', DigitChar(n)]
    ensures !(0 <= n < 10) ==> s == Str(n)
  {
    var t := Str(n);
    if |t| < 2 then "0" + t else t
  }

  /** The white space `parseInt` skips before the number (StrWhiteSpaceChar of ECMA-262). */
  predicate IsSpace(c: char) {
    || '\t' <= c <= '\r'  // tab, line feed, vertical tab, form feed, carriage return
    || c == ' ' || c == '\U{00A0}' || c == '\U{1680}' || '\U{2000}' <= c <= '\U{200A}'
    || c == '\U{2028}' || c == '\U{2029}' || c == '\U{202F}' || c == '\U{205F}'
    || c == '\U{3000}' || c == '\U{FEFF}'
  }

  /** `s` with its leading white space removed. */
  function TrimStart(s: string): (t: string)
    ensures |t| <= |s| && t == s[|s| - |t|..]
    ensures |t| > 0 ==> !IsSpace(t[0])
    ensures forall i :: 0 <= i < |s| - |t| ==> IsSpace(s[i])
  {
    if |s| > 0 && IsSpace(s[0]) then TrimStart(s[1..]) else s
  }

  /** The longest prefix of `s` made of decimal digits. */
  function DigitPrefix(s: string): (ds: string)
    ensures |ds| <= |s| && ds == s[..|ds|] && AllDigits(ds)
    ensures |ds| < |s| ==> !IsDigit(s[|ds|])
  {
    if |s| == 0 || !IsDigit(s[0]) then "" else [s[0]] + DigitPrefix(s[1..])
  }

  /** The number a string of decimal digits denotes (leading zeros allowed). */
  function DigitsValue(ds: string): nat
    requires AllDigits(ds)
  {
    if |ds| == 0 then 0 else DigitsValue(ds[..|ds| - 1]) * 10 + DigitValue(ds[|ds| - 1])
  }

  function Unsigned(t: string): string {
    if |t| > 0 && (t[0] == '-' || t[0] == '+') then t[1..] else t
  }

  function Sign(t: string): int {
    if |t| > 0 && t[0] == '-' then -1 else 1
  }

  /**
   * `parseInt(s, 10)`: skip white space, read an optional sign and then as many
   * decimal digits as there are; `None` stands for `NaN` (no digit at all).
   */
  function ParseInt(s: string): (r: Option<int>)
    ensures r.Some? <==> (var u := Unsigned(TrimStart(s)); |u| > 0 && IsDigit(u[0]))
  {
    var t := TrimStart(s);
    var ds := DigitPrefix(Unsigned(t));
    if |ds| == 0 then None else Some(Sign(t) * DigitsValue(ds))
  }

  /** `parseInt(v, 10) || 0`: `NaN` (and the zero it would otherwise be) becomes 0. */
  function ParseIntOrZero(v: string): int {
    ParseInt(v).GetOr(0)
  }

  /** JavaScript `s.split(sep)` for a one-character separator. */
  function Split(s: string, sep: char): (parts: seq<string>)
    ensures |parts| >= 1
  {
    if |s| == 0 then [""]
    else
      var rest := Split(s[1..], sep);
      if s[0] == sep then [""] + rest else [[s[0]] + rest[0]] + rest[1..]
  }

  /** `s LIKE p || '%'` for a pattern without wildcards: `p` is a prefix of `s`. */
  predicate HasPrefix(s: string, p: string) {
    |p| <= |s| && s[..|p|] == p
  }

  lemma {:induction false} DigitsValueOfNatStr(n: nat)
    ensures DigitsValue(NatStr(n)) == n
    decreases n
  {
    if n >= 10 {
      var s := NatStr(n);
      assert s[..|s| - 1] == NatStr(n / 10);
      DigitsValueOfNatStr(n / 10);
    }
  }

  lemma DigitPrefixOfDigits(s: string)
    requires AllDigits(s)
    ensures DigitPrefix(s) == s
  {
  }

  /** `parseInt(String(n), 10) == n`: the decimal text of an integer reads back as it. */
  lemma ParseIntOfStr(n: int)
    ensures ParseInt(Str(n)) == Some(n)
  {
    var s := Str(n);
    NoLeadingSpace(s);
    if n < 0 {
      ParseIntOfNegative(n);
    } else {
      ParseIntOfDigits(s);
      DigitsValueOfNatStr(n);
    }
  }

  lemma NoLeadingSpace(s: string)
    requires |s| > 0 && (IsDigit(s[0]) || s[0] == '-')
    ensures TrimStart(s) == s
  {
    assert !IsSpace(s[0]);
  }

  /** A text of digits reads as the number its digits denote. */
  lemma ParseIntOfDigits(s: string)
    requires |s| > 0 && AllDigits(s)
    ensures ParseInt(s) == Some(DigitsValue(s))
  {
    NoLeadingSpace(s);
    assert Unsigned(s) == s;
    DigitPrefixOfDigits(s);
  }

  lemma ParseIntOfNegative(n: int)
    requires n < 0
    ensures ParseInt(Str(n)) == Some(n)
  {
    var m: nat := -n;
    assert Str(n) == "-" + NatStr(m);
    ParseIntOfMinusNatStr(m);
  }

  /** `parseInt('-' + String(m), 10) == -m` for a natural `m`. */
  lemma ParseIntOfMinusNatStr(m: nat)
    ensures ParseInt("-" + NatStr(m)) == Some(-(m as int))
  {
    var digits := NatStr(m);
    DigitsValueOfNatStr(m);
    ParseIntOfMinusDigits(digits, m);
  }

  /** A minus sign followed by digits reads as the negated number of the digits. */
  lemma ParseIntOfMinusDigits(digits: string, v: int)
    requires |digits| > 0 && AllDigits(digits) && v == DigitsValue(digits)
    ensures ParseInt("-" + digits) == Some(-v)
  {
    var s := "-" + digits;
    MinusNotSpace(digits);
    MinusSign(digits);
    DigitPrefixOfDigits(digits);
    var t := TrimStart(s);
    assert t == s && Sign(t) == -1;
    assert DigitPrefix(Unsigned(t)) == digits;
    assert ParseInt(s) == Some(Sign(t) * DigitsValue(digits));
    assert Sign(t) * DigitsValue(digits) == -v;
  }

  lemma MinusNotSpace(digits: string)
    ensures TrimStart("-" + digits) == "-" + digits
  {
    var s := "-" + digits;
    assert !IsSpace(s[0]);
  }

  lemma MinusSign(digits: string)
    ensures Unsigned("-" + digits) == digits && Sign("-" + digits) == -1
  {
    var s := "-" + digits;
    assert s[1..] == digits;
  }

  /** The two-digit padding does not change the number `parseInt` reads back. */
  lemma ParseIntOfPad2(n: int)
    ensures ParseInt(Pad2(n)) == Some(n)
  {
    if 0 <= n < 10 {
      var s := Pad2(n);
      assert !IsSpace(s[0]);
      assert TrimStart(s) == s;
      assert Unsigned(s) == s;
      DigitPrefixOfDigits(s);
      assert s[..1] == ['0'];
      assert DigitsValue(s) == DigitsValue(['0']) * 10 + n;
    } else {
      ParseIntOfStr(n);
    }
  }

  /** Distinct integers have distinct decimal texts, padded or not. */
  lemma StrInjective(a: int, b: int)
    ensures Str(a) == Str(b) ==> a == b
    ensures Pad2(a) == Pad2(b) ==> a == b
  {
    ParseIntOfStr(a);
    ParseIntOfStr(b);
    ParseIntOfPad2(a);
    ParseIntOfPad2(b);
  }

  /** Which separators can occur in the decimal text of an integer. */
  lemma SeparatorNotInStr(n: int, sep: char)
    requires !IsDigit(sep) && (sep != '-' || n >= 0)
    ensures sep !in Str(n) && sep !in Pad2(n)
  {
    var s := Str(n);
    assert forall i :: 1 <= i < |s| ==> s[i] == s[1..][i - 1];
    assert forall i :: 0 <= i < |s| ==> s[i] != sep;
  }

  /** No part of `s.split(sep)` contains the separator. */
  lemma {:induction false} SplitPartsWithoutSeparator(s: string, sep: char)
    ensures forall i :: 0 <= i < |Split(s, sep)| ==> sep !in Split(s, sep)[i]
    decreases |s|
  {
    if |s| > 0 {
      SplitPartsWithoutSeparator(s[1..], sep);
      var rest := Split(s[1..], sep);
      if s[0] != sep {
        var parts := Split(s, sep);
        assert parts[0] == [s[0]] + rest[0];
        forall i | 1 <= i < |parts|
          ensures sep !in parts[i]
        {
          assert parts[i] == rest[i];
        }
      }
    }
  }

  /** Without a '-' there is no minus sign for `parseInt` to read, so it never yields a negative number. */
  lemma NoMinusNoSign(s: string)
    requires '-' !in s
    ensures ParseInt(s).Some? ==> ParseInt(s).value >= 0
  {
    var t := TrimStart(s);
    assert t == s[|s| - |t|..];
    assert |t| > 0 ==> t[0] != '-';
    assert Sign(t) == 1;
  }

  lemma {:induction false} SplitWithoutSeparator(a: string, sep: char)
    requires sep !in a
    ensures Split(a, sep) == [a]
    decreases |a|
  {
    if |a| > 0 {
      assert forall i :: 0 <= i < |a[1..]| ==> a[1..][i] == a[i + 1];
      SplitWithoutSeparator(a[1..], sep);
      assert [a[0]] + a[1..] == a;
    }
  }

  /** Splitting `a + sep + b`, where `a` holds no separator, yields `a` and then the parts of `b`. */
  lemma {:induction false} SplitAtFirstSeparator(a: string, b: string, sep: char)
    requires sep !in a
    ensures Split(a + [sep] + b, sep) == [a] + Split(b, sep)
    decreases |a|
  {
    var s := a + [sep] + b;
    if |a| == 0 {
      assert s[0] == sep && s[1..] == b;
    } else {
      assert forall i :: 0 <= i < |a[1..]| ==> a[1..][i] == a[i + 1];
      assert s[0] == a[0] && s[1..] == a[1..] + [sep] + b;
      SplitAtFirstSeparator(a[1..], b, sep);
      assert [a[0]] + a[1..] == a;
    }
  }

  /** Two strings agreeing up to a separator that neither prefix contains agree on those prefixes. */
  lemma PrefixBeforeSeparator(a: string, b: string, x: string, y: string, sep: char)
    requires sep !in a && sep !in b
    requires a + [sep] + x == b + [sep] + y
    ensures a == b && x == y
  {
    SplitAtFirstSeparator(a, x, sep);
    SplitAtFirstSeparator(b, y, sep);
    assert a == Split(a + [sep] + x, sep)[0];
    var n := |a| + 1;
    assert x == (a + [sep] + x)[n..];
    assert y == (b + [sep] + y)[n..];
  }

  /** A text `a-b-...` that starts with `c-d-`, none of `a, b, c, d` holding the separator, has `a == c` and `b == d`. */
  lemma TwoFieldPrefix(a: string, b: string, x: string, c: string, d: string, sep: char)
    requires sep !in a && sep !in b && sep !in c && sep !in d
    requires HasPrefix(a + [sep] + b + [sep] + x, c + [sep] + d + [sep])
    ensures a == c && b == d
  {
    var key := a + [sep] + b + [sep] + x;
    var p := c + [sep] + d + [sep];
    var rest := key[|p|..];
    assert key == p + rest;
    assert p + rest == c + [sep] + (d + [sep] + rest);
    assert key == a + [sep] + (b + [sep] + x);
    PrefixBeforeSeparator(a, c, b + [sep] + x, d + [sep] + rest, sep);
    PrefixBeforeSeparator(b, d, x, rest, sep);
  }
}
