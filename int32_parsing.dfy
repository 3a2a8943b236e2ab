/**
 * Decimal text to and from 32-bit integers, as `int.TryParse(string, out int)`
 * does it with its default number style (leading and trailing white space,
 * an optional leading sign, ASCII decimal digits) and as `int.ToString()`
 * writes it, both for the invariant culture.
 */
module Int32Parsing {
  import opened Wrappers

  const MinInt32: int := -0x8000_0000
  const MaxInt32: int := 0x7FFF_FFFF

  /** The values of a C# `int`. */
  type Int32 = x: int | MinInt32 <= x <= MaxInt32

  /** The white space the default integer number style skips: U+0009 to U+000D and U+0020. */
  predicate IsWhite(c: char) {
    c == ' ' || '\t' <= c <= '\r'
  }

  predicate AllWhite(s: string) {
    forall i :: 0 <= i < |s| ==> IsWhite(s[i])
  }

  predicate IsDigit(c: char) {
    '0' <= c <= '9'
  }

  predicate AllDigits(s: string) {
    forall i :: 0 <= i < |s| ==> IsDigit(s[i])
  }

  function DigitValue(c: char): (d: nat)
    requires IsDigit(c)
    ensures d < 10
  {
    (c as int) - ('0' as int)
  }

  function DigitChar(d: nat): (c: char)
    requires d < 10
    ensures IsDigit(c) && DigitValue(c) == d
  {
    (('0' as int) + d) as char
  }

  function Pow10(k: nat): (p: nat)
    ensures p >= 1
  {
    if k == 0 then 1 else 10 * Pow10(k - 1)
  }

  /** `s` without its leading white space: the longest suffix of `s` that does not start with white space. */
  function TrimStart(s: string): (t: string)
    ensures |t| <= |s| && t == s[|s| - |t|..]
    ensures forall i :: 0 <= i < |s| - |t| ==> IsWhite(s[i])
    ensures t == [] || !IsWhite(t[0])
  {
    if s != [] && IsWhite(s[0]) then
      var t := TrimStart(s[1..]);
      assert s[1..][|s| - 1 - |t|..] == s[|s| - |t|..];
      t
    else
      s
  }

  /** `s` without its trailing white space: the longest prefix of `s` that does not end with white space. */
  function TrimEnd(s: string): (t: string)
    ensures |t| <= |s| && t == s[..|t|]
    ensures forall i :: |t| <= i < |s| ==> IsWhite(s[i])
    ensures t == [] || !IsWhite(t[|t| - 1])
  {
    if s != [] && IsWhite(s[|s| - 1]) then
      var t := TrimEnd(s[..|s| - 1]);
      assert s[..|s| - 1][..|t|] == s[..|t|];
      t
    else
      s
  }

  function Trim(s: string): string {
    TrimEnd(TrimStart(s))
  }

  /** The number a string of decimal digits denotes, most significant digit first. */
  function DigitsValue(ds: string): (n: nat)
    requires AllDigits(ds)
    ensures n < Pow10(|ds|)
  {
    if ds == [] then 0
    else
      var high := DigitsValue(ds[..|ds| - 1]);
      assert high * 10 <= (Pow10(|ds| - 1) - 1) * 10;
      high * 10 + DigitValue(ds[|ds| - 1])
  }

  /**
   * Models `int.TryParse(s, out v)`: Some(v) when it returns true with v,
   * None when it returns false (a null string is modelled as "").
   */
  function ParseInt(s: string): Option<Int32> {
    ParseSigned(Trim(s))
  }

  /** An optional sign and one or more digits, denoting a value in the `int` range. */
  function ParseSigned(t: string): Option<Int32> {
    if t == [] then None
    else
      var negative := t[0] == '-';
      var digits := if t[0] == '-' || t[0] == '+' then t[1..] else t;
      if digits == [] || !AllDigits(digits) then None
      else
        var magnitude: int := DigitsValue(digits);
        var v: int := if negative then -magnitude else magnitude;
        if MinInt32 <= v <= MaxInt32 then Some(v) else None
  }

  /** The shortest decimal digits of `n`, with no leading zero. */
  function FormatNat(n: nat): (s: string)
    ensures s != [] && AllDigits(s) && DigitsValue(s) == n
    ensures s[0] != '0' || n == 0
  {
    if n < 10 then [DigitChar(n)]
    else
      var high := FormatNat(n / 10);
      var s := high + [DigitChar(n % 10)];
      assert s[..|s| - 1] == high;
      s
  }

  /** Models `n.ToString()` for the invariant culture: a minus sign for negatives, then the digits. */
  function FormatInt(n: int): (s: string)
    ensures s != [] && (n >= 0 <==> s[0] != '-')
  {
    if n < 0 then "-" + FormatNat(-n) else FormatNat(n)
  }

  /** Text made only of white space trims to nothing. */
  lemma AllWhiteTrimStart(s: string)
    requires AllWhite(s)
    ensures TrimStart(s) == []
  {
  }

  lemma {:induction false} TrimStartWhitePrefix(pre: string, x: string)
    requires AllWhite(pre)
    ensures TrimStart(pre + x) == TrimStart(x)
  {
    if pre == [] {
      assert pre + x == x;
    } else {
      assert (pre + x)[1..] == pre[1..] + x;
      TrimStartWhitePrefix(pre[1..], x);
    }
  }

  lemma {:induction false} TrimEndWhiteSuffix(x: string, post: string)
    requires AllWhite(post)
    ensures TrimEnd(x + post) == TrimEnd(x)
  {
    if post == [] {
      assert x + post == x;
    } else {
      var xs := x + post;
      assert xs[..|xs| - 1] == x + post[..|post| - 1];
      TrimEndWhiteSuffix(x, post[..|post| - 1]);
    }
  }

  lemma {:induction false} TrimStartWhiteSuffix(s: string, post: string)
    requires AllWhite(post)
    ensures TrimStart(s + post) == if AllWhite(s) then [] else TrimStart(s) + post
  {
    if s == [] {
      assert s + post == post;
      AllWhiteTrimStart(post);
    } else if IsWhite(s[0]) {
      assert (s + post)[1..] == s[1..] + post;
      TrimStartWhiteSuffix(s[1..], post);
      assert AllWhite(s) <==> AllWhite(s[1..]) by {
        if AllWhite(s[1..]) {
          forall i | 0 <= i < |s| ensures IsWhite(s[i]) {
            if i > 0 { assert s[i] == s[1..][i - 1]; }
          }
        }
      }
    } else {
      assert (s + post)[0] == s[0];
    }
  }

  /** White space around the text never changes what `int.TryParse` makes of it. */
  lemma ParseIgnoresSurroundingWhite(pre: string, s: string, post: string)
    requires AllWhite(pre) && AllWhite(post)
    ensures ParseInt(pre + s + post) == ParseInt(s)
  {
    assert pre + s + post == pre + (s + post);
    TrimStartWhitePrefix(pre, s + post);
    TrimStartWhiteSuffix(s, post);
    if AllWhite(s) {
      AllWhiteTrimStart(s);
    } else {
      TrimEndWhiteSuffix(TrimStart(s), post);
    }
  }

  /** Blank text is never an integer. */
  lemma ParseWhiteIsNone(s: string)
    requires AllWhite(s)
    ensures ParseInt(s) == None
  {
    AllWhiteTrimStart(s);
  }

  /** The text `int.ToString()` writes has no surrounding white space to trim. */
  lemma TrimFormatInt(n: int)
    ensures Trim(FormatInt(n)) == FormatInt(n)
  {
    var s := FormatInt(n);
    var digits := if n < 0 then FormatNat(-n) else FormatNat(n);
    assert s[|s| - 1] == digits[|digits| - 1];
    assert !IsWhite(s[|s| - 1]);
    assert TrimStart(s) == s;
  }

  /** Writing an `int` in decimal and parsing it back gives the same `int`. */
  lemma ParseFormatRoundTrip(n: Int32)
    ensures ParseInt(FormatInt(n)) == Some(n)
  {
    TrimFormatInt(n);
    if n < 0 {
      assert FormatInt(n)[1..] == FormatNat(-(n as int));
    }
  }

  /** The decimal text of a value outside the `int` range does not parse: the range check rejects it. */
  lemma ParseRejectsOutOfRange(n: int)
    requires n < MinInt32 || MaxInt32 < n
    ensures ParseInt(FormatInt(n)) == None
  {
    TrimFormatInt(n);
    if n < 0 {
      assert FormatInt(n)[1..] == FormatNat(-(n as int));
    }
  }

  /**
   * A sign and at most nine digits always denote a value inside the `int` range,
   * so `int.TryParse` accepts every such text and gives the value it denotes.
   */
  lemma ParseShortDigits(sign: string, ds: string)
    requires sign == "" || sign == "-" || sign == "+"
    requires ds != [] && AllDigits(ds) && |ds| <= 9
    ensures ParseInt(sign + ds) == Some(if sign == "-" then -(DigitsValue(ds) as int) else DigitsValue(ds))
  {
    var t := sign + ds;
    assert !IsWhite(t[|t| - 1]) by { assert t[|t| - 1] == ds[|ds| - 1]; }
    if sign == "" {
      assert t == ds;
      assert !IsWhite(t[0]);
    } else {
      assert t[0] == sign[0] && t[1..] == ds;
    }
    assert TrimStart(t) == t;
    assert Trim(t) == t;
    ShortDigitsBound(ds);
    ParseSignedDigits(sign, ds);
  }

  /** A sign and digits whose value fits the `int` range parse to their signed value. */
  lemma ParseSignedDigits(sign: string, ds: string)
    requires sign == "" || sign == "-" || sign == "+"
    requires ds != [] && AllDigits(ds) && DigitsValue(ds) <= MaxInt32
    ensures ParseSigned(sign + ds) == Some(if sign == "-" then -(DigitsValue(ds) as int) else DigitsValue(ds))
  {
    var t := sign + ds;
    if sign == "" {
      assert t == ds;
      assert t[0] != '-' && t[0] != '+' by { assert IsDigit(ds[0]); }
    } else {
      assert t[0] == sign[0] && t[1..] == ds;
    }
  }

  lemma ShortDigitsBound(ds: string)
    requires AllDigits(ds) && |ds| <= 9
    ensures DigitsValue(ds) < 1_000_000_000
  {
    Pow10Monotone(|ds|, 9);
    assert Pow10(9) == 1_000_000_000 by {
      assert Pow10(3) == 1000;
      assert Pow10(6) == 1000 * Pow10(3) by { Pow10Add(3, 3); }
      assert Pow10(9) == 1000 * Pow10(6) by { Pow10Add(3, 6); }
    }
  }

  lemma {:induction false} Pow10Add(j: nat, k: nat)
    ensures Pow10(j + k) == Pow10(j) * Pow10(k)
  {
    if j > 0 { Pow10Add(j - 1, k); }
  }

  lemma {:induction false} Pow10Monotone(j: nat, k: nat)
    requires j <= k
    ensures Pow10(j) <= Pow10(k)
  {
    if j < k { Pow10Monotone(j, k - 1); }
  }
}
