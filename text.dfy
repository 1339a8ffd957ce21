/**
  * String and number primitives of .NET that the core relies on:
  * ordinal string order (how the database sorts inspect codes here),
  * `int.ToString("D<width>")`, `int.TryParse`, unchecked 32-bit addition,
  * the rounding of a `decimal(18,2)` column,
  * `string.IsNullOrWhiteSpace` and `Contains(..., OrdinalIgnoreCase)`,
  * and the error texts the controllers report.
  */
module Text {
  import opened Wrappers

  predicate StartsWith(s: string, prefix: string) {
    |prefix| <= |s| && s[..|prefix|] == prefix
  }

  // ---------------------------------------------------------------------
  // Ordinal lexicographic order
  // ---------------------------------------------------------------------

  /** `a` sorts strictly before `b`, comparing characters by code point. */
  predicate LexLess(a: string, b: string)
    decreases |a|
  {
    if a == [] then b != []
    else if b == [] then false
    else if a[0] != b[0] then a[0] < b[0]
    else LexLess(a[1..], b[1..])
  }

  predicate LexLessEq(a: string, b: string) {
    a == b || LexLess(a, b)
  }

  lemma {:induction false} LexIrreflexive(a: string)
    ensures !LexLess(a, a)
    decreases |a|
  {
    if a != [] {
      LexIrreflexive(a[1..]);
    }
  }

  lemma {:induction false} LexTotal(a: string, b: string)
    ensures a == b || LexLess(a, b) || LexLess(b, a)
    decreases |a|
  {
    if a != [] && b != [] && a[0] == b[0] {
      LexTotal(a[1..], b[1..]);
      assert a == [a[0]] + a[1..];
      assert b == [b[0]] + b[1..];
    }
  }

  lemma {:induction false} LexAsymmetric(a: string, b: string)
    ensures !(LexLess(a, b) && LexLess(b, a))
    decreases |a|
  {
    if a != [] && b != [] && a[0] == b[0] {
      LexAsymmetric(a[1..], b[1..]);
    }
  }

  lemma {:induction false} LexTransitive(a: string, b: string, c: string)
    requires LexLess(a, b) && LexLess(b, c)
    ensures LexLess(a, c)
    decreases |a|
  {
    if a != [] && a[0] == b[0] && b[0] == c[0] {
      LexTransitive(a[1..], b[1..], c[1..]);
    }
  }

  /** A shared prefix does not change how two strings compare. */
  lemma {:induction false} LexCommonPrefix(p: string, a: string, b: string)
    ensures LexLess(p + a, p + b) <==> LexLess(a, b)
    decreases |p|
  {
    if p != [] {
      assert (p + a)[1..] == p[1..] + a;
      assert (p + b)[1..] == p[1..] + b;
      LexCommonPrefix(p[1..], a, b);
    } else {
      assert p + a == a && p + b == b;
    }
  }

  // ---------------------------------------------------------------------
  // Decimal digits
  // ---------------------------------------------------------------------

  predicate IsDigit(c: char) {
    '0' <= c <= '9'
  }

  predicate AllDigits(s: string) {
    forall i :: 0 <= i < |s| ==> IsDigit(s[i])
  }

  function DigitChar(d: int): (c: char)
    requires 0 <= d <= 9
    ensures IsDigit(c)
  {
    ('0' as int + d) as char
  }

  function DigitValue(c: char): (d: int)
    requires IsDigit(c)
    ensures 0 <= d <= 9
  {
    c as int - '0' as int
  }

  function Pow10(k: nat): (r: nat)
    ensures r >= 1
  {
    if k == 0 then 1 else 10 * Pow10(k - 1)
  }

  /** The decimal digits of `n`, most significant first, without leading zeros. */
  function DigitsOf(n: nat): (r: string)
    ensures |r| >= 1 && AllDigits(r)
    decreases n
  {
    if n < 10 then [DigitChar(n)] else DigitsOf(n / 10) + [DigitChar(n % 10)]
  }

  function Zeros(k: nat): (r: string)
    ensures |r| == k && forall i :: 0 <= i < k ==> r[i] == '0'
  {
    seq(k, _ => '0')
  }

  /**
    * `n.ToString("D" + width)`: the digits of |n| left-padded with zeros to
    * at least `width` characters, after a minus sign when `n` is negative.
    */
  function FormatD(n: int, width: nat): (r: string)
    ensures |r| >= width
    ensures n >= 0 ==> AllDigits(r)
    ensures n < 0 ==> |r| > 1 && r[0] == '-' && AllDigits(r[1..])
  {
    if n < 0 then "-" + Padded(-n, width) else Padded(n, width)
  }

  /** The digits of `m`, left-padded with zeros to at least `width` characters. */
  function Padded(m: nat, width: nat): (r: string)
    ensures |r| >= width && AllDigits(r)
  {
    var digits := DigitsOf(m);
    if |digits| < width then Zeros(width - |digits|) + digits else digits
  }

  /** `n.ToString()`. */
  function IntToString(n: int): string {
    FormatD(n, 1)
  }

  /** The number a string of decimal digits denotes. */
  function DigitsValue(s: string): nat
    requires AllDigits(s)
    decreases |s|
  {
    if s == [] then 0 else DigitsValue(s[..|s| - 1]) * 10 + DigitValue(s[|s| - 1])
  }

  lemma {:induction false} DigitsOfValue(n: nat)
    ensures DigitsValue(DigitsOf(n)) == n
    decreases n
  {
    var d := DigitsOf(n);
    if n < 10 {
      assert d[..|d| - 1] == [];
    } else {
      assert d[..|d| - 1] == DigitsOf(n / 10);
      DigitsOfValue(n / 10);
    }
  }

  lemma {:induction false} ZerosOnlyValue(k: nat)
    ensures DigitsValue(Zeros(k)) == 0
  {
    if k > 0 {
      assert Zeros(k)[..k - 1] == Zeros(k - 1);
      ZerosOnlyValue(k - 1);
    }
  }

  /** Leading zeros do not change the value of a digit string. */
  lemma {:induction false} ZerosValue(k: nat, s: string)
    requires AllDigits(s)
    ensures AllDigits(Zeros(k) + s) && DigitsValue(Zeros(k) + s) == DigitsValue(s)
    decreases |s|
  {
    var t := Zeros(k) + s;
    if s == [] {
      assert t == Zeros(k);
      ZerosOnlyValue(k);
    } else {
      assert t[..|t| - 1] == Zeros(k) + s[..|s| - 1];
      ZerosValue(k, s[..|s| - 1]);
    }
  }

  /** `DigitsOf(n)` fits in `k` characters exactly when `n < 10^k`. */
  lemma {:induction false} DigitsOfLength(n: nat, k: nat)
    requires k >= 1
    ensures |DigitsOf(n)| <= k <==> n < Pow10(k)
    decreases n
  {
    if n >= 10 {
      if k == 1 {
        assert |DigitsOf(n)| == |DigitsOf(n / 10)| + 1;
      } else {
        DigitsOfLength(n / 10, k - 1);
        assert Pow10(k) == 10 * Pow10(k - 1);
      }
    } else {
      assert Pow10(k) == 10 * Pow10(k - 1);
    }
  }

  /**
    * Zero padding to `width` gives exactly `width` characters for
    * 0 <= n < 10^width, and more than `width` above that.
    */
  lemma FormatDLength(n: int, width: nat)
    requires 0 <= n && width >= 1
    ensures n < Pow10(width) ==> |FormatD(n, width)| == width
    ensures n >= Pow10(width) ==> |FormatD(n, width)| > width
  {
    DigitsOfLength(n, width);
  }

  // ---------------------------------------------------------------------
  // int.TryParse and 32-bit arithmetic
  // ---------------------------------------------------------------------

  const Int32Min: int := -0x8000_0000
  const Int32Max: int := 0x7FFF_FFFF

  predicate IsInt32(n: int) {
    Int32Min <= n <= Int32Max
  }

  /** Unchecked C# `int` arithmetic: the result wraps modulo 2^32. */
  function Wrap32(n: int): (r: int)
    ensures IsInt32(r)
    ensures (r - n) % 0x1_0000_0000 == 0
    ensures IsInt32(n) ==> r == n
  {
    (n - Int32Min) % 0x1_0000_0000 + Int32Min
  }

  /** `int.MaxValue + 1` wraps to `int.MinValue`. */
  lemma WrapPastMax()
    ensures Wrap32(Int32Max + 1) == Int32Min
  {
  }

  /** The white space `NumberStyles.Integer` allows around a number: U+0009..U+000D and U+0020. */
  predicate IsParseWhite(c: char) {
    c == ' ' || ('\t' <= c <= '\r')
  }

  function TrimStartWhite(s: string): string
    decreases |s|
  {
    if s != [] && IsParseWhite(s[0]) then TrimStartWhite(s[1..]) else s
  }

  function TrimEndWhite(s: string): string
    decreases |s|
  {
    if s != [] && IsParseWhite(s[|s| - 1]) then TrimEndWhite(s[..|s| - 1]) else s
  }

  /**
    * `int.TryParse(s, out n)`: optional surrounding white space, an optional
    * leading sign, at least one decimal digit, and a value that fits in 32 bits.
    */
  function ParseInt32(s: string): (r: Option<int>)
    ensures r.Some? ==> IsInt32(r.value)
  {
    var t := TrimEndWhite(TrimStartWhite(s));
    var signed := t != [] && (t[0] == '-' || t[0] == '+');
    var body := if signed then t[1..] else t;
    if body == [] || !AllDigits(body) then None
    else
      var magnitude: int := DigitsValue(body);
      var v := if signed && t[0] == '-' then -magnitude else magnitude;
      if IsInt32(v) then Some(v) else None
  }

  /** A string that neither starts nor ends with white space is not trimmed. */
  lemma TrimNothing(s: string)
    requires s != [] && !IsParseWhite(s[0]) && !IsParseWhite(s[|s| - 1])
    ensures TrimEndWhite(TrimStartWhite(s)) == s
  {
  }

  lemma ParseUnsigned(body: string)
    requires body != [] && AllDigits(body) && IsInt32(DigitsValue(body))
    ensures ParseInt32(body) == Some(DigitsValue(body))
  {
    TrimNothing(body);
  }

  lemma ParseNegative(body: string)
    requires body != [] && AllDigits(body) && IsInt32(-(DigitsValue(body) as int))
    ensures ParseInt32("-" + body) == Some(-(DigitsValue(body) as int))
  {
    var s := "-" + body;
    assert s[|s| - 1] == body[|body| - 1];
    TrimNothing(s);
    assert s[1..] == body;
  }

  /** The zero-padded digits of `m` read back as `m`. */
  lemma PaddedDigits(m: nat, width: nat)
    ensures Padded(m, width) != [] && DigitsValue(Padded(m, width)) == m
  {
    var digits := DigitsOf(m);
    DigitsOfValue(m);
    if |digits| < width {
      ZerosValue(width - |digits|, digits);
    }
  }

  /** What `FormatD` prints, `ParseInt32` reads back. */
  lemma FormatDRoundTrip(n: int, width: nat)
    requires IsInt32(n)
    ensures ParseInt32(FormatD(n, width)) == Some(n)
  {
    if n < 0 {
      PaddedDigits(-n, width);
      ParseNegative(Padded(-n, width));
    } else {
      PaddedDigits(n, width);
      ParseUnsigned(Padded(n, width));
    }
  }

  /** The four characters of `n.ToString("D4")` for 0 <= n <= 9999. */
  lemma FormatD4Digits(n: int)
    requires 0 <= n <= 9999
    ensures FormatD(n, 4) == [DigitChar(n / 1000), DigitChar(n / 100 % 10), DigitChar(n / 10 % 10), DigitChar(n % 10)]
  {
    var a, b, c, d := n / 1000, n / 100 % 10, n / 10 % 10, n % 10;
    if n < 10 {
      assert DigitsOf(n) == [DigitChar(d)];
      assert a == 0 && b == 0 && c == 0;
      assert Zeros(3) == [DigitChar(0), DigitChar(0), DigitChar(0)];
    } else if n < 100 {
      TwoDigits(n);
      assert a == 0 && b == 0;
      assert Zeros(2) == [DigitChar(0), DigitChar(0)];
    } else if n < 1000 {
      ThreeDigits(n);
      assert a == 0;
      assert Zeros(1) == [DigitChar(0)];
    } else {
      FourDigits(n);
    }
  }

  lemma TwoDigits(n: int)
    requires 10 <= n < 100
    ensures DigitsOf(n) == [DigitChar(n / 10 % 10), DigitChar(n % 10)]
  {
    assert DigitsOf(n / 10) == [DigitChar(n / 10)];
  }

  lemma ThreeDigits(n: int)
    requires 100 <= n < 1000
    ensures DigitsOf(n) == [DigitChar(n / 100 % 10), DigitChar(n / 10 % 10), DigitChar(n % 10)]
  {
    assert n / 10 / 10 == n / 100;
    TwoDigits(n / 10);
  }

  lemma FourDigits(n: int)
    requires 1000 <= n < 10000
    ensures DigitsOf(n) == [DigitChar(n / 1000), DigitChar(n / 100 % 10), DigitChar(n / 10 % 10), DigitChar(n % 10)]
  {
    assert n / 10 / 10 == n / 100;
    assert n / 10 / 100 == n / 1000;
    assert n / 10 / 10 % 10 == n / 100 % 10;
    ThreeDigits(n / 10);
  }

  /** Strings that start with one character each compare on that character first. */
  lemma LexCons(c: char, d: char, x: string, y: string)
    ensures LexLess([c] + x, [d] + y) <==> c < d || (c == d && LexLess(x, y))
  {
    assert ([c] + x)[1..] == x;
    assert ([d] + y)[1..] == y;
  }

  /** Four-digit strings compare as their digits do, most significant first. */
  lemma LexFourDigits(a3: int, a2: int, a1: int, a0: int, b3: int, b2: int, b1: int, b0: int)
    requires 0 <= a3 <= 9 && 0 <= a2 <= 9 && 0 <= a1 <= 9 && 0 <= a0 <= 9
    requires 0 <= b3 <= 9 && 0 <= b2 <= 9 && 0 <= b1 <= 9 && 0 <= b0 <= 9
    requires a3 < b3 || (a3 == b3 && (a2 < b2 || (a2 == b2 && (a1 < b1 || (a1 == b1 && a0 < b0)))))
    ensures LexLess([DigitChar(a3), DigitChar(a2), DigitChar(a1), DigitChar(a0)],
                    [DigitChar(b3), DigitChar(b2), DigitChar(b1), DigitChar(b0)])
  {
    var x0, y0 := [DigitChar(a0)], [DigitChar(b0)];
    var x1, y1 := [DigitChar(a1)] + x0, [DigitChar(b1)] + y0;
    var x2, y2 := [DigitChar(a2)] + x1, [DigitChar(b2)] + y1;
    LexCons(DigitChar(a0), DigitChar(b0), [], []);
    assert [DigitChar(a0)] + [] == x0 && [DigitChar(b0)] + [] == y0;
    LexCons(DigitChar(a1), DigitChar(b1), x0, y0);
    LexCons(DigitChar(a2), DigitChar(b2), x1, y1);
    LexCons(DigitChar(a3), DigitChar(b3), x2, y2);
    assert [DigitChar(a3)] + x2 == [DigitChar(a3), DigitChar(a2), DigitChar(a1), DigitChar(a0)];
    assert [DigitChar(b3)] + y2 == [DigitChar(b3), DigitChar(b2), DigitChar(b1), DigitChar(b0)];
  }

  /** 0 <= n <= 9999 written out from its four decimal digits. */
  lemma FourDigitParts(n: int)
    requires 0 <= n <= 9999
    ensures n == 1000 * (n / 1000) + 100 * (n / 100 % 10) + 10 * (n / 10 % 10) + n % 10
    ensures 0 <= n / 1000 <= 9
  {
    assert n / 10 / 10 == n / 100;
    assert n / 100 / 10 == n / 1000;
  }

  /** The D4 texts of the first, the last four-digit and the first five-digit running number. */
  lemma FormatDSamples()
    ensures FormatD(1, 4) == "0001"
    ensures FormatD(9999, 4) == "9999"
    ensures FormatD(10000, 4) == "10000"
  {
    FormatD4Digits(1);
    FormatD4Digits(9999);
    assert DigitsOf(10000) == DigitsOf(1000) + "0";
    assert DigitsOf(1000) == DigitsOf(100) + "0";
    assert DigitsOf(100) == DigitsOf(10) + "0";
    assert DigitsOf(10) == "1" + "0";
  }

  /** On 0..9999 the D4 format sorts as the numbers do. */
  lemma FormatD4Monotone(a: int, b: int)
    requires 0 <= a < b <= 9999
    ensures LexLess(FormatD(a, 4), FormatD(b, 4))
  {
    FormatD4Digits(a);
    FormatD4Digits(b);
    FourDigitParts(a);
    FourDigitParts(b);
    LexFourDigits(a / 1000, a / 100 % 10, a / 10 % 10, a % 10, b / 1000, b / 100 % 10, b / 10 % 10, b % 10);
  }

  // ---------------------------------------------------------------------
  // Blank strings and case-insensitive search
  // ---------------------------------------------------------------------

  /** `char.IsWhiteSpace`: the Unicode space separators, line and paragraph separators, and U+0009..U+000D, U+0085. */
  predicate IsWhiteSpace(c: char) {
    ('\t' <= c <= '\r') || c == ' ' || c == '\U{0085}' || c == '\U{00A0}' || c == '\U{1680}'
    || ('\U{2000}' <= c <= '\U{200A}') || c == '\U{2028}' || c == '\U{2029}' || c == '\U{202F}'
    || c == '\U{205F}' || c == '\U{3000}'
  }

  /** `string.IsNullOrWhiteSpace`, with `None` for null. */
  predicate IsNullOrWhiteSpace(s: Option<string>) {
    s.None? || forall i :: 0 <= i < |s.value| ==> IsWhiteSpace(s.value[i])
  }

  /** Upper-cases the ASCII letters; other characters are left as they are. */
  function FoldCase(s: string): (r: string)
    ensures |r| == |s|
  {
    seq(|s|, i requires 0 <= i < |s| => if 'a' <= s[i] <= 'z' then (s[i] as int - 32) as char else s[i])
  }

  /** `term` occurs in `s` at position `i`, ignoring ASCII case. */
  predicate MatchesAt(s: string, term: string, i: int) {
    0 <= i <= |s| - |term| && FoldCase(s[i..i + |term|]) == FoldCase(term)
  }

  /** `s.Contains(term, StringComparison.OrdinalIgnoreCase)`. */
  predicate ContainsIgnoreCase(s: string, term: string) {
    exists i :: 0 <= i <= |s| && MatchesAt(s, term, i)
  }

  // ---------------------------------------------------------------------
  // decimal(18,2) columns
  // ---------------------------------------------------------------------

  /** `x` has at most two decimal places. */
  predicate TwoPlaces(x: real) {
    (x * 100.0).Floor as real == x * 100.0
  }

  /** The whole number of hundredths nearest `h` hundredths, halves away from zero. */
  function NearestHundredths(h: real): (n: int)
    ensures -0.5 <= n as real - h <= 0.5
    ensures (h >= 0.0 ==> n >= 0) && (h <= 0.0 ==> n <= 0)
  {
    if h >= 0.0 then (h + 0.5).Floor else -((-h) + 0.5).Floor
  }

  /**
    * What a `decimal(18,2)` column stores for `x`: SQL Server converts a
    * decimal of larger scale by rounding to the nearest hundredth, halves
    * away from zero.
    */
  function Round2(x: real): (r: real)
    ensures TwoPlaces(r)
    ensures -0.005 <= r - x <= 0.005
    ensures (x >= 0.0 ==> r >= 0.0) && (x <= 0.0 ==> r <= 0.0)
  {
    var n := NearestHundredths(x * 100.0);
    HundredthsTwoPlaces(n);
    n as real / 100.0
  }

  lemma HundredthsTwoPlaces(n: int)
    ensures (n as real / 100.0) * 100.0 == n as real
    ensures TwoPlaces(n as real / 100.0)
  {
  }

  /** `Round2` on a nullable decimal. */
  function Round2Opt(x: Option<real>): (r: Option<real>)
    ensures r.None? <==> x.None?
    ensures x.Some? ==> r.value == Round2(x.value)
  {
    if x.Some? then Some(Round2(x.value)) else None
  }

  /** A value of at most two places is stored unchanged. */
  lemma Round2Exact(x: real)
    requires TwoPlaces(x)
    ensures Round2(x) == x
  {
    var k := (x * 100.0).Floor;
    assert NearestHundredths(x * 100.0) == k;
  }

  /** A nullable value of at most two places is stored unchanged. */
  lemma Round2OptExact(x: Option<real>)
    requires x.Some? ==> TwoPlaces(x.value)
    ensures Round2Opt(x) == x
  {
    if x.Some? {
      Round2Exact(x.value);
    }
  }

  /** Rounding keeps order, though not strict order. */
  lemma Round2Monotone(x: real, y: real)
    requires x <= y
    ensures Round2(x) <= Round2(y)
  {
    NearestMonotone(x * 100.0, y * 100.0);
  }

  lemma NearestMonotone(g: real, h: real)
    requires g <= h
    ensures NearestHundredths(g) <= NearestHundredths(h)
  {
  }

  /** Two values a thousandth apart can be stored as the same hundredth. */
  lemma Round2Collapses()
    ensures Round2(1.001) == Round2(1.002) == Round2(1.004) == 1.0
  {
    assert NearestHundredths(1.001 * 100.0) == 100;
    assert NearestHundredths(1.002 * 100.0) == 100;
    assert NearestHundredths(1.004 * 100.0) == 100;
  }

  // ---------------------------------------------------------------------
  // Error texts
  // ---------------------------------------------------------------------

  /** What the controllers put in front of an exception's message. */
  const ErrorPrefix: string := "เกิดข้อผิดพลาด: "

  /**
    * SQL Server's error for a command parameter whose value is a C# `null`
    * instead of `DBNull.Value` (the parameter list the server also quotes
    * is not part of this model).
    */
  function NotSuppliedMessage(parameter: string): string {
    "The parameterized query expects the parameter '" + parameter + "', which was not supplied."
  }
}
