/** String helpers shared by the PHP and JavaScript parts of the model:
    trimming, truncation, splitting and joining, decimal conversion and
    the runtime's ordering of strings. Strings are sequences of Unicode
    code points, which is what PHP's mb_* functions count. */
module Text {

  import opened Wrappers

  /** The characters PHP's trim() strips when no list is given. */
  const PhpTrimChars: set<char> := {' ', '\t', '\n', '\r', '\0', '\U{B}'}

  /** The characters JavaScript's String.prototype.trim strips
      (WhiteSpace and LineTerminator of ECMA-262). */
  const JsTrimChars: set<char> :=
    {'\t', '\n', '\U{B}', '\U{C}', '\r', ' ', '\U{A0}', '\U{1680}',
     '\U{2000}', '\U{2001}', '\U{2002}', '\U{2003}', '\U{2004}', '\U{2005}',
     '\U{2006}', '\U{2007}', '\U{2008}', '\U{2009}', '\U{200A}',
     '\U{2028}', '\U{2029}', '\U{202F}', '\U{205F}', '\U{3000}', '\U{FEFF}'}

  /** The whitespace PHP allows in front of a numeric string. */
  const NumericLeadingChars: set<char> := {' ', '\t', '\n', '\r', '\U{B}', '\U{C}'}

  function Min(a: int, b: int): int { if a <= b then a else b }

  function Max(a: int, b: int): int { if a <= b then b else a }

  predicate IsPrefix(p: string, s: string) { |p| <= |s| && s[..|p|] == p }

  predicate IsSuffix(p: string, s: string) { |p| <= |s| && s[|s| - |p|..] == p }

  /** Drops the leading characters that belong to `ws`. */
  function TrimStart(s: string, ws: set<char>): (r: string)
    ensures IsSuffix(r, s)
    ensures r == [] || r[0] !in ws
    ensures forall k :: 0 <= k < |s| - |r| ==> s[k] in ws
  {
    if |s| > 0 && s[0] in ws then
      var r := TrimStart(s[1..], ws);
      assert s[1..][|s| - 1 - |r|..] == s[|s| - |r|..];
      assert forall k :: 1 <= k < |s| - |r| ==> s[k] == s[1..][k - 1];
      r
    else s
  }

  /** Drops the trailing characters that belong to `ws`. */
  function TrimEnd(s: string, ws: set<char>): (r: string)
    ensures IsPrefix(r, s)
    ensures r == [] || r[|r| - 1] !in ws
    ensures forall k :: |r| <= k < |s| ==> s[k] in ws
  {
    if |s| > 0 && s[|s| - 1] in ws then
      var r := TrimEnd(s[..|s| - 1], ws);
      assert s[..|s| - 1][..|r|] == s[..|r|];
      r
    else s
  }

  /** Drops the characters of `ws` at both ends. */
  function Trim(s: string, ws: set<char>): (r: string)
    ensures |r| <= |s|
    ensures r == [] || (r[0] !in ws && r[|r| - 1] !in ws)
    ensures r == [] <==> forall k :: 0 <= k < |s| ==> s[k] in ws
    ensures |s| > 0 && s[0] !in ws && s[|s| - 1] !in ws ==> r == s
  {
    var t := TrimStart(s, ws);
    var r := TrimEnd(t, ws);
    assert r != [] ==> r[0] == t[0] && t[0] == s[|s| - |t|];
    r
  }

  /** Trimming only removes characters. */
  lemma TrimWithin(s: string, ws: set<char>, c: char)
    requires c !in s
    ensures c !in Trim(s, ws)
  {
  }

  /** PHP's trim($s). */
  function PhpTrim(s: string): string { Trim(s, PhpTrimChars) }

  /** JavaScript's s.trim(). */
  function JsTrim(s: string): string { Trim(s, JsTrimChars) }

  /** PHP's mb_substr($s, 0, $n): the first min(|s|, n) characters. */
  function Take(s: string, n: nat): (r: string)
    ensures IsPrefix(r, s)
    ensures |r| == Min(|s|, n)
  {
    if |s| <= n then s else s[..n]
  }

  /** PHP's implode($sep, $parts) and JavaScript's parts.join(sep). */
  function Join(parts: seq<string>, sep: string): string
  {
    if |parts| == 0 then ""
    else if |parts| == 1 then parts[0]
    else parts[0] + sep + Join(parts[1..], sep)
  }

  /** PHP's explode($c, $s) and JavaScript's s.split(c) for a
      one-character separator: the maximal pieces between separators. */
  function Split(s: string, c: char): (parts: seq<string>)
    ensures |parts| >= 1
    ensures forall k :: 0 <= k < |parts| ==> c !in parts[k]
    ensures Join(parts, [c]) == s
  {
    if s == [] then [""]
    else
      var rest := Split(s[1..], c);
      if s[0] == c then
        assert Join([""] + rest, [c]) == "" + [c] + Join(rest, [c]);
        [""] + rest
      else
        var parts := [[s[0]] + rest[0]] + rest[1..];
        assert parts[1..] == rest[1..];
        assert s == [s[0]] + s[1..];
        parts
  }

  /** A string without the separator splits into itself. */
  lemma {:induction false} SplitWithoutSeparator(s: string, c: char)
    requires c !in s
    ensures Split(s, c) == [s]
  {
    if s != [] {
      assert c !in s[1..];
      SplitWithoutSeparator(s[1..], c);
      assert [s[0]] + s[1..] == s;
    }
  }

  lemma {:induction false} SplitAfterPiece(p: string, c: char, t: string)
    requires c !in p
    ensures Split(p + [c] + t, c) == [p] + Split(t, c)
  {
    if p == [] {
      assert (p + [c] + t)[1..] == t;
    } else {
      assert (p + [c] + t)[1..] == p[1..] + [c] + t;
      assert c !in p[1..];
      SplitAfterPiece(p[1..], c, t);
      assert [p[0]] + p[1..] == p;
    }
  }

  /** Splitting undoes joining when no piece holds the separator. */
  lemma {:induction false} SplitJoin(parts: seq<string>, c: char)
    requires |parts| >= 1
    requires forall k :: 0 <= k < |parts| ==> c !in parts[k]
    ensures Split(Join(parts, [c]), c) == parts
  {
    if |parts| == 1 {
      SplitWithoutSeparator(parts[0], c);
    } else {
      SplitJoin(parts[1..], c);
      SplitAfterPiece(parts[0], c, Join(parts[1..], [c]));
      assert [parts[0]] + parts[1..] == parts;
    }
  }

  /** JavaScript's toLowerCase on one character, for the Basic Latin and
      Latin-1 letters. */
  function LowerChar(ch: char): char
  {
    if 'A' <= ch <= 'Z' || ('\U{C0}' <= ch <= '\U{DE}' && ch != '\U{D7}') then
      (ch as int + 32) as char
    else ch
  }

  /** JavaScript's s.toLowerCase(), letter by letter. */
  function ToLower(s: string): string
  {
    seq(|s|, k requires 0 <= k < |s| => LowerChar(s[k]))
  }

  /** JavaScript's `a < b` on two strings: lexicographic order on
      characters, a proper prefix coming first. */
  predicate LexLess(a: string, b: string)
  {
    if |a| == 0 then |b| > 0
    else if |b| == 0 then false
    else if a[0] != b[0] then a[0] < b[0]
    else LexLess(a[1..], b[1..])
  }

  lemma {:induction false} LexLessIrreflexive(a: string)
    ensures !LexLess(a, a)
  {
    if |a| > 0 {
      LexLessIrreflexive(a[1..]);
    }
  }

  lemma {:induction false} LexLessTransitive(a: string, b: string, c: string)
    requires LexLess(a, b) && LexLess(b, c)
    ensures LexLess(a, c)
  {
    if |a| > 0 && |b| > 0 && |c| > 0 && a[0] == b[0] && b[0] == c[0] {
      LexLessTransitive(a[1..], b[1..], c[1..]);
    }
  }

  /** Two different strings are ordered one way or the other. */
  lemma {:induction false} LexLessTotal(a: string, b: string)
    requires a != b
    ensures LexLess(a, b) || LexLess(b, a)
  {
    if |a| > 0 && |b| > 0 && a[0] == b[0] {
      assert a == [a[0]] + a[1..] && b == [b[0]] + b[1..];
      LexLessTotal(a[1..], b[1..]);
    }
  }

  lemma {:induction false} LexLessAsymmetric(a: string, b: string)
    requires LexLess(a, b)
    ensures !LexLess(b, a)
  {
    if |a| > 0 && |b| > 0 && a[0] == b[0] {
      LexLessAsymmetric(a[1..], b[1..]);
    }
  }

  predicate IsDigit(ch: char) { '0' <= ch <= '9' }

  predicate AllDigits(s: string) { forall k :: 0 <= k < |s| ==> IsDigit(s[k]) }

  function DigitChar(d: nat): (ch: char)
    requires d < 10
    ensures IsDigit(ch) && ch as int - '0' as int == d
  {
    ('0' as int + d) as char
  }

  function DigitValue(ch: char): nat
    requires IsDigit(ch)
  {
    ch as int - '0' as int
  }

  /** The decimal representation of n, without sign or leading zeros. */
  function NatToString(n: nat): (r: string)
    ensures |r| >= 1 && AllDigits(r)
    ensures n >= 10 ==> r[0] != '0'
    decreases n
  {
    if n < 10 then [DigitChar(n)]
    else NatToString(n / 10) + [DigitChar(n % 10)]
  }

  /** PHP's string interpolation and JavaScript's template interpolation
      of an integer. */
  function IntToString(i: int): string
  {
    if i < 0 then "-" + NatToString(-i) else NatToString(i)
  }

  /** The value of a string of decimal digits. */
  function DecimalValue(s: string): nat
    requires AllDigits(s)
  {
    if s == [] then 0
    else DecimalValue(s[..|s| - 1]) * 10 + DigitValue(s[|s| - 1])
  }

  lemma {:induction false} DecimalRoundTrip(n: nat)
    ensures DecimalValue(NatToString(n)) == n
  {
    if n >= 10 {
      var s := NatToString(n);
      assert s[..|s| - 1] == NatToString(n / 10);
      DecimalRoundTrip(n / 10);
    }
  }

  /** The longest prefix of `s` made of decimal digits. */
  function LeadingDigits(s: string): (r: string)
    ensures IsPrefix(r, s) && AllDigits(r)
    ensures |r| == |s| || !IsDigit(s[|r|])
  {
    if |s| > 0 && IsDigit(s[0]) then
      var r := LeadingDigits(s[1..]);
      assert s[..|r| + 1] == [s[0]] + s[1..][..|r|];
      [s[0]] + r
    else []
  }

  const Int64Max: int := 0x7FFF_FFFF_FFFF_FFFF
  const Int64Min: int := -0x8000_0000_0000_0000

  function Pow10(n: nat): (p: nat)
    ensures p >= 1
  {
    if n == 0 then 1 else 10 * Pow10(n - 1)
  }

  /** PHP's conversion of an out-of-range number to a 64-bit integer
      saturates. */
  function Saturate64(i: int): (r: int)
    ensures Int64Min <= r <= Int64Max
    ensures Int64Min <= i <= Int64Max ==> r == i
  {
    if i > Int64Max then Int64Max else if i < Int64Min then Int64Min else i
  }

  /** A numeric prefix: sign, the digits before and after the point, and
      the decimal exponent. */
  datatype Numeral = Numeral(negative: bool, whole: string, fraction: string, exponent: int)

  /** An exponent `e` or `E`, an optional sign and at least one digit; 0
      when the text does not start with one. */
  function ExponentOf(s: string): int
  {
    if |s| >= 2 && (s[0] == 'e' || s[0] == 'E') then
      var v := s[1..];
      var w := if v[0] == '-' || v[0] == '+' then v[1..] else v;
      var d := LeadingDigits(w);
      if d == [] then 0 else if v[0] == '-' then -(DecimalValue(d) as int) else DecimalValue(d)
    else 0
  }

  /** The numeric prefix PHP reads after leading whitespace: an optional
      sign, then `digits`, `digits.`, `digits.digits` or `.digits`, then an
      optional exponent; None when there is none. */
  function ReadNumeral(s: string): Option<Numeral>
  {
    var t := TrimStart(s, NumericLeadingChars);
    var u := if |t| > 0 && (t[0] == '-' || t[0] == '+') then t[1..] else t;
    var whole := LeadingDigits(u);
    var rest := u[|whole|..];
    var pointed := |rest| > 0 && rest[0] == '.';
    var fraction := if pointed then LeadingDigits(rest[1..]) else [];
    var after := if pointed then rest[1 + |fraction|..] else rest;
    if whole == [] && fraction == [] then None
    else Some(Numeral(|t| > 0 && t[0] == '-', whole, fraction, ExponentOf(after)))
  }

  /** n zero digits. */
  function Zeros(n: nat): (r: string)
    ensures |r| == n && AllDigits(r)
  {
    if n == 0 then [] else Zeros(n - 1) + "0"
  }

  /** The digits of digits * 10^shift truncated toward zero: zeros
      appended for a non-negative shift, trailing digits dropped for a
      negative one. */
  function Shifted(digits: string, shift: int): (r: string)
    requires AllDigits(digits)
    ensures AllDigits(r)
  {
    if shift >= 0 then
      AllDigitsAppend(digits, Zeros(shift));
      digits + Zeros(shift)
    else if -shift <= |digits| then digits[..|digits| + shift]
    else []
  }

  /** The value of a numeral, truncated toward zero. */
  function NumeralValue(n: Numeral): int
    requires AllDigits(n.whole) && AllDigits(n.fraction)
  {
    AllDigitsAppend(n.whole, n.fraction);
    var magnitude: int := DecimalValue(Shifted(n.whole + n.fraction, n.exponent - |n.fraction|));
    if n.negative then -magnitude else magnitude
  }

  /** PHP's (int) cast of a string (PHP 7.1 and later): the leading
      numeric prefix, exponent included, truncated toward zero and
      saturated to 64 bits; 0 when the string does not start with a
      number. */
  function PhpIntval(s: string): (r: int)
    ensures Int64Min <= r <= Int64Max
    ensures ReadNumeral(s).None? ==> r == 0
  {
    match ReadNumeral(s)
    case None => 0
    case Some(n) => Saturate64(NumeralValue(n))
  }

  lemma {:induction false} LeadingDigitsOfDigits(s: string)
    requires AllDigits(s)
    ensures LeadingDigits(s) == s
  {
    if |s| > 0 {
      LeadingDigitsOfDigits(s[1..]);
      assert [s[0]] + s[1..] == s;
    }
  }

  /** The digits read stop at the first character that is not one. */
  lemma {:induction false} LeadingDigitsStop(a: string, b: string)
    requires AllDigits(a) && b != [] && !IsDigit(b[0])
    ensures LeadingDigits(a + b) == a
  {
    if |a| > 0 {
      assert (a + b)[1..] == a[1..] + b;
      LeadingDigitsStop(a[1..], b);
      assert [a[0]] + a[1..] == a;
    }
  }

  lemma AllDigitsAppend(a: string, b: string)
    requires AllDigits(a) && AllDigits(b)
    ensures AllDigits(a + b)
  {
    forall k | 0 <= k < |a + b| ensures IsDigit((a + b)[k]) {
      if k >= |a| { assert (a + b)[k] == b[k - |a|]; }
    }
  }

  lemma MulTen(x: nat, p: nat)
    ensures (x * p) * 10 == x * (10 * p)
  {
  }

  /** Appending n zero digits multiplies the value by 10^n. */
  lemma {:induction false} DecimalValueZeros(a: string, n: nat)
    requires AllDigits(a)
    ensures AllDigits(a + Zeros(n))
    ensures DecimalValue(a + Zeros(n)) == DecimalValue(a) * Pow10(n)
  {
    AllDigitsAppend(a, Zeros(n));
    if n == 0 {
      assert a + Zeros(n) == a;
    } else {
      var s, s' := a + Zeros(n), a + Zeros(n - 1);
      assert s == s' + "0";
      DecimalValueZeros(a, n - 1);
      assert DecimalValue(s) == DecimalValue(s') * 10 by {
        assert s[..|s| - 1] == s';
      }
      MulTen(DecimalValue(a), Pow10(n - 1));
    }
  }

  /** A string starting with a digit has no leading whitespace or sign. */
  lemma StartsWithDigit(s: string)
    requires s != [] && IsDigit(s[0])
    ensures TrimStart(s, NumericLeadingChars) == s
    ensures s[0] != '-' && s[0] != '+'
  {
    assert s[0] !in NumericLeadingChars;
  }

  /** Digits followed by something other than a digit or a point: a
      numeral without fraction, the rest read as exponent. */
  lemma ReadNumeralWhole(ms: string, tail: string)
    requires AllDigits(ms) && ms != [] && tail != [] && !IsDigit(tail[0]) && tail[0] != '.'
    ensures ReadNumeral(ms + tail) == Some(Numeral(false, ms, [], ExponentOf(tail)))
  {
    var s := ms + tail;
    StartsWithDigit(s);
    LeadingDigitsStop(ms, tail);
    assert s[|ms|..] == tail;
  }

  /** Digits, a point and digits: a numeral with a fraction. */
  lemma ReadNumeralPointed(ms: string, f: string)
    requires AllDigits(ms) && ms != [] && AllDigits(f)
    ensures ReadNumeral(ms + "." + f) == Some(Numeral(false, ms, f, 0))
  {
    var s := ms + "." + f;
    StartsWithDigit(s);
    assert s == ms + ("." + f);
    LeadingDigitsStop(ms, "." + f);
    var rest := s[|ms|..];
    assert rest == "." + f;
    assert rest[1..] == f;
    LeadingDigitsOfDigits(f);
    assert rest[1 + |f|..] == [];
  }

  lemma ExponentOfDigits(k: nat)
    ensures ExponentOf("e" + NatToString(k)) == k
  {
    var ks := NatToString(k);
    assert ("e" + ks)[1..] == ks;
    LeadingDigitsOfDigits(ks);
    DecimalRoundTrip(k);
  }

  /** The (int) cast reads back a decimal numeral, saturated to 64 bits. */
  lemma IntvalOfNatString(n: nat)
    ensures PhpIntval(NatToString(n)) == Min(n, Int64Max)
  {
    var s := NatToString(n);
    StartsWithDigit(s);
    LeadingDigitsOfDigits(s);
    DecimalRoundTrip(n);
    assert s + [] == s;
  }

  /** A numeral with an exponent, as `1e2` in `?limit=1e2`, reads as the
      number it denotes. */
  lemma IntvalOfScientific(m: nat, k: nat)
    ensures PhpIntval(NatToString(m) + "e" + NatToString(k)) == Saturate64(m * Pow10(k))
  {
    var ms, ks := NatToString(m), NatToString(k);
    assert ms + "e" + ks == ms + ("e" + ks);
    ReadNumeralWhole(ms, "e" + ks);
    ExponentOfDigits(k);
    assert ms + [] == ms;
    DecimalValueZeros(ms, k);
    DecimalRoundTrip(m);
  }

  /** The fraction of a numeral is dropped, as `2.75` reads as 2. */
  lemma IntvalTruncatesFraction(m: nat, f: string)
    requires AllDigits(f)
    ensures PhpIntval(NatToString(m) + "." + f) == Min(m, Int64Max)
  {
    var ms := NatToString(m);
    var n := Numeral(false, ms, f, 0);
    ReadNumeralPointed(ms, f);
    AllDigitsAppend(ms, f);
    assert Shifted(ms + f, -|f|) == ms by {
      assert (ms + f)[..|ms + f| - |f|] == ms;
    }
    DecimalRoundTrip(m);
    assert NumeralValue(n) == m;
  }

  /** JavaScript's Number(s) for the strings that denote an integer:
      surrounding whitespace, an optional sign and decimal digits; the
      empty string is 0. None stands for NaN. */
  function JsStringToNumber(s: string): Option<int>
  {
    var t := JsTrim(s);
    if t == [] then Some(0)
    else if (t[0] == '-' || t[0] == '+') && |t| > 1 && AllDigits(t[1..]) then
      Some(if t[0] == '-' then -(DecimalValue(t[1..]) as int) else DecimalValue(t[1..]))
    else if AllDigits(t) then Some(DecimalValue(t))
    else None
  }

}
