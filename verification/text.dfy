/**
 * String helpers with the meaning JavaScript gives them: `trim`, ASCII
 * upper/lower-casing, the regular-expression class `\d`, `parseInt` with no
 * radix, `split` on a character class, `includes`, and the decimal rendering
 * of an integer Number.
 */
module Text {
  import opened Wrappers

  // ---------------------------------------------------------------------
  // Whitespace and trimming
  // ---------------------------------------------------------------------

  /** ECMAScript WhiteSpace and LineTerminator code points: what `trim` removes
      and what `parseInt` skips at the front. */
  predicate IsSpace(c: char) {
    var n := c as int;
    || n == 0x09 || n == 0x0A || n == 0x0B || n == 0x0C || n == 0x0D
    || n == 0x20 || n == 0xA0 || n == 0x1680
    || (0x2000 <= n <= 0x200A)
    || n == 0x2028 || n == 0x2029 || n == 0x202F || n == 0x205F
    || n == 0x3000 || n == 0xFEFF
  }

  predicate AllSpace(s: string) {
    forall i | 0 <= i < |s| :: IsSpace(s[i])
  }

  /** Index of the first non-whitespace character of `s` at or after `from`, or `|s|`. */
  function SkipSpace(s: string, from: nat): (k: nat)
    requires from <= |s|
    ensures from <= k <= |s|
    ensures forall i | from <= i < k :: IsSpace(s[i])
    ensures k == |s| || !IsSpace(s[k])
    decreases |s| - from
  {
    if from < |s| && IsSpace(s[from]) then SkipSpace(s, from + 1) else from
  }

  /** Index where the whitespace ending at `stop` begins. */
  function SkipSpaceBack(s: string, stop: nat): (k: nat)
    requires stop <= |s|
    ensures k <= stop
    ensures forall i | k <= i < stop :: IsSpace(s[i])
    ensures k == 0 || !IsSpace(s[k - 1])
    decreases stop
  {
    if stop > 0 && IsSpace(s[stop - 1]) then SkipSpaceBack(s, stop - 1) else stop
  }

  /** Number of whitespace characters at the front of `s`. */
  function LeadingSpace(s: string): (k: nat)
    ensures k <= |s|
    ensures forall i | 0 <= i < k :: IsSpace(s[i])
    ensures k == |s| || !IsSpace(s[k])
  {
    SkipSpace(s, 0)
  }

  /** Index where the whitespace at the end of `s` begins. */
  function TrailingSpaceStart(s: string): (k: nat)
    ensures k <= |s|
    ensures forall i | k <= i < |s| :: IsSpace(s[i])
    ensures k == 0 || !IsSpace(s[k - 1])
  {
    SkipSpaceBack(s, |s|)
  }

  lemma LeadingSpaceIs(s: string, k: nat)
    requires k <= |s|
    requires forall i | 0 <= i < k :: IsSpace(s[i])
    requires k == |s| || !IsSpace(s[k])
    ensures LeadingSpace(s) == k
  {
  }

  lemma TrailingSpaceStartIs(s: string, k: nat)
    requires k <= |s|
    requires forall i | k <= i < |s| :: IsSpace(s[i])
    requires k == 0 || !IsSpace(s[k - 1])
    ensures TrailingSpaceStart(s) == k
  {
  }

  /** `String.prototype.trimStart`. */
  function TrimStart(s: string): string {
    s[LeadingSpace(s)..]
  }

  /** `String.prototype.trimEnd`. */
  function TrimEnd(s: string): string {
    s[..TrailingSpaceStart(s)]
  }

  /** `String.prototype.trim`. */
  function Trim(s: string): string {
    TrimEnd(TrimStart(s))
  }

  /** What `trim` removes is whitespace, on both sides of what it keeps, and
      what it keeps neither starts nor ends with whitespace. */
  lemma TrimIsInfix(s: string)
    ensures Trim(s) == [] || (!IsSpace(Trim(s)[0]) && !IsSpace(Trim(s)[|Trim(s)| - 1]))
    ensures exists k | 0 <= k <= |s| - |Trim(s)| ::
      s[k..k + |Trim(s)|] == Trim(s) && AllSpace(s[..k]) && AllSpace(s[k + |Trim(s)|..])
  {
    var a := LeadingSpace(s);
    var t := TrimStart(s);
    var b := TrailingSpaceStart(t);
    var r := Trim(s);
    assert r == s[a..a + b];
    assert AllSpace(s[..a]);
    var tail := s[a + b..];
    assert AllSpace(tail) by {
      forall i | 0 <= i < |tail| ensures IsSpace(tail[i]) {
        assert tail[i] == t[b + i];
      }
    }
    if r != [] {
      assert r[0] == t[0];
    }
  }

  lemma TrimStartPadded(pre: string, t: string)
    requires AllSpace(pre)
    ensures TrimStart(pre + t) == TrimStart(t)
  {
    var x := pre + t;
    var a := LeadingSpace(t);
    forall i | 0 <= i < |pre| + a ensures IsSpace(x[i]) {
      if i < |pre| { assert x[i] == pre[i]; } else { assert x[i] == t[i - |pre|]; }
    }
    if a < |t| {
      assert x[|pre| + a] == t[a];
    }
    LeadingSpaceIs(x, |pre| + a);
    assert x[|pre| + a..] == t[a..];
  }

  lemma TrimEndPadded(t: string, post: string)
    requires AllSpace(post)
    ensures TrimEnd(t + post) == TrimEnd(t)
  {
    var x := t + post;
    var b := TrailingSpaceStart(t);
    forall i | b <= i < |x| ensures IsSpace(x[i]) {
      if i < |t| { assert x[i] == t[i]; } else { assert x[i] == post[i - |t|]; }
    }
    if b > 0 {
      assert x[b - 1] == t[b - 1];
    }
    TrailingSpaceStartIs(x, b);
    assert x[..b] == t[..b];
  }

  lemma TrimStartKeepsTail(s: string, post: string)
    requires LeadingSpace(s) < |s|
    ensures TrimStart(s + post) == TrimStart(s) + post
  {
    var x := s + post;
    var a := LeadingSpace(s);
    forall i | 0 <= i < a ensures IsSpace(x[i]) {
      assert x[i] == s[i];
    }
    assert x[a] == s[a];
    LeadingSpaceIs(x, a);
    var kept := x[a..];
    var expected := s[a..] + post;
    assert |kept| == |expected|;
    forall i | 0 <= i < |kept| ensures kept[i] == expected[i] {
      assert kept[i] == x[a + i];
    }
    assert kept == expected;
    assert TrimStart(x) == kept;
    assert TrimStart(s) == s[a..];
  }

  lemma TrimEndOfSpace(s: string)
    requires AllSpace(s)
    ensures TrimEnd(s) == []
  {
    TrailingSpaceStartIs(s, 0);
  }

  /** Whitespace added around a string is invisible to `trim`. */
  lemma TrimIgnoresPadding(pre: string, s: string, post: string)
    requires AllSpace(pre) && AllSpace(post)
    ensures Trim(pre + s + post) == Trim(s)
  {
    assert pre + s + post == pre + (s + post);
    TrimStartPadded(pre, s + post);
    if LeadingSpace(s) < |s| {
      TrimStartKeepsTail(s, post);
      TrimEndPadded(TrimStart(s), post);
    } else {
      assert s == s + [];
      TrimStartPadded(s, post);
      assert post == post + [];
      TrimStartPadded(post, []);
      TrimEndOfSpace(TrimStart(s));
    }
  }

  // ---------------------------------------------------------------------
  // Case mapping (ASCII letters)
  // ---------------------------------------------------------------------

  predicate IsLowerLetter(c: char) { 'a' <= c <= 'z' }

  predicate IsUpperLetter(c: char) { 'A' <= c <= 'Z' }

  function UpperChar(c: char): char {
    if IsLowerLetter(c) then (c as int - 32) as char else c
  }

  function LowerChar(c: char): char {
    if IsUpperLetter(c) then (c as int + 32) as char else c
  }

  /** Two strings that differ at most in the case of ASCII letters. */
  predicate SameIgnoringCase(a: string, b: string) {
    |a| == |b| && forall i | 0 <= i < |a| :: LowerChar(a[i]) == LowerChar(b[i])
  }

  /** `toUpperCase` on ASCII letters: same text ignoring case, and no lower-case letter left. */
  function ToUpper(s: string): (r: string)
    ensures SameIgnoringCase(r, s)
    ensures forall i | 0 <= i < |r| :: !IsLowerLetter(r[i])
  {
    seq(|s|, i requires 0 <= i < |s| => UpperChar(s[i]))
  }

  /** `toLowerCase` on ASCII letters: same text ignoring case, and no upper-case letter left. */
  function ToLower(s: string): (r: string)
    ensures SameIgnoringCase(r, s)
    ensures forall i | 0 <= i < |r| :: !IsUpperLetter(r[i])
  {
    seq(|s|, i requires 0 <= i < |s| => LowerChar(s[i]))
  }

  /** Upper-casing sees through any change of letter case. */
  lemma ToUpperIgnoresCase(a: string, b: string)
    requires SameIgnoringCase(a, b)
    ensures ToUpper(a) == ToUpper(b)
  {
    forall i | 0 <= i < |a|
      ensures ToUpper(a)[i] == ToUpper(b)[i]
    {
      assert LowerChar(a[i]) == LowerChar(b[i]);
    }
  }

  // ---------------------------------------------------------------------
  // Digits and numbers
  // ---------------------------------------------------------------------

  /** The regular-expression class `\d` (ASCII digits only, as in JavaScript). */
  predicate IsDigit(c: char) { '0' <= c <= '9' }

  predicate AllDigits(s: string) {
    forall i | 0 <= i < |s| :: IsDigit(s[i])
  }

  /** Digit value of `c` in radix 16 (0-9, a-f, A-F); 16 for any other character. */
  function HexValue(c: char): nat {
    if IsDigit(c) then c as int - '0' as int
    else if 'a' <= c <= 'f' then c as int - 'a' as int + 10
    else if 'A' <= c <= 'F' then c as int - 'A' as int + 10
    else 16
  }

  predicate IsRadixDigit(c: char, radix: nat) { HexValue(c) < radix }

  /** The value of a string of radix digits, most significant first. */
  function RadixValue(s: string, radix: nat): nat
    requires radix == 10 || radix == 16
    requires forall i | 0 <= i < |s| :: IsRadixDigit(s[i], radix)
    decreases |s|
  {
    if s == [] then 0
    else
      var high := RadixValue(s[..|s| - 1], radix);
      (if radix == 16 then 16 * high else 10 * high) + HexValue(s[|s| - 1])
  }

  function Decimal(s: string): nat
    requires AllDigits(s)
  {
    RadixValue(s, 10)
  }

  /** Appending a digit shifts the value one decimal place. */
  lemma DecimalSnoc(s: string, c: char)
    requires AllDigits(s) && IsDigit(c)
    ensures AllDigits(s + [c])
    ensures Decimal(s + [c]) == 10 * Decimal(s) + HexValue(c)
  {
    assert (s + [c])[..|s|] == s;
  }

  /** The value of four decimal digits, as a year is written. */
  lemma DecimalOfFour(s: string)
    requires AllDigits(s) && |s| == 4
    ensures Decimal(s) == 1000 * HexValue(s[0]) + 100 * HexValue(s[1]) + 10 * HexValue(s[2]) + HexValue(s[3])
  {
    DecimalOfShort(s[..2]);
    DecimalSnoc(s[..2], s[2]);
    assert s[..2] + [s[2]] == s[..3];
    DecimalSnoc(s[..3], s[3]);
    assert s[..3] + [s[3]] == s;
  }

  /** The value of one or two decimal digits. */
  lemma DecimalOfShort(s: string)
    requires AllDigits(s) && 1 <= |s| <= 2
    ensures Decimal(s) == if |s| == 1 then HexValue(s[0]) else 10 * HexValue(s[0]) + HexValue(s[1])
    ensures Decimal(s) < 100
  {
    if |s| == 1 {
      assert s[..0] == [];
      assert Decimal(s) == 10 * RadixValue([], 10) + HexValue(s[0]);
    } else {
      var h := s[..1];
      assert h[..0] == [];
      assert RadixValue(h, 10) == 10 * RadixValue([], 10) + HexValue(s[0]);
      assert Decimal(s) == 10 * RadixValue(h, 10) + HexValue(s[1]);
    }
  }

  /** Index of the first character at or after `from` that is not a radix digit, or `|s|`. */
  function SkipRadixDigits(s: string, radix: nat, from: nat): (k: nat)
    requires from <= |s|
    ensures from <= k <= |s|
    ensures forall i | from <= i < k :: IsRadixDigit(s[i], radix)
    ensures k == |s| || !IsRadixDigit(s[k], radix)
    decreases |s| - from
  {
    if from < |s| && IsRadixDigit(s[from], radix) then SkipRadixDigits(s, radix, from + 1) else from
  }

  /** Length of the longest prefix of `s` made of radix digits. */
  function RadixPrefixLength(s: string, radix: nat): (k: nat)
    ensures k <= |s|
    ensures forall i | 0 <= i < k :: IsRadixDigit(s[i], radix)
    ensures k == |s| || !IsRadixDigit(s[k], radix)
  {
    SkipRadixDigits(s, radix, 0)
  }

  function DigitChar(d: nat): (c: char)
    requires d < 10
    ensures IsDigit(c) && HexValue(c) == d
  {
    ('0' as int + d) as char
  }

  /** Decimal rendering of a natural number, without leading zeros, that reads back as `n`. */
  function NatToString(n: nat): (r: string)
    ensures r != [] && AllDigits(r)
    ensures n > 0 ==> r[0] != '0'
    ensures Decimal(r) == n
    decreases n
  {
    if n < 10 then
      var c := DigitChar(n);
      var r := [c];
      assert r[..0] == [];
      assert RadixValue(r, 10) == 10 * RadixValue([], 10) + HexValue(c);
      assert c == '0' ==> n == 0;
      r
    else
      var h := NatToString(n / 10);
      var r := h + [DigitChar(n % 10)];
      assert r[..|r| - 1] == h;
      assert r[0] == h[0];
      assert Decimal(r) == 10 * Decimal(h) + n % 10;
      r
  }

  /** `String(n)` for an integer Number of magnitude below 10^21. */
  function IntToString(n: int): (r: string)
    ensures r != [] && (r[0] == '-' <==> n < 0)
    ensures n < 0 ==> AllDigits(r[1..])
    ensures n >= 0 ==> AllDigits(r)
  {
    if n < 0 then "-" + NatToString(-n) else NatToString(n)
  }

  /** The longest run of radix digits at the front of `s`; `None` when there is none. */
  function ParseRadixRun(s: string, radix: nat): Option<nat>
    requires radix == 10 || radix == 16
  {
    var k := RadixPrefixLength(s, radix);
    if k == 0 then None else Some(RadixValue(s[..k], radix))
  }

  /** The unsigned part of `parseInt`: a `0x`/`0X` prefix selects radix 16. */
  function ParseUnsigned(u: string): Option<nat> {
    if |u| >= 2 && u[0] == '0' && (u[1] == 'x' || u[1] == 'X') then ParseRadixRun(u[2..], 16)
    else ParseRadixRun(u, 10)
  }

  /**
   * Global `parseInt(s)` with no radix argument: skip leading whitespace, take
   * an optional sign, then read the unsigned part. No digits at all gives
   * `NaN`, here `None`.
   */
  function ParseInt(s: string): Option<int> {
    var t := TrimStart(s);
    if t != [] && t[0] == '-' then
      match ParseUnsigned(t[1..])
      case None => None
      case Some(v) => Some(-(v as int))
    else if t != [] && t[0] == '+' then
      match ParseUnsigned(t[1..])
      case None => None
      case Some(v) => Some(v)
    else
      match ParseUnsigned(t)
      case None => None
      case Some(v) => Some(v)
  }

  lemma DigitsAreRadixDigits(s: string)
    requires AllDigits(s)
    ensures RadixPrefixLength(s, 10) == |s|
  {
  }

  lemma ParseUnsignedDigits(digits: string)
    requires AllDigits(digits) && digits != []
    ensures ParseUnsigned(digits) == Some(Decimal(digits))
  {
    DigitsAreRadixDigits(digits);
    assert digits[..|digits|] == digits;
    if |digits| >= 2 {
      assert IsDigit(digits[1]);
    }
  }

  /** A run of ASCII digits, however padded on the left, reads as its decimal value. */
  lemma ParseIntDigits(pre: string, digits: string)
    requires AllSpace(pre) && AllDigits(digits) && digits != []
    ensures ParseInt(pre + digits) == Some(Decimal(digits))
  {
    var x := pre + digits;
    assert !IsSpace(digits[0]);
    LeadingSpaceIs(x, |pre|);
    assert TrimStart(x) == digits;
    ParseUnsignedDigits(digits);
  }

  /** Only ASCII digits are radix-10 digits. */
  lemma RadixTenDigit(c: char)
    ensures IsRadixDigit(c, 10) <==> IsDigit(c)
  {
  }

  /** The run of radix-10 digits at the front of `digits + rest` is `digits` when `rest` starts with no digit. */
  lemma DecimalRunIs(digits: string, rest: string)
    requires AllDigits(digits)
    requires rest == [] || !IsDigit(rest[0])
    ensures RadixPrefixLength(digits + rest, 10) == |digits|
  {
    var u := digits + rest;
    var k := RadixPrefixLength(u, 10);
    if k < |digits| {
      RadixTenDigit(u[k]);
      assert u[k] == digits[k];
    } else if rest != [] {
      RadixTenDigit(rest[0]);
      assert u[|digits|] == rest[0];
    }
  }

  /** The unsigned part reads the leading run of decimal digits, unless it is a lone `0` before `x`. */
  lemma ParseUnsignedPrefix(digits: string, rest: string)
    requires AllDigits(digits) && digits != []
    requires rest == [] || !IsDigit(rest[0])
    requires !(digits == "0" && rest != [] && (rest[0] == 'x' || rest[0] == 'X'))
    ensures ParseUnsigned(digits + rest) == Some(Decimal(digits))
  {
    var u := digits + rest;
    if |u| >= 2 && u[0] == '0' {
      if |digits| >= 2 {
        assert u[1] == digits[1];
      } else {
        assert u[1] == rest[0];
      }
    }
    DecimalRunIs(digits, rest);
    assert u[..|digits|] == digits;
  }

  /** Leading white space ends where the first character that is not white space stands. */
  lemma TrimStartOfPadded(pad: string, t: string)
    requires AllSpace(pad) && t != [] && !IsSpace(t[0])
    ensures TrimStart(pad + t) == t
  {
    var x := pad + t;
    assert x[|pad|] == t[0];
    LeadingSpaceIs(x, |pad|);
    assert x[|pad|..] == t;
  }

  /**
   * `parseInt` reads the run of digits after leading white space and an
   * optional sign, and ignores whatever follows the run; the one exception
   * is a lone `0` followed by `x` or `X`, which selects radix 16.
   */
  lemma ParseIntPrefix(pad: string, sign: string, digits: string, rest: string)
    requires AllSpace(pad) && (sign == "" || sign == "-" || sign == "+")
    requires AllDigits(digits) && digits != []
    requires rest == [] || !IsDigit(rest[0])
    requires !(digits == "0" && rest != [] && (rest[0] == 'x' || rest[0] == 'X'))
    ensures ParseInt(pad + sign + digits + rest) == Some(if sign == "-" then -(Decimal(digits) as int) else Decimal(digits))
  {
    if sign == "" {
      assert pad + sign + digits + rest == pad + (digits + rest);
      ParseIntPrefixUnsigned(pad, digits, rest);
    } else {
      assert pad + sign + digits + rest == pad + ([sign[0]] + (digits + rest));
      ParseIntPrefixSigned(pad, sign[0], digits, rest);
    }
  }

  /** `ParseIntPrefix` without a sign. */
  lemma ParseIntPrefixUnsigned(pad: string, digits: string, rest: string)
    requires AllSpace(pad) && AllDigits(digits) && digits != []
    requires rest == [] || !IsDigit(rest[0])
    requires !(digits == "0" && rest != [] && (rest[0] == 'x' || rest[0] == 'X'))
    ensures ParseInt(pad + (digits + rest)) == Some(Decimal(digits))
  {
    var u := digits + rest;
    assert u[0] == digits[0];
    TrimStartOfPadded(pad, u);
    ParseUnsignedPrefix(digits, rest);
    ParseIntUnsigned(pad + u, u, Decimal(digits));
  }

  /** `ParseIntPrefix` with a sign. */
  lemma ParseIntPrefixSigned(pad: string, sign: char, digits: string, rest: string)
    requires AllSpace(pad) && (sign == '-' || sign == '+')
    requires AllDigits(digits) && digits != []
    requires rest == [] || !IsDigit(rest[0])
    requires !(digits == "0" && rest != [] && (rest[0] == 'x' || rest[0] == 'X'))
    ensures ParseInt(pad + ([sign] + (digits + rest))) == Some(if sign == '-' then -(Decimal(digits) as int) else Decimal(digits))
  {
    var u := digits + rest;
    var t := [sign] + u;
    assert t[0] == sign && t[1..] == u;
    TrimStartOfPadded(pad, t);
    ParseUnsignedPrefix(digits, rest);
    ParseIntSigned(pad + t, u, Decimal(digits));
  }

  /** With a digit first after the white space, `parseInt` is its unsigned part. */
  lemma ParseIntUnsigned(x: string, u: string, v: nat)
    requires TrimStart(x) == u && u != [] && IsDigit(u[0])
    requires ParseUnsigned(u) == Some(v)
    ensures ParseInt(x) == Some(v)
  {
  }

  /** After a sign, `parseInt` is the unsigned part, negated for `-`. */
  lemma ParseIntSigned(x: string, u: string, v: nat)
    requires |TrimStart(x)| >= 1 && TrimStart(x)[1..] == u
    requires TrimStart(x)[0] == '-' || TrimStart(x)[0] == '+'
    requires ParseUnsigned(u) == Some(v)
    ensures ParseInt(x) == Some(if TrimStart(x)[0] == '-' then -(v as int) else v)
  {
  }

  /** What `parseInt` expects to start with a digit: the text after leading white space and one optional sign. */
  function AfterSign(s: string): string {
    var t := TrimStart(s);
    if t != [] && (t[0] == '-' || t[0] == '+') then t[1..] else t
  }

  /** When no digit follows the white space and the sign, `parseInt` gives `NaN`. */
  lemma ParseIntNoDigits(s: string)
    requires AfterSign(s) == [] || !IsDigit(AfterSign(s)[0])
    ensures ParseInt(s) == None
  {
    var u := AfterSign(s);
    if u != [] {
      RadixTenDigit(u[0]);
    }
  }

  /** A date part with text after its digits still reads as the digits: `parseInt("15T10")` is 15. */
  lemma ParseIntTrailingText(s: string)
    requires s == "15T10"
    ensures ParseInt(s) == Some(15)
  {
    var digits, rest := "15", "T10";
    assert s == "" + "" + digits + rest;
    assert AllDigits(digits) && !IsDigit(rest[0]);
    DecimalOfShort(digits);
    assert Decimal(digits) == 15;
    ParseIntPrefix("", "", digits, rest);
  }

  /** Text that starts with a letter is not a number: `parseInt("abc")` is `NaN`. */
  lemma ParseIntLetters(s: string)
    requires s == "abc"
    ensures ParseInt(s) == None
  {
    LeadingSpaceIs(s, 0);
    assert AfterSign(s) == s;
    ParseIntNoDigits(s);
  }

  /** `parseInt` undoes `String` on every integer. */
  lemma ParseIntOfIntToString(n: int)
    ensures ParseInt(IntToString(n)) == Some(n)
  {
    var r := IntToString(n);
    LeadingSpaceIs(r, 0);
    assert TrimStart(r) == r;
    if n < 0 {
      ParseUnsignedDigits(r[1..]);
    } else {
      ParseUnsignedDigits(r);
    }
  }

  // ---------------------------------------------------------------------
  // Splitting and searching
  // ---------------------------------------------------------------------

  predicate NoneOf(s: string, seps: set<char>) {
    forall i | 0 <= i < |s| :: s[i] !in seps
  }

  function CountOf(s: string, seps: set<char>): nat
    decreases |s|
  {
    if s == [] then 0 else (if s[0] in seps then 1 else 0) + CountOf(s[1..], seps)
  }

  /** `s.split(/[...]/)` for a class of single-character separators: the maximal
      separator-free pieces, one more than there are separators. */
  function SplitOn(s: string, seps: set<char>): (parts: seq<string>)
    ensures |parts| == CountOf(s, seps) + 1
    ensures forall i | 0 <= i < |parts| :: NoneOf(parts[i], seps)
    decreases |s|
  {
    if s == [] then [""]
    else if s[0] in seps then [""] + SplitOn(s[1..], seps)
    else
      var rest := SplitOn(s[1..], seps);
      [[s[0]] + rest[0]] + rest[1..]
  }

  lemma {:induction false} SplitOnPiece(a: string, sep: char, b: string, seps: set<char>)
    requires NoneOf(a, seps) && sep in seps
    ensures SplitOn(a + [sep] + b, seps) == [a] + SplitOn(b, seps)
    decreases |a|
  {
    if a == [] {
      assert a + [sep] + b == [sep] + b;
      assert ([sep] + b)[1..] == b;
    } else {
      assert (a + [sep] + b)[1..] == a[1..] + [sep] + b;
      SplitOnPiece(a[1..], sep, b, seps);
      assert [a[0]] + a[1..] == a;
    }
  }

  lemma {:induction false} SplitOnWhole(a: string, seps: set<char>)
    requires NoneOf(a, seps)
    ensures SplitOn(a, seps) == [a]
    decreases |a|
  {
    if a != [] {
      SplitOnWhole(a[1..], seps);
      assert [a[0]] + a[1..] == a;
    }
  }

  /** Three separator-free pieces joined by separators split back into exactly those pieces. */
  lemma SplitOnThree(a: string, s1: char, b: string, s2: char, c: string, seps: set<char>)
    requires NoneOf(a, seps) && NoneOf(b, seps) && NoneOf(c, seps)
    requires s1 in seps && s2 in seps
    ensures SplitOn(a + [s1] + b + [s2] + c, seps) == [a, b, c]
  {
    assert a + [s1] + b + [s2] + c == a + [s1] + (b + [s2] + c);
    SplitOnPiece(a, s1, b + [s2] + c, seps);
    SplitOnPiece(b, s2, c, seps);
    SplitOnWhole(c, seps);
  }

  predicate OccursAt(haystack: string, needle: string, i: int) {
    0 <= i <= |haystack| - |needle| && haystack[i..i + |needle|] == needle
  }

  /** `haystack.includes(needle)`. */
  predicate Contains(haystack: string, needle: string) {
    exists i | 0 <= i <= |haystack| - |needle| :: OccursAt(haystack, needle, i)
  }

  /** Index of the first `c` in `s`, or `|s|` when there is none. */
  function IndexOf(s: string, c: char): (k: nat)
    ensures k <= |s|
    ensures forall i | 0 <= i < k :: s[i] != c
    ensures k < |s| ==> s[k] == c
    decreases |s|
  {
    if s == [] then 0 else if s[0] == c then 0 else 1 + IndexOf(s[1..], c)
  }

  /** A JavaScript value used as a condition: `null` and `""` are false. */
  predicate IsTruthy(s: Option<string>) {
    s.Some? && s.value != ""
  }
}
