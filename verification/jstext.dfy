/** The parts of the JavaScript runtime's text handling that the colour library relies on:
    the white-space class, reading digits, the text-to-number conversions `parseInt`,
    `parseFloat` and `Number`, and the rendering of integers as digit text.
    Numbers are held exactly: rounding to IEEE doubles (and overflow to Infinity) is not modelled. */
module JsText {
  import opened Results

  /** A JavaScript number: a finite value, NaN, or one of the two infinities. */
  datatype Number = Finite(value: real) | NaN | PosInf | NegInf

  /** The characters of the regular-expression class `\s`. The same set (ECMAScript
      WhiteSpace and LineTerminator) is what parseInt, parseFloat and Number skip. */
  predicate IsSpace(c: char) {
    || c == '\t' || c == '\n' || c == '\U{000B}' || c == '\U{000C}' || c == '\r' || c == ' '
    || c == '\U{00A0}' || c == '\U{1680}' || ('\U{2000}' <= c <= '\U{200A}')
    || c == '\U{2028}' || c == '\U{2029}' || c == '\U{202F}' || c == '\U{205F}'
    || c == '\U{3000}' || c == '\U{FEFF}'
  }

  /** The digit value of an ASCII digit or letter (0-9, then a/A = 10 up to z/Z = 35);
      36 for every other character, so it is a digit in no radix. */
  function DigitValue(c: char): (d: nat)
    ensures d <= 36
  {
    if '0' <= c <= '9' then c as nat - '0' as nat
    else if 'a' <= c <= 'z' then c as nat - 'a' as nat + 10
    else if 'A' <= c <= 'Z' then c as nat - 'A' as nat + 10
    else 36
  }

  /** No white-space character is a digit. */
  lemma SpaceIsNoDigit(c: char)
    requires IsSpace(c)
    ensures DigitValue(c) == 36
  {
  }

  /** No digit of any radix is a white-space character. */
  lemma DigitIsNoSpace(c: char)
    requires DigitValue(c) < 36
    ensures !IsSpace(c)
  {
  }

  predicate IsDigitIn(c: char, radix: nat) {
    DigitValue(c) < radix
  }

  predicate IsDecimalDigit(c: char) {
    IsDigitIn(c, 10)
  }

  /** The characters of the class [a-fA-F0-9]. */
  predicate IsHexDigit(c: char) {
    IsDigitIn(c, 16)
  }

  /** The character classes the scanners below skip over. */
  datatype CharClass = Space | DigitOf(radix: nat)

  predicate In(c: char, k: CharClass) {
    match k
    case Space => IsSpace(c)
    case DigitOf(radix) => IsDigitIn(c, radix)
  }

  /** Length of the longest prefix of `s` whose characters all belong to `k`. */
  function Span(s: string, k: CharClass): (n: nat)
    ensures n <= |s|
    ensures forall i :: 0 <= i < n ==> In(s[i], k)
    ensures n < |s| ==> !In(s[n], k)
  {
    if |s| == 0 || !In(s[0], k) then 0 else 1 + Span(s[1..], k)
  }

  /** Length of the longest suffix of `s` whose characters all belong to `k`. */
  function SpanEnd(s: string, k: CharClass): (n: nat)
    ensures n <= |s|
    ensures forall i :: |s| - n <= i < |s| ==> In(s[i], k)
    ensures n < |s| ==> !In(s[|s| - n - 1], k)
  {
    if |s| == 0 || !In(s[|s| - 1], k) then 0 else 1 + SpanEnd(s[..|s| - 1], k)
  }

  /** The text without its leading white space. */
  function TrimStart(s: string): string {
    s[Span(s, Space)..]
  }

  /** The text without its leading and trailing white space. */
  function Trim(s: string): string {
    var t := TrimStart(s);
    t[..|t| - SpanEnd(t, Space)]
  }

  function Pow(base: nat, e: nat): (p: nat)
    ensures base >= 1 ==> p >= 1
  {
    if e == 0 then 1 else base * Pow(base, e - 1)
  }

  /** The value of a digit string in `radix`, most significant digit first. */
  function DigitsValue(s: string, radix: nat): nat {
    if |s| == 0 then 0 else DigitsValue(s[..|s| - 1], radix) * radix + DigitValue(s[|s| - 1])
  }

  /** The characters Number.prototype.toString(16) writes: 0-9 and a-f. */
  predicate IsLowerHexDigit(c: char) {
    '0' <= c <= '9' || 'a' <= c <= 'f'
  }

  /** The lower-case digit character for `d`, as Number.prototype.toString writes it. */
  function DigitChar(d: nat): (c: char)
    requires d < 16
    ensures DigitValue(c) == d
    ensures IsLowerHexDigit(c)
  {
    if d < 10 then ('0' as int + d) as char else ('a' as int + d - 10) as char
  }

  /** The digits of `n` in `radix` without leading zeros: what `(n).toString(radix)`
      writes for a non-negative integer. */
  function DigitsText(n: nat, radix: nat): (t: string)
    requires 2 <= radix <= 16
    ensures 1 <= |t|
    ensures forall i :: 0 <= i < |t| ==> IsLowerHexDigit(t[i])
  {
    if n < radix then [DigitChar(n)]
    else
      QuotientSmaller(n, radix);
      var q := DigitsText(n / radix, radix);
      var c := DigitChar(n % radix);
      assert forall i :: 0 <= i < |q| ==> (q + [c])[i] == q[i];
      q + [c]
  }

  /** parseInt's digit reading undoes toString's digit writing. */
  lemma {:induction false} DigitsTextValue(n: nat, radix: nat)
    requires 2 <= radix <= 16
    ensures DigitsValue(DigitsText(n, radix), radix) == n
  {
    if n >= radix {
      var m := n / radix;
      var q := DigitsText(m, radix);
      var c := DigitChar(n % radix);
      QuotientSmaller(n, radix);
      DigitsTextValue(m, radix);
      assert DigitsText(n, radix) == q + [c];
      AppendDigit(q, c, radix);
      assert DigitsValue(q + [c], radix) == m * radix + n % radix;
      DivMod(n, radix);
    }
  }

  /** Appending a digit multiplies the value by the radix and adds the digit. */
  lemma AppendDigit(q: string, c: char, radix: nat)
    ensures DigitsValue(q + [c], radix) == DigitsValue(q, radix) * radix + DigitValue(c)
  {
    assert (q + [c])[..|q|] == q;
  }

  /** Every character DigitsText writes is a digit of the radix. */
  lemma {:induction false} DigitsTextDigits(n: nat, radix: nat)
    requires 2 <= radix <= 16
    ensures forall i :: 0 <= i < |DigitsText(n, radix)| ==> IsDigitIn(DigitsText(n, radix)[i], radix)
  {
    if n >= radix {
      DigitsTextDigits(n / radix, radix);
      var q := DigitsText(n / radix, radix);
      var t := DigitsText(n, radix);
      assert t == q + [DigitChar(n % radix)];
      forall i | 0 <= i < |t| ensures IsDigitIn(t[i], radix) {
        if i < |q| {
          assert t[i] == q[i];
        }
      }
    }
  }

  /** The number of digits DigitsText writes is the number the value needs: no leading zeros. */
  lemma {:induction false} DigitsTextLength(n: nat, radix: nat)
    requires 2 <= radix <= 16
    ensures n < Pow(radix, |DigitsText(n, radix)|)
    ensures |DigitsText(n, radix)| > 1 ==> Pow(radix, |DigitsText(n, radix)| - 1) <= n
  {
    if n >= radix {
      var m := n / radix;
      var q := DigitsText(m, radix);
      var len := |q|;
      QuotientSmaller(n, radix);
      DigitsTextLength(m, radix);
      assert |DigitsText(n, radix)| == len + 1;
      var p := Pow(radix, len);
      assert Pow(radix, len + 1) == radix * p;
      DivisionBounds(n, radix, p);
      assert n < radix * p;
      if len > 1 {
        var p' := Pow(radix, len - 1);
        assert p == radix * p';
        DivisionBounds(n, radix, p');
      } else {
        assert p == radix;
      }
    }
  }

  lemma DivMod(n: nat, d: nat)
    requires d > 0
    ensures (n / d) * d + n % d == n
  {
  }

  lemma QuotientSmaller(n: nat, d: nat)
    requires n >= 1 && d >= 2
    ensures n / d < n
  {
  }

  /** How a bound on a quotient carries over to the dividend. */
  lemma DivisionBounds(n: nat, d: nat, p: nat)
    requires d > 0
    ensures n / d < p ==> n < d * p
    ensures p <= n / d ==> d * p <= n
  {
    var q := n / d;
    assert n == d * q + n % d;
    if q < p {
      assert q + 1 <= p;
      assert d * (q + 1) <= d * p;
    }
    if p <= q {
      assert d * p <= d * q;
    }
  }

  /** What `String(n)` writes for an integer (of magnitude below 10^21). */
  function DecimalText(n: int): string {
    if n < 0 then "-" + DigitsText(-n, 10) else DigitsText(n, 10)
  }

  /** The radix argument of parseInt as the library passes it: omitted, or 16. */
  datatype Radix = Omitted | Sixteen

  /** `parseInt(text)` or `parseInt(text, 16)`: leading white space is skipped, one sign is read,
      a "0x"/"0X" prefix selects base 16, and the longest run of digits that follows is read
      (base 10 when the radix is omitted and there is no prefix). None stands for NaN: no digit. */
  function ParseIntText(s: string, radix: Radix): Option<int> {
    SignedIntPrefix(TrimStart(s), radix)
  }

  /** The signed part of parseInt, after the white space: one optional sign, then the unsigned part. */
  function SignedIntPrefix(t: string, radix: Radix): Option<int> {
    var negative := |t| > 0 && t[0] == '-';
    var u := if |t| > 0 && (t[0] == '-' || t[0] == '+') then t[1..] else t;
    match UnsignedIntPrefix(u, radix)
    case None => None
    case Some(magnitude) =>
      var v: int := magnitude;
      Some(if negative then -v else v)
  }

  /** The unsigned part of parseInt: an optional "0x"/"0X" prefix, then the longest run of digits. */
  function UnsignedIntPrefix(u: string, radix: Radix): Option<nat> {
    var hexPrefix := |u| >= 2 && u[0] == '0' && (u[1] == 'x' || u[1] == 'X');
    var base := if hexPrefix || radix == Sixteen then 16 else 10;
    var digits := if hexPrefix then u[2..] else u;
    var k := Span(digits, DigitOf(base));
    if k == 0 then None else Some(DigitsValue(digits[..k], base))
  }

  /** 10 raised to an integer power. */
  function Scale(e: int): real {
    if e >= 0 then Pow(10, e) as real else 1.0 / Pow(10, -e) as real
  }

  /** An exponent part "e"/"E", optional sign, at least one digit, at the start of `s`:
      its value and length; (0, 0) when `s` does not start with one. */
  function ExponentPart(s: string): (r: (int, nat))
    ensures r.1 <= |s|
  {
    if |s| == 0 || (s[0] != 'e' && s[0] != 'E') then (0, 0)
    else
      var t := s[1..];
      var signLength := if |t| > 0 && (t[0] == '+' || t[0] == '-') then 1 else 0;
      var k := Span(t[signLength..], DigitOf(10));
      if k == 0 then (0, 0)
      else
        var v: int := DigitsValue(t[signLength..signLength + k], 10);
        (if signLength == 1 && t[0] == '-' then -v else v, 1 + signLength + k)
  }

  /** The longest prefix of `s` that is an unsigned decimal literal: digits with an optional
      fraction (at least one digit in all) and an optional exponent. Its value and length. */
  function UnsignedDecimalPrefix(s: string): (r: Option<(real, nat)>)
    ensures r.Some? ==> r.value.1 <= |s|
  {
    var whole := Span(s, DigitOf(10));
    var dot := whole < |s| && s[whole] == '.';
    var frac := if dot then Span(s[whole + 1..], DigitOf(10)) else 0;
    if whole + frac == 0 then None
    else
      var mantissaEnd := if dot then whole + 1 + frac else whole;
      var mantissa := DigitsValue(s[..whole], 10) as real
        + (if dot then DigitsValue(s[whole + 1..mantissaEnd], 10) as real / Pow(10, frac) as real else 0.0);
      var e := ExponentPart(s[mantissaEnd..]);
      Some((mantissa * Scale(e.0), mantissaEnd + e.1))
  }

  /** The longest prefix of `t` that is a StrDecimalLiteral: an optional sign followed by
      "Infinity" or an unsigned decimal literal. Its value and length. */
  function DecimalPrefix(t: string): (r: Option<(Number, nat)>)
    ensures r.Some? ==> r.value.1 <= |t|
  {
    var signed := |t| > 0 && (t[0] == '+' || t[0] == '-');
    var negative := signed && t[0] == '-';
    var u := if signed then t[1..] else t;
    var signLength := if signed then 1 else 0;
    if |u| >= 8 && u[..8] == "Infinity" then
      Some((if negative then NegInf else PosInf, signLength + 8))
    else
      match UnsignedDecimalPrefix(u)
      case None => None
      case Some(p) => Some((Finite(if negative then -p.0 else p.0), signLength + p.1))
  }

  /** `parseFloat(text)`: the longest decimal literal after the leading white space, NaN when there is none. */
  function ParseFloatText(s: string): Number {
    match DecimalPrefix(TrimStart(s))
    case None => NaN
    case Some(p) => p.0
  }

  /** `Number(text)`: white space around the literal is ignored, an empty text is 0, a "0x", "0o" or
      "0b" literal is read in its base, and otherwise the whole text must be one decimal literal. */
  function TextToNumber(s: string): Number {
    var t := Trim(s);
    if |t| == 0 then Finite(0.0)
    else if |t| >= 2 && t[0] == '0' && t[1] in "xXoObB" then
      var base := if t[1] in "xX" then 16 else if t[1] in "oO" then 8 else 2;
      var digits := t[2..];
      if |digits| > 0 && Span(digits, DigitOf(base)) == |digits|
      then Finite(DigitsValue(digits, base) as real)
      else NaN
    else
      match DecimalPrefix(t)
      case Some(p) => if p.1 == |t| then p.0 else NaN
      case None => NaN
  }

  /** `t.split(sep)` for a one-character separator: the pieces between separators, in order;
      a text without the separator is one piece. */
  function Split(t: string, sep: char): (f: seq<string>)
    ensures |f| >= 1
  {
    if |t| == 0 then [""]
    else
      var rest := Split(t[1..], sep);
      if t[0] == sep then [""] + rest else [[t[0]] + rest[0]] + rest[1..]
  }

  // ---------------------------------------------------------------------------------------
  // Properties of the text functions

  /** Span is the unique length whose prefix satisfies `p` and which stops at the end or at a failing character. */
  lemma {:induction false} SpanUnique(s: string, k: CharClass, n: nat)
    requires n <= |s|
    requires forall i :: 0 <= i < n ==> In(s[i], k)
    requires n < |s| ==> !In(s[n], k)
    ensures Span(s, k) == n
  {
    if n == 0 {
    } else {
      SpanUnique(s[1..], k, n - 1);
    }
  }

  /** The span of the suffix from `j` ends at the first index `e` at or after `j` that stops it. */
  lemma SpanFrom(s: string, j: nat, k: CharClass, e: nat)
    requires j <= e <= |s|
    requires forall x :: j <= x < e ==> In(s[x], k)
    requires e < |s| ==> !In(s[e], k)
    ensures Span(s[j..], k) == e - j
  {
    var t := s[j..];
    assert forall i :: 0 <= i < e - j ==> t[i] == s[j + i];
    SpanUnique(t, k, e - j);
  }

  /** A text that is a non-empty run of digits (of radix 10, or 16 with radix 16) is read
      by parseInt as exactly the value of those digits. */
  lemma ParseIntOfDigits(s: string, radix: Radix)
    requires |s| > 0
    requires forall i :: 0 <= i < |s| ==> IsDigitIn(s[i], if radix == Sixteen then 16 else 10)
    ensures ParseIntText(s, radix) == Some(DigitsValue(s, if radix == Sixteen then 16 else 10))
  {
    var base := if radix == Sixteen then 16 else 10;
    DigitIsNoSign(s[0], base);
    assert TrimStart(s) == s by {
      SpanUnique(s, Space, 0);
    }
    UnsignedDigits(s, radix);
    UnsignedText(s, radix, DigitsValue(s, base));
  }

  /** A digit is neither white space nor a sign. */
  lemma DigitIsNoSign(c: char, base: nat)
    requires IsDigitIn(c, base) && base <= 16
    ensures !IsSpace(c) && c != '-' && c != '+'
  {
    if IsSpace(c) {
      SpaceIsNoDigit(c);
    }
  }

  /** A text with no leading white space or sign is read by its unsigned part alone. */
  lemma UnsignedText(s: string, radix: Radix, m: nat)
    requires TrimStart(s) == s
    requires |s| > 0 && s[0] != '-' && s[0] != '+'
    requires UnsignedIntPrefix(s, radix) == Some(m)
    ensures ParseIntText(s, radix) == Some(m as int)
  {
    assert ParseIntText(s, radix) == SignedIntPrefix(s, radix);
  }

  /** A text with no leading white space that starts with '-' is read as the negated value of
      the unsigned part after the sign. */
  lemma NegatedText(s: string, radix: Radix, m: nat)
    requires TrimStart(s) == s
    requires |s| > 0 && s[0] == '-'
    requires UnsignedIntPrefix(s[1..], radix) == Some(m)
    ensures ParseIntText(s, radix) == Some(-(m as int))
  {
    assert ParseIntText(s, radix) == SignedIntPrefix(s, radix);
  }

  lemma UnsignedDigits(s: string, radix: Radix)
    requires |s| > 0
    requires forall i :: 0 <= i < |s| ==> IsDigitIn(s[i], if radix == Sixteen then 16 else 10)
    ensures UnsignedIntPrefix(s, radix) == Some(DigitsValue(s, if radix == Sixteen then 16 else 10))
  {
    var base := if radix == Sixteen then 16 else 10;
    var hexPrefix := |s| >= 2 && s[0] == '0' && (s[1] == 'x' || s[1] == 'X');
    if |s| >= 2 {
      assert DigitValue(s[1]) < 16;
      assert DigitValue('x') == 33 && DigitValue('X') == 33;
    }
    assert !hexPrefix;
    SpanUnique(s, DigitOf(base), |s|);
    assert s[..|s|] == s;
  }

  /** parseInt reads back the decimal text of every integer. */
  lemma DecimalTextRoundTrip(n: int)
    ensures ParseIntText(DecimalText(n), Omitted) == Some(n)
  {
    if n >= 0 {
      DigitsTextValue(n, 10);
      DigitsTextDigits(n, 10);
      ParseIntOfDigits(DigitsText(n, 10), Omitted);
    } else {
      NegativeTextRoundTrip(-n);
    }
  }

  /** parseInt reads back the decimal text of a negative integer. */
  lemma NegativeTextRoundTrip(m: nat)
    requires m > 0
    ensures ParseIntText("-" + DigitsText(m, 10), Omitted) == Some(-(m as int))
  {
    var d := DigitsText(m, 10);
    var t := "-" + d;
    DigitsTextValue(m, 10);
    DigitsTextDigits(m, 10);
    assert TrimStart(t) == t by {
      SpanUnique(t, Space, 0);
    }
    assert t[1..] == d;
    UnsignedDigits(d, Omitted);
    NegatedText(t, Omitted, m);
  }

  lemma {:induction false} PowMonotonic(base: nat, e: nat, f: nat)
    requires base >= 1
    requires e <= f
    ensures Pow(base, e) <= Pow(base, f)
  {
    if e < f {
      PowMonotonic(base, e, f - 1);
    }
  }

  /** The value of a six-digit hex string, digit by digit. */
  lemma SixHexDigitsValue(s: string)
    requires |s| == 6
    ensures DigitsValue(s, 16)
      == ((((DigitValue(s[0]) * 16 + DigitValue(s[1])) * 16 + DigitValue(s[2])) * 16
         + DigitValue(s[3])) * 16 + DigitValue(s[4])) * 16 + DigitValue(s[5])
  {
    FirstThreeDigits(s);
    LastThreeDigits(s);
  }

  lemma FirstThreeDigits(s: string)
    requires |s| >= 3
    ensures DigitsValue(s[..3], 16) == (DigitValue(s[0]) * 16 + DigitValue(s[1])) * 16 + DigitValue(s[2])
  {
    assert DigitsValue(s[..0], 16) == 0;
    PrefixValue(s, 1, 16);
    PrefixValue(s, 2, 16);
    PrefixValue(s, 3, 16);
  }

  lemma LastThreeDigits(s: string)
    requires |s| == 6
    ensures DigitsValue(s, 16) == ((DigitsValue(s[..3], 16) * 16 + DigitValue(s[3])) * 16 + DigitValue(s[4])) * 16 + DigitValue(s[5])
  {
    PrefixValue(s, 4, 16);
    PrefixValue(s, 5, 16);
    PrefixValue(s, 6, 16);
    assert s[..6] == s;
  }

  /** The value of a prefix is the value of the prefix one shorter followed by one digit. */
  lemma PrefixValue(s: string, k: nat, radix: nat)
    requires 0 < k <= |s|
    ensures DigitsValue(s[..k], radix) == DigitsValue(s[..k - 1], radix) * radix + DigitValue(s[k - 1])
  {
    assert s[..k][..k - 1] == s[..k - 1];
  }

  /** A leading '0' does not change the value of a digit string. */
  lemma {:induction false} LeadingZero(s: string, radix: nat)
    ensures DigitsValue("0" + s, radix) == DigitsValue(s, radix)
  {
    if |s| > 0 {
      assert ("0" + s)[..|"0" + s| - 1] == "0" + s[..|s| - 1];
      LeadingZero(s[..|s| - 1], radix);
    }
  }

  /** A text without the separator splits into itself. */
  lemma {:induction false} SplitWithout(a: string, sep: char)
    requires sep !in a
    ensures Split(a, sep) == [a]
  {
    if |a| > 0 {
      SplitWithout(a[1..], sep);
      assert [a[0]] + a[1..] == a;
    }
  }

  /** A separator after a piece free of separators ends that piece. */
  lemma {:induction false} SplitAfter(a: string, sep: char, b: string)
    requires sep !in a
    ensures Split(a + [sep] + b, sep) == [a] + Split(b, sep)
  {
    var t := a + [sep] + b;
    if |a| == 0 {
      assert t[1..] == b;
    } else {
      assert t[1..] == a[1..] + [sep] + b;
      SplitAfter(a[1..], sep, b);
      assert [a[0]] + a[1..] == a;
    }
  }

  /** The decimal text of an integer holds no comma: only digits and a leading '-'. */
  lemma DecimalTextNoComma(n: int)
    ensures ',' !in DecimalText(n)
  {
    var m := if n < 0 then -n else n;
    DigitsTextDigits(m, 10);
    var d := DigitsText(m, 10);
    assert forall i :: 0 <= i < |d| ==> d[i] != ',' by {
      forall i | 0 <= i < |d| ensures d[i] != ',' {
        assert IsDigitIn(d[i], 10);
      }
    }
    if n < 0 {
      assert DecimalText(n) == "-" + d;
    }
  }

  /** Four comma-free pieces joined by commas split back into those pieces. */
  lemma SplitFour(r: string, g: string, b: string, a: string)
    requires ',' !in r && ',' !in g && ',' !in b && ',' !in a
    ensures Split(r + [','] + (g + [','] + (b + [','] + a)), ',') == [r, g, b, a]
  {
    SplitWithout(a, ',');
    SplitAfter(b, ',', a);
    SplitAfter(g, ',', b + [','] + a);
    SplitAfter(r, ',', g + [','] + (b + [','] + a));
  }

  /** The text "x,y,z,a": three integers written in decimal and a fourth text, comma-separated. */
  function DecimalFields(x: int, y: int, z: int, a: string): (t: string)
    ensures |t| >= 6 + |a|
  {
    DecimalText(x) + "," + DecimalText(y) + "," + DecimalText(z) + "," + a
  }

  /** Split at its commas, "x,y,z,a" gives back the four pieces when a holds no comma. */
  lemma DecimalFieldsSplit(x: int, y: int, z: int, a: string)
    requires ',' !in a
    ensures Split(DecimalFields(x, y, z, a), ',') == [DecimalText(x), DecimalText(y), DecimalText(z), a]
  {
    var r, g, b := DecimalText(x), DecimalText(y), DecimalText(z);
    DecimalTextNoComma(x);
    DecimalTextNoComma(y);
    DecimalTextNoComma(z);
    SplitFour(r, g, b, a);
    assert DecimalFields(x, y, z, a) == r + [','] + (g + [','] + (b + [','] + a));
  }

  /** `parseInt` of each of the first three comma-separated fields of "x,y,z,a" is x, y and z. */
  lemma DecimalFieldsRead(x: int, y: int, z: int, a: string)
    requires ',' !in a
    ensures var f := Split(DecimalFields(x, y, z, a), ',');
      && |f| == 4
      && ParseIntText(f[0], Omitted) == Some(x)
      && ParseIntText(f[1], Omitted) == Some(y)
      && ParseIntText(f[2], Omitted) == Some(z)
      && f[3] == a
  {
    var f := Split(DecimalFields(x, y, z, a), ',');
    DecimalFieldsSplit(x, y, z, a);
    assert f[0] == DecimalText(x) && f[1] == DecimalText(y) && f[2] == DecimalText(z);
    DecimalTextRoundTrip(x);
    DecimalTextRoundTrip(y);
    DecimalTextRoundTrip(z);
  }
}
