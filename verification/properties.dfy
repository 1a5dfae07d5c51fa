/** Properties that relate several operations of the colour type: inputs of different shapes
    that build the same colour, the round trip through the text form, the identities of the
    bitwise operations, and the behaviour the library's own test page checks. */
module ColorProperties {
  import opened Results
  import opened JsText
  import opened JsValues
  import opened Validate
  import opened Parse
  import opened Convert
  import opened Bits
  import opened Colors
  import opened Blend

  // ---------------------------------------------------------------------------------------
  // Hex texts
  // ---------------------------------------------------------------------------------------

  /** `parse.hex` keeps exactly the digits of a text the hex pattern accepts. */
  lemma StripOfLiteral(p: HexLiteral)
    requires p.WellFormed()
    ensures Strip(p.Text()) == p.digits
  {
    var h := if p.hash then "#" else "";
    var c := if p.semicolon then ";" else "";
    StrippedAway(p.lead);
    StripAppendStripped(p.lead, h, "");
    StripAppendDigits(p.lead + h, p.digits);
    StripAppendStripped(p.lead + h + p.digits, p.trail, p.digits);
    StripAppendStripped(p.lead + h + p.digits + p.trail, c, p.digits);
  }

  /** Appending white space, '#' or ';' does not change what a text strips to. */
  lemma StripAppendStripped(a: string, b: string, d: string)
    requires Strip(a) == d
    requires forall i :: 0 <= i < |b| ==> IsStripped(b[i])
    ensures Strip(a + b) == d
  {
    StripConcat(a, b);
    StrippedAway(b);
  }

  /** Appending hex digits to a text that strips to nothing leaves those digits. */
  lemma StripAppendDigits(a: string, d: string)
    requires Strip(a) == ""
    requires forall i :: 0 <= i < |d| ==> IsHexDigit(d[i])
    ensures Strip(a + d) == d
  {
    StripConcat(a, d);
    DigitsUnstripped(d);
  }

  /** A text of white space, '#' and ';' strips to nothing. */
  lemma StrippedAway(s: string)
    requires forall i :: 0 <= i < |s| ==> IsStripped(s[i])
    ensures Strip(s) == ""
  {
  }

  /** Hex digits are left alone by the stripping of `parse.hex`. */
  lemma DigitsUnstripped(d: string)
    requires forall i :: 0 <= i < |d| ==> IsHexDigit(d[i])
    ensures Strip(d) == d
  {
    forall i | 0 <= i < |d| ensures !IsStripped(d[i]) {
      DigitIsNoSpace(d[i]);
    }
  }

  /** The constructor's hex branch: a text the pattern accepts builds the colour `cnv.hex_rgb` reads. */
  lemma ConstructHexText(t: string, hsl: HslToRgb)
    requires HexPattern(t)
    ensures Construct([Str(t)], hsl) == Ok(FromRgb(HexToRgb(t)))
  {
    assert Classify([Str(t)]) == HexText(t);
  }

  /** `cnv.hex_rgb` reads a text through `parse.hex`, so only its stripped form matters. */
  lemma HexToRgbStripped(t: string, d: string)
    requires Strip(t) == d
    requires forall i :: 0 <= i < |d| ==> IsHexDigit(d[i])
    ensures HexToRgb(t) == HexToRgb(d)
  {
    DigitsUnstripped(d);
    assert Parse.Hex(t) == Parse.Hex(d);
  }

  /** A text the hex pattern accepts builds the colour of its bare digits. */
  lemma ConstructHexLiteral(p: HexLiteral, hsl: HslToRgb)
    requires p.WellFormed()
    ensures Construct([Str(p.Text())], hsl) == Ok(FromRgb(HexToRgb(p.digits)))
  {
    HexPatternComplete(p);
    ConstructHexText(p.Text(), hsl);
    StripOfLiteral(p);
    HexToRgbStripped(p.Text(), p.digits);
  }

  /** White space, the '#' and the ';' around the digits do not matter: two hex texts with the
      same digits build the same colour. */
  lemma HexDecorationIrrelevant(p: HexLiteral, q: HexLiteral, hsl: HslToRgb)
    requires p.WellFormed() && q.WellFormed()
    requires p.digits == q.digits
    ensures Construct([Str(p.Text())], hsl) == Construct([Str(q.Text())], hsl)
  {
    ConstructHexLiteral(p, hsl);
    ConstructHexLiteral(q, hsl);
  }

  /** A 3-digit shorthand builds the same colour as its doubled 6-digit form. */
  lemma ShorthandIsDoubled(p: HexLiteral, q: HexLiteral, hsl: HslToRgb)
    requires p.WellFormed() && q.WellFormed()
    requires |p.digits| == 3
    requires q.digits == [p.digits[0], p.digits[0], p.digits[1], p.digits[1], p.digits[2], p.digits[2]]
    ensures Construct([Str(p.Text())], hsl) == Construct([Str(q.Text())], hsl)
  {
    ConstructHexLiteral(p, hsl);
    ConstructHexLiteral(q, hsl);
    DigitsUnstripped(p.digits);
    DigitsUnstripped(q.digits);
  }

  /** An opaque colour written by `toString` is rebuilt by the constructor, unless its packed
      value falls in [0x100, 0xFFF] where `c.hex()` writes a shorthand-expanded text. */
  lemma ToStringRoundTrip(c: Color, alphaText: real -> string, hsl: HslToRgb)
    requires Valid(c) && c.a == 1.0
    requires !(0x100 <= Int(c) <= 0xFFF)
    ensures Construct([Str(ToString(c, alphaText))], hsl) == Ok(c)
  {
    var h := Colors.Hex(c);
    assert ToString(c, alphaText) == "#" + h;
    ConstructHexOfText(h, hsl);
    var n := Int(c);
    assert HexToRgb(h) == IntToRgb(Finite(n as real)) by {
      HexReadsBack(c);
      HexReadAs(h);
    }
    assert FromRgb(HexToRgb(h)) == FromFlat(n);
    FromFlatOfInt(c);
  }

  /** "#" followed by the text `c.hex()` writes builds the colour of that text. */
  lemma ConstructHexOfText(h: string, hsl: HslToRgb)
    requires |h| == 6
    requires forall i :: 0 <= i < |h| ==> IsLowerHexDigit(h[i])
    ensures Construct([Str("#" + h)], hsl) == Ok(FromRgb(HexToRgb(h)))
  {
    var p := HexLiteral("", true, h, "", false);
    assert p.Text() == "#" + h;
    assert p.WellFormed() by {
      forall i | 0 <= i < |h| ensures IsHexDigit(h[i]) {
      }
    }
    ConstructHexLiteral(p, hsl);
  }

  /** The text `c.hex()` writes reads back as `c.int()` outside [0x100, 0xFFF]. */
  lemma HexReadsBack(c: Color)
    requires !(0x100 <= Int(c) <= 0xFFF)
    ensures HexToInt(Colors.Hex(c)) == Some(Int(c))
  {
    ByteOfInt(c.r);
    ByteOfInt(c.g);
    ByteOfInt(c.b);
    assert Colors.Hex(c) == IntToHex(Int(c));
    HexRoundTrip(Int(c));
  }

  /** The counterexample to the round trip: the opaque colour (0, 1, 0) is written "#110000",
      which the constructor reads as (17, 0, 0). */
  lemma ToStringShorthandExample(c: Color, alphaText: real -> string, hsl: HslToRgb)
    requires c == Color(0, 1, 0, 1.0)
    ensures ToString(c, alphaText) == "#110000"
    ensures Construct([Str(ToString(c, alphaText))], hsl) == Ok(Color(0x11, 0, 0, 1.0))
  {
    var h := Colors.Hex(c);
    assert ToString(c, alphaText) == "#" + h;
    var k := Rgb(c.r, c.g, c.b);
    assert h == RgbToHex(IntValue(k.r), IntValue(k.g), IntValue(k.b));
    ShorthandExample(k);
    HashOf110000(h);
    ConstructHexOfText(h, hsl);
  }

  /** The "rgba(r,g,b,a)" form of `toString()` hands the channels back: split at its commas,
      `parseInt` reads each of the first three fields as its channel, and the last is the
      alpha text. */
  lemma RgbaTextFields(c: Color, alphaText: real -> string)
    requires c.a < 1.0 && ',' !in alphaText(c.a)
    ensures ToString(c, alphaText)[..5] == "rgba("
    ensures ToString(c, alphaText)[|ToString(c, alphaText)| - 1] == ')'
    ensures var s := ToString(c, alphaText); var f := Split(s[5..|s| - 1], ',');
      && |f| == 4
      && ParseIntText(f[0], Omitted) == Some(c.r)
      && ParseIntText(f[1], Omitted) == Some(c.g)
      && ParseIntText(f[2], Omitted) == Some(c.b)
      && f[3] == alphaText(c.a)
  {
    var body := DecimalFields(c.r, c.g, c.b, alphaText(c.a));
    var s := ToString(c, alphaText);
    assert s == "rgba(" + body + ")";
    Enclosed(body);
    assert s[5..|s| - 1] == body;
    DecimalFieldsRead(c.r, c.g, c.b, alphaText(c.a));
  }

  lemma Enclosed(body: string)
    ensures ("rgba(" + body + ")")[..5] == "rgba("
    ensures ("rgba(" + body + ")")[|body| + 5] == ')'
    ensures ("rgba(" + body + ")")[5..|body| + 5] == body
  {
  }

  lemma HashOf110000(h: string)
    requires h == "110000"
    ensures "#" + h == "#110000"
  {
  }

  // ---------------------------------------------------------------------------------------
  // Equivalent constructor inputs
  // ---------------------------------------------------------------------------------------

  lemma ValueOf0077ff(d: string)
    requires d == "0077ff"
    ensures DigitsValue(d, 16) == 0x0077ff
  {
    SixHexDigitsValue(d);
  }

  lemma ReadOf0077ff(d: string)
    requires d == "0077ff"
    ensures ParseIntText(d, Sixteen) == Some(0x0077ff)
  {
    ParseIntOfDigits(d, Sixteen);
    ValueOf0077ff(d);
  }

  /** The two digit strings of the test page both read as (0, 119, 255). */
  lemma DigitsOf0077ff(d: string)
    requires d == "0077ff" || d == "07f"
    ensures HexToRgb(d) == Rgb(0, 119, 255)
  {
    var e := HexOf0077ff(d);
    ReadOf0077ff(e);
    HexReadAs(d);
    SplitOf0077ff();
  }

  /** `parse.hex` keeps "0077ff" and doubles "07f" into it. */
  lemma HexOf0077ff(d: string) returns (e: string)
    requires d == "0077ff" || d == "07f"
    ensures Parse.Hex(d) == e && e == "0077ff"
  {
    e := "0077ff";
    assert Strip(d) == d by {
      DigitsUnstripped(d);
    }
    assert Expand(d) == e;
  }

  lemma SplitOf0077ff()
    ensures IntToRgb(Finite(0x0077ff as real)) == Rgb(0, 119, 255)
  {
  }

  /** The four hex spellings of the test page build (0, 119, 255) with alpha 1. */
  lemma HexInputs(s: string, hsl: HslToRgb)
    requires s == "#0077ff" || s == "0077ff" || s == "#07f" || s == "07f"
    ensures Construct([Str(s)], hsl) == Ok(Color(0, 119, 255, 1.0))
  {
    var d := if s == "#0077ff" || s == "0077ff" then "0077ff" else "07f";
    var hash := s[0] == '#';
    assert s == (if hash then "#" else "") + d;
    HexInput(d, hash, hsl);
  }

  /** "0077ff" and "07f", with or without '#', build (0, 119, 255) with alpha 1. */
  lemma HexInput(d: string, hash: bool, hsl: HslToRgb)
    requires d == "0077ff" || d == "07f"
    ensures Construct([Str((if hash then "#" else "") + d)], hsl) == Ok(Color(0, 119, 255, 1.0))
  {
    var p := HexLiteral("", hash, d, "", false);
    assert p.Text() == (if hash then "#" else "") + d;
    assert p.WellFormed() by {
      HexDigitsOf0077ff(d);
    }
    ConstructHexLiteral(p, hsl);
    DigitsOf0077ff(d);
  }

  lemma HexDigitsOf0077ff(d: string)
    requires d == "0077ff" || d == "07f"
    ensures 1 <= |d| <= 6 && forall i :: 0 <= i < |d| ==> IsHexDigit(d[i])
  {
  }

  /** The packed colour 0x0077ff (the number 30719) and the channels (0, 119, 255) build the same colour. */
  lemma NumberInputs(hsl: HslToRgb)
    ensures Construct([IntValue(0x0077ff)], hsl) == Ok(Color(0, 119, 255, 1.0))
    ensures Construct([IntValue(30719)], hsl) == Ok(Color(0, 119, 255, 1.0))
    ensures Construct([IntValue(0), IntValue(119), IntValue(255)], hsl) == Ok(Color(0, 119, 255, 1.0))
  {
    assert IntToRgb(Finite(30719.0)) == Rgb(0, 119, 255);
  }

  /** The other constructions the test page checks. */
  lemma ConstructorExamples(hsl: HslToRgb)
    ensures Construct([IntValue(255)], hsl) == Ok(Color(0, 0, 255, 1.0))
    ensures Construct([IntValue(0)], hsl) == Ok(Color(0, 0, 0, 1.0))
    ensures Construct([], hsl) == Ok(Color(0, 0, 0, 1.0))
  {
  }

  /** The positional constructions the test page checks: alpha 0.3, alpha 0 and a null alpha. */
  lemma PositionalExamples(hsl: HslToRgb)
    ensures Construct([IntValue(0), IntValue(119), IntValue(255), Num(Finite(0.3))], hsl) == Ok(Color(0, 119, 255, 0.3))
    ensures Construct([IntValue(5), IntValue(5), IntValue(5), IntValue(0)], hsl) == Ok(Color(5, 5, 5, 0.0))
    ensures Construct([IntValue(5), IntValue(5), IntValue(5), Null], hsl) == Ok(Color(5, 5, 5, 1.0))
  {
  }

  /** The object inputs `{r:0, g:119, b:255}` and `{r:0, g:119, b:255, a:0.3}`. */
  lemma ObjectExamples(hsl: HslToRgb)
    ensures Construct([Obj(map["r" := IntValue(0), "g" := IntValue(119), "b" := IntValue(255)])], hsl)
      == Ok(Color(0, 119, 255, 1.0))
    ensures Construct([Obj(map["r" := IntValue(0), "g" := IntValue(119), "b" := IntValue(255), "a" := Num(Finite(0.3))])], hsl)
      == Ok(Color(0, 119, 255, 0.3))
  {
    var p := map["r" := IntValue(0), "g" := IntValue(119), "b" := IntValue(255)];
    var q := p["a" := Num(Finite(0.3))];
    ObjectKeys(p, Undefined);
    ObjectKeys(q, Num(Finite(0.3)));
    ObjectExample(p, hsl);
    ObjectExample(q, hsl);
  }

  /** What the constructor reads from the example objects. */
  lemma ObjectKeys(props: map<string, Value>, a: Value)
    requires a == Undefined || a == Num(Finite(0.3))
    requires props == if a == Undefined then map["r" := IntValue(0), "g" := IntValue(119), "b" := IntValue(255)]
      else map["r" := IntValue(0), "g" := IntValue(119), "b" := IntValue(255), "a" := a]
    ensures Get(props, "h") == Undefined && Get(props, "a") == a
    ensures "_r" !in props && "_g" !in props && "_b" !in props && "_a" !in props
    ensures Get(props, "r") == IntValue(0) && Get(props, "g") == IntValue(119) && Get(props, "b") == IntValue(255)
  {
  }

  /** An object with the channels 0, 119 and 255, no `h` and no underscored property. */
  lemma ObjectExample(props: map<string, Value>, hsl: HslToRgb)
    requires Get(props, "h") == Undefined
    requires "_r" !in props && "_g" !in props && "_b" !in props && "_a" !in props
    requires Get(props, "r") == IntValue(0) && Get(props, "g") == IntValue(119) && Get(props, "b") == IntValue(255)
    ensures Construct([Obj(props)], hsl) == Ok(Color(0, 119, 255, Unit(Get(props, "a"))))
  {
    ConstructObject(props, hsl);
    PlainObject(props, 0, 119, 255);
  }

  /** A single object argument without all of `h`, `s` and `l` takes the RGB(A) object branch. */
  lemma ConstructObject(props: map<string, Value>, hsl: HslToRgb)
    requires !HasHsl(props)
    ensures Construct([Obj(props)], hsl) == Ok(FromRgbaObject(props))
  {
    assert Classify([Obj(props)]) == RgbaObject(props);
  }

  /** Three or four arguments take the positional branch, a missing alpha being undefined. */
  lemma ConstructPositional(args: seq<Value>, hsl: HslToRgb)
    requires |args| == 3 || |args| == 4
    ensures Construct(args, hsl)
      == Ok(FromPositional(args[0], args[1], args[2], if |args| == 4 then args[3] else Undefined))
  {
  }

  /** `new Color(r, g, b, a)` with integer channels clamps each channel to [0, 255] and alpha
      to [0, 1]. */
  lemma PositionalClamps(r: int, g: int, b: int, a: real, hsl: HslToRgb)
    ensures Construct([IntValue(r), IntValue(g), IntValue(b), Num(Finite(a))], hsl)
      == Ok(Color(ClampInt(r, 0, MaxByte), ClampInt(g, 0, MaxByte), ClampInt(b, 0, MaxByte), ClampReal(a, 0.0, 1.0)))
  {
    var args := [IntValue(r), IntValue(g), IntValue(b), Num(Finite(a))];
    ConstructPositional(args, hsl);
    ByteOfInt(r);
    ByteOfInt(g);
    ByteOfInt(b);
  }

  /** A single number in [0, 0xFFFFFF] takes the packed-number branch: the colour of its
      integer part. */
  lemma ConstructFlat(x: real, hsl: HslToRgb)
    requires 0.0 <= x <= MaxFlat as real
    ensures Construct([Num(Finite(x))], hsl) == Ok(FromFlat(x.Floor))
  {
    var v := Num(Finite(x));
    assert !IsHex(v);
    assert IsFlatInt(v);
    assert Classify([v]) == FlatNumber(x);
    assert FlatInt(Finite(x)) == x;
  }

  /** An object with integer channels `r`, `g`, `b` and no underscored property gives those
      channels clamped, and alpha from its `a` property. */
  lemma PlainObject(props: map<string, Value>, r: int, g: int, b: int)
    requires "_r" !in props && "_g" !in props && "_b" !in props && "_a" !in props
    requires Get(props, "r") == IntValue(r) && Get(props, "g") == IntValue(g) && Get(props, "b") == IntValue(b)
    ensures FromRgbaObject(props)
      == Color(ClampInt(r, 0, MaxByte), ClampInt(g, 0, MaxByte), ClampInt(b, 0, MaxByte), Unit(Get(props, "a")))
  {
    ByteOfInt(r);
    ByteOfInt(g);
    ByteOfInt(b);
  }

  /** The inputs the test page expects to be refused: a number above 0xFFFFFF and five arguments. */
  lemma RejectedExamples(hsl: HslToRgb)
    ensures Construct([IntValue(0xffcc9977)], hsl) == Err(InvalidArguments([IntValue(0xffcc9977)]))
    ensures var args := [IntValue(16), IntValue(32), IntValue(64), IntValue(128), IntValue(255)];
      Construct(args, hsl) == Err(InvalidArguments(args))
  {
  }

  // ---------------------------------------------------------------------------------------
  // The bitwise operations
  // ---------------------------------------------------------------------------------------

  /** The colour of a valid colour's packed value is the colour itself, made opaque. */
  lemma FromFlatOfInt(x: Color)
    requires Valid(x)
    ensures FromFlat(Int(x)) == x.(a := 1.0)
  {
    IntOfChannels(x);
  }

  /** Complementing twice gives the colour back, made opaque. */
  lemma NotNot(x: Color)
    requires Valid(x)
    ensures Not(Not(x)) == x.(a := 1.0)
  {
    FromFlatOfInt(x);
  }

  /** A colour xor itself is black. */
  lemma XorSelf(x: Color)
    ensures Xor(x, x) == Black
  {
    XorSelfZero(Int(x), 24);
    IntOfBlack();
    BlackIs(0);
  }

  /** And with white keeps a colour, made opaque. */
  lemma AndWhite(x: Color)
    requires Valid(x)
    ensures And(x, White) == x.(a := 1.0)
  {
    IntOfWhite();
    FlatWidth();
    AndAllOnes(Int(x), 24);
    assert BitAnd(Int(x), Int(White)) == Int(x);
    FromFlatOfInt(x);
  }

  /** Or with black keeps a colour, made opaque. */
  lemma OrBlack(x: Color)
    requires Valid(x)
    ensures Colors.Or(x, Black) == x.(a := 1.0)
  {
    BlackIs(0);
    OrZeroColour(x, Black);
  }

  /** Or with a colour whose channels `int()` reads as 0 keeps a colour, made opaque. */
  lemma OrZeroColour(x: Color, y: Color)
    requires Valid(x) && y.r <= 0 && y.g <= 0 && y.b <= 0
    ensures Colors.Or(x, y) == x.(a := 1.0)
  {
    ZeroInt(y);
    var n, z := Int(x), Int(y);
    FlatOrZero(n, z);
    OrFlat(x, y, n);
    FromFlatOfInt(x);
  }

  /** Channels at most 0 are clamped to 0, so they pack to 0. */
  lemma ZeroInt(y: Color)
    requires y.r <= 0 && y.g <= 0 && y.b <= 0
    ensures Int(y) == 0
  {
    IntIsPack(y);
  }

  lemma OrFlat(x: Color, y: Color, k: int)
    requires k == BitOr(Int(x), Int(y))
    ensures Colors.Or(x, y) == FromFlat(k)
  {
  }

  lemma FlatOrZero(n: int, z: int)
    requires 0 <= n <= MaxFlat && z == 0
    ensures BitOr(n, z) == n
  {
    FlatWidth();
    OrZero(n, 24);
  }

  /** The complement is the xor with white. */
  lemma NotIsXorWhite(x: Color)
    ensures Not(x) == Xor(x, White)
  {
    var n, w := Int(x), Int(White);
    IntOfWhite();
    FlatXorWhite(n, w);
  }

  /** On packed colours, xor with 0xFFFFFF is the complement. */
  lemma FlatXorWhite(n: int, w: int)
    requires 0 <= n <= MaxFlat && w == MaxFlat
    ensures BitXor(n, w) == MaxFlat - n
  {
    FlatWidth();
    XorAllOnes(n, 24);
  }

  /** The packed value of a valid colour, written out. */
  lemma IntOfValid(x: Color)
    requires Valid(x)
    ensures Int(x) == (x.r * 0x100 + x.g) * 0x100 + x.b
  {
    ByteOfInt(x.r);
    ByteOfInt(x.g);
    ByteOfInt(x.b);
  }

  /** A byte has 8 bits. */
  lemma ByteWidth(k: nat)
    requires k == 8
    ensures Pow(2, k) == 0x100
  {
  }

  /** Three bytes joined as fields of `k` = 8 bits are the packed colour of those bytes. */
  lemma JoinBytes(r: nat, g: nat, b: nat, k: nat)
    requires k == 8
    ensures Join(Join(r, g, k), b, k) == (r * 0x100 + g) * 0x100 + b
  {
    ByteWidth(k);
  }

  /** The packed value of a valid colour is its three bytes joined as fields of `k` = 8 bits. */
  lemma PackedJoin(x: Color, k: nat)
    requires Valid(x) && k == 8
    ensures Int(x) == Join(Join(x.r, x.g, k), x.b, k)
  {
    IntOfValid(x);
    JoinBytes(x.r, x.g, x.b, k);
  }

  /** The bitwise operators act on each channel separately: on the packed colours (three
      fields of `k` = 8 bits) they are the 8-bit operators on the red, green and blue bytes. */
  lemma BitwiseChannels(op: BitOp, x: Color, y: Color, k: nat)
    requires Valid(x) && Valid(y) && k == 8
    ensures Bitwise(op, Int(x), Int(y), k + (k + k))
         == Join(Join(Bitwise(op, x.r, y.r, k), Bitwise(op, x.g, y.g, k), k), Bitwise(op, x.b, y.b, k), k)
  {
    ByteWidth(k);
    PackedJoin(x, k);
    PackedJoin(y, k);
    BitwiseFields(op, x.r, x.g, x.b, y.r, y.g, y.b, k);
  }

  /** A valid colour whose packed value is the bitwise combination of two others has the
      8-bit combinations of their channels. */
  lemma BitwiseColour(op: BitOp, x: Color, y: Color, c: Color, k: nat)
    requires Valid(x) && Valid(y) && Valid(c) && k == 8
    requires Int(c) == Bitwise(op, Int(x), Int(y), k + (k + k))
    ensures c.r == Bitwise(op, x.r, y.r, k)
    ensures c.g == Bitwise(op, x.g, y.g, k)
    ensures c.b == Bitwise(op, x.b, y.b, k)
  {
    ByteWidth(k);
    var r, g, b := Bitwise(op, x.r, y.r, k), Bitwise(op, x.g, y.g, k), Bitwise(op, x.b, y.b, k);
    BitwiseChannels(op, x, y, k);
    PackedJoin(c, k);
    SameFields(r, g, b, c.r, c.g, c.b, k);
  }

  /** Bytes joined as fields of `k` = 8 bits to the same number are the same bytes. */
  lemma SameFields(r1: int, g1: int, b1: int, r2: int, g2: int, b2: int, k: nat)
    requires IsByte(r1) && IsByte(g1) && IsByte(b1) && IsByte(r2) && IsByte(g2) && IsByte(b2) && k == 8
    requires Join(Join(r1, g1, k), b1, k) == Join(Join(r2, g2, k), b2, k)
    ensures r1 == r2 && g1 == g2 && b1 == b2
  {
    JoinBytes(r1, g1, b1, k);
    JoinBytes(r2, g2, b2, k);
    SameBytes(r1, g1, b1, r2, g2, b2);
  }

  /** Bytes packed to the same number are the same bytes. */
  lemma SameBytes(r1: int, g1: int, b1: int, r2: int, g2: int, b2: int)
    requires IsByte(r1) && IsByte(g1) && IsByte(b1) && IsByte(r2) && IsByte(g2) && IsByte(b2)
    requires (r1 * 0x100 + g1) * 0x100 + b1 == (r2 * 0x100 + g2) * 0x100 + b2
    ensures r1 == r2 && g1 == g2 && b1 == b2
  {
    PackBytes(r1, g1, b1);
    PackBytes(r2, g2, b2);
  }

  /** `x.and(y)` is the channel-wise and. */
  lemma AndChannels(x: Color, y: Color)
    requires Valid(x) && Valid(y)
    ensures And(x, y) == Color(Bitwise(AndOp, x.r, y.r, 8), Bitwise(AndOp, x.g, y.g, 8), Bitwise(AndOp, x.b, y.b, 8), 1.0)
  {
    var c := And(x, y);
    assert Int(c) == Bitwise(AndOp, Int(x), Int(y), 24);
    BitwiseColour(AndOp, x, y, c, 8);
  }

  /** `x.or(y)` is the channel-wise or. */
  lemma OrChannels(x: Color, y: Color)
    requires Valid(x) && Valid(y)
    ensures Colors.Or(x, y) == Color(Bitwise(OrOp, x.r, y.r, 8), Bitwise(OrOp, x.g, y.g, 8), Bitwise(OrOp, x.b, y.b, 8), 1.0)
  {
    var c := Colors.Or(x, y);
    assert Int(c) == Bitwise(OrOp, Int(x), Int(y), 24);
    BitwiseColour(OrOp, x, y, c, 8);
  }

  /** `x.xor(y)` is the channel-wise xor. */
  lemma XorChannels(x: Color, y: Color)
    requires Valid(x) && Valid(y)
    ensures Xor(x, y) == Color(Bitwise(XorOp, x.r, y.r, 8), Bitwise(XorOp, x.g, y.g, 8), Bitwise(XorOp, x.b, y.b, 8), 1.0)
  {
    var c := Xor(x, y);
    assert Int(c) == Bitwise(XorOp, Int(x), Int(y), 24);
    BitwiseColour(XorOp, x, y, c, 8);
  }

  lemma IntOfWhite()
    ensures Int(White) == MaxFlat
  {
  }

  lemma IntOfBlack()
    ensures Int(Black) == 0
  {
  }

  /** The colour of a packed value has its three bytes as channels. */
  lemma FromFlatChannels(n: int)
    requires 0 <= n <= MaxFlat
    ensures FromFlat(n) == Color(n / 0x10000, n / 0x100 % 0x100, n % 0x100, 1.0)
  {
  }

  // ---------------------------------------------------------------------------------------
  // The test page's conversions and operations
  // ---------------------------------------------------------------------------------------

  /** `c0 = new Color(0x0077ff)` and `c1 = new Color(255, 200, 64, 0.7)` of the test page. */
  function C0(): (c: Color)
    ensures c == Color(0, 119, 255, 1.0)
  {
    assert IntToRgb(Finite(0x0077ff as real)) == Rgb(0, 119, 255);
    FromFlat(0x0077ff)
  }

  function C1(): (c: Color)
    ensures c == Color(255, 200, 64, 0.7)
  {
    FromPositional(IntValue(255), IntValue(200), IntValue(64), Num(Finite(0.7)))
  }

  /** The packed values and text forms of the two test colours. How the alphas 0.4 and 0.7
      are written is the parameter `t`. */
  lemma TestColourValues(t: real -> string)
    requires t(0.4) == "0.4" && t(0.7) == "0.7"
    ensures Int(C0()) == 0x0077ff && Int(C0().(a := 0.4)) == 0x0077ff
    ensures ValueOf(C1()) == 0xffc840
    ensures Colors.Hex(C0()) == "0077ff" && ToString(C0(), t) == "#0077ff"
    ensures Colors.Hex(C0().(a := 0.4)) == "0077ff" && ToString(C0().(a := 0.4), t) == "rgba(0,119,255,0.4)"
    ensures Colors.Hex(C1()) == "ffc840" && ToString(C1(), t) == "rgba(255,200,64,0.7)"
  {
    OpaqueTexts(C0(), t);
    TranslucentTexts(C0().(a := 0.4), t);
    SecondTexts(C1(), t);
  }

  /** c0 as built: "0077ff" and "#0077ff". */
  lemma OpaqueTexts(c: Color, t: real -> string)
    requires c.r == 0 && c.g == 119 && c.b == 255 && c.a == 1.0
    ensures Colors.Hex(c) == "0077ff" && ToString(c, t) == "#0077ff"
  {
    assert Int(c) == 0x0077ff;
    HexOfFlat(c, 0x0077ff);
    IntToHexOf0077ff(0x0077ff);
    HashOf0077ff(Colors.Hex(c));
  }

  lemma HashOf0077ff(h: string)
    requires h == "0077ff"
    ensures "#" + h == "#0077ff"
  {
  }

  /** c0 with alpha 0.4: the same hex digits, and the rgba text. */
  lemma TranslucentTexts(c: Color, t: real -> string)
    requires c.r == 0 && c.g == 119 && c.b == 255 && c.a == 0.4 && t(c.a) == "0.4"
    ensures Colors.Hex(c) == "0077ff" && ToString(c, t) == "rgba(0,119,255,0.4)"
  {
    assert Int(c) == 0x0077ff;
    HexOfFlat(c, 0x0077ff);
    IntToHexOf0077ff(0x0077ff);
    RgbaOfC0(DecimalFields(c.r, c.g, c.b, t(c.a)));
  }

  /** c1 = (255, 200, 64, 0.7): "ffc840" and the rgba text. */
  lemma SecondTexts(c: Color, t: real -> string)
    requires c.r == 255 && c.g == 200 && c.b == 64 && c.a == 0.7 && t(c.a) == "0.7"
    ensures Colors.Hex(c) == "ffc840" && ToString(c, t) == "rgba(255,200,64,0.7)"
  {
    assert Int(c) == 0xffc840;
    HexOfFlat(c, 0xffc840);
    IntToHexOfFfc840(0xffc840);
    RgbaOfC1(DecimalFields(c.r, c.g, c.b, t(c.a)));
  }

  lemma RgbaOfC0(body: string)
    requires body == DecimalFields(0, 119, 255, "0.4")
    ensures "rgba(" + body + ")" == "rgba(0,119,255,0.4)"
  {
    DecimalsOfC0(0, 119, 255);
  }

  lemma RgbaOfC1(body: string)
    requires body == DecimalFields(255, 200, 64, "0.7")
    ensures "rgba(" + body + ")" == "rgba(255,200,64,0.7)"
  {
    DecimalsOfC1(255, 200, 64);
  }

  /** `c.hex()` is `cnv.int_hex` of `c.int()`. */
  lemma HexOfFlat(c: Color, n: int)
    requires Int(c) == n
    ensures Colors.Hex(c) == IntToHex(n)
  {
  }

  lemma IntToHexOf0077ff(n: int)
    requires n == 0x0077ff
    ensures IntToHex(n) == "0077ff"
  {
    var t := DigitsText(ClampInt(n, 0, MaxFlat), 16);
    TextOf77ff(n);
    HexOf77ff(t);
  }

  lemma TextOf77ff(n: int)
    requires n == 0x77ff
    ensures DigitsText(n, 16) == "77ff"
  {
    assert DigitsText(0x7, 16) == "7";
    assert DigitsText(0x77, 16) == "77";
    assert DigitsText(0x77f, 16) == "77f";
  }

  lemma HexOf77ff(t: string)
    requires t == "77ff"
    ensures Parse.Hex(t) == "0077ff"
  {
    LowerHexUnstripped(t);
    assert Expand(t) == t;
    PadOf77ff(t);
  }

  lemma PadOf77ff(t: string)
    requires t == "77ff"
    ensures PadZeros(t) == "0077ff"
  {
    var r := PadZeros(t);
    assert r[2..] == t;
    assert r == "00" + t;
  }

  lemma IntToHexOfFfc840(n: int)
    requires n == 0xffc840
    ensures IntToHex(n) == "ffc840"
  {
    var t := DigitsText(ClampInt(n, 0, MaxFlat), 16);
    TextOfFfc840(n);
    LowerHexUnstripped(t);
    assert PadZeros(Expand(t)) == t;
  }

  lemma TextOfFfc840(n: int)
    requires n == 0xffc840
    ensures DigitsText(n, 16) == "ffc840"
  {
    assert DigitsText(0xf, 16) == "f";
    assert DigitsText(0xff, 16) == "ff";
    assert DigitsText(0xffc, 16) == "ffc";
    assert DigitsText(0xffc8, 16) == "ffc8";
    assert DigitsText(0xffc84, 16) == "ffc84";
  }

  lemma DecimalsOfC0(r: int, g: int, b: int)
    requires r == 0 && g == 119 && b == 255
    ensures DecimalText(r) == "0" && DecimalText(g) == "119" && DecimalText(b) == "255"
  {
    assert DigitsText(11, 10) == "11";
    assert DigitsText(25, 10) == "25";
  }

  lemma DecimalsOfC1(r: int, g: int, b: int)
    requires r == 255 && g == 200 && b == 64
    ensures DecimalText(r) == "255" && DecimalText(g) == "200" && DecimalText(b) == "64"
  {
    assert DigitsText(25, 10) == "25";
    assert DigitsText(20, 10) == "20";
  }

  /** The channel operations on the test colours, with `c0`'s alpha set to 0.4 as on the test page. */
  lemma ArithmeticExamples()
    ensures Not(C0().(a := 0.4)) == Color(255, 136, 0, 1.0)
    ensures Add(C0().(a := 0.4), C1()) == Color(255, 255, 255, 1.0)
    ensures Sub(C0().(a := 0.4), C1()) == Color(0, 0, 191, 1.0)
  {
    assert Int(C0().(a := 0.4)) == 0x0077ff;
    FromFlatChannels(0xff8800);
  }

  /** The bitwise operations on the same two colours. */
  lemma BitwiseExamples()
    ensures And(C0().(a := 0.4), C1()) == Color(0, 64, 64, 1.0)
    ensures Colors.Or(C0().(a := 0.4), C1()) == Color(255, 255, 255, 1.0)
    ensures Xor(C0().(a := 0.4), C1()) == Color(255, 191, 191, 1.0)
  {
    var x, y := C0().(a := 0.4), C1();
    AndChannels(x, y);
    OrChannels(x, y);
    XorChannels(x, y);
    ByteOperations();
  }

  /** The 8-bit operations on the channel pairs (0, 255), (119, 200) and (255, 64), one
      evaluation per lemma. */
  lemma ByteOperations()
    ensures Bitwise(AndOp, 0, 255, 8) == 0 && Bitwise(AndOp, 119, 200, 8) == 64 && Bitwise(AndOp, 255, 64, 8) == 64
    ensures Bitwise(OrOp, 0, 255, 8) == 255 && Bitwise(OrOp, 119, 200, 8) == 255 && Bitwise(OrOp, 255, 64, 8) == 255
    ensures Bitwise(XorOp, 0, 255, 8) == 255 && Bitwise(XorOp, 119, 200, 8) == 191 && Bitwise(XorOp, 255, 64, 8) == 191
  {
    And0With255();
    And119With200();
    And255With64();
    Or0With255();
    Or119With200();
    Or255With64();
    Xor0With255();
    Xor119With200();
    Xor255With64();
  }

  lemma And0With255()
    ensures Bitwise(AndOp, 0, 255, 8) == 0
  {
    BitwiseConcat(AndOp, 0, 0, 15, 15, 4, 4);
  }

  lemma And119With200()
    ensures Bitwise(AndOp, 119, 200, 8) == 64
  {
    BitwiseConcat(AndOp, 7, 7, 12, 8, 4, 4);
  }

  lemma And255With64()
    ensures Bitwise(AndOp, 255, 64, 8) == 64
  {
    BitwiseConcat(AndOp, 15, 15, 4, 0, 4, 4);
  }

  lemma Or0With255()
    ensures Bitwise(OrOp, 0, 255, 8) == 255
  {
    BitwiseConcat(OrOp, 0, 0, 15, 15, 4, 4);
  }

  lemma Or119With200()
    ensures Bitwise(OrOp, 119, 200, 8) == 255
  {
    BitwiseConcat(OrOp, 7, 7, 12, 8, 4, 4);
  }

  lemma Or255With64()
    ensures Bitwise(OrOp, 255, 64, 8) == 255
  {
    BitwiseConcat(OrOp, 15, 15, 4, 0, 4, 4);
  }

  lemma Xor0With255()
    ensures Bitwise(XorOp, 0, 255, 8) == 255
  {
    BitwiseConcat(XorOp, 0, 0, 15, 15, 4, 4);
  }

  lemma Xor119With200()
    ensures Bitwise(XorOp, 119, 200, 8) == 191
  {
    BitwiseConcat(XorOp, 7, 7, 12, 8, 4, 4);
  }

  lemma Xor255With64()
    ensures Bitwise(XorOp, 255, 64, 8) == 191
  {
    BitwiseConcat(XorOp, 15, 15, 4, 0, 4, 4);
  }

  /** The getter/setter sequence of the test page, starting from `c0` with alpha 0.4. */
  lemma SetterExamples()
    ensures var c := C0().(a := 0.4);
      && SetChannel(c, R, Some(5)) == Set(Color(5, 119, 255, 0.4))
      && SetChannel(Color(5, 119, 255, 0.4), R, None) == Got(5)
      && SetChannel(Color(5, 119, 255, 0.4), G, Some(6)) == Set(Color(5, 6, 255, 0.4))
      && SetChannel(Color(5, 6, 255, 0.4), B, Some(7)) == Set(Color(5, 6, 7, 0.4))
      && SetAlpha(Color(5, 6, 7, 0.4), Some(0.8)) == Set(Color(5, 6, 7, 0.8))
      && SetAlpha(Color(5, 6, 7, 0.8), None) == Got(0.8)
  {
  }

  /** A channel read after it was set is the value set, unclamped; `c.int()` stays in range
      and uses the clamped value. */
  lemma GetAfterSet(c: Color, k: Channel, n: int)
    ensures var d := SetChannel(c, k, Some(n)).color;
      && SetChannel(d, k, None) == Got(n)
      && 0 <= Int(d) <= MaxFlat
  {
  }

  // ---------------------------------------------------------------------------------------
  // Blending
  // ---------------------------------------------------------------------------------------

  /** Multiplying by white keeps the channels and makes the colour opaque. */
  lemma MultiplyWhite(x: Color)
    requires Valid(x)
    ensures Mix(Multiply, x, White) == x.(a := 1.0)
  {
    WhiteIs(MaxFlat);
    MultiplyByFull(x.r, MaxByte);
    MultiplyByFull(x.g, MaxByte);
    MultiplyByFull(x.b, MaxByte);
  }

  /** Dividing by black divides every channel by 0, and the infinities read back as 0. */
  lemma DivideBlack(x: Color)
    ensures Mix(Divide, x, Black) == Black
  {
    BlackIs(0);
    DivideByZero(x.r, 0);
    DivideByZero(x.g, 0);
    DivideByZero(x.b, 0);
  }

  /** Subtracting white from a colour of byte channels gives black. */
  lemma SubtractWhite(x: Color)
    ensures Mix(Subtract, x, White) == Black
  {
    WhiteIs(MaxFlat);
    BlackIs(0);
    SubtractFull(x.r);
    SubtractFull(x.g);
    SubtractFull(x.b);
  }

  /** Subtracting the channel 255 from any channel value gives 0. */
  lemma SubtractFull(p: int)
    ensures Blend.Channel(Subtract, p, MaxByte) == 0
  {
    var k := ClampInt(p, 0, MaxByte);
    ByteOfInt(p);
    ByteOfInt(k);
    SameOp(Subtract, p, MaxByte, Subtract, k, MaxByte);
    SubtractLarger(k, MaxByte);
  }

  /** The difference of a colour with itself is black. */
  lemma DifferenceSelf(x: Color)
    ensures Mix(Difference, x, x) == Black
  {
    BlackIs(0);
    DifferenceOfSame(x.r);
    DifferenceOfSame(x.g);
    DifferenceOfSame(x.b);
  }

  /** Adding white gives white. */
  lemma AdditionWhite(x: Color)
    ensures Mix(Addition, x, White) == White
  {
    WhiteIs(MaxFlat);
    AdditionOfFull(x.r, MaxByte);
    AdditionOfFull(x.g, MaxByte);
    AdditionOfFull(x.b, MaxByte);
  }

  /** Multiply, screen, addition and difference do not depend on the order of the colours. */
  lemma MixCommutes(m: Mode, x: Color, y: Color)
    requires Symmetric(m)
    ensures Mix(m, x, y) == Mix(m, y, x)
  {
    ChannelCommutes(m, x.r, y.r);
    ChannelCommutes(m, x.g, y.g);
    ChannelCommutes(m, x.b, y.b);
  }

  /** Hard light is overlay with the colours swapped. */
  lemma HardLightIsSwappedOverlay(x: Color, y: Color)
    ensures Mix(HardLight, x, y) == Mix(Overlay, y, x)
  {
    HardLightChannel(x.r, y.r);
    HardLightChannel(x.g, y.g);
    HardLightChannel(x.b, y.b);
  }

  // ---------------------------------------------------------------------------------------
  // The static helpers and the named colours
  // ---------------------------------------------------------------------------------------

  /** `c.rgba()` as written reports the red channel as alpha: for (0, 119, 255) with alpha 0.3
      it ends in 0 where the intended list ends in 0.3. */
  lemma RgbaListExample(c: Color)
    requires c == Color(0, 119, 255, 0.3)
    ensures RgbaList(c)[3] == 0.0
    ensures RgbaListCorrected(c)[3] == 0.3
  {
  }

  /** `Color.rgba(0, 119, 255, 0.5)` as written is fully transparent: the alpha 0.5 is truncated
      by `parse.byte`. The intended version keeps it. */
  lemma StaticRgbaExample()
    ensures StaticRgba(IntValue(0), IntValue(119), IntValue(255), Num(Finite(0.5))).a == 0.0
    ensures StaticRgbaCorrected(IntValue(0), IntValue(119), IntValue(255), Num(Finite(0.5))).a == 0.5
  {
  }

  /** The named colours. */
  lemma NamedColours()
    ensures White == Color(255, 255, 255, 1.0) && Black == Color(0, 0, 0, 1.0)
    ensures Red == Color(255, 0, 0, 1.0) && Green == Color(0, 255, 0, 1.0) && Blue == Color(0, 0, 255, 1.0)
    ensures Yellow == Color(255, 255, 0, 1.0) && Cyan == Color(0, 255, 255, 1.0) && Magenta == Color(255, 0, 255, 1.0)
    ensures Transparent == Color(0, 0, 0, 0.0)
  {
    WhiteIs(MaxFlat);
    BlackIs(0);
    RedIs();
    GreenIs();
    BlueIs();
    YellowIs();
    CyanIs();
    MagentaIs();
    TransparentIs();
  }

  lemma WhiteIs(n: int)
    requires n == MaxFlat
    ensures FromFlat(n) == Color(255, 255, 255, 1.0)
  {
    FromFlatChannels(n);
  }

  lemma BlackIs(n: int)
    requires n == 0
    ensures FromFlat(n) == Color(0, 0, 0, 1.0)
  {
    FromFlatChannels(n);
  }

  lemma RedIs()
    ensures Red == Color(255, 0, 0, 1.0)
  {
    FromFlatChannels(0xff0000);
  }

  lemma GreenIs()
    ensures Green == Color(0, 255, 0, 1.0)
  {
    FromFlatChannels(0x00ff00);
  }

  lemma BlueIs()
    ensures Blue == Color(0, 0, 255, 1.0)
  {
    FromFlatChannels(0x0000ff);
  }

  lemma YellowIs()
    ensures Yellow == Color(255, 255, 0, 1.0)
  {
    FromFlatChannels(0xffff00);
  }

  lemma CyanIs()
    ensures Cyan == Color(0, 255, 255, 1.0)
  {
    FromFlatChannels(0x00ffff);
  }

  lemma MagentaIs()
    ensures Magenta == Color(255, 0, 255, 1.0)
  {
    FromFlatChannels(0xff00ff);
  }

  lemma TransparentIs()
    ensures Transparent == Color(0, 0, 0, 0.0)
  {
  }
}
