/** The `Color` type: its constructor, which accepts five shapes of argument list tried in
    order; its accessors and setters; its text forms; the colours derived from one or two
    colours by bitwise and channel arithmetic; the static helpers and the named colours. */
module Colors {
  import opened Results
  import opened JsText
  import opened JsValues
  import opened Validate
  import opened Parse
  import opened Convert
  import opened Bits

  /** The state of a colour: the fields `_r`, `_g`, `_b` and `_a`. */
  datatype Color = Color(r: int, g: int, b: int, a: real)

  /** Three byte channels and an alpha unit, as every construction outside the HSL branch leaves them. */
  predicate Valid(c: Color) {
    IsByte(c.r) && IsByte(c.g) && IsByte(c.b) && 0.0 <= c.a <= 1.0
  }

  /** The conversion the HSL branch of the constructor calls on the `h`, `s` and `l` properties.
      The library's own `cnv.hsl_rgb` is not part of this model, so it is a parameter. */
  type HslToRgb = (Value, Value, Value) -> Rgb

  /** What the constructor throws. */
  datatype Failure =
    | /** The array `['InvalidArgumentsException', message]`, the message quoting the arguments. */
      InvalidArguments(args: seq<Value>)
    | /** The TypeError of reading property `h` of null. */
      TypeError

  /** The branch of the constructor an argument list takes. */
  datatype Shape =
    | Default
    | HexText(text: string)
    | FlatNumber(n: real)
    | HslObject(h: Value, s: Value, l: Value)
    | RgbaObject(props: map<string, Value>)
    | Positional(r: Value, g: Value, b: Value, a: Value)
    | NullObject
    | Unrecognised

  /** Whether an object's `h`, `s` and `l` properties are all non-null. */
  predicate HasHsl(props: map<string, Value>) {
    !IsNull(Get(props, "h")) && !IsNull(Get(props, "s")) && !IsNull(Get(props, "l"))
  }

  /** The arity and argument tests of the constructor, in the order it makes them. A single
      argument is tried as a hex text, then as a packed integer, then as an object; `typeof null`
      is "object", so null reaches the HSL test and throws there. */
  function Classify(args: seq<Value>): (s: Shape)
    ensures s.Unrecognised? <==>
      || |args| == 2 || |args| >= 5
      || (|args| == 1 && !IsHex(args[0]) && !IsFlatInt(args[0]) && !args[0].Obj? && !args[0].Null?)
    ensures s.NullObject? <==> |args| == 1 && args[0].Null?
    ensures s.Positional? <==> |args| == 3 || |args| == 4
    ensures s.HexText? ==> |args| == 1 && args[0] == Str(s.text) && HexPattern(s.text)
    ensures s.FlatNumber? ==> |args| == 1 && args[0] == Num(Finite(s.n)) && 0.0 <= s.n <= MaxFlat as real
  {
    if |args| == 0 then Default
    else if |args| == 1 then
      var c := args[0];
      if IsHex(c) then HexText(c.text)
      else if IsFlatInt(c) then FlatNumber(c.n.value)
      else if c.Null? then NullObject
      else if c.Obj? && HasHsl(c.props) then HslObject(Get(c.props, "h"), Get(c.props, "s"), Get(c.props, "l"))
      else if c.Obj? then RgbaObject(c.props)
      else Unrecognised
    else if |args| == 3 then Positional(args[0], args[1], args[2], Undefined)
    else if |args| == 4 then Positional(args[0], args[1], args[2], args[3])
    else Unrecognised
  }

  /** The colour of converted channels; alpha keeps its initial value 1. */
  function FromRgb(c: Rgb): (k: Color)
    ensures k.a == 1.0
    ensures IsByteTriple(c) ==> Valid(k)
  {
    Color(c.r, c.g, c.b, 1.0)
  }

  /** The RGB(A) object branch: each channel is `parse.byte(c._x || c.x)`, and alpha is
      `parse.unit(c._a)` when `c._a` is not null and `parse.unit(c.a)` otherwise. */
  function FromRgbaObject(props: map<string, Value>): (k: Color)
    ensures Valid(k)
    ensures !IsNull(Get(props, "_a")) ==> k.a == Unit(Get(props, "_a"))
    ensures IsNull(Get(props, "_a")) ==> k.a == Unit(Get(props, "a"))
    ensures Truthy(Get(props, "_r")) ==> k.r == Byte(Get(props, "_r"))
    ensures !Truthy(Get(props, "_r")) ==> k.r == Byte(Get(props, "r"))
    ensures Truthy(Get(props, "_g")) ==> k.g == Byte(Get(props, "_g"))
    ensures !Truthy(Get(props, "_g")) ==> k.g == Byte(Get(props, "g"))
    ensures Truthy(Get(props, "_b")) ==> k.b == Byte(Get(props, "_b"))
    ensures !Truthy(Get(props, "_b")) ==> k.b == Byte(Get(props, "b"))
  {
    var a := Get(props, "_a");
    Color(
      Byte(JsValues.Or(Get(props, "_r"), Get(props, "r"))),
      Byte(JsValues.Or(Get(props, "_g"), Get(props, "g"))),
      Byte(JsValues.Or(Get(props, "_b"), Get(props, "b"))),
      Unit(if !IsNull(a) then a else Get(props, "a")))
  }

  /** The positional branch: three channels through `parse.byte`, alpha through `parse.unit`
      (undefined, hence 1, when there are only three arguments). */
  function FromPositional(r: Value, g: Value, b: Value, a: Value): (k: Color)
    ensures Valid(k)
    ensures k.r == Byte(r) && k.g == Byte(g) && k.b == Byte(b)
    ensures k.a == Unit(a)
  {
    Color(Byte(r), Byte(g), Byte(b), Unit(a))
  }

  /** `new Color(...args)`: the colour the constructor builds, or what it throws. */
  function Construct(args: seq<Value>, hsl: HslToRgb): (r: Result<Color, Failure>)
    ensures r.Ok? && !Classify(args).HslObject? ==> Valid(r.value)
    ensures r == Err(InvalidArguments(args)) <==>
      || |args| == 2 || |args| >= 5
      || (|args| == 1 && !IsHex(args[0]) && !IsFlatInt(args[0]) && !args[0].Obj? && !args[0].Null?)
    ensures r == Err(TypeError) <==> |args| == 1 && args[0].Null?
    ensures |args| == 0 ==> r == Ok(Color(0, 0, 0, 1.0))
    ensures |args| == 3 ==> r.Ok? && r.value.a == 1.0
  {
    match Classify(args)
    case Default => Ok(Color(0, 0, 0, 1.0))
    case HexText(t) => Ok(FromRgb(HexToRgb(t)))
    case FlatNumber(n) => Ok(FromRgb(IntToRgb(Finite(n))))
    case HslObject(h, s, l) => Ok(FromRgb(hsl(h, s, l)))
    case RgbaObject(props) => Ok(FromRgbaObject(props))
    case Positional(r, g, b, a) => Ok(FromPositional(r, g, b, a))
    case NullObject => Err(TypeError)
    case Unrecognised => Err(InvalidArguments(args))
  }

  // ---------------------------------------------------------------------------------------
  // Accessors
  // ---------------------------------------------------------------------------------------

  /** The channels as JavaScript numbers, the way the accessors hand them to `cnv`. */
  function Channels(c: Color): (v: (Value, Value, Value)) {
    (IntValue(c.r), IntValue(c.g), IntValue(c.b))
  }

  /** `c.int()`: the packed colour of the channels, each re-read by `parse.byte`, so it is in
      range even after a setter stored an out-of-range channel. */
  function Int(c: Color): (n: int)
    ensures 0 <= n <= MaxFlat
  {
    var (r, g, b) := Channels(c);
    ByteOfInt(c.r);
    ByteOfInt(c.g);
    ByteOfInt(c.b);
    RgbToInt(r, g, b)
  }

  /** `c.int()` packs the channels clamped to bytes. */
  lemma IntIsPack(c: Color)
    ensures Int(c) == Pack(ClampInt(c.r, 0, MaxByte), ClampInt(c.g, 0, MaxByte), ClampInt(c.b, 0, MaxByte))
  {
    ByteOfInt(c.r);
    ByteOfInt(c.g);
    ByteOfInt(c.b);
  }

  /** `c.valueOf()`: the packed colour, the same as `c.int()`. */
  function ValueOf(c: Color): (n: int)
    ensures 0 <= n <= MaxFlat
    ensures n == Int(c)
  {
    Int(c)
  }

  /** `c.hex()`: six lower-case hex digits for the packed colour (alpha plays no part). */
  function Hex(c: Color): (h: string)
    ensures |h| == 6
    ensures forall i :: 0 <= i < |h| ==> IsLowerHexDigit(h[i])
  {
    var (r, g, b) := Channels(c);
    RgbToHex(r, g, b)
  }

  /** The intended `c.hex()`, built on the corrected `cnv.int_hex`: it always reads back as
      `c.int()`. */
  function HexCorrected(c: Color): (h: string)
    ensures |h| == 6
    ensures forall i :: 0 <= i < |h| ==> IsLowerHexDigit(h[i])
    ensures HexToInt(h) == Some(Int(c))
  {
    IntToHexPadded(Int(c))
  }

  /** `c.rgb()`: the three channel fields. */
  function RgbList(c: Color): (s: seq<int>)
    ensures s == [c.r, c.g, c.b]
    ensures Valid(c) ==> IntToRgb(Finite(Int(c) as real)) == Rgb(s[0], s[1], s[2])
  {
    IntOfChannels(c);
    [c.r, c.g, c.b]
  }

  /** The channels of a valid colour are read back from its packed value. */
  lemma IntOfChannels(c: Color)
    ensures Valid(c) ==> IntToRgb(Finite(Int(c) as real)) == Rgb(c.r, c.g, c.b)
  {
    if Valid(c) {
      assert Int(c) == RgbToInt(IntValue(c.r), IntValue(c.g), IntValue(c.b));
      RgbIntRgb(c.r, c.g, c.b);
    }
  }

  /** `c.rgba()` as written: the red channel is repeated where alpha belongs. */
  function RgbaList(c: Color): (s: seq<real>)
    ensures s == [c.r as real, c.g as real, c.b as real, c.r as real]
    ensures s[3] == s[0]
  {
    [c.r as real, c.g as real, c.b as real, c.r as real]
  }

  /** The intended `c.rgba()`: the channels and then alpha. */
  function RgbaListCorrected(c: Color): (s: seq<real>)
    ensures s == [c.r as real, c.g as real, c.b as real, c.a]
    ensures s[..3] == RgbaList(c)[..3]
    ensures s[3] == c.a
  {
    [c.r as real, c.g as real, c.b as real, c.a]
  }

  // ---------------------------------------------------------------------------------------
  // Getters and setters
  // ---------------------------------------------------------------------------------------

  /** What a getter/setter call gives: the field's value when the argument is null, or the
      colour itself (`this`) after the field has been overwritten. */
  datatype Access<T> = Got(value: T) | Set(color: Color)

  /** `c.r(v)`, `c.g(v)`, `c.b(v)`: None stands for an argument `isNull` accepts (undefined,
      null, NaN, the infinities); any other integer is stored as given, without clamping. */
  datatype Channel = R | G | B

  function Field(c: Color, k: Channel): int {
    match k
    case R => c.r
    case G => c.g
    case B => c.b
  }

  function SetChannel(c: Color, k: Channel, v: Option<int>): (x: Access<int>)
    ensures v.None? <==> x.Got?
    ensures x.Got? ==> x.value == Field(c, k)
    ensures x.Set? ==> Field(x.color, k) == v.value && x.color.a == c.a
    ensures x.Set? ==> forall j: Channel :: j != k ==> Field(x.color, j) == Field(c, j)
  {
    match v
    case None => Got(Field(c, k))
    case Some(n) =>
      Set(match k
        case R => c.(r := n)
        case G => c.(g := n)
        case B => c.(b := n))
  }

  /** `c.a(v)`: None stands for an argument `isNull` accepts; any other number is stored
      as given, without clamping. */
  function SetAlpha(c: Color, v: Option<real>): (x: Access<real>)
    ensures v.None? <==> x.Got?
    ensures x.Got? ==> x.value == c.a
    ensures x.Set? ==> x.color == Color(c.r, c.g, c.b, v.value)
  {
    match v
    case None => Got(c.a)
    case Some(a) => Set(c.(a := a))
  }

  // ---------------------------------------------------------------------------------------
  // Text forms
  // ---------------------------------------------------------------------------------------

  /** `util.tostr(c, fmt)`: the text "rgba(r,g,b,a)" when alpha is below 1 or `fmt` is "rgba",
      and "#" followed by `c.hex()` otherwise. How a fractional alpha is written is
      `alphaText`'s business; the channels are written as integers. */
  function Format(c: Color, fmt: Value, alphaText: real -> string): (s: string)
    ensures |s| >= 7
    ensures s[0] == '#' <==> c.a >= 1.0 && fmt != Str("rgba")
    ensures s[0] == '#' ==> s[1..] == Hex(c)
    ensures c.a < 1.0 || fmt == Str("rgba") ==>
      s == "rgba(" + DecimalFields(c.r, c.g, c.b, alphaText(c.a)) + ")"
  {
    if c.a < 1.0 || (Truthy(fmt) && fmt == Str("rgba")) then
      "rgba(" + DecimalFields(c.r, c.g, c.b, alphaText(c.a)) + ")"
    else
      "#" + Hex(c)
  }

  /** `c.toString()`: `util.tostr` without a format. */
  function ToString(c: Color, alphaText: real -> string): (s: string)
    ensures |s| >= 7
    ensures s[0] == '#' <==> c.a >= 1.0
    ensures c.a >= 1.0 ==> s == "#" + Hex(c)
    ensures c.a < 1.0 ==>
      s == "rgba(" + DecimalFields(c.r, c.g, c.b, alphaText(c.a)) + ")"
  {
    Format(c, Undefined, alphaText)
  }

  // ---------------------------------------------------------------------------------------
  // Derived colours
  // ---------------------------------------------------------------------------------------

  /** `new Color(n)` for a packed colour n in range: its bytes, alpha 1. */
  function FromFlat(n: int): (k: Color)
    requires 0 <= n <= MaxFlat
    ensures Valid(k) && k.a == 1.0
    ensures Int(k) == n
  {
    var c := IntToRgb(Finite(n as real));
    assert FlatInt(Finite(n as real)).Floor == n;
    IntIsPack(FromRgb(c));
    FromRgb(c)
  }

  /** `util.add(x, y)`: the channel and alpha sums, through the positional constructor. */
  function Add(x: Color, y: Color): (c: Color)
    ensures c == Color(ClampInt(x.r + y.r, 0, MaxByte), ClampInt(x.g + y.g, 0, MaxByte),
      ClampInt(x.b + y.b, 0, MaxByte), ClampReal(x.a + y.a, 0.0, 1.0))
  {
    FromPositional(IntValue(x.r + y.r), IntValue(x.g + y.g), IntValue(x.b + y.b), Num(Finite(x.a + y.a)))
  }

  /** `util.sub(x, y)`: the channel differences; with three arguments alpha is reset to 1. */
  function Sub(x: Color, y: Color): (c: Color)
    ensures c == Color(ClampInt(x.r - y.r, 0, MaxByte), ClampInt(x.g - y.g, 0, MaxByte),
      ClampInt(x.b - y.b, 0, MaxByte), 1.0)
  {
    FromPositional(IntValue(x.r - y.r), IntValue(x.g - y.g), IntValue(x.b - y.b), Undefined)
  }

  /** `util.avg(x, y)`: the channel means read by `parse.rgb`, wrapped in an object that the
      constructor reads through its RGB(A) object branch. */
  function Avg(x: Color, y: Color): (c: Color)
    ensures Valid(c) && c.a == 1.0
    ensures Valid(x) && Valid(y) ==> c == Color((x.r + y.r) / 2, (x.g + y.g) / 2, (x.b + y.b) / 2, 1.0)
    ensures c == Color(ClampInt(Trunc((x.r + y.r) as real / 2.0), 0, MaxByte),
      ClampInt(Trunc((x.g + y.g) as real / 2.0), 0, MaxByte),
      ClampInt(Trunc((x.b + y.b) as real / 2.0), 0, MaxByte), 1.0)
  {
    var m := ToRgb(Num(Finite((x.r + y.r) as real / 2.0)), Num(Finite((x.g + y.g) as real / 2.0)),
      Num(Finite((x.b + y.b) as real / 2.0)));
    RgbObject(m);
    AvgMeans(x, y, m);
    FromRgbaObject(map["r" := IntValue(m.r), "g" := IntValue(m.g), "b" := IntValue(m.b)])
  }

  /** `parse.rgb` of the channel sums halved gives the means rounded down, for byte channels. */
  lemma AvgMeans(x: Color, y: Color, m: Rgb)
    requires m == ToRgb(Num(Finite((x.r + y.r) as real / 2.0)), Num(Finite((x.g + y.g) as real / 2.0)),
      Num(Finite((x.b + y.b) as real / 2.0)))
    ensures Valid(x) && Valid(y) ==> m == Rgb((x.r + y.r) / 2, (x.g + y.g) / 2, (x.b + y.b) / 2)
  {
    MeanByte(x.r, y.r);
    MeanByte(x.g, y.g);
    MeanByte(x.b, y.b);
  }

  /** `parse.byte` of the mean of two bytes is the mean rounded down. */
  lemma MeanByte(p: int, q: int)
    ensures IsByte(p) && IsByte(q) ==> Byte(Num(Finite((p + q) as real / 2.0))) == (p + q) / 2
  {
    if IsByte(p) && IsByte(q) {
      var v := (p + q) as real / 2.0;
      var h := (p + q) / 2;
      assert h as real <= v < h as real + 1.0;
      assert v.Floor == h;
    }
  }

  /** The object `{r, g, b}` that `util.avg` builds is read back as those bytes, opaque. */
  lemma RgbObject(m: Rgb)
    ensures IsByteTriple(m) ==>
      FromRgbaObject(map["r" := IntValue(m.r), "g" := IntValue(m.g), "b" := IntValue(m.b)]) == Color(m.r, m.g, m.b, 1.0)
  {
    var props := map["r" := IntValue(m.r), "g" := IntValue(m.g), "b" := IntValue(m.b)];
    RgbObjectKeys(props, m);
    ByteOfInt(m.r);
    ByteOfInt(m.g);
    ByteOfInt(m.b);
  }

  /** What the RGB(A) object branch reads from an object with just `r`, `g` and `b`. */
  lemma RgbObjectKeys(props: map<string, Value>, m: Rgb)
    requires props == map["r" := IntValue(m.r), "g" := IntValue(m.g), "b" := IntValue(m.b)]
    ensures "_r" !in props && "_g" !in props && "_b" !in props && "_a" !in props && "a" !in props
    ensures Get(props, "r") == IntValue(m.r) && Get(props, "g") == IntValue(m.g) && Get(props, "b") == IntValue(m.b)
  {
  }

  /** `util.not(x)`: the complement of the packed colour. */
  function Not(x: Color): (c: Color)
    ensures Valid(c) && c.a == 1.0
    ensures Int(c) == MaxFlat - Int(x)
  {
    FromFlat(ClampInt(MaxFlat - Int(x), 0, MaxFlat))
  }

  /** The bitwise operators on two packed colours; both fit in 24 bits, so the 32-bit
      operators of JavaScript act on their 24 binary digits. */
  function BitAnd(m: int, n: int): (k: int)
    requires 0 <= m <= MaxFlat && 0 <= n <= MaxFlat
    ensures 0 <= k <= MaxFlat
  {
    FlatWidth();
    Bitwise(AndOp, m, n, 24)
  }

  function BitOr(m: int, n: int): (k: int)
    requires 0 <= m <= MaxFlat && 0 <= n <= MaxFlat
    ensures 0 <= k <= MaxFlat
  {
    FlatWidth();
    Bitwise(OrOp, m, n, 24)
  }

  function BitXor(m: int, n: int): (k: int)
    requires 0 <= m <= MaxFlat && 0 <= n <= MaxFlat
    ensures 0 <= k <= MaxFlat
  {
    FlatWidth();
    Bitwise(XorOp, m, n, 24)
  }

  /** A packed colour has 24 bits. */
  lemma FlatWidth()
    ensures Pow(2, 24) == MaxFlat + 1
  {
    assert Pow(2, 8) == 0x100;
    assert Pow(2, 16) == 0x10000;
    assert Pow(2, 24) == 0x1000000;
  }

  /** `util.and(x, y)`. */
  function And(x: Color, y: Color): (c: Color)
    ensures Valid(c) && c.a == 1.0
    ensures Int(c) == BitAnd(Int(x), Int(y))
  {
    FromFlat(ClampInt(BitAnd(Int(x), Int(y)), 0, MaxFlat))
  }

  /** `util.or(x, y)`. */
  function Or(x: Color, y: Color): (c: Color)
    ensures Valid(c) && c.a == 1.0
    ensures Int(c) == BitOr(Int(x), Int(y))
  {
    FromFlat(ClampInt(BitOr(Int(x), Int(y)), 0, MaxFlat))
  }

  /** `util.xor(x, y)`. */
  function Xor(x: Color, y: Color): (c: Color)
    ensures Valid(c) && c.a == 1.0
    ensures Int(c) == BitXor(Int(x), Int(y))
  {
    FromFlat(ClampInt(BitXor(Int(x), Int(y)), 0, MaxFlat))
  }

  /** `util.random()` for a draw `u` of Math.random, which lies in [0, 1). */
  function Random(u: real): (c: Color)
    requires 0.0 <= u < 1.0
    ensures Valid(c) && c.a == 1.0
    ensures Int(c) < MaxFlat
  {
    var n := (u * MaxFlat as real).Floor;
    FromFlat(n)
  }

  /** `util.clone(c)`: the four fields through the positional constructor. */
  function Clone(c: Color): (k: Color)
    ensures k == Color(ClampInt(c.r, 0, MaxByte), ClampInt(c.g, 0, MaxByte), ClampInt(c.b, 0, MaxByte),
      ClampReal(c.a, 0.0, 1.0))
    ensures Valid(c) ==> k == c
  {
    FromPositional(IntValue(c.r), IntValue(c.g), IntValue(c.b), Num(Finite(c.a)))
  }

  /** The static `Color.rgb(r, g, b)`: the channels read by `parse.byte`, alpha 1. */
  function StaticRgb(r: Value, g: Value, b: Value): (c: Color)
    ensures c == Color(Byte(r), Byte(g), Byte(b), 1.0)
  {
    FromPositional(IntValue(Byte(r)), IntValue(Byte(g)), IntValue(Byte(b)), Undefined)
  }

  /** The static `Color.rgba(r, g, b, a)` as written: alpha too is read by `parse.byte`, so
      it ends up 0 or 1. */
  function StaticRgba(r: Value, g: Value, b: Value, a: Value): (c: Color)
    ensures Valid(c)
    ensures c.r == Byte(r) && c.g == Byte(g) && c.b == Byte(b)
    ensures c.a == 0.0 || c.a == 1.0
    ensures c.a == 0.0 <==> Byte(a) == 0
  {
    FromPositional(IntValue(Byte(r)), IntValue(Byte(g)), IntValue(Byte(b)), IntValue(Byte(a)))
  }

  /** The intended `Color.rgba(r, g, b, a)`: alpha read by `parse.unit`. */
  function StaticRgbaCorrected(r: Value, g: Value, b: Value, a: Value): (c: Color)
    ensures Valid(c)
    ensures c == Color(Byte(r), Byte(g), Byte(b), Unit(a))
  {
    FromPositional(IntValue(Byte(r)), IntValue(Byte(g)), IntValue(Byte(b)), a)
  }

  // ---------------------------------------------------------------------------------------
  // The named colours
  // ---------------------------------------------------------------------------------------

  const White: Color := FromFlat(0xffffff)
  const Red: Color := FromFlat(0xff0000)
  const Green: Color := FromFlat(0x00ff00)
  const Blue: Color := FromFlat(0x0000ff)
  const Yellow: Color := FromFlat(0xffff00)
  const Cyan: Color := FromFlat(0x00ffff)
  const Magenta: Color := FromFlat(0xff00ff)
  const Black: Color := FromFlat(0x0)
  const Transparent: Color := FromPositional(IntValue(0), IntValue(0), IntValue(0), IntValue(0))
}
