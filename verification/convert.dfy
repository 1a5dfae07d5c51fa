/** The library's conversions (`cnv`) between the three encodings of a colour: a six-digit hex
    text, a packed 24-bit integer, and three channel bytes; and between bytes and units. */
module Convert {
  import opened Results
  import opened JsText
  import opened JsValues
  import opened Parse

  /** The JavaScript number for an optional integer, NaN standing for None. */
  function NumberOf(i: Option<int>): (n: Number)
    ensures i.Some? <==> n.Finite?
  {
    match i
    case None => NaN
    case Some(k) => Finite(k as real)
  }

  /** The product of a number and a positive constant, with NaN and the infinities kept. */
  function Times(n: Number, k: real): (m: Number)
    requires k > 0.0
    ensures n.Finite? <==> m.Finite?
    ensures n.Finite? ==> m.value == n.value * k
  {
    match n
    case Finite(x) => Finite(x * k)
    case _ => n
  }

  /** `cnv.hex_int(x)`: the normalised hex text read by parseInt in base 16 (None for NaN). */
  function HexToInt(s: string): Option<int> {
    ParseIntText(Hex(s), Sixteen)
  }

  /** `cnv.int_rgb(n)`: the packed colour read by `parse.int`, truncated to an integer by the
      bitwise operators, and split into its three bytes by masks and shifts. */
  function IntToRgb(n: Number): (c: Rgb)
    ensures IsByteTriple(c)
    ensures c.r * 0x10000 + c.g * 0x100 + c.b == FlatInt(n).Floor
  {
    var k := FlatInt(n).Floor;
    SplitBytes(k);
    Rgb(k / 0x10000, (k / 0x100) % 0x100, k % 0x100)
  }

  /** `cnv.hex_rgb(x)`: the hex text read as a packed colour, then split into bytes. */
  function HexToRgb(s: string): (c: Rgb)
    ensures IsByteTriple(c)
  {
    IntToRgb(NumberOf(HexToInt(s)))
  }

  /** A hex text that reads as a packed colour splits into that colour's bytes; one that
      reads as NaN is taken by `parse.int` as 0, so it gives black. */
  lemma HexReadAs(s: string)
    ensures HexToInt(s).Some? ==> HexToRgb(s) == IntToRgb(Finite(HexToInt(s).value as real))
    ensures HexToInt(s).None? ==> HexToRgb(s) == Rgb(0, 0, 0)
  {
    var i := HexToInt(s);
    assert HexToRgb(s) == IntToRgb(NumberOf(i));
    NumberRead(i);
  }

  /** `cnv.int_rgb` of what parseInt gave: the bytes of the integer, or black for NaN. */
  lemma NumberRead(i: Option<int>)
    ensures i.Some? ==> IntToRgb(NumberOf(i)) == IntToRgb(Finite(i.value as real))
    ensures i.None? ==> IntToRgb(NumberOf(i)) == Rgb(0, 0, 0)
  {
    if i.None? {
      assert FlatInt(NumberOf(i)) == 0.0;
    }
  }

  /** `cnv.rgb_int(r, g, b)`: each channel read by `parse.byte` and the three bytes packed
      by shifts. */
  function RgbToInt(r: Value, g: Value, b: Value): (n: int)
    ensures 0 <= n <= MaxFlat
  {
    Pack(Byte(r), Byte(g), Byte(b))
  }

  /** Three bytes packed at their places: `(r << 16) + (g << 8) + b`. */
  function Pack(r: int, g: int, b: int): (n: int)
    requires IsByte(r) && IsByte(g) && IsByte(b)
    ensures 0 <= n <= MaxFlat
  {
    PackBytes(r, g, b);
    r * 0x10000 + g * 0x100 + b
  }

  /** The bytes of a packed colour are read back by division and remainder. */
  lemma Unpack(r: int, g: int, b: int)
    requires IsByte(r) && IsByte(g) && IsByte(b)
    ensures var n := Pack(r, g, b); n / 0x10000 == r && (n / 0x100) % 0x100 == g && n % 0x100 == b
  {
    PackBytes(r, g, b);
  }

  /** `rgb_int` reads each channel with `parse.byte` and packs the three bytes so that
      division and remainder give them back. */
  lemma RgbToIntBytes(r: Value, g: Value, b: Value)
    ensures var n := RgbToInt(r, g, b);
      n / 0x10000 == Byte(r) && (n / 0x100) % 0x100 == Byte(g) && n % 0x100 == Byte(b)
  {
    Unpack(Byte(r), Byte(g), Byte(b));
  }

  /** `cnv.int_hex(n)` for an integer `n`: `parse.int` clamps it to [0, 0xFFFFFF], its base-16
      text is written, and that text goes through `parse.hex`. */
  function IntToHex(n: int): (h: string)
    ensures |h| == 6
    ensures forall i :: 0 <= i < |h| ==> IsLowerHexDigit(h[i])
  {
    var t := DigitsText(ClampInt(n, 0, MaxFlat), 16);
    HexDigitsLength(ClampInt(n, 0, MaxFlat));
    LowerHexUnstripped(t);
    Hex(t)
  }

  /** `cnv.rgb_hex(r, g, b)`: the packed colour of the channels as hex text. */
  function RgbToHex(r: Value, g: Value, b: Value): (h: string)
    ensures |h| == 6
    ensures forall i :: 0 <= i < |h| ==> IsLowerHexDigit(h[i])
  {
    IntToHex(RgbToInt(r, g, b))
  }

  /** `cnv.byte_unit(n)`: the byte read by `parse.byte`, divided by 255. */
  function ByteToUnit(v: Value): (u: real)
    ensures 0.0 <= u <= 1.0
    ensures u * 255.0 == Byte(v) as real
  {
    Byte(v) as real / 255.0
  }

  /** `cnv.unit_byte(n)`: the number times 255, read by `parse.byte`. A unit in [0, 1] lands
      on its scaled integer part; NaN and the infinities become 0. */
  function UnitToByte(n: Number): (b: int)
    ensures IsByte(b)
    ensures n.Finite? && 0.0 <= n.value <= 1.0 ==> b == (n.value * 255.0).Floor
    ensures !n.Finite? ==> b == 0
  {
    Byte(Num(Times(n, 255.0)))
  }

  /** The intended `cnv.int_hex`: the base-16 text of the clamped integer padded to six digits,
      without the 3-digit shorthand expansion. */
  function IntToHexPadded(n: int): (h: string)
    ensures |h| == 6
    ensures forall i :: 0 <= i < |h| ==> IsLowerHexDigit(h[i])
    ensures HexToInt(h) == Some(ClampInt(n, 0, MaxFlat))
  {
    var k := ClampInt(n, 0, MaxFlat);
    var t := DigitsText(k, 16);
    HexDigitsLength(k);
    PaddedRoundTrip(k);
    PaddedLowerHex(t);
    PadZeros(t)
  }

  /** Padding lower-case hex digits with zeros keeps them lower-case hex digits. */
  lemma PaddedLowerHex(t: string)
    requires forall i :: 0 <= i < |t| ==> IsLowerHexDigit(t[i])
    ensures forall i :: 0 <= i < |PadZeros(t)| ==> IsLowerHexDigit(PadZeros(t)[i])
  {
    var p := PadZeros(t);
    forall i | 0 <= i < |p| ensures IsLowerHexDigit(p[i]) {
      if i >= |p| - |t| {
        assert p[i] == p[|p| - |t|..][i - (|p| - |t|)];
      }
    }
  }

  // ---------------------------------------------------------------------------------------
  // Arithmetic facts about packing and splitting
  // ---------------------------------------------------------------------------------------

  /** A packed colour is the sum of its bytes at their places. */
  lemma SplitBytes(k: int)
    requires 0 <= k <= MaxFlat
    ensures 0 <= k / 0x10000 <= MaxByte
    ensures 0 <= (k / 0x100) % 0x100 <= MaxByte && 0 <= k % 0x100 <= MaxByte
    ensures (k / 0x10000) * 0x10000 + ((k / 0x100) % 0x100) * 0x100 + k % 0x100 == k
  {
    var h := k / 0x100;
    assert h * 0x100 + k % 0x100 == k;
    assert (h / 0x100) * 0x100 + h % 0x100 == h;
    assert h / 0x100 == k / 0x10000;
  }

  /** Three bytes packed at their places can be read back by division and remainder. */
  lemma PackBytes(r: int, g: int, b: int)
    requires IsByte(r) && IsByte(g) && IsByte(b)
    ensures 0 <= r * 0x10000 + g * 0x100 + b <= MaxFlat
    ensures (r * 0x10000 + g * 0x100 + b) / 0x10000 == r
    ensures ((r * 0x10000 + g * 0x100 + b) / 0x100) % 0x100 == g
    ensures (r * 0x10000 + g * 0x100 + b) % 0x100 == b
  {
    var n := r * 0x10000 + g * 0x100 + b;
    assert n == (r * 0x100 + g) * 0x100 + b;
    assert n / 0x100 == r * 0x100 + g;
    assert (r * 0x100 + g) / 0x100 == r;
    assert n / 0x10000 == (n / 0x100) / 0x100;
  }

  // ---------------------------------------------------------------------------------------
  // Facts about the hex text of a packed colour
  // ---------------------------------------------------------------------------------------

  /** A packed colour has at most six hex digits, and exactly three when it lies in
      [0x100, 0xFFF]. */
  lemma HexDigitsLength(k: nat)
    requires k <= MaxFlat
    ensures |DigitsText(k, 16)| <= 6
    ensures |DigitsText(k, 16)| == 3 <==> 0x100 <= k <= 0xFFF
  {
    var t := DigitsText(k, 16);
    DigitsTextLength(k, 16);
    assert Pow(16, 2) == 0x100 && Pow(16, 3) == 0x1000 && Pow(16, 6) == 0x1000000;
    if |t| > 6 {
      PowMonotonic(16, 6, |t| - 1);
    }
    if |t| < 3 {
      PowMonotonic(16, |t|, 2);
    }
    if |t| > 3 {
      PowMonotonic(16, 3, |t| - 1);
    }
  }

  /** Lower-case hex digits are left alone by the stripping of `parse.hex`. */
  lemma LowerHexUnstripped(t: string)
    requires forall i :: 0 <= i < |t| ==> IsLowerHexDigit(t[i])
    ensures Strip(t) == t
  {
    forall i | 0 <= i < |t| ensures !IsStripped(t[i]) {
      DigitIsNoSpace(t[i]);
    }
  }

  /** A digit string of length one to six, zero-padded to six digits, reads back as its value. */
  lemma PaddedRoundTrip(k: nat)
    requires k <= MaxFlat
    ensures HexToInt(PadZeros(DigitsText(k, 16))) == Some(k)
  {
    var t := DigitsText(k, 16);
    var p := PadZeros(t);
    HexDigitsLength(k);
    DigitsTextDigits(k, 16);
    DigitsTextValue(k, 16);
    assert forall i :: 0 <= i < |p| ==> IsDigitIn(p[i], 16) by {
      forall i | 0 <= i < |p| ensures IsDigitIn(p[i], 16) {
        if i >= |p| - |t| {
          assert p[i] == p[|p| - |t|..][i - (|p| - |t|)];
        }
      }
    }
    PaddedLowerHex(t);
    LowerHexUnstripped(p);
    assert Hex(p) == p;
    ParseIntOfDigits(p, Sixteen);
    PadZerosValue(t, 16);
  }

  /** A leading digit weighs its place value: the value of a digit string is at least its first
      digit times the radix raised to the number of digits after it. */
  lemma {:induction false} LeadingDigitBound(s: string, radix: nat)
    requires |s| >= 1
    ensures DigitsValue(s, radix) >= DigitValue(s[0]) * Pow(radix, |s| - 1)
  {
    if |s| > 1 {
      var init := s[..|s| - 1];
      assert init[0] == s[0];
      LeadingDigitBound(init, radix);
      ScaleStep(DigitsValue(s, radix), DigitsValue(init, radix), DigitValue(s[0]),
        Pow(radix, |s| - 2), radix, Pow(radix, |s| - 1));
    }
  }

  lemma ScaleStep(total: nat, v: nat, d: nat, p: nat, radix: nat, q: nat)
    requires total >= v * radix
    requires v >= d * p
    requires q == radix * p
    ensures total >= d * q
  {
    assert v * radix >= (d * p) * radix;
  }

  // ---------------------------------------------------------------------------------------
  // Round trips between the encodings
  // ---------------------------------------------------------------------------------------

  /** Splitting the packed integer of three bytes gives the bytes back:
      `int_rgb(rgb_int(r, g, b)) == {r, g, b}` for bytes. */
  lemma RgbIntRgb(r: int, g: int, b: int)
    requires IsByte(r) && IsByte(g) && IsByte(b)
    ensures IntToRgb(Finite(RgbToInt(IntValue(r), IntValue(g), IntValue(b)) as real)) == Rgb(r, g, b)
  {
    var n := RgbToInt(IntValue(r), IntValue(g), IntValue(b));
    RgbToIntBytes(IntValue(r), IntValue(g), IntValue(b));
    ByteOfInt(r);
    ByteOfInt(g);
    ByteOfInt(b);
    assert FlatInt(Finite(n as real)).Floor == n;
  }

  /** Packing the bytes of a packed integer gives it back: `rgb_int(int_rgb(n)) == n` for an
      integer n in [0, 0xFFFFFF]. */
  lemma IntRgbInt(n: int)
    requires 0 <= n <= MaxFlat
    ensures var c := IntToRgb(Finite(n as real)); RgbToInt(IntValue(c.r), IntValue(c.g), IntValue(c.b)) == n
  {
    var c := IntToRgb(Finite(n as real));
    assert FlatInt(Finite(n as real)).Floor == n;
    ByteOfInt(c.r);
    ByteOfInt(c.g);
    ByteOfInt(c.b);
    assert RgbToInt(IntValue(c.r), IntValue(c.g), IntValue(c.b)) == Pack(c.r, c.g, c.b);
  }

  /** Reading the hex text of a packed colour gives the colour back, except in [0x100, 0xFFF]. */
  lemma HexRoundTrip(n: int)
    requires 0 <= n <= MaxFlat
    requires !(0x100 <= n <= 0xFFF)
    ensures HexToInt(IntToHex(n)) == Some(n)
  {
    var t := DigitsText(n, 16);
    HexDigitsLength(n);
    LowerHexUnstripped(t);
    assert IntToHex(n) == PadZeros(t);
    PaddedRoundTrip(n);
  }

  /** The as-written `cnv.int_hex` breaks the round trip for every packed colour in
      [0x100, 0xFFF]: its three-digit text is taken for a shorthand and doubled. */
  lemma ShorthandBreaksRoundTrip(n: int)
    requires 0x100 <= n <= 0xFFF
    ensures HexToInt(IntToHex(n)) != Some(n)
  {
    var t := DigitsText(n, 16);
    ThreeHexDigits(n);
    ShorthandReading(n);
    ShorthandBound(t);
  }

  /** For a packed colour in [0x100, 0xFFF], `cnv.hex_int` reads the doubled digits. */
  lemma ShorthandReading(n: int)
    requires 0x100 <= n <= 0xFFF
    ensures HexToInt(IntToHex(n)) == Some(DigitsValue(Expand(DigitsText(n, 16)), 16))
  {
    var t := DigitsText(n, 16);
    ThreeHexDigits(n);
    ExpandedText(t);
    ParseIntOfDigits(Expand(t), Sixteen);
  }

  /** Doubled digits whose first digit is not 0 are worth at least 0x100000. */
  lemma ShorthandBound(t: string)
    requires |t| == 3 && DigitValue(t[0]) >= 1
    ensures DigitsValue(Expand(t), 16) >= 0x100000
  {
    LeadingDigitBound(Expand(t), 16);
    assert Pow(16, 5) == 0x100000;
  }

  /** The base-16 text of a packed colour in [0x100, 0xFFF] has three digits, the first not 0. */
  lemma ThreeHexDigits(n: int)
    requires 0x100 <= n <= 0xFFF
    ensures |DigitsText(n, 16)| == 3 && DigitValue(DigitsText(n, 16)[0]) >= 1
  {
    assert DigitsText(n, 16) == [DigitChar(n / 0x100), DigitChar((n / 0x10) % 0x10), DigitChar(n % 0x10)] by {
      assert n / 0x10 / 0x10 == n / 0x100;
      assert DigitsText(n / 0x10 / 0x10, 16) == [DigitChar(n / 0x100)];
      assert DigitsText(n / 0x10, 16) == [DigitChar(n / 0x100), DigitChar((n / 0x10) % 0x10)];
    }
  }

  /** `parse.hex` doubles the digits of a three-digit lower-case text and then leaves it alone. */
  lemma ExpandedText(t: string)
    requires |t| == 3
    requires forall i :: 0 <= i < |t| ==> IsLowerHexDigit(t[i])
    ensures Hex(t) == Expand(t) && Hex(Expand(t)) == Expand(t)
    ensures forall i :: 0 <= i < 6 ==> IsDigitIn(Expand(t)[i], 16)
    ensures Expand(t)[0] == t[0]
  {
    var e := Expand(t);
    LowerHexUnstripped(t);
    assert forall i :: 0 <= i < |e| ==> IsLowerHexDigit(e[i]);
    LowerHexUnstripped(e);
  }

  /** The counterexample (0, 1, 0): its packed colour 0x000100 is written "110000", which is
      read back as the colour (17, 0, 0). */
  lemma ShorthandExample(c: Rgb)
    requires c == Rgb(0, 1, 0)
    ensures RgbToHex(IntValue(c.r), IntValue(c.g), IntValue(c.b)) == "110000"
    ensures HexToRgb(RgbToHex(IntValue(c.r), IntValue(c.g), IntValue(c.b))) == Rgb(0x11, 0, 0)
  {
    var n := RgbToInt(IntValue(c.r), IntValue(c.g), IntValue(c.b));
    assert n == 0x100 by {
      ByteOfInt(0);
      ByteOfInt(1);
    }
    var h := RgbToHex(IntValue(c.r), IntValue(c.g), IntValue(c.b));
    assert h == IntToHex(n);
    HexOf100(n);
    ShorthandRead(n);
    HexReadAs(h);
    SplitOf110000();
  }

  lemma SplitOf110000()
    ensures IntToRgb(Finite(0x110000 as real)) == Rgb(0x11, 0, 0)
  {
  }

  /** `cnv.int_hex(0x100)` is "110000". */
  lemma HexOf100(n: int)
    requires n == 0x100
    ensures IntToHex(n) == "110000"
  {
    var t := DigitsText(ClampInt(n, 0, MaxFlat), 16);
    TextOf100(n);
    assert t == "100";
    LowerHexUnstripped(t);
    ExpandOf100();
    assert IntToHex(n) == PadZeros(Expand(t));
  }

  lemma ShorthandRead(n: int)
    requires n == 0x100
    ensures HexToInt(IntToHex(n)) == Some(0x110000)
  {
    ShorthandReading(n);
    TextOf100(n);
    ExpandOf100();
    ValueOf110000("110000");
  }

  lemma TextOf100(n: int)
    requires n == 0x100
    ensures DigitsText(n, 16) == "100"
  {
    assert DigitsText(1, 16) == "1";
    assert DigitsText(0x10, 16) == "10";
  }

  lemma ExpandOf100()
    ensures Expand("100") == "110000"
  {
  }

  lemma ValueOf110000(s: string)
    requires s == "110000"
    ensures DigitsValue(s, 16) == 0x110000
  {
    SixHexDigitsValue(s);
  }

  /** A byte survives the trip to a unit and back, numbers being exact. */
  lemma ByteUnitByte(v: Value)
    ensures UnitToByte(Finite(ByteToUnit(v))) == Byte(v)
  {
  }
}
