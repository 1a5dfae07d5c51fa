/** The library's parsers (`parse`) and its `clamp` helper: the normalisation of a hex text and
    the clamping readers of packed integers, channel bytes and alpha units. */
module Parse {
  import opened Results
  import opened JsText
  import opened JsValues

  /** `BYTE`: the largest channel value. */
  const MaxByte: int := 0xFF

  /** `BYTE3`: the largest packed 24-bit colour. */
  const MaxFlat: int := 0xFFFFFF

  /** Red, green and blue channels. */
  datatype Rgb = Rgb(r: int, g: int, b: int)

  /** Red, green and blue channels with an alpha unit. */
  datatype Rgba = Rgba(r: int, g: int, b: int, a: real)

  /** Channels that are all bytes. */
  predicate IsByte(n: int) {
    0 <= n <= MaxByte
  }

  predicate IsByteTriple(c: Rgb) {
    IsByte(c.r) && IsByte(c.g) && IsByte(c.b)
  }

  /** `clamp(val, min, max)` on (finite) numbers: lowered to `max` if above it, then raised to
      `min` if below it. */
  function ClampReal(v: real, lo: real, hi: real): (r: real)
    ensures lo <= hi ==> lo <= r <= hi
    ensures lo <= v <= hi ==> r == v
    ensures v < lo ==> r == lo
    ensures hi < v && lo <= hi ==> r == hi
  {
    var t := if v > hi then hi else v;
    if t < lo then lo else t
  }

  /** `clamp` on integers: every bound and value is an integer, so the result is one too. */
  function ClampInt(v: int, lo: int, hi: int): (r: int)
    ensures lo <= hi ==> lo <= r <= hi
    ensures lo <= v <= hi ==> r == v
    ensures v < lo ==> r == lo
    ensures hi < v && lo <= hi ==> r == hi
  {
    ClampReal(v as real, lo as real, hi as real).Floor
  }

  // ---------------------------------------------------------------------------------------
  // parse.hex
  // ---------------------------------------------------------------------------------------

  /** The characters of the class [\s#;] that `parse.hex` removes. */
  predicate IsStripped(c: char) {
    IsSpace(c) || c == '#' || c == ';'
  }

  /** The global replacement of the class [\s#;] by nothing in `parse.hex`: the text with every
      white-space, '#' and ';' character removed wherever it occurs, the others kept in order. */
  function Strip(s: string): (r: string)
    ensures |r| <= |s|
    ensures forall i :: 0 <= i < |r| ==> !IsStripped(r[i])
    ensures (forall i :: 0 <= i < |s| ==> !IsStripped(s[i])) ==> r == s
    ensures (forall i :: 0 <= i < |s| ==> IsStripped(s[i])) ==> r == ""
  {
    if |s| == 0 then ""
    else if IsStripped(s[0]) then Strip(s[1..])
    else [s[0]] + Strip(s[1..])
  }

  /** The 3-digit shorthand of `parse.hex`: "abc" becomes "aabbcc"; any other text is kept. */
  function Expand(x: string): (r: string)
    ensures |x| == 3 ==> |r| == 6
    ensures |x| != 3 ==> r == x
    ensures forall i :: 0 <= i < |r| ==> r[i] in x
  {
    if |x| == 3 then [x[0], x[0], x[1], x[1], x[2], x[2]] else x
  }

  /** The padding loop of `parse.hex`: '0' is prepended while the text is shorter than six. */
  function PadZeros(x: string): (r: string)
    ensures |r| == if |x| < 6 then 6 else |x|
    ensures r[|r| - |x|..] == x
    ensures forall i :: 0 <= i < |r| - |x| ==> r[i] == '0'
    decreases 6 - |x|
  {
    if |x| < 6 then
      var r := PadZeros("0" + x);
      assert r[|r| - |x| - 1..] == "0" + x;
      assert r[|r| - |x|..] == ("0" + x)[1..];
      r
    else x
  }

  /** `parse.hex(x)`: strip white space, '#' and ';', expand a 3-digit shorthand, and left-pad
      with zeros to six characters. Longer texts are neither cut nor rejected. */
  function Hex(s: string): (r: string)
    ensures |Strip(s)| <= 6 ==> |r| == 6
    ensures |r| >= 6
    ensures forall i :: 0 <= i < |r| ==> r[i] == '0' || r[i] in Strip(s)
  {
    PadZeros(Expand(Strip(s)))
  }

  // ---------------------------------------------------------------------------------------
  // parse.int, parse.unit, parse.byte, parse.rgb, parse.rgba
  // ---------------------------------------------------------------------------------------

  /** `parse.int(n)` for a number `n`: 0 when parseInt(n) is NaN, which for a number happens
      exactly when it is NaN or infinite; otherwise `n` itself, not its integer part, clamped
      to [0, 0xFFFFFF]. */
  function FlatInt(n: Number): (r: real)
    ensures 0.0 <= r <= MaxFlat as real
    ensures !n.Finite? ==> r == 0.0
    ensures n.Finite? && 0.0 <= n.value <= MaxFlat as real ==> r == n.value
    ensures n.Finite? && n.value < 0.0 ==> r == 0.0
    ensures n.Finite? && n.value > MaxFlat as real ==> r == MaxFlat as real
  {
    if ParseIntOf(Num(n)).None? then 0.0 else ClampReal(n.value, 0.0, MaxFlat as real)
  }

  /** `parse.unit(n)`: parseFloat(n) clamped to [0, 1]; 1 when that is NaN or infinite
      (so for undefined, null and texts that do not start with a number). */
  function Unit(v: Value): (r: real)
    ensures 0.0 <= r <= 1.0
    ensures !ParseFloatOf(v).Finite? ==> r == 1.0
    ensures v.Undefined? || v.Null? || v.Bool? || v.Obj? ==> r == 1.0
    ensures v.Num? && v.n.Finite? && 0.0 <= v.n.value <= 1.0 ==> r == v.n.value
    ensures v.Num? && v.n.Finite? && v.n.value < 0.0 ==> r == 0.0
    ensures v.Num? && v.n.Finite? && v.n.value > 1.0 ==> r == 1.0
  {
    var i := ParseFloatOf(v);
    if IsNull(Num(i)) then 1.0 else ClampReal(i.value, 0.0, 1.0)
  }

  /** `parse.byte(n)`: parseInt(n) clamped to [0, 255]; 0 when that is NaN (so for undefined,
      null, NaN, the infinities and texts that do not start with digits). */
  function Byte(v: Value): (r: int)
    ensures IsByte(r)
    ensures ParseIntOf(v).None? ==> r == 0
    ensures v.Undefined? || v.Null? || v.Bool? || v.Obj? ==> r == 0
    ensures v.Num? && !v.n.Finite? ==> r == 0
    ensures v.Num? && v.n.Finite? && 0.0 <= v.n.value < 256.0 ==> r == v.n.value.Floor
    ensures v.Num? && v.n.Finite? && v.n.value < 0.0 ==> r == 0
    ensures v.Num? && v.n.Finite? && v.n.value >= 256.0 ==> r == MaxByte
  {
    var i := ParseIntOf(v);
    if i.None? then 0 else ClampInt(i.value, 0, MaxByte)
  }

  /** `parse.rgb(r, g, b)`: each channel through `parse.byte`. */
  function ToRgb(r: Value, g: Value, b: Value): (c: Rgb)
    ensures IsByteTriple(c)
  {
    Rgb(Byte(r), Byte(g), Byte(b))
  }

  /** `parse.rgba(r, g, b, a)`: the channels through `parse.byte`, alpha through `parse.unit`. */
  function ToRgba(r: Value, g: Value, b: Value, a: Value): (c: Rgba)
    ensures IsByte(c.r) && IsByte(c.g) && IsByte(c.b) && 0.0 <= c.a <= 1.0
    ensures c.a == Unit(a)
  {
    Rgba(Byte(r), Byte(g), Byte(b), Unit(a))
  }

  // ---------------------------------------------------------------------------------------
  // Properties of the parsers
  // ---------------------------------------------------------------------------------------

  /** A byte is read back unchanged, so `parse.byte` is idempotent. */
  lemma ByteIdempotent(v: Value)
    ensures Byte(IntValue(Byte(v))) == Byte(v)
  {
  }

  /** `parse.byte` of an integer clamps it. */
  lemma ByteOfInt(n: int)
    ensures Byte(IntValue(n)) == ClampInt(n, 0, MaxByte)
  {
    assert ParseIntOf(IntValue(n)) == Some(n);
  }

  /** A unit is read back unchanged, so `parse.unit` is idempotent. */
  lemma UnitIdempotent(v: Value)
    ensures Unit(Num(Finite(Unit(v)))) == Unit(v)
  {
  }

  /** Removing characters commutes with concatenation. */
  lemma {:induction false} StripConcat(a: string, b: string)
    ensures Strip(a + b) == Strip(a) + Strip(b)
    decreases |a|
  {
    if |a| == 0 {
      assert a + b == b;
    } else {
      assert (a + b)[1..] == a[1..] + b;
      StripConcat(a[1..], b);
    }
  }

  /** Every character of `parse.hex`'s output survives a second stripping. */
  lemma HexUnstripped(s: string)
    ensures forall i :: 0 <= i < |Hex(s)| ==> !IsStripped(Hex(s)[i])
  {
    var t := Strip(s);
    forall i | 0 <= i < |Hex(s)| ensures !IsStripped(Hex(s)[i]) {
      if Hex(s)[i] != '0' {
        var j :| 0 <= j < |t| && t[j] == Hex(s)[i];
      }
    }
  }

  /** `parse.hex` is idempotent: its output has no character to strip, is no 3-digit
      shorthand and needs no padding. */
  lemma HexIdempotent(s: string)
    ensures Hex(Hex(s)) == Hex(s)
  {
    HexUnstripped(s);
    assert Strip(Hex(s)) == Hex(s);
  }

  /** Zeros prepended to a digit string do not change its value. */
  lemma {:induction false} PadZerosValue(x: string, radix: nat)
    ensures DigitsValue(PadZeros(x), radix) == DigitsValue(x, radix)
    decreases 6 - |x|
  {
    if |x| < 6 {
      PadZerosValue("0" + x, radix);
      LeadingZero(x, radix);
    }
  }
}
