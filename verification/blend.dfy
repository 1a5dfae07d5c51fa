/** The blend modes (`blend`): each channel is turned into a unit by `cnv.byte_unit`, the two
    units are combined, and the result is scaled back by `cnv.unit_byte` and handed to the
    positional constructor. Arithmetic is exact here; IEEE double rounding is not modelled. */
module Blend {
  import opened JsText
  import opened JsValues
  import opened Parse
  import opened Convert
  import opened Colors

  /** The eight blend modes of the library. */
  datatype Mode = Multiply | Screen | Overlay | HardLight | Divide | Addition | Subtract | Difference

  /** JavaScript's `a / b`: a division by 0 gives an infinity, or NaN for 0 / 0. */
  function Quotient(a: real, b: real): (n: Number)
    ensures b != 0.0 ==> n == Finite(a / b)
    ensures b == 0.0 ==> !n.Finite?
  {
    if b != 0.0 then Finite(a / b)
    else if a > 0.0 then PosInf
    else if a < 0.0 then NegInf
    else NaN
  }

  /** The operator of each mode on two units. */
  function Op(m: Mode, a: real, b: real): Number {
    match m
    case Multiply => Finite(a * b)
    case Screen => Finite(1.0 - (1.0 - a) * (1.0 - b))
    case Overlay => Finite(if a < 0.5 then 2.0 * a * b else 1.0 - 2.0 * (1.0 - a) * (1.0 - b))
    case HardLight => Finite(if b < 0.5 then 2.0 * b * a else 1.0 - 2.0 * (1.0 - b) * (1.0 - a))
    case Divide => Quotient(a, b)
    case Addition => Finite(a + b)
    case Subtract => Finite(a - b)
    case Difference => Finite(if a > b then a - b else b - a)
  }

  /** One channel of a blend: `cnv.unit_byte(op(cnv.byte_unit(p), cnv.byte_unit(q)))`. */
  function Channel(m: Mode, p: int, q: int): (b: int)
    ensures IsByte(b)
  {
    UnitToByte(Op(m, ByteToUnit(IntValue(p)), ByteToUnit(IntValue(q))))
  }

  /** `makeBlender(op)(x, y)`: the blended channels through the three-argument constructor,
      so they are read again by `parse.byte` and alpha is 1. */
  function Mix(m: Mode, x: Color, y: Color): (c: Color)
    ensures Valid(c) && c.a == 1.0
    ensures c == Color(Channel(m, x.r, y.r), Channel(m, x.g, y.g), Channel(m, x.b, y.b), 1.0)
  {
    var r, g, b := Channel(m, x.r, y.r), Channel(m, x.g, y.g), Channel(m, x.b, y.b);
    ByteOfInt(r);
    ByteOfInt(g);
    ByteOfInt(b);
    FromPositional(IntValue(r), IntValue(g), IntValue(b), Undefined)
  }

  // ---------------------------------------------------------------------------------------
  // Properties of one channel
  // ---------------------------------------------------------------------------------------

  /** The unit of a byte, scaled back, is the byte. */
  lemma UnitOfByte(p: int)
    requires IsByte(p)
    ensures ByteToUnit(IntValue(p)) == p as real / 255.0
    ensures UnitToByte(Finite(p as real / 255.0)) == p
  {
    ByteOfInt(p);
  }

  /** The modes whose operator is symmetric in its two units. */
  predicate Symmetric(m: Mode) {
    m == Multiply || m == Screen || m == Addition || m == Difference
  }

  /** A symmetric mode gives the same channel whichever colour comes first. */
  lemma ChannelCommutes(m: Mode, p: int, q: int)
    requires Symmetric(m)
    ensures Channel(m, p, q) == Channel(m, q, p)
  {
    var a, b := ByteToUnit(IntValue(p)), ByteToUnit(IntValue(q));
    assert Op(m, a, b) == Op(m, b, a);
    SameOp(m, p, q, m, q, p);
  }

  /** Hard light is overlay with the two colours swapped. */
  lemma HardLightChannel(p: int, q: int)
    ensures Channel(HardLight, p, q) == Channel(Overlay, q, p)
  {
    var a, b := ByteToUnit(IntValue(p)), ByteToUnit(IntValue(q));
    assert Op(HardLight, a, b) == Op(Overlay, b, a);
    SameOp(HardLight, p, q, Overlay, q, p);
  }

  /** Two blends whose operators agree on the units give the same channel. */
  lemma SameOp(m: Mode, p: int, q: int, n: Mode, s: int, t: int)
    requires Op(m, ByteToUnit(IntValue(p)), ByteToUnit(IntValue(q))) == Op(n, ByteToUnit(IntValue(s)), ByteToUnit(IntValue(t)))
    ensures Channel(m, p, q) == Channel(n, s, t)
  {
  }

  /** Multiplying by the unit of 255, which is 1, keeps a byte. */
  lemma MultiplyByFull(p: int, q: int)
    requires IsByte(p) && q == MaxByte
    ensures Channel(Multiply, p, q) == p
  {
    UnitOfByte(p);
    UnitOfByte(q);
  }

  /** Dividing by the unit of 0 gives an infinity or NaN, which `parse.byte` reads as 0. */
  lemma DivideByZero(p: int, q: int)
    requires q == 0
    ensures Channel(Divide, p, q) == 0
  {
    UnitOfByte(q);
  }

  /** Subtracting a channel at least as large leaves nothing to scale back: 0. */
  lemma SubtractLarger(p: int, q: int)
    requires IsByte(p) && IsByte(q) && p <= q
    ensures Channel(Subtract, p, q) == 0
  {
    var a, b := ByteToUnit(IntValue(p)), ByteToUnit(IntValue(q));
    UnitDifference(p, q);
    assert Op(Subtract, a, b) == Finite(a - b);
    ScaledInteger(a - b, p - q);
  }

  /** The difference of two units of bytes, scaled back, is the difference of the bytes. */
  lemma UnitDifference(p: int, q: int)
    requires IsByte(p) && IsByte(q)
    ensures (ByteToUnit(IntValue(p)) - ByteToUnit(IntValue(q))) * 255.0 == (p - q) as real
  {
    ByteOfInt(p);
    ByteOfInt(q);
  }

  /** A number that 255 scales to an integer is scaled back to that integer, clamped. */
  lemma ScaledInteger(x: real, k: int)
    requires x * 255.0 == k as real
    ensures UnitToByte(Finite(x)) == ClampInt(k, 0, MaxByte)
  {
    assert Times(Finite(x), 255.0) == Finite(k as real);
    ByteOfInt(k);
  }

  /** The difference of a channel with itself is 0. */
  lemma DifferenceOfSame(p: int)
    ensures Channel(Difference, p, p) == 0
  {
    var a := ByteToUnit(IntValue(p));
    assert Op(Difference, a, a) == Finite(0.0);
  }

  /** Adding the unit of 255 saturates at 255. */
  lemma AdditionOfFull(p: int, q: int)
    requires q == MaxByte
    ensures Channel(Addition, p, q) == MaxByte
  {
    UnitOfByte(q);
    var v := (ByteToUnit(IntValue(p)) + 1.0) * 255.0;
    assert v >= 255.0;
  }
}
