# A Dafny model of the `Color` type of color.js

color.js defines a JavaScript colour value. A colour holds three byte channels `_r`, `_g`, `_b`
and an alpha unit `_a`. The constructor accepts five shapes of argument list, tried in order:
- nothing;
- a hex text such as `"#07f"`;
- a packed 24-bit integer;
- an HSL object or an RGB(A) object;
- three or four positional values.

Small tables of validators (`vld`), clamping parsers (`parse`) and conversions (`cnv`) sit
between the arguments and the fields. The accessors are `hex`, `int`, `rgb`, `rgba`, `toString`,
`valueOf` and the `r/g/b/a` getter-setters. Further colours come from bitwise operations
(`not/and/or/xor`), channel arithmetic (`add/sub/avg`), the blend modes, `clone` and the static
`Color.rgb/Color.rgba`. There are also named constants such as `Color.WHITE`.

The model is functional. A colour is an immutable record. The constructor's argument list is a
sequence of JavaScript values, and its result is a `Result` of the colour or the exception it
throws. Every helper is a pure function over `int`, `real` and `seq<char>`.

| file | module | what it holds |
|---|---|---|
| `results.dfy` | `Results` | `Option` and `Result` |
| `jstext.dfy` | `JsText` | JavaScript numbers (finite, NaN, the infinities); the `\s` class; digit reading and writing; `parseInt`/`parseFloat`/`Number` on texts |
| `jsvalues.dfy` | `JsValues` | JavaScript values; truthiness and `x || y`; the library's `isNull`; `parseInt`/`parseFloat` of a value |
| `validate.dfy` | `Validate` | `vld.hex` as a scan of the pattern `^\s*#?[a-fA-F0-9]{1,6}\s*;?$`, proved equivalent to the pattern's pieces; `vld.int` |
| `parse.dfy` | `Parse` | `clamp`, `parse.hex/int/unit/byte/rgb/rgba` |
| `convert.dfy` | `Convert` | `cnv.hex_int/hex_rgb/int_hex/int_rgb/rgb_hex/rgb_int/byte_unit/unit_byte`; the packed-integer round trips; the 3-digit shorthand defect and its correction |
| `bits.dfy` | `Bits` | `&`, `\|`, `^` on the low `w` bits, and their field-by-field behaviour |
| `colors.dfy` | `Colors` | the `Color` record, the constructor, accessors, setters, text forms, derived colours, statics and constants |
| `blend.dfy` | `Blend` | `makeBlender` and the eight blend modes |
| `properties.dfy` | `ColorProperties` | properties relating several operations, and the values the library's test page expects |

## Model

| member | source | states |
|---|---|---|
| JsValues.Trunc | color.js:315-319 | the integer `parseInt` reads from a number's text is its truncation toward zero: at most the number and within 1 of it for non-negative numbers, and the mirror image for negative ones |
| JsValues.IsNullCases | color.js:497-499 | `isNull` holds for a number exactly when it is NaN or infinite, and always for undefined, null and objects; booleans are never null |
| JsValues.ParseIntOfInteger | color.js:315-319 | `parseInt` of an integer-valued number gives that integer back |
| JsText.DigitsTextValue | color.js:334-337 | the base-16 (or any base 2..16) text of `n.toString(radix)` is read back as `n` |
| JsText.DigitsTextLength | color.js:334-337 | the digit text of `n` has the fewest digits that can hold `n`: `n < radix^len`, with a non-zero leading digit when it has more than one |
| JsText.DecimalTextRoundTrip | color.js:315-319 | `parseInt` of the decimal text of any integer, negative ones included, is that integer |
| JsText.ParseIntOfDigits | color.js:324-327 | `parseInt(hex, 16)` of a non-empty string of hex digits is the string's base-16 value |
| JsText.DecimalTextNoComma | color.js:171 | the decimal text of an integer holds no comma |
| JsText.DecimalFieldsRead | color.js:171 | splitting "x,y,z,a" at its commas gives four fields, and `parseInt` reads the first three back as x, y and z when a holds no comma |
| JsText.SpanUnique | color.js:236-238 | the length of a maximal run of one character class is unique: any prefix length whose characters are in the class and whose next character is not is the span |
| Validate.ScanRuns | color.js:236-238 | the scan of a text splits it into a run of white space, an optional '#', a maximal run of hex digits, then a maximal run of white space |
| Validate.ScanUnique | color.js:236-238 | any split with those four runs is the one the scan finds |
| Validate.HexPatternSound | color.js:236-238 | a text the pattern accepts is made of well-formed pieces: white space, optional '#', one to six hex digits, white space, optional ';' |
| Validate.HexPatternComplete | color.js:236-238 | every text made of well-formed pieces is accepted, and the scan recovers exactly those pieces |
| Parse.ClampInt | color.js:491-495 | `clamp` on integers: the result is in range when the range is non-empty, is the value when the value is in range, and is the nearer bound otherwise |
| Parse.ClampReal | color.js:491-495 | `clamp` on numbers, with the same three cases |
| Parse.Strip | color.js:271 | the global removal of `[\s#;]` leaves no such character, never lengthens the text, keeps a text with none, and empties a text made of them |
| Parse.Expand | color.js:273-278 | a 3-character text becomes 6 characters, each taken from the original; any other text is kept |
| Parse.PadZeros | color.js:280-282 | the result is at least 6 long, ends with the original text, and has only '0' before it |
| Parse.PadZerosValue | color.js:280-282 | the padding zeros do not change the text's value in any radix |
| Parse.Hex | color.js:269-284 | `parse.hex` gives at least 6 characters, exactly 6 when at most 6 survive stripping, each a '0' or a surviving character |
| Parse.HexIdempotent | color.js:269-284 | `parse.hex` of its own output changes nothing |
| Parse.StripConcat | color.js:271 | stripping a concatenation strips each part |
| Parse.FlatInt | color.js:286-290 | `parse.int` of a number is in [0, 0xFFFFFF]: 0 for NaN and the infinities, the number itself in range (fraction kept), and the nearer bound outside it |
| Parse.Unit | color.js:309-313 | `parse.unit` is in [0, 1]: 1 when parseFloat gives NaN or an infinity (so for undefined, null, booleans and objects), the number in range, and the nearer bound outside it |
| Parse.UnitIdempotent | color.js:309-313 | `parse.unit` of its own result changes nothing |
| Parse.Byte | color.js:315-319 | `parse.byte` is a byte: 0 for NaN (undefined, null, booleans, objects, NaN and the infinities), the integer part in [0, 256), 0 below 0, and 255 from 256 up |
| Parse.ByteIdempotent | color.js:315-319 | `parse.byte` of its own result changes nothing |
| Parse.ByteOfInt | color.js:315-319 | `parse.byte` of an integer clamps it to [0, 255] |
| Parse.ToRgb | color.js:292-298 | `parse.rgb` gives three bytes |
| Parse.ToRgba | color.js:300-307 | `parse.rgba` gives three bytes and the alpha `parse.unit` reads |
| Convert.IntToRgb | color.js:339-346 | `cnv.int_rgb` gives three bytes whose packing is the integer part of `parse.int` of the argument |
| Convert.HexToRgb | color.js:329-332 | `cnv.hex_rgb` gives three bytes |
| Convert.HexReadAs | color.js:329-332 | `cnv.hex_rgb` gives the bytes of the integer `cnv.hex_int` reads, and black when that is NaN, since `parse.int` takes NaN as 0 |
| Convert.RgbToInt | color.js:353-357 | `cnv.rgb_int` is in [0, 0xFFFFFF] whatever its arguments, because each channel is re-read by `parse.byte` |
| Convert.RgbToIntBytes | color.js:353-357 | the three bytes of `cnv.rgb_int(r, g, b)` are `parse.byte` of r, g and b |
| Convert.Unpack | color.js:339-357 | shifting and masking a packing of three bytes recovers each byte |
| Convert.SplitBytes | color.js:339-346 | the three masked fields of a packed colour are bytes and pack back to it |
| Convert.RgbIntRgb | color.js:339-357 | `cnv.int_rgb(cnv.rgb_int(r, g, b))` is `(r, g, b)` for bytes |
| Convert.IntRgbInt | color.js:339-357 | `cnv.rgb_int` of the bytes of `cnv.int_rgb(n)` is `n` for `n` in [0, 0xFFFFFF] |
| Convert.IntToHex | color.js:334-337 | `cnv.int_hex` always gives 6 lower-case hex digits |
| Convert.RgbToHex | color.js:348-351 | `cnv.rgb_hex` always gives 6 lower-case hex digits |
| Convert.HexDigitsLength | color.js:334-337 | a packed colour has at most 6 base-16 digits, and exactly 3 when it is in [0x100, 0xFFF] |
| Convert.HexRoundTrip | color.js:324-337 | `cnv.hex_int(cnv.int_hex(n)) == n` for `n` in [0, 0xFFFFFF] outside [0x100, 0xFFF] |
| Convert.ShorthandBreaksRoundTrip | color.js:273-278 | for every `n` in [0x100, 0xFFF], `cnv.hex_int(cnv.int_hex(n)) != n` |
| Convert.ShorthandReading | color.js:334-337 | for those `n`, `cnv.hex_int(cnv.int_hex(n))` is the value of the doubled digits of `n` |
| Convert.ShorthandExample | color.js:348-351 | `cnv.rgb_hex(0, 1, 0)` is "110000", which reads back as the colour (0x11, 0, 0) |
| Convert.IntToHexPadded | color.js:334-337 | the corrected `int_hex` gives 6 lower-case hex digits that `cnv.hex_int` reads back as the clamped integer, for every integer |
| Convert.PaddedRoundTrip | color.js:334-337 | zero-padding the base-16 text, without the shorthand expansion, reads back as the integer |
| Convert.ByteToUnit | color.js:359-361 | `cnv.byte_unit` is a unit in [0, 1] that 255 scales back to `parse.byte` of the argument |
| Convert.UnitToByte | color.js:363-365 | `cnv.unit_byte` is a byte: the integer part of 255 times a unit, and 0 for NaN or an infinity |
| Convert.ByteUnitByte | color.js:359-365 | `cnv.unit_byte(cnv.byte_unit(v))` is `parse.byte(v)` |
| Bits.Bitwise | color.js:212-222 | the bitwise operators on the low `w` bits give a number below 2^w |
| Bits.AndAllOnes | color.js:212-214 | an `&` with the all-ones mask keeps a number below 2^w |
| Bits.OrZero | color.js:216-218 | an `\|` with 0 keeps a number below 2^w |
| Bits.XorSelfZero | color.js:220-222 | a number `^` itself is 0 |
| Bits.XorAllOnes | color.js:220-222 | a `^` with the all-ones mask is the complement 2^w - 1 - n |
| Bits.BitwiseConcat | color.js:212-222 | the operator on numbers split into high and low parts acts on each part separately |
| Bits.BitwiseFields | color.js:212-222 | on three packed fields the operator acts on each field |
| Colors.Classify | color.js:36-103 | which branch the constructor takes: positional exactly for 3 or 4 arguments; the null object exactly for a single null; unrecognised exactly for 2 or at least 5 arguments, or for one argument that is not a valid hex text, an in-range number, an object or null; hex and packed-number branches only for valid arguments |
| Colors.FromRgbaObject | color.js:81-88 | the RGB(A) object branch gives valid fields; each channel is read from `_x` when that is truthy and from `x` otherwise; alpha is read from `_a` when that is not null and from `a` otherwise |
| Colors.FromPositional | color.js:92-99 | the positional branch gives valid fields: each channel is `parse.byte` of its argument and alpha is `parse.unit` of the fourth argument |
| Colors.Construct | color.js:26-103 | every construction outside the HSL branch gives bytes and a unit; it throws `InvalidArgumentsException` exactly for the unrecognised argument lists, and a TypeError exactly for a single null; no argument gives (0, 0, 0, 1); three arguments give alpha 1 |
| Colors.FromRgb | color.js:48-67 | the hex and packed-number branches keep alpha at its initial 1 and give valid fields from bytes |
| Colors.Int | color.js:110-112 | `int()` is in [0, 0xFFFFFF], even after a setter stored an out-of-range channel |
| Colors.IntIsPack | color.js:110-112 | `int()` packs the channels clamped to bytes |
| Colors.ValueOf | color.js:178-180 | `valueOf()` equals `int()` |
| Colors.Hex | color.js:106-108 | `hex()` is always 6 lower-case hex digits |
| Colors.RgbList | color.js:142 | `rgb()` is the three stored channel fields, whatever they hold; for a valid colour they are the bytes `cnv.int_rgb` reads back from `int()` |
| Colors.IntOfChannels | color.js:110-112 | the channels of a valid colour are recovered from `int()` by `cnv.int_rgb` |
| Colors.RgbaList | color.js:143 | `rgba()` as written is `[r, g, b, r]`: the red field is repeated where alpha belongs |
| Colors.RgbaListCorrected | color.js:143 | the intended `rgba()` is `[r, g, b, a]`, agreeing with `rgba()` on the three channels |
| Colors.SetChannel | color.js:114-131 | `r/g/b(v)` with a null argument gets the field unchanged; otherwise it stores exactly `v`, unclamped, and leaves alpha and the other channels alone |
| Colors.SetAlpha | color.js:132-137 | `a(v)` with a null argument gets alpha; otherwise it stores exactly `v` and leaves the channels alone |
| Colors.Format | color.js:169-176 | `util.tostr` starts with '#' exactly when alpha is at least 1 and the format is not "rgba", and is then "#" followed by `hex()`; otherwise it is "rgba(" followed by the three channels in decimal and the alpha text, comma-separated, and ")" |
| Colors.ToString | color.js:140 | `toString()` is "#" followed by `hex()` exactly when alpha is at least 1; below 1 it is "rgba(r,g,b,a)" with the channels in decimal |
| Colors.FromFlat | color.js:59-67 | `new Color(n)` for `n` in range is valid and opaque, and its `int()` is `n` |
| Colors.Add | color.js:182-189 | `add` sums each channel and clamps it to [0, 255]; it sums alphas and clamps to [0, 1] |
| Colors.Sub | color.js:200-206 | `sub` subtracts each channel and clamps it to [0, 255]; alpha is reset to 1 |
| Colors.Avg | color.js:191-198 | `avg` is valid and opaque; for any colours each channel is the mean truncated toward zero and clamped to [0, 255], which for valid colours is the floor of the mean |
| Colors.AvgMeans | color.js:191-196 | `parse.rgb` of the halved channel sums of two valid colours gives the floored means |
| Colors.RgbObject | color.js:197 | the object `{r, g, b}` of bytes is read by the constructor as those bytes, alpha 1 |
| Colors.MeanByte | color.js:192-196 | `parse.byte` of the mean of two bytes is its floor |
| Colors.Not | color.js:208-210 | `not` is valid and opaque, and its `int()` is 0xFFFFFF minus the original's |
| Colors.And | color.js:212-214 | `and` is valid and opaque, and its `int()` is the `&` of the two `int()`s |
| Colors.Or | color.js:216-218 | `or` is valid and opaque, and its `int()` is the `\|` of the two `int()`s |
| Colors.Xor | color.js:220-222 | `xor` is valid and opaque, and its `int()` is the `^` of the two `int()`s |
| Colors.BitAnd | color.js:212-214 | `&` of two packed colours is a packed colour |
| Colors.BitOr | color.js:216-218 | `\|` of two packed colours is a packed colour |
| Colors.BitXor | color.js:220-222 | `^` of two packed colours is a packed colour |
| Colors.Random | color.js:224-226 | for a draw in [0, 1), `random` is valid and opaque, and its `int()` is below 0xFFFFFF |
| Colors.Clone | color.js:228-230 | `clone` clamps the fields to bytes and a unit, so it is the colour itself when that is valid |
| Colors.StaticRgb | color.js:513-519 | `Color.rgb` reads each channel with `parse.byte`, alpha 1 |
| Colors.StaticRgba | color.js:520-527 | `Color.rgba` as written reads each channel with `parse.byte`, and has alpha 0 or 1: 0 exactly when `parse.byte` of the alpha is 0 |
| Colors.StaticRgbaCorrected | color.js:520-527 | the intended `Color.rgba` keeps the alpha `parse.unit` reads |
| Colors.HexCorrected | color.js:106-108 | the intended `hex()` is 6 lower-case hex digits that `cnv.hex_int` reads back as `int()` |
| Blend.Quotient | color.js:472-474 | JavaScript division: finite when the divisor is non-zero, an infinity or NaN when it is 0 |
| Blend.Channel | color.js:433-447 | a blended channel is a byte |
| Blend.Mix | color.js:433-447 | a blend is valid and opaque, each channel being the blended channel |
| Blend.UnitOfByte | color.js:359-365 | the unit of a byte is the byte over 255, and `unit_byte` scales it back to the byte |
| Blend.ChannelCommutes | color.js:450-486 | multiply, screen, addition and difference do not depend on the order of their operands |
| Blend.HardLightChannel | color.js:458-470 | hard light is overlay with the operands swapped |
| Blend.MultiplyByFull | color.js:450-452 | multiplying by the channel 255 keeps a byte |
| Blend.DivideByZero | color.js:472-474 | dividing by the channel 0 gives 0, because `parse.byte` reads an infinity or NaN as 0 |
| Blend.SubtractLarger | color.js:480-482 | subtracting a channel at least as large gives 0 |
| Blend.DifferenceOfSame | color.js:484-486 | the difference of a channel with itself is 0 |
| Blend.AdditionOfFull | color.js:476-478 | adding the channel 255 gives 255 |
| ColorProperties.StripOfLiteral | color.js:269-271 | stripping a text the hex pattern accepts leaves exactly its digits |
| ColorProperties.ConstructHexText | color.js:44-56 | a single valid hex text builds the colour `cnv.hex_rgb` reads from it |
| ColorProperties.ConstructHexLiteral | color.js:44-56 | a hex text builds the colour of its digits alone |
| ColorProperties.HexDecorationIrrelevant | color.js:269-271 | two hex texts with the same digits build the same colour, whatever their white space, '#' and ';' |
| ColorProperties.ShorthandIsDoubled | color.js:273-278 | a 3-digit hex text builds the same colour as its doubled 6-digit form |
| ColorProperties.ToStringRoundTrip | color.js:169-176 | an opaque valid colour is rebuilt from its `toString()` when `int()` is outside [0x100, 0xFFF] |
| ColorProperties.HexReadsBack | color.js:106-108 | `cnv.hex_int(hex())` is `int()` when `int()` is outside [0x100, 0xFFF] |
| ColorProperties.RgbaTextFields | color.js:169-176 | the "rgba(...)" form of `toString()` hands the channels back: between "rgba(" and ")", split at its commas, `parseInt` reads the first three fields as r, g and b, and the fourth is the alpha text |
| ColorProperties.ToStringShorthandExample | color.js:169-176 | the colour (0, 1, 0) prints as "#110000" and is rebuilt from it as (0x11, 0, 0) |
| ColorProperties.HexInputs | colortest.js:42-45 | "#0077ff", "0077ff", "#07f" and "07f" each build (0, 119, 255, 1) |
| ColorProperties.NumberInputs | colortest.js:48-55 | 0x0077ff, 30719 and the positional (0, 119, 255) build (0, 119, 255, 1) |
| ColorProperties.ConstructorExamples | colortest.js:50-52 | 255 builds (0, 0, 255, 1); 0 and no argument build (0, 0, 0, 1) |
| ColorProperties.PositionalExamples | colortest.js:56-60 | (0, 119, 255, 0.3), (5, 5, 5, 0) and (5, 5, 5, null) build alphas 0.3, 0 and 1 |
| ColorProperties.ObjectExamples | colortest.js:57-58 | the objects {r:0, g:119, b:255} and {..., a:0.3} build alphas 1 and 0.3 |
| ColorProperties.ConstructPositional | color.js:92-99 | three or four arguments build the positional colour of those arguments, alpha undefined when there are three |
| ColorProperties.PositionalClamps | color.js:92-99 | `new Color(r, g, b, a)` with integer channels clamps each channel to [0, 255] and alpha to [0, 1] |
| ColorProperties.ConstructFlat | color.js:59-67 | a single number in [0, 0xFFFFFF] builds `new Color(n)` for its integer part, the colour the FromFlat rows describe |
| ColorProperties.ConstructObject | color.js:81-88 | a single object without non-null h, s and l takes the RGB(A) object branch |
| ColorProperties.RejectedExamples | colortest.js:63-64 | 0xffcc9977 and five arguments throw `InvalidArgumentsException` |
| ColorProperties.FromFlatOfInt | color.js:59-67 | `new Color(x.int())` is x made opaque, for a valid x |
| ColorProperties.NotNot | color.js:208-210 | `not(not(x))` is x made opaque, for a valid x |
| ColorProperties.XorSelf | color.js:220-222 | `xor(x, x)` is BLACK |
| ColorProperties.AndWhite | color.js:212-214 | `and(x, WHITE)` is x made opaque, for a valid x |
| ColorProperties.OrBlack | color.js:216-218 | `or(x, BLACK)` is x made opaque, for a valid x |
| ColorProperties.NotIsXorWhite | color.js:208-222 | `not(x)` is `xor(x, WHITE)` |
| ColorProperties.AndChannels | color.js:212-214 | `and` of valid colours is the `&` of each channel |
| ColorProperties.OrChannels | color.js:216-218 | `or` of valid colours is the `\|` of each channel |
| ColorProperties.XorChannels | color.js:220-222 | `xor` of valid colours is the `^` of each channel |
| ColorProperties.FromFlatChannels | color.js:339-346 | `new Color(n)` has the bytes `n >> 16`, `(n >> 8) & 0xff` and `n & 0xff` |
| ColorProperties.TestColourValues | colortest.js:66-80 | c0 = 0x0077ff has `hex()` "0077ff" and `toString()` "#0077ff"; with alpha 0.4 it keeps `int()` and `hex()` and prints "rgba(0,119,255,0.4)"; c1 = (255, 200, 64, 0.7) has `hex()` "ffc840", `toString()` "rgba(255,200,64,0.7)" and `valueOf()` 0xffc840, when the alphas are written "0.4" and "0.7" |
| ColorProperties.IntToHexOf0077ff | colortest.js:69 | `cnv.int_hex(0x0077ff)` is "0077ff" |
| ColorProperties.IntToHexOfFfc840 | colortest.js:78 | `cnv.int_hex(0xffc840)` is "ffc840" |
| ColorProperties.ArithmeticExamples | colortest.js:83-85 | the test page's `not`, `add` and `sub` results |
| ColorProperties.BitwiseExamples | colortest.js:86-88 | the test page's `and`, `or` and `xor` results |
| ColorProperties.SetterExamples | colortest.js:90-102 | the test page's setter sequence and the values the getters return after it |
| ColorProperties.GetAfterSet | color.js:114-131 | a getter after its setter returns the stored value |
| ColorProperties.MultiplyWhite | color.js:450-452 | `multiply(x, WHITE)` is x made opaque, for a valid x |
| ColorProperties.DivideBlack | color.js:472-474 | `divide(x, BLACK)` is BLACK |
| ColorProperties.SubtractWhite | color.js:480-482 | `subtract(x, WHITE)` is BLACK, for every x, out-of-range channels included |
| ColorProperties.SubtractFull | color.js:480-482 | one `subtract` channel against 255 is 0, whatever the stored value of the other channel |
| ColorProperties.DifferenceSelf | color.js:484-486 | `difference(x, x)` is BLACK |
| ColorProperties.AdditionWhite | color.js:476-478 | `addition(x, WHITE)` is WHITE |
| ColorProperties.MixCommutes | color.js:450-486 | multiply, screen, addition and difference blends commute |
| ColorProperties.HardLightIsSwappedOverlay | color.js:458-470 | `hardLight(x, y)` is `overlay(y, x)` |
| ColorProperties.RgbaListExample | color.js:143 | for (0, 119, 255, 0.3), `rgba()` as written ends with 0 instead of 0.3 |
| ColorProperties.StaticRgbaExample | color.js:520-527 | `Color.rgba(0, 119, 255, 0.5)` as written is fully transparent; the intended version has alpha 0.5 |
| ColorProperties.NamedColours | color.js:529-537 | the fields of WHITE, BLACK, RED, GREEN, BLUE, YELLOW, CYAN, MAGENTA and TRANSPARENT |

## Left out

- HSL: `cnv.rgb_hsl` and `cnv.hsl_rgb` (color.js:367-427) are floating-point maths and are not part of this model. The HSL object branch of the constructor calls a parameter `hsl` in their place, so properties of that branch state nothing about its channels. `c.hsl()` (color.js:144) is left out for the same reason, and the empty `getHSL` stub (color.js:543-545) has nothing to model.
- IEEE doubles: numbers are exact rationals. Rounding, and overflow to Infinity, are not modelled. Blend results that differ from exact arithmetic only by rounding are outside the model.
- Blend.MultiplyByFull, ColorProperties.MultiplyWhite: proved with exact division. In doubles they also need `(p/255)*255` to round back to `p`, which the model does not establish.
- Screen identities (screen with BLACK keeps the colour) are not stated, because `1 - (1 - a)` loses a bit in doubles and `parse.byte` then truncates.
- `util.random` (color.js:224-226): `Math.random` is a parameter `u` in [0, 1).
- `vld.rgb`, `vld.byte` and `vld.color` (color.js:244-264) are never called by the rest of the library.
- `parseInt`/`parseFloat`/`Number` on texts follow the ECMAScript grammars for the decimal and hexadecimal forms. Exponent forms in the decimal text of very large or very small numbers are not modelled, because number-to-text conversion is exact here.
- Parse.Byte, JsValues.ParseIntOfInteger: `parseInt` of a number is modelled as its truncation. JavaScript writes numbers from 1e21 up, and non-zero ones below 1e-6, in exponent form, and `parseInt` stops at the exponent: `parse.byte(1e21)` is 1 and `parse.byte(5e-7)` is 5, where the model gives 255 and 0.
- Colors.SetChannel, Colors.SetAlpha: the argument is an integer (a number for alpha) or null-like. Non-integer channel values, texts and objects given to a setter, and later reads of such fields by `int()`, are not modelled.
- Colors.Format: how a fractional alpha is written inside "rgba(...)" is a parameter `alphaText`, because it is JavaScript's number-to-text conversion for doubles.
- The exception text of `InvalidArgumentsException` (a `JSON.stringify` of the arguments) is not modelled. The failure carries the argument list instead.
- Arrays, functions and objects with their own `valueOf` or `toString`, given as arguments, are not modelled. Objects are plain property maps.
- Colors are immutable values here. In color.js the setters (color.js:114-137) change the object in place and return it, and the named constants (color.js:529-537) are shared objects, so `Color.WHITE.r(0)` changes WHITE for every later reader. Aliasing and in-place update are not modelled: a setter returns a new colour.
- The method aliases (color.js:140-162) and static aliases (color.js:504-511) are the modelled functions under other names.
- The console and DOM scaffolding of colortest.js is not part of this model. Its assertions appear as the example lemmas above.

## Findings

| source | as written | input that shows it | evidently intended | confidence | as-written member | corrected member |
|---|---|---|---|---|---|---|
| color.js:334-337 | `cnv.int_hex` feeds `n.toString(16)` to `parse.hex`, which doubles a 3-digit text | the colour (0, 1, 0): `int()` is 0x100, `hex()` is "110000", which reads back as 0x110000 | pad the base-16 text to six digits without the shorthand expansion, so `hex()` reads back as `int()` | high; not executed | Convert.ShorthandBreaksRoundTrip | Convert.IntToHexPadded |
| color.js:143 | `rgba()` repeats `_r` as its fourth element | (0, 119, 255, 0.3): `rgba()` ends with 0 | `[_r, _g, _b, _a]` | high; not executed | ColorProperties.RgbaListExample | Colors.RgbaListCorrected |
| color.js:520-527 | `Color.rgba` reads alpha with `parse.byte`, which truncates it to 0 or 1 | `Color.rgba(0, 119, 255, 0.5)` has alpha 0 | pass alpha unchanged, so the constructor reads it with `parse.unit` | high; not executed | ColorProperties.StaticRgbaExample | Colors.StaticRgbaCorrected |
