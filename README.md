# acid colour core in Dafny

A model of the centre of the `acid` colour library. A `Colour` holds four numeric
channels: red, green, blue and alpha, in 8-bit units, with alpha defaulting to 255.
Around it are the conversions whose arithmetic stays rational:

- the RGB views and factories;
- the hex codec;
- the HSL and HSV converters.

Channels are exact `real`s, so the model checks the intended arithmetic rather than
IEEE-754 floats. Python's float `%` is modelled as `PyMod`, whose remainder takes the
sign of the divisor. Where Python raises, the model returns a `Result`:

- `int('', 16)` on an empty slice;
- `int` on a slice holding `#`;
- a float division by zero.

Layout:

- `channels.dfy`, module `Channels`: the `Rgba` value, the `Failure` causes and
  `Result`.
- `colour.dfy`, module `ColourValue`: the `Colour` class, whose `Floor`, `Round` and
  `Ceil` rewrite the four fields in place. It also holds Python's `math.floor`,
  `math.ceil` and half-to-even `round` on reals.
- `rgb.dfy`, module `RgbView`: `to_rgb`, `to_rgba`, `to_rgbd`, `to_rgbad`, `from_rgb`
  and `from_rgbd`.
- `hex.dfy`, module `HexCodec`: `to_hex` and `from_hex`, including Python's
  `format(n, 'x')`, `str.lstrip('#')`, clipped slicing and `int(s, 16)` over the
  hex alphabet.
- `hue.dfy`, module `Hue`: the three-branch hue rule and the six 60-degree sectors
  that `to_hsl`/`to_hsv` and `from_hsl`/`from_hsv` share.
- `hsl.dfy`, module `HslConverter`, and `hsv.dfy`, module `HsvConverter`.

The converters read a colour's channels as an `Rgba` value, which `Colour.Value()`
returns. The factories return the `Rgba` that Python passes to the `Colour`
constructor.

Behaviour of the code that the model keeps as it is:

- `from_hex` strips every leading `#`, so `##ff0000` reads like `ff0000`.
- A 3-character body is repeated whole (`abc` becomes `abcabc`). This is unlike
  CSS shorthand, which doubles each digit.
- Bodies of 5, 7 or 9 and more characters are accepted. Alpha is read only when the
  body has at least 8 characters, and characters after the eighth are ignored.
- `to_hsv` raises when the largest channel is 0, because it divides by that
  maximum; black is the only such colour in 0 - 255.
- `to_hsl` divides by `1 - |2l - 1|`, which raises when that is 0 and the channels
  differ. For channels in 0 - 255 this cannot happen.

## Model

| member | source | states |
|---|---|---|
| ColourValue.Colour.constructor | acid/colour.py:30-33 | the four fields hold the given channels; alpha is 255 when only three are given |
| ColourValue.Colour.Value | acid/colour.py:30-33 | no contract of its own; the four fields as the value that the converters read |
| ColourValue.Colour.Floor | acid/colour.py:35-44 | each of r, g, b, a becomes `math.floor` of its own old value; nothing but this object changes |
| ColourValue.Colour.Round | acid/colour.py:46-55 | each of r, g, b, a becomes Python's `round` of its own old value; nothing but this object changes |
| ColourValue.Colour.Ceil | acid/colour.py:57-66 | each of r, g, b, a becomes `math.ceil` of its own old value; nothing but this object changes |
| ColourValue.FloorOf | acid/colour.py:41-44 | the result n is the greatest integer not above x: n <= x < n + 1 |
| ColourValue.CeilOf | acid/colour.py:63-66 | the result n is the least integer not below x: n - 1 < x <= n |
| ColourValue.RoundHalfEven | acid/colour.py:52-55 | the result is within 1/2 of x, and on an exact tie it is even |
| ColourValue.RoundIsNearest | acid/colour.py:52-55 | no integer is nearer to x than its rounding; if another integer is as near, the rounding is the even one |
| ColourValue.RoundingFixesIntegers | acid/colour.py:35-66 | floor, ceil and round leave a whole number unchanged |
| ColourValue.FloorIdempotent | acid/colour.py:41-44 | flooring twice equals flooring once |
| ColourValue.CeilIdempotent | acid/colour.py:63-66 | ceiling twice equals ceiling once |
| ColourValue.RoundIdempotent | acid/colour.py:52-55 | rounding twice equals rounding once |
| RgbView.ToRgb | ketamine/rgb.py:4-11 | no contract of its own; RgbRoundTrips shows rebuilding from it gives the colour with alpha 255 |
| RgbView.ToRgba | ketamine/rgb.py:13-20 | no contract of its own; FromRgb and RgbRoundTrips show it is exactly the stored channels |
| RgbView.ToRgbd | ketamine/rgb.py:22-29 | the three components are r, g, b divided by 255 (255 times each gives the channel back) |
| RgbView.ToRgbad | ketamine/rgb.py:31-38 | the four components are r, g, b, a divided by 255 |
| RgbView.FromRgb | ketamine/rgb.py:40-59 | the colour's RGBA view is exactly the arguments; alpha defaults to 255 |
| RgbView.FromRgbd | ketamine/rgb.py:61-80 | the colour's decimal RGBA view is exactly the arguments, so each is stored times 255; alpha defaults to 1, stored as 255 |
| RgbView.RgbRoundTrips | ketamine/rgb.py:4-80 | view of factory is the identity for both scales, and factory of view gives the colour back (alpha 255 through the three-channel views) |
| RgbView.FactoriesDoNotClamp | ketamine/rgb.py:40-80 | for all reals, in range or not, from_rgb stores each of the four arguments unchanged and from_rgbd stores each times 255 |
| Hue.PyMod | acid/hsl.py:23 | Python's float `%` with a positive divisor lands in [0, n) |
| Hue.PyModShift | acid/hsl.py:23 | for x in [k n, (k+1) n) the remainder is x - k n and the floor quotient is k |
| Hue.HueOf | acid/hsl.py:20-27 | the hue is in [0, 360) and is 0 for a grey |
| Hue.Secondary | acid/hsl.py:51 | no contract of its own; SecondaryRising and SecondaryFalling state its value inside each pair of sectors, and SectorsInvertHue uses them |
| Hue.SecondaryRising | acid/hsv.py:47 | in an even sector the secondary offset grows linearly from 0 to the chroma |
| Hue.SecondaryFalling | acid/hsv.py:47 | in an odd sector the secondary offset falls linearly from the chroma back to 0 |
| Hue.Offsets | acid/hsv.py:50-61 | one offset is the chroma and one is 0; a hue below 0 or from 360 up falls into the last sector |
| Hue.SectorsInvertHue | acid/hsl.py:20-27 | for channels not all equal, the sector offsets at the computed hue with chroma max - min are each channel's distance above the minimum |
| HslConverter.ToHsl | acid/hsl.py:4-32 | a successful result has hue in [0, 360) |
| HslConverter.HslOf | acid/hsl.py:29-30 | lightness is (max + min) / 2, and saturation times 1 - \|2l - 1\| is the chroma; it fails exactly when the chroma is non-zero and that divisor is 0 |
| HslConverter.FromHsl | acid/hsl.py:34-78 | alpha is 255 |
| HslConverter.HslLightnessAndGrey | acid/hsl.py:20-30 | lightness is the mean of the largest and smallest decimal channel; a grey has hue 0 and saturation 0 |
| HslConverter.ToHslFailsExactly | acid/hsl.py:29-30 | the conversion fails exactly when the channels differ and max + min is 0 or 510 |
| HslConverter.ToHslInGamut | acid/hsl.py:14-32 | for channels in 0 - 255 it succeeds, with hue in [0, 360) and saturation and lightness in [0, 1] |
| HslConverter.FromHslBySectors | acid/hsl.py:49-76 | every branch is m = 255 (l - d/2) plus 255 times the shared sector offsets with chroma d |
| HslConverter.FromHslShape | acid/hsl.py:49-76 | s = 0 gives the grey 255 l; one channel is m and one is 255 d + m; h outside [0, 360) takes the last branch |
| HslConverter.HslRoundTrip | acid/hsl.py:4-78 | whenever to_hsl succeeds, from_hsl of its result gives back r, g, b exactly, with alpha 255 |
| HslConverter.ChromaticRoundTrip | acid/hsl.py:49-76 | any hue, lightness and saturation that describe decimal channels rebuild those channels times 255 |
| HslConverter.ToHslRedExample | acid/hsl.py:14-32 | pure red converts to (0, 1, 0.5) |
| HslConverter.FromHslBlueExample | acid/hsl.py:49-78 | hue 240 at full saturation and half lightness is pure blue |
| HsvConverter.ToHsv | acid/hsv.py:4-29 | a successful result has hue in [0, 360) |
| HsvConverter.FromHsv | acid/hsv.py:31-67 | alpha is 255 |
| HsvConverter.ToHsvFailsExactly | acid/hsv.py:29 | the conversion fails (division by zero) exactly when the largest channel is 0 |
| HsvConverter.HsvValueAndSaturation | acid/hsv.py:14-29 | value is the largest decimal channel and saturation (max - min) / max; a non-black grey has hue 0 and saturation 0 |
| HsvConverter.ToHsvInGamut | acid/hsv.py:14-29 | for channels in 0 - 255, not all 0, it succeeds, with hue in [0, 360) and saturation and value in [0, 1] |
| HsvConverter.FromHsvShape | acid/hsv.py:46-67 | s = 0 gives the grey 255 v; one channel is 255 v and one is 255 (v - v s); h outside [0, 360) takes the last sector |
| HsvConverter.HsvRoundTrip | acid/hsv.py:4-67 | whenever to_hsv succeeds, from_hsv of its result gives back r, g, b exactly, with alpha 255 |
| HsvConverter.RebuildFromParts | acid/hsv.py:46-67 | any hue, saturation and value that describe a colour rebuild its channels |
| HexCodec.DigitChar | acid/hex.py:15 | the digit for n in 0 - 15 is a lowercase hex digit whose value is n |
| HexCodec.HexNumeral | acid/hex.py:15 | `format(n, 'x')` is non-empty, all lowercase hex digits, and reads back as n |
| HexCodec.Format02xByte | acid/hex.py:15-19 | `:02x` writes a value in 0 - 255 as exactly two digits, high nibble first |
| HexCodec.ParseHex | acid/hex.py:39-42 | `int(s, 16)` succeeds exactly on a non-empty slice without '#' |
| HexCodec.LStripHash | acid/hex.py:34 | the result does not start with '#', is no longer than the input and keeps the alphabet; LStripHashRemovesLeadingRun states the rest |
| HexCodec.LStripHashRemovesLeadingRun | acid/hex.py:34 | the input is a run of '#' followed by the result, and the result does not start with '#': exactly the whole leading run is removed |
| HexCodec.Slice | acid/hex.py:39-42 | a slice is clipped to the string as in Python: its length is the clipped range and character k is s[i + k] |
| HexCodec.Format02x | acid/hex.py:15-19 | no contract of its own; Format02xByte states its output for 0 - 255 and ToHexShape its place in to_hex |
| HexCodec.HexValue | acid/hex.py:39-42 | no contract of its own; HexNumeral, HexValuePair and HexValueLower state what `int(s, 16)` yields |
| HexCodec.ToHex | acid/hex.py:4-21 | no contract of its own; ToHexShape gives its exact output and HexRoundTrip shows from_hex undoes it |
| HexCodec.FromHex | acid/hex.py:23-43 | no contract of its own; HexRoundTrip, FromHexOkExactly, FromHexAlpha, FromHexShorthand, FromHexStripsEveryHash and FromHexIgnoresCase state its behaviour |
| HexCodec.Pair | acid/hex.py:15 | a byte is written as two lowercase hex digits |
| HexCodec.HexBody | acid/hex.py:14-19 | the digits after the optional '#' number 8 when alpha is not 255 and 6 otherwise, all lowercase |
| HexCodec.ToHexShape | acid/hex.py:14-21 | to_hex is '#' exactly when asked, followed by those digits |
| HexCodec.ParsePair | acid/hex.py:39-42 | parsing the two-digit form of a byte gives the byte |
| HexCodec.HexRoundTrip | acid/hex.py:4-43 | for 8-bit channels, from_hex(to_hex(c, h)) gives back all four channels, with either hashtag setting |
| HexCodec.FromHexStripsEveryHash | acid/hex.py:34 | one more leading '#' changes nothing |
| HexCodec.FromHexShorthand | acid/hex.py:35-36 | a 3-character body abc reads as abcabc: (0xab, 0xca, 0xbc) with alpha 255 |
| HexCodec.FromHexAlpha | acid/hex.py:42 | alpha is read from characters 7 - 8 when the body has 8 or more, is 255 otherwise, and characters past the eighth are never read |
| HexCodec.FromHexOkParts | acid/hex.py:38-43 | from_hex succeeds exactly when every slice it parses does |
| HexCodec.FromHexOkExactly | acid/hex.py:34-43 | from_hex fails exactly when the stripped string has 0, 1, 2 or 4 characters or a '#' sits among the characters read |
| HexCodec.FromHexIgnoresCase | acid/hex.py:39-42 | lowering the case of the digits does not change the result |
| HexCodec.FromHexRedExample | acid/hex.py:34-43 | 'ff0000' is (255, 0, 0, 255) |
| HexCodec.FromHexHashExample | acid/hex.py:34 | '#ff0000' and '##ff0000' read like 'ff0000' |
| HexCodec.FromHexShorthandExample | acid/hex.py:35-36 | 'abc' is (171, 202, 188, 255) |
| HexCodec.FromHexTooShortExample | acid/hex.py:39-41 | 'abcd' fails, because its blue slice is empty |

## Left out

- Floating point: channels are exact reals. Rounding error in `/`, `*` and `%`, and
  the int/float distinction, are not modelled.
- `acid/xyz.py`, `ketamine/xyz.py` and `acid/lab.py` are not part of this model. The
  sRGB transfer uses the powers 2.4 and 1/2.4, and Lab uses a cube root; neither can
  be expressed over Dafny reals. `acid/cmyk.py` has only stub methods and is not
  part of this model either.
- HexCodec.FromHex: requires the input to consist of '#' and hex digits. Python's
  `int(s, 16)` also accepts a sign, surrounding whitespace, underscores and non-ASCII
  digits inside a slice, and this is left out.
- HexCodec.ToHex: requires whole-number channels. Python's `:02x` raises on any
  float, even a whole one, and the model cannot tell an int from a float.
  Negative channels and channels above 255 are formatted, with a minus sign and
  more digits, but no property is proved about them.
- Colour: the dataclass's generated `__eq__` and `__repr__`, the mixin composition,
  and the PIL/OpenCV interop are not modelled.
- The converters and factories work on `Rgba` values. The update in place of
  `Colour`'s fields is modelled only for `Floor`, `Round` and `Ceil`, the only
  operations that change a colour.
