# PaletteHelper colour utilities in Dafny

This project models the colour helpers of PaletteHelper, an Android app that
shows the palette extracted from an image. The helpers live in
`util/ColorUtil.kt`. The model is one Dafny module, `ColorUtil`, in
`color_util.dfy`. It covers:

- **Alpha replacement.** `modifyAlpha` works on a packed ARGB `Int`. In the
  model, a Kotlin `Int` is its 32 bits (`bv32`). `ToInt` gives the signed
  value those bits hold and `ToBits` goes back. `ToBits(ToInt(c)) == c` is
  proved, and so is `ToInt(ToBits(x)) == x`. The float overload scales by 255
  and then truncates toward zero, as Kotlin's saturating `Float.toInt()` does.
- **Hex rendering.** `hex()` is `'#'` followed by `Integer.toHexString`:
  lower-case, unsigned, base 16, no leading zeros.
- **Swatch selection.** A palette has six optional primary slots in a fixed
  order. The model selects the most populous present swatch, classifies a
  palette as `Light`, `Dark` or `Unknown`, and removes duplicate swatches by
  their `toString()` text.
- **Lightness tests.** `isDark(hsl)` holds below one half and
  `isLightColor` above one half. `isDark(color)` converts to HSL first.
- **`isDark(bitmap)`.** A palette that has swatches decides the result.
  Otherwise the colour of a backup pixel decides, and that pixel is the
  centre by default.
- **`constrain` and `scrimify`.** Scrimify lightens light colours and darkens
  dark ones, then clamps the lightness to [0, 1]. `Scrimify` is a method: it
  fills a fresh array and rewrites the lightness in place, as the source does.
- **`createColorSelector`.** It returns a ripple, a pressed/focused state
  list, or null, depending on the platform version and on whether a mask is
  given.

The model takes the library collaborators as parameters:

- the HSL conversions `ColorUtils.colorToHSL` and `HSLToColor`, as functions
  `toHsl` and `fromHsl`;
- the generated palette, as an `Option<Palette>`;
- the bitmap, as its size plus a pixel function;
- the platform version `Build.VERSION.SDK_INT`, as `sdkInt`, compared with
  `Lollipop` = 21.

Kotlin `Float` values are Dafny `real`s.

Two places where the code and its documentation differ; the model follows the
code:

- The doc comment of `hex()` promises `#xxxxxx`. The code prints
  `Integer.toHexString` of the whole word. Any colour with alpha `0x10` or
  more therefore gets eight digits (`HexOfVisibleColourHasEightDigits`), and
  a colour with small values gets fewer than six.
- The KDoc of `createColorSelector` (line 190) speaks of a state list "with
  the color as its pressed and focused states". The code also adds a third
  entry: an empty state set with no drawable, which matches every other
  state. The model keeps all three entries.

One place where the code does not do what it evidently means is listed under
"## Findings": `getMostPopulousSwatch` throws instead of returning null when
no primary swatch is present. The model follows the intended behaviour, and
it keeps the behaviour as written beside it.

## Model

Some members are plain definitions with no contract of their own. The
lemmas and contracts in the table state what they mean:

- `IsDarkHsl` (line 142-144) is `isDark(hsl)`: lightness below one half.
- `IsLightColor` (line 42) is `isLightColor`: lightness above one half.
- `IsDarkColor` (line 149-153) is `isDark(color)`. It applies the injected
  `toHsl` to the colour and then `IsDarkHsl`.
- `ShownDrawable` is the `StateListDrawable` rule the selector relies on:
  the first entry whose state set the view's states contain is shown.

| member | source | states |
|---|---|---|
| `ColorUtil.ModifyAlpha` | palettehelper/src/main/java/io/sweers/palettehelper/util/ColorUtil.kt:66-71 | red, green and blue of the colour are unchanged; the new alpha is the low byte of `alpha`, which is `alpha` itself for 0 ≤ alpha ≤ 255 |
| `ColorUtil.LastAlphaWins` | palettehelper/src/main/java/io/sweers/palettehelper/util/ColorUtil.kt:69-71 | setting alpha twice equals setting only the second alpha |
| `ColorUtil.OwnAlphaIsIdentity` | palettehelper/src/main/java/io/sweers/palettehelper/util/ColorUtil.kt:69-71 | setting a colour's own alpha returns the colour |
| `ColorUtil.ModifyAlphaSign` | palettehelper/src/main/java/io/sweers/palettehelper/util/ColorUtil.kt:69-71 | for 0 ≤ alpha ≤ 255, the resulting signed `Int` is negative exactly when alpha ≥ 128 |
| `ColorUtil.ModifyAlphaExample` | palettehelper/src/main/java/io/sweers/palettehelper/util/ColorUtil.kt:69-71 | alpha 255 on `0x00112233` gives `0xFF112233` |
| `ColorUtil.Truncate` | palettehelper/src/main/java/io/sweers/palettehelper/util/ColorUtil.kt:78 | `toInt()` drops the fraction toward zero: for x ≥ 0 the result is the largest integer ≤ x, for x < 0 the smallest integer ≥ x |
| `ColorUtil.ToBits` | palettehelper/src/main/java/io/sweers/palettehelper/util/ColorUtil.kt:78 | the `Int` passed on by the float overload has the bits of its two's-complement value, and reading them back gives the same value |
| `ColorUtil.BitsRoundTrip` | palettehelper/src/main/java/io/sweers/palettehelper/util/ColorUtil.kt:69 | every 32-bit word is the encoding of exactly one `Int` value |
| `ColorUtil.FloatToInt` | palettehelper/src/main/java/io/sweers/palettehelper/util/ColorUtil.kt:78 | `Float.toInt()` truncates toward zero inside the `Int` range and saturates at its ends |
| `ColorUtil.ModifyAlphaFraction` | palettehelper/src/main/java/io/sweers/palettehelper/util/ColorUtil.kt:73-79 | red, green and blue are unchanged; for a fraction in [0, 1], the alpha is ⌊255·alpha⌋, so 0.0 gives 0 and 1.0 gives 255 |
| `ColorUtil.HexDigits` | palettehelper/src/main/java/io/sweers/palettehelper/util/ColorUtil.kt:39 | `Integer.toHexString` of an unsigned value is non-empty lower-case hex with no leading zero ("0" for zero), and parsing it in base 16 gives back the value |
| `ColorUtil.HexDigitsLength` | palettehelper/src/main/java/io/sweers/palettehelper/util/ColorUtil.kt:39 | the rendering has exactly as many digits as the value has in base 16 |
| `ColorUtil.Hex` | palettehelper/src/main/java/io/sweers/palettehelper/util/ColorUtil.kt:36-39 | `'#'` followed by 1 to 8 lower-case hex digits with no leading zero except in `"#0"`; the digits read in base 16 give the unsigned value of the colour |
| `ColorUtil.HexInjective` | palettehelper/src/main/java/io/sweers/palettehelper/util/ColorUtil.kt:39 | two colours with the same hex string are the same colour |
| `ColorUtil.HexOfVisibleColourHasEightDigits` | palettehelper/src/main/java/io/sweers/palettehelper/util/ColorUtil.kt:36-39 | a colour with alpha ≥ 0x10 renders as nine characters, not the documented `#xxxxxx` |
| `ColorUtil.LightAndDarkExclusive` | palettehelper/src/main/java/io/sweers/palettehelper/util/ColorUtil.kt:142-144 | `isDark(hsl)` and `isLightColor` (line 42) never both hold; they both fail exactly when the lightness is 0.5 |
| `ColorUtil.PrimarySwatches` | palettehelper/src/main/java/io/sweers/palettehelper/util/ColorUtil.kt:43-52 | six slots in the order vibrant, muted, dark vibrant, dark muted, light vibrant, light muted |
| `ColorUtil.Present` | palettehelper/src/main/java/io/sweers/palettehelper/util/ColorUtil.kt:112 | the filtered list holds exactly the non-null swatches |
| `ColorUtil.PresentAppend` | palettehelper/src/main/java/io/sweers/palettehelper/util/ColorUtil.kt:112 | filtering out nulls distributes over concatenation, so the survivors keep their relative order |
| `ColorUtil.PresentSingleton` | palettehelper/src/main/java/io/sweers/palettehelper/util/ColorUtil.kt:112 | a null slot contributes nothing and a present slot contributes exactly its swatch |
| `ColorUtil.MaxByPopulation` | palettehelper/src/main/java/io/sweers/palettehelper/util/ColorUtil.kt:111-114 | it finds no swatch only for an empty list; otherwise it returns a member of the list whose population is at least every other member's |
| `ColorUtil.GetMostPopulousSwatch` | palettehelper/src/main/java/io/sweers/palettehelper/util/ColorUtil.kt:109-117 | as intended (see "## Findings"): null for a null palette; null exactly when no primary slot is present; otherwise a present primary swatch with maximal population |
| `ColorUtil.IsDarkPalette` | palettehelper/src/main/java/io/sweers/palettehelper/util/ColorUtil.kt:104-107 | `Unknown` exactly when no primary swatch is present; otherwise `Dark` exactly when a most populous swatch has lightness < 0.5, and `Light` otherwise |
| `ColorUtil.GetMostPopulousSwatchAsWritten` | palettehelper/src/main/java/io/sweers/palettehelper/util/ColorUtil.kt:109-117 | as written: null only for a null palette; for a palette, it throws `NoSuchElementException` exactly when no primary swatch is present, and otherwise returns what `GetMostPopulousSwatch` returns |
| `ColorUtil.IsDarkPaletteAsWritten` | palettehelper/src/main/java/io/sweers/palettehelper/util/ColorUtil.kt:104-107 | as written: never UNKNOWN; it throws exactly when no primary swatch is present, and otherwise agrees with `IsDarkPalette` |
| `ColorUtil.NoPrimarySwatchThrowsAsWritten` | palettehelper/src/main/java/io/sweers/palettehelper/util/ColorUtil.kt:104-117 | a palette with one swatch and six empty primary slots makes `isDark(palette)` throw as written, where the intended answer is UNKNOWN and `isDark(bitmap)` is false |
| `ColorUtil.StrictlyMostPopulousDecides` | palettehelper/src/main/java/io/sweers/palettehelper/util/ColorUtil.kt:104-117 | a primary swatch that outnumbers every other decides the palette's lightness, whatever the tie order |
| `ColorUtil.SinglePrimaryDecides` | palettehelper/src/main/java/io/sweers/palettehelper/util/ColorUtil.kt:104-107 | a palette with exactly one present primary swatch takes that swatch's classification |
| `ColorUtil.FirstIndex` | palettehelper/src/main/java/io/sweers/palettehelper/util/ColorUtil.kt:56 | the position of the first swatch with a given text: that swatch has the text, and no earlier one does |
| `ColorUtil.DistinctByText` | palettehelper/src/main/java/io/sweers/palettehelper/util/ColorUtil.kt:56 | `distinct` by text keeps an order-preserving subsequence whose texts are pairwise different; every text that was not already emitted appears, each represented by its first occurrence |
| `ColorUtil.DistinctByTextKeepsFirstOccurrenceOrder` | palettehelper/src/main/java/io/sweers/palettehelper/util/ColorUtil.kt:56 | the kept swatches come in the order in which their texts first occur in the input |
| `ColorUtil.UniqueSwatches` | palettehelper/src/main/java/io/sweers/palettehelper/util/ColorUtil.kt:53-58 | only non-null swatches of the palette, no two with the same `toString()`, every text represented by its first swatch, in the order in which the texts first occur among the present swatches |
| `ColorUtil.IsDarkBitmap` | palettehelper/src/main/java/io/sweers/palettehelper/util/ColorUtil.kt:119-137 | a palette with swatches decides alone (DARK means dark); otherwise the backup pixel decides, the centre by default; outside the bitmap, `getPixel` fails |
| `ColorUtil.UnknownPaletteIsNotDark` | palettehelper/src/main/java/io/sweers/palettehelper/util/ColorUtil.kt:131-132 | swatches but no primary swatch: UNKNOWN counts as not dark |
| `ColorUtil.PaletteDecidesAlone` | palettehelper/src/main/java/io/sweers/palettehelper/util/ColorUtil.kt:131-132 | with swatches present, neither the pixels nor the backup coordinates change the answer |
| `ColorUtil.CentrePixelFallback` | palettehelper/src/main/java/io/sweers/palettehelper/util/ColorUtil.kt:126-136 | without swatches and with default coordinates, the centre pixel's `isDark(color)` is the answer, and it never fails on a non-empty bitmap |
| `ColorUtil.Constrain` | palettehelper/src/main/java/io/sweers/palettehelper/util/ColorUtil.kt:183-185 | result in [min, max] when min ≤ max; v itself when inside; min below the range, max above it; min when the bounds are crossed |
| `ColorUtil.ScrimLightness` | palettehelper/src/main/java/io/sweers/palettehelper/util/ColorUtil.kt:173-179 | the adjusted lightness always lies in [0, 1] |
| `ColorUtil.ScrimDirection` | palettehelper/src/main/java/io/sweers/palettehelper/util/ColorUtil.kt:155-179 | for lightness and multiplier in [0, 1], a light colour's lightness never drops and a dark colour's never rises |
| `ColorUtil.ScrimDirectionStrict` | palettehelper/src/main/java/io/sweers/palettehelper/util/ColorUtil.kt:155-179 | for a positive multiplier and lightness strictly inside (0, 1), light strictly rises and dark strictly falls |
| `ColorUtil.ScrimHsl` | palettehelper/src/main/java/io/sweers/palettehelper/util/ColorUtil.kt:170-179 | hue and saturation are kept; the lightness lands in [0, 1] |
| `ColorUtil.Scrimify` | palettehelper/src/main/java/io/sweers/palettehelper/util/ColorUtil.kt:164-181 | the colour converted back from the HSL triple whose lightness was adjusted; the darkness is computed from the colour when the caller gives none |
| `ColorUtil.CreateColorSelector` | palettehelper/src/main/java/io/sweers/palettehelper/util/ColorUtil.kt:187-213 | exactly one of three branches: from Lollipop, a ripple with the colour and the given mask; before it without a mask, a state list with 200 ms fades and entries pressed, focused, empty default; before it with a mask, null (and only then) |
| `ColorUtil.LegacySelectorShowsColorWhenPressedOrFocused` | palettehelper/src/main/java/io/sweers/palettehelper/util/ColorUtil.kt:200-208 | the legacy selector shows the colour exactly when the view is pressed or focused, and nothing otherwise |

## Left out

- `blendColors` is not modelled. It blends each channel with float multiply-add and truncation, and the channel helpers `Color.alpha` and `Color.argb` are Android library code that is not part of this model.
- `PaletteHelperApplication.kt` is not part of this model. It only starts third-party SDKs.
- `ColorUtils.colorToHSL` and `ColorUtils.HSLToColor` are library code. They are the parameters `toHsl` and `fromHsl`, and nothing is assumed about them.
- Palette generation (`Palette.from(bitmap).maximumColorCount(3).generate()`) is library code. Its result is a parameter of `IsDarkBitmap`.
- `Bitmap.getPixel` is library code. It is a pixel function plus the bitmap size. A coordinate outside the bitmap gives `None`, which stands for the exception `getPixel` throws.
- Real Android `Drawable` objects are replaced by the `Drawable` datatype. A mask the caller passes is any value of it.
- `Build.VERSION.SDK_INT` is the parameter `sdkInt`, because the model cannot read the platform.
- Float rounding and NaN are not modelled: Kotlin `Float` values are exact reals.
- ModifyAlphaFraction: the product `255f * alpha` is computed exactly, not rounded to a float. Its alpha contract is stated only for fractions in [0, 1], as the `@FloatRange` annotation asks.
- Constrain: the NaN behaviour of `Math.max` and `Math.min` is not modelled.
- MaxByPopulation: the order in which `MathObservable.max` breaks ties is not visible in the source. The definition keeps the first maximum, and no contract depends on that choice.
- `DistinctByText` and `UniqueSwatches` model the observable chain as the list it produces. RxJava scheduling is not modelled.

## Findings

| source | as written | input that shows it | evidently intended | confidence | as-written member | corrected member |
|---|---|---|---|---|---|---|
| palettehelper/src/main/java/io/sweers/palettehelper/util/ColorUtil.kt:104-117 | `MathObservable.max` over the filtered primary swatches emits nothing when all six slots are null, and `toBlocking().first()` then throws `NoSuchElementException`, so the `?: return Lightness.UNKNOWN` at line 105 is never reached; `isDark(bitmap)` calls `isDark(palette)` at line 132 for any palette with swatches, so it throws too | a palette with one swatch and all six primary slots null | `getMostPopulousSwatch` returns null, `isDark(palette)` returns UNKNOWN, and `isDark(bitmap)` returns false | not executed; medium, from the documented RxJava behaviour of `first()` on an empty observable | `ColorUtil.IsDarkPaletteAsWritten`, `ColorUtil.NoPrimarySwatchThrowsAsWritten` | `ColorUtil.IsDarkPalette`, `ColorUtil.GetMostPopulousSwatch` |
