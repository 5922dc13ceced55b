/*
 * A model of the colour helpers of PaletteHelper (util/ColorUtil.kt).
 *
 * Every Kotlin `Int` is modelled by its 32 bits (`bv32`), which is what the
 * JVM stores; `ToInt` gives the signed value those bits hold and `ToBits`
 * goes back.  A packed colour is such a word in ARGB order.  Kotlin `Float`
 * values are modelled as `real` (no rounding, no NaN).  The Android and
 * support-library collaborators (HSL conversion, palette generation, pixel
 * access, the platform version) are passed in as parameters.
 */
module ColorUtil {

  /** Kotlin's nullable `T?`. */
  datatype Option<+T> = None | Some(value: T) {
    function GetOr(default: T): T {
      match this
      case Some(v) => v
      case None => default
    }
  }

  // ---------------------------------------------------------------------------
  // Kotlin Int: bits, channels and signed value
  // ---------------------------------------------------------------------------

  /** The range of a Kotlin (JVM) `Int`. */
  newtype int32 = x: int | -0x8000_0000 <= x < 0x8000_0000

  const TwoTo32: int := 0x1_0000_0000

  /** The alpha channel: bits 24..31. */
  function Alpha(c: bv32): bv8 { (c >> 24) as bv8 }
  /** The red channel: bits 16..23. */
  function Red(c: bv32): bv8 { ((c >> 16) & 0xFF) as bv8 }
  /** The green channel: bits 8..15. */
  function Green(c: bv32): bv8 { ((c >> 8) & 0xFF) as bv8 }
  /** The blue channel: bits 0..7. */
  function Blue(c: bv32): bv8 { (c & 0xFF) as bv8 }

  /** The word whose four bytes, from the top, are `a`, `r`, `g`, `b`. */
  function Pack(a: bv8, r: bv8, g: bv8, b: bv8): (c: bv32)
    ensures Alpha(c) == a && Red(c) == r && Green(c) == g && Blue(c) == b
  {
    (a as bv32 << 24) | (r as bv32 << 16) | (g as bv32 << 8) | b as bv32
  }

  /** A word is determined by its four bytes. */
  lemma PackChannels(c: bv32)
    ensures Pack(Alpha(c), Red(c), Green(c), Blue(c)) == c
  {
  }

  /** The unsigned value of a word, byte by byte. */
  function WordValue(c: bv32): (n: nat)
    ensures n < TwoTo32
  {
    Alpha(c) as int * 0x100_0000 + Red(c) as int * 0x1_0000 + Green(c) as int * 0x100 + Blue(c) as int
  }

  /** The unsigned reading of a Kotlin `Int`: negative values wrap by 2^32. */
  function Unsigned(x: int32): (n: nat)
    ensures n < TwoTo32
    ensures x >= 0 ==> n == x as int
    ensures x < 0 ==> n == x as int + TwoTo32
  {
    if x < 0 then x as int + TwoTo32 else x as int
  }

  /** The signed value that a Kotlin `Int` with bits `c` holds. */
  function ToInt(c: bv32): (x: int32)
    ensures Unsigned(x) == WordValue(c)
    ensures x < 0 <==> Alpha(c) >= 0x80
  {
    var n := WordValue(c);
    if n < 0x8000_0000 then n as int32 else (n - TwoTo32) as int32
  }

  lemma ShiftInBit(hi: bv8, bit: bv8)
    requires hi < 0x80 && bit <= 1
    ensures ((hi << 1) | bit) as int == 2 * (hi as int) + bit as int
  {
  }

  /** The low `k` bits of the byte value `n`, built one bit at a time from the top. */
  function ByteBits(n: nat, k: nat): (b: bv8)
    requires k <= 8 && n < Pow2(k)
    ensures b as int == n
    decreases k
  {
    if k == 0 then 0
    else
      var hi := ByteBits(n / 2, k - 1);
      var bit: bv8 := if n % 2 == 1 then 1 else 0;
      assert hi as int < 0x80 by {
        Pow2Monotonic(k - 1, 7);
      }
      ShiftInBit(hi, bit);
      (hi << 1) | bit
  }

  function Pow2(k: nat): (p: nat)
    ensures p >= 1
  {
    if k == 0 then 1 else 2 * Pow2(k - 1)
  }

  lemma {:induction false} Pow2Monotonic(i: nat, j: nat)
    requires i <= j
    ensures Pow2(i) <= Pow2(j)
    decreases j
  {
    if i < j { Pow2Monotonic(i, j - 1); }
  }

  /** The bits of a byte value. */
  function ToByte(n: nat): (b: bv8)
    requires n < 0x100
    ensures b as int == n
  {
    assert Pow2(8) == 0x100;
    ByteBits(n, 8)
  }

  /** Division by 256 is determined by quotient and remainder. */
  lemma DivMod256(n: int, q: int, r: int)
    requires n == 0x100 * q + r && 0 <= r < 0x100
    ensures n / 0x100 == q && n % 0x100 == r
  {
  }

  lemma Base256Digits(a: int, r: int, g: int, b: int)
    requires 0 <= r < 0x100 && 0 <= g < 0x100 && 0 <= b < 0x100
    ensures var n := a * 0x100_0000 + r * 0x1_0000 + g * 0x100 + b;
      && n % 0x100 == b && n / 0x100 % 0x100 == g
      && n / 0x100 / 0x100 % 0x100 == r && n / 0x100 / 0x100 / 0x100 == a
  {
    var n := a * 0x100_0000 + r * 0x1_0000 + g * 0x100 + b;
    var q1 := a * 0x1_0000 + r * 0x100 + g;
    var q2 := a * 0x100 + r;
    assert n == 0x100 * q1 + b;
    DivMod256(n, q1, b);
    assert q1 == 0x100 * q2 + g;
    DivMod256(q1, q2, g);
    DivMod256(q2, a, r);
  }

  /** The four base-256 digits of a word value are its four bytes. */
  lemma WordValueDigits(c: bv32)
    ensures WordValue(c) % 0x100 == Blue(c) as int
    ensures WordValue(c) / 0x100 % 0x100 == Green(c) as int
    ensures WordValue(c) / 0x100 / 0x100 % 0x100 == Red(c) as int
    ensures WordValue(c) / 0x100 / 0x100 / 0x100 == Alpha(c) as int
  {
    var a, r, g, b := Alpha(c) as int, Red(c) as int, Green(c) as int, Blue(c) as int;
    assert WordValue(c) == a * 0x100_0000 + r * 0x1_0000 + g * 0x100 + b;
    Base256Digits(a, r, g, b);
  }

  /** The two's-complement bits of a Kotlin `Int` value. */
  function ToBits(x: int32): (c: bv32)
    ensures WordValue(c) == Unsigned(x)
    ensures ToInt(c) == x
  {
    var n := Unsigned(x);
    var q1 := n / 0x100;
    var q2 := q1 / 0x100;
    var q3 := q2 / 0x100;
    Pack(ToByte(q3), ToByte(q2 % 0x100), ToByte(q1 % 0x100), ToByte(n % 0x100))
  }

  /** Reading the bits of an `Int` and writing them back gives the same bits. */
  lemma BitsRoundTrip(c: bv32)
    ensures ToBits(ToInt(c)) == c
  {
    var d := ToBits(ToInt(c));
    assert WordValue(d) == WordValue(c);
    WordValueDigits(c);
    WordValueDigits(d);
    ByteValueInjective(Alpha(d), Alpha(c));
    ByteValueInjective(Red(d), Red(c));
    ByteValueInjective(Green(d), Green(c));
    ByteValueInjective(Blue(d), Blue(c));
    PackChannels(c);
    PackChannels(d);
  }

  lemma ByteValueInjective(a: bv8, b: bv8)
    requires a as int == b as int
    ensures a == b
  {
  }

  // ---------------------------------------------------------------------------
  // modifyAlpha
  // ---------------------------------------------------------------------------

  /**
   * `modifyAlpha(color, alpha: Int)`: keep the low 24 bits of `color` and put
   * `alpha shl 24` on top.  Only the low 8 bits of `alpha` survive the shift.
   */
  function ModifyAlpha(color: bv32, alpha: bv32): (r: bv32)
    ensures Red(r) == Red(color) && Green(r) == Green(color) && Blue(r) == Blue(color)
    ensures Alpha(r) == Blue(alpha)
    ensures 0 <= ToInt(alpha) <= 255 ==> Alpha(r) as int == ToInt(alpha) as int
  {
    (color & 0xFF_FFFF) | (alpha << 24)
  }

  /** Writing alpha twice: the second write wins. */
  lemma LastAlphaWins(color: bv32, a: bv32, b: bv32)
    ensures ModifyAlpha(ModifyAlpha(color, a), b) == ModifyAlpha(color, b)
  {
  }

  /** Writing a colour's own alpha gives the colour back. */
  lemma OwnAlphaIsIdentity(color: bv32)
    ensures ModifyAlpha(color, Alpha(color) as bv32) == color
  {
  }

  /**
   * `alpha shl 24` sets the sign bit of the Kotlin `Int` for alpha >= 128:
   * the result is negative exactly then.
   */
  lemma ModifyAlphaSign(color: bv32, alpha: bv32)
    requires 0 <= ToInt(alpha) <= 255
    ensures ToInt(ModifyAlpha(color, alpha)) < 0 <==> ToInt(alpha) >= 128
  {
    var r := ModifyAlpha(color, alpha);
    assert Alpha(r) == Blue(alpha);
    assert Blue(alpha) >= 0x80 <==> Blue(alpha) as int >= 0x80;
  }

  /** Making an opaque colour from a transparent one. */
  lemma ModifyAlphaExample()
    ensures ModifyAlpha(0x0011_2233, 255) == 0xFF11_2233
  {
  }

  /** Truncation toward zero, as a JVM float-to-int cast does. */
  function Truncate(x: real): (n: int)
    ensures x >= 0.0 ==> n as real <= x < n as real + 1.0
    ensures x < 0.0 ==> n as real - 1.0 < x <= n as real
  {
    if x >= 0.0 then x.Floor else -((-x).Floor)
  }

  /** Kotlin `Float.toInt()`: truncation toward zero, saturating at the Int range. */
  function FloatToInt(x: real): (n: int32)
    ensures -0x8000_0000 as real < x < 0x8000_0000 as real ==> n as int == Truncate(x)
    ensures x >= 0x8000_0000 as real ==> n == 0x7FFF_FFFF
    ensures x <= -0x8000_0000 as real ==> n == -0x8000_0000
  {
    if x >= 0x7FFF_FFFF as real then 0x7FFF_FFFF
    else if x <= -0x8000_0000 as real then -0x8000_0000
    else Truncate(x) as int32
  }

  /**
   * `modifyAlpha(color, alpha: Float)`: the fraction is scaled by 255 and
   * truncated to an Int before the integer overload runs.
   */
  function ModifyAlphaFraction(color: bv32, alpha: real): (r: bv32)
    ensures Red(r) == Red(color) && Green(r) == Green(color) && Blue(r) == Blue(color)
    ensures 0.0 <= alpha <= 1.0 ==> Alpha(r) as int == (255.0 * alpha).Floor
    ensures alpha == 0.0 ==> Alpha(r) == 0
    ensures alpha == 1.0 ==> Alpha(r) == 0xFF
  {
    var n := FloatToInt(255.0 * alpha);
    assert 0.0 <= alpha <= 1.0 ==> 0 <= n <= 255;
    ModifyAlpha(color, ToBits(n))
  }

  // ---------------------------------------------------------------------------
  // hex: "#" + Integer.toHexString
  // ---------------------------------------------------------------------------

  predicate IsLowerHexDigit(ch: char) {
    '0' <= ch <= '9' || 'a' <= ch <= 'f'
  }

  function DigitValue(ch: char): (d: nat)
    requires IsLowerHexDigit(ch)
    ensures d < 16
  {
    if ch <= '9' then ch as int - '0' as int else ch as int - 'a' as int + 10
  }

  function HexDigit(d: nat): (ch: char)
    requires d < 16
    ensures IsLowerHexDigit(ch) && DigitValue(ch) == d
  {
    if d < 10 then ('0' as int + d) as char else ('a' as int + d - 10) as char
  }

  /** Reads a string of lower-case hex digits in base 16. */
  function ParseHex(s: string): nat
    requires forall i :: 0 <= i < |s| ==> IsLowerHexDigit(s[i])
  {
    if s == [] then 0 else 16 * ParseHex(s[..|s| - 1]) + DigitValue(s[|s| - 1])
  }

  function Pow16(k: nat): (p: nat)
    ensures p >= 1
  {
    if k == 0 then 1 else 16 * Pow16(k - 1)
  }

  /**
   * `Integer.toHexString` on an unsigned value: lower-case base-16 digits
   * without leading zeros ("0" for zero).
   */
  function HexDigits(n: nat): (s: string)
    ensures 1 <= |s|
    ensures forall i :: 0 <= i < |s| ==> IsLowerHexDigit(s[i])
    ensures s[0] == '0' <==> n == 0
    ensures n == 0 ==> s == "0"
    ensures ParseHex(s) == n
  {
    if n < 16 then [HexDigit(n)]
    else
      var s := HexDigits(n / 16) + [HexDigit(n % 16)];
      assert s[..|s| - 1] == HexDigits(n / 16);
      s
  }

  /** `|HexDigits(n)|` is the number of base-16 digits of `n`. */
  lemma {:induction false} HexDigitsLength(n: nat, k: nat)
    requires 1 <= k && n < Pow16(k)
    requires k >= 2 ==> Pow16(k - 1) <= n
    ensures |HexDigits(n)| == k
  {
    if k >= 2 {
      HexDigitsLength(n / 16, k - 1);
    }
  }

  lemma {:induction false} HexDigitsAtMost(n: nat, k: nat)
    requires 1 <= k && n < Pow16(k)
    ensures |HexDigits(n)| <= k
  {
    if n >= 16 {
      HexDigitsAtMost(n / 16, k - 1);
    }
  }

  lemma Pow16Values()
    ensures Pow16(7) == 0x1000_0000 && Pow16(8) == TwoTo32
  {
    assert Pow16(4) == 0x1_0000;
  }

  /**
   * `hex()`: '#' then the JDK's unsigned hex rendering of the Int: 1 to 8
   * lower-case digits, no leading zero except for "#0", read back in base 16
   * as the unsigned value of the colour.
   */
  function Hex(c: bv32): (s: string)
    ensures 2 <= |s| <= 9 && s[0] == '#'
    ensures forall i :: 1 <= i < |s| ==> IsLowerHexDigit(s[i])
    ensures s[1] == '0' ==> s == "#0"
    ensures ParseHex(s[1..]) == Unsigned(ToInt(c))
  {
    Pow16Values();
    HexDigitsAtMost(WordValue(c), 8);
    var s := "#" + HexDigits(WordValue(c));
    assert s[1..] == HexDigits(WordValue(c));
    s
  }

  /** Different colours render differently. */
  lemma HexInjective(c: bv32, d: bv32)
    requires Hex(c) == Hex(d)
    ensures c == d
  {
    assert ToInt(c) == ToInt(d);
    BitsRoundTrip(c);
    BitsRoundTrip(d);
  }

  /**
   * The doc comment's "#xxxxxx" shape is not what `hex()` gives for a colour
   * with alpha 0x10 or more: it then has all eight digits.
   */
  lemma HexOfVisibleColourHasEightDigits(c: bv32)
    requires Alpha(c) >= 0x10
    ensures |Hex(c)| == 9
  {
    assert Alpha(c) as int >= 0x10;
    Pow16Values();
    HexDigitsLength(WordValue(c), 8);
  }

  // ---------------------------------------------------------------------------
  // Swatches, palettes and lightness
  // ---------------------------------------------------------------------------

  /** An HSL triple as ColorUtils.colorToHSL fills it: hue, saturation, lightness. */
  datatype Hsl = Hsl(hue: real, saturation: real, lightness: real)

  /**
   * A palette swatch: its colour, its population, its HSL triple and the
   * text its `toString()` gives.
   */
  datatype Swatch = Swatch(rgb: bv32, population: int, hsl: Hsl, text: string)

  /** A generated palette: all its swatches and the six primary target slots. */
  datatype Palette = Palette(
    swatches: seq<Option<Swatch>>,
    vibrant: Option<Swatch>,
    muted: Option<Swatch>,
    darkVibrant: Option<Swatch>,
    darkMuted: Option<Swatch>,
    lightVibrant: Option<Swatch>,
    lightMuted: Option<Swatch>)

  datatype Lightness = Light | Dark | Unknown

  /** `isDark(hsl)`: the lightness component is below one half. */
  predicate IsDarkHsl(hsl: Hsl) {
    hsl.lightness < 0.5
  }

  /** `Swatch.isLightColor()`: the lightness component is above one half. */
  predicate IsLightColor(s: Swatch) {
    s.hsl.lightness > 0.5
  }

  /** `isDark(color)`: convert with the given colour-to-HSL function and test. */
  predicate IsDarkColor(color: bv32, toHsl: bv32 -> Hsl) {
    IsDarkHsl(toHsl(color))
  }

  /** No swatch is both light and dark, and lightness one half is neither. */
  lemma LightAndDarkExclusive(s: Swatch)
    ensures !(IsDarkHsl(s.hsl) && IsLightColor(s))
    ensures s.hsl.lightness == 0.5 ==> !IsDarkHsl(s.hsl) && !IsLightColor(s)
    ensures !IsDarkHsl(s.hsl) && !IsLightColor(s) ==> s.hsl.lightness == 0.5
  {
  }

  /** `primarySwatches()`: the six target slots in their fixed order. */
  function PrimarySwatches(p: Palette): (r: seq<Option<Swatch>>)
    ensures |r| == 6
    ensures r[0] == p.vibrant && r[1] == p.muted
    ensures r[2] == p.darkVibrant && r[3] == p.darkMuted
    ensures r[4] == p.lightVibrant && r[5] == p.lightMuted
  {
    [p.vibrant, p.muted, p.darkVibrant, p.darkMuted, p.lightVibrant, p.lightMuted]
  }

  /** Some primary slot holds a swatch. */
  ghost predicate HasPrimary(p: Palette) {
    exists s :: Some(s) in PrimarySwatches(p)
  }

  /** `s` is a present primary swatch whose population no other present one exceeds. */
  ghost predicate MostPopulous(p: Palette, s: Swatch) {
    && Some(s) in PrimarySwatches(p)
    && forall t :: Some(t) in PrimarySwatches(p) ==> t.population <= s.population
  }

  /** `filter { it != null }`: the present swatches, in order. */
  function Present(xs: seq<Option<Swatch>>): (r: seq<Swatch>)
    ensures forall s :: s in r <==> Some(s) in xs
    ensures |r| <= |xs|
  {
    if xs == [] then []
    else
      var rest := Present(xs[1..]);
      assert forall s :: Some(s) in xs <==> xs[0] == Some(s) || Some(s) in xs[1..];
      match xs[0]
      case None => rest
      case Some(s) => [s] + rest
  }

  /** Filtering keeps order: it works element by element, left to right. */
  lemma {:induction false} PresentAppend(xs: seq<Option<Swatch>>, ys: seq<Option<Swatch>>)
    ensures Present(xs + ys) == Present(xs) + Present(ys)
    decreases |xs|
  {
    if xs != [] {
      assert (xs + ys)[1..] == xs[1..] + ys;
      PresentAppend(xs[1..], ys);
    } else {
      assert xs + ys == ys;
    }
  }

  /** A null is dropped and a swatch is kept. */
  lemma PresentSingleton(s: Swatch)
    ensures Present([None]) == []
    ensures Present([Some(s)]) == [s]
  {
    var absent: seq<Option<Swatch>> := [None];
    var present: seq<Option<Swatch>> := [Some(s)];
    assert absent[1..] == [] && present[1..] == [];
  }

  /**
   * `MathObservable.max` by population.  Which of several equally populous
   * swatches is returned is not specified; this definition keeps the first.
   */
  function MaxByPopulation(xs: seq<Swatch>): (r: Option<Swatch>)
    ensures r.None? <==> xs == []
    ensures r.Some? ==> r.value in xs
    ensures r.Some? ==> forall x :: x in xs ==> x.population <= r.value.population
  {
    if xs == [] then None
    else
      match MaxByPopulation(xs[1..])
      case None => Some(xs[0])
      case Some(m) => if xs[0].population >= m.population then Some(xs[0]) else Some(m)
  }

  /**
   * `getMostPopulousSwatch(palette)`: null for a null palette, otherwise the
   * most populous of the present primary swatches.
   */
  function GetMostPopulousSwatch(palette: Option<Palette>): (r: Option<Swatch>)
    ensures palette.None? ==> r.None?
    ensures palette.Some? ==> (r.None? <==> !HasPrimary(palette.value))
    ensures r.Some? ==> palette.Some? && MostPopulous(palette.value, r.value)
  {
    match palette
    case None => None
    case Some(p) => MaxByPopulation(Present(PrimarySwatches(p)))
  }

  /**
   * `isDark(palette)`: UNKNOWN when no most populous swatch is found,
   * otherwise DARK or LIGHT as that swatch's HSL lightness says.
   */
  function IsDarkPalette(p: Palette): (r: Lightness)
    ensures r == Unknown <==> !HasPrimary(p)
    ensures r != Unknown ==> exists s :: MostPopulous(p, s) && (r == Dark <==> IsDarkHsl(s.hsl))
  {
    match GetMostPopulousSwatch(Some(p))
    case None => Unknown
    case Some(s) => if IsDarkHsl(s.hsl) then Dark else Light
  }

  /** What a call that may throw gives back: a value, or the `NoSuchElementException` it throws. */
  datatype Outcome<+T> = Returned(value: T) | ThrewNoSuchElement

  /**
   * `getMostPopulousSwatch` as written: `MathObservable.max` over an empty
   * stream emits nothing, and `toBlocking().first()` then throws
   * `NoSuchElementException`, so no null ever comes back for a palette.
   */
  function GetMostPopulousSwatchAsWritten(palette: Option<Palette>): (r: Outcome<Option<Swatch>>)
    ensures palette.None? ==> r == Returned(None)
    ensures palette.Some? ==> (r == ThrewNoSuchElement <==> !HasPrimary(palette.value))
    ensures r.Returned? ==> r.value == GetMostPopulousSwatch(palette)
    ensures r.Returned? && palette.Some? ==> r.value.Some?
  {
    match palette
    case None => Returned(None)
    case Some(p) =>
      match MaxByPopulation(Present(PrimarySwatches(p)))
      case None => ThrewNoSuchElement
      case Some(s) => Returned(Some(s))
  }

  /**
   * `isDark(palette)` as written: the `?: return Lightness.UNKNOWN` is never
   * reached, because a palette without primary swatches throws first.
   */
  function IsDarkPaletteAsWritten(p: Palette): (r: Outcome<Lightness>)
    ensures r != Returned(Unknown)
    ensures r == ThrewNoSuchElement <==> !HasPrimary(p)
    ensures r.Returned? ==> r.value == IsDarkPalette(p)
  {
    match GetMostPopulousSwatchAsWritten(Some(p))
    case ThrewNoSuchElement => ThrewNoSuchElement
    case Returned(m) => Returned(if m.Some? && IsDarkHsl(m.value.hsl) then Dark else Light)
  }

  /**
   * A palette with one swatch but every primary slot empty: as written,
   * `isDark(palette)` throws (and so does `isDark(bitmap)`, which calls it
   * because the palette has a swatch), where line 105 means UNKNOWN, and the
   * bitmap test means "not dark".
   */
  lemma NoPrimarySwatchThrowsAsWritten(bitmap: Bitmap, toHsl: bv32 -> Hsl)
    ensures var only := Swatch(0xFF00_0000, 1, Hsl(0.0, 0.0, 0.0), "black");
      var p := Palette([Some(only)], None, None, None, None, None, None);
      && IsDarkPaletteAsWritten(p) == ThrewNoSuchElement
      && IsDarkPalette(p) == Unknown
      && IsDarkBitmap(bitmap, None, None, Some(p), toHsl) == Some(false)
  {
    var only := Swatch(0xFF00_0000, 1, Hsl(0.0, 0.0, 0.0), "black");
    var p := Palette([Some(only)], None, None, None, None, None, None);
    assert !HasPrimary(p);
  }

  /**
   * When one present primary swatch outnumbers every other, it alone decides
   * the palette's lightness, whatever the tie order.
   */
  lemma StrictlyMostPopulousDecides(p: Palette, s: Swatch)
    requires Some(s) in PrimarySwatches(p)
    requires forall t :: Some(t) in PrimarySwatches(p) && t != s ==> t.population < s.population
    ensures IsDarkPalette(p) == if IsDarkHsl(s.hsl) then Dark else Light
  {
    var m := GetMostPopulousSwatch(Some(p));
    assert m.Some?;
    assert m.value == s;
  }

  /** A palette with exactly one present primary swatch takes that swatch's lightness. */
  lemma SinglePrimaryDecides(p: Palette, s: Swatch)
    requires Some(s) in PrimarySwatches(p)
    requires forall t :: Some(t) in PrimarySwatches(p) ==> t == s
    ensures IsDarkPalette(p) == if IsDarkHsl(s.hsl) then Dark else Light
  {
    StrictlyMostPopulousDecides(p, s);
  }

  /** The first swatch in `xs` whose text is `key`. */
  function FirstWithText(xs: seq<Swatch>, key: string): (r: Option<Swatch>)
    ensures r.Some? ==> r.value in xs && r.value.text == key
    ensures r.None? ==> forall x :: x in xs ==> x.text != key
  {
    if xs == [] then None
    else if xs[0].text == key then Some(xs[0])
    else FirstWithText(xs[1..], key)
  }

  /** The index of the first swatch in `xs` whose text is `key`, or `|xs|` if there is none. */
  function FirstIndex(xs: seq<Swatch>, key: string): (i: nat)
    ensures i <= |xs|
    ensures i < |xs| ==> xs[i].text == key
    ensures forall j :: 0 <= j < i ==> xs[j].text != key
  {
    if xs == [] then 0
    else if xs[0].text == key then 0
    else 1 + FirstIndex(xs[1..], key)
  }

  /** Swatches whose texts differ from the head's are found one place later in `xs` than in its tail. */
  lemma FirstIndexPastHead(xs: seq<Swatch>, ys: seq<Swatch>)
    requires xs != []
    requires forall y :: y in ys ==> y.text != xs[0].text
    ensures forall i :: 0 <= i < |ys| ==> FirstIndex(xs, ys[i].text) == 1 + FirstIndex(xs[1..], ys[i].text)
  {
  }

  /** `a` is `b` with some elements left out. */
  ghost predicate IsSubsequence(a: seq<Swatch>, b: seq<Swatch>)
    decreases |b|
  {
    a == [] || (b != [] && ((a[0] == b[0] && IsSubsequence(a[1..], b[1..])) || IsSubsequence(a, b[1..])))
  }

  function Texts(xs: seq<Swatch>): set<string> {
    set x | x in xs :: x.text
  }

  /**
   * `distinct { it.toString() }` after the texts in `seen` were already
   * emitted: each text is kept once, at its first occurrence, in order.
   */
  function DistinctByText(xs: seq<Swatch>, seen: set<string>): (r: seq<Swatch>)
    ensures forall y :: y in r ==> y in xs && y.text !in seen
    ensures forall i, j :: 0 <= i < j < |r| ==> r[i].text != r[j].text
    ensures forall x :: x in xs && x.text !in seen ==> x.text in Texts(r)
    ensures forall y :: y in r ==> FirstWithText(xs, y.text) == Some(y)
    ensures IsSubsequence(r, xs)
  {
    if xs == [] then []
    else if xs[0].text in seen then DistinctByText(xs[1..], seen)
    else
      var rest := DistinctByText(xs[1..], seen + {xs[0].text});
      var r := [xs[0]] + rest;
      assert r[1..] == rest;
      r
  }

  /** The texts in `r` first occur in `xs` in the order in which `r` lists them. */
  predicate InFirstOccurrenceOrder(r: seq<Swatch>, xs: seq<Swatch>) {
    forall i, j :: 0 <= i < j < |r| ==> FirstIndex(xs, r[i].text) < FirstIndex(xs, r[j].text)
  }

  /**
   * Dropping the head of `xs` and perhaps putting it in front of a list
   * ordered by first occurrence in the tail gives a list ordered by first
   * occurrence in `xs`.
   */
  lemma OrderPastHead(xs: seq<Swatch>, r: seq<Swatch>, k: nat, rest: seq<Swatch>)
    requires xs != [] && k <= 1 && k <= |r| && r[k..] == rest
    requires k == 1 ==> r[0] == xs[0]
    requires forall y :: y in rest ==> y.text != xs[0].text
    requires InFirstOccurrenceOrder(rest, xs[1..])
    ensures InFirstOccurrenceOrder(r, xs)
  {
    FirstIndexPastHead(xs, rest);
    forall i, j | 0 <= i < j < |r|
      ensures FirstIndex(xs, r[i].text) < FirstIndex(xs, r[j].text)
    {
      assert r[j] == rest[j - k];
      if i >= k {
        assert r[i] == rest[i - k];
      }
    }
  }

  /** The kept swatches come in the order in which their texts first occur in `xs`. */
  lemma {:induction false} DistinctByTextKeepsFirstOccurrenceOrder(xs: seq<Swatch>, seen: set<string>)
    ensures InFirstOccurrenceOrder(DistinctByText(xs, seen), xs)
    decreases |xs|
  {
    if xs != [] {
      var seen' := if xs[0].text in seen then seen else seen + {xs[0].text};
      var rest := DistinctByText(xs[1..], seen');
      DistinctByTextKeepsFirstOccurrenceOrder(xs[1..], seen');
      var r := DistinctByText(xs, seen);
      var k := if xs[0].text in seen then 0 else 1;
      assert r[k..] == rest;
      assert xs[0].text in seen';
      OrderPastHead(xs, r, k, rest);
    }
  }

  /**
   * `uniqueSwatches()`: the non-null swatches with duplicates by `toString()`
   * removed, keeping the first of each.
   */
  function UniqueSwatches(p: Palette): (r: seq<Swatch>)
    ensures forall y :: y in r ==> Some(y) in p.swatches
    ensures forall i, j :: 0 <= i < j < |r| ==> r[i].text != r[j].text
    ensures forall s :: Some(s) in p.swatches ==> s.text in Texts(r)
    ensures forall y :: y in r ==> FirstWithText(Present(p.swatches), y.text) == Some(y)
    ensures InFirstOccurrenceOrder(r, Present(p.swatches))
  {
    DistinctByTextKeepsFirstOccurrenceOrder(Present(p.swatches), {});
    DistinctByText(Present(p.swatches), {})
  }

  // ---------------------------------------------------------------------------
  // isDark(bitmap): the palette first, a single pixel as the fallback
  // ---------------------------------------------------------------------------

  /** A bitmap: its size and the colour `getPixel(x, y)` reads. */
  datatype Bitmap = Bitmap(width: nat, height: nat, pixel: (int, int) -> bv32)

  predicate InBounds(b: Bitmap, x: int, y: int) {
    0 <= x < b.width && 0 <= y < b.height
  }

  predicate HasSwatches(palette: Option<Palette>) {
    palette.Some? && |palette.value.swatches| > 0
  }

  /**
   * `isDark(bitmap, backupPixelX, backupPixelY)`, given the palette that
   * `Palette.from(bitmap).maximumColorCount(3).generate()` produced.  A
   * palette with swatches decides alone (UNKNOWN counts as not dark);
   * otherwise the backup pixel, by default the centre, decides.  `None`
   * stands for the exception `getPixel` throws outside the bitmap.
   */
  function IsDarkBitmap(bitmap: Bitmap, backupX: Option<int>, backupY: Option<int>,
                        palette: Option<Palette>, toHsl: bv32 -> Hsl): (r: Option<bool>)
    ensures HasSwatches(palette) ==> r == Some(IsDarkPalette(palette.value) == Dark)
    ensures !HasSwatches(palette) ==>
      var x := backupX.GetOr(bitmap.width / 2);
      var y := backupY.GetOr(bitmap.height / 2);
      r == if InBounds(bitmap, x, y) then Some(IsDarkColor(bitmap.pixel(x, y), toHsl)) else None
  {
    if palette != None && |palette.value.swatches| > 0 then
      Some(IsDarkPalette(palette.value) == Dark)
    else
      var x := backupX.GetOr(bitmap.width / 2);
      var y := backupY.GetOr(bitmap.height / 2);
      if InBounds(bitmap, x, y) then Some(IsDarkColor(bitmap.pixel(x, y), toHsl)) else None
  }

  /** A palette with swatches but no primary swatch gives UNKNOWN, which reads as light. */
  lemma UnknownPaletteIsNotDark(bitmap: Bitmap, backupX: Option<int>, backupY: Option<int>,
                                palette: Option<Palette>, toHsl: bv32 -> Hsl)
    requires HasSwatches(palette) && !HasPrimary(palette.value)
    ensures IsDarkBitmap(bitmap, backupX, backupY, palette, toHsl) == Some(false)
  {
  }

  /** With swatches present, neither the pixels nor the backup coordinates matter. */
  lemma PaletteDecidesAlone(b1: Bitmap, b2: Bitmap, x1: Option<int>, y1: Option<int>,
                            x2: Option<int>, y2: Option<int>, palette: Option<Palette>,
                            toHsl: bv32 -> Hsl)
    requires HasSwatches(palette)
    ensures IsDarkBitmap(b1, x1, y1, palette, toHsl) == IsDarkBitmap(b2, x2, y2, palette, toHsl)
  {
  }

  /** Without swatches, the default backup pixel is the centre, which is always inside. */
  lemma CentrePixelFallback(bitmap: Bitmap, palette: Option<Palette>, toHsl: bv32 -> Hsl)
    requires !HasSwatches(palette)
    requires bitmap.width >= 1 && bitmap.height >= 1
    ensures IsDarkBitmap(bitmap, None, None, palette, toHsl)
      == Some(IsDarkColor(bitmap.pixel(bitmap.width / 2, bitmap.height / 2), toHsl))
  {
  }

  // ---------------------------------------------------------------------------
  // constrain and scrimify
  // ---------------------------------------------------------------------------

  function MaxReal(a: real, b: real): real { if a >= b then a else b }
  function MinReal(a: real, b: real): real { if a <= b then a else b }

  /** `constrain(min, max, v)`: `Math.max(min, Math.min(max, v))`. */
  function Constrain(min: real, max: real, v: real): (r: real)
    ensures min <= max ==> min <= r <= max
    ensures min <= v <= max ==> r == v
    ensures min <= max && v < min ==> r == min
    ensures min <= max && max < v ==> r == max
    ensures max < min ==> r == min
  {
    MaxReal(min, MinReal(max, v))
  }

  /**
   * The lightness `scrimify` writes back: multiplied by 1 + m for a light
   * colour, by 1 - m for a dark one, then constrained to [0, 1].
   */
  function ScrimLightness(lightness: real, multiplier: real, isDark: bool): (r: real)
    ensures 0.0 <= r <= 1.0
  {
    var factor := if !isDark then multiplier + 1.0 else 1.0 - multiplier;
    Constrain(0.0, 1.0, lightness * factor)
  }

  /** A light colour never gets darker, a dark one never lighter. */
  lemma ScrimDirection(lightness: real, multiplier: real, isDark: bool)
    requires 0.0 <= lightness <= 1.0 && 0.0 <= multiplier <= 1.0
    ensures !isDark ==> ScrimLightness(lightness, multiplier, isDark) >= lightness
    ensures isDark ==> ScrimLightness(lightness, multiplier, isDark) <= lightness
  {
    if !isDark {
      assert lightness * (multiplier + 1.0) == lightness * multiplier + lightness;
      assert lightness * multiplier >= 0.0;
    } else {
      assert lightness * (1.0 - multiplier) == lightness - lightness * multiplier;
      assert lightness * multiplier >= 0.0;
    }
  }

  /**
   * With a positive multiplier the change is strict unless the lightness is
   * already at the bound it is pushed toward.
   */
  lemma ScrimDirectionStrict(lightness: real, multiplier: real, isDark: bool)
    requires 0.0 < lightness < 1.0 && 0.0 < multiplier <= 1.0
    ensures !isDark ==> ScrimLightness(lightness, multiplier, isDark) > lightness
    ensures isDark ==> ScrimLightness(lightness, multiplier, isDark) < lightness
  {
    assert lightness * multiplier > 0.0;
    if !isDark {
      assert lightness * (multiplier + 1.0) == lightness * multiplier + lightness;
    } else {
      assert lightness * (1.0 - multiplier) == lightness - lightness * multiplier;
    }
  }

  /** The HSL triple `scrimify` converts back: hue and saturation kept. */
  function ScrimHsl(hsl: Hsl, multiplier: real, isDark: bool): (r: Hsl)
    ensures r.hue == hsl.hue && r.saturation == hsl.saturation
    ensures 0.0 <= r.lightness <= 1.0
  {
    hsl.(lightness := ScrimLightness(hsl.lightness, multiplier, isDark))
  }

  /**
   * `scrimify(color, isDark, lightnessMultiplierInput)`: convert to HSL into
   * a fresh array, adjust the multiplier by the colour's darkness (computed
   * from the colour when the caller gives none), rewrite the lightness in
   * place and convert back.
   */
  method Scrimify(color: bv32, isDark: Option<bool>, lightnessMultiplierInput: real,
                  toHsl: bv32 -> Hsl, fromHsl: Hsl -> bv32) returns (r: bv32)
    ensures r == fromHsl(ScrimHsl(toHsl(color), lightnessMultiplierInput,
                                  isDark.GetOr(IsDarkColor(color, toHsl))))
  {
    var dark := isDark.GetOr(IsDarkColor(color, toHsl));
    var lightnessMultiplier := lightnessMultiplierInput;
    var converted := toHsl(color);
    var hsl := new real[3];
    hsl[0], hsl[1], hsl[2] := converted.hue, converted.saturation, converted.lightness;

    if !dark {
      lightnessMultiplier := lightnessMultiplier + 1.0;
    } else {
      lightnessMultiplier := 1.0 - lightnessMultiplier;
    }

    assert lightnessMultiplier == if !dark then lightnessMultiplierInput + 1.0 else 1.0 - lightnessMultiplierInput;
    hsl[2] := Constrain(0.0, 1.0, hsl[2] * lightnessMultiplier);
    assert hsl[2] == ScrimLightness(converted.lightness, lightnessMultiplierInput, dark);
    r := fromHsl(Hsl(hsl[0], hsl[1], hsl[2]));
  }

  // ---------------------------------------------------------------------------
  // createColorSelector
  // ---------------------------------------------------------------------------

  /** `Build.VERSION_CODES.LOLLIPOP`, the first platform version with ripples. */
  const Lollipop: int := 21

  /** Fade duration, in milliseconds, of the legacy selector. */
  const FadeMs: int := 200

  datatype State = StatePressed | StateFocused

  /** The drawables this model builds, plus any other drawable a caller passes as a mask. */
  datatype Drawable =
    | ColorDrawable(color: bv32)
    | RippleDrawable(rippleColor: bv32, content: Option<Drawable>, mask: Option<Drawable>)
    | StateListDrawable(enterFadeMs: int, exitFadeMs: int, entries: seq<StateEntry>)
    | OtherDrawable(id: nat)

  /** One `addState(stateSet, drawable)` entry. */
  datatype StateEntry = StateEntry(stateSet: seq<State>, drawable: Option<Drawable>)

  /**
   * The drawable a state list shows for the `current` states: the first entry
   * all of whose states are current (an empty state set matches anything).
   */
  function ShownDrawable(entries: seq<StateEntry>, current: set<State>): Option<Drawable> {
    if entries == [] then None
    else if forall i :: 0 <= i < |entries[0].stateSet| ==> entries[0].stateSet[i] in current then
      entries[0].drawable
    else ShownDrawable(entries[1..], current)
  }

  /**
   * `createColorSelector(color, mask)` on a platform at version `sdkInt`:
   * a ripple from Lollipop on; before that a pressed/focused state list when
   * there is no mask, and null when there is one.
   */
  function CreateColorSelector(sdkInt: int, color: bv32, mask: Option<Drawable>): (r: Option<Drawable>)
    ensures r.None? <==> sdkInt < Lollipop && mask.Some?
    ensures sdkInt >= Lollipop ==> r == Some(RippleDrawable(color, None, mask))
    ensures sdkInt < Lollipop && mask.None? ==>
      && r.Some? && r.value.StateListDrawable?
      && r.value.enterFadeMs == FadeMs && r.value.exitFadeMs == FadeMs
      && r.value.entries == [StateEntry([StatePressed], Some(ColorDrawable(color))),
                             StateEntry([StateFocused], Some(ColorDrawable(color))),
                             StateEntry([], None)]
  {
    if sdkInt >= Lollipop then
      Some(RippleDrawable(color, None, mask))
    else if mask.None? then
      var colorDrawable := ColorDrawable(color);
      var entries := [StateEntry([StatePressed], Some(colorDrawable))]
        + [StateEntry([StateFocused], Some(colorDrawable))]
        + [StateEntry([], None)];
      Some(StateListDrawable(FadeMs, FadeMs, entries))
    else
      None
  }

  /**
   * The legacy selector shows the colour exactly while the view is pressed
   * or focused, and nothing otherwise.
   */
  lemma LegacySelectorShowsColorWhenPressedOrFocused(sdkInt: int, color: bv32, current: set<State>)
    requires sdkInt < Lollipop
    ensures CreateColorSelector(sdkInt, color, None).Some?
    ensures ShownDrawable(CreateColorSelector(sdkInt, color, None).value.entries, current)
      == if StatePressed in current || StateFocused in current then Some(ColorDrawable(color)) else None
  {
    var shown := Some(ColorDrawable(color));
    var entries := CreateColorSelector(sdkInt, color, None).value.entries;
    var focusedOn := [StateEntry([StateFocused], shown), StateEntry([], None)];
    var fallback := [StateEntry([], None)];
    assert entries[1..] == focusedOn && focusedOn[1..] == fallback;
    assert ShownDrawable(fallback, current) == None;
    if StatePressed in current {
      assert ShownDrawable(entries, current) == shown;
    } else {
      assert !(entries[0].stateSet[0] in current);
      assert ShownDrawable(entries, current) == ShownDrawable(focusedOn, current);
      if StateFocused in current {
        assert ShownDrawable(focusedOn, current) == shown;
      } else {
        assert !(focusedOn[0].stateSet[0] in current);
      }
    }
  }
}
