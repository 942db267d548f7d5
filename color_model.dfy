/**
 * The conversions of `ColorUtils` (src/color/color-parser.js, repeated in
 * extension.js): hex <-> RGB, RGB <-> HSL, RGB <-> HSV and RGB <-> CMYK.
 *
 * The JavaScript works on doubles; here every intermediate value is an exact
 * `real` and `Math.round(x)` is `Floor(x + 1/2)`. Channels captured by the
 * grammar or produced by a conversion are integers, so the functions take
 * `int`s. Where the JavaScript can produce a non-finite number (NaN from
 * `parseInt`, +Infinity from a division by zero) the result says so with `Num`.
 */
module ColorModel {

  import opened Wrappers
  import opened Text

  /** A JavaScript number as the conversions can produce it. */
  datatype Num = Fin(n: int) | Infinity | NaN

  /** `hexToRgb`'s result: each channel is `parseInt(…, 16)`, NaN written `None`. */
  datatype HexChannels = HexChannels(r: Option<int>, g: Option<int>, b: Option<int>)

  datatype Rgb = Rgb(r: int, g: int, b: int)

  /** Saturation is the one HSL component that can be +Infinity. */
  datatype Hsl = Hsl(h: int, s: Num, l: int)

  datatype Hsv = Hsv(h: int, s: int, v: int)

  datatype Cmyk = Cmyk(c: int, m: int, y: int, k: int)

  /** `Math.round`: halves go up. */
  function Round(x: real): int
  {
    (x + 0.5).Floor
  }

  function Max3(a: real, b: real, c: real): real
  {
    if a >= b && a >= c then a else if b >= c then b else c
  }

  function Min3(a: real, b: real, c: real): real
  {
    if a <= b && a <= c then a else if b <= c then b else c
  }

  /** `hex.split('').map(c => c + c).join('')` */
  function DoubleEach(s: string): (r: string)
    ensures |r| == 2 * |s|
    ensures forall i :: 0 <= i < |r| ==> r[i] == s[i / 2]
  {
    seq(2 * |s|, i requires 0 <= i < 2 * |s| => s[i / 2])
  }

  /**
   * `hexToRgb`: drop the first `#`, expand a 3-character rest by doubling
   * each character, then read characters 0-2, 2-4 and 4-6 with `parseInt(…, 16)`.
   */
  function HexToRgb(hex: string): (c: HexChannels)
    ensures c.r.Some? ==> -15 <= c.r.value <= 255
    ensures c.g.Some? ==> -15 <= c.g.value <= 255
    ensures c.b.Some? ==> -15 <= c.b.value <= 255
  {
    var h0 := RemoveFirst(hex, '#');
    var h := if |h0| == 3 then DoubleEach(h0) else h0;
    HexChannels(ParseIntHex(Substring(h, 0, 2)), ParseIntHex(Substring(h, 2, 4)), ParseIntHex(Substring(h, 4, 6)))
  }

  function Clamp255(x: int): int
  {
    if x < 0 then 0 else if x > 255 then 255 else x
  }

  /** One channel of `rgbToHex`: round (the identity on integers), clamp, two lower-case hex digits. */
  function HexByte(x: int): string
  {
    var c := Clamp255(x);
    [HexChar(c / 16), HexChar(c % 16)]
  }

  /** `rgbToHex`: always `#` and six lower-case hex digits, whatever the channels. */
  function RgbToHex(r: int, g: int, b: int): (hex: string)
    ensures |hex| == 7 && hex[0] == '#'
    ensures forall i :: 1 <= i < 7 ==> IsLowerHexDigit(hex[i])
  {
    "#" + HexByte(r) + HexByte(g) + HexByte(b)
  }

  /**
   * The hue of `rgbToHsl`/`rgbToHsv` before rounding, in degrees: the
   * `switch (max)` tests r, then g, then b.
   */
  function RawHue(r: real, g: real, b: real, max: real, d: real): real
    requires d != 0.0
  {
    var h :=
      if max == r then (g - b) / d + (if g < b then 6.0 else 0.0)
      else if max == g then (b - r) / d + 2.0
      else (r - g) / d + 4.0;
    h * 60.0
  }

  /** `rgbToHsl` */
  function RgbToHsl(r: int, g: int, b: int): (c: Hsl)
    ensures r == g == b ==> c.h == 0 && c.s == Fin(0)
  {
    var R, G, B := r as real / 255.0, g as real / 255.0, b as real / 255.0;
    var max, min := Max3(R, G, B), Min3(R, G, B);
    var l := (max + min) / 2.0;
    if max == min then Hsl(0, Fin(0), Round(l * 100.0))
    else
      var d := max - min;
      var den := if l > 0.5 then 2.0 - max - min else max + min;
      var s := if den == 0.0 then Infinity else Fin(Round(d / den * 100.0));
      Hsl(Round(RawHue(R, G, B, max, d)), s, Round(l * 100.0))
  }

  /** The linear ramp `p + (q - p) * u` that both slopes of `hue2rgb` use. */
  function Lerp(p: real, q: real, u: real): real
  {
    p + (q - p) * u
  }

  /**
   * `hue2rgb` inside `hslToRgb`: one wrap of `t` into [0, 1], then the
   * piecewise ramp, rising on [0, 1/6) and falling on [1/2, 2/3).
   */
  function HueToChannel(p: real, q: real, t0: real): real
  {
    var t1 := if t0 < 0.0 then t0 + 1.0 else t0;
    var t := if t1 > 1.0 then t1 - 1.0 else t1;
    if t < 1.0 / 6.0 then Lerp(p, q, 6.0 * t)
    else if t < 1.0 / 2.0 then q
    else if t < 2.0 / 3.0 then Lerp(p, q, (2.0 / 3.0 - t) * 6.0)
    else p
  }

  /** `hslToRgb` */
  function HslToRgb(h: int, s: int, l: int): (c: Rgb)
    ensures s == 0 ==> c.r == c.g == c.b
  {
    var S, L := s as real / 100.0, l as real / 100.0;
    if S == 0.0 then
      Rgb(Round(L * 255.0), Round(L * 255.0), Round(L * 255.0))
    else
      HslChannels(S, L, h as real / 360.0)
  }

  /**
   * The chromatic part of `hslToRgb`: the ramp from `p` to `q`, then the three
   * `hue2rgb` calls a third of a turn apart, scaled to bytes.
   */
  function HslChannels(S: real, L: real, H: real): Rgb
  {
    var q := if L < 0.5 then L * (1.0 + S) else L + S - L * S;
    var p := 2.0 * L - q;
    Rgb(Round(HueToChannel(p, q, H + 1.0 / 3.0) * 255.0),
        Round(HueToChannel(p, q, H) * 255.0),
        Round(HueToChannel(p, q, H - 1.0 / 3.0) * 255.0))
  }

  /** `rgbToHsv` */
  function RgbToHsv(r: int, g: int, b: int): (c: Hsv)
    ensures r == g == b ==> c.h == 0 && c.s == 0
  {
    var R, G, B := r as real / 255.0, g as real / 255.0, b as real / 255.0;
    var max, min := Max3(R, G, B), Min3(R, G, B);
    var d := max - min;
    var s := if max == 0.0 then 0.0 else d / max;
    var h := if max == min then 0.0 else RawHue(R, G, B, max, d);
    Hsv(Round(h), Round(s * 100.0), Round(max * 100.0))
  }

  /** `hsvToRgb`, on the hue in sixths of a turn. */
  function HsvToRgb(h: nat, s: int, v: int): (c: Rgb)
    ensures s == 0 ==> c.r == c.g == c.b
  {
    HsvChannels(s as real / 100.0, v as real / 100.0, h as real / 60.0)
  }

  /** Sector `floor(x) % 6` and fraction `x - floor(x)`. */
  function HsvChannels(S: real, V: real, x: real): Rgb
  {
    HsvSector(x.Floor % 6, S, V, x - x.Floor as real)
  }

  /** `p`, `q`, `t` and the `switch (i % 6)` of `hsvToRgb`, scaled to bytes. */
  function HsvSector(sector: int, S: real, V: real, f: real): Rgb
  {
    var p := V * (1.0 - S);
    var q := V * (1.0 - S * f);
    var t := V * (1.0 - S * (1.0 - f));
    var c := SectorColor(sector, V, p, q, t);
    Rgb(Round(c.0 * 255.0), Round(c.1 * 255.0), Round(c.2 * 255.0))
  }

  function SectorColor(sector: int, v: real, p: real, q: real, t: real): (real, real, real)
  {
    if sector == 0 then (v, t, p)
    else if sector == 1 then (q, v, p)
    else if sector == 2 then (p, v, t)
    else if sector == 3 then (p, q, v)
    else if sector == 4 then (t, p, v)
    else (v, p, q)
  }

  /** `rgbToCmyk`: full black (k = 1) is answered before the division by 1 - k. */
  function RgbToCmyk(r: int, g: int, b: int): (c: Cmyk)
    ensures r == g == b == 0 ==> c == Cmyk(0, 0, 0, 100)
  {
    var R, G, B := r as real / 255.0, g as real / 255.0, b as real / 255.0;
    var k := 1.0 - Max3(R, G, B);
    if k == 1.0 then Cmyk(0, 0, 0, 100)
    else
      Cmyk(Round((1.0 - R - k) / (1.0 - k) * 100.0),
           Round((1.0 - G - k) / (1.0 - k) * 100.0),
           Round((1.0 - B - k) / (1.0 - k) * 100.0),
           Round(k * 100.0))
  }

  /** `cmykToRgb` */
  function CmykToRgb(c: int, m: int, y: int, k: int): (rgb: Rgb)
    ensures k == 100 ==> rgb == Rgb(0, 0, 0)
  {
    var C, M, Y, K := c as real / 100.0, m as real / 100.0, y as real / 100.0, k as real / 100.0;
    Rgb(Round(255.0 * (1.0 - C) * (1.0 - K)),
        Round(255.0 * (1.0 - M) * (1.0 - K)),
        Round(255.0 * (1.0 - Y) * (1.0 - K)))
  }

  // ---------------------------------------------------------------------
  // Hex

  /** `parseInt` of two hex digits is their value. */
  lemma ParseTwoHexDigits(s: string, v: int)
    requires |s| == 2 && IsHexDigit(s[0]) && IsHexDigit(s[1])
    requires v == 16 * HexDigitValue(s[0]) + HexDigitValue(s[1])
    ensures ParseIntHex(s) == Some(v)
  {
    assert !IsSpace(s[0]);
    assert TrimStart(s) == s;
    assert s[0] != '-' && s[0] != '+' && s[1] != 'x' && s[1] != 'X';
    assert HexRun(s[1..]) == 1 by {
      assert HexRun(s[1..][1..]) == 0;
    }
    assert HexRun(s) == 2;
    assert s[..2] == s;
    assert HexValue(s[..1]) == HexDigitValue(s[0]) by {
      assert s[..1][..0] == [];
    }
    assert HexValue(s) == 16 * HexValue(s[..1]) + HexDigitValue(s[1]);
  }

  lemma HexByteParses(x: int)
    requires 0 <= x <= 255
    ensures ParseIntHex(HexByte(x)) == Some(x)
  {
    HexByteDigits(x);
    ParseTwoHexDigits(HexByte(x), x);
  }

  lemma HexByteDigits(x: int)
    requires 0 <= x <= 255
    ensures var s := HexByte(x);
      && |s| == 2 && IsHexDigit(s[0]) && IsHexDigit(s[1])
      && 16 * HexDigitValue(s[0]) + HexDigitValue(s[1]) == x
  {
    var hi, lo := x / 16, x % 16;
    assert HexByte(x) == [HexChar(hi), HexChar(lo)];
    assert 16 * hi + lo == x;
  }

  /** Channels 0-255 survive the trip through `rgbToHex` and back through `hexToRgb`. */
  lemma {:induction false} HexRoundTrip(r: int, g: int, b: int)
    requires 0 <= r <= 255 && 0 <= g <= 255 && 0 <= b <= 255
    ensures HexToRgb(RgbToHex(r, g, b)) == HexChannels(Some(r), Some(g), Some(b))
  {
    var body := HexByte(r) + HexByte(g) + HexByte(b);
    assert RgbToHex(r, g, b) == "#" + body;
    assert RemoveFirst("#" + body, '#') == body;
    assert Substring(body, 0, 2) == HexByte(r);
    assert Substring(body, 2, 4) == HexByte(g);
    assert Substring(body, 4, 6) == HexByte(b);
    HexByteParses(r);
    HexByteParses(g);
    HexByteParses(b);
  }

  /** The clamp in `rgbToHex`: a channel above 255 renders as `ff`, one below 0 as `00`. */
  lemma RgbToHexClamps(r: int, g: int, b: int)
    ensures RgbToHex(r, g, b) == RgbToHex(Clamp255(r), Clamp255(g), Clamp255(b))
    ensures r >= 255 ==> RgbToHex(r, g, b)[1..3] == "ff"
    ensures r <= 0 ==> RgbToHex(r, g, b)[1..3] == "00"
    ensures RgbToHex(999, -5, 0) == "#ff0000"
  {
  }

  lemma RemoveFirstAbsent(s: string, x: char)
    requires x !in s
    ensures RemoveFirst(s, x) == s
  {
    if s != [] {
      RemoveFirstAbsent(s[1..], x);
    }
  }

  /**
   * `hexToRgb` doubles each character of a 3-character rest, so `#abc` and
   * `#aabbcc` read the same channels.
   */
  lemma {:induction false} ShortHexExpands(w: string)
    requires |w| == 3 && '#' !in w
    ensures HexToRgb("#" + w) == HexToRgb("#" + DoubleEach(w))
  {
    assert RemoveFirst("#" + w, '#') == w;
    assert RemoveFirst("#" + DoubleEach(w), '#') == DoubleEach(w);
  }

  lemma ShortHexExample()
    ensures HexToRgb("#abc") == HexToRgb("#aabbcc") == HexChannels(Some(170), Some(187), Some(204))
  {
    ShortHexExpands("abc");
    AaBbCc();
    HexRoundTrip(170, 187, 204);
  }

  lemma AaBbCc()
    ensures DoubleEach("abc") == "aabbcc"
    ensures RgbToHex(170, 187, 204) == "#aabbcc"
  {
    assert HexByte(170) == "aa";
    assert HexByte(187) == "bb";
    assert HexByte(204) == "cc";
  }

  // ---------------------------------------------------------------------
  // Arithmetic helpers

  lemma RoundWithin(x: real, lo: int, hi: int)
    requires lo as real <= x <= hi as real
    ensures lo <= Round(x) <= hi
  {
  }

  lemma QuotientWithin(x: real, d: real)
    requires d > 0.0 && -d <= x <= d
    ensures -1.0 <= x / d <= 1.0
    ensures x >= 0.0 ==> x / d >= 0.0
    ensures x < 0.0 ==> x / d < 0.0
  {
    var q := x / d;
    assert q * d == x;
  }

  lemma {:induction false} RawHueWithin(r: real, g: real, b: real, d: real)
    requires 0.0 <= r <= 1.0 && 0.0 <= g <= 1.0 && 0.0 <= b <= 1.0
    requires d == Max3(r, g, b) - Min3(r, g, b) && d > 0.0
    ensures 0.0 <= RawHue(r, g, b, Max3(r, g, b), d) <= 360.0
  {
    var max := Max3(r, g, b);
    if max == r {
      QuotientWithin(g - b, d);
    } else if max == g {
      QuotientWithin(b - r, d);
    } else {
      QuotientWithin(r - g, d);
    }
  }

  // ---------------------------------------------------------------------
  // HSL

  /** Equal channels: hue and saturation 0, lightness `round(r * 100 / 255)`. */
  lemma RgbToHslAchromatic(v: int)
    ensures RgbToHsl(v, v, v) == Hsl(0, Fin(0), Round(v as real * 100.0 / 255.0))
  {
  }

  /**
   * For channels in 0-255 saturation is finite: every component is in range;
   * hue is in [0, 360], both ends included.
   */
  lemma {:induction false} RgbToHslRange(r: int, g: int, b: int)
    requires 0 <= r <= 255 && 0 <= g <= 255 && 0 <= b <= 255
    ensures var hsl := RgbToHsl(r, g, b);
      && 0 <= hsl.h <= 360
      && hsl.s.Fin? && 0 <= hsl.s.n <= 100
      && 0 <= hsl.l <= 100
  {
    var R, G, B := r as real / 255.0, g as real / 255.0, b as real / 255.0;
    var max, min := Max3(R, G, B), Min3(R, G, B);
    var l := (max + min) / 2.0;
    RoundWithin(l * 100.0, 0, 100);
    if max != min {
      var d := max - min;
      var den := if l > 0.5 then 2.0 - max - min else max + min;
      assert 0.0 < d <= den;
      QuotientWithin(d, den);
      RoundWithin(d / den * 100.0, 0, 100);
      RawHueWithin(R, G, B, d);
      RoundWithin(RawHue(R, G, B, max, d), 0, 360);
    }
  }

  /** Hue 360 is reachable after rounding: (255, 0, 1) sits 0.24 degrees below it. */
  lemma HslHue360()
    ensures RgbToHsl(255, 0, 1).h == 360
  {
    var R, G, B := 1.0, 0.0, 1.0 / 255.0;
    assert RawHue(R, G, B, 1.0, 1.0) == (6.0 - 1.0 / 255.0) * 60.0;
  }

  /** Out-of-range channels reach the division by zero: `rgb(510, 0, 0)` has infinite saturation. */
  lemma HslInfiniteSaturation()
    ensures RgbToHsl(510, 0, 0).s == Infinity
  {
  }

  /** Saturation 0: three equal channels `round(l * 255 / 100)`. */
  lemma HslToRgbGray(h: int, l: int)
    ensures HslToRgb(h, 0, l) == Rgb(Round(l as real * 255.0 / 100.0), Round(l as real * 255.0 / 100.0), Round(l as real * 255.0 / 100.0))
  {
  }

  lemma LerpBetween(p: real, q: real, u: real)
    requires p <= q && 0.0 <= u <= 1.0
    ensures p <= Lerp(p, q, u) <= q
  {
    var d := q - p;
    ProductWithin(d, u);
    var m := d * u;
    assert Lerp(p, q, u) == p + m;
  }

  /** With `0 <= p <= q`, every value of the ramp lies between its ends. */
  lemma {:induction false} HueToChannelBetween(p: real, q: real, t0: real)
    requires 0.0 <= p <= q && -1.0 <= t0
    ensures p <= HueToChannel(p, q, t0) <= q
  {
    var t1 := if t0 < 0.0 then t0 + 1.0 else t0;
    var t := if t1 > 1.0 then t1 - 1.0 else t1;
    if t < 1.0 / 6.0 {
      LerpBetween(p, q, 6.0 * t);
    } else if t < 1.0 / 2.0 {
    } else if t < 2.0 / 3.0 {
      LerpBetween(p, q, (2.0 / 3.0 - t) * 6.0);
    }
  }

  /** The two ends `p <= q` of the ramp in `hslToRgb` lie in [0, 1]. */
  lemma HslRamp(L: real, S: real)
    requires 0.0 <= L <= 1.0 && 0.0 < S <= 1.0
    ensures var q := if L < 0.5 then L * (1.0 + S) else L + S - L * S;
      0.0 <= 2.0 * L - q <= q <= 1.0
  {
    if L < 0.5 {
      ProductWithin(L, S);
      var m := L * S;
      assert L * (1.0 + S) == L + m;
    } else {
      var w := 1.0 - L;
      ProductWithin(w, S);
      var m := w * S;
      assert L + S - L * S == L + m;
    }
  }

  lemma ProductWithin(x: real, f: real)
    requires x >= 0.0 && 0.0 <= f <= 1.0
    ensures 0.0 <= x * f <= x
  {
    assert x * f <= x * 1.0 by {
      assert x * (1.0 - f) >= 0.0;
    }
  }

  /**
   * Any hue from 0 up with saturation and lightness 0-100 gives channels
   * 0-255: the hex clamp is not needed. A hue past 360 is not reduced, and
   * `hue2rgb` only wraps by one turn, but the part past the turn lands on
   * the low end of the ramp.
   */
  lemma {:induction false} HslToRgbRange(h: int, s: int, l: int)
    requires 0 <= h && 0 <= s <= 100 && 0 <= l <= 100
    ensures var rgb := HslToRgb(h, s, l);
      0 <= rgb.r <= 255 && 0 <= rgb.g <= 255 && 0 <= rgb.b <= 255
  {
    if s == 0 {
      RoundWithin(l as real / 100.0 * 255.0, 0, 255);
    } else {
      HslChannelsRange(s as real / 100.0, l as real / 100.0, h as real / 360.0);
    }
  }

  lemma HslChannelsRange(S: real, L: real, H: real)
    requires 0.0 < S <= 1.0 && 0.0 <= L <= 1.0 && 0.0 <= H
    ensures var rgb := HslChannels(S, L, H);
      0 <= rgb.r <= 255 && 0 <= rgb.g <= 255 && 0 <= rgb.b <= 255
  {
    HslRamp(L, S);
    var q := if L < 0.5 then L * (1.0 + S) else L + S - L * S;
    var p := 2.0 * L - q;
    ChannelByteRange(p, q, H + 1.0 / 3.0);
    ChannelByteRange(p, q, H);
    ChannelByteRange(p, q, H - 1.0 / 3.0);
  }

  lemma ChannelByteRange(p: real, q: real, t: real)
    requires 0.0 <= p <= q <= 1.0 && -1.0 <= t
    ensures 0 <= Round(HueToChannel(p, q, t) * 255.0) <= 255
  {
    HueToChannelBetween(p, q, t);
    var x := HueToChannel(p, q, t);
    RoundWithin(x * 255.0, 0, 255);
  }

  // ---------------------------------------------------------------------
  // HSV

  /** Value is `round(max * 100 / 255)`; saturation is 0 when the maximum is 0; hue is 0 for equal channels. */
  lemma RgbToHsvFacts(r: int, g: int, b: int)
    ensures RgbToHsv(r, g, b).v == Round(Max3(r as real, g as real, b as real) * 100.0 / 255.0)
    ensures Max3(r as real, g as real, b as real) == 0.0 ==> RgbToHsv(r, g, b).s == 0
    ensures r == g == b ==> RgbToHsv(r, g, b).h == 0
  {
  }

  /** For channels in 0-255: hue in [0, 360], saturation and value in [0, 100]. */
  lemma {:induction false} RgbToHsvRange(r: int, g: int, b: int)
    requires 0 <= r <= 255 && 0 <= g <= 255 && 0 <= b <= 255
    ensures var hsv := RgbToHsv(r, g, b);
      0 <= hsv.h <= 360 && 0 <= hsv.s <= 100 && 0 <= hsv.v <= 100
  {
    var R, G, B := r as real / 255.0, g as real / 255.0, b as real / 255.0;
    var max, min := Max3(R, G, B), Min3(R, G, B);
    var d := max - min;
    RoundWithin(max * 100.0, 0, 100);
    if max != 0.0 {
      QuotientWithin(d, max);
      RoundWithin(d / max * 100.0, 0, 100);
    }
    if max != min {
      RawHueWithin(R, G, B, d);
      RoundWithin(RawHue(R, G, B, max, d), 0, 360);
    }
  }

  /** Saturation 0: three equal channels `round(v * 255 / 100)`. */
  lemma HsvToRgbGray(h: nat, v: int)
    ensures HsvToRgb(h, 0, v) == Rgb(Round(v as real * 255.0 / 100.0), Round(v as real * 255.0 / 100.0), Round(v as real * 255.0 / 100.0))
  {
  }

  /** The sector is `floor(h / 60) % 6`, so a full turn of hue changes nothing. */
  lemma {:induction false} HsvToRgbPeriodic(h: nat, s: int, v: int)
    ensures HsvToRgb(h + 360, s, v) == HsvToRgb(h, s, v)
  {
    var x := h as real / 60.0;
    assert (h + 360) as real / 60.0 == x + 6.0;
    HsvChannelsPeriodic(s as real / 100.0, v as real / 100.0, x);
  }

  lemma HsvChannelsPeriodic(S: real, V: real, x: real)
    ensures HsvChannels(S, V, x + 6.0) == HsvChannels(S, V, x)
  {
    var i := x.Floor;
    assert (x + 6.0).Floor == i + 6;
    assert (i + 6) % 6 == i % 6;
    assert x + 6.0 - (i + 6) as real == x - i as real;
  }

  /** Saturation and value 0-100 give channels 0-255, at any hue. */
  lemma {:induction false} HsvToRgbRange(h: nat, s: int, v: int)
    requires 0 <= s <= 100 && 0 <= v <= 100
    ensures var rgb := HsvToRgb(h, s, v);
      0 <= rgb.r <= 255 && 0 <= rgb.g <= 255 && 0 <= rgb.b <= 255
  {
    var x := h as real / 60.0;
    HsvSectorRange(x.Floor % 6, s as real / 100.0, v as real / 100.0, x - x.Floor as real);
  }

  lemma HsvSectorRange(sector: int, S: real, V: real, f: real)
    requires 0.0 <= S <= 1.0 && 0.0 <= V <= 1.0 && 0.0 <= f <= 1.0
    ensures var rgb := HsvSector(sector, S, V, f);
      0 <= rgb.r <= 255 && 0 <= rgb.g <= 255 && 0 <= rgb.b <= 255
  {
    HsvRamp(V, S, f);
    SectorColorRange(sector, V, V * (1.0 - S), V * (1.0 - S * f), V * (1.0 - S * (1.0 - f)));
  }

  lemma SectorColorRange(sector: int, v: real, p: real, q: real, t: real)
    requires 0.0 <= v <= 1.0 && 0.0 <= p <= 1.0 && 0.0 <= q <= 1.0 && 0.0 <= t <= 1.0
    ensures var c := SectorColor(sector, v, p, q, t);
      && 0 <= Round(c.0 * 255.0) <= 255
      && 0 <= Round(c.1 * 255.0) <= 255
      && 0 <= Round(c.2 * 255.0) <= 255
  {
    var c := SectorColor(sector, v, p, q, t);
    assert 0.0 <= c.0 <= 1.0 && 0.0 <= c.1 <= 1.0 && 0.0 <= c.2 <= 1.0;
    RoundWithin(c.0 * 255.0, 0, 255);
    RoundWithin(c.1 * 255.0, 0, 255);
    RoundWithin(c.2 * 255.0, 0, 255);
  }

  /** `p`, `q` and `t` of `hsvToRgb` lie in [0, 1]. */
  lemma HsvRamp(V: real, S: real, f: real)
    requires 0.0 <= V <= 1.0 && 0.0 <= S <= 1.0 && 0.0 <= f <= 1.0
    ensures 0.0 <= V * (1.0 - S) <= 1.0
    ensures 0.0 <= V * (1.0 - S * f) <= 1.0
    ensures 0.0 <= V * (1.0 - S * (1.0 - f)) <= 1.0
  {
    UnitProduct(V, 1.0 - S);
    UnitProduct(S, f);
    UnitProduct(V, 1.0 - S * f);
    UnitProduct(S, 1.0 - f);
    UnitProduct(V, 1.0 - S * (1.0 - f));
  }

  lemma UnitProduct(x: real, y: real)
    requires 0.0 <= x <= 1.0 && 0.0 <= y <= 1.0
    ensures 0.0 <= x * y <= 1.0
  {
    ProductWithin(x, y);
  }

  // ---------------------------------------------------------------------
  // CMYK

  /** Full black has its own answer, and key 100 gives black whatever c, m, y are. */
  lemma CmykBlack(c: int, m: int, y: int)
    ensures RgbToCmyk(0, 0, 0) == Cmyk(0, 0, 0, 100)
    ensures CmykToRgb(c, m, y, 100) == Rgb(0, 0, 0)
  {
  }

  /** For channels in 0-255 every CMYK component is in [0, 100]. */
  lemma {:induction false} RgbToCmykRange(r: int, g: int, b: int)
    requires 0 <= r <= 255 && 0 <= g <= 255 && 0 <= b <= 255
    ensures var cmyk := RgbToCmyk(r, g, b);
      && 0 <= cmyk.c <= 100 && 0 <= cmyk.m <= 100
      && 0 <= cmyk.y <= 100 && 0 <= cmyk.k <= 100
  {
    var R, G, B := r as real / 255.0, g as real / 255.0, b as real / 255.0;
    var max := Max3(R, G, B);
    var k := 1.0 - max;
    if k != 1.0 {
      assert 1.0 - k == max > 0.0;
      assert 1.0 - R - k == max - R;
      assert 1.0 - G - k == max - G;
      assert 1.0 - B - k == max - B;
      QuotientWithin(max - R, max);
      QuotientWithin(max - G, max);
      QuotientWithin(max - B, max);
      RoundWithin((max - R) / max * 100.0, 0, 100);
      RoundWithin((max - G) / max * 100.0, 0, 100);
      RoundWithin((max - B) / max * 100.0, 0, 100);
      RoundWithin(k * 100.0, 0, 100);
    }
  }

  /** CMYK components in [0, 100] give channels in [0, 255]. */
  lemma {:induction false} CmykToRgbRange(c: int, m: int, y: int, k: int)
    requires 0 <= c <= 100 && 0 <= m <= 100 && 0 <= y <= 100 && 0 <= k <= 100
    ensures var rgb := CmykToRgb(c, m, y, k);
      0 <= rgb.r <= 255 && 0 <= rgb.g <= 255 && 0 <= rgb.b <= 255
  {
    CmykChannelRange(c, k);
    CmykChannelRange(m, k);
    CmykChannelRange(y, k);
  }

  lemma CmykChannelRange(x: int, k: int)
    requires 0 <= x <= 100 && 0 <= k <= 100
    ensures 0 <= Round(255.0 * (1.0 - x as real / 100.0) * (1.0 - k as real / 100.0)) <= 255
  {
    var X, K := 1.0 - x as real / 100.0, 1.0 - k as real / 100.0;
    UnitProduct(X, K);
    assert 255.0 * X * K == 255.0 * (X * K);
    RoundWithin(255.0 * (X * K), 0, 255);
  }
}
