/**
 * `ColorUtils.parseColor` (src/color/color-parser.js, repeated in
 * extension.js): a colour literal to the record of its conversions, or
 * `null` (here `None`).
 *
 * The named table is consulted first, on the lower-cased text; then the
 * prefixes `#`, `rgb(`, `rgba(`, `hsl(`, `hsv(`, `hsb(` and `cmyk(` are tried
 * in that order. A prefix whose pattern finds no match anywhere in the text
 * falls through to the next prefix, and after the last one to `null`.
 */
module ColorParser {

  import opened Wrappers
  import opened Text
  import opened ColorModel
  import CssColors
  import G = ColorGrammar
  import Notation

  /** The record's `type` field. */
  datatype ColorType = NamedColor | HexColor | RgbColor | RgbaColor | HslColor | HsvColor | HsbColor | CmykColor

  /** The numeric records as the tooltip prints them: any component may be NaN (or Infinity). */
  datatype RgbN = RgbN(r: Num, g: Num, b: Num)
  datatype HslN = HslN(h: Num, s: Num, l: Num)
  datatype HsvN = HsvN(h: Num, s: Num, v: Num)
  datatype CmykN = CmykN(c: Num, m: Num, y: Num, k: Num)

  /** The `rgba` field; the alpha is kept as the text the pattern captured. */
  datatype Rgba = Rgba(r: int, g: int, b: int, a: string)

  /**
   * The parse record. `name` is set for named colours only, `rgba` for
   * `rgba(…)` only, `hsb` for `hsb(…)` only, and `hsv` for every type but
   * `hsb`. The other fields are present for every type.
   */
  datatype Parsed = Parsed(
    kind: ColorType,
    name: Option<string>,
    hex: string,
    rgb: RgbN,
    rgba: Option<Rgba>,
    hsl: HslN,
    hsv: Option<HsvN>,
    hsb: Option<HsvN>,
    cmyk: CmykN)

  function OfRgb(c: Rgb): RgbN
  {
    RgbN(Fin(c.r), Fin(c.g), Fin(c.b))
  }

  function OfHsl(c: Hsl): HslN
  {
    HslN(Fin(c.h), c.s, Fin(c.l))
  }

  function OfHsv(c: Hsv): HsvN
  {
    HsvN(Fin(c.h), Fin(c.s), Fin(c.v))
  }

  function OfCmyk(c: Cmyk): CmykN
  {
    CmykN(Fin(c.c), Fin(c.m), Fin(c.y), Fin(c.k))
  }

  function OfChannel(x: Option<int>): Num
  {
    if x.Some? then Fin(x.value) else NaN
  }

  /**
   * The record built from integer RGB channels: HSL, HSV and CMYK derived
   * from them, with the type's own hex text.
   */
  function FromRgb(kind: ColorType, name: Option<string>, hex: string, c: Rgb, rgba: Option<Rgba>): (p: Parsed)
    ensures p.kind == kind && p.name == name && p.hex == hex && p.rgba == rgba && p.hsv.Some? && p.hsb.None?
  {
    Parsed(kind, name, hex, OfRgb(c), rgba, OfHsl(RgbToHsl(c.r, c.g, c.b)),
           Some(OfHsv(RgbToHsv(c.r, c.g, c.b))), None, OfCmyk(RgbToCmyk(c.r, c.g, c.b)))
  }

  /**
   * The record of the named and hex types, from `hexToRgb`. A channel that
   * `parseInt` could not read is NaN, and NaN makes `Math.max` and every
   * later step NaN, so all of HSL, HSV and CMYK are NaN then.
   */
  function FromHexChannels(kind: ColorType, name: Option<string>, hex: string, ch: HexChannels): (p: Parsed)
    ensures p.kind == kind && p.name == name && p.hex == hex && p.rgba.None? && p.hsv.Some? && p.hsb.None?
  {
    if ch.r.Some? && ch.g.Some? && ch.b.Some? then
      FromRgb(kind, name, hex, Rgb(ch.r.value, ch.g.value, ch.b.value), None)
    else
      Parsed(kind, name, hex, RgbN(OfChannel(ch.r), OfChannel(ch.g), OfChannel(ch.b)), None,
             HslN(NaN, NaN, NaN), Some(HsvN(NaN, NaN, NaN)), None, CmykN(NaN, NaN, NaN, NaN))
  }

  /**
   * `colorStr.startsWith(prefix)` and then `colorStr.match(pattern)`: the
   * leftmost match anywhere in the text.
   */
  function Capture(f: G.Format, s: string): (r: Option<G.Match>)
    requires G.IsFunctional(f)
    ensures r.Some? ==> StartsWith(s, G.Prefix(f)) && r == G.FindFrom(f, s, 0)
    ensures StartsWith(s, G.Prefix(f)) && G.FindFrom(f, s, 0).Some? ==> r == G.FindFrom(f, s, 0)
    ensures r.Some? ==> |r.value.ints| == (if f == G.CMYK then 4 else 3)
    ensures r.Some? ==> G.CapturesWithin(r.value.ints, if G.UnsignedFormat(f) then 0 else -999)
    ensures r.Some? ==> (r.value.alpha.Some? <==> f == G.RGBA)
  {
    if StartsWith(s, G.Prefix(f)) then
      var m := G.FindFrom(f, s, 0);
      if m.Some? then
        G.FunctionalMatch(f, s, m.value.index);
        m
      else None
    else None
  }

  /**
   * `parseColor`: a name of the table (in any case) gives a named record, a
   * text starting with `#` a hex record, and otherwise the first functional
   * notation that captures decides.
   */
  function ParseColor(s: string): (r: Option<Parsed>)
    ensures (r.Some? && r.value.kind == NamedColor) <==> CssColors.Lookup(Lower(s)).Some?
    ensures (r.Some? && r.value.kind == HexColor) <==> CssColors.Lookup(Lower(s)).None? && StartsWith(s, "#")
  {
    var named := CssColors.Lookup(Lower(s));
    if named.Some? then
      Some(FromHexChannels(NamedColor, Some(s), named.value, HexToRgb(named.value)))
    else if StartsWith(s, "#") then
      Some(FromHexChannels(HexColor, None, s, HexToRgb(s)))
    else
      ParseFunctional(s)
  }

  /** The functional notations in the order `parseColor` tries them. */
  const ParseOrder: seq<G.Format> := [G.RGB, G.RGBA, G.HSL, G.HSV, G.HSB, G.CMYK]

  /** The record type each functional notation produces. */
  function KindOf(f: G.Format): ColorType
    requires f in ParseOrder
  {
    match f
    case RGB => RgbColor
    case RGBA => RgbaColor
    case HSL => HslColor
    case HSV => HsvColor
    case HSB => HsbColor
    case CMYK => CmykColor
  }

  /**
   * The first notation of `fs` whose prefix the text starts with and whose
   * pattern matches it, with that match: the `if` chain of `parseColor`
   * after the `#` test.
   */
  function FirstCapture(s: string, fs: seq<G.Format>): (r: Option<(G.Format, G.Match)>)
    requires forall f :: f in fs ==> G.IsFunctional(f)
    ensures r.Some? ==> r.value.0 in fs && Capture(r.value.0, s) == Some(r.value.1)
    ensures r.None? <==> forall f :: f in fs ==> Capture(f, s).None?
  {
    if fs == [] then None
    else
      var m := Capture(fs[0], s);
      if m.Some? then Some((fs[0], m.value)) else FirstCapture(s, fs[1..])
  }

  /** The notations are tried in order: every one before the chosen one finds nothing. */
  lemma {:induction false} FirstCaptureInOrder(s: string, fs: seq<G.Format>)
    requires forall f :: f in fs ==> G.IsFunctional(f)
    requires FirstCapture(s, fs).Some?
    ensures exists k :: (0 <= k < |fs| && fs[k] == FirstCapture(s, fs).value.0
                         && forall j :: 0 <= j < k ==> Capture(fs[j], s).None?)
  {
    if Capture(fs[0], s).None? {
      FirstCaptureInOrder(s, fs[1..]);
      var k :| 0 <= k < |fs[1..]| && fs[1..][k] == FirstCapture(s, fs[1..]).value.0
        && forall j :: 0 <= j < k ==> Capture(fs[1..][j], s).None?;
      assert fs[k + 1] == FirstCapture(s, fs).value.0;
      forall j | 0 <= j < k + 1
        ensures Capture(fs[j], s).None?
      {
        if j > 0 {
          assert fs[j] == fs[1..][j - 1];
        }
      }
    } else {
      assert fs[0] == FirstCapture(s, fs).value.0;
    }
  }

  /**
   * The `rgb(`, `rgba(`, `hsl(`, `hsv(`, `hsb(` and `cmyk(` branches: the
   * record of the first branch in that order whose pattern captures, or
   * nothing when none does (`FunctionalChoice`).
   */
  function ParseFunctional(s: string): (r: Option<Parsed>)
    ensures r.Some? ==> Shaped(r.value) && r.value.kind !in {NamedColor, HexColor}
  {
    var c := FirstCapture(s, ParseOrder);
    if c.Some? then
      var f, m := c.value.0, c.value.1;
      CaptureShape(f, s);
      BuildShape(f, m);
      Some(Build(f, m))
    else None
  }

  /** The functional notation `parseColor` tries `k`-th. */
  function Branch(k: nat): (f: G.Format)
    requires k < |ParseOrder|
    ensures f in ParseOrder && G.IsFunctional(f)
  {
    ParseOrder[k]
  }

  /**
   * Which functional branch answers: there is a record exactly when some
   * branch captures, and it is the one built from the first capturing branch
   * in the order rgb, rgba, hsl, hsv, hsb, cmyk.
   */
  lemma FunctionalChoice(s: string) returns (k: nat)
    ensures ParseFunctional(s).None? <==> forall f :: f in ParseOrder ==> Capture(f, s).None?
    ensures ParseFunctional(s).Some? <==> k < |ParseOrder|
    ensures k < |ParseOrder| ==>
      && Capture(Branch(k), s).Some?
      && (forall j :: 0 <= j < k ==> Capture(Branch(j), s).None?)
      && ParseFunctional(s).Some? && ParseFunctional(s).value.kind == KindOf(Branch(k))
    ensures k < |ParseOrder| ==>
      var m := Capture(Branch(k), s).value;
      && |m.ints| == (if Branch(k) == G.CMYK then 4 else 3)
      && G.CapturesWithin(m.ints, 0)
      && (m.alpha.Some? <==> Branch(k) == G.RGBA)
      && ParseFunctional(s) == Some(Build(Branch(k), m))
  {
    k := |ParseOrder|;
    var c := FirstCapture(s, ParseOrder);
    if c.Some? {
      FirstCaptureInOrder(s, ParseOrder);
      k :| 0 <= k < |ParseOrder| && ParseOrder[k] == c.value.0
        && forall j :: 0 <= j < k ==> Capture(ParseOrder[j], s).None?;
      assert Branch(k) == c.value.0;
      CaptureShape(Branch(k), s);
    }
  }

  /** What a successful capture of a parsed notation holds, as `Build` needs it. */
  lemma CaptureShape(f: G.Format, s: string)
    requires f in ParseOrder && Capture(f, s).Some?
    ensures var m := Capture(f, s).value;
      && |m.ints| == (if f == G.CMYK then 4 else 3)
      && G.CapturesWithin(m.ints, 0)
      && (m.alpha.Some? <==> f == G.RGBA)
  {
    assert G.UnsignedFormat(f);
  }

  /** The record one functional branch returns for its captures. */
  function Build(f: G.Format, m: G.Match): (p: Parsed)
    requires f in ParseOrder
    requires |m.ints| == (if f == G.CMYK then 4 else 3)
    requires G.CapturesWithin(m.ints, 0)
    requires m.alpha.Some? <==> f == G.RGBA
    ensures p.kind == KindOf(f)
    ensures p.rgba.Some? <==> f == G.RGBA
    ensures p.hsv.None? <==> f == G.HSB
    ensures |p.hex| == 7
  {
    match f
    case RGB => FromRgbCaptures(RgbColor, m.ints, None)
    case RGBA => FromRgbCaptures(RgbaColor, m.ints, m.alpha)
    case HSL => FromHslCaptures(m.ints)
    case HSV => FromHsvCaptures(HsvColor, m.ints)
    case HSB => FromHsvCaptures(HsbColor, m.ints)
    case CMYK => FromCmykCaptures(m.ints)
  }

  /** The `rgb` and `rgba` records: the captured channels, their hex, and the alpha text for `rgba`. */
  function FromRgbCaptures(kind: ColorType, v: seq<int>, alpha: Option<string>): (p: Parsed)
    requires |v| == 3
    ensures p.kind == kind && p.rgb == RgbN(Fin(v[0]), Fin(v[1]), Fin(v[2]))
    ensures p.rgba.Some? <==> alpha.Some?
    ensures p.hsv.Some? && |p.hex| == 7
  {
    var c := Rgb(v[0], v[1], v[2]);
    var rgba := if alpha.Some? then Some(Rgba(v[0], v[1], v[2], alpha.value)) else None;
    FromRgb(kind, None, RgbToHex(c.r, c.g, c.b), c, rgba)
  }

  /** The `hsl` record: the input as `hsl`, the rest from `hslToRgb`. */
  function FromHslCaptures(v: seq<int>): (p: Parsed)
    requires |v| == 3
    ensures p.kind == HslColor && p.hsl == HslN(Fin(v[0]), Fin(v[1]), Fin(v[2]))
    ensures p.rgba.None? && p.hsv.Some? && |p.hex| == 7
  {
    var c := HslToRgb(v[0], v[1], v[2]);
    FromRgb(HslColor, None, RgbToHex(c.r, c.g, c.b), c, None).(hsl := HslN(Fin(v[0]), Fin(v[1]), Fin(v[2])))
  }

  /**
   * The `hsv` and `hsb` records: both convert with `hsvToRgb`. The input is
   * kept as `hsv` or as `hsb`; the `hsb` record has no `hsv` field.
   */
  function FromHsvCaptures(kind: ColorType, v: seq<int>): (p: Parsed)
    requires |v| == 3 && 0 <= v[0]
    ensures p.kind == kind
    ensures kind == HsbColor ==> p.hsv.None? && p.hsb == Some(HsvN(Fin(v[0]), Fin(v[1]), Fin(v[2])))
    ensures kind != HsbColor ==> p.hsv == Some(HsvN(Fin(v[0]), Fin(v[1]), Fin(v[2])))
    ensures p.rgba.None? && |p.hex| == 7
  {
    var c := HsvToRgb(v[0], v[1], v[2]);
    var input := HsvN(Fin(v[0]), Fin(v[1]), Fin(v[2]));
    var p := FromRgb(kind, None, RgbToHex(c.r, c.g, c.b), c, None);
    if kind == HsbColor then p.(hsv := None, hsb := Some(input)) else p.(hsv := Some(input))
  }

  /** The `cmyk` record: the input as `cmyk`, the rest from `cmykToRgb`. */
  function FromCmykCaptures(v: seq<int>): (p: Parsed)
    requires |v| == 4
    ensures p.kind == CmykColor && p.cmyk == CmykN(Fin(v[0]), Fin(v[1]), Fin(v[2]), Fin(v[3]))
    ensures p.rgba.None? && p.hsv.Some? && |p.hex| == 7
  {
    var c := CmykToRgb(v[0], v[1], v[2], v[3]);
    FromRgb(CmykColor, None, RgbToHex(c.r, c.g, c.b), c, None).(cmyk := CmykN(Fin(v[0]), Fin(v[1]), Fin(v[2]), Fin(v[3])))
  }

  // ---------------------------------------------------------------------
  // Properties

  /** A table value is `#` and six lower-case digits, so `hexToRgb` reads it exactly and `rgbToHex` writes it back. */
  lemma HexCodeRoundTrip(hex: string)
    requires CssColors.IsHexCode(hex)
    ensures var ch := HexToRgb(hex);
      && ch.r.Some? && ch.g.Some? && ch.b.Some?
      && 0 <= ch.r.value <= 255 && 0 <= ch.g.value <= 255 && 0 <= ch.b.value <= 255
      && RgbToHex(ch.r.value, ch.g.value, ch.b.value) == hex
  {
    var r := ChannelOfDigits(hex[1], hex[2]);
    var g := ChannelOfDigits(hex[3], hex[4]);
    var b := ChannelOfDigits(hex[5], hex[6]);
    HexCodeChannels(hex, r, g, b);
    HexCodeSpelled(hex, r, g, b);
  }

  /** `hexToRgb` of a table code reads back its three channels. */
  lemma HexCodeChannels(hex: string, r: int, g: int, b: int)
    requires CssColors.IsHexCode(hex)
    requires r == ChannelOfDigits(hex[1], hex[2]) && g == ChannelOfDigits(hex[3], hex[4]) && b == ChannelOfDigits(hex[5], hex[6])
    ensures HexToRgb(hex) == HexChannels(Some(r), Some(g), Some(b))
  {
    var body := hex[1..];
    assert RemoveFirst(hex, '#') == body;
    assert Substring(body, 0, 2) == hex[1..3];
    assert Substring(body, 2, 4) == hex[3..5];
    assert Substring(body, 4, 6) == hex[5..7];
    ParseTwoHexDigits(hex[1..3], r);
    ParseTwoHexDigits(hex[3..5], g);
    ParseTwoHexDigits(hex[5..7], b);
  }

  /** `rgbToHex` of those channels spells the code again. */
  lemma HexCodeSpelled(hex: string, r: int, g: int, b: int)
    requires CssColors.IsHexCode(hex)
    requires r == ChannelOfDigits(hex[1], hex[2]) && g == ChannelOfDigits(hex[3], hex[4]) && b == ChannelOfDigits(hex[5], hex[6])
    ensures RgbToHex(r, g, b) == hex
  {
    assert RgbToHex(r, g, b) == "#" + HexByte(r) + HexByte(g) + HexByte(b);
    assert hex == "#" + [hex[1], hex[2]] + [hex[3], hex[4]] + [hex[5], hex[6]];
  }

  /** Two lower-case hex digits as a channel, which `rgbToHex` writes back as the same two digits. */
  function ChannelOfDigits(hi: char, lo: char): (v: int)
    requires IsLowerHexDigit(hi) && IsLowerHexDigit(lo)
    ensures 0 <= v <= 255 && HexByte(v) == [hi, lo]
  {
    var v := 16 * HexDigitValue(hi) + HexDigitValue(lo);
    HexCharOfValue(hi);
    HexCharOfValue(lo);
    assert v / 16 == HexDigitValue(hi) && v % 16 == HexDigitValue(lo);
    v
  }

  /** A lower-case hex digit is the digit of its value. */
  lemma HexCharOfValue(c: char)
    requires IsLowerHexDigit(c)
    ensures HexChar(HexDigitValue(c)) == c
  {
  }

  /**
   * The named table is consulted before any prefix: the result is a named
   * colour exactly when the lower-cased text is a key. Its hex is the table
   * value, its channels are the bytes that value spells (so `rgbToHex` gives
   * the value back), and every derived component is finite and in range.
   */
  lemma NamedFirst(s: string)
    ensures (ParseColor(s).Some? && ParseColor(s).value.kind == NamedColor) <==> CssColors.Lookup(Lower(s)).Some?
    ensures CssColors.Lookup(Lower(s)).Some? ==>
      var p := ParseColor(s).value;
      var hex := CssColors.Lookup(Lower(s)).value;
      && p.name == Some(s) && p.hex == hex && CssColors.IsHexCode(hex)
      && p.rgb.r.Fin? && p.rgb.g.Fin? && p.rgb.b.Fin?
      && RgbToHex(p.rgb.r.n, p.rgb.g.n, p.rgb.b.n) == hex
      && p.hsl.h.Fin? && 0 <= p.hsl.h.n <= 360 && p.hsl.s.Fin? && 0 <= p.hsl.s.n <= 100
  {
    var named := CssColors.Lookup(Lower(s));
    if named.Some? {
      CssColors.LookupIsHexCode(Lower(s));
      HexCodeRoundTrip(named.value);
      var ch := HexToRgb(named.value);
      RgbToHslRange(ch.r.value, ch.g.value, ch.b.value);
    }
  }

  /**
   * The hex type keeps the text verbatim as `hex`, whatever follows the `#`,
   * so every text starting with `#` that is not a colour name parses.
   */
  lemma HexKeptVerbatim(s: string)
    requires CssColors.Lookup(Lower(s)).None? && StartsWith(s, "#")
    ensures ParseColor(s).Some?
    ensures ParseColor(s).value.kind == HexColor && ParseColor(s).value.hex == s
    ensures var ch := HexToRgb(s); ParseColor(s).value.rgb == RgbN(OfChannel(ch.r), OfChannel(ch.g), OfChannel(ch.b))
  {
  }

  /** `rgbToHex` output parses back, as a hex colour, to the channels it was made from. */
  lemma HexOutputParses(r: int, g: int, b: int)
    requires 0 <= r <= 255 && 0 <= g <= 255 && 0 <= b <= 255
    ensures ParseColor(RgbToHex(r, g, b)).Some?
    ensures ParseColor(RgbToHex(r, g, b)).value.kind == HexColor
    ensures ParseColor(RgbToHex(r, g, b)).value.rgb == RgbN(Fin(r), Fin(g), Fin(b))
  {
    var hex := RgbToHex(r, g, b);
    NotAName(hex, 0);
    HexRoundTrip(r, g, b);
    assert StartsWith(hex, "#");
    assert ParseColor(hex) == Some(FromHexChannels(HexColor, None, hex, HexToRgb(hex)));
  }

  /** A text with a character other than a lower-case letter at `k`, once lower-cased, is not a table key. */
  lemma NotAName(s: string, k: nat)
    requires k < |s| && !('a' <= LowerChar(s[k]) <= 'z')
    ensures CssColors.Lookup(Lower(s)).None?
  {
    CssColors.TableWellFormed();
    assert !CssColors.IsColorName(Lower(s)) by {
      assert Lower(s)[k] == LowerChar(s[k]);
    }
  }

  /**
   * Which optional fields a record has: `rgba` only for the `rgba` type,
   * `hsv` for every type but `hsb`; and a `hex` text of `#` with six digits
   * for every type but the hex type.
   */
  predicate Shaped(p: Parsed)
  {
    && (p.rgba.Some? <==> p.kind == RgbaColor)
    && (p.hsv.None? <==> p.kind == HsbColor)
    && (p.kind != HexColor ==> |p.hex| == 7)
  }

  /** Every record `parseColor` returns is shaped, and the hex type keeps the input as its `hex`. */
  lemma RecordShape(s: string)
    requires ParseColor(s).Some?
    ensures Shaped(ParseColor(s).value)
    ensures ParseColor(s).value.kind == HexColor ==> ParseColor(s).value.hex == s
  {
    if CssColors.Lookup(Lower(s)).Some? {
      NamedShape(s);
    } else if !StartsWith(s, "#") {
      assert ParseColor(s) == ParseFunctional(s);
    }
  }

  /** A named colour parses to a record of the expected shape. */
  lemma NamedShape(s: string)
    requires CssColors.Lookup(Lower(s)).Some?
    ensures ParseColor(s).Some? && Shaped(ParseColor(s).value) && ParseColor(s).value.kind == NamedColor
  {
    CssColors.LookupIsHexCode(Lower(s));
  }

  /** Every functional record is shaped and of a functional type. */
  lemma BuildShape(f: G.Format, m: G.Match)
    requires f in ParseOrder
    requires |m.ints| == (if f == G.CMYK then 4 else 3)
    requires G.CapturesWithin(m.ints, 0)
    requires m.alpha.Some? <==> f == G.RGBA
    ensures Shaped(Build(f, m)) && Build(f, m).kind !in {NamedColor, HexColor}
  {
  }

  /** `hsb(…)` and `hsv(…)` with the same numbers give the same conversions; only the field that holds the numbers differs. */
  lemma HsbLikeHsv(s: string, t: string)
    requires ParseColor(s).Some? && ParseColor(s).value.kind == HsbColor
    requires ParseColor(t).Some? && ParseColor(t).value.kind == HsvColor
    requires ParseColor(s).value.hsb == ParseColor(t).value.hsv
    ensures var p, q := ParseColor(s).value, ParseColor(t).value;
      && p.rgb == q.rgb && p.hex == q.hex && p.hsl == q.hsl && p.cmyk == q.cmyk
      && p.hsv.None? && p.hsb.Some?
  {
    var v := HsbBranch(s);
    var w := HsvBranch(t);
    SameHsvConversion(v, w);
  }

  /** A record of a functional notation is `Build` of the notation that captured and of its capture. */
  lemma Winner(s: string) returns (f: G.Format, m: G.Match)
    requires ParseColor(s).Some? && ParseColor(s).value.kind !in {NamedColor, HexColor}
    ensures f in ParseOrder && Capture(f, s) == Some(m)
    ensures |m.ints| == (if f == G.CMYK then 4 else 3) && G.CapturesWithin(m.ints, 0)
    ensures m.alpha.Some? <==> f == G.RGBA
    ensures ParseColor(s) == Some(Build(f, m))
  {
    FunctionalBranch(s);
    var k := FunctionalChoice(s);
    f, m := Branch(k), Capture(Branch(k), s).value;
  }

  /** The notation is told by the record type it builds. */
  lemma KindSelects(f: G.Format)
    requires f in ParseOrder
    ensures KindOf(f) == RgbColor ==> f == G.RGB
    ensures KindOf(f) == RgbaColor ==> f == G.RGBA
    ensures KindOf(f) == HslColor ==> f == G.HSL
    ensures KindOf(f) == HsvColor ==> f == G.HSV
    ensures KindOf(f) == HsbColor ==> f == G.HSB
    ensures KindOf(f) == CmykColor ==> f == G.CMYK
  {
  }

  /**
   * An `rgb(…)` record keeps the three captured numbers as they are, even
   * out of 0..255, and writes them as hex with `rgbToHex`.
   */
  lemma RgbRecord(s: string) returns (v: seq<int>)
    requires ParseColor(s).Some? && ParseColor(s).value.kind == RgbColor
    ensures Capture(G.RGB, s).Some? && v == Capture(G.RGB, s).value.ints && |v| == 3
    ensures ParseColor(s).value.rgb == RgbN(Fin(v[0]), Fin(v[1]), Fin(v[2]))
    ensures ParseColor(s).value.hex == RgbToHex(v[0], v[1], v[2])
    ensures ParseColor(s).value.rgba.None?
  {
    var f, m := Winner(s);
    KindSelects(f);
    v := m.ints;
    BuildRgb(m, v);
  }

  lemma BuildRgb(m: G.Match, v: seq<int>)
    requires v == m.ints && |v| == 3 && G.CapturesWithin(v, 0) && m.alpha.None?
    ensures Build(G.RGB, m).rgb == RgbN(Fin(v[0]), Fin(v[1]), Fin(v[2]))
    ensures Build(G.RGB, m).hex == RgbToHex(v[0], v[1], v[2])
    ensures Build(G.RGB, m).rgba.None?
  {
  }

  /** An `rgba(…)` record keeps the captured numbers and the captured alpha text. */
  lemma RgbaRecord(s: string) returns (v: seq<int>, a: string)
    requires ParseColor(s).Some? && ParseColor(s).value.kind == RgbaColor
    ensures Capture(G.RGBA, s).Some? && v == Capture(G.RGBA, s).value.ints && |v| == 3
    ensures Capture(G.RGBA, s).value.alpha == Some(a)
    ensures ParseColor(s).value.rgb == RgbN(Fin(v[0]), Fin(v[1]), Fin(v[2]))
    ensures ParseColor(s).value.rgba == Some(Rgba(v[0], v[1], v[2], a))
    ensures ParseColor(s).value.hex == RgbToHex(v[0], v[1], v[2])
  {
    var f, m := Winner(s);
    KindSelects(f);
    v, a := m.ints, m.alpha.value;
    BuildRgba(m, v, a);
  }

  lemma BuildRgba(m: G.Match, v: seq<int>, a: string)
    requires v == m.ints && |v| == 3 && G.CapturesWithin(v, 0) && m.alpha == Some(a)
    ensures Build(G.RGBA, m).rgb == RgbN(Fin(v[0]), Fin(v[1]), Fin(v[2]))
    ensures Build(G.RGBA, m).rgba == Some(Rgba(v[0], v[1], v[2], a))
    ensures Build(G.RGBA, m).hex == RgbToHex(v[0], v[1], v[2])
  {
  }

  /** An `hsl(…)` record keeps the captured numbers as `hsl`; its RGB and hex come from `hslToRgb` of them. */
  lemma HslRecord(s: string) returns (v: seq<int>)
    requires ParseColor(s).Some? && ParseColor(s).value.kind == HslColor
    ensures Capture(G.HSL, s).Some? && v == Capture(G.HSL, s).value.ints && |v| == 3
    ensures ParseColor(s).value.hsl == HslN(Fin(v[0]), Fin(v[1]), Fin(v[2]))
    ensures var c := HslToRgb(v[0], v[1], v[2]);
      ParseColor(s).value.rgb == OfRgb(c) && ParseColor(s).value.hex == RgbToHex(c.r, c.g, c.b)
  {
    var f, m := Winner(s);
    KindSelects(f);
    v := m.ints;
    BuildHsl(m, v);
  }

  lemma BuildHsl(m: G.Match, v: seq<int>)
    requires v == m.ints && |v| == 3 && G.CapturesWithin(v, 0) && m.alpha.None?
    ensures Build(G.HSL, m).hsl == HslN(Fin(v[0]), Fin(v[1]), Fin(v[2]))
    ensures var c := HslToRgb(v[0], v[1], v[2]);
      Build(G.HSL, m).rgb == OfRgb(c) && Build(G.HSL, m).hex == RgbToHex(c.r, c.g, c.b)
  {
  }

  /** An `hsv(…)` record keeps the captured numbers as `hsv`; its RGB and hex come from `hsvToRgb` of them. */
  lemma HsvRecord(s: string) returns (v: seq<int>)
    requires ParseColor(s).Some? && ParseColor(s).value.kind == HsvColor
    ensures Capture(G.HSV, s).Some? && v == Capture(G.HSV, s).value.ints && |v| == 3 && 0 <= v[0]
    ensures ParseColor(s).value.hsv == Some(HsvN(Fin(v[0]), Fin(v[1]), Fin(v[2])))
    ensures var c := HsvToRgb(v[0], v[1], v[2]);
      ParseColor(s).value.rgb == OfRgb(c) && ParseColor(s).value.hex == RgbToHex(c.r, c.g, c.b)
  {
    var f, m := Winner(s);
    KindSelects(f);
    v := m.ints;
    BuildHsv(G.HSV, m, v);
  }

  /** An `hsb(…)` record keeps the captured numbers as `hsb` and has no `hsv`; its RGB and hex come from `hsvToRgb`. */
  lemma HsbRecord(s: string) returns (v: seq<int>)
    requires ParseColor(s).Some? && ParseColor(s).value.kind == HsbColor
    ensures Capture(G.HSB, s).Some? && v == Capture(G.HSB, s).value.ints && |v| == 3 && 0 <= v[0]
    ensures ParseColor(s).value.hsb == Some(HsvN(Fin(v[0]), Fin(v[1]), Fin(v[2])))
    ensures ParseColor(s).value.hsv.None?
    ensures var c := HsvToRgb(v[0], v[1], v[2]);
      ParseColor(s).value.rgb == OfRgb(c) && ParseColor(s).value.hex == RgbToHex(c.r, c.g, c.b)
  {
    var f, m := Winner(s);
    KindSelects(f);
    v := m.ints;
    BuildHsv(G.HSB, m, v);
  }

  lemma BuildHsv(f: G.Format, m: G.Match, v: seq<int>)
    requires f == G.HSV || f == G.HSB
    requires v == m.ints && |v| == 3 && G.CapturesWithin(v, 0) && m.alpha.None?
    ensures 0 <= v[0]
    ensures f == G.HSV ==> Build(f, m).hsv == Some(HsvN(Fin(v[0]), Fin(v[1]), Fin(v[2])))
    ensures f == G.HSB ==> Build(f, m).hsb == Some(HsvN(Fin(v[0]), Fin(v[1]), Fin(v[2]))) && Build(f, m).hsv.None?
    ensures var c := HsvToRgb(v[0], v[1], v[2]);
      Build(f, m).rgb == OfRgb(c) && Build(f, m).hex == RgbToHex(c.r, c.g, c.b)
  {
  }

  /** A `cmyk(…)` record keeps the four captured numbers as `cmyk`; its RGB and hex come from `cmykToRgb` of them. */
  lemma CmykRecord(s: string) returns (v: seq<int>)
    requires ParseColor(s).Some? && ParseColor(s).value.kind == CmykColor
    ensures Capture(G.CMYK, s).Some? && v == Capture(G.CMYK, s).value.ints && |v| == 4
    ensures ParseColor(s).value.cmyk == CmykN(Fin(v[0]), Fin(v[1]), Fin(v[2]), Fin(v[3]))
    ensures var c := CmykToRgb(v[0], v[1], v[2], v[3]);
      ParseColor(s).value.rgb == OfRgb(c) && ParseColor(s).value.hex == RgbToHex(c.r, c.g, c.b)
  {
    var f, m := Winner(s);
    KindSelects(f);
    v := m.ints;
    BuildCmyk(m, v);
  }

  lemma BuildCmyk(m: G.Match, v: seq<int>)
    requires v == m.ints && |v| == 4 && G.CapturesWithin(v, 0) && m.alpha.None?
    ensures Build(G.CMYK, m).cmyk == CmykN(Fin(v[0]), Fin(v[1]), Fin(v[2]), Fin(v[3]))
    ensures var c := CmykToRgb(v[0], v[1], v[2], v[3]);
      Build(G.CMYK, m).rgb == OfRgb(c) && Build(G.CMYK, m).hex == RgbToHex(c.r, c.g, c.b)
  {
  }

  /** A record of a functional notation comes from the functional branch. */
  lemma FunctionalBranch(s: string)
    requires ParseColor(s).Some? && ParseColor(s).value.kind !in {NamedColor, HexColor}
    ensures ParseColor(s) == ParseFunctional(s)
  {
  }

  /** An `hsb(…)` record is built from its three captures. */
  lemma HsbBranch(s: string) returns (v: seq<int>)
    requires ParseColor(s).Some? && ParseColor(s).value.kind == HsbColor
    ensures |v| == 3 && 0 <= v[0]
    ensures ParseColor(s).value == FromHsvCaptures(HsbColor, v)
  {
    FunctionalBranch(s);
    v := HsbCaptures(s);
  }

  /** The same, for the functional branch. */
  lemma HsbCaptures(s: string) returns (v: seq<int>)
    requires ParseFunctional(s).Some? && ParseFunctional(s).value.kind == HsbColor
    ensures |v| == 3 && 0 <= v[0]
    ensures ParseFunctional(s).value == FromHsvCaptures(HsbColor, v)
  {
    v := Capture(G.HSB, s).value.ints;
  }

  /** An `hsv(…)` record is built from its three captures. */
  lemma HsvBranch(s: string) returns (v: seq<int>)
    requires ParseColor(s).Some? && ParseColor(s).value.kind == HsvColor
    ensures |v| == 3 && 0 <= v[0]
    ensures ParseColor(s).value == FromHsvCaptures(HsvColor, v)
  {
    FunctionalBranch(s);
    v := HsvCaptures(s);
  }

  /** The same, for the functional branch. */
  lemma HsvCaptures(s: string) returns (v: seq<int>)
    requires ParseFunctional(s).Some? && ParseFunctional(s).value.kind == HsvColor
    ensures |v| == 3 && 0 <= v[0]
    ensures ParseFunctional(s).value == FromHsvCaptures(HsvColor, v)
  {
    v := Capture(G.HSV, s).value.ints;
  }

  /** The HSB and HSV builders convert equal numbers alike. */
  lemma SameHsvConversion(v: seq<int>, w: seq<int>)
    requires |v| == 3 && |w| == 3 && 0 <= v[0] && 0 <= w[0]
    requires FromHsvCaptures(HsbColor, v).hsb == FromHsvCaptures(HsvColor, w).hsv
    ensures var p, q := FromHsvCaptures(HsbColor, v), FromHsvCaptures(HsvColor, w);
      && p.rgb == q.rgb && p.hex == q.hex && p.hsl == q.hsl && p.cmyk == q.cmyk
      && p.hsv.None? && p.hsb.Some?
  {
    assert v == w;
  }

  /**
   * `parseColor` returns `null` exactly when the text is not a colour name,
   * does not start with `#`, and no notation whose prefix it starts with has
   * a match in it.
   */
  lemma NullIff(s: string)
    ensures ParseColor(s).None? <==>
      && CssColors.Lookup(Lower(s)).None?
      && !StartsWith(s, "#")
      && forall f :: f in ParseOrder ==> Capture(f, s).None?
  {
  }

  /** `rgb(255, 99, 71)` parses to the `rgb` record with those three channels. */
  lemma TomatoParses()
    ensures ParseColor("rgb(255, 99, 71)").Some?
    ensures ParseColor("rgb(255, 99, 71)").value.kind == RgbColor
    ensures ParseColor("rgb(255, 99, 71)").value.rgb == RgbN(Fin(255), Fin(99), Fin(71))
  {
    TomatoFacts("rgb(255, 99, 71)");
  }

  /** `rgb(255, 99, 71)` is no name, no hex literal, and the `rgb(` notation captures it first. */
  lemma TomatoFacts(s: string)
    requires s == "rgb(255, 99, 71)"
    ensures ParseColor(s).Some? && ParseColor(s).value.kind == RgbColor
    ensures ParseColor(s).value.rgb == RgbN(Fin(255), Fin(99), Fin(71))
  {
    NotAName(s, 3);
    Differs(s, "#", 0);
    var m := TomatoCapture(s);
    var c := FirstCapture(s, ParseOrder);
    assert c == Some((G.RGB, m));
    assert ParseColor(s) == Some(Build(G.RGB, m));
  }

  /** The `rgb(` notation matches the whole of `rgb(255, 99, 71)`, capturing 255, 99 and 71. */
  lemma TomatoCapture(s: string) returns (m: G.Match)
    requires s == "rgb(255, 99, 71)"
    ensures Capture(G.RGB, s) == Some(m)
    ensures m.ints == [255, 99, 71]
  {
    Notation.TomatoExample(s);
    m := G.MatchAt(G.RGB, s, 0).value;
    assert G.FindFrom(G.RGB, s, 0) == Some(m);
    assert StartsWith(s, G.Prefix(G.RGB)) by {
      assert s[..4] == "rgb(";
    }
  }

  /**
   * Out-of-range numbers pass through: `rgb(999, 0, 0)` parses to an `rgb`
   * record whose channels are 999, 0 and 0, while its hex is clamped to
   * `#ff0000`.
   */
  lemma OutOfRangeKept()
    ensures ParseColor("rgb(999, 0, 0)").Some?
    ensures ParseColor("rgb(999, 0, 0)").value.kind == RgbColor
    ensures ParseColor("rgb(999, 0, 0)").value.rgb == RgbN(Fin(999), Fin(0), Fin(0))
    ensures ParseColor("rgb(999, 0, 0)").value.hex == "#ff0000"
  {
    OutOfRangeFacts("rgb(999, 0, 0)");
  }

  lemma OutOfRangeFacts(s: string)
    requires s == "rgb(999, 0, 0)"
    ensures ParseColor(s).Some? && ParseColor(s).value.kind == RgbColor
    ensures ParseColor(s).value.rgb == RgbN(Fin(999), Fin(0), Fin(0))
    ensures ParseColor(s).value.hex == "#ff0000"
  {
    NotAName(s, 3);
    Differs(s, "#", 0);
    var m := OutOfRangeCapture(s);
    var c := FirstCapture(s, ParseOrder);
    assert c == Some((G.RGB, m));
    assert ParseColor(s) == Some(Build(G.RGB, m));
    BuildRgb(m, m.ints);
    RgbToHexClamps(999, 0, 0);
  }

  /** The `rgb(` notation matches the whole of `rgb(999, 0, 0)`, capturing 999, 0 and 0. */
  lemma OutOfRangeCapture(s: string) returns (m: G.Match)
    requires s == "rgb(999, 0, 0)"
    ensures Capture(G.RGB, s) == Some(m)
    ensures m.ints == [999, 0, 0] && m.alpha.None?
  {
    Notation.OutOfRangeExample(s);
    m := G.MatchAt(G.RGB, s, 0).value;
    assert G.FindFrom(G.RGB, s, 0) == Some(m);
    assert StartsWith(s, G.Prefix(G.RGB)) by {
      assert s[..4] == "rgb(";
    }
  }

  /** `rgb(1,2)` is one field short, so `parseColor` returns `null`. */
  lemma TwoFieldRgbIsNull()
    ensures ParseColor("rgb(1,2)").None?
  {
    TwoFieldRgbFacts("rgb(1,2)");
  }

  /** `rgb(1,2)` is no name, no hex literal, and no notation captures it. */
  lemma TwoFieldRgbFacts(s: string)
    requires s == "rgb(1,2)"
    ensures ParseColor(s).None?
  {
    NotAName(s, 3);
    Differs(s, "#", 0);
    G.TwoFieldRgbRejected(s);
    TwoFieldRgbOthers(s);
    NoneCaptured(s);
    NullWhen(s);
  }

  /** No notation other than `rgb(` applies to `rgb(1,2)`. */
  lemma TwoFieldRgbOthers(s: string)
    requires s == "rgb(1,2)"
    ensures Capture(G.RGBA, s).None? && Capture(G.HSL, s).None? && Capture(G.HSV, s).None?
    ensures Capture(G.HSB, s).None? && Capture(G.CMYK, s).None?
  {
    Differs(s, "rgba(", 3);
    NoCapture(G.RGBA, s);
    Differs(s, "hsl(", 0);
    NoCapture(G.HSL, s);
    Differs(s, "hsv(", 0);
    NoCapture(G.HSV, s);
    Differs(s, "hsb(", 0);
    NoCapture(G.HSB, s);
    Differs(s, "cmyk(", 0);
    NoCapture(G.CMYK, s);
  }

  /** When every notation fails, no functional branch is taken. */
  lemma NoneCaptured(s: string)
    requires Capture(G.RGB, s).None? && Capture(G.RGBA, s).None? && Capture(G.HSL, s).None?
    requires Capture(G.HSV, s).None? && Capture(G.HSB, s).None? && Capture(G.CMYK, s).None?
    ensures FirstCapture(s, ParseOrder).None?
  {
    forall f | f in ParseOrder
      ensures Capture(f, s).None?
    {
    }
  }

  /** Not a name, no `#`, and no functional notation: `parseColor` returns `null`. */
  lemma NullWhen(s: string)
    requires CssColors.Lookup(Lower(s)).None? && !StartsWith(s, "#")
    requires FirstCapture(s, ParseOrder).None?
    ensures ParseColor(s).None?
  {
  }

  /** A notation whose prefix the text lacks captures nothing. */
  lemma NoCapture(f: G.Format, s: string)
    requires f in ParseOrder && !StartsWith(s, G.Prefix(f))
    ensures Capture(f, s).None?
  {
  }

  /**
   * What `CSS_COLORS[lower]` yields on extension.js's object literal: an own
   * entry, a property every object inherits from `Object.prototype`, or
   * `undefined`.
   */
  datatype Property = Own(hex: string) | Inherited | Absent

  /** The properties of `Object.prototype` whose names are all lower case, the only ones a lower-cased key can reach. */
  const PrototypeNames: seq<string> := ["constructor", "__proto__"]

  /** The property lookup as written: the table's own keys first, then the inherited names. */
  function TableProperty(key: string): (r: Property)
    ensures r.Own? <==> CssColors.Lookup(key).Some?
    ensures r.Own? ==> CssColors.IsHexCode(r.hex)
    ensures r.Inherited? <==> CssColors.Lookup(key).None? && key in PrototypeNames
  {
    var own := CssColors.Lookup(key);
    if own.Some? then
      CssColors.LookupIsHexCode(key);
      Own(own.value)
    else if key in PrototypeNames then Inherited
    else Absent
  }

  /** Neither inherited name is a table key. */
  lemma PrototypeNamesUnlisted()
    ensures CssColors.Lookup("constructor").None? && CssColors.Lookup("__proto__").None?
  {
    CssColors.ConstructorNotListed();
    CssColors.TableWellFormed();
    assert !CssColors.IsColorName("__proto__") by {
      assert "__proto__"[0] == '_';
    }
  }

  /** The keys that reach an inherited property are exactly the two names. */
  lemma InheritedKeys(key: string)
    ensures TableProperty(key).Inherited? <==> key == "constructor" || key == "__proto__"
  {
    if key == "constructor" || key == "__proto__" {
      PrototypeNamesUnlisted();
      assert CssColors.Lookup(key).None? && key in PrototypeNames;
    }
  }

  /** `parseColor` ends by returning a record or `null`, or by throwing. */
  datatype Outcome = Returns(value: Option<Parsed>) | Throws

  /**
   * `parseColor` as written: an inherited property is truthy, so it is
   * handed to `hexToRgb` as if it were a hex code, and `hex.replace` is not
   * a function on it. Every other text gets the result of `ParseColor`.
   */
  function ParseColorAsWritten(s: string): (r: Outcome)
    ensures r.Throws? <==> TableProperty(Lower(s)).Inherited?
    ensures r.Throws? <==> Lower(s) == "constructor" || Lower(s) == "__proto__"
    ensures r.Returns? ==> r.value == ParseColor(s)
  {
    InheritedKeys(Lower(s));
    if TableProperty(Lower(s)).Inherited? then Throws else Returns(ParseColor(s))
  }

  /** The text `__proto__` makes `parseColor` as written throw, where the own-key lookup returns `null`. */
  lemma ProtoKeyThrows(s: string)
    requires s == "__proto__"
    ensures ParseColorAsWritten(s).Throws?
    ensures ParseColor(s).None?
  {
    ProtoKeyLower(s);
    NotAName(s, 0);
    ProtoKeyUncaptured(s);
    NoneCaptured(s);
    Differs(s, "#", 0);
    NullWhen(s);
  }

  /** Lower-casing leaves `__proto__` as it is. */
  lemma ProtoKeyLower(s: string)
    requires s == "__proto__"
    ensures Lower(s) == s && s in PrototypeNames
  {
  }

  /** No functional notation starts with `_`. */
  lemma ProtoKeyUncaptured(s: string)
    requires s == "__proto__"
    ensures Capture(G.RGB, s).None? && Capture(G.RGBA, s).None? && Capture(G.HSL, s).None?
    ensures Capture(G.HSV, s).None? && Capture(G.HSB, s).None? && Capture(G.CMYK, s).None?
  {
    Differs(s, G.Prefix(G.RGB), 0);
    Differs(s, G.Prefix(G.RGBA), 0);
    Differs(s, G.Prefix(G.HSL), 0);
    Differs(s, G.Prefix(G.HSV), 0);
    Differs(s, G.Prefix(G.HSB), 0);
    Differs(s, G.Prefix(G.CMYK), 0);
  }
}
