/**
 * `parseColorForTooltip` (extension.js): the hover text of a colour
 * literal. It starts with `Color: ` and the literal; a literal that parses
 * gets one line per other notation, and one that does not gets at most one
 * `Format:` line naming the notation its prefix suggests.
 */
module Tooltip {

  import opened Wrappers
  import opened Text
  import opened ColorModel
  import opened ColorParser

  /** A number as a template literal writes it. */
  function NumText(x: Num): (t: string)
    ensures x.Fin? && x.n >= 0 ==> AllDigits(t) && DecimalValue(t) == x.n
    ensures x.Fin? && x.n < 0 ==> |t| > 1 && t[0] == '-' && AllDigits(t[1..]) && DecimalValue(t[1..]) == -x.n
  {
    match x
    case Fin(n) => IntToString(n)
    case Infinity => "Infinity"
    case NaN => "NaN"
  }

  /** The conversion lines, in the order the tooltip writes them. */
  datatype Line = HexLine | RgbLine | RgbaLine | HslLine | HsvLine | CmykLine

  const Lines: seq<Line> := [HexLine, RgbLine, RgbaLine, HslLine, HsvLine, CmykLine]

  /**
   * Whether the tooltip writes line `l` for record `p`: each test of the
   * source, field presence included. A named colour gets its HEX line from
   * a test of its own.
   */
  predicate Shows(p: Parsed, l: Line)
  {
    match l
    case HexLine => p.kind == NamedColor || (p.hex != "" && p.kind != HexColor && p.kind != NamedColor)
    case RgbLine => p.kind != RgbColor && p.kind != RgbaColor
    case RgbaLine => p.rgba.Some? && p.kind != RgbaColor
    case HslLine => p.kind != HslColor
    case HsvLine => p.hsv.Some? && p.kind != HsvColor && p.kind != HsbColor
    case CmykLine => p.kind != CmykColor
  }

  /** The text of line `l`. */
  function LineText(p: Parsed, l: Line): string
    requires Shows(p, l)
  {
    match l
    case HexLine => "\nHEX: " + p.hex
    case RgbLine => "\nRGB: rgb(" + NumText(p.rgb.r) + ", " + NumText(p.rgb.g) + ", " + NumText(p.rgb.b) + ")"
    case RgbaLine =>
      var c := p.rgba.value;
      "\nRGBA: rgba(" + IntToString(c.r) + ", " + IntToString(c.g) + ", " + IntToString(c.b) + ", " + c.a + ")"
    case HslLine => "\nHSL: hsl(" + NumText(p.hsl.h) + ", " + NumText(p.hsl.s) + "%, " + NumText(p.hsl.l) + "%)"
    case HsvLine =>
      var c := p.hsv.value;
      "\nHSV: hsv(" + NumText(c.h) + ", " + NumText(c.s) + "%, " + NumText(c.v) + "%)"
    case CmykLine =>
      "\nCMYK: cmyk(" + NumText(p.cmyk.c) + "%, " + NumText(p.cmyk.m) + "%, " + NumText(p.cmyk.y) + "%, " + NumText(p.cmyk.k) + "%)"
  }

  /** `text` with the shown lines of `ls` appended, in order. */
  function WithLines(text: string, p: Parsed, ls: seq<Line>): string
  {
    if ls == [] then text
    else
      var l := ls[|ls| - 1];
      WithLines(text, p, ls[..|ls| - 1]) + Piece(p, l)
  }

  /** What line `l` adds to the tooltip of `p`: its text when shown, nothing otherwise. */
  function Piece(p: Parsed, l: Line): string
  {
    if Shows(p, l) then LineText(p, l) else ""
  }

  /** The fallback notations, tested in this order with `startsWith`, and the line each one adds. */
  const Fallbacks: seq<(string, string)> := [
    ("rgba", "\nFormat: RGBA"), ("rgb", "\nFormat: RGB"), ("hsl", "\nFormat: HSL"),
    ("hsv", "\nFormat: HSV"), ("hsb", "\nFormat: HSB"), ("cmyk", "\nFormat: CMYK"),
    ("lab", "\nFormat: LAB"), ("lch", "\nFormat: LCH"), ("yuv", "\nFormat: YUV"),
    ("ycbcr", "\nFormat: YCbCr")]

  /** The line of the first entry of `t` whose prefix `s` starts with. */
  function FirstPrefix(s: string, t: seq<(string, string)>): (r: Option<string>)
    ensures r.None? <==> forall k :: 0 <= k < |t| ==> !StartsWith(s, t[k].0)
  {
    if t == [] then None
    else if StartsWith(s, t[0].0) then Some(t[0].1)
    else
      assert forall k :: 1 <= k < |t| ==> t[k] == t[1..][k - 1];
      FirstPrefix(s, t[1..])
  }

  /** The line found is that of an entry the text starts with, and no earlier entry matches. */
  lemma {:induction false} FirstPrefixIsFirst(s: string, t: seq<(string, string)>)
    requires FirstPrefix(s, t).Some?
    ensures exists k :: (0 <= k < |t| && t[k].1 == FirstPrefix(s, t).value && StartsWith(s, t[k].0)
                         && forall j :: 0 <= j < k ==> !StartsWith(s, t[j].0))
  {
    if !StartsWith(s, t[0].0) {
      FirstPrefixIsFirst(s, t[1..]);
      var k :| (0 <= k < |t[1..]| && t[1..][k].1 == FirstPrefix(s, t[1..]).value && StartsWith(s, t[1..][k].0)
                && forall j :: 0 <= j < k ==> !StartsWith(s, t[1..][j].0));
      assert t[k + 1] == t[1..][k];
      forall j | 0 <= j < k + 1
        ensures !StartsWith(s, t[j].0)
      {
        if j > 0 {
          assert t[j] == t[1..][j - 1];
        }
      }
    } else {
      assert t[0].1 == FirstPrefix(s, t).value;
    }
  }

  /** The `Format:` line of a literal that does not parse, or nothing. */
  function FormatLine(s: string): string
  {
    var found := FirstPrefix(s, Fallbacks);
    if found.Some? then found.value else ""
  }

  /** The tooltip `parseColorForTooltip` returns. */
  function TooltipText(s: string): (r: string)
    ensures StartsWith(r, "Color: " + s)
  {
    var parsed := ParseColor(s);
    var header := "Color: " + s;
    if parsed.Some? then
      WithLinesExtends(header, parsed.value, Lines);
      WithLines(header, parsed.value, Lines)
    else
      assert (header + FormatLine(s))[..|header|] == header;
      header + FormatLine(s)
  }

  /** `parseColorForTooltip`: the text built line by line. */
  method ParseColorForTooltip(colorStr: string) returns (tooltip: string)
    ensures tooltip == TooltipText(colorStr)
  {
    tooltip := "Color: " + colorStr;
    var parsed := ParseColor(colorStr);
    if parsed.Some? {
      tooltip := AppendConversions(tooltip, parsed.value);
    } else {
      tooltip := AppendFormat(tooltip, colorStr);
    }
  }

  /** The `if (parsedColor)` branch: one `+=` per conversion line, in the order of `Lines`. */
  method AppendConversions(header: string, p: Parsed) returns (tooltip: string)
    ensures tooltip == WithLines(header, p, Lines)
  {
    tooltip := AppendHex(header, p);
    ConversionsStep(header, p, 0);
    tooltip := AppendRgb(tooltip, p);
    ConversionsStep(header, p, 1);
    tooltip := AppendRgba(tooltip, p);
    ConversionsStep(header, p, 2);
    tooltip := AppendHsl(tooltip, p);
    ConversionsStep(header, p, 3);
    tooltip := AppendHsv(tooltip, p);
    ConversionsStep(header, p, 4);
    tooltip := AppendCmyk(tooltip, p);
    ConversionsStep(header, p, 5);
    assert Lines[..6] == Lines;
  }

  /** The two HEX tests: one for a named colour, one for every other notation but hex. */
  method AppendHex(text: string, p: Parsed) returns (t: string)
    ensures t == text + Piece(p, HexLine)
  {
    t := text;
    if p.kind == NamedColor {
      t := t + ("\nHEX: " + p.hex);
    }
    if p.hex != "" && p.kind != HexColor && p.kind != NamedColor {
      t := t + ("\nHEX: " + p.hex);
    }
  }

  /** The RGB test: every notation but `rgb` and `rgba`. */
  method AppendRgb(text: string, p: Parsed) returns (t: string)
    ensures t == text + Piece(p, RgbLine)
  {
    t := text;
    if p.kind != RgbColor && p.kind != RgbaColor {
      t := t + ("\nRGB: rgb(" + NumText(p.rgb.r) + ", " + NumText(p.rgb.g) + ", " + NumText(p.rgb.b) + ")");
    }
  }

  /** The RGBA test: a record with an `rgba` field whose type is not `rgba`. */
  method AppendRgba(text: string, p: Parsed) returns (t: string)
    ensures t == text + Piece(p, RgbaLine)
  {
    t := text;
    if p.rgba.Some? && p.kind != RgbaColor {
      var c := p.rgba.value;
      t := t + ("\nRGBA: rgba(" + IntToString(c.r) + ", " + IntToString(c.g) + ", " + IntToString(c.b) + ", " + c.a + ")");
    }
  }

  /** The HSL test: every notation but `hsl`. */
  method AppendHsl(text: string, p: Parsed) returns (t: string)
    ensures t == text + Piece(p, HslLine)
  {
    t := text;
    if p.kind != HslColor {
      t := t + ("\nHSL: hsl(" + NumText(p.hsl.h) + ", " + NumText(p.hsl.s) + "%, " + NumText(p.hsl.l) + "%)");
    }
  }

  /** The HSV test: a record with an `hsv` field whose type is neither `hsv` nor `hsb`. */
  method AppendHsv(text: string, p: Parsed) returns (t: string)
    ensures t == text + Piece(p, HsvLine)
  {
    t := text;
    if p.hsv.Some? && p.kind != HsvColor && p.kind != HsbColor {
      var c := p.hsv.value;
      t := t + ("\nHSV: hsv(" + NumText(c.h) + ", " + NumText(c.s) + "%, " + NumText(c.v) + "%)");
    }
  }

  /** The CMYK test: every notation but `cmyk`. */
  method AppendCmyk(text: string, p: Parsed) returns (t: string)
    ensures t == text + Piece(p, CmykLine)
  {
    t := text;
    if p.kind != CmykColor {
      t := t + ("\nCMYK: cmyk(" + NumText(p.cmyk.c) + "%, " + NumText(p.cmyk.m) + "%, "
        + NumText(p.cmyk.y) + "%, " + NumText(p.cmyk.k) + "%)");
    }
  }

  /** The `else` branch: the `Format:` line of the first prefix that fits, if any. */
  method AppendFormat(header: string, colorStr: string) returns (tooltip: string)
    ensures tooltip == header + FormatLine(colorStr)
  {
    tooltip := header;
    FallbackHead(colorStr);
    FallbackTail(colorStr);
    if StartsWith(colorStr, "rgba") {
      tooltip := tooltip + "\nFormat: RGBA";
    } else if StartsWith(colorStr, "rgb") {
      tooltip := tooltip + "\nFormat: RGB";
    } else if StartsWith(colorStr, "hsl") {
      tooltip := tooltip + "\nFormat: HSL";
    } else if StartsWith(colorStr, "hsv") {
      tooltip := tooltip + "\nFormat: HSV";
    } else if StartsWith(colorStr, "hsb") {
      tooltip := tooltip + "\nFormat: HSB";
    } else if StartsWith(colorStr, "cmyk") {
      tooltip := tooltip + "\nFormat: CMYK";
    } else if StartsWith(colorStr, "lab") {
      tooltip := tooltip + "\nFormat: LAB";
    } else if StartsWith(colorStr, "lch") {
      tooltip := tooltip + "\nFormat: LCH";
    } else if StartsWith(colorStr, "yuv") {
      tooltip := tooltip + "\nFormat: YUV";
    } else if StartsWith(colorStr, "ycbcr") {
      tooltip := tooltip + "\nFormat: YCbCr";
    }
  }

  /** One more line of the list: its piece is appended. */
  lemma ConversionsStep(text: string, p: Parsed, k: nat)
    requires k < |Lines|
    ensures WithLines(text, p, Lines[..k + 1]) ==
      WithLines(text, p, Lines[..k]) + Piece(p, Lines[k])
  {
    assert Lines[..k + 1][..k] == Lines[..k];
  }

  /** One more entry of the fallback table. */
  lemma FallbackStep(s: string, k: nat)
    requires k < |Fallbacks|
    ensures FirstPrefix(s, Fallbacks[k..]) ==
      if StartsWith(s, Fallbacks[k].0) then Some(Fallbacks[k].1) else FirstPrefix(s, Fallbacks[k + 1..])
  {
    assert Fallbacks[k..][1..] == Fallbacks[k + 1..];
  }

  /** The first five entries of the fallback table read as the `else if` chain of the source. */
  lemma FallbackHead(s: string)
    ensures FirstPrefix(s, Fallbacks) ==
      if StartsWith(s, "rgba") then Some("\nFormat: RGBA")
      else if StartsWith(s, "rgb") then Some("\nFormat: RGB")
      else if StartsWith(s, "hsl") then Some("\nFormat: HSL")
      else if StartsWith(s, "hsv") then Some("\nFormat: HSV")
      else if StartsWith(s, "hsb") then Some("\nFormat: HSB")
      else FirstPrefix(s, Fallbacks[5..])
  {
    assert Fallbacks[0..] == Fallbacks;
    FallbackStep(s, 0);
    FallbackStep(s, 1);
    FallbackStep(s, 2);
    FallbackStep(s, 3);
    FallbackStep(s, 4);
  }

  /** The last five entries, down to no line at all. */
  lemma FallbackTail(s: string)
    ensures FirstPrefix(s, Fallbacks[5..]) ==
      if StartsWith(s, "cmyk") then Some("\nFormat: CMYK")
      else if StartsWith(s, "lab") then Some("\nFormat: LAB")
      else if StartsWith(s, "lch") then Some("\nFormat: LCH")
      else if StartsWith(s, "yuv") then Some("\nFormat: YUV")
      else if StartsWith(s, "ycbcr") then Some("\nFormat: YCbCr")
      else None
  {
    FallbackStep(s, 5);
    FallbackStep(s, 6);
    FallbackStep(s, 7);
    FallbackStep(s, 8);
    FallbackStep(s, 9);
    assert Fallbacks[10..] == [];
  }

  /** The line of a record's own notation, which its tooltip leaves out; a named colour has none. */
  function OwnLine(kind: ColorType): Option<Line>
  {
    match kind
    case NamedColor => None
    case HexColor => Some(HexLine)
    case RgbColor => Some(RgbLine)
    case RgbaColor => Some(RgbLine)
    case HslColor => Some(HslLine)
    case HsvColor => Some(HsvLine)
    case HsbColor => Some(HsvLine)
    case CmykColor => Some(CmykLine)
  }

  /**
   * For a literal that parses, the tooltip shows every conversion line but
   * the record's own and the RGBA one: only an `rgba(…)` record has an
   * `rgba` field, and that record's type is exactly the one the RGBA test
   * excludes.
   */
  lemma LinesByType(s: string, l: Line)
    requires ParseColor(s).Some?
    ensures Shows(ParseColor(s).value, l) <==> l != RgbaLine && OwnLine(ParseColor(s).value.kind) != Some(l)
  {
    RecordShape(s);
    LinesByShape(ParseColor(s).value, l);
  }

  /** The same for any record with the shape `parseColor` gives its records. */
  lemma LinesByShape(p: Parsed, l: Line)
    requires Shaped(p)
    ensures Shows(p, l) <==> l != RgbaLine && OwnLine(p.kind) != Some(l)
  {
  }

  /** The text built so far is never rewritten: lines are only appended. */
  lemma {:induction false} WithLinesExtends(text: string, p: Parsed, ls: seq<Line>)
    ensures StartsWith(WithLines(text, p, ls), text)
  {
    if ls != [] {
      WithLinesExtends(text, p, ls[..|ls| - 1]);
      var prev := WithLines(text, p, ls[..|ls| - 1]);
      assert (prev + Piece(p, ls[|ls| - 1]))[..|text|] == prev[..|text|];
    }
  }

  /**
   * A literal that does not parse gets no `Format:` line exactly when it
   * starts with none of the ten prefixes.
   */
  lemma FormatLineIff(s: string)
    ensures FormatLine(s) == "" <==> forall k :: 0 <= k < |Fallbacks| ==> !StartsWith(s, Fallbacks[k].0)
  {
    if FirstPrefix(s, Fallbacks).Some? {
      FirstPrefixIsFirst(s, Fallbacks);
    }
  }

  /**
   * `rgba` is tested before `rgb`, so an `rgba…` literal is not reported as
   * RGB although it starts with `rgb` too.
   */
  lemma RgbaBeforeRgb(s: string)
    ensures StartsWith(s, "rgba") ==> FormatLine(s) == "\nFormat: RGBA"
    ensures StartsWith(s, "rgb") && !StartsWith(s, "rgba") ==> FormatLine(s) == "\nFormat: RGB"
  {
    FallbackHead(s);
  }

  /**
   * An `rgb(…)` literal with two fields does not parse, and its tooltip
   * carries only the RGB format hint.
   */
  lemma TwoFieldRgbTooltip(s: string)
    requires s == "rgb(1,2)"
    ensures TooltipText(s) == "Color: " + s + "\nFormat: RGB"
  {
    TwoFieldRgbFacts(s);
    Differs(s, "rgba", 3);
    RgbaBeforeRgb(s);
  }
}
