/**
 * The `COLOR_REGEX` table (src/color/color-regex.js, repeated in
 * extension.js) as matchers over strings.
 *
 * Every pattern is deterministic: each `\s*`, `-?`, `\d{1,3}` and `\d+` is
 * followed by a token that cannot start with what it would give back, so the
 * greedy choice is the only one that can lead to a match. The matchers below
 * therefore take one left-to-right pass and fail where the regex would fail
 * after backtracking. The two alternations are tried in the regex's order:
 * six hex digits before three, and the colour names in table order.
 */
module ColorGrammar {

  import opened Wrappers
  import opened Text
  import CssColors

  /** The keys of `COLOR_REGEX`, in the order `Object.entries` visits them. */
  datatype Format = HEX | RGB | RGBA | HSL | HSV | HSB | CMYK | LAB | LCH | YUV | YCBCR | NAMED

  const Formats: seq<Format> := [HEX, RGB, RGBA, HSL, HSV, HSB, CMYK, LAB, LCH, YUV, YCBCR, NAMED]

  /** The key as a string, as `enabledColorFormats` lists it. */
  function FormatName(f: Format): string
  {
    match f
    case HEX => "HEX"
    case RGB => "RGB"
    case RGBA => "RGBA"
    case HSL => "HSL"
    case HSV => "HSV"
    case HSB => "HSB"
    case CMYK => "CMYK"
    case LAB => "LAB"
    case LCH => "LCH"
    case YUV => "YUV"
    case YCBCR => "YCBCR"
    case NAMED => "NAMED"
  }

  /** One field of a functional notation: `-?\d{1,3}` with an optional sign and `%`, or the RGBA alpha. */
  datatype Field = Int(signed: bool, percent: bool) | Alpha

  /** A functional notation: a case-sensitive name, `(`, comma-separated fields, `)`. */
  predicate IsFunctional(f: Format)
  {
    f != HEX && f != NAMED
  }

  /** The literal text up to and including `(`. */
  function Prefix(f: Format): string
  {
    match f
    case RGB => "rgb("
    case RGBA => "rgba("
    case HSL => "hsl("
    case HSV => "hsv("
    case HSB => "hsb("
    case CMYK => "cmyk("
    case LAB => "lab("
    case LCH => "lch("
    case YUV => "yuv("
    case YCBCR => "ycbcr("
    case _ => ""
  }

  const Plain := Int(false, false)
  const Percent := Int(false, true)
  const Signed := Int(true, false)

  /** The fields of each notation, in order. */
  function Fields(f: Format): seq<Field>
  {
    match f
    case RGB => [Plain, Plain, Plain]
    case RGBA => [Plain, Plain, Plain, Alpha]
    case HSL => [Plain, Percent, Percent]
    case HSV => [Plain, Percent, Percent]
    case HSB => [Plain, Percent, Percent]
    case CMYK => [Percent, Percent, Percent, Percent]
    case LAB => [Percent, Signed, Signed]
    case LCH => [Percent, Plain, Plain]
    case YUV => [Percent, Signed, Signed]
    case YCBCR => [Plain, Signed, Signed]
    case _ => []
  }

  /** How many fields capture an integer. */
  function IntCount(fields: seq<Field>): nat
  {
    if fields == [] then 0 else (if fields[0].Int? then 1 else 0) + IntCount(fields[1..])
  }

  /**
   * A match: where it starts and ends in the text, the integer captures in
   * order (`parseInt(m[k], 10)`), and the alpha capture's text.
   */
  datatype Match = Match(index: nat, end: nat, ints: seq<int>, alpha: Option<string>)

  /** `\b` between positions `k - 1` and `k`, the outside of the text counting as non-word. */
  predicate Boundary(s: string, k: nat)
  {
    (0 < k <= |s| && IsWordChar(s[k - 1])) != (k < |s| && IsWordChar(s[k]))
  }

  /** `\s*` from `i`: the first position at or after `i` that is not white space. */
  function SkipSpaces(s: string, i: nat): (j: nat)
    requires i <= |s|
    ensures i <= j <= |s|
    ensures forall k :: i <= k < j ==> IsSpace(s[k])
    ensures j == |s| || !IsSpace(s[j])
    decreases |s| - i
  {
    if i < |s| && IsSpace(s[i]) then SkipSpaces(s, i + 1) else i
  }

  /** Length of the run of decimal digits starting at `i`. */
  function DigitRun(s: string, i: nat): (n: nat)
    requires i <= |s|
    ensures i + n <= |s|
    ensures forall k :: i <= k < i + n ==> IsDigit(s[k])
    ensures i + n == |s| || !IsDigit(s[i + n])
    decreases |s| - i
  {
    if i < |s| && IsDigit(s[i]) then 1 + DigitRun(s, i + 1) else 0
  }

  /** What a stretch of fields matched: where it ends, the integer captures in order, and the alpha text. */
  datatype Span = Span(end: nat, ints: seq<int>, alpha: Option<string>)

  /** `-?\d{1,3}` with `%` after it when the field asks for one. */
  function MatchInt(s: string, i: nat, signed: bool, percent: bool): (r: Option<Span>)
    requires i <= |s|
    ensures r.Some? ==> i < r.value.end <= |s| && |r.value.ints| == 1 && r.value.alpha.None?
    ensures r.Some? ==> -999 <= r.value.ints[0] <= 999
    ensures r.Some? && !signed ==> 0 <= r.value.ints[0]
    ensures r.Some? && r.value.ints[0] < 0 ==> s[i] == '-'
    ensures r.Some? ==> (s[r.value.end - 1] == '%' <==> percent)
    ensures r.Some? ==>
      var j := if signed && s[i] == '-' then i + 1 else i;
      var e := if percent then r.value.end - 1 else r.value.end;
      j < e <= j + 3 && AllDigits(s[j..e])
      && r.value.ints[0] == (if j > i then -(DecimalValue(s[j..e]) as int) else DecimalValue(s[j..e]))
  {
    var neg := signed && i < |s| && s[i] == '-';
    var j := if neg then i + 1 else i;
    var n := DigitRun(s, j);
    if n == 0 || n > 3 then None
    else
      var digits := s[j..j + n];
      assert AllDigits(digits);
      DecimalBound(digits);
      var v := if neg then -(DecimalValue(digits) as int) else DecimalValue(digits);
      var k := j + n;
      if !percent then Some(Span(k, [v], None))
      else if k < |s| && s[k] == '%' then Some(Span(k + 1, [v], None))
      else None
  }

  /** `(0?\.\d+|1|0)`, capturing its text. */
  function MatchAlpha(s: string, i: nat): (r: Option<Span>)
    requires i <= |s|
    ensures r.Some? ==> i < r.value.end <= |s| && r.value.ints == [] && r.value.alpha == Some(s[i..r.value.end])
  {
    var dot := if i < |s| && s[i] == '.' then i + 1
      else if i + 1 < |s| && s[i] == '0' && s[i + 1] == '.' then i + 2
      else 0;
    var n := if dot == 0 then 0 else DigitRun(s, dot);
    if n > 0 then Some(Span(dot + n, [], Some(s[i..dot + n])))
    else if i < |s| && (s[i] == '1' || s[i] == '0') then Some(Span(i + 1, [], Some(s[i..i + 1])))
    else None
  }

  /** One field at `i`. */
  function MatchField(s: string, i: nat, field: Field): (r: Option<Span>)
    requires i <= |s|
    ensures r.Some? ==> i < r.value.end <= |s| && |r.value.ints| == (if field.Int? then 1 else 0)
    ensures r.Some? ==> CapturesWithin(r.value.ints, if field.Int? && field.signed then -999 else 0)
    ensures r.Some? ==> (r.value.alpha.Some? <==> field == Alpha)
  {
    match field
    case Int(signed, percent) => MatchInt(s, i, signed, percent)
    case Alpha => MatchAlpha(s, i)
  }

  /**
   * The fields from position `i` on: for each field `\s*`, the field and
   * `\s*`, with a `,` before every field but the first, then `)`.
   */
  function MatchFields(s: string, i: nat, fields: seq<Field>, first: bool): (r: Option<Span>)
    requires i <= |s|
    ensures r.Some? ==> i < r.value.end <= |s|
    decreases |fields|
  {
    if fields == [] then
      if i < |s| && s[i] == ')' then Some(Span(i + 1, [], None)) else None
    else if !first && !(i < |s| && s[i] == ',') then None
    else
      var head := MatchField(s, SkipSpaces(s, if first then i else i + 1), fields[0]);
      if head.None? then None
      else
        var tail := MatchFields(s, SkipSpaces(s, head.value.end), fields[1..], false);
        if tail.None? then None
        else
          var alpha := if head.value.alpha.Some? then head.value.alpha else tail.value.alpha;
          Some(Span(tail.value.end, head.value.ints + tail.value.ints, alpha))
  }

  /** `#([A-Fa-f0-9]{6}|[A-Fa-f0-9]{3})\b` at `i`: six digits first, then three. */
  function MatchHex(s: string, i: nat): (r: Option<nat>)
    requires i <= |s|
    ensures r.Some? ==> r.value == i + 7 || r.value == i + 4
    ensures r.Some? ==> r.value <= |s|
  {
    if i < |s| && s[i] == '#' then
      var n := HexRun(s[i + 1..]);
      if n >= 6 && Boundary(s, i + 7) then Some(i + 7)
      else if n >= 3 && Boundary(s, i + 4) then Some(i + 4)
      else None
    else None
  }

  /** `name` sits at `i`, compared ASCII-case-insensitively (the `i` flag). */
  predicate NameAt(s: string, i: nat, name: string)
  {
    i + |name| <= |s| && Lower(s[i..i + |name|]) == name
  }

  /** The alternation `(name1|name2|…)\b`: the first name in table order that fits and ends on a boundary. */
  function FirstName(s: string, i: nat, names: seq<(string, string)>): (r: Option<nat>)
    ensures r.Some? ==>
      exists k :: 0 <= k < |names| && NameAt(s, i, names[k].0) && r.value == i + |names[k].0| && Boundary(s, r.value)
    ensures r.None? ==> forall k :: 0 <= k < |names| ==> !(NameAt(s, i, names[k].0) && Boundary(s, i + |names[k].0|))
  {
    if names == [] then None
    else if NameAt(s, i, names[0].0) && Boundary(s, i + |names[0].0|) then Some(i + |names[0].0|)
    else
      var r := FirstName(s, i, names[1..]);
      assert forall k :: 0 < k < |names| ==> names[k] == names[1..][k - 1];
      r
  }

  /** One attempt of a pattern at position `i` (what `exec` tries at each position). */
  function MatchAt(f: Format, s: string, i: nat): (r: Option<Match>)
    requires i <= |s|
    ensures r.Some? ==> r.value.index == i && i < r.value.end <= |s|
  {
    if f == HEX then MatchHexAt(s, i)
    else if f == NAMED then MatchNamedAt(s, i)
    else MatchFunctional(Prefix(f), Fields(f), s, i)
  }

  function MatchHexAt(s: string, i: nat): (r: Option<Match>)
    requires i <= |s|
    ensures r.Some? ==> r.value.index == i && i < r.value.end <= |s|
  {
    var e := MatchHex(s, i);
    if e.None? then None else Some(Match(i, e.value, [], None))
  }

  /** `\b(name1|name2|…)\b` at `i`. */
  function MatchNamedAt(s: string, i: nat): (r: Option<Match>)
    requires i <= |s|
    ensures r.Some? ==> r.value.index == i && i < r.value.end <= |s|
  {
    if !Boundary(s, i) then None
    else
      var e := FirstName(s, i, CssColors.Table());
      if e.None? then None
      else
        CssColors.TableWellFormed();
        Some(Match(i, e.value, [], None))
  }

  /** The literal prefix `p` at `i`, then the fields. */
  function MatchFunctional(p: string, fields: seq<Field>, s: string, i: nat): (r: Option<Match>)
    requires i <= |s|
    ensures r.Some? ==> r.value.index == i && i + |p| < r.value.end <= |s|
  {
    if i + |p| <= |s| && s[i..i + |p|] == p then
      var body := MatchFields(s, i + |p|, fields, true);
      if body.None? then None
      else Some(Match(i, body.value.end, body.value.ints, body.value.alpha))
    else None
  }

  /** `exec` from `from` (the regex's `lastIndex`): the leftmost position at or after `from` where the pattern matches. */
  function FindFrom(f: Format, s: string, from: nat): (r: Option<Match>)
    requires from <= |s|
    ensures r.Some? ==> from <= r.value.index <= |s| && MatchAt(f, s, r.value.index) == r
    ensures r.None? ==> forall k :: from <= k <= |s| ==> MatchAt(f, s, k).None?
    decreases |s| - from
  {
    var m := MatchAt(f, s, from);
    if m.Some? then m
    else if from == |s| then None
    else FindFrom(f, s, from + 1)
  }

  /** `exec` returns the leftmost match: no position between `from` and the match's start matches. */
  lemma {:induction false} FindFromLeftmost(f: Format, s: string, from: nat, k: nat)
    requires from <= k <= |s|
    requires FindFrom(f, s, from).Some? && k < FindFrom(f, s, from).value.index
    ensures MatchAt(f, s, k).None?
    decreases |s| - from
  {
    if k > from {
      FindFromLeftmost(f, s, from + 1, k);
    }
  }

  /** At most three digits make at most 999. */
  lemma DecimalBound(d: string)
    requires AllDigits(d) && |d| <= 3
    ensures DecimalValue(d) <= 999
  {
    if d != [] {
      assert AllDigits(d[..|d| - 1]);
      DecimalBound(d[..|d| - 1]);
    }
  }

  /** No field of the list allows a leading `-`. */
  predicate Unsigned(fields: seq<Field>)
  {
    forall k :: 0 <= k < |fields| ==> !(fields[k].Int? && fields[k].signed)
  }

  /** Every capture lies in `lo..999`. */
  predicate CapturesWithin(ints: seq<int>, lo: int)
  {
    forall k :: 0 <= k < |ints| ==> lo <= ints[k] <= 999
  }

  /**
   * A successful field match captures one integer per integer field, each
   * of at most three digits, and none is negative unless a field allows `-`.
   */
  lemma {:induction false} MatchFieldsCaptures(s: string, i: nat, fields: seq<Field>, first: bool)
    requires i <= |s|
    requires MatchFields(s, i, fields, first).Some?
    ensures |MatchFields(s, i, fields, first).value.ints| == IntCount(fields)
    ensures CapturesWithin(MatchFields(s, i, fields, first).value.ints, if Unsigned(fields) then 0 else -999)
    ensures MatchFields(s, i, fields, first).value.alpha.Some? <==> Alpha in fields
    decreases |fields|
  {
    if fields != [] {
      var rest := fields[1..];
      assert Unsigned(fields) ==> Unsigned(rest) by {
        assert forall k :: 0 <= k < |rest| ==> rest[k] == fields[k + 1];
      }
      assert fields == [fields[0]] + rest;
      var head := MatchField(s, SkipSpaces(s, if first then i else i + 1), fields[0]).value;
      MatchFieldsCaptures(s, SkipSpaces(s, head.end), rest, false);
      var tail := MatchFields(s, SkipSpaces(s, head.end), rest, false).value;
      var lo := if Unsigned(fields) then 0 else -999;
      assert CapturesWithin(head.ints, lo);
      assert CapturesWithin(tail.ints, lo);
      assert MatchFields(s, i, fields, first).value.ints == head.ints + tail.ints;
    }
  }

  /** The notations whose fields take no sign: RGB, RGBA, HSL, HSV, HSB, CMYK and LCH. */
  predicate UnsignedFormat(f: Format)
  {
    f in {RGB, RGBA, HSL, HSV, HSB, CMYK, LCH}
  }

  /**
   * A functional match starts with the notation's lower-case name and `(`,
   * captures one integer per field (four for CMYK, three otherwise), each
   * within `0..999` for the unsigned notations and `-999..999` for LAB, YUV
   * and YCbCr.
   */
  lemma FunctionalMatch(f: Format, s: string, i: nat)
    requires IsFunctional(f) && i <= |s| && MatchAt(f, s, i).Some?
    ensures i + |Prefix(f)| <= |s| && s[i..i + |Prefix(f)|] == Prefix(f)
    ensures |MatchAt(f, s, i).value.ints| == (if f == CMYK then 4 else 3)
    ensures CapturesWithin(MatchAt(f, s, i).value.ints, if UnsignedFormat(f) then 0 else -999)
    ensures MatchAt(f, s, i).value.alpha.Some? <==> f == RGBA
  {
    assert MatchAt(f, s, i) == MatchFunctional(Prefix(f), Fields(f), s, i);
    FunctionalCaptures(Prefix(f), Fields(f), s, i);
    FieldCounts(f);
  }

  /** The captures of a functional match, for any name and fields. */
  lemma FunctionalCaptures(p: string, fields: seq<Field>, s: string, i: nat)
    requires i <= |s| && MatchFunctional(p, fields, s, i).Some?
    ensures i + |p| <= |s| && s[i..i + |p|] == p
    ensures |MatchFunctional(p, fields, s, i).value.ints| == IntCount(fields)
    ensures CapturesWithin(MatchFunctional(p, fields, s, i).value.ints, if Unsigned(fields) then 0 else -999)
    ensures MatchFunctional(p, fields, s, i).value.alpha.Some? <==> Alpha in fields
  {
    var body := FunctionalBody(p, fields, s, i);
    MatchFieldsCaptures(s, i + |p|, fields, true);
  }

  /** A functional match holds at least one comma between each two of its fields. */
  lemma FunctionalCommas(p: string, fields: seq<Field>, s: string, i: nat)
    requires i <= |s| && MatchFunctional(p, fields, s, i).Some?
    ensures Count(s, i, MatchFunctional(p, fields, s, i).value.end, ',') >= |fields| - 1
  {
    var body := FunctionalBody(p, fields, s, i);
    FieldsCommasFrom(s, i, i + |p|, fields);
  }

  /** The commas a field match needs, counted from any earlier position. */
  lemma FieldsCommasFrom(s: string, i: nat, j: nat, fields: seq<Field>)
    requires i <= j <= |s| && MatchFields(s, j, fields, true).Some?
    ensures Count(s, i, MatchFields(s, j, fields, true).value.end, ',') >= |fields| - 1
  {
    MatchFieldsCommas(s, j, fields, true);
    CountSplit(s, i, j, MatchFields(s, j, fields, true).value.end, ',');
  }

  /** A functional match is the prefix followed by a match of the fields. */
  lemma FunctionalBody(p: string, fields: seq<Field>, s: string, i: nat) returns (body: Span)
    requires i <= |s| && MatchFunctional(p, fields, s, i).Some?
    ensures i + |p| <= |s| && s[i..i + |p|] == p
    ensures MatchFields(s, i + |p|, fields, true) == Some(body)
    ensures MatchFunctional(p, fields, s, i) == Some(Match(i, body.end, body.ints, body.alpha))
  {
    body := MatchFields(s, i + |p|, fields, true).value;
  }

  /** The prefix followed by a match of the fields is a functional match. */
  lemma FunctionalOfFields(p: string, fields: seq<Field>, s: string, i: nat)
    requires i + |p| <= |s| && s[i..i + |p|] == p && MatchFields(s, i + |p|, fields, true).Some?
    ensures MatchFunctional(p, fields, s, i).Some?
    ensures MatchFunctional(p, fields, s, i).value.end == MatchFields(s, i + |p|, fields, true).value.end
    ensures MatchFunctional(p, fields, s, i).value.ints == MatchFields(s, i + |p|, fields, true).value.ints
    ensures MatchFunctional(p, fields, s, i).value.alpha == MatchFields(s, i + |p|, fields, true).value.alpha
  {
  }

  /** The captures each notation asks for: three integers (four for CMYK), unsigned where no field is signed, alpha for RGBA only. */
  lemma FieldCounts(f: Format)
    requires IsFunctional(f)
    ensures IntCount(Fields(f)) == (if f == CMYK then 4 else 3)
    ensures Unsigned(Fields(f)) <==> UnsignedFormat(f)
    ensures Alpha in Fields(f) <==> f == RGBA
  {
    var fs := Fields(f);
    assert fs[1..][1..] == fs[2..] && fs[2..][1..] == fs[3..];
    assert fs[0].Int? && fs[1].Int? && fs[2].Int?;
    assert IntCount(fs) == 1 + IntCount(fs[1..]);
    assert IntCount(fs[1..]) == 1 + IntCount(fs[2..]);
    assert IntCount(fs[2..]) == 1 + IntCount(fs[3..]);
    if |fs| == 4 {
      assert fs[3..][1..] == [];
      assert IntCount(fs[3..]) == (if f == CMYK then 1 else 0);
    }
    if !UnsignedFormat(f) {
      assert fs[1] == Signed;
    }
  }

  /** `s[i..i + n]` are all hex digits. */
  predicate HexDigitsAt(s: string, i: nat, n: nat)
  {
    i + n <= |s| && forall k :: i <= k < i + n ==> IsHexDigit(s[k])
  }

  /**
   * HEX matches at `i` exactly when `#` is followed by six hex digits and a
   * word boundary, or else by three hex digits and a word boundary; the
   * six-digit reading wins when both fit.
   */
  lemma HexMatchIff(s: string, i: nat)
    requires i <= |s|
    ensures MatchAt(HEX, s, i).Some? <==>
      i < |s| && s[i] == '#' &&
      ((HexDigitsAt(s, i + 1, 6) && Boundary(s, i + 7)) || (HexDigitsAt(s, i + 1, 3) && Boundary(s, i + 4)))
    ensures MatchAt(HEX, s, i).Some? ==>
      (MatchAt(HEX, s, i).value.end == i + 7 <==> HexDigitsAt(s, i + 1, 6) && Boundary(s, i + 7))
  {
    if i < |s| && s[i] == '#' {
      if i + 7 <= |s| {
        HexDigitsAtRun(s, i + 1, 6);
      }
      if i + 4 <= |s| {
        HexDigitsAtRun(s, i + 1, 3);
      }
    }
  }

  /** `HexRun` measures the run of hex digits: `m` digits follow `j` exactly when the run is at least `m` long. */
  lemma HexDigitsAtRun(s: string, j: nat, m: nat)
    requires j + m <= |s|
    ensures HexDigitsAt(s, j, m) <==> m <= HexRun(s[j..])
  {
    var t := s[j..];
    var n := HexRun(t);
    if m <= n {
      forall k | j <= k < j + m ensures IsHexDigit(s[k]) {
        assert s[k] == t[..n][k - j];
      }
    } else {
      assert s[j + n] == t[n];
    }
  }

  /**
   * A HEX match is never followed by a word character: a fourth or seventh
   * hex digit, or any letter, digit or `_`, rules it out.
   */
  lemma HexMatchEndsWord(s: string, i: nat)
    requires i <= |s| && MatchAt(HEX, s, i).Some?
    ensures s[i] == '#'
    ensures var e := MatchAt(HEX, s, i).value.end; (e == i + 4 || e == i + 7) && (e == |s| || !IsWordChar(s[e]))
  {
    var e := MatchAt(HEX, s, i).value.end;
    HexMatchIff(s, i);
    assert IsWordChar(s[e - 1]);
  }

  /** `#abcd` (four digits) holds no HEX colour. */
  lemma FourHexDigitsRejected()
    ensures FindFrom(HEX, "#abcd", 0).None?
  {
    var s := "#abcd";
    assert '#' !in s[1..];
    forall k | 0 <= k <= |s| ensures MatchAt(HEX, s, k).None? {
      if 0 < k < |s| {
        assert s[k] == s[1..][k - 1];
      }
      HexMatchIff(s, k);
    }
    FindFromNone(HEX, s, 0);
  }

  /** `#abcdefg` (seven digits) holds no HEX colour. */
  lemma SevenHexDigitsRejected(s: string)
    requires s == "#abcdefg"
    ensures FindFrom(HEX, s, 0).None?
  {
    assert '#' !in s[1..];
    forall k | 0 <= k <= |s| ensures MatchAt(HEX, s, k).None? {
      if 0 < k < |s| {
        assert s[k] == s[1..][k - 1];
      }
      HexMatchIff(s, k);
    }
    FindFromNone(HEX, s, 0);
  }

  /** `exec` finds nothing when no position at or after `from` matches. */
  lemma {:induction false} FindFromNone(f: Format, s: string, from: nat)
    requires from <= |s|
    requires forall k :: from <= k <= |s| ==> MatchAt(f, s, k).None?
    ensures FindFrom(f, s, from).None?
    decreases |s| - from
  {
    if from < |s| {
      FindFromNone(f, s, from + 1);
    }
  }

  /**
   * Functional notations are case-sensitive: a text without the notation's
   * lower-case initial holds none of its matches.
   */
  lemma NoPrefixNoMatch(f: Format, s: string)
    requires IsFunctional(f)
    requires forall k :: 0 <= k < |s| ==> s[k] != Prefix(f)[0]
    ensures FindFrom(f, s, 0).None?
  {
    forall k | 0 <= k <= |s| ensures MatchAt(f, s, k).None? {
      NoPrefixAt(f, s, k);
    }
    FindFromNone(f, s, 0);
  }

  /** `RGB(1,2,3)` is not an RGB colour. */
  lemma UpperCaseRgbRejected()
    ensures FindFrom(RGB, "RGB(1,2,3)", 0).None?
  {
    NoPrefixNoMatch(RGB, "RGB(1,2,3)");
  }

  /** `toLowerCase` keeps letters letters, so it never moves a word boundary. */
  lemma LowerWordChar(c: char)
    ensures IsWordChar(LowerChar(c)) == IsWordChar(c)
  {
  }

  /** The alternation only looks at the names and the word boundaries of the text. */
  lemma {:induction false} FirstNameSame(s: string, t: string, i: nat, names: seq<(string, string)>)
    requires forall name: string :: NameAt(s, i, name) == NameAt(t, i, name)
    requires forall k: nat :: Boundary(s, k) == Boundary(t, k)
    ensures FirstName(s, i, names) == FirstName(t, i, names)
  {
    if names != [] {
      FirstNameSame(s, t, i, names[1..]);
    }
  }

  /** NAMED carries the `i` flag: texts that agree once lower-cased give the same NAMED match. */
  lemma NamedIgnoresCase(s: string, t: string, i: nat)
    requires i <= |s| && Lower(s) == Lower(t)
    ensures MatchAt(NAMED, s, i) == MatchAt(NAMED, t, i)
  {
    assert |s| == |t|;
    forall k: nat | k <= |s| ensures Boundary(s, k) == Boundary(t, k) {
      if 0 < k {
        assert Lower(s)[k - 1] == Lower(t)[k - 1];
        LowerWordChar(s[k - 1]);
        LowerWordChar(t[k - 1]);
      }
      if k < |s| {
        assert Lower(s)[k] == Lower(t)[k];
        LowerWordChar(s[k]);
        LowerWordChar(t[k]);
      }
    }
    forall name: string ensures NameAt(s, i, name) == NameAt(t, i, name) {
      if i + |name| <= |s| {
        assert Lower(s[i..i + |name|]) == Lower(s)[i..i + |name|];
        assert Lower(t[i..i + |name|]) == Lower(t)[i..i + |name|];
      }
    }
    FirstNameSame(s, t, i, CssColors.Table());
  }

  /** The alpha alternatives `0?\.\d+`, `1` and `0` as a predicate on the captured text. */
  predicate AlphaToken(t: string)
  {
    || t == "0" || t == "1"
    || (|t| >= 2 && t[0] == '.' && AllDigits(t[1..]))
    || (|t| >= 3 && t[0] == '0' && t[1] == '.' && AllDigits(t[2..]))
  }

  /** `\s*\)` at `e`. */
  predicate ClosesAt(s: string, e: nat)
    requires e <= |s|
  {
    SkipSpaces(s, e) < |s| && s[SkipSpaces(s, e)] == ')'
  }

  /**
   * The greedy alpha matcher loses nothing: `(0?\.\d+|1|0)\s*\)` matches at
   * `i` in any way exactly when the matcher's one choice does.
   */
  lemma AlphaThenCloseIff(s: string, i: nat)
    requires i <= |s|
    ensures (MatchAlpha(s, i).Some? && ClosesAt(s, MatchAlpha(s, i).value.end)) <==>
      exists e :: i < e <= |s| && AlphaToken(s[i..e]) && ClosesAt(s, e)
  {
    if MatchAlpha(s, i).Some? {
      AlphaMatchIsToken(s, i);
    }
    if e :| i < e <= |s| && AlphaToken(s[i..e]) && ClosesAt(s, e) {
      assert e < |s| && (IsSpace(s[e]) || s[e] == ')');
      TokenIsAlphaMatch(s, i, e);
    }
  }

  /** What `MatchAlpha` consumes is an alpha token. */
  lemma AlphaMatchIsToken(s: string, i: nat)
    requires i <= |s| && MatchAlpha(s, i).Some?
    ensures AlphaToken(s[i..MatchAlpha(s, i).value.end])
  {
    var e := MatchAlpha(s, i).value.end;
    var t := s[i..e];
    if e > i + 1 {
      if s[i] == '.' {
        assert t[1..] == s[i + 1..e];
      } else {
        assert t[2..] == s[i + 2..e];
      }
    }
  }

  /** An alpha token followed by white space, `,` or `)` is what `MatchAlpha` consumes. */
  lemma TokenIsAlphaMatch(s: string, i: nat, e: nat)
    requires i < e < |s| && AlphaToken(s[i..e]) && (IsSpace(s[e]) || s[e] == ',' || s[e] == ')')
    ensures MatchAlpha(s, i).Some? && MatchAlpha(s, i).value.end == e
  {
    var t := s[i..e];
    if t == "0" || t == "1" {
      assert s[i] == t[0];
    } else if t[0] == '.' {
      assert forall k :: i + 1 <= k < e ==> IsDigit(s[k]) by {
        assert forall k :: i + 1 <= k < e ==> s[k] == t[1..][k - i - 1];
      }
      DigitRunExact(s, i + 1, e);
    } else {
      assert forall k :: i + 2 <= k < e ==> IsDigit(s[k]) by {
        assert forall k :: i + 2 <= k < e ==> s[k] == t[2..][k - i - 2];
      }
      DigitRunExact(s, i + 2, e);
    }
  }

  /** A run of digits from `j` that stops at a non-digit `e` is what `DigitRun` measures. */
  lemma {:induction false} DigitRunExact(s: string, j: nat, e: nat)
    requires j <= e < |s| && !IsDigit(s[e])
    requires forall k :: j <= k < e ==> IsDigit(s[k])
    ensures DigitRun(s, j) == e - j
    decreases e - j
  {
    if j < e {
      DigitRunExact(s, j + 1, e);
    }
  }

  /** `.5` and `0.25` are alpha texts; `1.0`, `0.` and `.` are not. */
  lemma AlphaTokenExamples()
    ensures AlphaToken(".5") && AlphaToken("0.25") && AlphaToken("1")
    ensures !AlphaToken("1.0") && !AlphaToken("0.") && !AlphaToken(".")
  {
  }

  /**
   * A NAMED match, lower-cased, is a key of the table, so the scan's
   * `CSS_COLORS[match.toLowerCase()]` always finds a colour.
   */
  lemma NamedMatchIsKey(s: string, i: nat)
    requires i <= |s| && MatchAt(NAMED, s, i).Some?
    ensures CssColors.Lookup(Lower(s[i..MatchAt(NAMED, s, i).value.end])).Some?
  {
    assert MatchAt(NAMED, s, i) == MatchNamedAt(s, i);
    FirstNameKey(s, i, CssColors.Table());
  }

  /** The name the alternation settles on is an entry of the list, spelled as the text reads once lower-cased. */
  lemma FirstNameKey(s: string, i: nat, names: seq<(string, string)>)
    requires FirstName(s, i, names).Some?
    ensures i <= FirstName(s, i, names).value <= |s|
    ensures exists k :: 0 <= k < |names| && names[k].0 == Lower(s[i..FirstName(s, i, names).value])
  {
    var e := FirstName(s, i, names).value;
    var k :| 0 <= k < |names| && NameAt(s, i, names[k].0) && e == i + |names[k].0|;
    assert names[k].0 == Lower(s[i..e]);
  }

  /** The number of times `c` occurs in `s[a..b]`. */
  function Count(s: string, a: nat, b: nat, c: char): nat
    requires a <= b <= |s|
    decreases b - a
  {
    if a == b then 0 else (if s[a] == c then 1 else 0) + Count(s, a + 1, b, c)
  }

  /** Counting distributes over adjacent stretches. */
  lemma {:induction false} CountSplit(s: string, a: nat, b: nat, d: nat, c: char)
    requires a <= b <= d <= |s|
    ensures Count(s, a, d, c) == Count(s, a, b, c) + Count(s, b, d, c)
    decreases b - a
  {
    if a < b {
      CountSplit(s, a + 1, b, d, c);
    }
  }

  /** A stretch without `c` counts none. */
  lemma {:induction false} CountNone(s: string, a: nat, b: nat, c: char)
    requires a <= b <= |s| && forall k :: a <= k < b ==> s[k] != c
    ensures Count(s, a, b, c) == 0
    decreases b - a
  {
    if a < b {
      CountNone(s, a + 1, b, c);
    }
  }

  /** Fields are comma-separated: a match of `n` fields spans at least `n - 1` commas. */
  lemma {:induction false} MatchFieldsCommas(s: string, i: nat, fields: seq<Field>, first: bool)
    requires i <= |s| && MatchFields(s, i, fields, first).Some?
    ensures Count(s, i, MatchFields(s, i, fields, first).value.end, ',') >= |fields| - (if first then 1 else 0)
    decreases |fields|
  {
    if fields != [] {
      var e := MatchFields(s, i, fields, first).value.end;
      var head := MatchField(s, SkipSpaces(s, if first then i else i + 1), fields[0]).value;
      var t := SkipSpaces(s, head.end);
      MatchFieldsCommas(s, t, fields[1..], false);
      CountSplit(s, i, t, e, ',');
      if !first {
        CountSplit(s, i, i + 1, t, ',');
      }
    }
  }

  /** A functional match of a notation with `n` fields holds at least `n - 1` commas. */
  lemma FunctionalMatchCommas(f: Format, s: string, i: nat)
    requires IsFunctional(f) && i <= |s| && MatchAt(f, s, i).Some?
    ensures Count(s, i, MatchAt(f, s, i).value.end, ',') >= |Fields(f)| - 1
  {
    assert MatchAt(f, s, i) == MatchFunctional(Prefix(f), Fields(f), s, i);
    FunctionalCommas(Prefix(f), Fields(f), s, i);
  }

  /** A text with fewer commas after `i` than a notation's fields need holds none of its matches at `i`. */
  lemma TooFewCommas(f: Format, s: string, i: nat)
    requires IsFunctional(f) && i <= |s|
    requires Count(s, i, |s|, ',') < |Fields(f)| - 1
    ensures MatchAt(f, s, i).None?
  {
    if MatchAt(f, s, i).Some? {
      FunctionalMatchCommas(f, s, i);
      CountSplit(s, i, MatchAt(f, s, i).value.end, |s|, ',');
    }
  }

  /** A position where the notation's lower-case name does not start holds none of its matches. */
  lemma NoPrefixAt(f: Format, s: string, i: nat)
    requires IsFunctional(f) && i <= |s|
    requires i == |s| || s[i] != Prefix(f)[0]
    ensures MatchAt(f, s, i).None?
  {
    if MatchAt(f, s, i).Some? {
      FunctionalMatch(f, s, i);
    }
  }

  /** A text that holds no match at its start, and whose later characters never start the notation's name, holds none at all. */
  lemma OnlyAtStart(f: Format, s: string)
    requires IsFunctional(f) && |s| > 0 && MatchAt(f, s, 0).None?
    requires Prefix(f)[0] !in s[1..]
    ensures FindFrom(f, s, 0).None?
  {
    forall k | 1 <= k <= |s| ensures MatchAt(f, s, k).None? {
      if k < |s| {
        assert s[k] == s[1..][k - 1];
      }
      NoPrefixAt(f, s, k);
    }
    FindFromNone(f, s, 0);
  }

  /** `rgb(1,2)` has two fields where RGB needs three, so it holds no RGB colour. */
  lemma TwoFieldRgbRejected(s: string)
    requires s == "rgb(1,2)"
    ensures FindFrom(RGB, s, 0).None?
  {
    OneComma(s);
    TooFewCommas(RGB, s, 0);
    assert 'r' !in s[1..];
    OnlyAtStart(RGB, s);
  }

  /** `rgb(1,2)` holds a single comma. */
  lemma OneComma(s: string)
    requires s == "rgb(1,2)"
    ensures Count(s, 0, |s|, ',') == 1
  {
    assert Count(s, 8, 8, ',') == 0;
    assert Count(s, 7, 8, ',') == 0;
    assert Count(s, 6, 8, ',') == 0;
    assert Count(s, 5, 8, ',') == 1;
    assert Count(s, 4, 8, ',') == 1;
    assert Count(s, 3, 8, ',') == 1;
    assert Count(s, 2, 8, ',') == 1;
    assert Count(s, 1, 8, ',') == 1;
  }

  /** How many fields carry `%`. */
  function PercentCount(fields: seq<Field>): nat
  {
    if fields == [] then 0 else Asks(fields[0]) + PercentCount(fields[1..])
  }

  /** 1 for a field that asks for `%`, else 0. */
  function Asks(field: Field): nat
  {
    if field.Int? && field.percent then 1 else 0
  }

  /** An integer field holds a `%` exactly when it asks for one: its sign and digits are not `%`. */
  lemma MatchIntPercents(s: string, i: nat, signed: bool, percent: bool)
    requires i <= |s| && MatchInt(s, i, signed, percent).Some?
    ensures Count(s, i, MatchInt(s, i, signed, percent).value.end, '%') == if percent then 1 else 0
  {
    var neg := signed && i < |s| && s[i] == '-';
    var j := if neg then i + 1 else i;
    var k := j + DigitRun(s, j);
    CountNone(s, i, k, '%');
    if percent {
      CountSplit(s, i, k, k + 1, '%');
    }
  }

  /** The alpha `0?\.\d+|1|0` holds no `%`. */
  lemma MatchAlphaPercents(s: string, i: nat)
    requires i <= |s| && MatchAlpha(s, i).Some?
    ensures Count(s, i, MatchAlpha(s, i).value.end, '%') == 0
  {
    var e := MatchAlpha(s, i).value.end;
    var dot := if i < |s| && s[i] == '.' then i + 1
      else if i + 1 < |s| && s[i] == '0' && s[i + 1] == '.' then i + 2
      else 0;
    if dot != 0 && DigitRun(s, dot) > 0 {
      assert forall k :: i <= k < dot ==> s[k] == '.' || s[k] == '0';
    }
    CountNone(s, i, e, '%');
  }

  /** A field holds a `%` exactly when it asks for one. */
  lemma MatchFieldPercents(s: string, i: nat, field: Field)
    requires i <= |s| && MatchField(s, i, field).Some?
    ensures Count(s, i, MatchField(s, i, field).value.end, '%') == if field.Int? && field.percent then 1 else 0
  {
    match field
    case Int(signed, percent) => MatchIntPercents(s, i, signed, percent);
    case Alpha => MatchAlphaPercents(s, i);
  }

  /** White space holds no `%`. */
  lemma SpacesPercents(s: string, i: nat)
    requires i <= |s|
    ensures Count(s, i, SkipSpaces(s, i), '%') == 0
  {
    CountNone(s, i, SkipSpaces(s, i), '%');
  }

  /** Nor does the comma before a field and the white space after it. */
  lemma SeparatorPercents(s: string, i: nat, first: bool)
    requires i <= |s| && (!first ==> i < |s| && s[i] == ',')
    ensures Count(s, i, SkipSpaces(s, if first then i else i + 1), '%') == 0
  {
    var a := if first then i else i + 1;
    SpacesPercents(s, a);
    CountSplit(s, i, a, SkipSpaces(s, a), '%');
  }

  /** `%` appears in a run of fields exactly once per field that asks for it, and nowhere else. */
  lemma {:induction false} MatchFieldsPercents(s: string, i: nat, fields: seq<Field>, first: bool)
    requires i <= |s| && MatchFields(s, i, fields, first).Some?
    ensures Count(s, i, MatchFields(s, i, fields, first).value.end, '%') == PercentCount(fields)
    decreases |fields|
  {
    var e := MatchFields(s, i, fields, first).value.end;
    if fields == [] {
      assert Count(s, i + 1, e, '%') == 0;
    } else {
      var a := if first then i else i + 1;
      var b := SkipSpaces(s, a);
      var head := MatchField(s, b, fields[0]).value;
      var t := SkipSpaces(s, head.end);
      MatchFieldsPercents(s, t, fields[1..], false);
      SeparatorPercents(s, i, first);
      MatchFieldPercents(s, b, fields[0]);
      SpacesPercents(s, head.end);
      CountSplit(s, i, b, e, '%');
      CountSplit(s, b, head.end, e, '%');
      CountSplit(s, head.end, t, e, '%');
    }
  }

  /** Fields after a stretch without `%` hold one `%` per field that asks for it. */
  lemma FieldsPercentsFrom(s: string, i: nat, j: nat, fields: seq<Field>)
    requires i <= j <= |s| && Count(s, i, j, '%') == 0 && MatchFields(s, j, fields, true).Some?
    ensures Count(s, i, MatchFields(s, j, fields, true).value.end, '%') == PercentCount(fields)
  {
    MatchFieldsPercents(s, j, fields, true);
    CountSplit(s, i, j, MatchFields(s, j, fields, true).value.end, '%');
  }

  /** A functional match whose name holds no `%` holds one per field that asks for it. */
  lemma FunctionalPercents(p: string, fields: seq<Field>, s: string, i: nat)
    requires i <= |s| && '%' !in p && MatchFunctional(p, fields, s, i).Some?
    ensures Count(s, i, MatchFunctional(p, fields, s, i).value.end, '%') == PercentCount(fields)
  {
    var body := FunctionalBody(p, fields, s, i);
    PrefixNoPercent(s, i, i + |p|, p);
    FieldsPercentsFrom(s, i, i + |p|, fields);
  }

  /** A stretch of the text that spells a name without `%` holds no `%`. */
  lemma PrefixNoPercent(s: string, i: nat, j: nat, p: string)
    requires j == i + |p| && j <= |s| && s[i..j] == p && '%' !in p
    ensures Count(s, i, j, '%') == 0
  {
    assert forall k :: i <= k < j ==> s[k] == p[k - i];
    CountNone(s, i, j, '%');
  }

  /** A functional match holds one `%` per field of its notation that asks for it. */
  lemma FormatPercents(f: Format, s: string, i: nat)
    requires IsFunctional(f) && i <= |s| && MatchAt(f, s, i).Some?
    ensures Count(s, i, MatchAt(f, s, i).value.end, '%') == PercentCount(Fields(f))
  {
    assert MatchAt(f, s, i) == MatchFunctional(Prefix(f), Fields(f), s, i);
    FunctionalPercents(Prefix(f), Fields(f), s, i);
  }

  /** The fields that ask for `%`, counted per notation. */
  lemma PercentFields(f: Format)
    requires IsFunctional(f)
    ensures PercentCount(Fields(f)) ==
      if f in {HSL, HSV, HSB} then 2 else if f == CMYK then 4 else if f in {LAB, LCH, YUV} then 1 else 0
  {
    var fs := Fields(f);
    assert |fs| == 3 || |fs| == 4;
    assert fs[1..][1..] == fs[2..] && fs[2..][1..] == fs[3..];
    assert PercentCount(fs) == Asks(fs[0]) + PercentCount(fs[1..]);
    assert PercentCount(fs[1..]) == Asks(fs[1]) + PercentCount(fs[2..]);
    assert PercentCount(fs[2..]) == Asks(fs[2]) + PercentCount(fs[3..]);
    if |fs| == 4 {
      assert fs[3..][1..] == [];
    } else {
      assert fs[3..] == [];
    }
  }

  /**
   * Where `%` goes: a match holds exactly two `%` for HSL, HSV and HSB, four
   * for CMYK, one for LAB, LCH and YUV, and none for RGB, RGBA and YCBCR.
   */
  lemma PercentSigns(f: Format, s: string, i: nat)
    requires IsFunctional(f) && i <= |s| && MatchAt(f, s, i).Some?
    ensures Count(s, i, MatchAt(f, s, i).value.end, '%') ==
      if f in {HSL, HSV, HSB} then 2 else if f == CMYK then 4 else if f in {LAB, LCH, YUV} then 1 else 0
  {
    FormatPercents(f, s, i);
    PercentFields(f);
  }

  /** A text with fewer `%` after `i` than a notation asks for holds none of its matches at `i`. */
  lemma TooFewPercents(f: Format, s: string, i: nat)
    requires IsFunctional(f) && i <= |s|
    requires Count(s, i, |s|, '%') < PercentCount(Fields(f))
    ensures MatchAt(f, s, i).None?
  {
    if MatchAt(f, s, i).Some? {
      FormatPercents(f, s, i);
      CountSplit(s, i, MatchAt(f, s, i).value.end, |s|, '%');
    }
  }

  /** `hsl(120,50,25)` lacks the `%` of saturation and lightness, so it holds no HSL colour. */
  lemma HslWithoutPercentRejected(s: string)
    requires s == "hsl(120,50,25)"
    ensures FindFrom(HSL, s, 0).None?
  {
    CountNone(s, 0, |s|, '%');
    PercentFields(HSL);
    TooFewPercents(HSL, s, 0);
    assert 'h' !in s[1..];
    OnlyAtStart(HSL, s);
  }

  /** `cmyk(0%,0%,0%,100)` lacks the `%` of its last field, so it holds no CMYK colour. */
  lemma CmykPercentMissing(s: string)
    requires s == "cmyk(0%,0%,0%,100)"
    ensures FindFrom(CMYK, s, 0).None?
  {
    CmykNotAtStart(s);
    CmykNameOnce(s);
    OnlyAtStart(CMYK, s);
  }

  /** Three `%` are too few for CMYK. */
  lemma CmykNotAtStart(s: string)
    requires s == "cmyk(0%,0%,0%,100)"
    ensures MatchAt(CMYK, s, 0).None?
  {
    ThreePercents(s);
    PercentFields(CMYK);
    TooFewPercents(CMYK, s, 0);
  }

  /** Only the first character of the text is a `c`. */
  lemma CmykNameOnce(s: string)
    requires s == "cmyk(0%,0%,0%,100)"
    ensures Prefix(CMYK)[0] !in s[1..]
  {
    assert s[1..] == "myk(0%,0%,0%,100)";
  }

  /** The text holds three `%`. */
  lemma ThreePercents(s: string)
    requires s == "cmyk(0%,0%,0%,100)"
    ensures Count(s, 0, |s|, '%') == 3
  {
    assert Count(s, 17, 18, '%') == 0;
    assert Count(s, 16, 18, '%') == 0;
    assert Count(s, 15, 18, '%') == 0;
    assert Count(s, 14, 18, '%') == 0;
    assert Count(s, 13, 18, '%') == 0;
    assert Count(s, 12, 18, '%') == 1;
    assert Count(s, 11, 18, '%') == 1;
    assert Count(s, 10, 18, '%') == 1;
    assert Count(s, 9, 18, '%') == 2;
    assert Count(s, 8, 18, '%') == 2;
    assert Count(s, 7, 18, '%') == 2;
    assert Count(s, 6, 18, '%') == 3;
    assert Count(s, 5, 18, '%') == 3;
    assert Count(s, 4, 18, '%') == 3;
    assert Count(s, 3, 18, '%') == 3;
    assert Count(s, 2, 18, '%') == 3;
    assert Count(s, 1, 18, '%') == 3;
    assert Count(s, 0, 18, '%') == 3;
  }
}
