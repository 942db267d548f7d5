/**
 * The format loop of `updateDecorations` (extension.js): for each key of
 * `COLOR_REGEX` in table order, skip it unless it is enabled or NAMED,
 * reset the pattern's `lastIndex` to 0 and call `exec` until it fails,
 * pushing one colour position per match. Offsets stand for the editor
 * positions `positionAt` would make of them.
 */
module Scanner {

  import opened Wrappers
  import opened Text
  import G = ColorGrammar
  import CssColors

  /** One entry of `colorPositions`: the matched range, the colour it previews, and the matched text. */
  datatype ColorPosition = ColorPosition(start: nat, end: nat, color: string, originalText: string)

  /** `m` is the match the pattern makes at the offset where `m` starts. */
  predicate Found(f: G.Format, s: string, m: G.Match)
  {
    m.index <= |s| && G.MatchAt(f, s, m.index) == Some(m)
  }

  /**
   * The matches successive `exec` calls return when `lastIndex` starts at
   * `from`: the leftmost match, then the matches from its end on.
   */
  function Occurrences(f: G.Format, s: string, from: nat): (r: seq<G.Match>)
    requires from <= |s|
    ensures forall k :: 0 <= k < |r| ==> from <= r[k].index < r[k].end <= |s|
    ensures forall k {:trigger Found(f, s, r[k])} :: 0 <= k < |r| ==> Found(f, s, r[k])
    ensures Ordered(r)
    decreases |s| - from
  {
    var m := G.FindFrom(f, s, from);
    if m.None? then []
    else
      var rest := Occurrences(f, s, m.value.end);
      assert Found(f, s, m.value);
      assert forall k :: 0 < k <= |rest| ==> ([m.value] + rest)[k] == rest[k - 1];
      ConsOrdered(m.value, rest);
      [m.value] + rest
  }

  /** Matches that do not overlap, in increasing order of offset. */
  predicate Ordered(ms: seq<G.Match>)
  {
    forall k :: 0 < k < |ms| ==> ms[k - 1].end <= ms[k].index
  }

  /** A match ending before an ordered run starts extends it. */
  lemma ConsOrdered(m: G.Match, rest: seq<G.Match>)
    requires Ordered(rest) && (|rest| > 0 ==> m.end <= rest[0].index)
    ensures Ordered([m] + rest)
  {
    var r := [m] + rest;
    forall k | 0 < k < |r|
      ensures r[k - 1].end <= r[k].index
    {
      assert r[k] == rest[k - 1];
      if k > 1 {
        assert r[k - 1] == rest[k - 2];
      }
    }
  }

  /**
   * The position pushed for a match: its range, its text, and as colour the
   * text itself, or for NAMED the table's hex code of the lower-cased text.
   */
  function PositionOf(f: G.Format, s: string, m: G.Match): (p: ColorPosition)
    requires Found(f, s, m)
    ensures p.start == m.index && p.end == m.end && p.originalText == s[m.index..m.end]
    ensures f != G.NAMED ==> p.color == p.originalText
    ensures f == G.NAMED ==> Some(p.color) == CssColors.Lookup(Lower(p.originalText))
  {
    var text := s[m.index..m.end];
    if f == G.NAMED then
      G.NamedMatchIsKey(s, m.index);
      ColorPosition(m.index, m.end, CssColors.Lookup(Lower(text)).value, text)
    else
      ColorPosition(m.index, m.end, text, text)
  }

  /** The positions of a run of matches, in order. */
  function Positions(f: G.Format, s: string, ms: seq<G.Match>): (r: seq<ColorPosition>)
    requires forall k :: 0 <= k < |ms| ==> Found(f, s, ms[k])
    ensures |r| == |ms|
    ensures forall k :: 0 <= k < |ms| ==> r[k] == PositionOf(f, s, ms[k])
  {
    if ms == [] then []
    else
      assert forall k :: 0 <= k < |ms[1..]| ==> ms[1..][k] == ms[k + 1];
      [PositionOf(f, s, ms[0])] + Positions(f, s, ms[1..])
  }

  /** Everything one pattern contributes to a scan of `s`. */
  function Scan(f: G.Format, s: string): (r: seq<ColorPosition>)
    ensures forall k :: 0 <= k < |r| ==> Within(s, r[k])
    ensures forall k :: 0 < k < |r| ==> r[k - 1].end <= r[k].start
  {
    var ms := Occurrences(f, s, 0);
    var r := Positions(f, s, ms);
    assert forall k :: 0 < k < |r| ==> ms[k - 1].end <= ms[k].index;
    r
  }

  /** A position covers a non-empty range of the text and records the text found there. */
  predicate Within(s: string, p: ColorPosition)
  {
    p.start < p.end <= |s| && p.originalText == s[p.start..p.end]
  }

  /** The loop's test: a format is scanned when enabled, and NAMED always. */
  predicate Scanned(f: G.Format, enabled: seq<string>)
  {
    G.FormatName(f) in enabled || f == G.NAMED
  }

  /** What format `f` adds to the positions: its scan when the loop does not skip it. */
  function Group(s: string, enabled: seq<string>, f: G.Format): seq<ColorPosition>
  {
    if Scanned(f, enabled) then Scan(f, s) else []
  }

  /** The groups of the formats `fs`, one per format, in the order of `fs`. */
  function Groups(s: string, enabled: seq<string>, fs: seq<G.Format>): (gs: seq<seq<ColorPosition>>)
    ensures |gs| == |fs| && forall k :: 0 <= k < |fs| ==> gs[k] == Group(s, enabled, fs[k])
  {
    seq(|fs|, k requires 0 <= k < |fs| => Group(s, enabled, fs[k]))
  }

  /** The groups one after the other. */
  function Concat(gs: seq<seq<ColorPosition>>): seq<ColorPosition>
  {
    if gs == [] then [] else Concat(gs[..|gs| - 1]) + gs[|gs| - 1]
  }

  /** The positions the loop collects over the formats `fs`: grouped by format in the order of `fs`. */
  function Collected(s: string, enabled: seq<string>, fs: seq<G.Format>): (r: seq<ColorPosition>)
    ensures forall p :: p in r ==> Within(s, p)
  {
    ConcatWithin(s, Groups(s, enabled, fs));
    Concat(Groups(s, enabled, fs))
  }

  /** Groups of positions within the text concatenate to positions within it. */
  lemma {:induction false} ConcatWithin(s: string, gs: seq<seq<ColorPosition>>)
    requires forall k, p :: 0 <= k < |gs| && p in gs[k] ==> Within(s, p)
    ensures forall p :: p in Concat(gs) ==> Within(s, p)
  {
    if gs != [] {
      var init := gs[..|gs| - 1];
      assert forall k :: 0 <= k < |init| ==> init[k] == gs[k];
      ConcatWithin(s, init);
    }
  }

  /** The scan of `updateDecorations` over the text of a document. */
  method CollectColorPositions(text: string, enabled: seq<string>) returns (colorPositions: seq<ColorPosition>)
    ensures colorPositions == Collected(text, enabled, G.Formats)
  {
    colorPositions := [];
    for i := 0 to |G.Formats|
      invariant colorPositions == Collected(text, enabled, G.Formats[..i])
    {
      var f := G.Formats[i];
      CollectStep(text, enabled, G.Formats, i);
      if G.FormatName(f) !in enabled && f != G.NAMED {
        continue;
      }
      colorPositions := ExecAll(f, text, colorPositions);
    }
    assert G.Formats[..|G.Formats|] == G.Formats;
  }

  /** `lastIndex = 0`, then `exec` until it fails, pushing each match onto `colorPositions`. */
  method ExecAll(f: G.Format, text: string, colorPositions: seq<ColorPosition>) returns (pushed: seq<ColorPosition>)
    ensures pushed == colorPositions + Scan(f, text)
  {
    pushed := colorPositions;
    var lastIndex: nat := 0;
    var m := G.FindFrom(f, text, lastIndex);
    while m.Some?
      invariant lastIndex <= |text| && m == G.FindFrom(f, text, lastIndex)
      invariant pushed + Positions(f, text, Occurrences(f, text, lastIndex)) == colorPositions + Scan(f, text)
      decreases |text| - lastIndex
    {
      var hit := m.value;
      ExecStep(f, text, lastIndex, pushed);
      pushed := pushed + [PositionOf(f, text, hit)];
      lastIndex := hit.end;
      m := G.FindFrom(f, text, lastIndex);
    }
  }

  /**
   * One `exec` that finds a match: pushing its position and going on from
   * its end leaves the same positions still to come.
   */
  lemma ExecStep(f: G.Format, s: string, from: nat, pushed: seq<ColorPosition>)
    requires from <= |s| && G.FindFrom(f, s, from).Some?
    ensures var hit := G.FindFrom(f, s, from).value;
      && Found(f, s, hit) && from < hit.end <= |s|
      && pushed + Positions(f, s, Occurrences(f, s, from))
         == (pushed + [PositionOf(f, s, hit)]) + Positions(f, s, Occurrences(f, s, hit.end))
  {
    var hit := G.FindFrom(f, s, from).value;
    var ms := Occurrences(f, s, from);
    assert ms[1..] == Occurrences(f, s, hit.end);
    var later := Positions(f, s, Occurrences(f, s, hit.end));
    assert pushed + ([PositionOf(f, s, hit)] + later) == (pushed + [PositionOf(f, s, hit)]) + later;
  }

  /**
   * Every position of a pattern's scan is a match of that pattern, recorded
   * with its own text; a NAMED match previews the table's hex code of its
   * lower-cased text, any other match previews its text as written.
   */
  lemma ScanSound(f: G.Format, s: string, k: nat)
    requires k < |Scan(f, s)|
    ensures var p := Scan(f, s)[k];
      && p.start < p.end <= |s| && p.originalText == s[p.start..p.end]
      && G.MatchAt(f, s, p.start).Some? && G.MatchAt(f, s, p.start).value.end == p.end
      && (f != G.NAMED ==> p.color == p.originalText)
      && (f == G.NAMED ==> Some(p.color) == CssColors.Lookup(Lower(p.originalText)) && CssColors.IsHexCode(p.color))
  {
    var ms := Occurrences(f, s, 0);
    assert Found(f, s, ms[k]);
    var p := Scan(f, s)[k];
    assert p == PositionOf(f, s, ms[k]);
    CssColors.LookupIsHexCode(Lower(p.originalText));
  }

  /** The positions of one pattern do not overlap and are ordered by offset. */
  lemma ScanOrdered(f: G.Format, s: string, k: nat)
    requires k + 1 < |Scan(f, s)|
    ensures Scan(f, s)[k].end <= Scan(f, s)[k + 1].start
  {
    var ms := Occurrences(f, s, 0);
    assert ms[k].end <= ms[k + 1].index;
  }

  /**
   * Every offset at or after `from` where the pattern matches lies inside
   * one of the matches `exec` returns: a match is only skipped when an
   * earlier one overlaps it.
   */
  lemma {:induction false} OccurrencesCover(f: G.Format, s: string, from: nat, j: nat)
    requires from <= j <= |s| && G.MatchAt(f, s, j).Some?
    ensures exists k :: (0 <= k < |Occurrences(f, s, from)| &&
      Occurrences(f, s, from)[k].index <= j < Occurrences(f, s, from)[k].end)
    decreases |s| - from
  {
    var m := G.FindFrom(f, s, from);
    if m.None? {
      assert false;
    } else if j < m.value.index {
      G.FindFromLeftmost(f, s, from, j);
    } else if j < m.value.end {
      OccurrencesHead(f, s, from);
    } else {
      OccurrencesCover(f, s, m.value.end, j);
      var k :| 0 <= k < |Occurrences(f, s, m.value.end)| &&
        Occurrences(f, s, m.value.end)[k].index <= j < Occurrences(f, s, m.value.end)[k].end;
      OccurrencesTail(f, s, from, k);
    }
  }

  /** The first occurrence is the match `exec` finds from `from`. */
  lemma OccurrencesHead(f: G.Format, s: string, from: nat)
    requires from <= |s| && G.FindFrom(f, s, from).Some?
    ensures |Occurrences(f, s, from)| > 0 && Occurrences(f, s, from)[0] == G.FindFrom(f, s, from).value
  {
  }

  /** The later occurrences are those found from the end of the first. */
  lemma OccurrencesTail(f: G.Format, s: string, from: nat, k: nat)
    requires from <= |s| && G.FindFrom(f, s, from).Some?
    requires k < |Occurrences(f, s, G.FindFrom(f, s, from).value.end)|
    ensures k + 1 < |Occurrences(f, s, from)|
    ensures Occurrences(f, s, from)[k + 1] == Occurrences(f, s, G.FindFrom(f, s, from).value.end)[k]
  {
  }

  /** No match of the pattern is missed: each one is covered by a reported position. */
  lemma ScanComplete(f: G.Format, s: string, j: nat)
    requires j <= |s| && G.MatchAt(f, s, j).Some?
    ensures exists k :: 0 <= k < |Scan(f, s)| && Scan(f, s)[k].start <= j < Scan(f, s)[k].end
  {
    OccurrencesCover(f, s, 0, j);
    var ms := Occurrences(f, s, 0);
    var k :| 0 <= k < |ms| && ms[k].index <= j < ms[k].end;
    assert Scan(f, s)[k] == PositionOf(f, s, ms[k]);
  }

  /**
   * A position is collected exactly when some scanned format of the list
   * reports it: disabled formats contribute nothing, NAMED always does.
   */
  lemma CollectedIff(s: string, enabled: seq<string>, fs: seq<G.Format>, p: ColorPosition)
    ensures p in Collected(s, enabled, fs) <==> exists k :: 0 <= k < |fs| && p in Group(s, enabled, fs[k])
  {
    var gs := Groups(s, enabled, fs);
    ConcatIff(gs, p);
    if exists k :: 0 <= k < |gs| && p in gs[k] {
      var k :| 0 <= k < |gs| && p in gs[k];
      assert p in Group(s, enabled, fs[k]);
    }
  }

  /** A position is in the concatenation exactly when it is in one of the groups. */
  lemma {:induction false} ConcatIff(gs: seq<seq<ColorPosition>>, p: ColorPosition)
    ensures p in Concat(gs) <==> exists k :: 0 <= k < |gs| && p in gs[k]
  {
    if gs != [] {
      var init := gs[..|gs| - 1];
      ConcatIff(init, p);
      if p in Concat(init) {
        var k :| 0 <= k < |init| && p in init[k];
        assert gs[k] == init[k];
      }
      if exists k :: 0 <= k < |gs| && p in gs[k] {
        var k :| 0 <= k < |gs| && p in gs[k];
        if k < |init| {
          assert gs[k] == init[k];
        }
      }
    }
  }

  /** The loop's step: the first `i + 1` formats collect what the first `i` do, then the group of format `i`. */
  lemma CollectStep(s: string, enabled: seq<string>, fs: seq<G.Format>, i: nat)
    requires i < |fs|
    ensures Collected(s, enabled, fs[..i + 1]) == Collected(s, enabled, fs[..i]) + Group(s, enabled, fs[i])
  {
    var gs := Groups(s, enabled, fs[..i + 1]);
    assert gs[..i] == Groups(s, enabled, fs[..i]);
  }

  /**
   * The results are grouped by format in table order, NAMED last; NAMED
   * colours are found whatever the enabled list says.
   */
  lemma NamedLast(s: string, enabled: seq<string>)
    ensures Collected(s, enabled, G.Formats) == Collected(s, enabled, G.Formats[..11]) + Scan(G.NAMED, s)
  {
    CollectStep(s, enabled, G.Formats, 11);
    assert G.Formats[..12] == G.Formats && G.Formats[11] == G.NAMED;
    assert Group(s, enabled, G.NAMED) == Scan(G.NAMED, s);
  }

  /** A disabled functional format contributes no position, and NAMED always contributes all of its own. */
  lemma EnabledOnly(s: string, enabled: seq<string>, f: G.Format, p: ColorPosition)
    requires p in Scan(f, s) && !(exists g :: g != f && p in Scan(g, s))
    ensures p in Collected(s, enabled, G.Formats) <==> Scanned(f, enabled)
  {
    CollectedIff(s, enabled, G.Formats, p);
    var k := FormatIndex(f);
    assert Group(s, enabled, G.Formats[k]) == (if Scanned(f, enabled) then Scan(f, s) else []);
  }

  /** Where `f` sits in the table. */
  function FormatIndex(f: G.Format): (k: nat)
    ensures k < |G.Formats| && G.Formats[k] == f
  {
    match f
    case HEX => 0
    case RGB => 1
    case RGBA => 2
    case HSL => 3
    case HSV => 4
    case HSB => 5
    case CMYK => 6
    case LAB => 7
    case LCH => 8
    case YUV => 9
    case YCBCR => 10
    case NAMED => 11
  }
}
