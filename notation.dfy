/**
 * What the functional patterns of `COLOR_REGEX` accept, stated without the
 * matcher: a notation's name and `(`, then each field written out with white
 * space around it and a comma before every field but the first, then `)`.
 * The matcher finds exactly these texts, and captures the numbers written.
 */
module Notation {

  import opened Wrappers
  import opened Text
  import opened ColorGrammar

  /** How one field is written: a number (with or without `-`) or the alpha text. */
  datatype Lexeme = Number(neg: bool, digits: string) | Fraction(text: string)

  /** The lexeme is one the field's sub-pattern accepts: `-?\d{1,3}` (the sign only where allowed) or `0?\.\d+|1|0`. */
  predicate Fits(field: Field, x: Lexeme)
  {
    match field
    case Int(signed, _) => x.Number? && (x.neg ==> signed) && 1 <= |x.digits| <= 3 && AllDigits(x.digits)
    case Alpha => x.Fraction? && AlphaToken(x.text)
  }

  /** The text of a lexeme in a field, with the `%` the field asks for. */
  function Spell(field: Field, x: Lexeme): string
  {
    match x
    case Number(neg, digits) =>
      (if neg then "-" else "") + (digits + (if field.Int? && field.percent then "%" else ""))
    case Fraction(text) => text
  }

  /** The integer `parseInt(m[k], 10)` gives for a number lexeme (zero for anything else). */
  function ValueOf(x: Lexeme): int
  {
    if x.Number? && AllDigits(x.digits) then
      if x.neg then -(DecimalValue(x.digits) as int) else DecimalValue(x.digits)
    else 0
  }

  /** The integers written, in order. */
  function Values(xs: seq<Lexeme>): seq<int>
  {
    if xs == [] then [] else (if xs[0].Number? then [ValueOf(xs[0])] else []) + Values(xs[1..])
  }

  /** The alpha text written, if any. */
  function AlphaText(xs: seq<Lexeme>): Option<string>
  {
    if xs == [] then None else if xs[0].Fraction? then Some(xs[0].text) else AlphaText(xs[1..])
  }

  /** One lexeme per field, each fitting, with only white space before and after it. */
  predicate Writable(fields: seq<Field>, xs: seq<Lexeme>, gaps: seq<(string, string)>)
  {
    && |xs| == |fields| && |gaps| == |fields|
    && (forall k :: 0 <= k < |fields| ==> Fits(fields[k], xs[k]))
    && (forall k :: 0 <= k < |gaps| ==> AllSpace(gaps[k].0) && AllSpace(gaps[k].1))
  }

  /** The fields written out, closed by `)`; `first` leaves out the comma before the first field. */
  function Written(fields: seq<Field>, xs: seq<Lexeme>, gaps: seq<(string, string)>, first: bool): string
    requires |xs| == |fields| && |gaps| == |fields|
  {
    if fields == [] then ")"
    else
      (if first then "" else ",")
      + (gaps[0].0 + (Spell(fields[0], xs[0]) + (gaps[0].1 + Written(fields[1..], xs[1..], gaps[1..], false))))
  }

  /** The text `s` holds `w` at `i`. */
  predicate At(s: string, i: nat, w: string)
  {
    i + |w| <= |s| && forall k :: 0 <= k < |w| ==> s[i + k] == w[k]
  }

  /** Splitting a text held at `i` into its two parts. */
  lemma AtSplit(s: string, i: nat, x: string, y: string)
    requires At(s, i, x + y)
    ensures At(s, i, x) && At(s, i + |x|, y)
  {
    forall k | 0 <= k < |x|
      ensures s[i + k] == x[k]
    {
      assert (x + y)[k] == x[k];
    }
    forall k | 0 <= k < |y|
      ensures s[i + |x| + k] == y[k]
    {
      assert (x + y)[|x| + k] == y[k];
    }
  }

  /** Two parts held one after the other hold their concatenation. */
  lemma AtJoin(s: string, i: nat, j: nat, x: string, y: string)
    requires j == i + |x| && At(s, i, x) && At(s, j, y)
    ensures At(s, i, x + y)
  {
    forall k | 0 <= k < |x + y|
      ensures s[i + k] == (x + y)[k]
    {
      if k >= |x| {
        assert s[j + (k - |x|)] == y[k - |x|];
      }
    }
  }

  /** A slice of the text is held where it was taken. */
  lemma SliceAt(s: string, i: nat, j: nat)
    requires i <= j <= |s|
    ensures At(s, i, s[i..j])
  {
  }

  /** A text held at `i` is the slice there. */
  lemma AtSlice(s: string, i: nat, w: string)
    requires At(s, i, w)
    ensures s[i..i + |w|] == w
  {
    forall k | 0 <= k < |w|
      ensures s[i..i + |w|][k] == w[k]
    {
      assert s[i + k] == w[k];
    }
  }

  /** White space followed by something else is what `\s*` skips. */
  lemma {:induction false} SkipSpacesOver(s: string, i: nat, j: nat)
    requires i <= j < |s| && !IsSpace(s[j])
    requires forall k :: i <= k < j ==> IsSpace(s[k])
    ensures SkipSpaces(s, i) == j
    decreases j - i
  {
    if i < j {
      SkipSpacesOver(s, i + 1, j);
    }
  }

  lemma SpaceAt(s: string, i: nat, t: string)
    requires At(s, i, t) && AllSpace(t)
    ensures forall k :: i <= k < i + |t| ==> IsSpace(s[k])
  {
    forall k | i <= k < i + |t|
      ensures IsSpace(s[k])
    {
      assert s[i + (k - i)] == t[k - i];
    }
  }

  /** A written lexeme never starts with white space. */
  lemma SpellStart(field: Field, x: Lexeme)
    requires Fits(field, x)
    ensures |Spell(field, x)| >= 1 && !IsSpace(Spell(field, x)[0])
  {
    if x.Number? && !x.neg {
      assert Spell(field, x)[0] == x.digits[0];
    }
  }

  /** Written fields after the first start with `,`; at the end, with `)`. */
  lemma WrittenStart(fields: seq<Field>, xs: seq<Lexeme>, gaps: seq<(string, string)>)
    requires |xs| == |fields| && |gaps| == |fields|
    ensures |Written(fields, xs, gaps, false)| >= 1
    ensures Written(fields, xs, gaps, false)[0] == (if fields == [] then ')' else ',')
  {
  }

  /** An optional `-`, one to three digits ending at `d` and the `%` if asked for, then white space, `,` or `)`. */
  lemma DigitsMatch(s: string, j: nat, signed: bool, percent: bool, neg: bool, d: nat)
    requires neg ==> signed
    requires var jj := if neg then j + 1 else j; jj < d <= jj + 3
    requires d + (if percent then 1 else 0) < |s|
    requires neg ==> s[j] == '-'
    requires forall k :: (if neg then j + 1 else j) <= k < d ==> IsDigit(s[k])
    requires percent ==> s[d] == '%'
    requires var e := if percent then d + 1 else d; IsSpace(s[e]) || s[e] == ',' || s[e] == ')'
    ensures var jj := if neg then j + 1 else j;
      AllDigits(s[jj..d]) &&
      MatchInt(s, j, signed, percent) ==
        Some(Span(if percent then d + 1 else d,
                  [if neg then -(DecimalValue(s[jj..d]) as int) else DecimalValue(s[jj..d])], None))
  {
    var jj := if neg then j + 1 else j;
    assert (signed && s[j] == '-') == neg;
    DigitRunExact(s, jj, d);
  }

  /** Where the sign, the digits and the `%` of a written number lie. */
  lemma NumberLayout(s: string, j: nat, field: Field, x: Lexeme)
    requires field.Int? && Fits(field, x) && At(s, j, Spell(field, x))
    ensures var jj := if x.neg then j + 1 else j;
      var d := jj + |x.digits|;
      && j + |Spell(field, x)| == (if field.percent then d + 1 else d)
      && (x.neg ==> s[j] == '-')
      && (forall k :: jj <= k < d ==> IsDigit(s[k]))
      && (field.percent ==> s[d] == '%')
      && s[jj..d] == x.digits
  {
    var sign := if x.neg then "-" else "";
    var tail := if field.percent then "%" else "";
    assert Spell(field, x) == sign + (x.digits + tail);
    AtSplit(s, j, sign, x.digits + tail);
    AtSplit(s, j + |sign|, x.digits, tail);
    var jj := j + |sign|;
    var d := jj + |x.digits|;
    assert x.neg ==> s[j] == sign[0];
    assert forall k :: jj <= k < d ==> IsDigit(s[k]) by {
      assert forall k :: jj <= k < d ==> s[k] == x.digits[k - jj];
    }
    assert field.percent ==> s[d] == tail[0];
  }

  /** `-?\d{1,3}%?` written out, followed by white space, `,` or `)`, is what `MatchInt` consumes. */
  lemma NumberMatch(s: string, j: nat, signed: bool, percent: bool, x: Lexeme)
    requires Fits(Int(signed, percent), x) && At(s, j, Spell(Int(signed, percent), x))
    requires j + |Spell(Int(signed, percent), x)| < |s|
    requires var e := j + |Spell(Int(signed, percent), x)|; IsSpace(s[e]) || s[e] == ',' || s[e] == ')'
    ensures MatchInt(s, j, signed, percent).Some?
    ensures MatchInt(s, j, signed, percent).value.end == j + |Spell(Int(signed, percent), x)|
    ensures MatchInt(s, j, signed, percent).value.ints == [ValueOf(x)]
    ensures MatchInt(s, j, signed, percent).value.alpha == None
  {
    NumberLayout(s, j, Int(signed, percent), x);
    DigitsMatch(s, j, signed, percent, x.neg, (if x.neg then j + 1 else j) + |x.digits|);
  }

  /**
   * A lexeme that fits its field, followed by white space, `,` or `)`, is
   * what the field's matcher consumes, and it captures the lexeme's value.
   */
  lemma LexemeMatch(s: string, j: nat, field: Field, x: Lexeme)
    requires Fits(field, x) && At(s, j, Spell(field, x))
    requires j + |Spell(field, x)| < |s|
    requires var e := j + |Spell(field, x)|; IsSpace(s[e]) || s[e] == ',' || s[e] == ')'
    ensures MatchField(s, j, field).Some?
    ensures MatchField(s, j, field).value.end == j + |Spell(field, x)|
    ensures MatchField(s, j, field).value.ints == if x.Number? then [ValueOf(x)] else []
    ensures MatchField(s, j, field).value.alpha == if x.Fraction? then Some(x.text) else None
  {
    match field
    case Int(signed, percent) =>
      NumberMatch(s, j, signed, percent, x);
    case Alpha =>
      AtSlice(s, j, x.text);
      TokenIsAlphaMatch(s, j, j + |x.text|);
  }

  /** One step of `MatchFields`: the separator, the first field, the white space after it, and the rest. */
  lemma FieldsStep(s: string, i: nat, fields: seq<Field>, xs: seq<Lexeme>, first: bool, j: nat, e2: nat)
    requires i <= |s| && fields != [] && |xs| == |fields|
    requires first || (i < |s| && s[i] == ',')
    requires (if first then i else i + 1) <= |s| && SkipSpaces(s, if first then i else i + 1) == j
    requires j <= |s| && MatchField(s, j, fields[0]).Some?
    requires MatchField(s, j, fields[0]).value.ints == if xs[0].Number? then [ValueOf(xs[0])] else []
    requires MatchField(s, j, fields[0]).value.alpha == if xs[0].Fraction? then Some(xs[0].text) else None
    requires SkipSpaces(s, MatchField(s, j, fields[0]).value.end) == e2
    requires MatchFields(s, e2, fields[1..], false).Some?
    requires MatchFields(s, e2, fields[1..], false).value.ints == Values(xs[1..])
    requires MatchFields(s, e2, fields[1..], false).value.alpha == AlphaText(xs[1..])
    ensures MatchFields(s, i, fields, first).Some?
    ensures MatchFields(s, i, fields, first).value.end == MatchFields(s, e2, fields[1..], false).value.end
    ensures MatchFields(s, i, fields, first).value.ints == Values(xs)
    ensures MatchFields(s, i, fields, first).value.alpha == AlphaText(xs)
  {
  }

  /** The first written field starts with its separator. */
  lemma FieldSeparator(s: string, i: nat, fields: seq<Field>, xs: seq<Lexeme>,
                       gaps: seq<(string, string)>, first: bool)
    requires |xs| == |fields| && |gaps| == |fields| && fields != [] && At(s, i, Written(fields, xs, gaps, first))
    ensures var rest := Written(fields[1..], xs[1..], gaps[1..], false);
      && (!first ==> s[i] == ',')
      && At(s, if first then i else i + 1, gaps[0].0 + (Spell(fields[0], xs[0]) + (gaps[0].1 + rest)))
      && |Written(fields, xs, gaps, first)| == (if first then 0 else 1) + |gaps[0].0 + (Spell(fields[0], xs[0]) + (gaps[0].1 + rest))|
  {
    var body := gaps[0].0 + (Spell(fields[0], xs[0]) + (gaps[0].1 + Written(fields[1..], xs[1..], gaps[1..], false)));
    if first {
      assert Written(fields, xs, gaps, first) == "" + body;
      assert "" + body == body;
    } else {
      assert Written(fields, xs, gaps, first) == "," + body;
      CommaThen(s, i, body);
    }
  }

  /** A comma and then `body`, held at `i`. */
  lemma CommaThen(s: string, i: nat, body: string)
    requires At(s, i, "," + body)
    ensures i < |s| && s[i] == ',' && At(s, i + 1, body)
  {
    AtSplit(s, i, ",", body);
    assert s[i + 0] == ","[0];
  }

  /** White space, a lexeme, white space and the rest, held at `i`: where each lies. */
  lemma PiecesAt(s: string, i: nat, a: string, t: string, b: string, rest: string) returns (j: nat, e: nat, e2: nat)
    requires At(s, i, a + (t + (b + rest)))
    ensures j == i + |a| && e == j + |t| && e2 == e + |b|
    ensures At(s, i, a) && At(s, j, t) && At(s, e, b) && At(s, e2, rest)
  {
    AtSplit(s, i, a, t + (b + rest));
    j := i + |a|;
    AtSplit(s, j, t, b + rest);
    e := j + |t|;
    AtSplit(s, e, b, rest);
    e2 := e + |b|;
  }

  /** The rest of a writable field list is writable. */
  lemma WritableRest(fields: seq<Field>, xs: seq<Lexeme>, gaps: seq<(string, string)>)
    requires Writable(fields, xs, gaps) && fields != []
    ensures Fits(fields[0], xs[0]) && AllSpace(gaps[0].0) && AllSpace(gaps[0].1)
    ensures Writable(fields[1..], xs[1..], gaps[1..])
  {
    assert forall k :: 0 <= k < |fields| - 1 ==>
      fields[1..][k] == fields[k + 1] && xs[1..][k] == xs[k + 1] && gaps[1..][k] == gaps[k + 1];
  }

  /**
   * Where the first written field lies: `j` where its lexeme starts, `e`
   * where it ends, and `e2` where the white space after it ends.
   */
  lemma FieldLayout(s: string, i: nat, fields: seq<Field>, xs: seq<Lexeme>,
                    gaps: seq<(string, string)>, first: bool) returns (j: nat, e: nat, e2: nat)
    requires Writable(fields, xs, gaps) && fields != [] && At(s, i, Written(fields, xs, gaps, first))
    ensures !first ==> s[i] == ','
    ensures (if first then i else i + 1) <= |s| && SkipSpaces(s, if first then i else i + 1) == j
    ensures At(s, j, Spell(fields[0], xs[0])) && e == j + |Spell(fields[0], xs[0])|
    ensures e < |s| && (IsSpace(s[e]) || s[e] == ',' || s[e] == ')')
    ensures SkipSpaces(s, e) == e2
    ensures At(s, e2, Written(fields[1..], xs[1..], gaps[1..], false))
    ensures i + |Written(fields, xs, gaps, first)| == e2 + |Written(fields[1..], xs[1..], gaps[1..], false)|
    ensures Writable(fields[1..], xs[1..], gaps[1..])
  {
    FieldSeparator(s, i, fields, xs, gaps, first);
    WritableRest(fields, xs, gaps);
    var a, b := gaps[0].0, gaps[0].1;
    var t := Spell(fields[0], xs[0]);
    var rest := Written(fields[1..], xs[1..], gaps[1..], false);
    var i1 := if first then i else i + 1;
    j, e, e2 := PiecesAt(s, i1, a, t, b, rest);
    WrittenStart(fields[1..], xs[1..], gaps[1..]);
    assert s[e2 + 0] == rest[0];
    SpellStart(fields[0], xs[0]);
    assert s[j + 0] == t[0];
    SpaceAt(s, i1, a);
    SpaceAt(s, e, b);
    SkipSpacesOver(s, i1, j);
    if |b| > 0 {
      assert s[e + 0] == b[0];
    }
    SkipSpacesOver(s, e, e2);
  }

  /** The first written field matches where its layout puts it, and the rest is written after it. */
  lemma FirstFieldMatch(s: string, i: nat, fields: seq<Field>, xs: seq<Lexeme>,
                        gaps: seq<(string, string)>, first: bool) returns (j: nat, e2: nat)
    requires Writable(fields, xs, gaps) && fields != [] && At(s, i, Written(fields, xs, gaps, first))
    ensures first || (i < |s| && s[i] == ',')
    ensures (if first then i else i + 1) <= |s| && SkipSpaces(s, if first then i else i + 1) == j
    ensures j <= |s| && MatchField(s, j, fields[0]).Some?
    ensures MatchField(s, j, fields[0]).value.ints == if xs[0].Number? then [ValueOf(xs[0])] else []
    ensures MatchField(s, j, fields[0]).value.alpha == if xs[0].Fraction? then Some(xs[0].text) else None
    ensures SkipSpaces(s, MatchField(s, j, fields[0]).value.end) == e2
    ensures Writable(fields[1..], xs[1..], gaps[1..]) && At(s, e2, Written(fields[1..], xs[1..], gaps[1..], false))
    ensures i + |Written(fields, xs, gaps, first)| == e2 + |Written(fields[1..], xs[1..], gaps[1..], false)|
  {
    var e;
    j, e, e2 := FieldLayout(s, i, fields, xs, gaps, first);
    LexemeMatch(s, j, fields[0], xs[0]);
  }

  /**
   * Written fields are matched in full: `MatchFields` reaches the end of the
   * text written and captures the numbers and the alpha text written.
   */
  lemma {:induction false} WrittenFieldsMatch(s: string, i: nat, fields: seq<Field>, xs: seq<Lexeme>,
                                                gaps: seq<(string, string)>, first: bool)
    requires Writable(fields, xs, gaps) && At(s, i, Written(fields, xs, gaps, first))
    ensures MatchFields(s, i, fields, first).Some?
    ensures MatchFields(s, i, fields, first).value.end == i + |Written(fields, xs, gaps, first)|
    ensures MatchFields(s, i, fields, first).value.ints == Values(xs)
    ensures MatchFields(s, i, fields, first).value.alpha == AlphaText(xs)
    decreases |fields|
  {
    if fields == [] {
      assert s[i + 0] == Written(fields, xs, gaps, first)[0];
    } else {
      var j, e2 := FirstFieldMatch(s, i, fields, xs, gaps, first);
      WrittenFieldsMatch(s, e2, fields[1..], xs[1..], gaps[1..], false);
      FieldsStep(s, i, fields, xs, first, j, e2);
    }
  }

  /** Written fields match as one span: the end of the text written, the numbers and the alpha text. */
  lemma FieldsOfWritten(s: string, j: nat, fields: seq<Field>, xs: seq<Lexeme>, gaps: seq<(string, string)>) returns (sp: Span)
    requires Writable(fields, xs, gaps) && At(s, j, Written(fields, xs, gaps, true))
    ensures sp == Span(j + |Written(fields, xs, gaps, true)|, Values(xs), AlphaText(xs))
    ensures MatchFields(s, j, fields, true) == Some(sp)
  {
    WrittenFieldsMatch(s, j, fields, xs, gaps, true);
    sp := MatchFields(s, j, fields, true).value;
  }

  /** A prefix held from `i` to `j` and a fields match `sp` from `j` make a functional match of the two. */
  lemma FunctionalOfParts(p: string, fields: seq<Field>, s: string, i: nat, j: nat, sp: Span)
    requires j == i + |p| && j <= |s| && s[i..j] == p
    requires MatchFields(s, j, fields, true) == Some(sp)
    ensures MatchFunctional(p, fields, s, i) == Some(Match(i, sp.end, sp.ints, sp.alpha))
  {
    FunctionalOfFields(p, fields, s, i);
  }

  /**
   * Every notation written with lexemes its fields accept matches where it
   * is written, ending after its `)` and capturing the values written.
   */
  lemma WrittenMatches(f: Format, s: string, i: nat, xs: seq<Lexeme>, gaps: seq<(string, string)>)
    requires IsFunctional(f) && Writable(Fields(f), xs, gaps)
    requires At(s, i, Prefix(f) + Written(Fields(f), xs, gaps, true))
    ensures MatchAt(f, s, i).Some?
    ensures MatchAt(f, s, i).value.end == i + |Prefix(f) + Written(Fields(f), xs, gaps, true)|
    ensures MatchAt(f, s, i).value.ints == Values(xs)
    ensures MatchAt(f, s, i).value.alpha == AlphaText(xs)
  {
    var p, w := Prefix(f), Written(Fields(f), xs, gaps, true);
    var j := PrefixThenRest(s, i, p, w);
    var sp := FieldsOfWritten(s, j, Fields(f), xs, gaps);
    FunctionalOfParts(p, Fields(f), s, i, j, sp);
    assert MatchAt(f, s, i) == MatchFunctional(p, Fields(f), s, i);
  }

  /** A text `p + w` held at `i` is `p` as a slice from `i`, followed by `w` held where `p` ends. */
  lemma PrefixThenRest(s: string, i: nat, p: string, w: string) returns (j: nat)
    requires At(s, i, p + w)
    ensures j == i + |p| && j <= |s| && s[i..j] == p && At(s, j, w)
    ensures i + |p + w| == j + |w|
  {
    j := i + |p|;
    AtSplit(s, i, p, w);
    AtSlice(s, i, p);
  }

  /** White space, a lexeme, white space and the rest, each held where the last ends, hold their concatenation. */
  lemma PiecesJoin(s: string, i: nat, j: nat, e: nat, e2: nat, a: string, t: string, b: string, rest: string)
    requires j == i + |a| && e == j + |t| && e2 == e + |b|
    requires At(s, i, a) && At(s, j, t) && At(s, e, b) && At(s, e2, rest)
    ensures At(s, i, a + (t + (b + rest)))
  {
    AtJoin(s, e, e2, b, rest);
    AtJoin(s, j, e, t, b + rest);
    AtJoin(s, i, j, a, t + (b + rest));
  }

  /** What `MatchInt` consumes is a number written as the field asks. */
  lemma NumberLexeme(s: string, j: nat, signed: bool, percent: bool) returns (x: Lexeme)
    requires j <= |s| && MatchInt(s, j, signed, percent).Some?
    ensures Fits(Int(signed, percent), x) && At(s, j, Spell(Int(signed, percent), x))
    ensures j + |Spell(Int(signed, percent), x)| == MatchInt(s, j, signed, percent).value.end
  {
    var end := MatchInt(s, j, signed, percent).value.end;
    var neg := signed && s[j] == '-';
    var jj := if neg then j + 1 else j;
    var d := if percent then end - 1 else end;
    assert jj < d <= jj + 3 && AllDigits(s[jj..d]);
    x := Number(neg, s[jj..d]);
    SignedDigitsAt(s, j, jj, d, neg, percent);
    assert Spell(Int(signed, percent), x) == (if neg then "-" else "") + (s[jj..d] + (if percent then "%" else ""));
  }

  /** An optional `-`, digits and an optional `%`, read off the text, are held where they start. */
  lemma SignedDigitsAt(s: string, j: nat, jj: nat, d: nat, neg: bool, percent: bool)
    requires jj == (if neg then j + 1 else j) && jj <= d <= |s|
    requires neg ==> s[j] == '-'
    requires percent ==> d < |s| && s[d] == '%'
    ensures At(s, j, (if neg then "-" else "") + (s[jj..d] + (if percent then "%" else "")))
  {
    var sign := if neg then "-" else "";
    var tail := if percent then "%" else "";
    assert At(s, j, sign) by {
      if neg {
        assert s[j + 0] == sign[0];
      }
    }
    SliceAt(s, jj, d);
    assert At(s, d, tail) by {
      if percent {
        assert s[d + 0] == tail[0];
      }
    }
    AtJoin(s, jj, d, s[jj..d], tail);
    AtJoin(s, j, jj, sign, s[jj..d] + tail);
  }

  /** What a field's matcher consumes is a lexeme that fits the field. */
  lemma FieldLexeme(s: string, j: nat, field: Field) returns (x: Lexeme)
    requires j <= |s| && MatchField(s, j, field).Some?
    ensures Fits(field, x) && At(s, j, Spell(field, x))
    ensures j + |Spell(field, x)| == MatchField(s, j, field).value.end
  {
    match field
    case Int(signed, percent) =>
      x := NumberLexeme(s, j, signed, percent);
    case Alpha =>
      var e := MatchAlpha(s, j).value.end;
      AlphaMatchIsToken(s, j);
      x := Fraction(s[j..e]);
      SliceAt(s, j, e);
  }

  /** The white space `\s*` skips is held where it starts. */
  lemma SkippedAt(s: string, i: nat)
    requires i <= |s|
    ensures At(s, i, s[i..SkipSpaces(s, i)]) && AllSpace(s[i..SkipSpaces(s, i)])
  {
    SliceAt(s, i, SkipSpaces(s, i));
  }

  /**
   * Every match of fields is fields written out: the text it spans is the
   * fields written with lexemes that fit them and white space around them.
   */
  lemma {:induction false} MatchIsWritten(s: string, i: nat, fields: seq<Field>, first: bool)
    returns (xs: seq<Lexeme>, gaps: seq<(string, string)>)
    requires i <= |s| && MatchFields(s, i, fields, first).Some?
    ensures Writable(fields, xs, gaps) && At(s, i, Written(fields, xs, gaps, first))
    decreases |fields|
  {
    if fields == [] {
      xs, gaps := [], [];
      assert s[i + 0] == Written(fields, xs, gaps, first)[0];
    } else {
      var i1 := if first then i else i + 1;
      var j := SkipSpaces(s, i1);
      var x := FieldLexeme(s, j, fields[0]);
      var e := MatchField(s, j, fields[0]).value.end;
      var e2 := SkipSpaces(s, e);
      var a, b := s[i1..j], s[e..e2];
      SkippedAt(s, i1);
      SkippedAt(s, e);
      var xs', gaps' := MatchIsWritten(s, e2, fields[1..], false);
      xs, gaps := [x] + xs', [(a, b)] + gaps';
      var rest := Written(fields[1..], xs', gaps', false);
      PiecesJoin(s, i1, j, e, e2, a, Spell(fields[0], x), b, rest);
      FirstFieldAt(s, i, fields, x, xs', a, b, gaps', first);
      WritableCons(fields, x, xs', a, b, gaps');
    }
  }

  /** A writable field list with one more field in front. */
  lemma WritableCons(fields: seq<Field>, x: Lexeme, xs: seq<Lexeme>, a: string, b: string, gaps: seq<(string, string)>)
    requires fields != [] && Fits(fields[0], x) && AllSpace(a) && AllSpace(b)
    requires Writable(fields[1..], xs, gaps)
    ensures Writable(fields, [x] + xs, [(a, b)] + gaps)
  {
    var xs1, gaps1 := [x] + xs, [(a, b)] + gaps;
    forall k | 0 <= k < |fields|
      ensures Fits(fields[k], xs1[k]) && AllSpace(gaps1[k].0) && AllSpace(gaps1[k].1)
    {
      if k > 0 {
        assert fields[k] == fields[1..][k - 1] && xs1[k] == xs[k - 1] && gaps1[k] == gaps[k - 1];
      }
    }
  }

  /** The separator, then the first field and the rest held after it, hold the whole list written out. */
  lemma FirstFieldAt(s: string, i: nat, fields: seq<Field>, x: Lexeme, xs: seq<Lexeme>,
                     a: string, b: string, gaps: seq<(string, string)>, first: bool)
    requires fields != [] && |xs| == |fields| - 1 && |gaps| == |fields| - 1
    requires !first ==> i < |s| && s[i] == ','
    requires At(s, if first then i else i + 1, a + (Spell(fields[0], x) + (b + Written(fields[1..], xs, gaps, false))))
    ensures At(s, i, Written(fields, [x] + xs, [(a, b)] + gaps, first))
  {
    var body := a + (Spell(fields[0], x) + (b + Written(fields[1..], xs, gaps, false)));
    var sep := if first then "" else ",";
    assert At(s, i, sep) by {
      if !first {
        assert s[i + 0] == sep[0];
      }
    }
    AtJoin(s, i, if first then i else i + 1, sep, body);
    assert ([x] + xs)[1..] == xs && ([(a, b)] + gaps)[1..] == gaps;
    assert Written(fields, [x] + xs, [(a, b)] + gaps, first) == sep + body;
  }

  /**
   * Field lists: `MatchFields` succeeds from `i` exactly when the text
   * there is the fields written out, and then it captures what was written.
   */
  lemma FieldsIff(s: string, i: nat, fields: seq<Field>, first: bool)
    requires i <= |s|
    ensures MatchFields(s, i, fields, first).Some? <==>
      exists xs, gaps :: Writable(fields, xs, gaps) && At(s, i, Written(fields, xs, gaps, first))
  {
    if MatchFields(s, i, fields, first).Some? {
      var xs, gaps := MatchIsWritten(s, i, fields, first);
    }
    if xs, gaps :| Writable(fields, xs, gaps) && At(s, i, Written(fields, xs, gaps, first)) {
      WrittenFieldsMatch(s, i, fields, xs, gaps, first);
    }
  }

  /** What a functional pattern matches is the notation written out. */
  lemma NotationWritten(f: Format, s: string, i: nat) returns (xs: seq<Lexeme>, gaps: seq<(string, string)>)
    requires IsFunctional(f) && i <= |s| && MatchAt(f, s, i).Some?
    ensures Writable(Fields(f), xs, gaps) && At(s, i, Prefix(f) + Written(Fields(f), xs, gaps, true))
  {
    assert MatchAt(f, s, i) == MatchFunctional(Prefix(f), Fields(f), s, i);
    xs, gaps := FunctionalWritten(Prefix(f), Fields(f), s, i);
  }

  /** The same for any name and fields. */
  lemma FunctionalWritten(p: string, fields: seq<Field>, s: string, i: nat) returns (xs: seq<Lexeme>, gaps: seq<(string, string)>)
    requires i <= |s| && MatchFunctional(p, fields, s, i).Some?
    ensures Writable(fields, xs, gaps) && At(s, i, p + Written(fields, xs, gaps, true))
  {
    var body := FunctionalBody(p, fields, s, i);
    xs, gaps := MatchIsWritten(s, i + |p|, fields, true);
    SliceAt(s, i, i + |p|);
    AtJoin(s, i, i + |p|, p, Written(fields, xs, gaps, true));
  }

  /**
   * A functional pattern matches at `i` exactly when the text there is the
   * notation's name and `(`, then its fields written out.
   */
  lemma NotationIff(f: Format, s: string, i: nat)
    requires IsFunctional(f) && i <= |s|
    ensures MatchAt(f, s, i).Some? <==>
      exists xs, gaps :: Writable(Fields(f), xs, gaps) && At(s, i, Prefix(f) + Written(Fields(f), xs, gaps, true))
  {
    if MatchAt(f, s, i).Some? {
      var xs, gaps := NotationWritten(f, s, i);
    }
    if xs, gaps :| Writable(Fields(f), xs, gaps) && At(s, i, Prefix(f) + Written(Fields(f), xs, gaps, true)) {
      WrittenMatches(f, s, i, xs, gaps);
    }
  }

  /** Written numbers keep their order and sign: one value per field, non-negative where the field takes no `-`. */
  lemma {:induction false} ValuesFollowFields(fields: seq<Field>, xs: seq<Lexeme>, gaps: seq<(string, string)>)
    requires Writable(fields, xs, gaps) && Alpha !in fields
    ensures |Values(xs)| == |fields|
    ensures forall k :: 0 <= k < |fields| && !fields[k].signed ==> Values(xs)[k] >= 0
  {
    if fields != [] {
      WritableRest(fields, xs, gaps);
      assert Alpha !in fields[1..] by {
        assert forall k :: 0 <= k < |fields| - 1 ==> fields[1..][k] == fields[k + 1];
      }
      ValuesFollowFields(fields[1..], xs[1..], gaps[1..]);
      assert Values(xs) == [ValueOf(xs[0])] + Values(xs[1..]);
      forall k | 0 <= k < |fields| && !fields[k].signed
        ensures Values(xs)[k] >= 0
      {
        if k > 0 {
          assert fields[k] == fields[1..][k - 1];
        }
      }
    }
  }

  /**
   * Each capture of a notation without an alpha field belongs to the field
   * in the same place, and the fields that take no `-` capture no negative
   * number: the lightness of `lab(`, the luma of `yuv(` and `ycbcr(`, every
   * field of `lch(`.
   */
  lemma FieldSigns(f: Format, s: string, i: nat)
    requires IsFunctional(f) && f != RGBA && i <= |s| && MatchAt(f, s, i).Some?
    ensures |MatchAt(f, s, i).value.ints| == |Fields(f)|
    ensures forall k :: 0 <= k < |Fields(f)| && !Fields(f)[k].signed ==> MatchAt(f, s, i).value.ints[k] >= 0
  {
    var xs, gaps := NotationWritten(f, s, i);
    WrittenMatches(f, s, i, xs, gaps);
    OnlyRgbaHasAlpha(f);
    ValuesFollowFields(Fields(f), xs, gaps);
  }

  /** Only `rgba(` has an alpha field. */
  lemma OnlyRgbaHasAlpha(f: Format)
    requires IsFunctional(f) && f != RGBA
    ensures Alpha !in Fields(f)
  {
  }

  /** The first capture of `lab(`, `yuv(` and `ycbcr(` is never negative. */
  lemma FirstFieldNonNegative(f: Format, s: string, i: nat)
    requires f in {LAB, YUV, YCBCR} && i <= |s| && MatchAt(f, s, i).Some?
    ensures MatchAt(f, s, i).value.ints[0] >= 0
  {
    FieldSigns(f, s, i);
  }

  /** `rgb(0, 255, 0)` matches in full and captures 0, 255 and 0. */
  lemma RgbExample(s: string)
    requires s == "rgb(0, 255, 0)"
    ensures MatchAt(RGB, s, 0).Some? && MatchAt(RGB, s, 0).value.end == |s|
    ensures MatchAt(RGB, s, 0).value.ints == [0, 255, 0] && MatchAt(RGB, s, 0).value.alpha == None
  {
    var xs := [Number(false, "0"), Number(false, "255"), Number(false, "0")];
    var gaps := [("", ""), (" ", ""), (" ", "")];
    RgbWritten(xs, gaps);
    RgbText(xs, gaps);
    SliceAt(s, 0, |s|);
    WrittenMatches(RGB, s, 0, xs, gaps);
    Values255(xs);
  }

  lemma RgbWritten(xs: seq<Lexeme>, gaps: seq<(string, string)>)
    requires xs == [Number(false, "0"), Number(false, "255"), Number(false, "0")]
    requires gaps == [("", ""), (" ", ""), (" ", "")]
    ensures Writable(Fields(RGB), xs, gaps)
  {
    assert Writable(Fields(RGB), xs, gaps);
  }

  lemma RgbText(xs: seq<Lexeme>, gaps: seq<(string, string)>)
    requires xs == [Number(false, "0"), Number(false, "255"), Number(false, "0")]
    requires gaps == [("", ""), (" ", ""), (" ", "")]
    ensures Prefix(RGB) + Written(Fields(RGB), xs, gaps, true) == "rgb(0, 255, 0)"
  {
    var fs := Fields(RGB);
    assert fs[1..][1..] == fs[2..] && fs[2..][1..] == [];
    assert xs[1..][1..] == xs[2..] && xs[2..][1..] == [];
    assert gaps[1..][1..] == gaps[2..] && gaps[2..][1..] == [];
    assert Spell(fs[0], xs[0]) == "0" && Spell(fs[1], xs[1]) == "255" && Spell(fs[2], xs[2]) == "0";
    var w3 := Written(fs[2..][1..], xs[2..][1..], gaps[2..][1..], false);
    assert w3 == ")";
    var w2 := Written(fs[2..], xs[2..], gaps[2..], false);
    assert w2 == "," + (" " + ("0" + ("" + w3)));
    var w1 := Written(fs[1..], xs[1..], gaps[1..], false);
    assert w1 == "," + (" " + ("255" + ("" + w2)));
    assert Written(fs, xs, gaps, true) == "" + ("" + ("0" + ("" + w1)));
  }

  lemma Values255(xs: seq<Lexeme>)
    requires xs == [Number(false, "0"), Number(false, "255"), Number(false, "0")]
    ensures Values(xs) == [0, 255, 0]
  {
    assert AllDigits("255") && AllDigits("0");
    assert "255"[..2] == "25" && "25"[..1] == "2" && "2"[..0] == "";
    assert DecimalValue("255") == 255;
    assert ValueOf(xs[1]) == 255 && ValueOf(xs[0]) == 0 && ValueOf(xs[2]) == 0;
    assert xs[1..][1..] == xs[2..] && xs[2..][1..] == [];
    assert Values(xs[2..]) == [0];
    assert Values(xs[1..]) == [255, 0];
  }

  /** `lab(50%, -20, -30)` captures 50, -20 and -30: the signed fields keep their sign. */
  lemma LabExample(s: string)
    requires s == "lab(50%, -20, -30)"
    ensures MatchAt(LAB, s, 0).Some? && MatchAt(LAB, s, 0).value.end == |s|
    ensures MatchAt(LAB, s, 0).value.ints == [50, -20, -30]
  {
    var xs := [Number(false, "50"), Number(true, "20"), Number(true, "30")];
    var gaps := [("", ""), (" ", ""), (" ", "")];
    LabWritten(xs, gaps);
    LabText(xs, gaps);
    SliceAt(s, 0, |s|);
    WrittenMatches(LAB, s, 0, xs, gaps);
    LabValues(xs);
  }

  lemma LabWritten(xs: seq<Lexeme>, gaps: seq<(string, string)>)
    requires xs == [Number(false, "50"), Number(true, "20"), Number(true, "30")]
    requires gaps == [("", ""), (" ", ""), (" ", "")]
    ensures Writable(Fields(LAB), xs, gaps)
  {
    assert Writable(Fields(LAB), xs, gaps);
  }

  lemma LabText(xs: seq<Lexeme>, gaps: seq<(string, string)>)
    requires xs == [Number(false, "50"), Number(true, "20"), Number(true, "30")]
    requires gaps == [("", ""), (" ", ""), (" ", "")]
    ensures Prefix(LAB) + Written(Fields(LAB), xs, gaps, true) == "lab(50%, -20, -30)"
  {
    var fs := Fields(LAB);
    assert fs[1..][1..] == fs[2..] && fs[2..][1..] == [];
    assert xs[1..][1..] == xs[2..] && xs[2..][1..] == [];
    assert gaps[1..][1..] == gaps[2..] && gaps[2..][1..] == [];
    assert Spell(fs[0], xs[0]) == "50%" && Spell(fs[1], xs[1]) == "-20" && Spell(fs[2], xs[2]) == "-30";
    var w3 := Written(fs[2..][1..], xs[2..][1..], gaps[2..][1..], false);
    assert w3 == ")";
    var w2 := Written(fs[2..], xs[2..], gaps[2..], false);
    assert w2 == "," + (" " + ("-30" + ("" + w3)));
    var w1 := Written(fs[1..], xs[1..], gaps[1..], false);
    assert w1 == "," + (" " + ("-20" + ("" + w2)));
    assert Written(fs, xs, gaps, true) == "" + ("" + ("50%" + ("" + w1)));
  }

  lemma LabValues(xs: seq<Lexeme>)
    requires xs == [Number(false, "50"), Number(true, "20"), Number(true, "30")]
    ensures Values(xs) == [50, -20, -30]
  {
    assert AllDigits("50") && AllDigits("20") && AllDigits("30");
    assert "50"[..1] == "5" && "20"[..1] == "2" && "30"[..1] == "3";
    assert "5"[..0] == "" && "2"[..0] == "" && "3"[..0] == "";
    assert DecimalValue("50") == 50 && DecimalValue("20") == 20 && DecimalValue("30") == 30;
    assert ValueOf(xs[0]) == 50 && ValueOf(xs[1]) == -20 && ValueOf(xs[2]) == -30;
    assert xs[1..][1..] == xs[2..] && xs[2..][1..] == [];
    assert Values(xs[2..]) == [-30];
    assert Values(xs[1..]) == [-20, -30];
  }

  /** `rgba(1, 2, 3, .5)` captures 1, 2 and 3 and the alpha text `.5`. */
  lemma RgbaExample(s: string)
    requires s == "rgba(1, 2, 3, .5)"
    ensures MatchAt(RGBA, s, 0).Some? && MatchAt(RGBA, s, 0).value.end == |s|
    ensures MatchAt(RGBA, s, 0).value.ints == [1, 2, 3] && MatchAt(RGBA, s, 0).value.alpha == Some(".5")
  {
    var xs := [Number(false, "1"), Number(false, "2"), Number(false, "3"), Fraction(".5")];
    var gaps := [("", ""), (" ", ""), (" ", ""), (" ", "")];
    RgbaWritten(xs, gaps);
    RgbaText(xs, gaps);
    SliceAt(s, 0, |s|);
    WrittenMatches(RGBA, s, 0, xs, gaps);
    RgbaValues(xs);
  }

  lemma RgbaWritten(xs: seq<Lexeme>, gaps: seq<(string, string)>)
    requires xs == [Number(false, "1"), Number(false, "2"), Number(false, "3"), Fraction(".5")]
    requires gaps == [("", ""), (" ", ""), (" ", ""), (" ", "")]
    ensures Writable(Fields(RGBA), xs, gaps)
  {
    assert AlphaToken(".5") by {
      assert ".5"[1..] == "5";
    }
    assert Writable(Fields(RGBA), xs, gaps);
  }

  lemma RgbaText(xs: seq<Lexeme>, gaps: seq<(string, string)>)
    requires xs == [Number(false, "1"), Number(false, "2"), Number(false, "3"), Fraction(".5")]
    requires gaps == [("", ""), (" ", ""), (" ", ""), (" ", "")]
    ensures Prefix(RGBA) + Written(Fields(RGBA), xs, gaps, true) == "rgba(1, 2, 3, .5)"
  {
    var fs := Fields(RGBA);
    assert Spell(fs[0], xs[0]) == "1";
    RgbaMiddle(fs[1..], xs[1..], gaps[1..]);
    var w1 := Written(fs[1..], xs[1..], gaps[1..], false);
    assert Written(fs, xs, gaps, true) == "" + ("" + ("1" + ("" + w1)));
  }

  /** The last three fields of the `rgba(1, 2, 3, .5)` example. */
  lemma RgbaMiddle(fs: seq<Field>, xs: seq<Lexeme>, gaps: seq<(string, string)>)
    requires fs == [Plain, Plain, Alpha] && xs == [Number(false, "2"), Number(false, "3"), Fraction(".5")]
    requires gaps == [(" ", ""), (" ", ""), (" ", "")]
    ensures Written(fs, xs, gaps, false) == ", 2, 3, .5)"
  {
    assert Spell(fs[0], xs[0]) == "2";
    RgbaTail(fs[1..], xs[1..], gaps[1..]);
    var w2 := Written(fs[1..], xs[1..], gaps[1..], false);
    assert Written(fs, xs, gaps, false) == "," + (" " + ("2" + ("" + w2)));
  }

  /** The last two fields of the `rgba(1, 2, 3, .5)` example. */
  lemma RgbaTail(fs: seq<Field>, xs: seq<Lexeme>, gaps: seq<(string, string)>)
    requires fs == [Plain, Alpha] && xs == [Number(false, "3"), Fraction(".5")]
    requires gaps == [(" ", ""), (" ", "")]
    ensures Written(fs, xs, gaps, false) == ", 3, .5)"
  {
    assert fs[1..][1..] == [] && xs[1..][1..] == [] && gaps[1..][1..] == [];
    assert Spell(fs[0], xs[0]) == "3" && Spell(fs[1], xs[1]) == ".5";
    var w2 := Written(fs[1..][1..], xs[1..][1..], gaps[1..][1..], false);
    assert w2 == ")";
    var w1 := Written(fs[1..], xs[1..], gaps[1..], false);
    assert w1 == "," + (" " + (".5" + ("" + w2)));
    assert Written(fs, xs, gaps, false) == "," + (" " + ("3" + ("" + w1)));
  }

  lemma RgbaValues(xs: seq<Lexeme>)
    requires xs == [Number(false, "1"), Number(false, "2"), Number(false, "3"), Fraction(".5")]
    ensures Values(xs) == [1, 2, 3] && AlphaText(xs) == Some(".5")
  {
    assert AllDigits("1") && AllDigits("2") && AllDigits("3");
    assert "1"[..0] == "" && "2"[..0] == "" && "3"[..0] == "";
    assert ValueOf(xs[0]) == 1 && ValueOf(xs[1]) == 2 && ValueOf(xs[2]) == 3;
    assert xs[1..][1..] == xs[2..] && xs[2..][1..] == xs[3..] && xs[3..][1..] == [];
    assert Values(xs[3..]) == [] && AlphaText(xs[3..]) == Some(".5");
    assert Values(xs[2..]) == [3] && AlphaText(xs[2..]) == Some(".5");
    assert Values(xs[1..]) == [2, 3] && AlphaText(xs[1..]) == Some(".5");
  }

  /** `rgb(255, 99, 71)` matches in full and captures 255, 99 and 71. */
  lemma TomatoExample(s: string)
    requires s == "rgb(255, 99, 71)"
    ensures MatchAt(RGB, s, 0).Some? && MatchAt(RGB, s, 0).value.end == |s|
    ensures MatchAt(RGB, s, 0).value.ints == [255, 99, 71]
  {
    var xs := [Number(false, "255"), Number(false, "99"), Number(false, "71")];
    var gaps := [("", ""), (" ", ""), (" ", "")];
    TomatoWritten(xs, gaps);
    TomatoText(xs, gaps);
    SliceAt(s, 0, |s|);
    WrittenMatches(RGB, s, 0, xs, gaps);
    TomatoValues(xs);
  }

  lemma TomatoWritten(xs: seq<Lexeme>, gaps: seq<(string, string)>)
    requires xs == [Number(false, "255"), Number(false, "99"), Number(false, "71")]
    requires gaps == [("", ""), (" ", ""), (" ", "")]
    ensures Writable(Fields(RGB), xs, gaps)
  {
    assert Writable(Fields(RGB), xs, gaps);
  }

  lemma TomatoText(xs: seq<Lexeme>, gaps: seq<(string, string)>)
    requires xs == [Number(false, "255"), Number(false, "99"), Number(false, "71")]
    requires gaps == [("", ""), (" ", ""), (" ", "")]
    ensures Prefix(RGB) + Written(Fields(RGB), xs, gaps, true) == "rgb(255, 99, 71)"
  {
    var fs := Fields(RGB);
    assert fs[1..][1..] == fs[2..] && fs[2..][1..] == [];
    assert xs[1..][1..] == xs[2..] && xs[2..][1..] == [];
    assert gaps[1..][1..] == gaps[2..] && gaps[2..][1..] == [];
    assert Spell(Plain, xs[0]) == "255" && Spell(Plain, xs[1]) == "99" && Spell(Plain, xs[2]) == "71";
    var w3 := Written(fs[2..][1..], xs[2..][1..], gaps[2..][1..], false);
    assert w3 == ")";
    var w2 := Written(fs[2..], xs[2..], gaps[2..], false);
    assert w2 == "," + (" " + ("71" + ("" + w3)));
    var w1 := Written(fs[1..], xs[1..], gaps[1..], false);
    assert w1 == "," + (" " + ("99" + ("" + w2)));
    assert Written(fs, xs, gaps, true) == "" + ("" + ("255" + ("" + w1)));
  }

  lemma TomatoValues(xs: seq<Lexeme>)
    requires xs == [Number(false, "255"), Number(false, "99"), Number(false, "71")]
    ensures Values(xs) == [255, 99, 71]
  {
    assert AllDigits("255") && AllDigits("99") && AllDigits("71");
    assert "255"[..2] == "25" && "25"[..1] == "2" && "2"[..0] == "";
    assert "99"[..1] == "9" && "9"[..0] == "" && "71"[..1] == "7" && "7"[..0] == "";
    assert DecimalValue("255") == 255 && DecimalValue("99") == 99 && DecimalValue("71") == 71;
    assert ValueOf(xs[0]) == 255 && ValueOf(xs[1]) == 99 && ValueOf(xs[2]) == 71;
    assert xs[1..][1..] == xs[2..] && xs[2..][1..] == [];
    assert Values(xs[2..]) == [71];
    assert Values(xs[1..]) == [99, 71];
  }

  /** `rgb(999, 0, 0)` matches in full and captures 999, 0 and 0: the pattern allows any three digits. */
  lemma OutOfRangeExample(s: string)
    requires s == "rgb(999, 0, 0)"
    ensures MatchAt(RGB, s, 0).Some? && MatchAt(RGB, s, 0).value.end == |s|
    ensures MatchAt(RGB, s, 0).value.ints == [999, 0, 0]
  {
    var xs := [Number(false, "999"), Number(false, "0"), Number(false, "0")];
    var gaps := [("", ""), (" ", ""), (" ", "")];
    assert Writable(Fields(RGB), xs, gaps);
    OutOfRangeText(xs, gaps);
    SliceAt(s, 0, |s|);
    WrittenMatches(RGB, s, 0, xs, gaps);
    OutOfRangeValues(xs);
  }

  lemma OutOfRangeText(xs: seq<Lexeme>, gaps: seq<(string, string)>)
    requires xs == [Number(false, "999"), Number(false, "0"), Number(false, "0")]
    requires gaps == [("", ""), (" ", ""), (" ", "")]
    ensures Prefix(RGB) + Written(Fields(RGB), xs, gaps, true) == "rgb(999, 0, 0)"
  {
    var fs := Fields(RGB);
    assert fs[1..][1..] == fs[2..] && fs[2..][1..] == [];
    assert xs[1..][1..] == xs[2..] && xs[2..][1..] == [];
    assert gaps[1..][1..] == gaps[2..] && gaps[2..][1..] == [];
    assert Spell(Plain, xs[0]) == "999" && Spell(Plain, xs[1]) == "0" && Spell(Plain, xs[2]) == "0";
    var w3 := Written(fs[2..][1..], xs[2..][1..], gaps[2..][1..], false);
    assert w3 == ")";
    var w2 := Written(fs[2..], xs[2..], gaps[2..], false);
    assert w2 == "," + (" " + ("0" + ("" + w3)));
    var w1 := Written(fs[1..], xs[1..], gaps[1..], false);
    assert w1 == "," + (" " + ("0" + ("" + w2)));
    assert Written(fs, xs, gaps, true) == "" + ("" + ("999" + ("" + w1)));
  }

  lemma OutOfRangeValues(xs: seq<Lexeme>)
    requires xs == [Number(false, "999"), Number(false, "0"), Number(false, "0")]
    ensures Values(xs) == [999, 0, 0]
  {
    assert AllDigits("999") && AllDigits("0");
    assert "999"[..2] == "99" && "99"[..1] == "9" && "9"[..0] == "" && "0"[..0] == "";
    assert DecimalValue("999") == 999 && DecimalValue("0") == 0;
    assert ValueOf(xs[0]) == 999 && ValueOf(xs[1]) == 0 && ValueOf(xs[2]) == 0;
    assert xs[1..][1..] == xs[2..] && xs[2..][1..] == [];
    assert Values(xs[2..]) == [0];
    assert Values(xs[1..]) == [0, 0];
  }
}
