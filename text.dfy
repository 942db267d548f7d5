/**
 * Character classes and string helpers shared by the colour grammar, the
 * parser, the file-type filter and the history manager. They stand for the
 * JavaScript built-ins the extension calls (`\s`, `\w`, `trim`,
 * `toLowerCase`, `startsWith`, `includes`, `parseInt`, number to string).
 */
module Text {

  import opened Wrappers

  /** JavaScript `\s`, and the characters `String.prototype.trim` removes. */
  predicate IsSpace(c: char)
  {
    || c == ' ' || c == '\t' || c == '\n' || c == '\r'
    || c == '\U{B}' || c == '\U{C}' || c == '\U{A0}' || c == '\U{1680}'
    || ('\U{2000}' <= c <= '\U{200A}')
    || c == '\U{2028}' || c == '\U{2029}' || c == '\U{202F}' || c == '\U{205F}'
    || c == '\U{3000}' || c == '\U{FEFF}'
  }

  /** JavaScript `\d`: ASCII digits only. */
  predicate IsDigit(c: char)
  {
    '0' <= c <= '9'
  }

  /** `[A-Fa-f0-9]` */
  predicate IsHexDigit(c: char)
  {
    IsDigit(c) || 'a' <= c <= 'f' || 'A' <= c <= 'F'
  }

  /** `[0-9a-f]`: the digits `Number.prototype.toString(16)` writes. */
  predicate IsLowerHexDigit(c: char)
  {
    IsDigit(c) || 'a' <= c <= 'f'
  }

  /** JavaScript `\w` (without the `u` flag): `[A-Za-z0-9_]`. */
  predicate IsWordChar(c: char)
  {
    IsDigit(c) || 'a' <= c <= 'z' || 'A' <= c <= 'Z' || c == '_'
  }

  /** Lower-casing of one character, on the ASCII letters. */
  function LowerChar(c: char): char
  {
    if 'A' <= c <= 'Z' then (c as int + 32) as char else c
  }

  /** `toLowerCase`, on the ASCII letters. */
  function Lower(s: string): (r: string)
    ensures |r| == |s|
    ensures forall i :: 0 <= i < |s| ==> r[i] == LowerChar(s[i])
  {
    seq(|s|, i requires 0 <= i < |s| => LowerChar(s[i]))
  }

  /** `toLowerCase` leaves no capital letter behind, so a second one changes nothing. */
  lemma LowerLeavesNoCapital(s: string)
    ensures forall i :: 0 <= i < |s| ==> !('A' <= Lower(s)[i] <= 'Z')
    ensures Lower(Lower(s)) == Lower(s)
  {
  }

  predicate StartsWith(s: string, prefix: string)
  {
    |prefix| <= |s| && s[..|prefix|] == prefix
  }

  /** One differing character within both is enough to rule a prefix out. */
  lemma Differs(s: string, p: string, k: nat)
    requires k < |s| && k < |p| && s[k] != p[k]
    ensures !StartsWith(s, p)
  {
  }

  predicate EndsWith(s: string, suffix: string)
  {
    |suffix| <= |s| && s[|s| - |suffix|..] == suffix
  }

  /** `includes`: `w` occurs somewhere in `s`. */
  predicate Contains(s: string, w: string)
  {
    StartsWith(s, w) || (s != [] && Contains(s[1..], w))
  }

  /** Every character is white space. */
  predicate AllSpace(t: string)
  {
    forall k :: 0 <= k < |t| ==> IsSpace(t[k])
  }

  /** `trimStart`: drop leading white space. */
  function TrimStart(s: string): (r: string)
    ensures |r| <= |s| && r == s[|s| - |r|..]
    ensures r == [] || !IsSpace(r[0])
    decreases |s|
  {
    if s != [] && IsSpace(s[0]) then TrimStart(s[1..]) else s
  }

  /** What `trimStart` drops is white space. */
  lemma {:induction false} TrimStartDropsSpace(s: string)
    ensures AllSpace(s[..|s| - |TrimStart(s)|])
    decreases |s|
  {
    if s != [] && IsSpace(s[0]) {
      var r := TrimStart(s[1..]);
      TrimStartDropsSpace(s[1..]);
      assert s[..|s| - |r|] == [s[0]] + s[1..][..|s| - 1 - |r|];
    }
  }

  /** `trimEnd`: drop trailing white space. */
  function TrimEnd(s: string): (r: string)
    ensures |r| <= |s| && r == s[..|r|]
    ensures r == [] || !IsSpace(r[|r| - 1])
    decreases |s|
  {
    if s != [] && IsSpace(s[|s| - 1]) then TrimEnd(s[..|s| - 1]) else s
  }

  /** What `trimEnd` drops is white space. */
  lemma {:induction false} TrimEndDropsSpace(s: string)
    ensures AllSpace(s[|TrimEnd(s)|..])
    decreases |s|
  {
    if s != [] && IsSpace(s[|s| - 1]) {
      var r := TrimEnd(s[..|s| - 1]);
      TrimEndDropsSpace(s[..|s| - 1]);
      assert s[|r|..] == s[..|s| - 1][|r|..] + [s[|s| - 1]];
    }
  }

  /**
   * `trim`: the text between the leading and the trailing white space. It
   * neither starts nor ends with white space, and is empty exactly when the
   * whole text is white space.
   */
  function Trim(s: string): (r: string)
    ensures |r| <= |s|
    ensures r == [] || (!IsSpace(r[0]) && !IsSpace(r[|r| - 1]))
    ensures r == [] <==> AllSpace(s)
  {
    TrimEmpty(s);
    TrimEnd(TrimStart(s))
  }

  /** A text that neither starts nor ends with white space is its own `trim`. */
  lemma TrimUnchanged(s: string)
    requires s == [] || (!IsSpace(s[0]) && !IsSpace(s[|s| - 1]))
    ensures Trim(s) == s
  {
    assert TrimStart(s) == s;
  }

  /** `trim` gives the empty text exactly for a text of white space. */
  lemma TrimEmpty(s: string)
    ensures TrimEnd(TrimStart(s)) == [] <==> AllSpace(s)
  {
    var t := TrimStart(s);
    var r := TrimEnd(t);
    var k := |s| - |t|;
    assert t == s[k..];
    if t == [] {
      TrimStartDropsSpace(s);
      assert r == [] && s[..k] == s;
    } else {
      TrimEndDropsSpace(t);
      assert s[k] == t[0] && !IsSpace(t[0]);
      assert !AllSpace(t) && t[0..] == t;
    }
  }

  /**
   * `trim` keeps one slice of the text, with nothing but white space before
   * it (the part `trimStart` drops) and after it.
   */
  lemma TrimSlice(s: string) returns (k: nat)
    ensures k == |s| - |TrimStart(s)| && k + |Trim(s)| <= |s|
    ensures Trim(s) == s[k..k + |Trim(s)|]
    ensures AllSpace(s[..k])
    ensures AllSpace(s[k + |Trim(s)|..])
  {
    var t := TrimStart(s);
    k := |s| - |t|;
    assert Trim(s) == TrimEnd(t);
    assert AllSpace(s[..k]) by {
      TrimStartDropsSpace(s);
    }
    assert k + |TrimEnd(t)| <= |s| && TrimEnd(t) == s[k..k + |TrimEnd(t)|] && AllSpace(s[k + |TrimEnd(t)|..]) by {
      TrimEndSlice(s, k, t);
    }
  }

  /** The `trimEnd` half of `TrimSlice`, for the text `t` left after `k` characters. */
  lemma TrimEndSlice(s: string, k: nat, t: string)
    requires k <= |s| && t == s[k..]
    ensures k + |TrimEnd(t)| <= |s|
    ensures TrimEnd(t) == s[k..k + |TrimEnd(t)|]
    ensures AllSpace(s[k + |TrimEnd(t)|..])
  {
    var r := TrimEnd(t);
    assert r == t[..|r|];
    TrimEndDropsSpace(t);
    forall i | k + |r| <= i < |s|
      ensures IsSpace(s[i])
    {
      assert s[i] == t[i - k] == t[|r|..][i - k - |r|];
    }
  }

  /** `replace(/x/g, y)` for one character. */
  function ReplaceAll(s: string, x: char, y: char): (r: string)
    ensures |r| == |s|
    ensures forall i :: 0 <= i < |s| ==> r[i] == (if s[i] == x then y else s[i])
  {
    seq(|s|, i requires 0 <= i < |s| => if s[i] == x then y else s[i])
  }

  /** `replace(x, "")` with a one-character pattern: drops the first `x`. */
  function RemoveFirst(s: string, x: char): (r: string)
    decreases |s|
  {
    if s == [] then []
    else if s[0] == x then s[1..]
    else [s[0]] + RemoveFirst(s[1..], x)
  }

  /** The text after the last `x` (`split(x).pop()`); all of `s` if there is none. */
  function AfterLast(s: string, x: char): (r: string)
    ensures |r| <= |s| && r == s[|s| - |r|..]
    ensures x !in r
    ensures |r| < |s| ==> s[|s| - |r| - 1] == x
    decreases |s|
  {
    if s == [] then []
    else if s[|s| - 1] == x then []
    else
      var init := s[..|s| - 1];
      var r := AfterLast(init, x) + [s[|s| - 1]];
      assert s == init + [s[|s| - 1]];
      r
  }

  /** `substring(from, to)` for `from <= to`: indexes are clamped to the length. */
  function Substring(s: string, from: nat, to: nat): (r: string)
    requires from <= to
    ensures |r| <= to - from
  {
    var a := if from < |s| then from else |s|;
    var b := if to < |s| then to else |s|;
    s[a..b]
  }

  function DigitValue(c: char): nat
    requires IsDigit(c)
  {
    c as int - '0' as int
  }

  function HexDigitValue(c: char): (v: nat)
    requires IsHexDigit(c)
    ensures v < 16
  {
    if IsDigit(c) then c as int - '0' as int
    else if 'a' <= c <= 'f' then c as int - 'a' as int + 10
    else c as int - 'A' as int + 10
  }

  /** The character `Number.prototype.toString(16)` writes for a digit. */
  function HexChar(d: nat): (c: char)
    requires d < 16
    ensures IsLowerHexDigit(c) && HexDigitValue(c) == d
  {
    if d < 10 then ('0' as int + d) as char else ('a' as int + d - 10) as char
  }

  predicate AllDigits(s: string)
  {
    forall i :: 0 <= i < |s| ==> IsDigit(s[i])
  }

  predicate AllHexDigits(s: string)
  {
    forall i :: 0 <= i < |s| ==> IsHexDigit(s[i])
  }

  /** The value of a run of decimal digits (`parseInt(s, 10)` on `\d+`). */
  function DecimalValue(s: string): nat
    requires AllDigits(s)
  {
    if s == [] then 0 else 10 * DecimalValue(s[..|s| - 1]) + DigitValue(s[|s| - 1])
  }

  /** The value of a run of hex digits. */
  function HexValue(s: string): nat
    requires AllHexDigits(s)
  {
    if s == [] then 0 else 16 * HexValue(s[..|s| - 1]) + HexDigitValue(s[|s| - 1])
  }

  /** Length of the longest prefix of `s` made of hex digits. */
  function HexRun(s: string): (n: nat)
    ensures n <= |s| && AllHexDigits(s[..n])
    ensures n < |s| ==> !IsHexDigit(s[n])
  {
    if s == [] || !IsHexDigit(s[0]) then 0
    else
      var n := 1 + HexRun(s[1..]);
      assert s[..n] == [s[0]] + s[1..][..n - 1];
      n
  }

  /**
   * `parseInt(s, 16)`: leading white space, an optional sign, an optional
   * `0x`/`0X`, then the longest run of hex digits. No digit at all gives
   * NaN, written `None`.
   */
  function ParseIntHex(s: string): (r: Option<int>)
    ensures s != [] && AllHexDigits(s) ==> r == Some(HexValue(s))
    ensures |s| <= 2 && r.Some? ==> -15 <= r.value <= 255
  {
    var t := TrimStart(s);
    var neg := t != [] && t[0] == '-';
    var u := if t != [] && (t[0] == '-' || t[0] == '+') then t[1..] else t;
    var w := if |u| >= 2 && u[0] == '0' && (u[1] == 'x' || u[1] == 'X') then u[2..] else u;
    var n := HexRun(w);
    DigitsSteps(s, t, u, w, n);
    ShortSteps(s, t, u, w, n);
    if n == 0 then None
    else if neg then Some(-(HexValue(w[..n]) as int))
    else Some(HexValue(w[..n]))
  }

  /** A text of hex digits alone passes each step of `ParseIntHex` unchanged. */
  lemma DigitsSteps(s: string, t: string, u: string, w: string, n: nat)
    requires t == TrimStart(s)
    requires u == if t != [] && (t[0] == '-' || t[0] == '+') then t[1..] else t
    requires w == if |u| >= 2 && u[0] == '0' && (u[1] == 'x' || u[1] == 'X') then u[2..] else u
    requires n == HexRun(w)
    ensures s != [] && AllHexDigits(s) ==> w == s && n == |s| && s[..n] == s && !(t != [] && t[0] == '-')
  {
    if s != [] && AllHexDigits(s) {
      assert IsHexDigit(s[0]) && !IsSpace(s[0]);
      assert t == s;
      assert u == s;
      assert w == s by {
        assert |s| >= 2 ==> IsHexDigit(s[1]);
      }
      assert n == |s|;
    }
  }

  /** A text of at most two characters leaves at most two digits, and one after a `-`. */
  lemma ShortSteps(s: string, t: string, u: string, w: string, n: nat)
    requires t == TrimStart(s)
    requires u == if t != [] && (t[0] == '-' || t[0] == '+') then t[1..] else t
    requires w == if |u| >= 2 && u[0] == '0' && (u[1] == 'x' || u[1] == 'X') then u[2..] else u
    requires n == HexRun(w)
    ensures |s| <= 2 && 0 < n ==> HexValue(w[..n]) <= 255
    ensures |s| <= 2 && 0 < n && t != [] && t[0] == '-' ==> HexValue(w[..n]) <= 15
  {
    assert n <= |w| <= |u| <= |t| <= |s|;
    assert t != [] && t[0] == '-' ==> |u| == |t| - 1;
    ShortHexValue(w[..n]);
  }

  /** One hex digit is at most 15, two at most 255. */
  lemma ShortHexValue(x: string)
    requires AllHexDigits(x)
    ensures |x| <= 1 ==> HexValue(x) <= 15
    ensures |x| <= 2 ==> HexValue(x) <= 255
  {
    if x != [] {
      ShortHexValue(x[..|x| - 1]);
    }
  }

  function NatToString(n: nat): (s: string)
    ensures |s| >= 1 && AllDigits(s)
    ensures DecimalValue(s) == n
  {
    var d := ('0' as int + n % 10) as char;
    if n < 10 then [d]
    else
      var s := NatToString(n / 10) + [d];
      assert s[..|s| - 1] == NatToString(n / 10);
      s
  }

  /** A number as a template literal renders it, for integers. */
  function IntToString(n: int): string
  {
    if n < 0 then "-" + NatToString(-n) else NatToString(n)
  }
}
