/**
 * The `CSS_COLORS` table of extension.js: the 148 CSS named colours, each
 * mapped to `#` and six lower-case hex digits, in the order the object
 * literal lists them. The order matters: the NAMED pattern is the
 * alternation of the names in this order.
 *
 * Each entry is written as its name and the 24-bit number its six hex
 * digits spell (`0xf0f8ff` for `#f0f8ff`); `Spell` writes the number back
 * as the table's text. The entries sit in runs of eight so that each run's
 * names are checked on their own.
 */
module CssColors {

  import opened Wrappers
  import opened Text

  /** The table as the extension holds it: name and `#rrggbb` text, in source order. */
  function Table(): (t: seq<(string, string)>)
    ensures |t| == 148 && KeysAreNames(t) && ValuesAreHexCodes(t)
  {
    seq(148, k requires 0 <= k < 148 => Row(k))
  }

  /** Entry `k` as the table holds it. */
  function Row(k: nat): (string, string)
    requires k < 148
  {
    var e := Entry(k);
    (e.0, Spell(e.1))
  }

  /** A table key: a non-empty run of lower-case ASCII letters. */
  predicate IsColorName(name: string)
  {
    |name| > 0 && forall i :: 0 <= i < |name| ==> 'a' <= name[i] <= 'z'
  }

  /** A table value: `#` and six lower-case hex digits. */
  predicate IsHexCode(hex: string)
  {
    && |hex| == 7 && hex[0] == '#'
    && IsLowerHexDigit(hex[1]) && IsLowerHexDigit(hex[2]) && IsLowerHexDigit(hex[3])
    && IsLowerHexDigit(hex[4]) && IsLowerHexDigit(hex[5]) && IsLowerHexDigit(hex[6])
  }

  /** `#` and the six lower-case hex digits of a 24-bit number, most significant first. */
  function Spell(n: int): (hex: string)
    requires 0 <= n < 0x100_0000
    ensures IsHexCode(hex)
  {
    "#" + [HexChar(n / 0x10_0000), HexChar(n / 0x1_0000 % 16), HexChar(n / 0x1000 % 16),
           HexChar(n / 0x100 % 16), HexChar(n / 0x10 % 16), HexChar(n % 16)]
  }

  /** Entry `k`: its name and its colour as a 24-bit number. */
  function Entry(k: nat): (e: (string, int))
    requires k < 148
    ensures IsColorName(e.0) && 0 <= e.1 < 0x100_0000
  {
    if k < 8 then Entries0(k)
    else if k < 16 then Entries8(k)
    else if k < 24 then Entries16(k)
    else if k < 32 then Entries24(k)
    else if k < 40 then Entries32(k)
    else if k < 48 then Entries40(k)
    else if k < 56 then Entries48(k)
    else if k < 64 then Entries56(k)
    else if k < 72 then Entries64(k)
    else if k < 80 then Entries72(k)
    else if k < 88 then Entries80(k)
    else if k < 96 then Entries88(k)
    else if k < 104 then Entries96(k)
    else if k < 112 then Entries104(k)
    else if k < 120 then Entries112(k)
    else if k < 128 then Entries120(k)
    else if k < 136 then Entries128(k)
    else if k < 144 then Entries136(k)
    else Entries144(k)
  }

  function Entries0(k: nat): (e: (string, int))
    requires 0 <= k < 8
    ensures IsColorName(e.0) && 0 <= e.1 < 0x100_0000
  {
    match k
    case 0 => ("aliceblue", 0xf0f8ff)
    case 1 => ("antiquewhite", 0xfaebd7)
    case 2 => ("aqua", 0x00ffff)
    case 3 => ("aquamarine", 0x7fffd4)
    case 4 => ("azure", 0xf0ffff)
    case 5 => ("beige", 0xf5f5dc)
    case 6 => ("bisque", 0xffe4c4)
    case 7 => ("black", 0x000000)
  }

  function Entries8(k: nat): (e: (string, int))
    requires 8 <= k < 16
    ensures IsColorName(e.0) && 0 <= e.1 < 0x100_0000
  {
    match k
    case 8 => ("blanchedalmond", 0xffebcd)
    case 9 => ("blue", 0x0000ff)
    case 10 => ("blueviolet", 0x8a2be2)
    case 11 => ("brown", 0xa52a2a)
    case 12 => ("burlywood", 0xdeb887)
    case 13 => ("cadetblue", 0x5f9ea0)
    case 14 => ("chartreuse", 0x7fff00)
    case 15 => ("chocolate", 0xd2691e)
  }

  function Entries16(k: nat): (e: (string, int))
    requires 16 <= k < 24
    ensures IsColorName(e.0) && 0 <= e.1 < 0x100_0000
  {
    match k
    case 16 => ("coral", 0xff7f50)
    case 17 => ("cornflowerblue", 0x6495ed)
    case 18 => ("cornsilk", 0xfff8dc)
    case 19 => ("crimson", 0xdc143c)
    case 20 => ("cyan", 0x00ffff)
    case 21 => ("darkblue", 0x00008b)
    case 22 => ("darkcyan", 0x008b8b)
    case 23 => ("darkgoldenrod", 0xb8860b)
  }

  function Entries24(k: nat): (e: (string, int))
    requires 24 <= k < 32
    ensures IsColorName(e.0) && 0 <= e.1 < 0x100_0000
  {
    match k
    case 24 => ("darkgray", 0xa9a9a9)
    case 25 => ("darkgreen", 0x006400)
    case 26 => ("darkgrey", 0xa9a9a9)
    case 27 => ("darkkhaki", 0xbdb76b)
    case 28 => ("darkmagenta", 0x8b008b)
    case 29 => ("darkolivegreen", 0x556b2f)
    case 30 => ("darkorange", 0xff8c00)
    case 31 => ("darkorchid", 0x9932cc)
  }

  function Entries32(k: nat): (e: (string, int))
    requires 32 <= k < 40
    ensures IsColorName(e.0) && 0 <= e.1 < 0x100_0000
  {
    match k
    case 32 => ("darkred", 0x8b0000)
    case 33 => ("darksalmon", 0xe9967a)
    case 34 => ("darkseagreen", 0x8fbc8f)
    case 35 => ("darkslateblue", 0x483d8b)
    case 36 => ("darkslategray", 0x2f4f4f)
    case 37 => ("darkslategrey", 0x2f4f4f)
    case 38 => ("darkturquoise", 0x00ced1)
    case 39 => ("darkviolet", 0x9400d3)
  }

  function Entries40(k: nat): (e: (string, int))
    requires 40 <= k < 48
    ensures IsColorName(e.0) && 0 <= e.1 < 0x100_0000
  {
    match k
    case 40 => ("deeppink", 0xff1493)
    case 41 => ("deepskyblue", 0x00bfff)
    case 42 => ("dimgray", 0x696969)
    case 43 => ("dimgrey", 0x696969)
    case 44 => ("dodgerblue", 0x1e90ff)
    case 45 => ("firebrick", 0xb22222)
    case 46 => ("floralwhite", 0xfffaf0)
    case 47 => ("forestgreen", 0x228b22)
  }

  function Entries48(k: nat): (e: (string, int))
    requires 48 <= k < 56
    ensures IsColorName(e.0) && 0 <= e.1 < 0x100_0000
  {
    match k
    case 48 => ("fuchsia", 0xff00ff)
    case 49 => ("gainsboro", 0xdcdcdc)
    case 50 => ("ghostwhite", 0xf8f8ff)
    case 51 => ("gold", 0xffd700)
    case 52 => ("goldenrod", 0xdaa520)
    case 53 => ("gray", 0x808080)
    case 54 => ("green", 0x008000)
    case 55 => ("greenyellow", 0xadff2f)
  }

  function Entries56(k: nat): (e: (string, int))
    requires 56 <= k < 64
    ensures IsColorName(e.0) && 0 <= e.1 < 0x100_0000
  {
    match k
    case 56 => ("grey", 0x808080)
    case 57 => ("honeydew", 0xf0fff0)
    case 58 => ("hotpink", 0xff69b4)
    case 59 => ("indianred", 0xcd5c5c)
    case 60 => ("indigo", 0x4b0082)
    case 61 => ("ivory", 0xfffff0)
    case 62 => ("khaki", 0xf0e68c)
    case 63 => ("lavender", 0xe6e6fa)
  }

  function Entries64(k: nat): (e: (string, int))
    requires 64 <= k < 72
    ensures IsColorName(e.0) && 0 <= e.1 < 0x100_0000
  {
    match k
    case 64 => ("lavenderblush", 0xfff0f5)
    case 65 => ("lawngreen", 0x7cfc00)
    case 66 => ("lemonchiffon", 0xfffacd)
    case 67 => ("lightblue", 0xadd8e6)
    case 68 => ("lightcoral", 0xf08080)
    case 69 => ("lightcyan", 0xe0ffff)
    case 70 => ("lightgoldenrodyellow", 0xfafad2)
    case 71 => ("lightgray", 0xd3d3d3)
  }

  function Entries72(k: nat): (e: (string, int))
    requires 72 <= k < 80
    ensures IsColorName(e.0) && 0 <= e.1 < 0x100_0000
  {
    match k
    case 72 => ("lightgreen", 0x90ee90)
    case 73 => ("lightgrey", 0xd3d3d3)
    case 74 => ("lightpink", 0xffb6c1)
    case 75 => ("lightsalmon", 0xffa07a)
    case 76 => ("lightseagreen", 0x20b2aa)
    case 77 => ("lightskyblue", 0x87cefa)
    case 78 => ("lightslategray", 0x778899)
    case 79 => ("lightslategrey", 0x778899)
  }

  function Entries80(k: nat): (e: (string, int))
    requires 80 <= k < 88
    ensures IsColorName(e.0) && 0 <= e.1 < 0x100_0000
  {
    match k
    case 80 => ("lightsteelblue", 0xb0c4de)
    case 81 => ("lightyellow", 0xffffe0)
    case 82 => ("lime", 0x00ff00)
    case 83 => ("limegreen", 0x32cd32)
    case 84 => ("linen", 0xfaf0e6)
    case 85 => ("magenta", 0xff00ff)
    case 86 => ("maroon", 0x800000)
    case 87 => ("mediumaquamarine", 0x66cdaa)
  }

  function Entries88(k: nat): (e: (string, int))
    requires 88 <= k < 96
    ensures IsColorName(e.0) && 0 <= e.1 < 0x100_0000
  {
    match k
    case 88 => ("mediumblue", 0x0000cd)
    case 89 => ("mediumorchid", 0xba55d3)
    case 90 => ("mediumpurple", 0x9370db)
    case 91 => ("mediumseagreen", 0x3cb371)
    case 92 => ("mediumslateblue", 0x7b68ee)
    case 93 => ("mediumspringgreen", 0x00fa9a)
    case 94 => ("mediumturquoise", 0x48d1cc)
    case 95 => ("mediumvioletred", 0xc71585)
  }

  function Entries96(k: nat): (e: (string, int))
    requires 96 <= k < 104
    ensures IsColorName(e.0) && 0 <= e.1 < 0x100_0000
  {
    match k
    case 96 => ("midnightblue", 0x191970)
    case 97 => ("mintcream", 0xf5fffa)
    case 98 => ("mistyrose", 0xffe4e1)
    case 99 => ("moccasin", 0xffe4b5)
    case 100 => ("navajowhite", 0xffdead)
    case 101 => ("navy", 0x000080)
    case 102 => ("oldlace", 0xfdf5e6)
    case 103 => ("olive", 0x808000)
  }

  function Entries104(k: nat): (e: (string, int))
    requires 104 <= k < 112
    ensures IsColorName(e.0) && 0 <= e.1 < 0x100_0000
  {
    match k
    case 104 => ("olivedrab", 0x6b8e23)
    case 105 => ("orange", 0xffa500)
    case 106 => ("orangered", 0xff4500)
    case 107 => ("orchid", 0xda70d6)
    case 108 => ("palegoldenrod", 0xeee8aa)
    case 109 => ("palegreen", 0x98fb98)
    case 110 => ("paleturquoise", 0xafeeee)
    case 111 => ("palevioletred", 0xdb7093)
  }

  function Entries112(k: nat): (e: (string, int))
    requires 112 <= k < 120
    ensures IsColorName(e.0) && 0 <= e.1 < 0x100_0000
  {
    match k
    case 112 => ("papayawhip", 0xffefd5)
    case 113 => ("peachpuff", 0xffdab9)
    case 114 => ("peru", 0xcd853f)
    case 115 => ("pink", 0xffc0cb)
    case 116 => ("plum", 0xdda0dd)
    case 117 => ("powderblue", 0xb0e0e6)
    case 118 => ("purple", 0x800080)
    case 119 => ("rebeccapurple", 0x663399)
  }

  function Entries120(k: nat): (e: (string, int))
    requires 120 <= k < 128
    ensures IsColorName(e.0) && 0 <= e.1 < 0x100_0000
  {
    match k
    case 120 => ("red", 0xff0000)
    case 121 => ("rosybrown", 0xbc8f8f)
    case 122 => ("royalblue", 0x4169e1)
    case 123 => ("saddlebrown", 0x8b4513)
    case 124 => ("salmon", 0xfa8072)
    case 125 => ("sandybrown", 0xf4a460)
    case 126 => ("seagreen", 0x2e8b57)
    case 127 => ("seashell", 0xfff5ee)
  }

  function Entries128(k: nat): (e: (string, int))
    requires 128 <= k < 136
    ensures IsColorName(e.0) && 0 <= e.1 < 0x100_0000
  {
    match k
    case 128 => ("sienna", 0xa0522d)
    case 129 => ("silver", 0xc0c0c0)
    case 130 => ("skyblue", 0x87ceeb)
    case 131 => ("slateblue", 0x6a5acd)
    case 132 => ("slategray", 0x708090)
    case 133 => ("slategrey", 0x708090)
    case 134 => ("snow", 0xfffafa)
    case 135 => ("springgreen", 0x00ff7f)
  }

  function Entries136(k: nat): (e: (string, int))
    requires 136 <= k < 144
    ensures IsColorName(e.0) && 0 <= e.1 < 0x100_0000
  {
    match k
    case 136 => ("steelblue", 0x4682b4)
    case 137 => ("tan", 0xd2b48c)
    case 138 => ("teal", 0x008080)
    case 139 => ("thistle", 0xd8bfd8)
    case 140 => ("tomato", 0xff6347)
    case 141 => ("turquoise", 0x40e0d0)
    case 142 => ("violet", 0xee82ee)
    case 143 => ("wheat", 0xf5deb3)
  }

  function Entries144(k: nat): (e: (string, int))
    requires 144 <= k < 148
    ensures IsColorName(e.0) && 0 <= e.1 < 0x100_0000
  {
    match k
    case 144 => ("white", 0xffffff)
    case 145 => ("whitesmoke", 0xf5f5f5)
    case 146 => ("yellow", 0xffff00)
    case 147 => ("yellowgreen", 0x9acd32)
  }

  /** `CSS_COLORS[key]`: the value of the entry whose name is `key`, if there is one. */
  function Lookup(key: string): (r: Option<string>)
    ensures r.Some? <==> exists i :: 0 <= i < |Table()| && Table()[i].0 == key
    ensures r.Some? ==> exists i :: 0 <= i < |Table()| && Table()[i] == (key, r.value)
  {
    LookupIn(Table(), key)
  }

  function LookupIn(t: seq<(string, string)>, key: string): (r: Option<string>)
    ensures r.Some? <==> exists i :: 0 <= i < |t| && t[i].0 == key
    ensures r.Some? ==> exists i :: 0 <= i < |t| && t[i] == (key, r.value)
  {
    if t == [] then None
    else if t[0].0 == key then Some(t[0].1)
    else
      var r := LookupIn(t[1..], key);
      assert forall i :: 0 <= i < |t| - 1 ==> t[1..][i] == t[i + 1];
      r
  }

  predicate KeysAreNames(t: seq<(string, string)>)
  {
    forall i :: 0 <= i < |t| ==> IsColorName(t[i].0)
  }

  predicate ValuesAreHexCodes(t: seq<(string, string)>)
  {
    forall i :: 0 <= i < |t| ==> IsHexCode(t[i].1)
  }

  /** Every key is a lower-case name and every value `#` and six lower-case hex digits. */
  lemma TableWellFormed()
    ensures KeysAreNames(Table()) && ValuesAreHexCodes(Table())
  {
  }

  /** Whatever key is found, its value is `#` and six lower-case hex digits. */
  lemma LookupIsHexCode(key: string)
    ensures Lookup(key).Some? ==> IsHexCode(Lookup(key).value)
  {
    TableWellFormed();
  }

  /** `tomato` is a key, listed with `#ff6347`. */
  lemma TomatoListed()
    ensures Table()[140] == ("tomato", "#ff6347")
    ensures Lookup("tomato").Some?
  {
    assert Entry(140) == ("tomato", 0xff6347);
    assert Spell(0xff6347) == "#ff6347";
    assert Table()[140] == Row(140);
  }

  /** `constructor`, the property every object inherits that reads as a lower-case name, is not a key. */
  lemma ConstructorNotListed()
    ensures Lookup("constructor").None?
  {
    forall i | 0 <= i < |Table()|
      ensures Table()[i].0 != "constructor"
    {
      assert Table()[i] == Row(i);
      NotConstructor(i);
    }
  }

  /** No entry is named `constructor`. */
  lemma NotConstructor(k: nat)
    requires k < 148
    ensures Entry(k).0 != "constructor"
  {
  }

  // ---------------------------------------------------------------------
  // Order of the names

  /**
   * `a` comes strictly before `b` in dictionary order: after a common
   * prefix of length `k`, either `a` ends or its next character is smaller.
   */
  predicate Below(a: string, b: string)
  {
    exists k :: 0 <= k <= |a| && k < |b| && a[..k] == b[..k] && (k == |a| || a[k] < b[k])
  }

  lemma BelowAt(a: string, b: string, k: nat)
    requires k <= |a| && k < |b| && a[..k] == b[..k] && (k == |a| || a[k] < b[k])
    ensures Below(a, b)
  {
  }

  /** Each name comes before the next one. */
  lemma NextIsAfter(k: nat)
    requires k < 147
    ensures Below(Entry(k).0, Entry(k + 1).0)
  {
    if k < 8 {
      OrderedFrom0(k);
    } else if k < 16 {
      OrderedFrom8(k);
    } else if k < 24 {
      OrderedFrom16(k);
    } else if k < 32 {
      OrderedFrom24(k);
    } else if k < 40 {
      OrderedFrom32(k);
    } else if k < 48 {
      OrderedFrom40(k);
    } else if k < 56 {
      OrderedFrom48(k);
    } else if k < 64 {
      OrderedFrom56(k);
    } else if k < 72 {
      OrderedFrom64(k);
    } else if k < 80 {
      OrderedFrom72(k);
    } else if k < 88 {
      OrderedFrom80(k);
    } else if k < 92 {
      OrderedFrom88(k);
    } else if k < 96 {
      OrderedFrom92(k);
    } else if k < 104 {
      OrderedFrom96(k);
    } else if k < 112 {
      OrderedFrom104(k);
    } else if k < 120 {
      OrderedFrom112(k);
    } else if k < 128 {
      OrderedFrom120(k);
    } else if k < 136 {
      OrderedFrom128(k);
    } else if k < 144 {
      OrderedFrom136(k);
    } else {
      OrderedFrom144(k);
    }
  }

  lemma OrderedFrom0(k: nat)
    requires 0 <= k < 8
    ensures Below(Entry(k).0, Entry(k + 1).0)
  {
    match k
    case 0 => BelowAt("aliceblue", "antiquewhite", 1);
    case 1 => BelowAt("antiquewhite", "aqua", 1);
    case 2 => BelowAt("aqua", "aquamarine", 4);
    case 3 => BelowAt("aquamarine", "azure", 1);
    case 4 => BelowAt("azure", "beige", 0);
    case 5 => BelowAt("beige", "bisque", 1);
    case 6 => BelowAt("bisque", "black", 1);
    case 7 => BelowAt("black", "blanchedalmond", 3);
  }

  lemma OrderedFrom8(k: nat)
    requires 8 <= k < 16
    ensures Below(Entry(k).0, Entry(k + 1).0)
  {
    match k
    case 8 => BelowAt("blanchedalmond", "blue", 2);
    case 9 => BelowAt("blue", "blueviolet", 4);
    case 10 => BelowAt("blueviolet", "brown", 1);
    case 11 => BelowAt("brown", "burlywood", 1);
    case 12 => BelowAt("burlywood", "cadetblue", 0);
    case 13 => BelowAt("cadetblue", "chartreuse", 1);
    case 14 => BelowAt("chartreuse", "chocolate", 2);
    case 15 => BelowAt("chocolate", "coral", 1);
  }

  lemma OrderedFrom16(k: nat)
    requires 16 <= k < 24
    ensures Below(Entry(k).0, Entry(k + 1).0)
  {
    match k
    case 16 => BelowAt("coral", "cornflowerblue", 3);
    case 17 => BelowAt("cornflowerblue", "cornsilk", 4);
    case 18 => BelowAt("cornsilk", "crimson", 1);
    case 19 => BelowAt("crimson", "cyan", 1);
    case 20 => BelowAt("cyan", "darkblue", 0);
    case 21 => BelowAt("darkblue", "darkcyan", 4);
    case 22 => BelowAt("darkcyan", "darkgoldenrod", 4);
    case 23 => BelowAt("darkgoldenrod", "darkgray", 5);
  }

  lemma OrderedFrom24(k: nat)
    requires 24 <= k < 32
    ensures Below(Entry(k).0, Entry(k + 1).0)
  {
    match k
    case 24 => BelowAt("darkgray", "darkgreen", 6);
    case 25 => BelowAt("darkgreen", "darkgrey", 7);
    case 26 => BelowAt("darkgrey", "darkkhaki", 4);
    case 27 => BelowAt("darkkhaki", "darkmagenta", 4);
    case 28 => BelowAt("darkmagenta", "darkolivegreen", 4);
    case 29 => BelowAt("darkolivegreen", "darkorange", 5);
    case 30 => BelowAt("darkorange", "darkorchid", 6);
    case 31 => BelowAt("darkorchid", "darkred", 4);
  }

  lemma OrderedFrom32(k: nat)
    requires 32 <= k < 40
    ensures Below(Entry(k).0, Entry(k + 1).0)
  {
    match k
    case 32 => BelowAt("darkred", "darksalmon", 4);
    case 33 => BelowAt("darksalmon", "darkseagreen", 5);
    case 34 => BelowAt("darkseagreen", "darkslateblue", 5);
    case 35 => BelowAt("darkslateblue", "darkslategray", 9);
    case 36 => BelowAt("darkslategray", "darkslategrey", 11);
    case 37 => BelowAt("darkslategrey", "darkturquoise", 4);
    case 38 => BelowAt("darkturquoise", "darkviolet", 4);
    case 39 => BelowAt("darkviolet", "deeppink", 1);
  }

  lemma OrderedFrom40(k: nat)
    requires 40 <= k < 48
    ensures Below(Entry(k).0, Entry(k + 1).0)
  {
    match k
    case 40 => BelowAt("deeppink", "deepskyblue", 4);
    case 41 => BelowAt("deepskyblue", "dimgray", 1);
    case 42 => BelowAt("dimgray", "dimgrey", 5);
    case 43 => BelowAt("dimgrey", "dodgerblue", 1);
    case 44 => BelowAt("dodgerblue", "firebrick", 0);
    case 45 => BelowAt("firebrick", "floralwhite", 1);
    case 46 => BelowAt("floralwhite", "forestgreen", 1);
    case 47 => BelowAt("forestgreen", "fuchsia", 1);
  }

  lemma OrderedFrom48(k: nat)
    requires 48 <= k < 56
    ensures Below(Entry(k).0, Entry(k + 1).0)
  {
    match k
    case 48 => BelowAt("fuchsia", "gainsboro", 0);
    case 49 => BelowAt("gainsboro", "ghostwhite", 1);
    case 50 => BelowAt("ghostwhite", "gold", 1);
    case 51 => BelowAt("gold", "goldenrod", 4);
    case 52 => BelowAt("goldenrod", "gray", 1);
    case 53 => BelowAt("gray", "green", 2);
    case 54 => BelowAt("green", "greenyellow", 5);
    case 55 => BelowAt("greenyellow", "grey", 3);
  }

  lemma OrderedFrom56(k: nat)
    requires 56 <= k < 64
    ensures Below(Entry(k).0, Entry(k + 1).0)
  {
    match k
    case 56 => BelowAt("grey", "honeydew", 0);
    case 57 => BelowAt("honeydew", "hotpink", 2);
    case 58 => BelowAt("hotpink", "indianred", 0);
    case 59 => BelowAt("indianred", "indigo", 4);
    case 60 => BelowAt("indigo", "ivory", 1);
    case 61 => BelowAt("ivory", "khaki", 0);
    case 62 => BelowAt("khaki", "lavender", 0);
    case 63 => BelowAt("lavender", "lavenderblush", 8);
  }

  lemma OrderedFrom64(k: nat)
    requires 64 <= k < 72
    ensures Below(Entry(k).0, Entry(k + 1).0)
  {
    match k
    case 64 => BelowAt("lavenderblush", "lawngreen", 2);
    case 65 => BelowAt("lawngreen", "lemonchiffon", 1);
    case 66 => BelowAt("lemonchiffon", "lightblue", 1);
    case 67 => BelowAt("lightblue", "lightcoral", 5);
    case 68 => BelowAt("lightcoral", "lightcyan", 6);
    case 69 => BelowAt("lightcyan", "lightgoldenrodyellow", 5);
    case 70 => BelowAt("lightgoldenrodyellow", "lightgray", 6);
    case 71 => BelowAt("lightgray", "lightgreen", 7);
  }

  lemma OrderedFrom72(k: nat)
    requires 72 <= k < 80
    ensures Below(Entry(k).0, Entry(k + 1).0)
  {
    match k
    case 72 => BelowAt("lightgreen", "lightgrey", 8);
    case 73 => BelowAt("lightgrey", "lightpink", 5);
    case 74 => BelowAt("lightpink", "lightsalmon", 5);
    case 75 => BelowAt("lightsalmon", "lightseagreen", 6);
    case 76 => BelowAt("lightseagreen", "lightskyblue", 6);
    case 77 => BelowAt("lightskyblue", "lightslategray", 6);
    case 78 => BelowAt("lightslategray", "lightslategrey", 12);
    case 79 => BelowAt("lightslategrey", "lightsteelblue", 6);
  }

  lemma OrderedFrom80(k: nat)
    requires 80 <= k < 88
    ensures Below(Entry(k).0, Entry(k + 1).0)
  {
    match k
    case 80 => BelowAt("lightsteelblue", "lightyellow", 5);
    case 81 => BelowAt("lightyellow", "lime", 2);
    case 82 => BelowAt("lime", "limegreen", 4);
    case 83 => BelowAt("limegreen", "linen", 2);
    case 84 => BelowAt("linen", "magenta", 0);
    case 85 => BelowAt("magenta", "maroon", 2);
    case 86 => BelowAt("maroon", "mediumaquamarine", 1);
    case 87 => BelowAt("mediumaquamarine", "mediumblue", 6);
  }

  lemma OrderedFrom88(k: nat)
    requires 88 <= k < 92
    ensures Below(Entry(k).0, Entry(k + 1).0)
  {
    match k
    case 88 => BelowAt("mediumblue", "mediumorchid", 6);
    case 89 => BelowAt("mediumorchid", "mediumpurple", 6);
    case 90 => BelowAt("mediumpurple", "mediumseagreen", 6);
    case 91 => BelowAt("mediumseagreen", "mediumslateblue", 7);
  }

  lemma OrderedFrom92(k: nat)
    requires 92 <= k < 96
    ensures Below(Entry(k).0, Entry(k + 1).0)
  {
    match k
    case 92 => BelowAt("mediumslateblue", "mediumspringgreen", 7);
    case 93 => BelowAt("mediumspringgreen", "mediumturquoise", 6);
    case 94 => BelowAt("mediumturquoise", "mediumvioletred", 6);
    case 95 => BelowAt("mediumvioletred", "midnightblue", 1);
  }

  lemma OrderedFrom96(k: nat)
    requires 96 <= k < 104
    ensures Below(Entry(k).0, Entry(k + 1).0)
  {
    match k
    case 96 => BelowAt("midnightblue", "mintcream", 2);
    case 97 => BelowAt("mintcream", "mistyrose", 2);
    case 98 => BelowAt("mistyrose", "moccasin", 1);
    case 99 => BelowAt("moccasin", "navajowhite", 0);
    case 100 => BelowAt("navajowhite", "navy", 3);
    case 101 => BelowAt("navy", "oldlace", 0);
    case 102 => BelowAt("oldlace", "olive", 2);
    case 103 => BelowAt("olive", "olivedrab", 5);
  }

  lemma OrderedFrom104(k: nat)
    requires 104 <= k < 112
    ensures Below(Entry(k).0, Entry(k + 1).0)
  {
    match k
    case 104 => BelowAt("olivedrab", "orange", 1);
    case 105 => BelowAt("orange", "orangered", 6);
    case 106 => BelowAt("orangered", "orchid", 2);
    case 107 => BelowAt("orchid", "palegoldenrod", 0);
    case 108 => BelowAt("palegoldenrod", "palegreen", 5);
    case 109 => BelowAt("palegreen", "paleturquoise", 4);
    case 110 => BelowAt("paleturquoise", "palevioletred", 4);
    case 111 => BelowAt("palevioletred", "papayawhip", 2);
  }

  lemma OrderedFrom112(k: nat)
    requires 112 <= k < 120
    ensures Below(Entry(k).0, Entry(k + 1).0)
  {
    match k
    case 112 => BelowAt("papayawhip", "peachpuff", 1);
    case 113 => BelowAt("peachpuff", "peru", 2);
    case 114 => BelowAt("peru", "pink", 1);
    case 115 => BelowAt("pink", "plum", 1);
    case 116 => BelowAt("plum", "powderblue", 1);
    case 117 => BelowAt("powderblue", "purple", 1);
    case 118 => BelowAt("purple", "rebeccapurple", 0);
    case 119 => BelowAt("rebeccapurple", "red", 2);
  }

  lemma OrderedFrom120(k: nat)
    requires 120 <= k < 128
    ensures Below(Entry(k).0, Entry(k + 1).0)
  {
    match k
    case 120 => BelowAt("red", "rosybrown", 1);
    case 121 => BelowAt("rosybrown", "royalblue", 2);
    case 122 => BelowAt("royalblue", "saddlebrown", 0);
    case 123 => BelowAt("saddlebrown", "salmon", 2);
    case 124 => BelowAt("salmon", "sandybrown", 2);
    case 125 => BelowAt("sandybrown", "seagreen", 1);
    case 126 => BelowAt("seagreen", "seashell", 3);
    case 127 => BelowAt("seashell", "sienna", 1);
  }

  lemma OrderedFrom128(k: nat)
    requires 128 <= k < 136
    ensures Below(Entry(k).0, Entry(k + 1).0)
  {
    match k
    case 128 => BelowAt("sienna", "silver", 2);
    case 129 => BelowAt("silver", "skyblue", 1);
    case 130 => BelowAt("skyblue", "slateblue", 1);
    case 131 => BelowAt("slateblue", "slategray", 5);
    case 132 => BelowAt("slategray", "slategrey", 7);
    case 133 => BelowAt("slategrey", "snow", 1);
    case 134 => BelowAt("snow", "springgreen", 1);
    case 135 => BelowAt("springgreen", "steelblue", 1);
  }

  lemma OrderedFrom136(k: nat)
    requires 136 <= k < 144
    ensures Below(Entry(k).0, Entry(k + 1).0)
  {
    match k
    case 136 => BelowAt("steelblue", "tan", 0);
    case 137 => BelowAt("tan", "teal", 1);
    case 138 => BelowAt("teal", "thistle", 1);
    case 139 => BelowAt("thistle", "tomato", 1);
    case 140 => BelowAt("tomato", "turquoise", 1);
    case 141 => BelowAt("turquoise", "violet", 0);
    case 142 => BelowAt("violet", "wheat", 0);
    case 143 => BelowAt("wheat", "white", 2);
  }

  lemma OrderedFrom144(k: nat)
    requires 144 <= k < 147
    ensures Below(Entry(k).0, Entry(k + 1).0)
  {
    match k
    case 144 => BelowAt("white", "whitesmoke", 5);
    case 145 => BelowAt("whitesmoke", "yellow", 0);
    case 146 => BelowAt("yellow", "yellowgreen", 6);
  }

  /** Dictionary order is transitive. */
  lemma BelowTransitive(a: string, b: string, c: string)
    requires Below(a, b) && Below(b, c)
    ensures Below(a, c)
  {
    var i :| 0 <= i <= |a| && i < |b| && a[..i] == b[..i] && (i == |a| || a[i] < b[i]);
    var j :| 0 <= j <= |b| && j < |c| && b[..j] == c[..j] && (j == |b| || b[j] < c[j]);
    if i <= j {
      assert b[..i] == b[..j][..i] == c[..j][..i] == c[..i];
      if i < |a| && i < j {
        assert b[i] == b[..j][i] == c[..j][i] == c[i];
      }
      BelowAt(a, c, i);
    } else {
      assert a[..j] == a[..i][..j] == b[..i][..j] == b[..j];
      assert a[j] == a[..i][j] == b[..i][j] == b[j];
      BelowAt(a, c, j);
    }
  }

  /** No name comes before itself. */
  lemma NotBelowItself(a: string)
    ensures !Below(a, a)
  {
  }

  /** Every name comes before every later one. */
  lemma {:induction false} EntriesSorted(i: nat, j: nat)
    requires i < j < 148
    ensures Below(Entry(i).0, Entry(j).0)
    decreases j - i
  {
    NextIsAfter(i);
    if i + 1 < j {
      EntriesSorted(i + 1, j);
      BelowTransitive(Entry(i).0, Entry(i + 1).0, Entry(j).0);
    }
  }

  /**
   * The names are listed in strictly increasing dictionary order, so the
   * object literal has no repeated key that a later entry would override.
   */
  lemma TableSorted()
    ensures forall i, j :: 0 <= i < j < |Table()| ==> Below(Table()[i].0, Table()[j].0)
    ensures forall i, j :: 0 <= i < j < |Table()| ==> Table()[i].0 != Table()[j].0
  {
    forall i, j | 0 <= i < j < |Table()|
      ensures Below(Table()[i].0, Table()[j].0) && Table()[i].0 != Table()[j].0
    {
      assert Table()[i] == Row(i) && Table()[j] == Row(j);
      EntriesSorted(i, j);
      NotBelowItself(Table()[i].0);
    }
  }

  /** Looking up an entry's name returns that entry's value. */
  lemma LookupEntry(i: nat)
    requires i < |Table()|
    ensures Lookup(Table()[i].0) == Some(Table()[i].1)
  {
    TableSorted();
  }
}
