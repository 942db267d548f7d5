# YivColor colour core in Dafny

YivColor is a VS Code extension that finds colour literals in a document
(`#ff6347`, `rgb(255, 99, 71)`, `hsl(9, 100%, 64%)`, `tomato`, …), draws a
preview next to each one, shows a hover tooltip listing the colour in the
other notations, and keeps a per-workspace history of the hex colours it has
seen. This project models the parts of it that compute. It covers nine areas:

- **`ColorModel`**: the `ColorUtils` conversions of `src/color/color-parser.js`,
  repeated in `extension.js`. They are `hexToRgb`, `rgbToHex`, `rgbToHsl`,
  `hslToRgb`, `rgbToHsv`, `hsvToRgb`, `rgbToCmyk` and `cmykToRgb`, computed on
  exact reals, with `Math.round` rounding halves up. Two of JavaScript's special
  number results are kept: `NaN` from `parseInt` on non-hex text, and the
  infinite HSL saturation of out-of-range input.
- **`CssColors`**: the 148-entry `CSS_COLORS` table of `extension.js`, and
  looking a name up in it.
- **`ColorGrammar`**: the `COLOR_REGEX` patterns (HEX, RGB, RGBA, HSL, HSV,
  HSB, CMYK, LAB, LCH, YUV, YCBCR and NAMED). Each is a deterministic matcher
  at one offset (`MatchAt`), together with the leftmost search that `exec` and
  `match` perform (`FindFrom`).
- **`Notation`**: the same functional patterns described without the matcher,
  as the texts they stand for: the name and `(`, each field written as a
  lexeme its sub-pattern accepts with white space around it and commas
  between, then `)`. The matcher accepts exactly these texts.
- **`ColorParser`**: `parseColor`. It tries the named table first, then `#`,
  then `rgb(`, `rgba(`, `hsl(`, `hsv(`, `hsb(` and `cmyk(` in that order, and
  returns `null` (`None`) when nothing applies.
- **`Tooltip`**: `parseColorForTooltip`. It writes a header line, then one line
  for each other notation, or at most one `Format:` line for a literal that
  does not parse.
- **`Scanner`**: the format loop of `updateDecorations`. For each enabled
  pattern, and always for NAMED, it runs `exec` from offset 0 until the pattern
  fails, and pushes one colour position per match.
- **`FileTypes`**: `isFileTypeSupported`. It handles untitled documents, takes
  the extension of the last path segment, and checks it against the configured
  allowlist.
- **`ColorHistory`**: the `ColorHistoryManager` class, with its items, limit
  and memento. `addColors` normalises each distinct string, accepts only
  `#rgb`/`#rrggbb`, moves a colour already listed to the front with its count
  raised, and adds a new colour at the front, trimming to the limit.

The modules `Text` (the JavaScript string built-ins the code calls) and
`Wrappers` (`Option`) support the others.

The regular expressions are not run by a backtracking engine here. Each
pattern is a fixed list of fields, matched greedily from left to right. This
gives the same match as the engine because every repeated or optional piece
is followed by a token that cannot begin with what the piece would give back:
- `\s*` is always followed by a digit, `.`, `,`, `-` or `)`;
- `\d{1,3}` is always followed by `\s`, `,`, `%` or `)`;
- `-?` is always followed by a digit;
- in `(0?\.\d+|1|0)` the alternatives are tried in order.

HEX tries six digits before three, each with its `\b`, and NAMED tries the
names in table order. That the greedy matcher agrees with a backtracking
engine is this argument, not a Dafny proof. What the matcher itself accepts
is proved: `Notation.NotationIff` says a functional pattern matches at an
offset exactly when the text there is the notation written out (its name and
`(`, one lexeme per field with white space around it and commas between,
then `)`), `Notation.FieldsIff` says the same of a field list, and
`HexMatchIff` and `AlphaThenCloseIff` characterise HEX and the alpha field.

Where the code and its documentation disagree, the model follows the code:
- hue can come out as 360 (`HslHue360`), not only 0–359;
- the collected positions are grouped by format in table order, not sorted by
  offset (`Scanner.NamedLast`, `Scanner.CollectStep`);
- the scan has no debounce, no document-version check, no truncation of long
  documents and no single combined pattern;
- a HEX match previews its own text, e.g. `#abc` as is;
- the RGBA tooltip line never appears (`Tooltip.LinesByType`);
- in `isFileTypeSupported`, the `=== lastSegment` test and the `.d.ts`,
  `.min.js`, `.spec.ts` and `.test.ts` special cases change nothing
  (`FileTypes.ExtensionIsShorter`, `FileTypes.SpecialSuffixesRedundant`).

## Model

| member | source | states |
|---|---|---|
| ColorModel.HexToRgb | src/color/color-parser.js:4-11 | each channel read from two characters of the code is `NaN` or a value in -15..255 |
| ColorModel.RgbToHsl | src/color/color-parser.js:18-34 | a gray (three equal channels) has hue 0 and saturation 0 |
| ColorModel.HslToRgb | src/color/color-parser.js:35-52 | zero saturation gives three equal channels |
| ColorModel.RgbToHsv | src/color/color-parser.js:53-66 | a gray has hue 0 and saturation 0 |
| ColorModel.HsvToRgb | src/color/color-parser.js:67-79 | zero saturation gives three equal channels |
| ColorModel.RgbToCmyk | src/color/color-parser.js:80-85 | black gives cmyk(0, 0, 0, 100) |
| ColorModel.CmykToRgb | src/color/color-parser.js:86-92 | k = 100 gives black, whatever c, m and y are |
| ColorModel.RgbToHex | src/color/color-parser.js:12-17 | the result is `#` followed by six lower-case hex digits, for every input |
| ColorModel.HexByteParses | src/color/color-parser.js:14-15 | the two digits written for a channel in 0..255 parse back with `parseInt(…, 16)` to that channel |
| ColorModel.HexRoundTrip | src/color/color-parser.js:4-17 | `hexToRgb(rgbToHex(r, g, b))` gives back `r`, `g` and `b` for channels in 0..255 |
| ColorModel.RgbToHexClamps | src/color/color-parser.js:14 | channels are clamped to 0..255 first: out-of-range input is written as `ff` or `00`, e.g. (999, -5, 0) gives `#ff0000` |
| ColorModel.ShortHexExpands | src/color/color-parser.js:4-11 | a three-digit code parses like the six-digit code with each digit doubled |
| ColorModel.ShortHexExample | src/color/color-parser.js:4-11 | `#abc` and `#aabbcc` both give channels (170, 187, 204) |
| ColorModel.AaBbCc | src/color/color-parser.js:4-17 | doubling `abc` gives `aabbcc`, and (170, 187, 204) is written `#aabbcc` |
| ColorModel.RgbToHslAchromatic | src/color/color-parser.js:18-34 | a gray has hue 0 and saturation 0, and its lightness is the rounded percentage of the channel |
| ColorModel.RgbToHslRange | src/color/color-parser.js:18-34 | for channels in 0..255, hue is in 0..360 and saturation and lightness are finite and in 0..100 |
| ColorModel.HslHue360 | src/color/color-parser.js:26-33 | rgb(255, 0, 1) gets hue 360: rounding can reach the top of the range |
| ColorModel.HslInfiniteSaturation | src/color/color-parser.js:25 | rgb(510, 0, 0) divides by zero and gets saturation +Infinity |
| ColorModel.HslToRgbGray | src/color/color-parser.js:44 | zero saturation gives a gray whose three channels are the lightness scaled to 0..255, whatever the hue |
| ColorModel.HslToRgbRange | src/color/color-parser.js:35-52 | any hue from 0 up and saturation and lightness in 0..100 give channels in 0..255 |
| ColorModel.RgbToHsvFacts | src/color/color-parser.js:53-66 | value is the rounded percentage of the largest channel, black has saturation 0, and a gray has hue 0 |
| ColorModel.RgbToHsvRange | src/color/color-parser.js:53-66 | for channels in 0..255, hue is in 0..360 and saturation and value are in 0..100 |
| ColorModel.HsvToRgbGray | src/color/color-parser.js:67-79 | zero saturation gives a gray of the value scaled to 0..255, whatever the hue |
| ColorModel.HsvToRgbPeriodic | src/color/color-parser.js:68-70 | adding 360 to the hue changes nothing, because the sector is taken modulo 6 |
| ColorModel.HsvToRgbRange | src/color/color-parser.js:67-79 | saturation and value in 0..100 give channels in 0..255, for every hue |
| ColorModel.CmykBlack | src/color/color-parser.js:80-92 | black converts to cmyk(0, 0, 0, 100), and any colour with k = 100 converts back to black |
| ColorModel.RgbToCmykRange | src/color/color-parser.js:80-85 | for channels in 0..255 all four components are in 0..100 |
| ColorModel.CmykToRgbRange | src/color/color-parser.js:86-92 | components in 0..100 give channels in 0..255 |
| CssColors.Table | extension.js:30-178 | the table has 148 entries; every name is lower-case letters and every value `#` with six lower-case hex digits |
| CssColors.TableSorted | extension.js:30-178 | the names are in strictly increasing alphabetical order, so no name is listed twice |
| CssColors.LookupEntry | extension.js:30-178 | looking up any entry's name gives that entry's value |
| CssColors.ConstructorNotListed | extension.js:30-178 | `constructor` is not a table key |
| CssColors.Lookup | extension.js:30-178 | a key is found exactly when some table entry has it as its name, and the value returned is that entry's hex code |
| CssColors.TableWellFormed | extension.js:30-178 | every name in the table is lower-case letters, and every value is `#` with six lower-case hex digits |
| CssColors.LookupIsHexCode | extension.js:30-178 | whatever a lookup returns is a six-digit lower-case hex code |
| CssColors.TomatoListed | extension.js:171 | entry 140 is (`tomato`, `#ff6347`), and `tomato` is found |
| ColorGrammar.SkipSpaces | src/color/color-regex.js:5 | `\s*` takes the longest run of whitespace: everything skipped is whitespace and the next character is not |
| ColorGrammar.MatchInt | src/color/color-regex.js:5-14 | a `-?\d{1,3}` field consumes one to three digits, after a `-` only where the field is signed, and captures their decimal value, negated after `-`; the value is in -999..999, and the match ends with `%` exactly when the field asks for one |
| ColorGrammar.MatchAlpha | src/color/color-regex.js:6 | the alpha field captures exactly the text it consumed, and no number |
| ColorGrammar.MatchField | src/color/color-regex.js:5-14 | a numeric field yields one capture in its range, the alpha field none but its text |
| ColorGrammar.FirstName | extension.js:182-183 | the NAMED alternation picks a table name present at the offset and followed by a word boundary, and finds none only when no name is so placed |
| ColorGrammar.MatchAt | src/color/color-regex.js:4-15 | a match at `i` starts at `i` and ends after it, inside the text |
| ColorGrammar.FindFrom | extension.js:1015 | the search finds a match at or after `from`, and finds none only when no offset from `from` on has one |
| ColorGrammar.FindFromLeftmost | extension.js:1015 | no offset before the match found has a match: the search returns the leftmost one |
| ColorGrammar.MatchFieldsCaptures | src/color/color-regex.js:5-14 | a field list captures one value per numeric field, in range, and an alpha text exactly when the list has an alpha field |
| ColorGrammar.FunctionalMatch | src/color/color-regex.js:5-14 | a functional match starts with its name and `(`, and captures four values for CMYK and three otherwise, non-negative for the unsigned notations, plus an alpha only for RGBA |
| ColorGrammar.FieldCounts | src/color/color-regex.js:5-14 | each notation's field list has the counts and signs its pattern writes |
| ColorGrammar.HexMatchIff | src/color/color-regex.js:4 | HEX matches at `i` exactly when `#` is followed by six hex digits and a boundary, or by three and a boundary, and takes six when it can |
| ColorGrammar.HexMatchEndsWord | src/color/color-regex.js:4 | a HEX match starts with `#`, is 4 or 7 characters long, and is not followed by a word character |
| ColorGrammar.FourHexDigitsRejected | src/color/color-regex.js:4 | `#abcd` has no HEX match |
| ColorGrammar.SevenHexDigitsRejected | src/color/color-regex.js:4 | `#abcdefg` has no HEX match |
| ColorGrammar.NoPrefixNoMatch | src/color/color-regex.js:5-14 | a text without the first letter of a notation's name has no match of it |
| ColorGrammar.UpperCaseRgbRejected | src/color/color-regex.js:5 | the functional patterns are case-sensitive: `RGB(1,2,3)` has no RGB match |
| ColorGrammar.NamedIgnoresCase | src/color/color-regex.js:15 | NAMED matches alike in two texts that are equal once lower-cased |
| ColorGrammar.AlphaThenCloseIff | src/color/color-regex.js:6 | the alpha field followed by `\s*\)` matches exactly when some prefix of the rest is an alpha token (`0?\.\d+`, `1` or `0`) followed by `\s*\)` |
| ColorGrammar.AlphaMatchIsToken | src/color/color-regex.js:6 | what the alpha field consumes is an alpha token |
| ColorGrammar.TokenIsAlphaMatch | src/color/color-regex.js:6 | an alpha token followed by `\s*\)` is exactly what the alpha field consumes |
| ColorGrammar.AlphaTokenExamples | src/color/color-regex.js:6 | `.5`, `0.25` and `1` are alpha tokens, and `1.0`, `0.` and `.` are not |
| ColorGrammar.NamedMatchIsKey | extension.js:182-183 | the text of a NAMED match, lower-cased, is a key of the table |
| ColorGrammar.FunctionalMatchCommas | src/color/color-regex.js:5-14 | a functional match contains at least one comma fewer than its notation has fields |
| ColorGrammar.TooFewCommas | src/color/color-regex.js:5-14 | a text with fewer commas than that after `i` has no match at `i` |
| ColorGrammar.NoPrefixAt | src/color/color-regex.js:5-14 | no functional match starts at an offset that does not hold the first letter of the name |
| ColorGrammar.TwoFieldRgbRejected | src/color/color-regex.js:5 | `rgb(1,2)` has no RGB match |
| ColorGrammar.MatchFieldsPercents | src/color/color-regex.js:7-14 | a field list's match contains exactly one `%` per field that asks for one |
| ColorGrammar.PercentFields | src/color/color-regex.js:7-14 | HSL, HSV and HSB ask for two `%`, CMYK for four, LAB, LCH and YUV for one, the others for none |
| ColorGrammar.PercentSigns | src/color/color-regex.js:5-14 | a functional match holds exactly that many `%` signs |
| ColorGrammar.TooFewPercents | src/color/color-regex.js:7-14 | a text with fewer `%` after `i` than its notation asks for has no match at `i` |
| ColorGrammar.HslWithoutPercentRejected | src/color/color-regex.js:7 | `hsl(120,50,25)` has no HSL match |
| ColorGrammar.CmykPercentMissing | src/color/color-regex.js:10 | `cmyk(0%,0%,0%,100)` has no CMYK match |
| Notation.NotationIff | src/color/color-regex.js:5-14 | a functional pattern matches at `i` exactly when the text from `i` is its name and `(`, one lexeme per field that the field's sub-pattern accepts, with only white space around each and `,` between them, then `)` |
| Notation.FieldsIff | src/color/color-regex.js:5-14 | a field list matches from `i` exactly when the text from `i` is those fields written out and closed by `)` |
| Notation.WrittenMatches | src/color/color-regex.js:5-14 | a notation written out matches where it is written, ends after its `)`, and captures the numbers written and the alpha text written |
| Notation.NotationWritten | src/color/color-regex.js:5-14 | every functional match is some writing-out of its notation |
| Notation.ValuesFollowFields | src/color/color-regex.js:5-14 | written numbers give one value per field, non-negative where the field has no `-?` |
| Notation.FieldSigns | src/color/color-regex.js:5-14 | a match of any functional notation but RGBA captures one value per field, non-negative where the field has no `-?` |
| Notation.FirstFieldNonNegative | src/color/color-regex.js:11-14 | LAB, YUV and YCbCr capture a non-negative first value, because their first field has no `-?` |
| Notation.RgbExample | src/color/color-regex.js:5 | `rgb(0, 255, 0)` matches in full and captures 0, 255 and 0, with no alpha |
| Notation.LabExample | src/color/color-regex.js:11 | `lab(50%, -20, -30)` matches in full and captures 50, -20 and -30 |
| Notation.RgbaExample | src/color/color-regex.js:6 | `rgba(1, 2, 3, .5)` matches in full and captures 1, 2 and 3 with the alpha text `.5` |
| Notation.TomatoExample | src/color/color-regex.js:5 | `rgb(255, 99, 71)` matches in full and captures 255, 99 and 71 |
| ColorParser.FromHexChannels | src/color/color-parser.js:94-103 | a named or hex record keeps the kind, name and hex it is given, has an `hsv` part, and has no `rgba` or `hsb` part |
| ColorParser.FromRgb | src/color/color-parser.js:104-111 | an rgb or rgba record keeps the kind, hex and alpha it is given, and has an `hsv` part and no `hsb` part |
| ColorParser.ParseColor | src/color/color-parser.js:93-129 | the result is named exactly when the lower-cased text is a table key, and hex exactly when it is not one and the text starts with `#` |
| ColorParser.TomatoParses | src/color/color-parser.js:104-111 | `rgb(255, 99, 71)` parses as an rgb record with channels 255, 99 and 71 |
| ColorParser.Capture | src/color/color-parser.js:104-127 | a branch captures only when the text starts with its prefix, and then exactly when the pattern matches somewhere in the text; the capture is the leftmost match, with the notation's number of values in range and an alpha exactly for RGBA |
| ColorParser.FirstCapture | src/color/color-parser.js:104-128 | the chosen notation captures the text, and none is chosen exactly when no notation captures it |
| ColorParser.FirstCaptureInOrder | src/color/color-parser.js:104-128 | every notation tried before the chosen one fails to capture |
| ColorParser.ParseFunctional | src/color/color-parser.js:104-128 | a functional result is well shaped and neither named nor hex |
| ColorParser.FunctionalChoice | src/color/color-parser.js:104-128 | a functional result exactly when one of the branches rgb, rgba, hsl, hsv, hsb, cmyk captures; it then has the type of the first branch in that order that captures, and every earlier branch captures nothing; the record is then built from that branch's capture, which holds four numbers for cmyk and three otherwise, and an alpha exactly for rgba |
| ColorParser.RgbRecord | src/color/color-parser.js:104-107 | an `rgb` record carries the three captured numbers as its channels unchanged, out-of-range ones included, and its hex is `rgbToHex` of them |
| ColorParser.RgbaRecord | src/color/color-parser.js:108-111 | an `rgba` record carries the captured numbers and alpha in `rgba`, the same numbers in `rgb`, and `rgbToHex` of them as hex |
| ColorParser.HslRecord | src/color/color-parser.js:112-115 | an `hsl` record carries the captured h, s, l unchanged; its rgb is `hslToRgb` of them and its hex is made from that rgb |
| ColorParser.HsvRecord | src/color/color-parser.js:116-119 | an `hsv` record carries the captured h, s, v unchanged; its rgb is `hsvToRgb` of them and its hex is made from that rgb |
| ColorParser.HsbRecord | src/color/color-parser.js:120-123 | an `hsb` record carries the captured h, s, b in `hsb` and has no `hsv`; its rgb is `hsvToRgb` of them and its hex is made from that rgb |
| ColorParser.CmykRecord | src/color/color-parser.js:124-127 | a `cmyk` record carries the four captured numbers unchanged; its rgb is `cmykToRgb` of them and its hex is made from that rgb |
| ColorParser.Winner | src/color/color-parser.js:104-128 | a functional record is `Build` of the capture of a branch in the parse order, and that capture has the branch's number of fields |
| ColorParser.OutOfRangeKept | src/color/color-parser.js:104-107 | `rgb(999, 0, 0)` parses as an rgb record whose channels are 999, 0 and 0, while its hex is clamped to `#ff0000` |
| Notation.OutOfRangeExample | src/color/color-regex.js:5 | `rgb(999, 0, 0)` matches in full and captures 999, 0 and 0 |
| ColorParser.Build | src/color/color-parser.js:104-127 | the record has the notation's type, `rgba` only for rgba, no `hsv` only for hsb, and a seven-character hex |
| ColorParser.FromRgbCaptures | src/color/color-parser.js:104-111 | `rgb` holds the three captured values, and `rgba` is present exactly when an alpha was captured |
| ColorParser.FromHslCaptures | src/color/color-parser.js:112-115 | `hsl` holds the three captured values |
| ColorParser.FromHsvCaptures | src/color/color-parser.js:116-123 | `hsv`, or for hsb `hsb` with `hsv` absent, holds the three captured values |
| ColorParser.FromCmykCaptures | src/color/color-parser.js:124-127 | `cmyk` holds the four captured values |
| ColorParser.HexCodeRoundTrip | src/color/color-parser.js:94-99 | a table hex code parses to three channels in 0..255 that `rgbToHex` writes back as the same code |
| ColorParser.NamedFirst | src/color/color-parser.js:94-99 | the result is named exactly when the lower-cased text is a table key; then it keeps the text as written, the table's hex, channels that spell that hex, and a finite in-range HSL |
| ColorParser.HexKeptVerbatim | src/color/color-parser.js:100-103 | a text starting with `#` that is not a name gives a hex record whose hex is the text itself and whose channels are `hexToRgb`'s |
| ColorParser.HexOutputParses | src/color/color-parser.js:100-103 | what `rgbToHex` writes parses as hex with the channels it was made from |
| ColorParser.NotAName | src/color/color-parser.js:94-95 | a text with a character that is not a letter is not a table key |
| ColorParser.RecordShape | src/color/color-parser.js:93-129 | every record returned has the fields its type promises, and a hex record's hex is the input |
| ColorParser.HsbLikeHsv | src/color/color-parser.js:116-123 | an hsb and an hsv literal with the same numbers give the same rgb, hex, hsl and cmyk; only the hsb record lacks `hsv` |
| ColorParser.SameHsvConversion | src/color/color-parser.js:116-123 | the hsb and hsv branches convert equal captures identically |
| ColorParser.FunctionalBranch | src/color/color-parser.js:104-128 | a record that is neither named nor hex comes from the functional branches |
| ColorParser.NullIff | src/color/color-parser.js:93-129 | the result is `null` exactly when the text is not a name, does not start with `#`, and no functional branch captures it |
| ColorParser.TwoFieldRgbIsNull | src/color/color-parser.js:104-128 | `rgb(1,2)` parses to `null` |
| ColorParser.TableProperty | extension.js:393-394 | the lookup as written hits an own table entry exactly when the table has the key, and otherwise hits an inherited property exactly when the key is `constructor` or `__proto__` |
| ColorParser.InheritedKeys | extension.js:393-394 | the lookup as written hits an inherited property exactly when the key is `constructor` or `__proto__` |
| ColorParser.PrototypeNamesUnlisted | extension.js:30-178 | neither `constructor` nor `__proto__` is a table key |
| ColorParser.ParseColorAsWritten | extension.js:391-398 | `parseColor` as written throws exactly when the lower-cased text is `constructor` or `__proto__`, the keys that hit an inherited property, and otherwise returns what `ParseColor` returns |
| ColorParser.ProtoKeyThrows | extension.js:393-398 | `__proto__` makes the code as written throw, while the own-key lookup returns `null` |
| FileTypes.LastSegment | extension.js:877-881 | the last segment is the part of the lower-cased name, `\` turned into `/`, after its last `/` (all of it when there is none): a suffix with no `/` or `\`, preceded by `/` when shorter |
| FileTypes.UntitledSettingMatters | extension.js:860-874 | an untitled document is supported exactly when untitled files are enabled; for any other document the setting makes no difference |
| FileTypes.SomeEqualIff | extension.js:904-906 | `some` finds an equal key exactly when one exists |
| FileTypes.ListedIff | extension.js:904-906 | an extension is listed exactly when some allowlist entry equals it after lower-casing and trimming |
| FileTypes.IsFileTypeSupported | extension.js:857-915 | an untitled document is supported exactly when untitled files are enabled, and a titled one is supported exactly when its last segment has a non-empty extension that some allowlist entry equals once normalised |
| FileTypes.ExtensionIsShorter | extension.js:884-901 | a non-empty extension is strictly shorter than the segment, so the `=== lastSegment` test never fires |
| FileTypes.SpecialSuffixesRedundant | extension.js:884-896 | the extension is always what follows the last dot, lower-cased and trimmed, so the special suffix cases give what the general rule gives |
| FileTypes.DottedDirectoryRefused | extension.js:880-901 | a titled name whose last segment has no dot is not supported, even if a directory name has one |
| FileTypes.MinifiedScriptSupported | extension.js:857-915 | `src\App.Min.JS` is supported by the allowlist `["js"]` |
| FileTypes.MinifiedScriptTitled | extension.js:866-870 | `src\App.Min.JS` is not treated as untitled |
| FileTypes.MinifiedScriptSegment | extension.js:877-881 | its last segment is `app.min.js` |
| FileTypes.MinifiedScriptExtension | extension.js:884-906 | `app.min.js` has the extension `js`, which `["js"]` lists |
| Tooltip.NumText | extension.js:936-953 | a finite number is written as its decimal digits, with `-` before a negative one |
| Tooltip.FirstPrefix | extension.js:955-978 | no fallback line is chosen exactly when the text starts with none of the prefixes |
| Tooltip.FirstPrefixIsFirst | extension.js:955-978 | the line chosen belongs to a prefix the text starts with, and no earlier prefix matches |
| Tooltip.ParseColorForTooltip | extension.js:919-981 | the method builds exactly `TooltipText` of the literal |
| Tooltip.AppendConversions | extension.js:925-954 | appending the conversion lines in order gives the header followed by every line shown for the record |
| Tooltip.AppendHex | extension.js:927-934 | appends the HEX line when it is shown: once for a named colour, never for a hex colour |
| Tooltip.AppendRgb | extension.js:936-938 | appends the RGB line unless the type is rgb or rgba |
| Tooltip.AppendRgba | extension.js:940-942 | appends the RGBA line when there is an `rgba` part and the type is not rgba |
| Tooltip.AppendHsl | extension.js:944-946 | appends the HSL line unless the type is hsl |
| Tooltip.AppendHsv | extension.js:948-950 | appends the HSV line when there is an `hsv` part and the type is neither hsv nor hsb |
| Tooltip.AppendCmyk | extension.js:952-954 | appends the CMYK line unless the type is cmyk |
| Tooltip.AppendFormat | extension.js:955-978 | the fallback adds exactly the `Format:` line of the first prefix that matches, or nothing |
| Tooltip.FallbackHead | extension.js:956-966 | the first five fallback prefixes are, in order, `rgba`, `rgb`, `hsl`, `hsv` and `hsb` |
| Tooltip.FallbackTail | extension.js:967-977 | the last five are `cmyk`, `lab`, `lch`, `yuv` and `ycbcr` |
| Tooltip.LinesByType | extension.js:925-954 | a parsed literal's tooltip shows every conversion line except its own notation's, and never the RGBA line |
| Tooltip.LinesByShape | extension.js:925-954 | the same holds for every well-shaped record |
| Tooltip.WithLinesExtends | extension.js:925-954 | appending lines never changes what is already written |
| Tooltip.TooltipText | extension.js:919-981 | every tooltip starts with `Color: ` and the literal |
| Tooltip.FormatLineIff | extension.js:955-978 | the fallback adds nothing exactly when the text starts with none of the ten prefixes |
| Tooltip.RgbaBeforeRgb | extension.js:957-960 | `rgba…` is labelled RGBA, and `rgb…` otherwise RGB: the longer prefix comes first |
| Tooltip.TwoFieldRgbTooltip | extension.js:919-981 | `rgb(1,2)` does not parse, so its tooltip is its header and `Format: RGB` |
| Scanner.Scan | extension.js:1013-1031 | the positions pushed for one pattern lie inside the text, in order and without overlap |
| Scanner.Collected | extension.js:1005-1032 | every collected position lies inside the text |
| Scanner.Occurrences | extension.js:1013-1031 | the successive matches all lie in the text after the start, each is the pattern's match at its own offset, and each ends before the next begins |
| Scanner.PositionOf | extension.js:1016-1029 | a position covers its match, records the matched text, and previews that text, or for NAMED the table's hex code of it lower-cased |
| Scanner.Positions | extension.js:1015-1031 | one position per match, in match order |
| Scanner.CollectColorPositions | extension.js:1005-1032 | the loop over the formats collects exactly the groups of the enabled formats and NAMED, in table order |
| Scanner.ExecAll | extension.js:1012-1031 | the `exec` loop appends exactly the pattern's scan to what was collected before |
| Scanner.ExecStep | extension.js:1015-1030 | one `exec` call adds the position of the leftmost match from `lastIndex` and continues from its end |
| Scanner.ScanSound | extension.js:1015-1030 | every position pushed is a real match of the pattern at its offset, with the colour the loop assigns |
| Scanner.ScanOrdered | extension.js:1013-1031 | the positions of one pattern are in order and do not overlap |
| Scanner.OccurrencesCover | extension.js:1015 | every offset where the pattern matches lies inside some reported match |
| Scanner.ScanComplete | extension.js:1015-1030 | no match is missed: each match offset is covered by a pushed position |
| Scanner.CollectedIff | extension.js:1008-1032 | a position is collected exactly when it is in the group of one of the formats |
| Scanner.CollectStep | extension.js:1008-1010 | each format's group is appended after those of the formats before it |
| Scanner.NamedLast | extension.js:1008-1010 | the NAMED positions come last, after the groups of the eleven other formats |
| Scanner.EnabledOnly | extension.js:1010 | a position only one format produces is collected exactly when that format is enabled or is NAMED |
| ColorHistory.Accept | src/history/color-history-manager.js:41-46 | a raw value is kept exactly when it is a non-empty string whose trimmed, lower-cased form is `#` and three or six lower-case hex digits, and then that form is what is kept |
| ColorHistory.IndexOf | src/history/color-history-manager.js:47 | `findIndex` gives the first item of that colour, or -1 exactly when none has it |
| ColorHistory.ColorHistoryManager.constructor | src/history/color-history-manager.js:8-14 | a new manager has no items, limit 100 and no memento |
| ColorHistory.ColorHistoryManager.Initialize | src/history/color-history-manager.js:16-23 | attaches the memento; the limit is the configured one unless it is missing or 0, in which case it is 100; a saved array replaces the items |
| ColorHistory.ColorHistoryManager.GetAll | src/history/color-history-manager.js:25-27 | returns the items |
| ColorHistory.ColorHistoryManager.Clear | src/history/color-history-manager.js:29-32 | empties the items and saves the empty list when a memento is attached |
| ColorHistory.ColorHistoryManager.Save | src/history/color-history-manager.js:70-74 | records the current items when a memento is attached, and nothing otherwise |
| ColorHistory.ColorHistoryManager.Track | src/history/color-history-manager.js:47-61 | one accepted colour updates the items by `Step` |
| ColorHistory.ColorHistoryManager.AddEach | src/history/color-history-manager.js:38-63 | the `for…of` loop leaves the items at `AddAll` of the old items over the elements, and `changed` is set exactly when some element was accepted |
| ColorHistory.ColorHistoryManager.AddColors | src/history/color-history-manager.js:34-68 | a missing argument changes nothing; otherwise each distinct element in turn updates the items, and they are saved once when an element was accepted |
| ColorHistory.Step | src/history/color-history-manager.js:47-61 | a listed colour keeps the length; a new one adds one item, down to the limit; with a limit of at least one the colour comes first, stamped `now` |
| ColorHistory.StepFront | src/history/color-history-manager.js:48-56 | the colour ends up first, stamped `now`, with count 1 when new and its old count plus one when listed |
| ColorHistory.StepRest | src/history/color-history-manager.js:53-60 | after the first item come the other items in their old order, cut to the limit when the colour is new |
| ColorHistory.StepNoDup | src/history/color-history-manager.js:47-61 | a step keeps the colours distinct |
| ColorHistory.AddAllNoDup | src/history/color-history-manager.js:40-63 | adding a batch keeps the colours distinct |
| ColorHistory.AddAll | src/history/color-history-manager.js:34-68 | a list within the limit stays within it |
| ColorHistory.NothingAccepted | src/history/color-history-manager.js:40-67 | a batch with no accepted element leaves the items as they were |
| ColorHistory.Distinct | src/history/color-history-manager.js:37-40 | the `Set` iterates exactly the elements of the argument, none twice, in order of first occurrence |
| ColorHistory.DistinctUnique | src/history/color-history-manager.js:37-40 | the `Set`'s iteration order is forced: any list of exactly those elements in order of first occurrence is `Distinct` |
| ColorHistory.AcceptTracked | src/history/color-history-manager.js:41-46 | an already canonical colour is accepted unchanged |
| ColorHistory.TwoSpellingsCountTwice | src/history/color-history-manager.js:37-63 | two different elements with the same canonical colour count that colour twice, because the `Set` removes duplicates before normalising |
| ColorHistory.SameColourTwice | src/history/color-history-manager.js:37-63 | `#ff0000` and `#FF0000` in one batch give one item with count 2 |
| ColorHistory.UpperCaseAccepted | src/history/color-history-manager.js:42-43 | `#FF0000` is accepted as `#ff0000` |
| ColorHistory.ThreeDigitKept | src/history/color-history-manager.js:42-43 | ` #ABC ` is accepted as `#abc`, trimmed and lower-cased but not expanded |
| Text.Lower | extension.js:393 | the model's ASCII lower-casing keeps the length and lower-cases each character on its own |
| Text.LowerLeavesNoCapital | extension.js:393 | no capital letter is left, and lower-casing twice is lower-casing once |
| Text.Trim | src/history/color-history-manager.js:42 | `trim` is no longer than its input, neither starts nor ends with white space, and is empty exactly when the input is all white space |
| Text.TrimSlice | src/history/color-history-manager.js:42 | `trim` returns a slice of its input, and everything cut from either end is white space |
| Text.TrimStartDropsSpace | src/history/color-history-manager.js:42 | what is cut from the start is white space |
| Text.TrimEndDropsSpace | src/history/color-history-manager.js:42 | what is cut from the end is white space |
| Text.TrimUnchanged | src/history/color-history-manager.js:42 | a text that neither starts nor ends with white space is its own trim |
| Text.ParseIntHex | src/color/color-parser.js:7-9 | `parseInt(…, 16)` of a text of hex digits is its hexadecimal value, and of at most two characters is `NaN` or a value in -15..255 |

## Findings

| source | as written | input that shows it | evidently intended | confidence | as-written member | corrected member |
|---|---|---|---|---|---|---|
| extension.js:393-397 | `CSS_COLORS[lowerColorStr]` reads a property of a plain object literal. The lower-cased text `constructor` or `__proto__` hits an inherited `Object.prototype` member. That member is truthy, so it is passed to `hexToRgb`, where `hex.replace` is not a function and the call throws. | `parseColor("__proto__")` (also `"constructor"`, in any case) | only the table's own keys are colour names, so such a text falls through and gives `null` | high on the code; the scan never hands such text to `parseColor` because NAMED matches only table names; not executed | ColorParser.ParseColorAsWritten | ColorParser.ParseColor |

`ColorParser.ProtoKeyThrows` exhibits the input: the code as written throws,
while `ColorParser.ParseColor` returns `None`. The rest of the model uses
`ParseColor`, and its own-key lookup is characterised by `CssColors.Lookup`
and `ColorParser.NamedFirst`.

## Left out

- VS Code plumbing is not modelled: activation, commands, configuration events, decoration types and rendering, the status bar, the webview and `color-history-view.js`. Configuration values enter as parameters: the enabled formats, the allowlist, untitled support and the history limit.
- Logging (`console.log` behind the logging setting) is not modelled; it changes no result.
- The `enable` setting and `clearDecorations` in `updateDecorations` are not modelled. Neither is the rendering after the loop, or the `!isUntitled` override on the support test; only the format loop is.
- Numbers are exact reals, not IEEE doubles. `Math.round` is `Round(x) = Floor(x + 1/2)`. A result that double rounding would move across a `.5` boundary is not captured.
- `toLowerCase` is modelled on ASCII letters only; non-ASCII text is left as is. For NAMED this loses nothing: the names are ASCII, and the non-unicode `i` flag never folds a non-ASCII character onto an ASCII one (it folds `é` and `É` together, but neither matches a name).
- Text.Lower: JavaScript's `toLowerCase` maps the Kelvin sign (U+212A) to an ASCII `k`, which the model does not. So `parseColor` of `khaki` spelt with a Kelvin sign gives the named colour in JavaScript and `None` here, and a file extension spelt with one is compared unlowered. The NAMED pattern does not match such a text, so the scan never hands one to `parseColor`.
- `trim` and `\s` use JavaScript's whitespace set (`Text.IsSpace`). Other Unicode spaces are treated as ordinary characters.
- ColorModel.HsvToRgb takes a natural hue. Every caller passes a captured unsigned value, so a negative hue is never passed. With most negative hues JavaScript's `%` gives a negative sector that no `case` matches, and the channels are `NaN`; a hue in `[-360k, -360k + 60)` gives sector `-0`, which matches `case 0`.
- ColorModel.RgbToHex and the other conversions take integers: `rgbToHex` also rounds fractional input, but every caller passes whole numbers or already rounded results.
- The RGBA alpha is kept as the captured text, not as the number `parseFloat` makes. It is never displayed (the RGBA tooltip line is dead), so no output depends on it.
- LAB, LCH, YUV and YCbCr are recognised and scanned, but `parseColor` has no branch for them and there are no conversions to model.
- `src/color/css-colors.js` is not part of this model. `color-parser.js` imports its table and pattern; the model uses the `CSS_COLORS` table and the pattern built from it in `extension.js`.
- The regular-expression engine is replaced by the deterministic matcher described above. Its equivalence with backtracking is argued, not proved.
- Editor positions (`positionAt`, `Range`) are modelled as offsets into the text. UTF-16 code units and line/column pairs are not modelled.
- ColorModel.HexToRgb: the test that a code has three characters counts code points, while JavaScript's `length` counts UTF-16 code units. They differ only for a code holding a character outside the Basic Multilingual Plane: `#ab` followed by such a character is expanded here and not in JavaScript, so the channels differ. The HEX pattern matches hex digits only, so the scan never passes such a code.
- FileTypes.IsFileTypeSupported takes the file name as a string; an undefined name is the empty string, which the code treats like the empty name.
- ColorHistory.ColorHistoryManager.AddColors takes an optional sequence of raw values. A non-iterable argument (which throws) and non-string elements beyond "not a string" are not modelled. The timestamp `Date.now()` is the parameter `now`.
- ColorHistory.ColorHistoryManager.Initialize takes the configured limit as an optional natural number and the saved value as an optional sequence (`None` for a non-array). A negative or fractional limit, which makes the trim throw a RangeError, is not modelled. Neither are `count` fields that are not numbers, which `(count || 0) + 1` would repair.
- ColorHistory.ColorHistoryManager.Save merges the memento update and the change event into one entry of the `saves` log. The array the memento stores is shared with the manager in the source (later edits alias it), while the log records a value.
- Concurrency and the timing of document events are not modelled.
