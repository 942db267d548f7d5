/**
 * `isFileTypeSupported` (extension.js): whether the colour scan runs on a
 * document, decided from its file name, the "untitled files" setting and
 * the allowlist of extensions. Both settings are parameters here.
 */
module FileTypes {

  import opened Text

  /**
   * The names the source treats as untitled or virtual documents: no name
   * at all, an `Untitled:`/`untitled:` scheme, an `Untitled-` counter, the
   * bare word `Untitled`, or a name without any dot.
   */
  predicate IsUntitled(fileName: string)
  {
    || fileName == ""
    || StartsWith(fileName, "Untitled:")
    || StartsWith(fileName, "untitled:")
    || Contains(fileName, "Untitled-")
    || fileName == "Untitled"
    || '.' !in fileName
  }

  /**
   * The last `/`-separated segment of the name, after `\` became `/` and
   * letters were lower-cased: the longest suffix of that text without `/`,
   * preceded by a `/` unless it is the whole text.
   */
  function LastSegment(fileName: string): (r: string)
    ensures '/' !in r && '\\' !in r
    ensures |r| <= |fileName|
    ensures var n := Lower(ReplaceAll(fileName, '\\', '/'));
      |r| <= |n| && r == n[|n| - |r|..] && (|r| < |n| ==> n[|n| - |r| - 1] == '/')
  {
    var normalized := Lower(ReplaceAll(fileName, '\\', '/'));
    AfterLast(normalized, '/')
  }

  /**
   * The extension of a last segment: the text after its last dot, lower-cased
   * and trimmed, with `.d.ts`, `.spec.ts` and `.test.ts` read as `ts` and
   * `.min.js` as `js`; empty when the segment has no dot.
   */
  function Extension(lastSegment: string): string
  {
    if '.' in lastSegment then
      var popped := Trim(Lower(AfterLast(lastSegment, '.')));
      if EndsWith(lastSegment, ".d.ts") then "ts"
      else if EndsWith(lastSegment, ".min.js") then "js"
      else if EndsWith(lastSegment, ".spec.ts") || EndsWith(lastSegment, ".test.ts") then "ts"
      else popped
    else ""
  }

  /** An allowlist entry as the comparison sees it: lower-cased, then trimmed. */
  function Normalized(entry: string): string
  {
    Trim(Lower(entry))
  }

  /** The allowlist with each entry normalised, in order. */
  function NormalizedEntries(supported: seq<string>): (keys: seq<string>)
    ensures |keys| == |supported|
    ensures forall i :: 0 <= i < |keys| ==> keys[i] == Normalized(supported[i])
  {
    seq(|supported|, i requires 0 <= i < |supported| => Normalized(supported[i]))
  }

  /** `.some(k => k === ext)`, scanning the keys from the front. */
  function SomeEqual(keys: seq<string>, ext: string): bool
  {
    if keys == [] then false
    else keys[0] == ext || SomeEqual(keys[1..], ext)
  }

  /** `supportedFileTypes.some(…)`: some entry, normalised, is the extension. */
  function Listed(supported: seq<string>, ext: string): bool
  {
    SomeEqual(NormalizedEntries(supported), ext)
  }

  /**
   * `isFileTypeSupported`: an untitled name follows the setting; any other
   * name is supported exactly when its last segment has an extension that
   * some allowlist entry, lower-cased and trimmed, equals.
   */
  function IsFileTypeSupported(fileName: string, enableUntitled: bool, supported: seq<string>): (r: bool)
    ensures IsUntitled(fileName) ==> (r <==> enableUntitled)
    ensures !IsUntitled(fileName) ==> (r <==>
      var ext := Extension(LastSegment(fileName));
      ext != "" && exists i :: 0 <= i < |supported| && Normalized(supported[i]) == ext)
  {
    ExtensionIsShorter(LastSegment(fileName));
    ListedIff(supported, Extension(LastSegment(fileName)));
    if IsUntitled(fileName) then enableUntitled
    else
      var last := LastSegment(fileName);
      var ext := Extension(last);
      if ext == "" || ext == last then false
      else Listed(supported, ext)
  }

  /** The "untitled files" setting decides exactly the untitled names; every other name ignores it. */
  lemma UntitledSettingMatters(fileName: string, supported: seq<string>)
    ensures IsUntitled(fileName) ==> IsFileTypeSupported(fileName, true, supported)
    ensures IsUntitled(fileName) ==> !IsFileTypeSupported(fileName, false, supported)
    ensures !IsUntitled(fileName) ==>
      IsFileTypeSupported(fileName, true, supported) == IsFileTypeSupported(fileName, false, supported)
  {
  }

  /** `.some` holds exactly when some entry of the list, normalised, is the extension. */
  lemma ListedIff(supported: seq<string>, ext: string)
    ensures Listed(supported, ext) <==> exists i :: 0 <= i < |supported| && Normalized(supported[i]) == ext
  {
    var keys := NormalizedEntries(supported);
    SomeEqualIff(keys, ext);
    if exists i :: 0 <= i < |supported| && Normalized(supported[i]) == ext {
      var i :| 0 <= i < |supported| && Normalized(supported[i]) == ext;
      assert keys[i] == ext;
    }
  }

  /** The scan finds the extension exactly when some key is it. */
  lemma {:induction false} SomeEqualIff(keys: seq<string>, ext: string)
    ensures SomeEqual(keys, ext) <==> exists i :: 0 <= i < |keys| && keys[i] == ext
  {
    if keys != [] {
      var rest := keys[1..];
      SomeEqualIff(rest, ext);
      if SomeEqual(rest, ext) {
        var i :| 0 <= i < |rest| && rest[i] == ext;
        assert keys[i + 1] == rest[i];
      }
      if exists i :: 0 <= i < |keys| && keys[i] == ext {
        var i :| 0 <= i < |keys| && keys[i] == ext;
        if i > 0 {
          assert rest[i - 1] == keys[i];
        }
      }
    }
  }

  /** A name with an extension is never its own extension: the `=== lastSegment` test never fires. */
  lemma ExtensionIsShorter(lastSegment: string)
    ensures Extension(lastSegment) != "" ==> |Extension(lastSegment)| < |lastSegment|
  {
    if '.' in lastSegment {
      var popped := AfterLast(lastSegment, '.');
      assert |popped| < |lastSegment|;
      TrimIsShorter(Lower(popped));
      SpecialSuffixesRedundant(lastSegment);
    }
  }

  /** Trimming never lengthens a text. */
  lemma TrimIsShorter(s: string)
    ensures |Trim(s)| <= |s|
  {
  }

  /**
   * The special suffixes name the extension `pop` already gives: the text
   * after the last dot of `….d.ts`, `….spec.ts` and `….test.ts` is `ts`,
   * and of `….min.js` it is `js`.
   */
  lemma SpecialSuffixesRedundant(lastSegment: string)
    ensures '.' in lastSegment ==> Extension(lastSegment) == Trim(Lower(AfterLast(lastSegment, '.')))
  {
    if EndsWith(lastSegment, ".d.ts") {
      PopOfSuffix(lastSegment, ".d.ts", "ts");
    } else if EndsWith(lastSegment, ".min.js") {
      PopOfSuffix(lastSegment, ".min.js", "js");
    } else if EndsWith(lastSegment, ".spec.ts") {
      PopOfSuffix(lastSegment, ".spec.ts", "ts");
    } else if EndsWith(lastSegment, ".test.ts") {
      PopOfSuffix(lastSegment, ".test.ts", "ts");
    }
  }

  /** A segment ending in a suffix whose last part is `.` and a lower-case word: `pop` gives the word. */
  lemma PopOfSuffix(s: string, suffix: string, w: string)
    requires EndsWith(s, suffix)
    requires |w| < |suffix| && suffix[|suffix| - |w| - 1] == '.' && suffix[|suffix| - |w|..] == w
    requires forall i :: 0 <= i < |w| ==> 'a' <= w[i] <= 'z'
    ensures Trim(Lower(AfterLast(s, '.'))) == w
  {
    assert s[|s| - |suffix|..][|suffix| - |w| - 1] == s[|s| - |w| - 1];
    assert s[|s| - |w|..] == s[|s| - |suffix|..][|suffix| - |w|..];
    AfterLastSuffix(s, '.', w);
    LowerTrimPlain(w);
  }

  /** The text after the last `x` of a name ending in `x` and then an `x`-free word is that word. */
  lemma AfterLastSuffix(s: string, x: char, w: string)
    requires x !in w && |w| < |s| && s[|s| - |w| - 1] == x && s[|s| - |w|..] == w
    ensures AfterLast(s, x) == w
  {
  }

  /** Lower-case letters without white space come through `toLowerCase().trim()` unchanged. */
  lemma LowerTrimPlain(w: string)
    requires forall i :: 0 <= i < |w| ==> 'a' <= w[i] <= 'z'
    ensures Trim(Lower(w)) == w
  {
    assert Lower(w) == w;
    if w != [] {
      assert !IsSpace(w[0]) && !IsSpace(w[|w| - 1]);
    }
  }

  /**
   * A titled name whose last segment has no dot, such as `my.dir/Makefile`,
   * is refused: the dot that made it titled belongs to a directory.
   */
  lemma DottedDirectoryRefused(fileName: string, enableUntitled: bool, supported: seq<string>)
    requires !IsUntitled(fileName) && '.' !in LastSegment(fileName)
    ensures !IsFileTypeSupported(fileName, enableUntitled, supported)
  {
  }

  /** A name without `-` has no `Untitled-` counter. */
  lemma {:induction false} NoCounter(s: string)
    requires '-' !in s
    ensures !Contains(s, "Untitled-")
  {
    if s != [] {
      NoCounter(s[1..]);
    }
    if |s| >= 9 {
      assert s[..9][8] != "Untitled-"[8];
    }
  }

  /**
   * `src\App.Min.JS` with the allowlist `["js"]`: the separator is
   * normalised, the case folded, and the minified suffix read as `js`.
   */
  lemma MinifiedScriptSupported(fileName: string)
    requires fileName == "src\\App.Min.JS"
    ensures IsFileTypeSupported(fileName, false, ["js"])
  {
    MinifiedScriptTitled(fileName);
    MinifiedScriptSegment(fileName);
    MinifiedScriptExtension("app.min.js");
  }

  /** The name is not an untitled one. */
  lemma MinifiedScriptTitled(fileName: string)
    requires fileName == "src\\App.Min.JS"
    ensures !IsUntitled(fileName)
  {
    NoCounter(fileName);
    assert fileName[7] == '.';
    Differs(fileName, "Untitled:", 0);
    Differs(fileName, "untitled:", 0);
  }

  /** Its last segment, normalised. */
  lemma MinifiedScriptSegment(fileName: string)
    requires fileName == "src\\App.Min.JS"
    ensures LastSegment(fileName) == "app.min.js"
  {
    var normalized := MinifiedScriptNormalized(fileName);
    AfterLastSuffix(normalized, '/', "app.min.js");
  }

  /** The name with `/` for `\\` and lower-case letters. */
  lemma MinifiedScriptNormalized(fileName: string) returns (normalized: string)
    requires fileName == "src\\App.Min.JS"
    ensures normalized == Lower(ReplaceAll(fileName, '\\', '/')) && normalized == "src/app.min.js"
  {
    normalized := Lower(ReplaceAll(fileName, '\\', '/'));
  }

  /** The extension of that segment is on the list `["js"]`. */
  lemma MinifiedScriptExtension(last: string)
    requires last == "app.min.js"
    ensures Extension(last) == "js" && Listed(["js"], "js")
  {
    assert last[3] == '.';
    assert EndsWith(last, ".min.js");
    Differs(last[|last| - 5..], ".d.ts", 0);
    LowerTrimPlain("js");
  }
}
