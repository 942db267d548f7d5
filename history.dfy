/**
 * `ColorHistoryManager` (src/history/color-history-manager.js): the list of
 * hex colours seen in the workspace, most recent first, with a use count
 * and a last-use time per colour, cut to a configured length and written to
 * workspace state whenever it changes.
 *
 * The clock is the `now` parameter of `AddColors`. The workspace state and
 * the change event are one log, `saves`: each save writes the list and
 * fires the event with a copy of it, in that order.
 */
module ColorHistory {

  import opened Wrappers
  import opened Text

  /** One history record: `{ color, count, lastUsed }`. */
  datatype Entry = Entry(color: string, count: int, lastUsed: int)

  /** An element of the iterable passed to `addColors`: a string, or any other value. */
  datatype Raw = Str(s: string) | NotString

  /** The tracked form, `^#([0-9a-f]{6}|[0-9a-f]{3})$`: `#` and six or three lower-case hex digits. */
  predicate IsTrackedHex(color: string)
  {
    && (|color| == 7 || |color| == 4) && color[0] == '#'
    && forall i :: 1 <= i < |color| ==> IsLowerHexDigit(color[i])
  }

  /** The colour an element stands for: a non-empty string, trimmed and lower-cased, that has the tracked form. */
  function Accept(raw: Raw): (r: Option<string>)
    ensures r.Some? ==> IsTrackedHex(r.value)
    ensures r.Some? <==> raw.Str? && raw.s != "" && IsTrackedHex(Lower(Trim(raw.s)))
    ensures r.Some? ==> r.value == Lower(Trim(raw.s))
  {
    if raw.NotString? || raw.s == "" then None
    else
      var color := Lower(Trim(raw.s));
      if IsTrackedHex(color) then Some(color) else None
  }

  /** The index of the first occurrence of `x` in `xs`. */
  function First(xs: seq<Raw>, x: Raw): (k: nat)
    requires x in xs
    ensures k < |xs| && xs[k] == x && forall j :: 0 <= j < k ==> xs[j] != x
  {
    if xs[0] == x then 0 else 1 + First(xs[1..], x)
  }

  /** Appending an element leaves the first occurrences before it where they were. */
  lemma FirstOfAppend(init: seq<Raw>, y: Raw)
    ensures forall x :: x in init ==> First(init + [y], x) == First(init, x)
    ensures y !in init ==> First(init + [y], y) == |init|
  {
    var xs := init + [y];
    forall x | x in init
      ensures First(xs, x) == First(init, x)
    {
      var k, k' := First(xs, x), First(init, x);
      assert xs[k'] == x;
    }
    if y !in init {
      assert xs[|init|] == y;
    }
  }

  /** `new Set(iterable)`: the elements in order of first occurrence, each once. */
  function Distinct(xs: seq<Raw>): (r: seq<Raw>)
    ensures forall x :: x in r <==> x in xs
    ensures forall i, j :: 0 <= i < j < |r| ==> r[i] != r[j]
    ensures forall i, j {:trigger First(xs, r[i]), First(xs, r[j])} ::
      0 <= i < j < |r| ==> First(xs, r[i]) < First(xs, r[j])
  {
    if xs == [] then []
    else
      var init, last := xs[..|xs| - 1], xs[|xs| - 1];
      assert xs == init + [last];
      FirstOfAppend(init, last);
      var d := Distinct(init);
      if last in d then d else d + [last]
  }

  /** `findIndex`: the first entry with this colour, or -1. */
  function IndexOf(items: seq<Entry>, color: string): (idx: int)
    ensures -1 <= idx < |items|
    ensures idx >= 0 ==> items[idx].color == color && forall j :: 0 <= j < idx ==> items[j].color != color
    ensures idx < 0 ==> forall j :: 0 <= j < |items| ==> items[j].color != color
  {
    if items == [] then -1
    else if items[0].color == color then 0
    else
      var i := IndexOf(items[1..], color);
      assert forall j :: 1 <= j < |items| ==> items[j] == items[1..][j - 1];
      if i < 0 then -1 else i + 1
  }

  /**
   * The list after one accepted colour: a known colour has its count
   * raised and its time set and moves to the front; a new one is put in
   * front with count 1 and the list is cut to `maxItems`.
   */
  function Step(items: seq<Entry>, maxItems: nat, color: string, now: int): (r: seq<Entry>)
    ensures |r| == if Listed(items, color) then |items|
      else if |items| + 1 > maxItems then maxItems else |items| + 1
    ensures maxItems >= 1 ==> |r| >= 1 && r[0].color == color && r[0].lastUsed == now
  {
    var idx := IndexOf(items, color);
    if idx >= 0 then
      var item := items[idx];
      [item.(count := item.count + 1, lastUsed := now)] + (items[..idx] + items[idx + 1..])
    else
      var grown := [Entry(color, 1, now)] + items;
      if |grown| > maxItems then grown[..maxItems] else grown
  }

  /** The list after the elements `raws`, in order; rejected elements leave it as it is. */
  function AddAll(items: seq<Entry>, maxItems: nat, raws: seq<Raw>, now: int): (r: seq<Entry>)
    ensures |items| <= maxItems ==> |r| <= maxItems
  {
    if raws == [] then items
    else
      var prev := AddAll(items, maxItems, raws[..|raws| - 1], now);
      var color := Accept(raws[|raws| - 1]);
      if color.Some? then Step(prev, maxItems, color.value, now) else prev
  }

  /** Whether the element is kept as a colour. */
  predicate Accepted(raw: Raw)
  {
    Accept(raw).Some?
  }

  /** Whether some element is accepted: what the `changed` flag records. */
  predicate AnyAccepted(raws: seq<Raw>)
  {
    Exists(raws, Accepted)
  }

  /** Whether some element of `xs` satisfies `p`. */
  predicate Exists<T>(xs: seq<T>, p: T -> bool)
  {
    exists k :: 0 <= k < |xs| && p(xs[k])
  }

  /** One more element satisfies the test when it or an earlier one does. */
  lemma ExistsStep<T>(xs: seq<T>, p: T -> bool, i: nat)
    requires i < |xs|
    ensures Exists(xs[..i + 1], p) <==> Exists(xs[..i], p) || p(xs[i])
  {
    var before, after := xs[..i], xs[..i + 1];
    if Exists(after, p) {
      var k :| 0 <= k < |after| && p(after[k]);
      if k < i {
        assert after[k] == before[k];
      }
    }
    if Exists(before, p) {
      var k :| 0 <= k < |before| && p(before[k]);
      assert after[k] == before[k];
    }
  }

  /** The colours of a list. */
  function Colors(items: seq<Entry>): seq<string>
  {
    seq(|items|, k requires 0 <= k < |items| => items[k].color)
  }

  /** No colour is listed twice. */
  predicate NoDup(items: seq<Entry>)
  {
    forall i, j :: 0 <= i < j < |items| ==> items[i].color != items[j].color
  }

  /** The list without the entries of one colour, in their order. */
  function Without(items: seq<Entry>, color: string): seq<Entry>
  {
    if items == [] then []
    else if items[0].color == color then Without(items[1..], color)
    else [items[0]] + Without(items[1..], color)
  }

  class ColorHistoryManager {

    /** `_items`, most recent first. */
    var items: seq<Entry>
    /** `_maxItems`. */
    var maxItems: nat
    /** Whether `_memento` is set (by `initialize`). */
    var attached: bool
    /** Each list written to workspace state and fired to listeners, oldest first. */
    var saves: seq<seq<Entry>>

    /** The empty history with the default limit of 100, not yet attached to workspace state. */
    constructor()
      ensures items == [] && maxItems == 100 && !attached && saves == []
    {
      items := [];
      maxItems := 100;
      attached := false;
      saves := [];
    }

    /**
     * `initialize`: attach to workspace state; take the configured limit, or
     * 100 when there is none or it is 0; adopt the stored list when the
     * stored value is an array (`saved` is `None` when it is not).
     */
    method Initialize(saved: Option<seq<Entry>>, configured: Option<nat>)
      modifies this
      ensures attached && saves == old(saves)
      ensures maxItems == (if configured.Some? && configured.value != 0 then configured.value else 100)
      ensures items == (if saved.Some? then saved.value else old(items))
    {
      attached := true;
      maxItems := if configured.Some? && configured.value != 0 then configured.value else 100;
      if saved.Some? {
        items := saved.value;
      }
    }

    /** `getAll`: a copy of the list. */
    method GetAll() returns (all: seq<Entry>)
      ensures all == items
    {
      all := items;
    }

    /** `clear`: empty the list and save. */
    method Clear()
      modifies this
      ensures items == [] && maxItems == old(maxItems) && attached == old(attached)
      ensures saves == (if attached then old(saves) + [[]] else old(saves))
    {
      items := [];
      Save();
    }

    /** `_save`: nothing before `initialize`; otherwise write the list and fire the change event. */
    method Save()
      modifies this
      ensures items == old(items) && maxItems == old(maxItems) && attached == old(attached)
      ensures saves == (if attached then old(saves) + [items] else old(saves))
    {
      if !attached {
        return;
      }
      saves := saves + [items];
    }

    /** The body of the loop of `addColors` for an accepted colour: move it to the front, or insert it and trim. */
    method Track(color: string, now: int)
      modifies this
      ensures items == Step(old(items), maxItems, color, now)
      ensures maxItems == old(maxItems) && attached == old(attached) && saves == old(saves)
    {
      var idx := IndexOf(items, color);
      if idx >= 0 {
        var item := items[idx];
        item := item.(count := item.count + 1, lastUsed := now);
        items := items[..idx] + items[idx + 1..];
        items := [item] + items;
      } else {
        items := [Entry(color, 1, now)] + items;
        if |items| > maxItems {
          items := items[..maxItems];
        }
      }
    }

    /**
     * `addColors`: nothing at all for a missing argument; otherwise each
     * distinct element in turn, then one save if any colour was accepted.
     */
    method AddColors(colorsIterable: Option<seq<Raw>>, now: int)
      modifies this
      ensures maxItems == old(maxItems) && attached == old(attached)
      ensures colorsIterable.None? ==> items == old(items) && saves == old(saves)
      ensures colorsIterable.Some? ==>
        var elements := Distinct(colorsIterable.value);
        && items == AddAll(old(items), maxItems, elements, now)
        && saves == (if AnyAccepted(elements) && attached then old(saves) + [items] else old(saves))
    {
      if colorsIterable.None? {
        return;
      }
      var elements := Distinct(colorsIterable.value);
      var changed := AddEach(elements, now);
      if changed {
        Save();
      }
    }

    /** The loop of `addColors` over the distinct elements: reports whether any colour was accepted. */
    method AddEach(elements: seq<Raw>, now: int) returns (changed: bool)
      modifies this
      ensures maxItems == old(maxItems) && attached == old(attached) && saves == old(saves)
      ensures items == AddAll(old(items), maxItems, elements, now)
      ensures changed == AnyAccepted(elements)
    {
      changed := false;
      for i := 0 to |elements|
        invariant maxItems == old(maxItems) && attached == old(attached) && saves == old(saves)
        invariant items == AddAll(old(items), maxItems, elements[..i], now)
        invariant changed == AnyAccepted(elements[..i])
      {
        AddAllStep(old(items), maxItems, elements, i, now);
        AnyAcceptedStep(elements, i);
        var raw := elements[i];
        if raw.NotString? || raw.s == "" {
          assert Accept(raw).None?;
          continue;
        }
        var color := Lower(Trim(raw.s));
        if !IsTrackedHex(color) {
          assert Accept(raw).None?;
          continue;
        }
        assert Accept(raw) == Some(color);
        Track(color, now);
        changed := true;
      }
      assert elements[..|elements|] == elements;
    }
  }

  /** The loop's step: one more element of the distinct list. */
  lemma AddAllStep(items: seq<Entry>, maxItems: nat, raws: seq<Raw>, i: nat, now: int)
    requires i < |raws|
    ensures AddAll(items, maxItems, raws[..i + 1], now) ==
      var prev := AddAll(items, maxItems, raws[..i], now);
      if Accept(raws[i]).Some? then Step(prev, maxItems, Accept(raws[i]).value, now) else prev
  {
    assert raws[..i + 1][..i] == raws[..i];
    assert raws[..i + 1][i] == raws[i];
  }

  /** The `changed` flag after one more element. */
  lemma AnyAcceptedStep(raws: seq<Raw>, i: nat)
    requires i < |raws|
    ensures AnyAccepted(raws[..i + 1]) <==> AnyAccepted(raws[..i]) || Accept(raws[i]).Some?
  {
    ExistsStep(raws, Accepted, i);
  }

  /** Whether some entry of the list has this colour. */
  predicate Listed(items: seq<Entry>, color: string)
  {
    exists j :: 0 <= j < |items| && items[j].color == color
  }

  /**
   * The colour ends up in front, stamped `now`, with its count one higher
   * than before, or 1 when it is new.
   */
  lemma StepFront(items: seq<Entry>, maxItems: nat, color: string, now: int)
    requires maxItems >= 1
    ensures var after := Step(items, maxItems, color, now);
      && |after| >= 1 && after[0].color == color && after[0].lastUsed == now
      && (!Listed(items, color) ==> after[0].count == 1)
      && (forall j :: 0 <= j < |items| && items[j].color == color && NoDup(items) ==> after[0].count == items[j].count + 1)
  {
  }

  /**
   * Behind the front entry the other entries keep their relative order: a
   * listed colour leaves all of them, a new one as many as the limit allows.
   */
  lemma StepRest(items: seq<Entry>, maxItems: nat, color: string, now: int)
    requires NoDup(items) && maxItems >= 1
    ensures var after := Step(items, maxItems, color, now);
      var others := Without(items, color);
      && |after| >= 1
      && (Listed(items, color) ==> after[1..] == others)
      && (!Listed(items, color) ==> others == items && |after| - 1 <= |items| && after[1..] == items[..|after| - 1])
  {
    var idx := IndexOf(items, color);
    if idx >= 0 {
      WithoutUnique(items, color, idx);
    } else {
      WithoutAbsent(items, color);
    }
  }

  /** Removing a colour listed once, at `idx`, is cutting out that entry. */
  lemma {:induction false} WithoutUnique(items: seq<Entry>, color: string, idx: nat)
    requires NoDup(items) && idx < |items| && items[idx].color == color
    ensures Without(items, color) == items[..idx] + items[idx + 1..]
  {
    if idx == 0 {
      WithoutAbsent(items[1..], color);
    } else {
      WithoutUnique(items[1..], color, idx - 1);
      assert items[1..][..idx - 1] == items[1..idx];
      assert items[1..][idx..] == items[idx + 1..];
      assert items[..idx] == [items[0]] + items[1..idx];
    }
  }

  /** Removing a colour that is not listed changes nothing. */
  lemma {:induction false} WithoutAbsent(items: seq<Entry>, color: string)
    requires forall j :: 0 <= j < |items| ==> items[j].color != color
    ensures Without(items, color) == items
  {
    if items != [] {
      WithoutAbsent(items[1..], color);
    }
  }

  /** A list without repeated colours keeps that property through one accepted colour. */
  lemma StepNoDup(items: seq<Entry>, maxItems: nat, color: string, now: int)
    requires NoDup(items)
    ensures NoDup(Step(items, maxItems, color, now))
  {
    var after := Step(items, maxItems, color, now);
    var idx := IndexOf(items, color);
    if idx >= 0 {
      var rest := items[..idx] + items[idx + 1..];
      assert forall j :: 0 <= j < |rest| ==> rest[j] == (if j < idx then items[j] else items[j + 1]);
      assert forall j :: 0 < j < |after| ==> after[j] == rest[j - 1];
    } else {
      var grown := [Entry(color, 1, now)] + items;
      assert NoDup(grown) by {
        assert forall j :: 0 < j < |grown| ==> grown[j] == items[j - 1];
      }
    }
  }

  /** `addColors` never creates a second entry for a colour. */
  lemma {:induction false} AddAllNoDup(items: seq<Entry>, maxItems: nat, raws: seq<Raw>, now: int)
    requires NoDup(items)
    ensures NoDup(AddAll(items, maxItems, raws, now))
  {
    if raws != [] {
      var prev := AddAll(items, maxItems, raws[..|raws| - 1], now);
      AddAllNoDup(items, maxItems, raws[..|raws| - 1], now);
      var color := Accept(raws[|raws| - 1]);
      if color.Some? {
        StepNoDup(prev, maxItems, color.value, now);
      }
    }
  }

  /** When nothing is accepted, the list is left exactly as it was (and `addColors` does not save). */
  lemma {:induction false} NothingAccepted(items: seq<Entry>, maxItems: nat, raws: seq<Raw>, now: int)
    requires !AnyAccepted(raws)
    ensures AddAll(items, maxItems, raws, now) == items
  {
    if raws != [] {
      AnyAcceptedStep(raws, |raws| - 1);
      assert raws[..|raws|] == raws;
      NothingAccepted(items, maxItems, raws[..|raws| - 1], now);
    }
  }

  /**
   * The order of `new Set(…)` is forced: any list that holds exactly the
   * elements of `xs`, in order of first occurrence, is `Distinct(xs)`.
   */
  lemma DistinctUnique(xs: seq<Raw>, r: seq<Raw>)
    requires forall x :: x in r <==> x in xs
    requires forall i, j :: 0 <= i < j < |r| ==> First(xs, r[i]) < First(xs, r[j])
    ensures r == Distinct(xs)
  {
    SameOrderEqual(xs, r, Distinct(xs));
  }

  /** A list in order of first occurrence starts with the element that occurs first. */
  lemma HeadFirst(xs: seq<Raw>, a: seq<Raw>, x: Raw)
    requires forall y :: y in a ==> y in xs
    requires forall i, j :: 0 <= i < j < |a| ==> First(xs, a[i]) < First(xs, a[j])
    requires x in a
    ensures First(xs, a[0]) <= First(xs, x)
  {
    var i :| 0 <= i < |a| && a[i] == x;
    if i > 0 {
      assert First(xs, a[0]) < First(xs, a[i]);
    }
  }

  /** A list is non-empty exactly when it has a member. */
  lemma HasMember(a: seq<Raw>)
    ensures a != [] <==> exists x :: x in a
  {
    if a != [] {
      assert a[0] in a;
    }
  }

  /** Lists in order of first occurrence with the same head: what follows the head in one follows it in the other. */
  lemma TailIn(xs: seq<Raw>, a: seq<Raw>, b: seq<Raw>)
    requires forall x :: x in a ==> x in xs
    requires forall x :: x in a ==> x in b
    requires forall i, j :: 0 <= i < j < |a| ==> First(xs, a[i]) < First(xs, a[j])
    requires a != [] && b != [] && a[0] == b[0]
    ensures forall x :: x in a[1..] ==> x in b[1..]
  {
    forall x | x in a[1..]
      ensures x in b[1..]
    {
      var i :| 1 <= i < |a| && a[i] == x;
      assert First(xs, a[0]) < First(xs, a[i]) && x in a;
      var j :| 0 <= j < |b| && b[j] == x;
      assert b[1..][j - 1] == x;
    }
  }

  /** Two lists of the same elements of `xs`, both in order of first occurrence, are equal. */
  lemma {:induction false} SameOrderEqual(xs: seq<Raw>, a: seq<Raw>, b: seq<Raw>)
    requires forall x :: x in a ==> x in xs
    requires forall x :: x in a <==> x in b
    requires forall i, j :: 0 <= i < j < |a| ==> First(xs, a[i]) < First(xs, a[j])
    requires forall i, j :: 0 <= i < j < |b| ==> First(xs, b[i]) < First(xs, b[j])
    ensures a == b
    decreases |a|
  {
    HasMember(a);
    HasMember(b);
    if a != [] {
      HeadFirst(xs, a, b[0]);
      HeadFirst(xs, b, a[0]);
      assert a[0] == xs[First(xs, a[0])] == xs[First(xs, b[0])] == b[0];
      TailIn(xs, a, b);
      TailIn(xs, b, a);
      SameOrderEqual(xs, a[1..], b[1..]);
    }
  }

  /** A colour already in the tracked form is accepted as it is: normalising twice changes nothing. */
  lemma AcceptTracked(color: string)
    requires IsTrackedHex(color)
    ensures Accept(Str(color)) == Some(color)
  {
    TrackedIsLower(color);
    TrackedIsTrimmed(color);
  }

  /** The tracked form is already lower-case. */
  lemma TrackedIsLower(color: string)
    requires IsTrackedHex(color)
    ensures Lower(color) == color
  {
    forall i | 0 <= i < |color|
      ensures LowerChar(color[i]) == color[i]
    {
      assert i == 0 || IsLowerHexDigit(color[i]);
    }
  }

  /** The tracked form has no surrounding white space. */
  lemma TrackedIsTrimmed(color: string)
    requires IsTrackedHex(color)
    ensures Trim(color) == color
  {
    var last := color[|color| - 1];
    assert IsLowerHexDigit(last);
    TrimUnchanged(color);
  }

  /**
   * Two spellings of one colour in one call: the set keeps both (it compares
   * the strings as given), both normalise to the same colour, so one entry is
   * created and then counted again.
   */
  lemma TwoSpellingsCountTwice(x: Raw, y: Raw, color: string, maxItems: nat, now: int)
    requires x != y && Accept(x) == Some(color) && Accept(y) == Some(color) && maxItems >= 1
    ensures AddAll([], maxItems, Distinct([x, y]), now) == [Entry(color, 2, now)]
  {
    DistinctOfTwo(x, y);
    BothCounted([x, y], color, maxItems, now);
  }

  /** Two elements accepted as the same colour, added to the empty history, give one entry with count 2. */
  lemma BothCounted(raws: seq<Raw>, color: string, maxItems: nat, now: int)
    requires |raws| == 2 && Accept(raws[0]) == Some(color) && Accept(raws[1]) == Some(color) && maxItems >= 1
    ensures AddAll([], maxItems, raws, now) == [Entry(color, 2, now)]
  {
    AddAllStep([], maxItems, raws, 1, now);
    assert raws[..2] == raws;
    FirstOfColour(raws, color, maxItems, now);
    SecondOfColour(color, maxItems, now);
  }

  /** A colour added to the empty history is its only entry, with count 1. */
  lemma FirstOfColour(raws: seq<Raw>, color: string, maxItems: nat, now: int)
    requires |raws| >= 1 && Accept(raws[0]) == Some(color) && maxItems >= 1
    ensures AddAll([], maxItems, raws[..1], now) == [Entry(color, 1, now)]
  {
    AddAllStep([], maxItems, raws, 0, now);
    assert raws[..0] == [];
    assert IndexOf([], color) == -1;
  }

  /** The same colour once more: its one entry is counted again. */
  lemma SecondOfColour(color: string, maxItems: nat, now: int)
    ensures Step([Entry(color, 1, now)], maxItems, color, now) == [Entry(color, 2, now)]
  {
    assert IndexOf([Entry(color, 1, now)], color) == 0;
  }

  /** `#ff0000` and `#FF0000` in one call give one entry with count 2. */
  lemma SameColourTwice(a: string, b: string, maxItems: nat, now: int)
    requires a == "#ff0000" && b == "#FF0000" && maxItems >= 1
    ensures AddAll([], maxItems, Distinct([Str(a), Str(b)]), now) == [Entry(a, 2, now)]
  {
    RedSpellings(a, b);
    TwoSpellingsCountTwice(Str(a), Str(b), a, maxItems, now);
  }

  /** `#ff0000` and `#FF0000` are two elements that are both accepted as `#ff0000`. */
  lemma RedSpellings(a: string, b: string)
    requires a == "#ff0000" && b == "#FF0000"
    ensures Str(a) != Str(b) && Accept(Str(a)) == Some(a) && Accept(Str(b)) == Some(a)
  {
    assert a[1] != b[1];
    AcceptTracked(a);
    UpperCaseAccepted(a, b);
  }

  /** Two different elements both stay in the set, in order. */
  lemma DistinctOfTwo(x: Raw, y: Raw)
    requires x != y
    ensures Distinct([x, y]) == [x, y]
  {
    var xs := [x, y];
    assert xs[..1] == [x] && xs[..1][..0] == [];
    assert Distinct(xs[..1]) == [x];
  }

  /** `#FF0000` is accepted as `#ff0000`. */
  lemma UpperCaseAccepted(a: string, b: string)
    requires a == "#ff0000" && b == "#FF0000"
    ensures Accept(Str(b)) == Some(a)
  {
    RedNormalised(a, b);
    AcceptOf(b, a);
  }

  /** `#FF0000` needs no trimming and lower-cases to `#ff0000`, a tracked colour. */
  lemma RedNormalised(a: string, b: string)
    requires a == "#ff0000" && b == "#FF0000"
    ensures Lower(Trim(b)) == a && IsTrackedHex(a)
  {
    RedTrimmed(b);
    RedLowered(a, b);
    RedTracked(a);
  }

  /** `#ff0000` has the tracked form. */
  lemma RedTracked(a: string)
    requires a == "#ff0000"
    ensures IsTrackedHex(a)
  {
  }

  /** `#FF0000` lower-cases to `#ff0000`. */
  lemma RedLowered(a: string, b: string)
    requires a == "#ff0000" && b == "#FF0000"
    ensures Lower(b) == a
  {
    assert forall i :: 0 <= i < 7 ==> Lower(b)[i] == a[i];
  }

  /** `#FF0000` has no white space to trim. */
  lemma RedTrimmed(b: string)
    requires b == "#FF0000"
    ensures Trim(b) == b
  {
    assert !IsSpace(b[0]) && !IsSpace(b[6]);
    TrimUnchanged(b);
  }

  /** A text that normalises to a tracked colour is accepted as that colour. */
  lemma AcceptOf(raw: string, color: string)
    requires Lower(Trim(raw)) == color && IsTrackedHex(color)
    ensures Accept(Str(raw)) == Some(color)
  {
  }

  /** A three-digit colour is trimmed and lower-cased but kept at three digits. */
  lemma ThreeDigitKept(raw: string)
    requires raw == " #ABC "
    ensures Accept(Str(raw)) == Some("#abc")
  {
    PaddedNormalised(raw, "#abc");
    AcceptOf(raw, "#abc");
  }

  /** ` #ABC ` trims to `#ABC`, which lower-cases to the tracked `#abc`. */
  lemma PaddedNormalised(raw: string, color: string)
    requires raw == " #ABC " && color == "#abc"
    ensures Lower(Trim(raw)) == color && IsTrackedHex(color)
  {
    var inner := PaddedTrimmed(raw);
    AbcLowered(inner, color);
    AbcTracked(color);
  }

  /** `#ABC` lower-cases to `#abc`. */
  lemma AbcLowered(inner: string, color: string)
    requires inner == "#ABC" && color == "#abc"
    ensures Lower(inner) == color
  {
    assert forall i :: 0 <= i < 4 ==> Lower(inner)[i] == color[i];
  }

  /** ` #ABC ` trims to the four characters between its spaces. */
  lemma PaddedTrimmed(raw: string) returns (inner: string)
    requires raw == " #ABC "
    ensures inner == "#ABC" && Trim(raw) == inner
  {
    inner := raw[1..5];
    var rest := PaddedStart(raw);
    PaddedEnd(rest, inner);
  }

  /** ` #ABC ` loses its one leading space. */
  lemma PaddedStart(raw: string) returns (rest: string)
    requires raw == " #ABC "
    ensures rest == "#ABC " && TrimStart(raw) == rest
  {
    rest := raw[1..];
    assert rest[0] == '#' && !IsSpace(rest[0]);
    assert TrimStart(rest) == rest;
    assert TrimStart(raw) == TrimStart(rest);
  }

  /** `#ABC ` loses its one trailing space. */
  lemma PaddedEnd(rest: string, inner: string)
    requires rest == "#ABC " && inner == "#ABC"
    ensures TrimEnd(rest) == inner
  {
    assert rest[..4] == inner;
    assert TrimEnd(rest) == TrimEnd(inner);
  }

  /** `#abc` has the tracked form. */
  lemma AbcTracked(color: string)
    requires color == "#abc"
    ensures IsTrackedHex(color)
  {
  }
}
