/** `format_pricing_by_date` (app.py): the scraped price rows are grouped by
    their date-time label, and each group becomes one text block: the header,
    then one line per seating section and price, duplicates removed, listed by
    seating group, then by price from highest to lowest, then by text. */
module PricingText {
  import opened Basics
  import opened Text
  import opened Prices
  import opened PricingHeader

  /** One scraped price row; a missing key is `None`. */
  datatype Item = Item(dateTime: Option<string>, description: Option<string>, price: Option<string>)

  function DateOf(item: Item): string {
    item.dateTime.GetOr("Unknown Date")
  }

  // ---------------------------------------------------------------------
  // Grouping by date
  // ---------------------------------------------------------------------

  /** The dates of `items` in the order they first appear: the keys of the
      grouping dictionary in insertion order. */
  function DateKeys(items: seq<Item>): (keys: seq<string>)
    ensures forall i, j | 0 <= i < j < |keys| :: keys[i] != keys[j]
  {
    if items == [] then []
    else
      var keys := DateKeys(items[..|items| - 1]);
      var d := DateOf(items[|items| - 1]);
      if d in keys then keys else keys + [d]
  }

  /** The items with date `date`, in their original order. */
  function ItemsOn(items: seq<Item>, date: string): (r: seq<Item>)
    ensures |r| <= |items|
    ensures forall i | 0 <= i < |r| :: DateOf(r[i]) == date && r[i] in items
  {
    if items == [] then []
    else
      var last := items[|items| - 1];
      ItemsOn(items[..|items| - 1], date) + (if DateOf(last) == date then [last] else [])
  }

  /** A date is a key exactly when some item carries it. */
  lemma {:induction false} DateKeysAreDates(items: seq<Item>, d: string)
    ensures d in DateKeys(items) <==> exists i | 0 <= i < |items| :: DateOf(items[i]) == d
  {
    if items != [] {
      var init := items[..|items| - 1];
      DateKeysAreDates(init, d);
      if exists i | 0 <= i < |init| :: DateOf(init[i]) == d {
        var i :| 0 <= i < |init| && DateOf(init[i]) == d;
        assert items[i] == init[i];
      }
      if exists i | 0 <= i < |items| :: DateOf(items[i]) == d {
        var i :| 0 <= i < |items| && DateOf(items[i]) == d;
        if i < |init| {
          assert init[i] == items[i];
        }
      }
    }
  }

  /** Every item is in the group of its own date. */
  lemma {:induction false} ItemInItsGroup(items: seq<Item>, i: nat)
    requires i < |items|
    ensures items[i] in ItemsOn(items, DateOf(items[i]))
  {
    var init := items[..|items| - 1];
    if i < |init| {
      assert init[i] == items[i];
      ItemInItsGroup(init, i);
    }
  }

  /** No item is lost or duplicated: an item's date group holds it as often as `items` does. */
  lemma {:induction false} GroupCounts(items: seq<Item>, x: Item)
    ensures multiset(ItemsOn(items, DateOf(x)))[x] == multiset(items)[x]
  {
    if items != [] {
      var init := items[..|items| - 1];
      GroupCounts(init, x);
      assert items == init + [items[|items| - 1]];
    }
  }

  /** A date that is not a key has no items. */
  lemma NoKeyNoItems(items: seq<Item>, d: string)
    requires d !in DateKeys(items)
    ensures ItemsOn(items, d) == []
  {
    DateKeysAreDates(items, d);
    NoDateNoItems(items, d);
  }

  lemma {:induction false} NoDateNoItems(items: seq<Item>, d: string)
    requires forall i | 0 <= i < |items| :: DateOf(items[i]) != d
    ensures ItemsOn(items, d) == []
  {
    if items != [] {
      var init := items[..|items| - 1];
      assert forall i | 0 <= i < |init| :: init[i] == items[i];
      NoDateNoItems(init, d);
    }
  }

  /** The grouping loop: the dates in first-appearance order and, for each,
      its items in order. */
  method GroupByDate(items: seq<Item>) returns (keys: seq<string>, groups: map<string, seq<Item>>)
    ensures keys == DateKeys(items)
    ensures forall d :: d in groups <==> d in keys
    ensures forall d | d in groups :: groups[d] == ItemsOn(items, d)
  {
    keys := [];
    groups := map[];
    for i := 0 to |items|
      invariant keys == DateKeys(items[..i])
      invariant forall d :: d in groups <==> d in keys
      invariant forall d | d in groups :: groups[d] == ItemsOn(items[..i], d)
    {
      var d := DateOf(items[i]);
      assert items[..i + 1][..i] == items[..i];
      if d !in groups {
        NoKeyNoItems(items[..i], d);
        keys := keys + [d];
        groups := groups[d := []];
      }
      groups := groups[d := groups[d] + [items[i]]];
    }
    assert items[..|items|] == items;
  }

  // ---------------------------------------------------------------------
  // The lines of a block
  // ---------------------------------------------------------------------

  /** One price line with its sort keys: the numeric price and the seating rank. */
  datatype Line = Line(text: string, value: real, rank: nat)

  function DescriptionOf(item: Item): string {
    item.description.GetOr("Unknown Description")
  }

  /** The price as the block shows it. */
  function PriceShown(item: Item): string {
    NormalizePriceDisplay(item.price.GetOr("Unknown Price"))
  }

  /** The line `section - price`, sorted by the price read back from the
      displayed text and by the section's seating group. */
  function LineFor(section: string, display: string): (l: Line)
    ensures l.value >= 0.0 && l.rank <= 4
  {
    Line(section + " - " + display, ExtractPriceValue(display), Categorize(section).Rank())
  }

  /** The parts of a description split at '/', each stripped, the empty ones skipped. */
  function KeptSections(parts: seq<string>): (r: seq<string>)
    ensures |r| <= |parts|
    ensures forall i | 0 <= i < |r| :: r[i] != []
  {
    if parts == [] then []
    else
      var init := KeptSections(parts[..|parts| - 1]);
      var section := Strip(parts[|parts| - 1]);
      if section != [] then init + [section] else init
  }

  lemma KeptSectionsStep(parts: seq<string>, j: nat)
    requires j < |parts|
    ensures KeptSections(parts[..j + 1])
         == KeptSections(parts[..j]) + (if Strip(parts[j]) != [] then [Strip(parts[j])] else [])
  {
    assert parts[..j + 1][..j] == parts[..j];
  }

  /** A section is kept exactly when it is a part, stripped, and not empty. */
  lemma {:induction false} KeptSectionsAre(parts: seq<string>, s: string)
    ensures s in KeptSections(parts) <==>
      exists j | 0 <= j < |parts| :: Strip(parts[j]) != [] && s == Strip(parts[j])
  {
    if parts != [] {
      var init := parts[..|parts| - 1];
      KeptSectionsAre(init, s);
      assert forall j | 0 <= j < |init| :: init[j] == parts[j];
    }
  }

  /** The sections of one item: the kept parts of a description with '/',
      else the whole description as it is. */
  function ItemSections(item: Item): seq<string> {
    var desc := DescriptionOf(item);
    if '/' in desc then KeptSections(SplitOn(desc, '/')) else [desc]
  }

  /** One line per section, in order. */
  function LinesFor(sections: seq<string>, display: string): (r: seq<Line>)
    ensures |r| == |sections|
  {
    seq(|sections|, i requires 0 <= i < |sections| => LineFor(sections[i], display))
  }

  lemma LinesForAppend(sections: seq<string>, s: string, display: string)
    ensures LinesFor(sections + [s], display) == LinesFor(sections, display) + [LineFor(s, display)]
  {
    var a := LinesFor(sections + [s], display);
    var b := LinesFor(sections, display) + [LineFor(s, display)];
    assert forall i | 0 <= i < |a| :: a[i] == b[i];
  }

  /** The lines of one item. */
  function ItemLines(item: Item): seq<Line> {
    LinesFor(ItemSections(item), PriceShown(item))
  }

  /** The lines of each item, item by item. */
  function LinesOfItems(items: seq<Item>): (r: seq<seq<Line>>)
    ensures |r| == |items|
  {
    seq(|items|, i requires 0 <= i < |items| => ItemLines(items[i]))
  }

  /** The lines of all items, in order. */
  function AllLines(items: seq<Item>): seq<Line> {
    Flatten(LinesOfItems(items))
  }

  lemma AllLinesStep(items: seq<Item>, i: nat)
    requires i < |items|
    ensures AllLines(items[..i + 1]) == AllLines(items[..i]) + ItemLines(items[i])
  {
    assert LinesOfItems(items[..i + 1]) == LinesOfItems(items[..i]) + [ItemLines(items[i])];
    FlattenAppend(LinesOfItems(items[..i]), ItemLines(items[i]));
  }

  /** The lines for some sections are the lines of those sections, no others. */
  lemma LinesForAre(sections: seq<string>, display: string, l: Line)
    ensures l in LinesFor(sections, display) <==> exists s | s in sections :: l == LineFor(s, display)
  {
    var lines := LinesFor(sections, display);
    if l in lines {
      var i :| 0 <= i < |lines| && lines[i] == l;
      assert sections[i] in sections;
    }
    if exists s | s in sections :: l == LineFor(s, display) {
      var s :| s in sections && l == LineFor(s, display);
      var i :| 0 <= i < |sections| && sections[i] == s;
      assert lines[i] == l;
    }
  }

  /** A line belongs to an item exactly when it is one of the item's sections
      followed by the item's shown price; a section is never empty when the
      description was split at '/'. */
  lemma ItemLinesAre(item: Item, l: Line)
    ensures l in ItemLines(item) <==>
      exists s | s in ItemSections(item) :: l == LineFor(s, PriceShown(item))
    ensures forall s | s in ItemSections(item) && '/' in DescriptionOf(item) :: s != []
  {
    LinesForAre(ItemSections(item), PriceShown(item), l);
  }

  /** Every line of an item shows the item's price and sorts by it. */
  lemma ItemLinesShowPrice(item: Item, l: Line)
    requires l in ItemLines(item)
    ensures exists s :: l.text == s + " - " + PriceShown(item)
    ensures l.value == ExtractPriceValue(PriceShown(item))
  {
    ItemLinesAre(item, l);
  }

  /** The lines of several items are the lines of each of them. */
  lemma AllLinesAre(items: seq<Item>, l: Line)
    ensures l in AllLines(items) <==> exists i | 0 <= i < |items| :: l in ItemLines(items[i])
  {
    var xss := LinesOfItems(items);
    FlattenHas(xss, l);
    if exists i | 0 <= i < |items| :: l in ItemLines(items[i]) {
      var i :| 0 <= i < |items| && l in ItemLines(items[i]);
      assert l in xss[i];
    }
  }

  /** The inner loop over the sections of one description. */
  method AppendSections(lines: seq<Line>, parts: seq<string>, display: string) returns (out: seq<Line>)
    ensures out == lines + LinesFor(KeptSections(parts), display)
  {
    out := lines;
    for j := 0 to |parts|
      invariant out == lines + LinesFor(KeptSections(parts[..j]), display)
    {
      KeptSectionsStep(parts, j);
      var section := Strip(parts[j]);
      if section != [] {
        LinesForAppend(KeptSections(parts[..j]), section, display);
        out := out + [LineFor(section, display)];
      }
    }
    assert parts[..|parts|] == parts;
  }

  /** The collecting loop over the items. */
  method CollectLines(items: seq<Item>) returns (lines: seq<Line>)
    ensures lines == AllLines(items)
  {
    lines := [];
    for i := 0 to |items|
      invariant lines == AllLines(items[..i])
    {
      AllLinesStep(items, i);
      var desc := DescriptionOf(items[i]);
      var display := PriceShown(items[i]);
      if '/' in desc {
        lines := AppendSections(lines, SplitOn(desc, '/'), display);
      } else {
        LinesForAppend([], desc, display);
        lines := lines + [LineFor(desc, display)];
      }
    }
    assert items[..|items|] == items;
  }

  // ---------------------------------------------------------------------
  // Removing repeated lines
  // ---------------------------------------------------------------------

  function TextsOf(lines: seq<Line>): set<string> {
    set l | l in lines :: l.text
  }

  lemma TextsOfAppend(lines: seq<Line>, l: Line)
    ensures TextsOf(lines + [l]) == TextsOf(lines) + {l.text}
  {
    var a := lines + [l];
    forall t | t in TextsOf(a)
      ensures t in TextsOf(lines) + {l.text}
    {
      var m :| m in a && m.text == t;
      if m != l {
        assert m in lines;
      }
    }
    assert l in a;
  }

  /** The lines whose text has not been seen before, in order. */
  function Dedupe(lines: seq<Line>): (r: seq<Line>)
    ensures TextsOf(r) == TextsOf(lines)
    ensures forall i, j | 0 <= i < j < |r| :: r[i].text != r[j].text
    ensures forall l | l in r :: l in lines
  {
    if lines == [] then []
    else
      var init := lines[..|lines| - 1];
      var last := lines[|lines| - 1];
      var d := Dedupe(init);
      assert lines == init + [last];
      TextsOfAppend(init, last);
      TextsOfAppend(d, last);
      if last.text in TextsOf(init) then d else d + [last]
  }

  /** The first line with a given text is the one kept. */
  lemma {:induction false} DedupeKeepsFirst(lines: seq<Line>, i: nat)
    requires i < |lines| && forall j | 0 <= j < i :: lines[j].text != lines[i].text
    ensures lines[i] in Dedupe(lines)
  {
    var init := lines[..|lines| - 1];
    if i < |init| {
      assert init[i] == lines[i];
      DedupeKeepsFirst(init, i);
    } else {
      assert lines[i].text !in TextsOf(init) by {
        forall l | l in init
          ensures l.text != lines[i].text
        {
          var j :| 0 <= j < |init| && init[j] == l;
          assert lines[j] == l;
        }
      }
    }
  }

  /** One more line: kept exactly when its text is new. */
  lemma DedupeStep(lines: seq<Line>, i: nat)
    requires i < |lines|
    ensures TextsOf(lines[..i + 1]) == TextsOf(lines[..i]) + {lines[i].text}
    ensures Dedupe(lines[..i + 1])
         == Dedupe(lines[..i]) + (if lines[i].text in TextsOf(lines[..i]) then [] else [lines[i]])
  {
    assert lines[..i + 1][..i] == lines[..i];
    assert lines[..i + 1] == lines[..i] + [lines[i]];
    TextsOfAppend(lines[..i], lines[i]);
  }

  /** The loop with the `seen_lines` set. */
  method DedupeLines(lines: seq<Line>) returns (out: seq<Line>)
    ensures out == Dedupe(lines)
  {
    var seen: set<string> := {};
    out := [];
    for i := 0 to |lines|
      invariant seen == TextsOf(lines[..i])
      invariant out == Dedupe(lines[..i])
    {
      DedupeStep(lines, i);
      if lines[i].text !in seen {
        seen := seen + {lines[i].text};
        out := out + [lines[i]];
      }
    }
    assert lines[..|lines|] == lines;
  }

  // ---------------------------------------------------------------------
  // Sorting
  // ---------------------------------------------------------------------

  /** Python's `<` on strings: code point by code point, a proper prefix first. */
  predicate TextBelow(a: string, b: string) {
    if a == [] then b != []
    else if b == [] then false
    else if a[0] != b[0] then a[0] < b[0]
    else TextBelow(a[1..], b[1..])
  }

  lemma {:induction false} TextBelowIrreflexive(a: string)
    ensures !TextBelow(a, a)
  {
    if a != [] {
      TextBelowIrreflexive(a[1..]);
    }
  }

  lemma {:induction false} TextBelowAsymmetric(a: string, b: string)
    requires TextBelow(a, b)
    ensures !TextBelow(b, a)
  {
    if a != [] && b != [] && a[0] == b[0] {
      TextBelowAsymmetric(a[1..], b[1..]);
    }
  }

  lemma {:induction false} TextBelowTransitive(a: string, b: string, c: string)
    requires TextBelow(a, b) && TextBelow(b, c)
    ensures TextBelow(a, c)
  {
    if a != [] && b != [] && c != [] && a[0] == b[0] && b[0] == c[0] {
      TextBelowTransitive(a[1..], b[1..], c[1..]);
    }
  }

  /** Two different texts are ordered one way or the other. */
  lemma {:induction false} TextBelowTotal(a: string, b: string)
    requires a != b
    ensures TextBelow(a, b) || TextBelow(b, a)
  {
    if a != [] && b != [] && a[0] == b[0] {
      assert a == [a[0]] + a[1..] && b == [b[0]] + b[1..];
      TextBelowTotal(a[1..], b[1..]);
    }
  }

  /** The sort key `(rank, -value, text)` of `x` is smaller than that of `y`. */
  predicate Before(x: Line, y: Line) {
    x.rank < y.rank
    || (x.rank == y.rank && (x.value > y.value || (x.value == y.value && TextBelow(x.text, y.text))))
  }

  lemma BeforeAsymmetric(x: Line, y: Line)
    requires Before(x, y)
    ensures !Before(y, x) && x != y
  {
    if x.rank == y.rank && x.value == y.value {
      TextBelowAsymmetric(x.text, y.text);
      TextBelowIrreflexive(x.text);
    }
  }

  lemma BeforeIrreflexive(x: Line)
    ensures !Before(x, x)
  {
    TextBelowIrreflexive(x.text);
  }

  lemma BeforeTransitive(x: Line, y: Line, z: Line)
    requires Before(x, y) && Before(y, z)
    ensures Before(x, z)
  {
    if x.rank == y.rank == z.rank && x.value == y.value == z.value {
      TextBelowTransitive(x.text, y.text, z.text);
    }
  }

  /** The key determines the line, so two different lines are ordered. */
  lemma BeforeTotal(x: Line, y: Line)
    requires x != y
    ensures Before(x, y) || Before(y, x)
  {
    if x.rank == y.rank && x.value == y.value {
      TextBelowTotal(x.text, y.text);
    }
  }

  /** Each line's key is no greater than the next one's. */
  predicate Sorted(lines: seq<Line>) {
    forall i | 0 <= i < |lines| - 1 :: !Before(lines[i + 1], lines[i])
  }

  /** `x` placed before the first line it does not come after. */
  function Insert(x: Line, lines: seq<Line>): (r: seq<Line>)
    requires Sorted(lines)
    ensures multiset(r) == multiset(lines) + multiset{x}
    ensures Sorted(r)
    ensures |r| == |lines| + 1 && (r[0] == x || (lines != [] && r[0] == lines[0]))
  {
    if lines == [] then [x]
    else if Before(lines[0], x) then
      var rest := Insert(x, lines[1..]);
      assert lines == [lines[0]] + lines[1..];
      BeforeAsymmetric(lines[0], x);
      [lines[0]] + rest
    else [x] + lines
  }

  /** `pricing_lines.sort(key=...)`: the lines in key order. */
  function SortLines(lines: seq<Line>): (r: seq<Line>)
    ensures multiset(r) == multiset(lines)
    ensures Sorted(r)
  {
    if lines == [] then []
    else
      assert lines == [lines[0]] + lines[1..];
      Insert(lines[0], SortLines(lines[1..]))
  }

  /** In a sorted list every line's key is no greater than that of any later line. */
  lemma {:induction false} SortedPairwise(lines: seq<Line>, i: nat, j: nat)
    requires Sorted(lines) && i < j < |lines|
    ensures !Before(lines[j], lines[i])
    decreases j - i
  {
    if i + 1 < j {
      SortedPairwise(lines, i + 1, j);
      if Before(lines[j], lines[i]) {
        if lines[i + 1] == lines[i] {
        } else {
          BeforeTotal(lines[i + 1], lines[i]);
          BeforeTransitive(lines[j], lines[i], lines[i + 1]);
        }
      }
    }
  }

  lemma SortedTail(lines: seq<Line>)
    requires Sorted(lines) && lines != []
    ensures Sorted(lines[1..])
  {
    var t := lines[1..];
    forall i | 0 <= i < |t| - 1
      ensures !Before(t[i + 1], t[i])
    {
      assert t[i] == lines[i + 1] && t[i + 1] == lines[i + 2];
    }
  }

  /** The first line of a sorted list comes after none of its lines. */
  lemma SortedHeadFirst(lines: seq<Line>, y: Line)
    requires Sorted(lines) && y in lines
    ensures !Before(y, lines[0])
  {
    var j :| 0 <= j < |lines| && lines[j] == y;
    if j > 0 {
      SortedPairwise(lines, 0, j);
    } else {
      BeforeIrreflexive(y);
    }
  }

  /** Two sorted lists of the same lines start with the same line. */
  lemma SortedSameHead(a: seq<Line>, b: seq<Line>)
    requires Sorted(a) && Sorted(b) && multiset(a) == multiset(b) && a != []
    ensures b != [] && a[0] == b[0]
  {
    assert a[0] in multiset(b);
    assert b[0] in multiset(a);
    SortedHeadFirst(a, b[0]);
    SortedHeadFirst(b, a[0]);
    if a[0] != b[0] {
      BeforeTotal(a[0], b[0]);
    }
  }

  lemma SameHeadSameTail(a: seq<Line>, b: seq<Line>)
    requires a != [] && b != [] && a[0] == b[0] && multiset(a) == multiset(b)
    ensures multiset(a[1..]) == multiset(b[1..])
  {
    assert a == [a[0]] + a[1..] && b == [b[0]] + b[1..];
    assert multiset(a[1..]) == multiset(a) - multiset{a[0]};
    assert multiset(b[1..]) == multiset(b) - multiset{b[0]};
  }

  /** A sorted order is unique: any sort of the same lines gives the same
      list, so this insertion sort stands for Python's `list.sort`. */
  lemma {:induction false} SortedUnique(a: seq<Line>, b: seq<Line>)
    requires Sorted(a) && Sorted(b) && multiset(a) == multiset(b)
    ensures a == b
  {
    if a != [] {
      SortedSameHead(a, b);
      SameHeadSameTail(a, b);
      SortedTail(a);
      SortedTail(b);
      SortedUnique(a[1..], b[1..]);
      assert a == [a[0]] + a[1..] && b == [b[0]] + b[1..];
    } else {
      assert |multiset(b)| == 0;
    }
  }

  // ---------------------------------------------------------------------
  // The block of one date
  // ---------------------------------------------------------------------

  function LineTexts(lines: seq<Line>): (r: seq<string>)
    ensures |r| == |lines|
  {
    seq(|lines|, i requires 0 <= i < |lines| => lines[i].text)
  }

  /** The lines of a block: collected, repeated texts dropped, sorted. */
  function BlockLines(items: seq<Item>): seq<Line> {
    SortLines(Dedupe(AllLines(items)))
  }

  /** The text of one date's block: the header, then one price line per row. */
  function GroupText(dateTime: string, items: seq<Item>, showTitle: string): string {
    JoinWith([Header(dateTime, showTitle)] + LineTexts(BlockLines(items)), "\n")
  }

  lemma TextsOfPermutation(a: seq<Line>, b: seq<Line>)
    requires multiset(a) == multiset(b)
    ensures TextsOf(a) == TextsOf(b)
  {
    forall l | l in a
      ensures l in b
    {
      assert l in multiset(a);
    }
    forall l | l in b
      ensures l in a
    {
      assert l in multiset(b);
    }
  }

  lemma LineTextsAreTexts(lines: seq<Line>, t: string)
    ensures t in LineTexts(lines) <==> t in TextsOf(lines)
  {
    if t in TextsOf(lines) {
      var l :| l in lines && l.text == t;
      var i :| 0 <= i < |lines| && lines[i] == l;
      assert LineTexts(lines)[i] == t;
    }
  }

  /** The block shows the same texts as the collected lines. */
  lemma BlockKeepsTexts(items: seq<Item>)
    ensures TextsOf(BlockLines(items)) == TextsOf(AllLines(items))
  {
    TextsOfPermutation(BlockLines(items), Dedupe(AllLines(items)));
  }

  /** Every line of the block is the line of some section of some item. */
  lemma BlockLinesFrom(items: seq<Item>, l: Line)
    requires l in BlockLines(items)
    ensures exists i, s | 0 <= i < |items| && s in ItemSections(items[i]) :: l == LineFor(s, PriceShown(items[i]))
  {
    var d := Dedupe(AllLines(items));
    assert l in multiset(d);
    AllLinesAre(items, l);
    var i :| 0 <= i < |items| && l in ItemLines(items[i]);
    ItemLinesAre(items[i], l);
  }

  /** Every section of every item has its text in the block. */
  lemma BlockTextsComplete(items: seq<Item>, i: nat, s: string)
    requires i < |items| && s in ItemSections(items[i])
    ensures s + " - " + PriceShown(items[i]) in LineTexts(BlockLines(items))
  {
    var l := LineFor(s, PriceShown(items[i]));
    ItemLinesAre(items[i], l);
    AllLinesAre(items, l);
    assert l.text in TextsOf(AllLines(items));
    BlockKeepsTexts(items);
    LineTextsAreTexts(BlockLines(items), l.text);
  }

  /** A line that occurs once in a list occurs at one position. */
  lemma OncePositions(lines: seq<Line>, i: nat, j: nat)
    requires i < j < |lines| && multiset(lines)[lines[i]] <= 1
    ensures lines[i] != lines[j]
  {
    assert lines == lines[..j] + lines[j..];
    assert lines[i] in lines[..j];
    assert lines[j] in lines[j..];
    assert multiset(lines) == multiset(lines[..j]) + multiset(lines[j..]);
  }

  /** In a list with distinct texts every line occurs at most once. */
  lemma {:induction false} DistinctTextsOnce(lines: seq<Line>, l: Line)
    requires forall i, j | 0 <= i < j < |lines| :: lines[i].text != lines[j].text
    ensures multiset(lines)[l] <= 1
  {
    if lines != [] {
      var init := lines[..|lines| - 1];
      var last := lines[|lines| - 1];
      DistinctTextsOnce(init, l);
      assert lines == init + [last];
      assert forall k | 0 <= k < |init| :: init[k] != last by {
        assert forall k | 0 <= k < |init| :: init[k].text == lines[k].text != last.text;
      }
      assert last !in init;
    }
  }

  /** In a list with distinct texts, different lines have different texts. */
  lemma DistinctTextsApart(lines: seq<Line>, x: Line, y: Line)
    requires forall i, j | 0 <= i < j < |lines| :: lines[i].text != lines[j].text
    requires x in lines && y in lines && x != y
    ensures x.text != y.text
  {
    var p :| 0 <= p < |lines| && lines[p] == x;
    var q :| 0 <= q < |lines| && lines[q] == y;
    assert p != q;
  }

  /** No text appears twice in a block. */
  lemma BlockTextsDistinct(items: seq<Item>)
    ensures forall i, j | 0 <= i < j < |BlockLines(items)| :: LineTexts(BlockLines(items))[i] != LineTexts(BlockLines(items))[j]
  {
    var d := Dedupe(AllLines(items));
    var b := BlockLines(items);
    forall i, j | 0 <= i < j < |b|
      ensures b[i].text != b[j].text
    {
      DistinctTextsOnce(d, b[i]);
      OncePositions(b, i, j);
      assert b[i] in multiset(d) && b[j] in multiset(d);
      DistinctTextsApart(d, b[i], b[j]);
    }
  }

  /** The block is in strict key order: by seating group, then from the highest
      price down, then by text. */
  lemma BlockOrder(items: seq<Item>, i: nat, j: nat)
    requires i < j < |BlockLines(items)|
    ensures Before(BlockLines(items)[i], BlockLines(items)[j])
    ensures BlockLines(items)[i].rank <= BlockLines(items)[j].rank
    ensures BlockLines(items)[i].rank == BlockLines(items)[j].rank
            ==> BlockLines(items)[i].value >= BlockLines(items)[j].value
  {
    var b := BlockLines(items);
    SortedPairwise(b, i, j);
    DistinctTextsOnce(Dedupe(AllLines(items)), b[i]);
    OncePositions(b, i, j);
    BeforeTotal(b[i], b[j]);
  }

  /** Split into lines, a block is the header's lines, the last of them the
      blank line its final newline leaves, then the price lines, provided no
      price line holds a newline itself. */
  lemma GroupTextLayout(dateTime: string, items: seq<Item>, showTitle: string)
    requires forall l | l in BlockLines(items) :: '\n' !in l.text
    ensures SplitOn(GroupText(dateTime, items, showTitle), '\n')
         == SplitOn(Header(dateTime, showTitle), '\n') + LineTexts(BlockLines(items))
    ensures var hs := SplitOn(Header(dateTime, showTitle), '\n'); hs[|hs| - 1] == []
  {
    LayoutOf(Header(dateTime, showTitle), BlockLines(items));
    HeaderLastLineEmpty(dateTime, showTitle);
  }

  /** Any first line followed by newline-free lines splits back into its own
      lines and those lines. */
  lemma LayoutOf(h: string, lines: seq<Line>)
    requires forall l | l in lines :: '\n' !in l.text
    ensures SplitOn(JoinWith([h] + LineTexts(lines), "\n"), '\n') == SplitOn(h, '\n') + LineTexts(lines)
  {
    forall k | 0 <= k < |lines| ensures '\n' !in LineTexts(lines)[k] {
      assert lines[k] in lines;
    }
    SplitJoinAfter(h, LineTexts(lines), '\n');
  }

  // ---------------------------------------------------------------------
  // format_pricing_by_date
  // ---------------------------------------------------------------------

  /** `text_lines`: the header, then the text of each line in order. */
  method TextLines(header: string, lines: seq<Line>) returns (textLines: seq<string>)
    ensures textLines == [header] + LineTexts(lines)
  {
    textLines := [header];
    for k := 0 to |lines|
      invariant textLines == [header] + LineTexts(lines[..k])
    {
      assert LineTexts(lines[..k + 1]) == LineTexts(lines[..k]) + [lines[k].text];
      textLines := textLines + [lines[k].text];
    }
    assert lines[..|lines|] == lines;
  }

  /** The body of the loop over the date groups: one block of text. */
  method FormatBlock(dateTime: string, items: seq<Item>, showTitle: string) returns (text: string)
    ensures text == GroupText(dateTime, items, showTitle)
  {
    var header := Header(dateTime, showTitle);
    var lines := CollectLines(items);
    lines := DedupeLines(lines);
    lines := SortLines(lines);
    var textLines := TextLines(header, lines);
    text := JoinWith(textLines, "\n");
  }

  /** The loop over the date groups: a block of text per date. */
  method FormatGroups(keys: seq<string>, groups: map<string, seq<Item>>, showTitle: string)
    returns (formatted: map<string, string>)
    requires forall d | d in keys :: d in groups
    ensures forall d :: d in formatted <==> d in keys
    ensures forall d | d in formatted :: formatted[d] == GroupText(d, groups[d], showTitle)
  {
    ghost var textOf := d => if d in groups then GroupText(d, groups[d], showTitle) else "";
    formatted := map[];
    for k := 0 to |keys|
      invariant formatted == MapOver(keys[..k], textOf)
    {
      var d := keys[k];
      var text := FormatBlock(d, groups[d], showTitle);
      MapOverStep(keys, k, textOf);
      formatted := formatted[d := text];
    }
    assert keys[..|keys|] == keys;
    MapOverIs(keys, textOf);
  }

  /** `format_pricing_by_date`: the dates in first-appearance order and, for
      each, the text of its block. */
  method FormatPricingByDate(items: seq<Item>, showTitle: string)
    returns (keys: seq<string>, formatted: map<string, string>)
    ensures keys == DateKeys(items)
    ensures forall d :: d in formatted <==> d in keys
    ensures forall d | d in formatted :: formatted[d] == GroupText(d, ItemsOn(items, d), showTitle)
  {
    if items == [] {
      return [], map[];
    }
    var groups;
    keys, groups := GroupByDate(items);
    formatted := FormatGroups(keys, groups, showTitle);
  }
}
