/** The price-text helpers and the seating-category classifier of the
    pricing display (app.py): `normalize_price_display`,
    `extract_price_value` and `_categorize`. Prices are read as exact
    rationals (`real`), not as binary floating point. */
module Prices {
  import opened Basics
  import opened Text

  // ---------------------------------------------------------------------
  // normalize_price_display
  // ---------------------------------------------------------------------

  /** A `.00` that the display normaliser deletes starts at `i` of `s`: it
      directly follows a digit and no digit follows it (the look-behind and
      look-ahead of the substitution pattern, both read on the original text). */
  predicate DotZeroZeroAt(s: string, i: int) {
    1 <= i && i + 3 <= |s| && IsDigit(s[i - 1]) && s[i] == '.' && s[i + 1] == '0' && s[i + 2] == '0'
    && (i + 3 == |s| || !IsDigit(s[i + 3]))
  }

  /** The left-to-right substitution of every such `.00` by nothing, from position `i` on. */
  function DropDotZeroZero(s: string, i: nat): string
    requires i <= |s|
    decreases |s| - i
  {
    if i == |s| then []
    else if DotZeroZeroAt(s, i) then DropDotZeroZero(s, i + 3)
    else [s[i]] + DropDotZeroZero(s, i + 1)
  }

  /** `normalize_price_display` on a string: strip, then delete each `.00` that follows a digit
      and is not followed by one. */
  function NormalizePriceDisplay(price: string): string {
    DropDotZeroZero(Strip(price), 0)
  }

  /** `normalize_price_display` on any JSON scalar: a non-string comes back unchanged. */
  function NormalizePriceValue(v: Value): (r: Value)
    ensures !v.Str? ==> r == v
    ensures v.Str? ==> r.Str? && r.s == NormalizePriceDisplay(v.s)
  {
    if v.Str? then Str(NormalizePriceDisplay(v.s)) else v
  }

  /** What the output starts with: the character at `i`, or a non-digit after a deleted `.00`. */
  lemma {:induction false} DropHead(s: string, i: nat)
    requires i < |s|
    ensures var o := DropDotZeroZero(s, i);
      && (!DotZeroZeroAt(s, i) ==> o != [] && o[0] == s[i])
      && (DotZeroZeroAt(s, i) && o != [] ==> !IsDigit(o[0]))
    decreases |s| - i
  {
    if DotZeroZeroAt(s, i) && i + 3 < |s| && DotZeroZeroAt(s, i + 3) {
      DropHead(s, i + 3);
    }
  }

  /** A removable `.00` starts at `j` of an output `o`, where `prevDigit` says
      whether the character just before `o` is a digit. */
  predicate RemovableAt(o: string, j: nat, prevDigit: bool) {
    && j + 3 <= |o|
    && (if j == 0 then prevDigit else IsDigit(o[j - 1]))
    && o[j] == '.' && o[j + 1] == '0' && o[j + 2] == '0'
    && (j + 3 == |o| || !IsDigit(o[j + 3]))
  }

  /** Whether the character before position `i` of `s` is a digit. */
  predicate PrevDigit(s: string, i: nat) {
    1 <= i <= |s| && IsDigit(s[i - 1])
  }

  lemma RemovableShift(c: char, o: string, j: nat, prevDigit: bool)
    ensures RemovableAt([c] + o, j + 1, prevDigit) <==> RemovableAt(o, j, IsDigit(c))
  {
    var co := [c] + o;
    if j + 3 <= |o| {
      assert co[j + 1] == o[j] && co[j + 2] == o[j + 1] && co[j + 3] == o[j + 2];
      assert j + 3 < |o| ==> co[j + 4] == o[j + 3];
      assert j > 0 ==> co[j] == o[j - 1];
    }
  }

  lemma {:induction false} NoMatchFrom(s: string, i: nat)
    requires i <= |s|
    ensures forall j: nat :: !RemovableAt(DropDotZeroZero(s, i), j, PrevDigit(s, i))
    decreases |s| - i
  {
    if i < |s| {
      if DotZeroZeroAt(s, i) {
        NoMatchFrom(s, i + 3);
        assert PrevDigit(s, i + 3) == PrevDigit(s, i);
      } else {
        var o := DropDotZeroZero(s, i);
        var o' := DropDotZeroZero(s, i + 1);
        assert o == [s[i]] + o';
        NoMatchFrom(s, i + 1);
        assert PrevDigit(s, i + 1) == IsDigit(s[i]);
        forall j: nat ensures !RemovableAt(o, j, PrevDigit(s, i)) {
          if j == 0 {
            FirstIsNotMatch(s, i);
          } else {
            RemovableShift(s[i], o', j - 1, PrevDigit(s, i));
          }
        }
      }
    }
  }

  /** The output from a non-matching position `i` cannot begin with a `.00`
      that a digit before `i` would make removable. */
  lemma {:induction false} FirstIsNotMatch(s: string, i: nat)
    requires i < |s| && !DotZeroZeroAt(s, i)
    ensures !RemovableAt(DropDotZeroZero(s, i), 0, PrevDigit(s, i))
  {
    var o := DropDotZeroZero(s, i);
    DropHead(s, i);
    assert o == [s[i]] + DropDotZeroZero(s, i + 1);
    if i + 1 < |s| {
      DropHead(s, i + 1);
      assert !DotZeroZeroAt(s, i + 1) ==> DropDotZeroZero(s, i + 1) == [s[i + 1]] + DropDotZeroZero(s, i + 2);
    }
    if i + 2 < |s| {
      DropHead(s, i + 2);
      assert !DotZeroZeroAt(s, i + 2) ==> DropDotZeroZero(s, i + 2) == [s[i + 2]] + DropDotZeroZero(s, i + 3);
    }
    if i + 3 < |s| {
      DropHead(s, i + 3);
    }
  }

  /** The output ends with the text's own last character or with a digit. */
  lemma {:induction false} DropLast(s: string, i: nat)
    requires i <= |s|
    ensures var o := DropDotZeroZero(s, i);
      o != [] ==> o[|o| - 1] == s[|s| - 1] || IsDigit(o[|o| - 1])
    decreases |s| - i
  {
    if i < |s| {
      if DotZeroZeroAt(s, i) {
        DropLast(s, i + 3);
      } else {
        DropLast(s, i + 1);
        if i + 1 < |s| && DropDotZeroZero(s, i + 1) == [] {
          DropHead(s, i + 1);
        }
      }
    }
  }

  /** Text in which the pattern matches nowhere passes through unchanged. */
  lemma {:induction false} DropNothing(s: string, i: nat)
    requires i <= |s|
    requires forall j :: !DotZeroZeroAt(s, j)
    ensures DropDotZeroZero(s, i) == s[i..]
    decreases |s| - i
  {
    if i < |s| {
      DropNothing(s, i + 1);
      assert s[i..] == [s[i]] + s[i + 1..];
    }
  }

  /** A stretch without '.' is copied as it is. */
  lemma {:induction false} DropCopiesNoDot(s: string, i: nat, j: nat)
    requires i <= j <= |s|
    requires forall k | i <= k < j :: s[k] != '.'
    ensures DropDotZeroZero(s, i) == s[i..j] + DropDotZeroZero(s, j)
    decreases j - i
  {
    if i < j {
      assert s[i] != '.';
      assert DropDotZeroZero(s, i) == [s[i]] + DropDotZeroZero(s, i + 1);
      DropCopiesNoDot(s, i + 1, j);
      assert s[i..j] == [s[i]] + s[i + 1..j];
    }
  }

  /** Every removable `.00` is removed: none is left in the displayed price. */
  lemma NormalizeLeavesNoDotZeroZero(price: string)
    ensures forall j :: !DotZeroZeroAt(NormalizePriceDisplay(price), j)
  {
    var o := NormalizePriceDisplay(price);
    NoMatchFrom(Strip(price), 0);
    assert !PrevDigit(Strip(price), 0);
    forall j ensures !DotZeroZeroAt(o, j) {
      if 0 <= j {
        assert DotZeroZeroAt(o, j) ==> RemovableAt(o, j, false);
      }
    }
  }

  /** A price with nothing to remove is only stripped ("$169.50" stays "$169.50"). */
  lemma NormalizeKeepsCleanPrice(price: string)
    requires forall j :: !DotZeroZeroAt(Strip(price), j)
    ensures NormalizePriceDisplay(price) == Strip(price)
  {
    DropNothing(Strip(price), 0);
  }

  /** Normalising twice is normalising once. */
  lemma NormalizeIdempotent(price: string)
    ensures NormalizePriceDisplay(NormalizePriceDisplay(price)) == NormalizePriceDisplay(price)
  {
    var s := Strip(price);
    var o := NormalizePriceDisplay(price);
    NormalizeLeavesNoDotZeroZero(price);
    if o != [] {
      DropHead(s, 0);
      DropLast(s, 0);
    }
    assert IsStripped(o);
    NormalizeKeepsCleanPrice(o);
  }

  /** A normalised cell is settled: a string stays a string with no removable
      `.00` left, normalising it again changes nothing, and any other value
      passes through as it is. */
  lemma NormalizeValueSettled(v: Value)
    ensures var r := NormalizePriceValue(v);
      && (v.Str? <==> r.Str?)
      && (r.Str? ==> forall j :: !DotZeroZeroAt(r.s, j))
      && NormalizePriceValue(r) == r
      && (!v.Str? ==> r == v)
  {
    if v.Str? {
      NormalizeLeavesNoDotZeroZero(v.s);
      NormalizeIdempotent(v.s);
    }
  }

  /** A whole-dollar price loses its `.00`: "$" + digits + ".00" displays as "$" + digits. */
  lemma NormalizeWholeDollars(digits: string)
    requires digits != [] && AllDigits(digits)
    ensures NormalizePriceDisplay("$" + digits + ".00") == "$" + digits
  {
    var s := "$" + digits + ".00";
    assert IsStripped(s);
    var n := |digits| + 1;
    DropCopiesNoDot(s, 0, n);
    assert s[0..n] == "$" + digits;
    assert DotZeroZeroAt(s, n);
  }

  /** Documented example: "$169.00" displays as "$169". */
  lemma NormalizeExampleWhole()
    ensures NormalizePriceDisplay("$169.00") == "$169"
  {
    NormalizeWholeDollars("169");
    assert "$" + "169" + ".00" == "$169.00";
  }

  /** Documented example: "$169.50" is left as it is. */
  lemma NormalizeExampleCents()
    ensures NormalizePriceDisplay("$169.50") == "$169.50"
  {
    var a := "$169.50";
    assert IsStripped(a);
    forall j ensures !DotZeroZeroAt(a, j) {
      assert a[4] == '.' && a[5] == '5';
    }
    NormalizeKeepsCleanPrice(a);
  }

  /** Documented example: both ends of a range lose their `.00`. */
  lemma NormalizeExampleRange()
    ensures NormalizePriceDisplay("$99.00 - $299.00") == "$99 - $299"
  {
    RangeFirstPrice();
    RangeSecondPrice();
    assert IsStripped(RangeExample);
  }

  const RangeExample := "$99.00 - $299.00"

  lemma RangeFirstPrice()
    ensures DropDotZeroZero(RangeExample, 0) == "$99" + DropDotZeroZero(RangeExample, 6)
  {
    DropWholeStep(RangeExample, 0, 3);
    assert RangeExample[0..3] == "$99";
  }

  lemma RangeSecondPrice()
    ensures DropDotZeroZero(RangeExample, 6) == " - $299"
  {
    DropWholeStep(RangeExample, 6, 13);
    assert RangeExample[6..13] == " - $299";
  }

  /** A span without a dot is copied, and the `.00` after it dropped. */
  lemma DropWholeStep(s: string, i: nat, n: nat)
    requires DotZeroZeroAt(s, n)
    requires i <= n && forall k | i <= k < n :: s[k] != '.'
    ensures DropDotZeroZero(s, i) == s[i..n] + DropDotZeroZero(s, n + 3)
  {
    DropCopiesNoDot(s, i, n);
  }

  // ---------------------------------------------------------------------
  // extract_price_value
  // ---------------------------------------------------------------------

  /** Index of the first digit at or after `i`, or `|s|`. */
  function FirstDigit(s: string, i: nat): (r: nat)
    requires i <= |s|
    ensures i <= r <= |s|
    ensures r < |s| ==> IsDigit(s[r])
    ensures forall k | i <= k < r :: !IsDigit(s[k])
    decreases |s| - i
  {
    if i == |s| || IsDigit(s[i]) then i else FirstDigit(s, i + 1)
  }

  /** End of the run of digits that starts at `i`. */
  function DigitRun(s: string, i: nat): (r: nat)
    requires i <= |s|
    ensures i <= r <= |s|
    ensures AllDigits(s[i..r])
    ensures r < |s| ==> !IsDigit(s[r])
    decreases |s| - i
  {
    if i == |s| || !IsDigit(s[i]) then i else DigitRun(s, i + 1)
  }

  /** The decimal number `whole.fraction`, read exactly. */
  function DecimalValue(whole: string, fraction: string): (v: real)
    requires AllDigits(whole) && AllDigits(fraction)
    ensures v >= 0.0
  {
    var f := DigitsValue(fraction) as real / Pow10(|fraction|) as real;
    assert f >= 0.0;
    DigitsValue(whole) as real + f
  }

  /** The first match of `[\d,]+\.?\d*` in a text without commas, read as a number;
      0 when the text has no digit. */
  function LeadingNumber(t: string): (v: real)
    ensures v >= 0.0
    ensures NoDigit(t) ==> v == 0.0
  {
    var p := FirstDigit(t, 0);
    if p == |t| then 0.0
    else
      var q := DigitRun(t, p);
      if q < |t| && t[q] == '.' then
        var e := DigitRun(t, q + 1);
        DecimalValue(t[p..q], t[q + 1..e])
      else DecimalValue(t[p..q], [])
  }

  /** `extract_price_value`: drop every '$' and ',', then read the first number; 0 when
      the text has no digit at all. */
  function ExtractPriceValue(price: string): (v: real)
    ensures v >= 0.0
    ensures NoDigit(price) ==> v == 0.0
  {
    CleaningAddsNoDigit(price);
    LeadingNumber(Without(Without(price, '$'), ','))
  }

  lemma CleaningAddsNoDigit(price: string)
    ensures NoDigit(price) ==> NoDigit(Without(Without(price, '$'), ','))
  {
    if NoDigit(price) {
      WithoutNoDigits(price, '$');
      WithoutNoDigits(Without(price, '$'), ',');
    }
  }

  /** Removing a character drops one occurrence of it between two stretches free of it. */
  lemma WithoutBetween(a: string, c: char, b: string)
    requires c !in a && c !in b
    ensures Without(a + [c] + b, c) == a + b
  {
    WithoutAppend(a + [c], b, c);
    WithoutAppend(a, [c], c);
    WithoutAbsent(a, c);
    WithoutAbsent(b, c);
    assert Without([c], c) == [] + Without([], c);
    assert Without(a + [c], c) == a;
  }

  lemma DigitsHaveNoSign(d: string)
    requires AllDigits(d)
    ensures '$' !in d && ',' !in d && '.' !in d
  {
    forall k | 0 <= k < |d| ensures d[k] != '$' && d[k] != ',' && d[k] != '.' {
      assert IsDigit(d[k]);
    }
  }

  lemma {:induction false} DigitRunEnds(s: string, i: nat, j: nat)
    requires i <= j <= |s|
    requires AllDigits(s[i..j])
    requires j == |s| || !IsDigit(s[j])
    ensures DigitRun(s, i) == j
    decreases j - i
  {
    if i < j {
      assert IsDigit(s[i..j][0]);
      assert s[i + 1..j] == s[i..j][1..];
      DigitRunEnds(s, i + 1, j);
    }
  }

  /** Removing '$' and then ',' from "$" + x leaves x when x has neither. */
  lemma CleanDollar(x: string)
    requires '$' !in x && ',' !in x
    ensures Without(Without("$" + x, '$'), ',') == x
  {
    WithoutAppend("$", x, '$');
    assert Without("$", '$') == [];
    WithoutAbsent(x, '$');
    assert Without("$" + x, '$') == x;
    WithoutAbsent(x, ',');
  }

  /** A string of digits reads as its whole-number value. */
  lemma LeadingWhole(whole: string)
    requires whole != [] && AllDigits(whole)
    ensures LeadingNumber(whole) == DigitsValue(whole) as real
  {
    assert IsDigit(whole[0]);
    var p := FirstDigit(whole, 0);
    assert p == 0;
    assert whole[0..|whole|] == whole;
    DigitRunEnds(whole, 0, |whole|);
    assert whole[p..|whole|] == whole;
    NoFraction(whole);
  }

  lemma NoFraction(whole: string)
    requires AllDigits(whole)
    ensures DecimalValue(whole, []) == DigitsValue(whole) as real
  {
    assert DigitsValue([]) == 0;
    assert Pow10(0) == 1;
  }

  /** Digits, a point and digits read as that decimal. */
  lemma LeadingDecimal(whole: string, fraction: string)
    requires whole != [] && AllDigits(whole) && AllDigits(fraction)
    ensures LeadingNumber(whole + "." + fraction) == DecimalValue(whole, fraction)
  {
    var t := whole + "." + fraction;
    assert IsDigit(t[0]);
    assert FirstDigit(t, 0) == 0;
    assert t[0..|whole|] == whole;
    DigitRunEnds(t, 0, |whole|);
    assert t[|whole|] == '.';
    assert t[|whole| + 1..|t|] == fraction;
    DigitRunEnds(t, |whole| + 1, |t|);
  }

  /** A price written as "$" + digits is read as the whole number. */
  lemma ExtractWholeDollars(whole: string)
    requires whole != [] && AllDigits(whole)
    ensures ExtractPriceValue("$" + whole) == DigitsValue(whole) as real
  {
    DigitsHaveNoSign(whole);
    CleanDollar(whole);
    LeadingWhole(whole);
  }

  /** A price written as "$" + digits + "." + digits is read as exactly that decimal. */
  lemma ExtractDollarsAndCents(whole: string, fraction: string)
    requires whole != [] && AllDigits(whole) && AllDigits(fraction)
    ensures ExtractPriceValue("$" + whole + "." + fraction) == DecimalValue(whole, fraction)
  {
    var t := whole + "." + fraction;
    DigitsHaveNoSign(whole);
    DigitsHaveNoSign(fraction);
    assert '$' !in t && ',' !in t by {
      assert forall c | c in t :: c in whole || c == '.' || c in fraction;
    }
    assert "$" + whole + "." + fraction == "$" + t;
    CleanDollar(t);
    LeadingDecimal(whole, fraction);
  }

  /** A thousands separator is ignored: "$" + a + "," + b + "." + f reads as the decimal
      whose whole part is the digits of a followed by those of b. */
  lemma ExtractThousands(a: string, b: string, f: string)
    requires a != [] && AllDigits(a) && AllDigits(b) && AllDigits(f)
    ensures ExtractPriceValue("$" + a + "," + b + "." + f) == DecimalValue(a + b, f)
  {
    DigitsHaveNoSign(a);
    DigitsHaveNoSign(b);
    DigitsHaveNoSign(f);
    var tail := b + "." + f;
    assert '$' !in tail && ',' !in tail by {
      assert forall c | c in tail :: c in b || c == '.' || c in f;
    }
    var s := "$" + a + "," + b + "." + f;
    assert s == [] + ['$'] + (a + [','] + tail);
    assert '$' !in a + [','] + tail by {
      assert forall c | c in a + [','] + tail :: c in a || c == ',' || c in tail;
    }
    WithoutBetween([], '$', a + [','] + tail);
    assert [] + (a + [','] + tail) == a + [','] + tail;
    WithoutBetween(a, ',', tail);
    assert a + tail == (a + b) + "." + f;
    assert AllDigits(a + b) by {
      forall k | 0 <= k < |a + b| ensures IsDigit((a + b)[k]) {
        if k < |a| { assert (a + b)[k] == a[k]; } else { assert (a + b)[k] == b[k - |a|]; }
      }
    }
    LeadingDecimal(a + b, f);
  }

  /** `FirstDigit` skips a stretch without digits up to the digit at `j`. */
  lemma {:induction false} FirstDigitAt(s: string, i: nat, j: nat)
    requires i <= j < |s| && IsDigit(s[j])
    requires forall k | i <= k < j :: !IsDigit(s[k])
    ensures FirstDigit(s, i) == j
    decreases j - i
  {
    if i < j {
      FirstDigitAt(s, i + 1, j);
    }
  }

  /** The first number wins: after a stretch without digits, a run of digits that
      is followed by neither a digit nor a point reads as its whole value, whatever
      comes after it. */
  lemma LeadingNumberFirst(pre: string, w: string, post: string)
    requires NoDigit(pre) && w != [] && AllDigits(w)
    requires post == [] || (!IsDigit(post[0]) && post[0] != '.')
    ensures LeadingNumber(pre + w + post) == DigitsValue(w) as real
  {
    var t := pre + w + post;
    var q := |pre| + |w|;
    assert t[|pre|] == w[0];
    assert forall k | 0 <= k < |pre| :: t[k] == pre[k];
    FirstDigitAt(t, 0, |pre|);
    assert t[|pre|..q] == w;
    assert q < |t| ==> t[q] == post[0];
    DigitRunEnds(t, |pre|, q);
    NoFraction(w);
  }

  /** Reading at known positions: no digit before `p`, digits from `p` to the
      point at `q`, digits from there to `e`, and no digit at `e`. */
  lemma LeadingDecimalAt(t: string, p: nat, q: nat, e: nat)
    requires p < q < e <= |t| && t[q] == '.'
    requires forall k | 0 <= k < p :: !IsDigit(t[k])
    requires AllDigits(t[p..q]) && AllDigits(t[q + 1..e])
    requires e == |t| || !IsDigit(t[e])
    ensures LeadingNumber(t) == DecimalValue(t[p..q], t[q + 1..e])
  {
    assert IsDigit(t[p..q][0]);
    FirstDigitAt(t, 0, p);
    DigitRunEnds(t, p, q);
    DigitRunEnds(t, q + 1, e);
  }

  /** The first number wins with a fraction too: digits, a point and digits after
      a stretch without digits read as that decimal, whatever follows the last
      digit of the fraction. */
  lemma LeadingDecimalFirst(pre: string, w: string, f: string, post: string)
    requires NoDigit(pre) && w != [] && AllDigits(w) && AllDigits(f)
    requires post == [] || !IsDigit(post[0])
    ensures LeadingNumber(pre + (w + "." + f) + post) == DecimalValue(w, f)
  {
    var tail := f + post;
    var t := pre + w + (['.'] + tail);
    assert pre + (w + "." + f) + post == t;
    var q := |pre| + |w|;
    var e := q + 1 + |f|;
    assert forall k | 0 <= k < |pre| :: t[k] == pre[k];
    assert t[|pre|..q] == w;
    assert t[q] == '.';
    assert t[q + 1..] == tail;
    assert t[q + 1..e] == f by {
      assert t[q + 1..e] == tail[..|f|];
    }
    assert e < |t| ==> t[e] == post[0] by {
      assert e < |t| ==> t[e] == tail[|f|];
    }
    LeadingDecimalAt(t, |pre|, q, e);
  }

  /** Removing '$' and then ',' works piecewise around a middle that has neither. */
  lemma CleanAround(pre: string, mid: string, post: string)
    requires '$' !in mid && ',' !in mid
    ensures Without(Without(pre + mid + post, '$'), ',')
         == Without(Without(pre, '$'), ',') + mid + Without(Without(post, '$'), ',')
  {
    WithoutAppend(pre + mid, post, '$');
    WithoutAppend(pre, mid, '$');
    WithoutAbsent(mid, '$');
    WithoutAppend(Without(pre, '$') + mid, Without(post, '$'), ',');
    WithoutAppend(Without(pre, '$'), mid, ',');
    WithoutAbsent(mid, ',');
  }

  /** A text that starts with neither '$' nor ',' keeps its first character when
      both are removed. */
  lemma CleanKeepsHead(post: string)
    requires post != [] && post[0] != '$' && post[0] != ','
    ensures var c := Without(Without(post, '$'), ',');
      c != [] && c[0] == post[0]
  {
    assert Without(post, '$') == [post[0]] + Without(post[1..], '$');
    var d := Without(post, '$');
    assert d[1..] == Without(post[1..], '$');
  }

  /** Cleaning a price around a middle without '$' or ',': the prefix stays
      without digits, the middle is untouched, and the rest keeps its first
      character unless that is removed. */
  lemma CleanPrice(pre: string, mid: string, post: string)
    requires NoDigit(pre) && '$' !in mid && ',' !in mid
    ensures var cpre := Without(Without(pre, '$'), ',');
      var cpost := Without(Without(post, '$'), ',');
      && ExtractPriceValue(pre + mid + post) == LeadingNumber(cpre + mid + cpost)
      && NoDigit(cpre)
      && (post == [] ==> cpost == [])
      && (post != [] && post[0] != '$' && post[0] != ',' ==> cpost != [] && cpost[0] == post[0])
  {
    CleanAround(pre, mid, post);
    WithoutNoDigits(pre, '$');
    WithoutNoDigits(Without(pre, '$'), ',');
    if post != [] && post[0] != '$' && post[0] != ',' {
      CleanKeepsHead(post);
    }
  }

  /** A decimal `w.f` holds neither '$' nor ','. */
  lemma DecimalHasNoSign(w: string, f: string)
    requires AllDigits(w) && AllDigits(f)
    ensures '$' !in w + "." + f && ',' !in w + "." + f
  {
    DigitsHaveNoSign(w);
    DigitsHaveNoSign(f);
    assert forall c | c in w + "." + f :: c in w || c == '.' || c in f;
  }

  /** `extract_price_value` reads the first number of the price: a whole number
      after a prefix without digits, followed by anything that does not continue
      it, sorts by that number. "$99 - $299" sorts by 99. */
  lemma ExtractFirstWhole(pre: string, w: string, post: string)
    requires NoDigit(pre) && w != [] && AllDigits(w)
    requires post == [] || !(IsDigit(post[0]) || post[0] in ".$,")
    ensures ExtractPriceValue(pre + w + post) == DigitsValue(w) as real
  {
    DigitsHaveNoSign(w);
    CleanPrice(pre, w, post);
    LeadingNumberFirst(Without(Without(pre, '$'), ','), w, Without(Without(post, '$'), ','));
  }

  /** The same with a fraction: the first `digits.digits` of the price is read as
      that decimal, whatever follows it. */
  lemma ExtractFirstDecimal(pre: string, w: string, f: string, post: string)
    requires NoDigit(pre) && w != [] && AllDigits(w) && AllDigits(f)
    requires post == [] || !(IsDigit(post[0]) || post[0] in "$,")
    ensures ExtractPriceValue(pre + w + "." + f + post) == DecimalValue(w, f)
  {
    var mid := w + "." + f;
    DecimalHasNoSign(w, f);
    assert pre + w + "." + f + post == pre + mid + post;
    CleanPrice(pre, mid, post);
    var cpre := Without(Without(pre, '$'), ',');
    var cpost := Without(Without(post, '$'), ',');
    LeadingDecimalFirst(cpre, w, f, cpost);
  }

  /** The docstring's range "$99.00 - $299.00" is displayed as "$99 - $299" and
      sorts by its first price, 99. */
  lemma RangeSortsByFirstPrice()
    ensures ExtractPriceValue(NormalizePriceDisplay(RangeExample)) == 99.0
  {
    NormalizeExampleRange();
    assert "$99 - $299" == "$" + "99" + " - $299";
    assert DigitsValue("99") == 99 by {
      assert "99"[..1] == "9";
      assert DigitsValue("9") == 9 by { assert "9"[..0] == ""; }
    }
    ExtractFirstWhole("$", "99", " - $299");
  }

  /** Sorting on the displayed price ranks a whole-dollar amount by its value: the `.00`
      removed for display does not change the sort key, which is the amount itself. */
  lemma WholeDollarSortKey(n: nat)
    ensures ExtractPriceValue(NormalizePriceDisplay("$" + NatToDecimal(n) + ".00")) == n as real
  {
    NormalizeWholeDollars(NatToDecimal(n));
    ExtractWholeDollars(NatToDecimal(n));
    DecimalRoundTrip(n);
  }

  // ---------------------------------------------------------------------
  // _categorize
  // ---------------------------------------------------------------------

  /** The seating groups of the display, in the order they are listed. */
  datatype Category = Premium | Orchestra | Mezzanine | Balcony | OtherSeats {
    /** The rank `_categorize` returns; lower ranks are listed first. */
    function Rank(): nat {
      match this
      case Premium => 0
      case Orchestra => 1
      case Mezzanine => 2
      case Balcony => 3
      case OtherSeats => 4
    }

    /** The group name `_categorize` returns beside the rank. */
    function Name(): string {
      match this
      case Premium => "premium"
      case Orchestra => "orchestra"
      case Mezzanine => "mezzanine"
      case Balcony => "balcony"
      case OtherSeats => "other"
    }
  }

  /** The keyword tests of `_categorize`, each with all its alternatives, on lower-cased text. */
  predicate SaysPremium(t: string) {
    Contains(t, "premium") || Contains(t, "mid-premium") || Contains(t, "mid premium")
  }

  predicate SaysOrchestra(t: string) {
    Contains(t, "orchestra") || Contains(t, "orch")
  }

  predicate SaysMezzanine(t: string) {
    Contains(t, "mezzanine") || Contains(t, "mezz")
  }

  predicate SaysBalcony(t: string) {
    Contains(t, "balcony") || Contains(t, "balc")
  }

  /** `_categorize`: case-insensitive keyword tests, the first group that matches wins. */
  function Categorize(section: string): Category {
    var t := Lower(section);
    if SaysPremium(t) then Premium
    else if SaysOrchestra(t) then Orchestra
    else if SaysMezzanine(t) then Mezzanine
    else if SaysBalcony(t) then Balcony
    else OtherSeats
  }

  /** Text that contains `pre + post` contains `post`. */
  lemma ContainsSuffixPart(t: string, pre: string, post: string)
    requires Contains(t, pre + post)
    ensures Contains(t, post)
  {
    ContainsAt(t, pre + post);
    var k :| 0 <= k <= |t| && pre + post <= t[k..];
    assert post <= t[k + |pre|..];
    ContainsAt(t, post);
  }

  /** Text that contains `pre + post` contains `pre`. */
  lemma ContainsPrefixPart(t: string, pre: string, post: string)
    requires Contains(t, pre + post)
    ensures Contains(t, pre)
  {
    ContainsAt(t, pre + post);
    var k :| 0 <= k <= |t| && pre + post <= t[k..];
    assert pre <= t[k..];
    ContainsAt(t, pre);
  }

  /** "mid-premium" and "mid premium" contain "premium", so the premium test is one keyword. */
  lemma PremiumAlternatives(t: string)
    ensures SaysPremium(t) <==> Contains(t, "premium")
  {
    if Contains(t, "mid-premium") {
      assert "mid-premium" == "mid-" + "premium";
      ContainsSuffixPart(t, "mid-", "premium");
    }
    if Contains(t, "mid premium") {
      assert "mid premium" == "mid " + "premium";
      ContainsSuffixPart(t, "mid ", "premium");
    }
  }

  /** "orchestra" contains "orch", so the orchestra test is one keyword. */
  lemma OrchestraAlternatives(t: string)
    ensures SaysOrchestra(t) <==> Contains(t, "orch")
  {
    if Contains(t, "orchestra") {
      assert "orchestra" == "orch" + "estra";
      ContainsPrefixPart(t, "orch", "estra");
    }
  }

  /** "mezzanine" contains "mezz", so the mezzanine test is one keyword. */
  lemma MezzanineAlternatives(t: string)
    ensures SaysMezzanine(t) <==> Contains(t, "mezz")
  {
    if Contains(t, "mezzanine") {
      assert "mezzanine" == "mezz" + "anine";
      ContainsPrefixPart(t, "mezz", "anine");
    }
  }

  /** "balcony" contains "balc", so the balcony test is one keyword. */
  lemma BalconyAlternatives(t: string)
    ensures SaysBalcony(t) <==> Contains(t, "balc")
  {
    if Contains(t, "balcony") {
      assert "balcony" == "balc" + "ony";
      ContainsPrefixPart(t, "balc", "ony");
    }
  }

  /** The classifier is decided by four keywords, tested in priority order on the
      lower-cased label: "premium", then "orch", then "mezz", then "balc"; a label
      with none of them is in the last group. */
  lemma CategorizeByKeyword(section: string)
    ensures var t := Lower(section); var c := Categorize(section);
      && (c == Premium <==> Contains(t, "premium"))
      && (c == Orchestra <==> !Contains(t, "premium") && Contains(t, "orch"))
      && (c == Mezzanine <==> !Contains(t, "premium") && !Contains(t, "orch") && Contains(t, "mezz"))
      && (c == Balcony <==> !Contains(t, "premium") && !Contains(t, "orch") && !Contains(t, "mezz")
                            && Contains(t, "balc"))
      && (c == OtherSeats <==> !Contains(t, "premium") && !Contains(t, "orch") && !Contains(t, "mezz")
                               && !Contains(t, "balc"))
  {
    var t := Lower(section);
    PremiumAlternatives(t);
    OrchestraAlternatives(t);
    MezzanineAlternatives(t);
    BalconyAlternatives(t);
  }

  /** Any mention of a premium tier ranks first, whatever else the label says. */
  lemma PremiumRanksFirst(section: string, other: string)
    requires Contains(Lower(section), "premium")
    ensures Categorize(section) == Premium
    ensures Categorize(section).Rank() <= Categorize(other).Rank()
  {
    PremiumAlternatives(Lower(section));
  }
}
