/** The header line that `format_pricing_by_date` (app.py) puts above each
    showtime's prices. The date-time label of the scraped page is matched
    against the pattern
      ^\s*([A-Za-z]+),\s*([0-9]{1,2}/[0-9]{1,2}/[0-9]{4})\s+([0-9]{1,2}:[0-9]{2}\s*[APMapm]{2})\s*$
    and, when that fails, against the fallback  ^\s*([A-Za-z]+)(.*)$ .
    Both are modelled as deterministic scans over positions of the label;
    `\s` is read as ASCII whitespace. */
module PricingHeader {
  import opened Basics
  import opened Text

  predicate IsMeridiemLetter(c: char) {
    c == 'A' || c == 'P' || c == 'M' || c == 'a' || c == 'p' || c == 'm'
  }

  predicate AllSpace(s: string) {
    forall k | 0 <= k < |s| :: IsSpace(s[k])
  }

  predicate AllLetters(s: string) {
    forall k | 0 <= k < |s| :: IsLetter(s[k])
  }

  /** The groups of a label the main pattern accepts: the day word, the date
      (kept verbatim in the header) and the time. */
  datatype Stamp = Stamp(day: string, date: string, time: string)

  /** Boundaries of the pieces of a label: leading whitespace [0, a), day
      [a, b), comma at b, whitespace [b+1, c), month [c, m), '/' at m, day of
      month [m+1, d), '/' at d, year [d+1, y), whitespace [y, e), hour [e, h),
      ':' at h, minute [h+1, n), whitespace [n, g), meridiem letters at g and
      g+1, trailing whitespace [g+2, |s|). */
  datatype Marks = Marks(a: nat, b: nat, c: nat, m: nat, d: nat, y: nat, e: nat, h: nat, n: nat, g: nat)

  predicate RangeIn(s: string, i: nat, j: nat, cl: CharClass)
    requires i <= j <= |s|
  {
    forall k | i <= k < j :: cl.Has(s[k])
  }

  /** The day word and the whitespace after its comma. */
  predicate DayPart(s: string, k: Marks) {
    && k.a < k.b && k.b + 1 <= k.c <= |s|
    && RangeIn(s, 0, k.a, Spaces)
    && RangeIn(s, k.a, k.b, Letters) && s[k.b] == ','
    && RangeIn(s, k.b + 1, k.c, Spaces)
  }

  /** The date: one or two digits, '/', one or two digits, '/', four digits. */
  predicate DatePart(s: string, k: Marks) {
    && k.c < k.m <= k.c + 2 && k.m + 1 < k.d <= k.m + 3 && k.y == k.d + 5 && k.y <= |s|
    && RangeIn(s, k.c, k.m, Digits) && s[k.m] == '/'
    && RangeIn(s, k.m + 1, k.d, Digits) && s[k.d] == '/'
    && RangeIn(s, k.d + 1, k.y, Digits)
  }

  /** Whitespace, the time `h:mm` or `hh:mm`, optional whitespace, two
      meridiem letters and trailing whitespace. */
  predicate TimePart(s: string, k: Marks) {
    && k.y < k.e < k.h <= k.e + 2 && k.n == k.h + 3 && k.n <= k.g && k.g + 2 <= |s|
    && RangeIn(s, k.y, k.e, Spaces)
    && RangeIn(s, k.e, k.h, Digits) && s[k.h] == ':'
    && RangeIn(s, k.h + 1, k.n, Digits)
    && RangeIn(s, k.n, k.g, Spaces)
    && IsMeridiemLetter(s[k.g]) && IsMeridiemLetter(s[k.g + 1])
    && RangeIn(s, k.g + 2, |s|, Spaces)
  }

  /** The main pattern, read declaratively: `s` is the concatenation the pattern
      describes, with the pieces at the boundaries `k`. */
  predicate Pattern(s: string, k: Marks) {
    DayPart(s, k) && DatePart(s, k) && TimePart(s, k)
  }

  /** The three groups of the pattern at the boundaries `k`. */
  function Groups(s: string, k: Marks): Stamp
    requires k.a <= k.b <= |s| && k.c <= k.d + 5 <= |s| && k.e <= k.g + 2 <= |s|
  {
    Stamp(s[k.a..k.b], s[k.c..k.d + 5], s[k.e..k.g + 2])
  }

  /** Where a left-to-right scan puts the boundaries, each run as long as it
      goes: the day word and the whitespace after its comma, ... */
  function DayScan(s: string): (nat, nat, nat) {
    var a := SpanAt(s, 0, Spaces);
    var b := SpanAt(s, a, Letters);
    (a, b, SpanAt(s, b + 1, Spaces))
  }

  /** ... the three date fields from `c`, ... */
  function DateScan(s: string, c: nat): (nat, nat, nat) {
    var m := SpanAt(s, c, Digits);
    var d := SpanAt(s, m + 1, Digits);
    (m, d, SpanAt(s, d + 1, Digits))
  }

  /** ... and the whitespace, hour, minute and whitespace from `y`. */
  function TimeScan(s: string, y: nat): (nat, nat, nat, nat) {
    var e := SpanAt(s, y, Spaces);
    var h := SpanAt(s, e, Digits);
    var n := SpanAt(s, h + 1, Digits);
    (e, h, n, SpanAt(s, n, Spaces))
  }

  function StampMarks(s: string): Marks {
    var (a, b, c) := DayScan(s);
    var (m, d, y) := DateScan(s, c);
    var (e, h, n, g) := TimeScan(s, y);
    Marks(a, b, c, m, d, y, e, h, n, g)
  }

  /** The tests the pattern makes at the scanned boundaries: field widths,
      separators, and whitespace only after the meridiem. */
  predicate DayFits(s: string, k: Marks) {
    k.a < k.b < |s| && s[k.b] == ','
  }

  predicate DateFits(s: string, k: Marks) {
    && k.c < k.m <= k.c + 2 && k.m < |s| && s[k.m] == '/'
    && k.m + 1 < k.d <= k.m + 3 && k.d < |s| && s[k.d] == '/'
    && k.y == k.d + 5
  }

  predicate TimeFits(s: string, k: Marks) {
    && k.y < k.e && k.e < k.h <= k.e + 2 && k.h < |s| && s[k.h] == ':'
    && k.n == k.h + 3
    && k.g + 2 <= |s| && IsMeridiemLetter(s[k.g]) && IsMeridiemLetter(s[k.g + 1])
    && SpanAt(s, k.g + 2, Spaces) == |s|
  }

  predicate MarksFit(s: string, k: Marks) {
    DayFits(s, k) && DateFits(s, k) && TimeFits(s, k)
  }

  /** `re.match` of the main pattern: the groups it reads, or None. */
  function ParseStamp(s: string): Option<Stamp> {
    var k := StampMarks(s);
    if MarksFit(s, k) then Some(Groups(s, k)) else None
  }

  lemma DayMarks(s: string, k: Marks)
    requires Pattern(s, k)
    ensures DayScan(s) == (k.a, k.b, k.c)
  {
    assert IsDigit(s[k.c]) by {
      assert DatePart(s, k);
    }
    SpanEnds(s, 0, k.a, Spaces);
    SpanEnds(s, k.a, k.b, Letters);
    SpanEnds(s, k.b + 1, k.c, Spaces);
  }

  lemma DateMarks(s: string, k: Marks)
    requires Pattern(s, k)
    ensures DateScan(s, k.c) == (k.m, k.d, k.y)
  {
    assert IsSpace(s[k.y]) by {
      assert TimePart(s, k);
    }
    SpanEnds(s, k.c, k.m, Digits);
    SpanEnds(s, k.m + 1, k.d, Digits);
    SpanEnds(s, k.d + 1, k.y, Digits);
  }

  lemma TimeMarks(s: string, k: Marks)
    requires Pattern(s, k)
    ensures TimeScan(s, k.y) == (k.e, k.h, k.n, k.g)
    ensures SpanAt(s, k.g + 2, Spaces) == |s|
  {
    SpanEnds(s, k.y, k.e, Spaces);
    SpanEnds(s, k.e, k.h, Digits);
    assert !IsDigit(s[k.n]) by {
      assert k.n < k.g ==> IsSpace(s[k.n]);
    }
    SpanEnds(s, k.h + 1, k.n, Digits);
    SpanEnds(s, k.n, k.g, Spaces);
    SpanEnds(s, k.g + 2, |s|, Spaces);
  }

  /** A label of the pattern's form is matched, the scan finds exactly its
      boundaries (so the match is unique), and the groups are the pieces there. */
  lemma ParseStampComplete(s: string, k: Marks)
    requires Pattern(s, k)
    ensures StampMarks(s) == k
    ensures ParseStamp(s) == Some(Groups(s, k))
  {
    DayMarks(s, k);
    DateMarks(s, k);
    TimeMarks(s, k);
    assert k == Marks(k.a, k.b, k.c, k.m, k.d, k.y, k.e, k.h, k.n, k.g);
    assert MarksFit(s, k) by {
      assert DayPart(s, k) && DatePart(s, k) && TimePart(s, k);
    }
  }

  lemma DaySound(s: string, k: Marks)
    requires DayScan(s) == (k.a, k.b, k.c) && DayFits(s, k)
    ensures DayPart(s, k)
  {
    SpanFacts(s, 0, Spaces);
    SpanFacts(s, k.a, Letters);
    SpanFacts(s, k.b + 1, Spaces);
  }

  lemma DateSound(s: string, k: Marks)
    requires DateScan(s, k.c) == (k.m, k.d, k.y) && DateFits(s, k)
    ensures DatePart(s, k)
  {
    SpanFacts(s, k.c, Digits);
    SpanFacts(s, k.m + 1, Digits);
    SpanFacts(s, k.d + 1, Digits);
  }

  lemma TimeSound(s: string, k: Marks)
    requires TimeScan(s, k.y) == (k.e, k.h, k.n, k.g) && TimeFits(s, k)
    ensures TimePart(s, k)
  {
    SpanFacts(s, k.y, Spaces);
    SpanFacts(s, k.e, Digits);
    SpanFacts(s, k.h + 1, Digits);
    SpanFacts(s, k.n, Spaces);
    SpanFacts(s, k.g + 2, Spaces);
  }

  /** Whatever the scan accepts has the pattern's form at the scanned boundaries. */
  lemma ParseStampSound(s: string)
    ensures ParseStamp(s).Some? ==> Pattern(s, StampMarks(s)) && ParseStamp(s).value == Groups(s, StampMarks(s))
  {
    var k := StampMarks(s);
    if MarksFit(s, k) {
      DaySound(s, k);
      DateSound(s, k);
      TimeSound(s, k);
    }
  }

  /** The main pattern matches exactly the labels of its form. */
  lemma ParseStampMatches(s: string)
    ensures ParseStamp(s).Some? <==> exists k :: Pattern(s, k)
  {
    ParseStampSound(s);
    if k :| Pattern(s, k) {
      ParseStampComplete(s, k);
    }
  }

  /** The groups of the fallback pattern: the leading word and what follows it. */
  datatype Lead = Lead(word: string, rest: string)

  /** `re.match` of the fallback `^\s*([A-Za-z]+)(.*)$`. The word is the whole
      letter run after the leading whitespace; `.` does not match a newline, and
      `$` matches at the end or just before a final newline. */
  function ParseLeadingWord(s: string): Option<Lead> {
    var a := SpanAt(s, 0, Spaces);
    LeadAt(s, a, SpanAt(s, a, Letters))
  }

  /** The fallback's groups once its scan has put the word at [a, b). */
  function LeadAt(s: string, a: nat, b: nat): Option<Lead>
    requires a <= b <= |s|
  {
    if b == a then None
    else if '\n' !in s[b..] then Some(Lead(s[a..b], s[b..]))
    else if b < |s| && s[|s| - 1] == '\n' && '\n' !in s[b..|s| - 1] then Some(Lead(s[a..b], s[b..|s| - 1]))
    else None
  }

  /** Where the fallback's scan ends the leading whitespace and the word. */
  lemma LeadBounds(pre: string, word: string, t: string)
    requires AllSpace(pre) && word != [] && AllLetters(word)
    requires t == [] || !IsLetter(t[0])
    ensures SpanAt(pre + word + t, 0, Spaces) == |pre|
    ensures SpanAt(pre + word + t, |pre|, Letters) == |pre| + |word|
  {
    var s := pre + word + t;
    var b := |pre| + |word|;
    assert forall k | 0 <= k < |pre| :: s[k] == pre[k];
    assert forall k | |pre| <= k < b :: s[k] == word[k - |pre|];
    SpanEnds(s, 0, |pre|, Spaces);
    assert b < |s| ==> s[b] == t[0];
    SpanEnds(s, |pre|, b, Letters);
  }

  /** The fallback's groups when what follows the word has no newline, ... */
  lemma LeadAtNoNewline(s: string, a: nat, b: nat)
    requires a < b <= |s| && '\n' !in s[b..]
    ensures LeadAt(s, a, b) == Some(Lead(s[a..b], s[b..]))
  {
  }

  /** ... and when its only newline is the final character. */
  lemma LeadAtFinalNewline(s: string, a: nat, b: nat, u: string)
    requires a < b <= |s| && s[b..] == u + "\n" && '\n' !in u
    ensures LeadAt(s, a, b) == Some(Lead(s[a..b], u))
  {
    assert s[b..][|u|] == '\n';
    assert s[b..|s| - 1] == s[b..][..|u|] == u;
  }

  /** A label made of whitespace, a word, and a rest that neither continues the
      word nor holds a newline (optionally followed by one final newline) is
      matched with exactly that word and rest. */
  lemma ParseLeadingWordComplete(pre: string, word: string, rest: string, nl: string)
    requires AllSpace(pre) && word != [] && AllLetters(word)
    requires rest == [] || !IsLetter(rest[0])
    requires '\n' !in rest && (nl == [] || nl == "\n")
    ensures ParseLeadingWord(pre + word + rest + nl) == Some(Lead(word, rest))
  {
    var t := rest + nl;
    var s := pre + word + t;
    assert pre + word + rest + nl == s;
    assert t == [] || !IsLetter(t[0]) by {
      if rest == [] && nl != [] {
        assert t[0] == '\n';
      }
    }
    LeadBounds(pre, word, t);
    var b := |pre| + |word|;
    assert ParseLeadingWord(s) == LeadAt(s, |pre|, b);
    assert s[|pre|..b] == word;
    assert s[b..] == t;
    if nl == [] {
      assert t == rest;
      LeadAtNoNewline(s, |pre|, b);
    } else {
      LeadAtFinalNewline(s, |pre|, b, rest);
    }
  }

  /** The word the fallback reads is a non-empty run of letters that the rest
      does not continue, and the rest holds no newline. */
  lemma ParseLeadingWordGroups(s: string)
    ensures ParseLeadingWord(s).Some? ==>
      var l := ParseLeadingWord(s).value;
      && l.word != [] && AllLetters(l.word)
      && (l.rest == [] || !IsLetter(l.rest[0])) && '\n' !in l.rest
  {
    var a := SpanAt(s, 0, Spaces);
    var b := SpanAt(s, a, Letters);
    if LeadAt(s, a, b).Some? {
      SpanFacts(s, a, Letters);
      var l := LeadAt(s, a, b).value;
      assert l.word == s[a..b];
      assert l.rest == [] || l.rest[0] == s[b];
    }
  }

  lemma Pieces(s: string, a: nat, b: nat, e: nat)
    requires a <= b <= e <= |s|
    ensures s[..e] == s[..a] + s[a..b] + s[b..e]
  {
  }

  /** What the fallback accepts is leading whitespace, the word and the rest,
      with at most one final newline after it. */
  lemma ParseLeadingWordSound(s: string) returns (pre: string)
    ensures ParseLeadingWord(s).Some? ==>
      var l := ParseLeadingWord(s).value;
      AllSpace(pre) && (s == pre + l.word + l.rest || s == pre + l.word + l.rest + "\n")
  {
    var a := SpanAt(s, 0, Spaces);
    var b := SpanAt(s, a, Letters);
    SpanFacts(s, 0, Spaces);
    pre := s[..a];
    assert ParseLeadingWord(s) == LeadAt(s, a, b);
    if LeadAt(s, a, b).Some? {
      if '\n' !in s[b..] {
        Pieces(s, a, b, |s|);
        assert s[..|s|] == s;
      } else {
        Pieces(s, a, b, |s| - 1);
        assert s == s[..|s| - 1] + "\n";
      }
    }
  }

  /** The time as the header shows it: spaces removed, letters upper-cased
      (`"6:30 pm"` becomes `"6:30PM"`). Other whitespace is kept. */
  function TimeDisplay(time: string): (r: string)
    ensures ' ' !in r
    ensures forall k | 0 <= k < |r| :: !('a' <= r[k] <= 'z')
  {
    var t := Without(time, ' ');
    WithoutRemoves(time, ' ');
    Upper(t)
  }

  /** `h:mm` has no space and no lower-case letter. */
  lemma ClockText(hour: string, minute: string)
    requires AllDigits(hour) && AllDigits(minute)
    ensures ' ' !in hour + ":" + minute
    ensures Upper(hour + ":" + minute) == hour + ":" + minute
  {
    var clock := hour + ":" + minute;
    forall k | 0 <= k < |clock|
      ensures IsDigit(clock[k]) || clock[k] == ':'
    {
      if k < |hour| {
        assert clock[k] == hour[k];
      } else if |hour| < k {
        assert clock[k] == minute[k - |hour| - 1];
      }
    }
  }

  /** Dropping the spaces of a space-free clock, spaces and a space-free
      meridiem leaves the clock and the meridiem. */
  lemma GapWithoutSpaces(clock: string, gap: string, meridiem: string)
    requires ' ' !in clock && ' ' !in meridiem
    requires forall k | 0 <= k < |gap| :: gap[k] == ' '
    ensures Without(clock + gap + meridiem, ' ') == clock + meridiem
  {
    WithoutAppend(clock + gap, meridiem, ' ');
    WithoutAppend(clock, gap, ' ');
    WithoutAll(gap, ' ');
    WithoutAbsent(clock, ' ');
    WithoutAbsent(meridiem, ' ');
    assert clock + [] == clock;
  }

  /** A time written `h:mm`, spaces and a meridiem shows as `h:mmAM` or `h:mmPM`. */
  lemma TimeDisplayOfClock(hour: string, minute: string, gap: string, meridiem: string)
    requires AllDigits(hour) && AllDigits(minute) && ' ' !in meridiem
    requires forall k | 0 <= k < |gap| :: gap[k] == ' '
    ensures TimeDisplay(hour + ":" + minute + gap + meridiem) == hour + ":" + minute + Upper(meridiem)
  {
    var clock := hour + ":" + minute;
    ClockText(hour, minute);
    GapWithoutSpaces(clock, gap, meridiem);
    UpperAppend(clock, meridiem);
  }

  /** `Day, date at TIME` from the groups of the main pattern. */
  function StampText(st: Stamp): string {
    Capitalize(st.day) + ", " + st.date + " at " + TimeDisplay(st.time)
  }

  /** The date and time of the header: `Day, date at TIME` when the label
      matches the main pattern; else the label with its leading word
      capitalized (and leading whitespace and a final newline dropped) when
      the fallback matches; else the label unchanged. */
  function WhenText(dateTime: string): string {
    match ParseStamp(dateTime)
    case Some(st) => StampText(st)
    case None =>
      match ParseLeadingWord(dateTime)
      case Some(l) => Capitalize(l.word) + l.rest
      case None => dateTime
  }

  /** The header line above one showtime's prices; an empty title is Python's
      falsy `show_title`. */
  function Header(dateTime: string, showTitle: string): string {
    HeaderLine(dateTime, showTitle) + "\n"
  }

  /** The header's text, before its newline. */
  function HeaderLine(dateTime: string, showTitle: string): string {
    "Below is group pricing for " + (if showTitle == "" then "" else showTitle + " on ")
      + WhenText(dateTime) + ", subject to change and availability."
  }

  /** The header ends in its newline, so splitting it at newlines leaves an
      empty last part. */
  lemma HeaderLastLineEmpty(dateTime: string, showTitle: string)
    ensures var hs := SplitOn(Header(dateTime, showTitle), '\n'); hs[|hs| - 1] == []
  {
    SplitAfterSep(HeaderLine(dateTime, showTitle), '\n', Header(dateTime, showTitle));
  }

  /** A label of the main pattern's form gives the capitalized day, the date
      as written and the compacted time. */
  lemma WhenTextOfStamp(s: string, k: Marks)
    requires Pattern(s, k)
    ensures WhenText(s) == Capitalize(s[k.a..k.b]) + ", " + s[k.c..k.y] + " at " + TimeDisplay(s[k.e..k.g + 2])
  {
    var st := StampOfPattern(s, k);
    assert WhenText(s) == StampText(st);
  }

  lemma StampOfPattern(s: string, k: Marks) returns (st: Stamp)
    requires Pattern(s, k)
    ensures ParseStamp(s) == Some(st)
    ensures st == Stamp(s[k.a..k.b], s[k.c..k.y], s[k.e..k.g + 2])
  {
    ParseStampComplete(s, k);
    assert k.y == k.d + 5 by {
      assert DatePart(s, k);
    }
    st := Groups(s, k);
  }

  /** A label the main pattern rejects but the fallback accepts keeps its text
      after the capitalized word. */
  lemma WhenTextOfWord(pre: string, word: string, rest: string, nl: string)
    requires AllSpace(pre) && word != [] && AllLetters(word)
    requires rest == [] || !IsLetter(rest[0])
    requires '\n' !in rest && (nl == [] || nl == "\n")
    requires ParseStamp(pre + word + rest + nl) == None
    ensures WhenText(pre + word + rest + nl) == Capitalize(word) + rest
  {
    ParseLeadingWordComplete(pre, word, rest, nl);
  }

  /** A label with no letter after its leading whitespace is shown unchanged. */
  lemma WhenTextUnchanged(pre: string, post: string)
    requires AllSpace(pre) && (post == [] || (!IsSpace(post[0]) && !IsLetter(post[0])))
    ensures WhenText(pre + post) == pre + post
  {
    var s := pre + post;
    assert forall k | 0 <= k < |pre| :: s[k] == pre[k];
    if post != [] {
      assert s[|pre|] == post[0];
    }
    SpanEnds(s, 0, |pre|, Spaces);
    assert SpanAt(s, |pre|, Letters) == |pre|;
    assert !DayFits(s, StampMarks(s));
  }
}
