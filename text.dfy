/** String helpers carrying the meaning the corresponding Python `str`
    methods have on ASCII text. */
module Text {

  /** Whitespace as `str.isspace`, `str.strip` and the `\s` of `re` see it in
      the ASCII range: tab to carriage return, the four separators 0x1C-0x1F
      and the space. */
  predicate IsSpace(c: char) {
    ('\t' <= c <= '\r') || ('\U{1C}' <= c <= ' ')
  }

  predicate IsDigit(c: char) {
    '0' <= c <= '9'
  }

  /** The class `[A-Za-z]` of a regular expression. */
  predicate IsLetter(c: char) {
    'A' <= c <= 'Z' || 'a' <= c <= 'z'
  }

  predicate AllDigits(s: string) {
    forall k | 0 <= k < |s| :: IsDigit(s[k])
  }

  predicate NoDigit(s: string) {
    forall k | 0 <= k < |s| :: !IsDigit(s[k])
  }

  /** No leading and no trailing whitespace. */
  predicate IsStripped(s: string) {
    s == [] || (!IsSpace(s[0]) && !IsSpace(s[|s| - 1]))
  }

  /** `s` without its leading whitespace (what `TrimStartFacts` states). */
  function TrimStart(s: string): (r: string)
    ensures |r| <= |s|
  {
    if s != [] && IsSpace(s[0]) then TrimStart(s[1..]) else s
  }

  lemma {:induction false} TrimStartFacts(s: string)
    ensures TrimStart(s) == s[|s| - |TrimStart(s)|..]
    ensures forall k | 0 <= k < |s| - |TrimStart(s)| :: IsSpace(s[k])
    ensures TrimStart(s) == [] || !IsSpace(TrimStart(s)[0])
  {
    if s != [] && IsSpace(s[0]) {
      TrimStartFacts(s[1..]);
    }
  }

  /** `s` without its trailing whitespace (what `TrimEndFacts` states). */
  function TrimEnd(s: string): (r: string)
    ensures |r| <= |s|
  {
    if s != [] && IsSpace(s[|s| - 1]) then TrimEnd(s[..|s| - 1]) else s
  }

  lemma {:induction false} TrimEndFacts(s: string)
    ensures TrimEnd(s) == s[..|TrimEnd(s)|]
    ensures forall k | |TrimEnd(s)| <= k < |s| :: IsSpace(s[k])
    ensures TrimEnd(s) == [] || !IsSpace(TrimEnd(s)[|TrimEnd(s)| - 1])
  {
    if s != [] && IsSpace(s[|s| - 1]) {
      TrimEndFacts(s[..|s| - 1]);
    }
  }

  /** Python's `str.strip()` with no argument. */
  function Strip(s: string): (r: string)
    ensures IsStripped(r)
    ensures |r| <= |s|
    ensures IsStripped(s) ==> r == s
  {
    var t := TrimStart(s);
    TrimStartFacts(s);
    var r := TrimEnd(t);
    TrimEndFacts(t);
    assert r != [] ==> r[0] == t[0];
    r
  }

  /** Whitespace as JavaScript's `String.prototype.trim` sees it in the ASCII
      range: tab to carriage return and the space, but not 0x1C-0x1F. */
  predicate IsJsSpace(c: char) {
    ('\t' <= c <= '\r') || c == ' '
  }

  /** No leading and no trailing JavaScript whitespace. */
  predicate IsJsTrimmed(s: string) {
    s == [] || (!IsJsSpace(s[0]) && !IsJsSpace(s[|s| - 1]))
  }

  function JsTrimStart(s: string): (r: string)
    ensures |r| <= |s|
  {
    if s != [] && IsJsSpace(s[0]) then JsTrimStart(s[1..]) else s
  }

  lemma {:induction false} JsTrimStartFacts(s: string)
    ensures JsTrimStart(s) == s[|s| - |JsTrimStart(s)|..]
    ensures JsTrimStart(s) == [] || !IsJsSpace(JsTrimStart(s)[0])
  {
    if s != [] && IsJsSpace(s[0]) {
      JsTrimStartFacts(s[1..]);
    }
  }

  function JsTrimEnd(s: string): (r: string)
    ensures |r| <= |s|
  {
    if s != [] && IsJsSpace(s[|s| - 1]) then JsTrimEnd(s[..|s| - 1]) else s
  }

  lemma {:induction false} JsTrimEndFacts(s: string)
    ensures JsTrimEnd(s) == s[..|JsTrimEnd(s)|]
    ensures JsTrimEnd(s) == [] || !IsJsSpace(JsTrimEnd(s)[|JsTrimEnd(s)| - 1])
  {
    if s != [] && IsJsSpace(s[|s| - 1]) {
      JsTrimEndFacts(s[..|s| - 1]);
    }
  }

  /** JavaScript's `trim()`, as the page script calls it on element texts. */
  function JsTrim(s: string): (r: string)
    ensures IsJsTrimmed(r)
    ensures |r| <= |s|
    ensures IsJsTrimmed(s) ==> r == s
  {
    var t := JsTrimStart(s);
    JsTrimStartFacts(s);
    var r := JsTrimEnd(t);
    JsTrimEndFacts(t);
    assert r != [] ==> r[0] == t[0];
    r
  }

  /** The two trims differ only on the separators 0x1C-0x1F: `trim()` keeps
      them where `strip()` removes them. */
  lemma JsTrimKeepsSeparator(s: string)
    requires s != [] && '\U{1C}' <= s[0] <= '\U{1F}'
    ensures JsTrim(s) != [] && JsTrim(s)[0] == s[0]
    ensures Strip(s) == [] || Strip(s)[0] != s[0]
  {
    JsTrimEndKeepsFirst(s);
  }

  lemma {:induction false} JsTrimEndKeepsFirst(s: string)
    requires s != [] && !IsJsSpace(s[0])
    ensures JsTrimEnd(s) != [] && JsTrimEnd(s)[0] == s[0]
  {
    if IsJsSpace(s[|s| - 1]) {
      JsTrimEndKeepsFirst(s[..|s| - 1]);
    }
  }

  function LowerChar(c: char): char {
    if 'A' <= c <= 'Z' then (c as int + 32) as char else c
  }

  function UpperChar(c: char): char {
    if 'a' <= c <= 'z' then (c as int - 32) as char else c
  }

  /** `str.lower()` */
  function Lower(s: string): (r: string)
    ensures |r| == |s|
    ensures forall k | 0 <= k < |s| :: r[k] == LowerChar(s[k])
  {
    if s == [] then [] else [LowerChar(s[0])] + Lower(s[1..])
  }

  /** `str.upper()` */
  function Upper(s: string): (r: string)
    ensures |r| == |s|
    ensures forall k | 0 <= k < |s| :: r[k] == UpperChar(s[k])
  {
    if s == [] then [] else [UpperChar(s[0])] + Upper(s[1..])
  }

  lemma UpperAppend(a: string, b: string)
    ensures Upper(a + b) == Upper(a) + Upper(b)
  {
    assert forall k | 0 <= k < |a + b| :: Upper(a + b)[k] == (Upper(a) + Upper(b))[k];
  }

  /** `str.capitalize()`: the first character upper-cased, the rest lower-cased. */
  function Capitalize(s: string): (r: string)
    ensures |r| == |s|
    ensures s != [] ==> r[0] == UpperChar(s[0]) && r[1..] == Lower(s[1..])
  {
    if s == [] then [] else [UpperChar(s[0])] + Lower(s[1..])
  }

  /** Python's `part in s` on strings: `part` starts at some position of `s`. */
  predicate Contains(s: string, part: string)
    decreases |s|
  {
    part <= s || (s != [] && Contains(s[1..], part))
  }

  /** `Contains` holds exactly when `part` is a prefix of some suffix of `s`. */
  lemma {:induction false} ContainsAt(s: string, part: string)
    ensures Contains(s, part) <==> exists k | 0 <= k <= |s| :: part <= s[k..]
  {
    if exists k | 0 <= k <= |s| :: part <= s[k..] {
      var k :| 0 <= k <= |s| && part <= s[k..];
      if k > 0 {
        assert s[1..][k - 1..] == s[k..];
        ContainsAt(s[1..], part);
      }
    }
    if s != [] && Contains(s[1..], part) {
      ContainsAt(s[1..], part);
      var k :| 0 <= k <= |s[1..]| && part <= s[1..][k..];
      assert s[1..][k..] == s[k + 1..];
    }
  }

  /** Python's `str.replace(old, "")` for a one-character `old`. */
  function Without(s: string, c: char): (r: string)
    ensures |r| <= |s|
  {
    if s == [] then [] else (if s[0] == c then [] else [s[0]]) + Without(s[1..], c)
  }

  /** Removing a character from text without digits leaves text without digits. */
  lemma {:induction false} WithoutNoDigits(s: string, c: char)
    requires NoDigit(s)
    ensures NoDigit(Without(s, c))
    decreases |s|
  {
    if s != [] {
      WithoutNoDigits(s[1..], c);
    }
  }

  lemma {:induction false} WithoutAppend(a: string, b: string, c: char)
    ensures Without(a + b, c) == Without(a, c) + Without(b, c)
    decreases |a|
  {
    if a != [] {
      assert (a + b)[1..] == a[1..] + b;
      WithoutAppend(a[1..], b, c);
    } else {
      assert a + b == b;
    }
  }

  /** After `replace(c, "")` no `c` is left. */
  lemma {:induction false} WithoutRemoves(s: string, c: char)
    ensures c !in Without(s, c)
    decreases |s|
  {
    if s != [] {
      WithoutRemoves(s[1..], c);
    }
  }

  /** Text made only of `c` disappears. */
  lemma {:induction false} WithoutAll(s: string, c: char)
    requires forall k | 0 <= k < |s| :: s[k] == c
    ensures Without(s, c) == []
    decreases |s|
  {
    if s != [] {
      WithoutAll(s[1..], c);
    }
  }

  lemma {:induction false} WithoutAbsent(a: string, c: char)
    requires c !in a
    ensures Without(a, c) == a
    decreases |a|
  {
    if a != [] {
      WithoutAbsent(a[1..], c);
      assert a == [a[0]] + a[1..];
    }
  }

  /** Index of the first `c` in `s`, or `|s|` when there is none. */
  function IndexOf(s: string, c: char): (r: nat)
    ensures r <= |s|
    ensures r < |s| ==> s[r] == c
    ensures forall k | 0 <= k < r :: s[k] != c
  {
    if s == [] || s[0] == c then 0 else 1 + IndexOf(s[1..], c)
  }

  /** Python's `s.split(sep)` for a one-character separator. */
  function SplitOn(s: string, sep: char): (parts: seq<string>)
    ensures |parts| >= 1
    ensures forall k | 0 <= k < |parts| :: sep !in parts[k]
    decreases |s|
  {
    var i := IndexOf(s, sep);
    if i == |s| then [s] else [s[..i]] + SplitOn(s[i + 1..], sep)
  }

  /** Python's `sep.join(parts)`. */
  function JoinWith(parts: seq<string>, sep: string): string {
    if parts == [] then []
    else if |parts| == 1 then parts[0]
    else parts[0] + sep + JoinWith(parts[1..], sep)
  }

  lemma JoinThree(a: string, b: string, c: string, sep: string)
    ensures JoinWith([a, b, c], sep) == a + sep + b + sep + c
  {
    assert [a, b, c][1..] == [b, c];
    assert [b, c][1..] == [c];
    assert JoinWith([b, c], sep) == b + sep + c;
  }

  /** Splitting on a separator and joining with it again gives back the text. */
  lemma {:induction false} JoinSplitOn(s: string, sep: char)
    ensures JoinWith(SplitOn(s, sep), [sep]) == s
    decreases |s|
  {
    var i := IndexOf(s, sep);
    if i < |s| {
      var rest := SplitOn(s[i + 1..], sep);
      JoinSplitOn(s[i + 1..], sep);
      assert SplitOn(s, sep) == [s[..i]] + rest;
      assert JoinWith([s[..i]] + rest, [sep]) == s[..i] + [sep] + JoinWith(rest, [sep]);
      assert s == s[..i] + [sep] + s[i + 1..];
    }
  }

  /** Joining two non-empty lists is joining each and putting the separator between. */
  lemma {:induction false} JoinWithAppend(xs: seq<string>, ys: seq<string>, sep: string)
    requires xs != [] && ys != []
    ensures JoinWith(xs + ys, sep) == JoinWith(xs, sep) + sep + JoinWith(ys, sep)
  {
    if |xs| > 1 {
      JoinWithAppend(xs[1..], ys, sep);
      assert (xs + ys)[1..] == xs[1..] + ys;
    }
  }

  /** Splitting a separator-free first part, a separator and the rest. */
  lemma SplitOnFirstPart(p: string, sep: char, rest: string)
    requires sep !in p
    ensures SplitOn(p + [sep] + rest, sep) == [p] + SplitOn(rest, sep)
  {
    var s := p + [sep] + rest;
    assert forall k | 0 <= k < |p| :: s[k] == p[k] && p[k] in p;
    assert s[|p|] == sep;
    assert IndexOf(s, sep) == |p|;
    assert s[..|p|] == p && s[|p| + 1..] == rest;
  }

  /** Joining parts free of the separator and splitting again gives back the parts. */
  lemma {:induction false} SplitJoinOn(parts: seq<string>, sep: char)
    requires parts != []
    requires forall k | 0 <= k < |parts| :: sep !in parts[k]
    ensures SplitOn(JoinWith(parts, [sep]), sep) == parts
  {
    if |parts| == 1 {
      assert parts == [parts[0]];
    } else {
      var rest := JoinWith(parts[1..], [sep]);
      assert JoinWith(parts, [sep]) == parts[0] + [sep] + rest;
      SplitOnFirstPart(parts[0], sep, rest);
      SplitJoinOn(parts[1..], sep);
      assert parts == [parts[0]] + parts[1..];
    }
  }

  /** Joining a text with separator-free parts after it and splitting again
      gives the text's own parts followed by those parts. */
  lemma SplitJoinAfter(h: string, ts: seq<string>, sep: char)
    requires forall k | 0 <= k < |ts| :: sep !in ts[k]
    ensures SplitOn(JoinWith([h] + ts, [sep]), sep) == SplitOn(h, sep) + ts
  {
    var hs := SplitOn(h, sep);
    JoinSplitOn(h, sep);
    if ts == [] {
      assert [h] + ts == [h];
      assert hs + ts == hs;
    } else {
      assert ([h] + ts)[1..] == ts;
      JoinWithAppend(hs, ts, [sep]);
      assert JoinWith([h] + ts, [sep]) == JoinWith(hs + ts, [sep]);
      SplitJoinOn(hs + ts, sep);
    }
  }

  /** A text ending in the separator splits with an empty last part. */
  lemma {:induction false} SplitOnFinalSep(s: string, sep: char)
    requires s != [] && s[|s| - 1] == sep
    ensures SplitOn(s, sep)[|SplitOn(s, sep)| - 1] == []
    decreases |s|
  {
    var i := IndexOf(s, sep);
    if i + 1 < |s| {
      SplitOnFinalSep(s[i + 1..], sep);
    }
  }

  /** A text followed by the separator splits with an empty last part. */
  lemma SplitAfterSep(s: string, sep: char, t: string)
    requires t == s + [sep]
    ensures var parts := SplitOn(t, sep); parts[|parts| - 1] == []
  {
    assert t[|s|] == sep;
    SplitOnFinalSep(t, sep);
  }

  /** The character classes `\s`, `[0-9]` and `[A-Za-z]` of a regular expression. */
  datatype CharClass = Spaces | Digits | Letters {
    predicate Has(c: char) {
      match this
      case Spaces => IsSpace(c)
      case Digits => IsDigit(c)
      case Letters => IsLetter(c)
    }
  }

  /** End of the run of `cl` characters of `s` that starts at `i` (what `SpanFacts` states). */
  function SpanAt(s: string, i: nat, cl: CharClass): (r: nat)
    ensures i <= r
    ensures i <= |s| ==> r <= |s|
    decreases |s| - i
  {
    if i >= |s| || !cl.Has(s[i]) then i else SpanAt(s, i + 1, cl)
  }

  /** The run is the longest one: every character in it is in `cl` and the one after it is not. */
  lemma {:induction false} SpanFacts(s: string, i: nat, cl: CharClass)
    requires i <= |s|
    ensures forall k | i <= k < SpanAt(s, i, cl) :: cl.Has(s[k])
    ensures SpanAt(s, i, cl) < |s| ==> !cl.Has(s[SpanAt(s, i, cl)])
    decreases |s| - i
  {
    if i < |s| && cl.Has(s[i]) {
      SpanFacts(s, i + 1, cl);
    }
  }

  /** A run of `cl` characters from `i` to `j` that nothing in `cl` continues is the run at `i`. */
  lemma {:induction false} SpanEnds(s: string, i: nat, j: nat, cl: CharClass)
    requires i <= j <= |s|
    requires forall k | i <= k < j :: cl.Has(s[k])
    requires j == |s| || !cl.Has(s[j])
    ensures SpanAt(s, i, cl) == j
    decreases j - i
  {
    if i < j {
      SpanEnds(s, i + 1, j, cl);
    }
  }

  /** Length of the run of non-whitespace characters that starts `s`. */
  function WordLength(s: string): (n: nat)
    ensures n <= |s|
    ensures forall k | 0 <= k < n :: !IsSpace(s[k])
    ensures n < |s| ==> IsSpace(s[n])
  {
    if s == [] || IsSpace(s[0]) then 0 else 1 + WordLength(s[1..])
  }

  /** Python's `str.split()` with no argument: the maximal whitespace-free words. */
  function SplitWhitespace(s: string): (words: seq<string>)
    ensures forall k | 0 <= k < |words| :: words[k] != [] && forall c | c in words[k] :: !IsSpace(c)
    decreases |s|
  {
    var t := TrimStart(s);
    TrimStartFacts(s);
    if t == [] then []
    else
      var n := WordLength(t);
      [t[..n]] + SplitWhitespace(t[n..])
  }

  /** A leading word followed by whitespace (or nothing) is the first word of the split. */
  lemma {:induction false} SplitLeadingWord(pre: string, w: string, rest: string)
    requires forall c | c in pre :: IsSpace(c)
    requires w != [] && forall c | c in w :: !IsSpace(c)
    requires rest == [] || IsSpace(rest[0])
    ensures SplitWhitespace(pre + w + rest) == [w] + SplitWhitespace(rest)
  {
    assert pre + w + rest == pre + (w + rest);
    SkipSpaces(pre, w + rest);
    WordThenSpaces(w, rest);
    assert (w + rest)[..|w|] == w;
    assert (w + rest)[|w|..] == rest;
  }

  /** Text made of whitespace only has no words. */
  lemma {:induction false} SplitOnlySpaces(sp: string)
    requires forall c | c in sp :: IsSpace(c)
    ensures SplitWhitespace(sp) == []
  {
    SkipSpaces(sp, []);
    assert sp + [] == sp;
  }

  /** A word with whitespace around it splits into exactly itself. */
  lemma {:induction false} SplitSingleWord(pre: string, w: string, post: string)
    requires forall c | c in pre :: IsSpace(c)
    requires forall c | c in post :: IsSpace(c)
    requires w != [] && forall c | c in w :: !IsSpace(c)
    ensures SplitWhitespace(pre + w + post) == [w]
  {
    assert post == [] || IsSpace(post[0]) by {
      assert post != [] ==> post[0] in post;
    }
    assert SplitWhitespace(post) == [] by {
      SplitOnlySpaces(post);
    }
    SplitLeadingWord(pre, w, post);
    assert [w] + [] == [w];
  }

  /** Two words with whitespace around and between them split into those two words. */
  lemma {:induction false} SplitTwoWords(pre: string, w1: string, mid: string, w2: string, post: string)
    requires forall c | c in pre :: IsSpace(c)
    requires forall c | c in post :: IsSpace(c)
    requires mid != [] && forall c | c in mid :: IsSpace(c)
    requires w1 != [] && forall c | c in w1 :: !IsSpace(c)
    requires w2 != [] && forall c | c in w2 :: !IsSpace(c)
    ensures SplitWhitespace(pre + w1 + mid + w2 + post) == [w1, w2]
  {
    var tail := mid + w2 + post;
    assert pre + w1 + mid + w2 + post == pre + w1 + tail;
    assert tail[0] == mid[0];
    SplitLeadingWord(pre, w1, tail);
    SplitSingleWord(mid, w2, post);
  }

  lemma {:induction false} SkipSpaces(sp: string, s: string)
    requires forall c | c in sp :: IsSpace(c)
    requires s == [] || !IsSpace(s[0])
    ensures TrimStart(sp + s) == s
    decreases |sp|
  {
    if sp != [] {
      assert (sp + s)[1..] == sp[1..] + s;
      SkipSpaces(sp[1..], s);
    } else {
      assert sp + s == s;
    }
  }

  lemma {:induction false} WordThenSpaces(w: string, s: string)
    requires forall c | c in w :: !IsSpace(c)
    requires s == [] || IsSpace(s[0])
    ensures WordLength(w + s) == |w|
    decreases |w|
  {
    if w != [] {
      assert (w + s)[1..] == w[1..] + s;
      WordThenSpaces(w[1..], s);
    } else {
      assert w + s == s;
    }
  }

  function DigitChar(d: nat): char
    requires d < 10
  {
    ('0' as int + d) as char
  }

  function Pow10(n: nat): (p: nat)
    ensures p >= 1
  {
    if n == 0 then 1 else 10 * Pow10(n - 1)
  }

  /** Python's `str(n)` for a natural number. */
  function NatToDecimal(n: nat): (r: string)
    ensures r != [] && AllDigits(r)
  {
    if n < 10 then [DigitChar(n)] else NatToDecimal(n / 10) + [DigitChar(n % 10)]
  }

  /** The value of a string of decimal digits (Python's `int(s)`, with `int("")` read as 0). */
  function DigitsValue(d: string): nat
    requires AllDigits(d)
  {
    if d == [] then 0 else 10 * DigitsValue(d[..|d| - 1]) + (d[|d| - 1] as int - '0' as int)
  }

  /** Reading back a printed natural number gives the number. */
  lemma {:induction false} DecimalRoundTrip(n: nat)
    ensures DigitsValue(NatToDecimal(n)) == n
  {
    if n >= 10 {
      var d := NatToDecimal(n);
      assert d[..|d| - 1] == NatToDecimal(n / 10);
      DecimalRoundTrip(n / 10);
    }
  }

  /** A number below `10^w` takes at most `w` digits. */
  lemma {:induction false} DecimalLength(n: nat, w: nat)
    requires 1 <= w && n < Pow10(w)
    ensures |NatToDecimal(n)| <= w
  {
    if n >= 10 {
      var p := Pow10(w - 1);
      assert w > 1 && n < 10 * p;
      assert n / 10 < p;
      DecimalLength(n / 10, w - 1);
    }
  }

  function Zeros(k: nat): (r: string)
    ensures |r| == k && AllDigits(r)
  {
    if k == 0 then [] else Zeros(k - 1) + "0"
  }

  /** `n` written with at least `width` digits, zeros in front: Python's `f"{n:0{width}d}"`. */
  function PadDigits(n: nat, width: nat): (r: string)
    ensures AllDigits(r) && |r| >= width
  {
    var d := NatToDecimal(n);
    if |d| >= width then d else Zeros(width - |d|) + d
  }

  /** A number below `10^width` fills exactly `width` digits. */
  lemma PadDigitsLength(n: nat, width: nat)
    requires 1 <= width && n < Pow10(width)
    ensures |PadDigits(n, width)| == width
  {
    DecimalLength(n, width);
  }

  lemma {:induction false} ZerosValue(k: nat)
    ensures DigitsValue(Zeros(k)) == 0
  {
    if k > 0 {
      ZerosValue(k - 1);
    }
  }

  /** Leading zeros do not change the value of a digit string. */
  lemma {:induction false} ZerosPrefixValue(k: nat, d: string)
    requires AllDigits(d)
    ensures DigitsValue(Zeros(k) + d) == DigitsValue(d)
  {
    if d == [] {
      assert Zeros(k) + d == Zeros(k);
      ZerosValue(k);
    } else {
      var init := d[..|d| - 1];
      ZerosPrefixValue(k, init);
      assert (Zeros(k) + d)[..|Zeros(k) + d| - 1] == Zeros(k) + init;
    }
  }

  /** Reading back a zero-padded number gives the number. */
  lemma PadDigitsRoundTrip(n: nat, width: nat)
    ensures DigitsValue(PadDigits(n, width)) == n
  {
    var d := NatToDecimal(n);
    DecimalRoundTrip(n);
    if |d| < width {
      var z := width - |d|;
      assert PadDigits(n, width) == Zeros(z) + d;
      ZerosPrefixValue(z, d);
    } else {
      assert PadDigits(n, width) == d;
    }
  }
}
