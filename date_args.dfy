/** The date argument of the command-line entry of scrape.py: one date, or a
    range of two, typed on one line. */
module DateArgs {
  import opened Basics
  import opened Text
  import opened Dates

  /** The dates handed to the scraper. */
  datatype Range = Range(from: string, to: string)

  const UsageMessage := "Input must be one date or two dates in MM/DD/YYYY format."

  /** The rule of scrape.py: the stripped line split on whitespace; one
      `MM/DD/YYYY` word is both ends of the range, two such words are its two
      ends, anything else is refused. A word holds no whitespace, so the
      pattern's `$` cannot meet a newline here. */
  function ParseDateArgs(input: string): (r: Result<Range, string>)
    ensures r.Ok? ==> IsDateShape(r.value.from) && IsDateShape(r.value.to)
    ensures r.Err? ==> r.error == UsageMessage
  {
    var words := SplitWhitespace(Strip(input));
    if |words| == 1 && IsDateShape(words[0]) then Ok(Range(words[0], words[0]))
    else if |words| == 2 && IsDateShape(words[0]) && IsDateShape(words[1]) then Ok(Range(words[0], words[1]))
    else Err(UsageMessage)
  }

  /** An accepted line names its dates in the order typed: one word for a
      single day, two words for a range. */
  lemma AcceptedWords(input: string)
    requires ParseDateArgs(input).Ok?
    ensures var r := ParseDateArgs(input).value;
      var words := SplitWhitespace(Strip(input));
      (words == [r.from] && r.from == r.to) || words == [r.from, r.to]
  {
    var words := SplitWhitespace(Strip(input));
    if |words| == 1 {
      assert words == [words[0]];
    } else {
      assert words == [words[0], words[1]];
    }
  }

  /** The characters of a date word are not whitespace. */
  lemma DateShapeHasNoSpace(d: string)
    requires IsDateShape(d)
    ensures d != [] && forall c | c in d :: !IsSpace(c)
  {
    assert forall k | 0 <= k < |d| :: IsDigit(d[k]) || d[k] == '/';
  }

  lemma {:induction false} TrimEndSpaces(s: string, sp: string)
    requires s == [] || !IsSpace(s[|s| - 1])
    requires forall c | c in sp :: IsSpace(c)
    ensures TrimEnd(s + sp) == s
    decreases |sp|
  {
    if sp == [] {
      assert s + sp == s;
    } else {
      assert (s + sp)[..|s + sp| - 1] == s + sp[..|sp| - 1];
      assert sp[|sp| - 1] in sp;
      TrimEndSpaces(s, sp[..|sp| - 1]);
    }
  }

  /** Stripping whitespace from around a text that starts and ends with
      other characters gives that text. */
  lemma StripAround(pre: string, core: string, post: string)
    requires forall c | c in pre :: IsSpace(c)
    requires forall c | c in post :: IsSpace(c)
    requires core != [] && !IsSpace(core[0]) && !IsSpace(core[|core| - 1])
    ensures Strip(pre + core + post) == core
  {
    assert pre + core + post == pre + (core + post);
    SkipSpaces(pre, core + post);
    TrimEndSpaces(core, post);
  }

  /** One date with any whitespace around it is a one-day range. */
  lemma OneDate(pre: string, d: string, post: string)
    requires forall c | c in pre :: IsSpace(c)
    requires forall c | c in post :: IsSpace(c)
    requires IsDateShape(d)
    ensures ParseDateArgs(pre + d + post) == Ok(Range(d, d))
  {
    DateShapeHasNoSpace(d);
    StripAround(pre, d, post);
    assert [] + d + [] == d;
    SplitSingleWord([], d, []);
  }

  /** Two dates with whitespace between them are a range in the order typed. */
  lemma TwoDates(pre: string, d1: string, mid: string, d2: string, post: string)
    requires forall c | c in pre :: IsSpace(c)
    requires forall c | c in post :: IsSpace(c)
    requires mid != [] && forall c | c in mid :: IsSpace(c)
    requires IsDateShape(d1) && IsDateShape(d2)
    ensures ParseDateArgs(pre + d1 + mid + d2 + post) == Ok(Range(d1, d2))
  {
    DateShapeHasNoSpace(d1);
    DateShapeHasNoSpace(d2);
    var core := d1 + mid + d2;
    assert pre + d1 + mid + d2 + post == pre + core + post;
    assert core[0] == d1[0] && core[|core| - 1] == d2[|d2| - 1];
    StripAround(pre, core, post);
    assert [] + d1 + mid + d2 + [] == core;
    SplitTwoWords([], d1, mid, d2, []);
  }

  /** A line of whitespace only, or of three or more words, is refused. */
  lemma RefusedCounts(input: string)
    requires |SplitWhitespace(Strip(input))| == 0 || |SplitWhitespace(Strip(input))| > 2
    ensures ParseDateArgs(input) == Err(UsageMessage)
  {
  }
}
