/** The show catalog of `get_broadway_shows` (scrape.py): each parsed show
    record is kept when it has pricing, given a title and an absolute link,
    or skipped with a debug note. */
module Catalog {
  import opened Basics
  import opened Text

  /** One entry of the parsed `shows` array: a JSON object with scalar values. */
  type Record = map<string, Value>

  /** One show of the catalog, as the task form lists it. */
  datatype Show = Show(title: string, url: string, firstPerformance: Value, onSaleThrough: Value)

  /** The debug messages of the loop, by kind. */
  datatype Note =
    | FoundShow(title: string, url: string)
    | SkippedShow(shown: Value)
    | FoundCount(count: nat)
    | ScrapeError

  const BaseUrl := "https://www.broadwayinbound.com"

  /** `record.get(key, default)`. */
  function Get(r: Record, key: string, default: Value): Value {
    if key in r then r[key] else default
  }

  /** `r.get(k0) or r.get(k1) or ...`: the first truthy value, else the last one. */
  function FirstTruthy(r: Record, keys: seq<string>): (v: Value)
    requires keys != []
    ensures v.Truthy() <==> exists k | 0 <= k < |keys| :: Get(r, keys[k], Null).Truthy()
    ensures v.Truthy() ==> exists k | 0 <= k < |keys| :: v == Get(r, keys[k], Null)
                                                   && forall j | 0 <= j < k :: !Get(r, keys[j], Null).Truthy()
  {
    var v := Get(r, keys[0], Null);
    if |keys| == 1 || v.Truthy() then v
    else
      var rest := FirstTruthy(r, keys[1..]);
      assert forall k | 0 <= k < |keys| - 1 :: keys[1..][k] == keys[k + 1];
      rest
  }

  function SlugOf(r: Record): Value {
    FirstTruthy(r, ["Url", "ShowUrlEN", "url", "slug"])
  }

  function TitleOf(r: Record): Value {
    FirstTruthy(r, ["ShowName", "SortName", "title", "name"])
  }

  /** `show.get('ShowLetUsKnow', True) == False`; in Python `0 == False` too. */
  predicate HasPricing(r: Record) {
    var flag := Get(r, "ShowLetUsKnow", Bool(true));
    flag == Bool(false) || flag == Num(0)
  }

  /** The absolute link of a slug, with the '/' it may lack. */
  function ShowUrl(slug: string): (url: string)
    ensures BaseUrl + "/" <= url
    ensures "/" <= slug ==> url == BaseUrl + slug
    ensures !("/" <= slug) ==> url == BaseUrl + "/" + slug
  {
    if |slug| > 0 && slug[0] == '/' then
      assert BaseUrl + slug == BaseUrl + "/" + slug[1..];
      BaseUrl + slug
    else BaseUrl + "/" + slug
  }

  /** Exactly one '/' joins the base and the slug: the link is the base, a
      '/', and the slug without the '/' it may already start with. */
  lemma ShowUrlOneSlash(slug: string)
    ensures ShowUrl(slug) == BaseUrl + "/" + (if "/" <= slug then slug[1..] else slug)
    ensures |ShowUrl(slug)| > |BaseUrl| + 1 ==> ShowUrl(slug)[|BaseUrl| + 1] == (if "/" <= slug then slug[1] else slug[0])
  {
    JoinOneSlash(BaseUrl, slug);
  }

  /** The join of any base and slug, as `ShowUrl` does it. */
  lemma JoinOneSlash(base: string, slug: string)
    ensures var url := if "/" <= slug then base + slug else base + "/" + slug;
      && url == base + "/" + (if "/" <= slug then slug[1..] else slug)
      && (|url| > |base| + 1 ==> url[|base| + 1] == (if "/" <= slug then slug[1] else slug[0]))
  {
    if "/" <= slug {
      assert slug == "/" + slug[1..];
    }
  }

  /** What one record does to the loop. */
  datatype Step =
    | Keep(show: Show)          // appended, with a `FoundShow` note
    | Drop                      // has pricing but no slug or no title: nothing recorded
    | Skip(title: Value)        // no pricing: a `SkippedShow` note
    | Crash                     // `startswith`/`strip` on a value that is not a string

  function StepOf(r: Record): Step {
    if HasPricing(r) then
      var slug := SlugOf(r);
      var title := TitleOf(r);
      if slug.Truthy() && title.Truthy() then
        if slug.Str? && title.Str? then
          Keep(Show(Strip(title.s), ShowUrl(slug.s),
                    Get(r, "FirstPerformance", Str("")), Get(r, "OnSaleThrough", Str(""))))
        else Crash
      else Drop
    else
      var title := TitleOf(r);
      Skip(if title.Truthy() then title else Str("Unknown"))
  }

  /** What each record does, in order. */
  function StepsOf(records: seq<Record>): (steps: seq<Step>)
    ensures |steps| == |records| && forall k | 0 <= k < |records| :: steps[k] == StepOf(records[k])
  {
    seq(|records|, k requires 0 <= k < |records| => StepOf(records[k]))
  }

  /** The shows and notes after some records, and whether an error ended the loop. */
  datatype Scan = Scan(shows: seq<Show>, notes: seq<Note>, failed: bool)

  function ScanStep(acc: Scan, step: Step): Scan {
    if acc.failed then acc
    else
      match step
      case Keep(show) => Scan(acc.shows + [show], acc.notes + [FoundShow(show.title, show.url)], false)
      case Drop => acc
      case Skip(title) => Scan(acc.shows, acc.notes + [SkippedShow(title)], false)
      case Crash => Scan(acc.shows, acc.notes + [ScrapeError], true)
  }

  function ScanAll(steps: seq<Step>): Scan {
    if steps == [] then Scan([], [], false)
    else ScanStep(ScanAll(steps[..|steps| - 1]), steps[|steps| - 1])
  }

  /** The shows of the steps that keep one, in order. */
  function KeptShows(steps: seq<Step>): seq<Show> {
    if steps == [] then []
    else
      var last := steps[|steps| - 1];
      KeptShows(steps[..|steps| - 1]) + (if last.Keep? then [last.show] else [])
  }

  /** The loop over the parsed records, with the closing count note. */
  method NormalizeShows(records: seq<Record>) returns (shows: seq<Show>, notes: seq<Note>)
    ensures var scan := ScanAll(StepsOf(records));
      shows == scan.shows && notes == scan.notes + (if scan.failed then [] else [FoundCount(|scan.shows|)])
  {
    ghost var steps := StepsOf(records);
    shows := [];
    notes := [];
    var failed := false;
    var i := 0;
    while i < |records| && !failed
      invariant 0 <= i <= |records|
      invariant Scan(shows, notes, failed) == ScanAll(steps[..i])
    {
      assert steps[..i + 1][..i] == steps[..i];
      match StepOf(records[i]) {
        case Keep(show) =>
          shows := shows + [show];
          notes := notes + [FoundShow(show.title, show.url)];
        case Drop =>
        case Skip(title) =>
          notes := notes + [SkippedShow(title)];
        case Crash =>
          notes := notes + [ScrapeError];
          failed := true;
      }
      i := i + 1;
    }
    if failed {
      FailedStays(steps, i);
    } else {
      assert steps[..i] == steps;
      notes := notes + [FoundCount(|shows|)];
    }
  }

  /** Once an error has ended the loop, later records change nothing. */
  lemma {:induction false} FailedStays(steps: seq<Step>, n: nat)
    requires n <= |steps| && ScanAll(steps[..n]).failed
    ensures ScanAll(steps) == ScanAll(steps[..n])
    decreases |steps| - n
  {
    if n < |steps| {
      assert steps[..n + 1][..n] == steps[..n];
      assert ScanAll(steps[..n + 1]) == ScanAll(steps[..n]);
      FailedStays(steps, n + 1);
    } else {
      assert steps[..n] == steps;
    }
  }

  /** An error ends the loop exactly when some record raises. */
  lemma {:induction false} ScanFails(steps: seq<Step>)
    ensures ScanAll(steps).failed <==> exists k | 0 <= k < |steps| :: steps[k].Crash?
  {
    if steps != [] {
      var init := steps[..|steps| - 1];
      ScanFails(init);
      assert forall k | 0 <= k < |init| :: init[k] == steps[k];
    }
  }

  /** Without an error, the shows are exactly the kept records' shows in order. */
  lemma {:induction false} ScanKeeps(steps: seq<Step>)
    requires !ScanAll(steps).failed
    ensures ScanAll(steps).shows == KeptShows(steps)
  {
    if steps != [] {
      ScanKeeps(steps[..|steps| - 1]);
    }
  }

  /** When an error ends the loop, the shows are those kept before the first
      record that raised. */
  lemma {:induction false} ScanStopsAtCrash(steps: seq<Step>, n: nat)
    requires n < |steps| && steps[n].Crash?
    requires forall k | 0 <= k < n :: !steps[k].Crash?
    ensures ScanAll(steps).failed && ScanAll(steps).shows == KeptShows(steps[..n])
  {
    assert forall k | 0 <= k < n :: steps[..n][k] == steps[k];
    ScanFails(steps[..n]);
    ScanKeeps(steps[..n]);
    assert steps[..n + 1][..n] == steps[..n];
    FailedStays(steps, n + 1);
  }

  /** Every listed show comes from a record with pricing, a string slug and
      a string title: its title stripped, its link absolute. */
  lemma KeptShowsFrom(records: seq<Record>, s: Show)
    requires s in KeptShows(StepsOf(records))
    ensures exists k | 0 <= k < |records| :: StepOf(records[k]) == Keep(s)
    ensures IsStripped(s.title) && BaseUrl + "/" <= s.url
  {
    var k := KeptShowFrom(StepsOf(records), s);
    assert StepOf(records[k]) == Keep(s);
  }

  /** Where in the steps a listed show was kept. */
  lemma {:induction false} KeptShowFrom(steps: seq<Step>, s: Show) returns (k: nat)
    requires s in KeptShows(steps)
    ensures k < |steps| && steps[k] == Keep(s)
  {
    var init := steps[..|steps| - 1];
    if s in KeptShows(init) {
      k := KeptShowFrom(init, s);
      assert steps[k] == init[k];
    } else {
      k := |steps| - 1;
    }
  }

  /** A record is listed exactly when it has pricing and a truthy string slug
      and title; the listed title is the stripped title and the link the slug's. */
  lemma KeepIff(r: Record)
    ensures StepOf(r).Keep? <==>
      HasPricing(r) && SlugOf(r).Str? && SlugOf(r).s != [] && TitleOf(r).Str? && TitleOf(r).s != []
    ensures StepOf(r).Keep? ==>
      StepOf(r).show.title == Strip(TitleOf(r).s) && StepOf(r).show.url == ShowUrl(SlugOf(r).s)
  {
  }

  /** A record without pricing is skipped with a note naming its title or
      "Unknown"; a record with pricing that lacks a slug or a title leaves no trace. */
  lemma SkipAndDrop(acc: Scan, r: Record)
    requires !acc.failed
    ensures !HasPricing(r) ==>
      ScanStep(acc, StepOf(r)).notes == acc.notes + [SkippedShow(StepOf(r).title)]
      && ScanStep(acc, StepOf(r)).shows == acc.shows
    ensures HasPricing(r) && !(SlugOf(r).Truthy() && TitleOf(r).Truthy()) ==> ScanStep(acc, StepOf(r)) == acc
  {
  }
}
