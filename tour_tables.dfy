/** The tour listings of scrape_shows.py: the cleaning of a listing table's
    headers and cells, the choice of show links on the tours page, and the
    fitting of the header row to the data when the rows are saved. */
module TourTables {
  import opened Basics
  import opened Text

  // ---------------------------------------------------------------------
  // get_tourstoyou_data: headers and cells
  // ---------------------------------------------------------------------

  /** A table cell: its text, and whether it holds a link and that first
      link's `href` (which a link may lack). */
  datatype Cell = Cell(text: string, hasLink: bool, linkHref: Option<string>)

  /** The column that holds the ticket link. */
  const TicketColumn := 4

  /** A header cell's text, stripped and upper-cased. */
  function CleanHeader(h: string): string {
    Upper(Strip(h))
  }

  function CleanHeaders(hs: seq<string>): (r: seq<string>)
    ensures |r| == |hs| && forall i | 0 <= i < |hs| :: r[i] == CleanHeader(hs[i])
  {
    seq(|hs|, i requires 0 <= i < |hs| => CleanHeader(hs[i]))
  }

  lemma UpperKeepsSpace(c: char)
    ensures IsSpace(UpperChar(c)) <==> IsSpace(c)
  {
  }

  /** A cleaned header has no surrounding whitespace and no lower-case letter,
      so cleaning it again changes nothing. */
  lemma CleanHeaderIsClean(h: string)
    ensures IsStripped(CleanHeader(h))
    ensures forall c | c in CleanHeader(h) :: !('a' <= c <= 'z')
    ensures CleanHeader(CleanHeader(h)) == CleanHeader(h)
  {
    var s := Strip(h);
    var u := Upper(s);
    if s != [] {
      UpperKeepsSpace(s[0]);
      UpperKeepsSpace(s[|s| - 1]);
    }
    assert IsStripped(u);
    assert Upper(u) == u by {
      assert forall k | 0 <= k < |u| :: UpperChar(u[k]) == u[k];
    }
  }

  /** The value of the cell in column `i`: the ticket column gives its
      link's `href` when it holds a link, every other cell its stripped text. */
  function CellValue(i: nat, c: Cell): Option<string> {
    if i == TicketColumn && c.hasLink then c.linkHref else Some(Strip(c.text))
  }

  function RowValues(cells: seq<Cell>): (r: seq<Option<string>>)
    ensures |r| == |cells| && forall i | 0 <= i < |cells| :: r[i] == CellValue(i, cells[i])
  {
    seq(|cells|, i requires 0 <= i < |cells| => CellValue(i, cells[i]))
  }

  /** Only a link's missing `href` gives no value; every other value is
      stripped text, except a link's `href` in the ticket column. */
  lemma RowValuesAre(cells: seq<Cell>, i: nat)
    requires i < |cells|
    ensures RowValues(cells)[i].None? ==> i == TicketColumn && cells[i].hasLink
    ensures i != TicketColumn || !cells[i].hasLink ==>
      RowValues(cells)[i] == Some(Strip(cells[i].text)) && IsStripped(RowValues(cells)[i].value)
  {
  }

  /** The data rows of a table: the values of each row that has cells, in order. */
  function TableRows(rows: seq<seq<Cell>>): (r: seq<seq<Option<string>>>)
    ensures |r| <= |rows|
  {
    if rows == [] then []
    else
      var last := rows[|rows| - 1];
      TableRows(rows[..|rows| - 1]) + (if last != [] then [RowValues(last)] else [])
  }

  /** A data row is the values of a table row with cells, and every such
      table row gives one. */
  lemma {:induction false} TableRowsAre(rows: seq<seq<Cell>>, x: seq<Option<string>>)
    ensures x in TableRows(rows) <==> exists k | 0 <= k < |rows| :: rows[k] != [] && x == RowValues(rows[k])
    ensures x in TableRows(rows) ==> x != []
  {
    if rows != [] {
      var init := rows[..|rows| - 1];
      TableRowsAre(init, x);
      assert forall k | 0 <= k < |init| :: init[k] == rows[k];
    }
  }

  /** The values of one row, cell by cell. */
  method ReadRow(cells: seq<Cell>) returns (rowData: seq<Option<string>>)
    ensures rowData == RowValues(cells)
  {
    rowData := [];
    for i := 0 to |cells|
      invariant rowData == RowValues(cells)[..i]
    {
      if i == TicketColumn {
        if cells[i].hasLink {
          rowData := rowData + [cells[i].linkHref];
        } else {
          rowData := rowData + [Some(Strip(cells[i].text))];
        }
      } else {
        rowData := rowData + [Some(Strip(cells[i].text))];
      }
    }
    assert RowValues(cells)[..|cells|] == RowValues(cells);
  }

  /** The row loop of `get_tourstoyou_data`: rows without cells are dropped. */
  method ReadTable(rows: seq<seq<Cell>>) returns (dataRows: seq<seq<Option<string>>>)
    ensures dataRows == TableRows(rows)
  {
    dataRows := [];
    for k := 0 to |rows|
      invariant dataRows == TableRows(rows[..k])
    {
      assert rows[..k + 1][..k] == rows[..k];
      var rowData := ReadRow(rows[k]);
      if rowData != [] {
        dataRows := dataRows + [rowData];
      }
    }
    assert rows[..|rows|] == rows;
  }

  // ---------------------------------------------------------------------
  // get_broadway_data: the blocked page and the show links
  // ---------------------------------------------------------------------

  /** A link of the tours page: its `href`, if it has one, and its text. */
  datatype Anchor = Anchor(href: Option<string>, text: string)

  /** A show found on the tours page. */
  datatype ShowLink = ShowLink(name: string, url: string)

  const BroadwayBase := "https://www.broadway.org"
  const BroadwayHeaders := ["SHOW", "LOCATION", "VENUE", "DATES", "TICKETS"]

  /** The page title of a protection page instead of the listing. */
  predicate IsBlockedTitle(title: string) {
    Contains(title, "Intermission") || Contains(title, "Just a moment")
  }

  /** An `href` naming one show's tour page: under `/tours/`, not the
      listing itself, and without a query. */
  predicate IsTourHref(href: Option<string>) {
    href.Some? && href.value != [] && "/tours/" <= href.value
    && href.value !in ["/tours", "/tours/", "/tours?l=1"]
    && '?' !in href.value
  }

  function UrlsOf(links: seq<ShowLink>): set<string> {
    set l | l in links :: l.url
  }

  /** The show links chosen from the page's links, in page order: a tour
      link whose full address is not yet chosen and whose text is not blank. */
  function ShowLinksOf(anchors: seq<Anchor>): seq<ShowLink> {
    if anchors == [] then []
    else
      var prev := ShowLinksOf(anchors[..|anchors| - 1]);
      var a := anchors[|anchors| - 1];
      if IsTourHref(a.href) && BroadwayBase + a.href.value !in UrlsOf(prev) && Strip(a.text) != []
      then prev + [ShowLink(Strip(a.text), BroadwayBase + a.href.value)]
      else prev
  }

  /** The link loop, with its set of addresses already chosen. */
  method CollectShowLinks(anchors: seq<Anchor>) returns (links: seq<ShowLink>)
    ensures links == ShowLinksOf(anchors)
  {
    links := [];
    var seen: set<string> := {};
    for k := 0 to |anchors|
      invariant links == ShowLinksOf(anchors[..k]) && seen == UrlsOf(links)
    {
      assert anchors[..k + 1][..k] == anchors[..k];
      var href := anchors[k].href;
      if href.Some? && href.value != [] && "/tours/" <= href.value
         && href.value !in ["/tours", "/tours/", "/tours?l=1"]
      {
        if '?' in href.value {
          continue;
        }
        var full := BroadwayBase + href.value;
        if full !in seen {
          var text := anchors[k].text;
          if text != [] && |Strip(text)| > 0 {
            links := links + [ShowLink(Strip(text), full)];
            seen := seen + {full};
          }
        }
      }
    }
    assert anchors[..|anchors|] == anchors;
  }

  /** The listing step of `get_broadway_data`: the fixed header row, and no
      show at all when the page is a protection page. */
  method ListBroadwayShows(title: string, anchors: seq<Anchor>) returns (headers: seq<string>, links: seq<ShowLink>)
    ensures headers == BroadwayHeaders
    ensures IsBlockedTitle(title) ==> links == []
    ensures !IsBlockedTitle(title) ==> links == ShowLinksOf(anchors)
  {
    headers := BroadwayHeaders;
    if IsBlockedTitle(title) {
      return headers, [];
    }
    links := CollectShowLinks(anchors);
  }

  /** Every tour link with text that is not blank has its address chosen. */
  lemma {:induction false} ShowLinksComplete(anchors: seq<Anchor>, k: nat)
    requires k < |anchors| && IsTourHref(anchors[k].href) && Strip(anchors[k].text) != []
    ensures BroadwayBase + anchors[k].href.value in UrlsOf(ShowLinksOf(anchors))
  {
    var init := anchors[..|anchors| - 1];
    var prev := ShowLinksOf(init);
    assert UrlsOf(prev) <= UrlsOf(ShowLinksOf(anchors));
    if k < |init| {
      assert init[k] == anchors[k];
      ShowLinksComplete(init, k);
    } else {
      var a := anchors[k];
      if BroadwayBase + a.href.value !in UrlsOf(prev) {
        assert ShowLink(Strip(a.text), BroadwayBase + a.href.value) in ShowLinksOf(anchors);
      }
    }
  }

  /** Each chosen show comes from the first tour link to its address whose
      text is not blank: its name is that text stripped, its address the
      site's plus the `href`. */
  lemma {:induction false} ShowLinkFrom(anchors: seq<Anchor>, l: ShowLink)
    requires l in ShowLinksOf(anchors)
    ensures exists k | 0 <= k < |anchors| ::
      IsTourHref(anchors[k].href) && l.url == BroadwayBase + anchors[k].href.value
      && l.name == Strip(anchors[k].text) && l.name != []
      && forall j | 0 <= j < k :: !(IsTourHref(anchors[j].href) && BroadwayBase + anchors[j].href.value == l.url
                                    && Strip(anchors[j].text) != [])
  {
    var init := anchors[..|anchors| - 1];
    var prev := ShowLinksOf(init);
    if l in prev {
      ShowLinkFrom(init, l);
      var k :| 0 <= k < |init| && IsTourHref(init[k].href) && l.url == BroadwayBase + init[k].href.value
        && l.name == Strip(init[k].text) && l.name != []
        && forall j | 0 <= j < k :: !(IsTourHref(init[j].href) && BroadwayBase + init[j].href.value == l.url
                                      && Strip(init[j].text) != []);
      assert init[k] == anchors[k];
      assert forall j | 0 <= j < k :: init[j] == anchors[j];
    } else {
      var k := |anchors| - 1;
      forall j | 0 <= j < k
        ensures !(IsTourHref(anchors[j].href) && BroadwayBase + anchors[j].href.value == l.url
                  && Strip(anchors[j].text) != [])
      {
        if IsTourHref(anchors[j].href) && Strip(anchors[j].text) != [] {
          assert init[j] == anchors[j];
          ShowLinksComplete(init, j);
        }
      }
    }
  }

  /** No two chosen shows share an address. */
  predicate DistinctUrls(links: seq<ShowLink>) {
    forall i, j | 0 <= i < j < |links| :: links[i].url != links[j].url
  }

  lemma {:induction false} ShowLinksDistinct(anchors: seq<Anchor>)
    ensures DistinctUrls(ShowLinksOf(anchors))
  {
    if anchors != [] {
      var init := anchors[..|anchors| - 1];
      ShowLinksDistinct(init);
      var prev := ShowLinksOf(init);
      var links := ShowLinksOf(anchors);
      var a := anchors[|anchors| - 1];
      if links != prev {
        var full := BroadwayBase + a.href.value;
        assert links == prev + [ShowLink(Strip(a.text), full)] && full !in UrlsOf(prev);
        forall i, j | 0 <= i < j < |links| ensures links[i].url != links[j].url {
          if j == |prev| {
            assert links[i] == prev[i] && prev[i].url in UrlsOf(prev);
          } else {
            assert links[i] == prev[i] && links[j] == prev[j];
          }
        }
      }
    }
  }

  /** Every chosen address is a tour page of the site, without a query. */
  lemma ShowLinkAddress(anchors: seq<Anchor>, l: ShowLink)
    requires l in ShowLinksOf(anchors)
    ensures BroadwayBase + "/tours/" <= l.url && '?' !in l.url
  {
    ShowLinkFrom(anchors, l);
    var k :| 0 <= k < |anchors| && IsTourHref(anchors[k].href) && l.url == BroadwayBase + anchors[k].href.value;
    TourAddress(anchors[k].href.value);
  }

  /** The full address of a tour link. */
  lemma TourAddress(h: string)
    requires IsTourHref(Some(h))
    ensures BroadwayBase + "/tours/" <= BroadwayBase + h && '?' !in BroadwayBase + h
  {
    assert (BroadwayBase + "/tours/") == (BroadwayBase + h)[..|BroadwayBase| + 7];
    assert forall c | c in BroadwayBase :: c != '?';
  }

  // ---------------------------------------------------------------------
  // save_data
  // ---------------------------------------------------------------------

  /** The caller's header list, which `save_data` may extend in place. */
  class HeaderList {
    var names: seq<string>

    constructor(names: seq<string>)
      ensures this.names == names
    {
      this.names := names;
    }
  }

  /** What goes to the CSV file: its columns and rows. */
  datatype Csv = Csv(columns: seq<string>, rows: seq<seq<Option<string>>>)

  /** The name of a column the data has and the header lacks. */
  function ColumnName(i: nat): string {
    "Col_" + NatToDecimal(i)
  }

  function PadColumns(from: nat, to: nat): (r: seq<string>)
    requires from <= to
    ensures |r| == to - from && forall k | 0 <= k < |r| :: r[k] == ColumnName(from + k)
  {
    seq(to - from, k requires 0 <= k < to - from => ColumnName(from + k))
  }

  /** The header fitted to the data's width: padded with `Col_i` names, or cut. */
  function FitColumns(names: seq<string>, width: nat): seq<string> {
    if |names| < width then names + PadColumns(|names|, width) else names[..width]
  }

  /** The fitted header has the data's width, keeps the names it had up to
      that width, names each added column by its position, and fitting it
      again changes nothing. */
  lemma FitColumnsFits(names: seq<string>, width: nat)
    ensures var r := FitColumns(names, width);
      |r| == width
      && (forall i | 0 <= i < width && i < |names| :: r[i] == names[i])
      && (forall i | |names| <= i < width :: r[i] == ColumnName(i))
      && FitColumns(r, width) == r
  {
    var r := FitColumns(names, width);
    if |names| < width {
      forall i | |names| <= i < width ensures r[i] == ColumnName(i) {
        assert r[i] == PadColumns(|names|, width)[i - |names|];
      }
    }
    assert r[..width] == r;
  }

  /** `save_data`: nothing is written for no data; otherwise the rows under
      the fitted header. Padding extends the caller's list; cutting rebinds
      the local name only, so the caller's list stays as it was. */
  method SaveData(data: seq<seq<Option<string>>>, headers: HeaderList) returns (csv: Option<Csv>)
    modifies headers
    ensures data == [] ==> csv == None
    ensures data != [] ==> csv == Some(Csv(FitColumns(old(headers.names), |data[0]|), data))
    ensures data != [] && |old(headers.names)| < |data[0]| ==> headers.names == FitColumns(old(headers.names), |data[0]|)
    ensures data == [] || |old(headers.names)| >= |data[0]| ==> headers.names == old(headers.names)
  {
    if data == [] {
      return None;
    }
    var columns := headers.names;
    var width := |data[0]|;
    if |columns| != width {
      if |columns| < width {
        headers.names := headers.names + PadColumns(|headers.names|, width);
        columns := headers.names;
      } else {
        columns := columns[..width];
      }
    } else {
      assert columns[..width] == columns;
    }
    return Some(Csv(columns, data));
  }
}
