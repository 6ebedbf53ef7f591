/** The pricing grid walk of `scrape_pricing` (scrape.py): every product row
    is tagged with the date-time header before it, and its description and
    price spans are paired by position. */
module PricingGrid {
  import opened Basics
  import opened Text
  import opened PricingText

  /** A child of the pricing grid, in document order: a date-time header
      (an `h3` whose id starts with `product-date-time-`) or any other
      element, given by the texts of its description and price spans. */
  datatype Node = DateTimeHeader(text: string) | Block(descs: seq<string>, prices: seq<string>)

  function Min(a: nat, b: nat): nat {
    if a <= b then a else b
  }

  /** The rows of one element under a header: the `i`-th description with
      the `i`-th price, as far as both lists go. */
  function PairRows(header: string, descs: seq<string>, prices: seq<string>): (rows: seq<Item>)
    ensures |rows| == Min(|descs|, |prices|)
  {
    seq(Min(|descs|, |prices|), i requires 0 <= i < Min(|descs|, |prices|) =>
      Item(Some(header), Some(JsTrim(descs[i])), Some(JsTrim(prices[i]))))
  }

  /** The walk from node `i` on, `current` being the trimmed text of the
      header in force, if any. */
  function WalkFrom(nodes: seq<Node>, i: nat, current: Option<string>): seq<Item>
    requires i <= |nodes|
    decreases |nodes| - i
  {
    if i == |nodes| then []
    else
      match nodes[i]
      case DateTimeHeader(text) => WalkFrom(nodes, i + 1, Some(JsTrim(text)))
      case Block(descs, prices) =>
        (if current.Some? then PairRows(current.value, descs, prices) else []) + WalkFrom(nodes, i + 1, current)
  }

  /** The rows the walk collects. */
  function GridRows(nodes: seq<Node>): seq<Item> {
    WalkFrom(nodes, 0, None)
  }

  /** The trimmed text of the nearest header before node `b`. */
  function NearestHeader(nodes: seq<Node>, b: nat): Option<string>
    requires b <= |nodes|
  {
    if b == 0 then None
    else if nodes[b - 1].DateTimeHeader? then Some(JsTrim(nodes[b - 1].text))
    else NearestHeader(nodes, b - 1)
  }

  /** The rows node `b` gives: its pairs under its nearest header, none if it
      is a header or has no header before it. */
  function NodeRows(nodes: seq<Node>, b: nat): (rows: seq<Item>)
    requires b < |nodes|
    ensures |rows| == if nodes[b].Block? && NearestHeader(nodes, b).Some?
                      then Min(|nodes[b].descs|, |nodes[b].prices|) else 0
  {
    match nodes[b]
    case DateTimeHeader(_) => []
    case Block(descs, prices) =>
      var h := NearestHeader(nodes, b);
      if h.Some? then PairRows(h.value, descs, prices) else []
  }

  /** The rows of each node from `i` on. */
  function PartsFrom(nodes: seq<Node>, i: nat): (parts: seq<seq<Item>>)
    requires i <= |nodes|
    ensures |parts| == |nodes| - i
    decreases |nodes| - i
  {
    if i == |nodes| then [] else [NodeRows(nodes, i)] + PartsFrom(nodes, i + 1)
  }

  /** The `k`-th part is the rows of node `i + k`. */
  lemma {:induction false} PartsFromAt(nodes: seq<Node>, i: nat, k: nat)
    requires i + k < |nodes|
    ensures PartsFrom(nodes, i)[k] == NodeRows(nodes, i + k)
    decreases k
  {
    var parts := PartsFrom(nodes, i);
    assert parts == [NodeRows(nodes, i)] + PartsFrom(nodes, i + 1);
    if k > 0 {
      PartsFromAt(nodes, i + 1, k - 1);
      assert parts[k] == PartsFrom(nodes, i + 1)[k - 1];
    }
  }

  /** The rows of the nodes from `i` on, node by node. */
  function RowsFrom(nodes: seq<Node>, i: nat): seq<Item>
    requires i <= |nodes|
  {
    Flatten(PartsFrom(nodes, i))
  }

  lemma {:induction false} WalkIsRowsFrom(nodes: seq<Node>, i: nat)
    requires i <= |nodes|
    ensures WalkFrom(nodes, i, NearestHeader(nodes, i)) == RowsFrom(nodes, i)
    decreases |nodes| - i
  {
    if i == |nodes| {
      assert PartsFrom(nodes, i) == [];
    } else {
      WalkIsRowsFrom(nodes, i + 1);
      WalkOneNode(nodes, i);
      FlattenPrepend(NodeRows(nodes, i), PartsFrom(nodes, i + 1));
    }
  }

  /** One step of the walk, with the header in force at each node. */
  lemma WalkOneNode(nodes: seq<Node>, i: nat)
    requires i < |nodes|
    ensures WalkFrom(nodes, i, NearestHeader(nodes, i)) == NodeRows(nodes, i) + WalkFrom(nodes, i + 1, NearestHeader(nodes, i + 1))
  {
  }

  /** The walk gives, in document order, each element's pairs tagged with
      the nearest header before it; elements before the first header give
      nothing. */
  lemma GridRowsByNode(nodes: seq<Node>)
    ensures GridRows(nodes) == RowsFrom(nodes, 0)
  {
    WalkIsRowsFrom(nodes, 0);
  }

  /** Every row carries the trimmed text of a header that comes before the
      element it was read from, with no header in between, and the trimmed
      texts of that element's spans at one position. */
  lemma RowFromNode(nodes: seq<Node>, row: Item)
    requires row in GridRows(nodes)
    ensures exists b, h, i | 0 <= h < b < |nodes| && 0 <= i ::
      nodes[h].DateTimeHeader? && nodes[b].Block?
      && (forall m | h < m < b :: nodes[m].Block?)
      && i < Min(|nodes[b].descs|, |nodes[b].prices|)
      && row == Item(Some(JsTrim(nodes[h].text)), Some(JsTrim(nodes[b].descs[i])), Some(JsTrim(nodes[b].prices[i])))
  {
    GridRowsByNode(nodes);
    var parts := PartsFrom(nodes, 0);
    FlattenHas(parts, row);
    var b :| 0 <= b < |parts| && row in parts[b];
    PartsFromAt(nodes, 0, b);
    var i :| 0 <= i < |parts[b]| && parts[b][i] == row;
    NodeRowAt(nodes, b, i);
    var h := NearestIndex(nodes, b);
    assert row == Item(Some(JsTrim(nodes[h].text)), Some(JsTrim(nodes[b].descs[i])), Some(JsTrim(nodes[b].prices[i])));
  }

  /** The `i`-th row of node `b` is its `i`-th pair under its nearest header. */
  lemma NodeRowAt(nodes: seq<Node>, b: nat, i: nat)
    requires b < |nodes| && i < |NodeRows(nodes, b)|
    ensures nodes[b].Block? && NearestHeader(nodes, b).Some? && i < Min(|nodes[b].descs|, |nodes[b].prices|)
    ensures NodeRows(nodes, b)[i]
         == Item(NearestHeader(nodes, b), Some(JsTrim(nodes[b].descs[i])), Some(JsTrim(nodes[b].prices[i])))
  {
  }

  /** Where the nearest header before node `b` is. */
  lemma {:induction false} NearestIndex(nodes: seq<Node>, b: nat) returns (h: nat)
    requires b <= |nodes| && NearestHeader(nodes, b).Some?
    ensures h < b && nodes[h].DateTimeHeader? && NearestHeader(nodes, b) == Some(JsTrim(nodes[h].text))
    ensures forall m | h < m < b :: nodes[m].Block?
  {
    if nodes[b - 1].DateTimeHeader? {
      h := b - 1;
    } else {
      h := NearestIndex(nodes, b - 1);
    }
  }

  /** At a header, or at the end, the header in force before it no longer matters. */
  lemma HeaderResets(nodes: seq<Node>, i: nat, current: Option<string>)
    requires i <= |nodes| && (i < |nodes| ==> nodes[i].DateTimeHeader?)
    ensures WalkFrom(nodes, i, current) == WalkFrom(nodes, i, None)
  {
  }

  /** An element under a header gives its pairs, then the walk goes on. */
  lemma WalkBlockStep(nodes: seq<Node>, i: nat, header: string)
    requires i < |nodes| && nodes[i].Block?
    ensures WalkFrom(nodes, i, Some(header))
         == PairRows(header, nodes[i].descs, nodes[i].prices) + WalkFrom(nodes, i + 1, Some(header))
  {
  }

  /** The innermost loop: the paired spans of one element, pushed in order. */
  method PushPairs(data: seq<Item>, header: string, descs: seq<string>, prices: seq<string>)
    returns (out: seq<Item>)
    ensures out == data + PairRows(header, descs, prices)
  {
    out := data;
    var len := Min(|descs|, |prices|);
    for i := 0 to len
      invariant out == data + PairRows(header, descs, prices)[..i]
    {
      out := out + [Item(Some(header), Some(JsTrim(descs[i])), Some(JsTrim(prices[i])))];
    }
    assert PairRows(header, descs, prices)[..len] == PairRows(header, descs, prices);
  }

  /** The sibling walk after one header, up to the next header or the end. */
  method WalkSection(nodes: seq<Node>, start: nat, header: string, data: seq<Item>)
    returns (out: seq<Item>, next: nat)
    requires start <= |nodes|
    ensures start <= next <= |nodes| && (next < |nodes| ==> nodes[next].DateTimeHeader?)
    ensures out + WalkFrom(nodes, next, None) == data + WalkFrom(nodes, start, Some(header))
  {
    out := data;
    next := start;
    while next < |nodes| && !nodes[next].DateTimeHeader?
      invariant start <= next <= |nodes|
      invariant out + WalkFrom(nodes, next, Some(header)) == data + WalkFrom(nodes, start, Some(header))
    {
      WalkBlockStep(nodes, next, header);
      ghost var prior := out;
      out := PushPairs(out, header, nodes[next].descs, nodes[next].prices);
      ConcatAssoc(prior, PairRows(header, nodes[next].descs, nodes[next].prices), WalkFrom(nodes, next + 1, Some(header)));
      next := next + 1;
    }
    HeaderResets(nodes, next, Some(header));
  }

  lemma ConcatAssoc(a: seq<Item>, b: seq<Item>, c: seq<Item>)
    ensures (a + b) + c == a + (b + c)
  {
  }

  /** The script run in the page: for each header, the elements after it up
      to the next header, and for each element its paired spans. */
  method ScrapeRows(nodes: seq<Node>) returns (data: seq<Item>)
    ensures data == GridRows(nodes)
  {
    data := [];
    var h := 0;
    while h < |nodes| && !nodes[h].DateTimeHeader?
      invariant h <= |nodes|
      invariant WalkFrom(nodes, h, None) == GridRows(nodes)
    {
      h := h + 1;
    }
    while h < |nodes|
      invariant h <= |nodes| && (h < |nodes| ==> nodes[h].DateTimeHeader?)
      invariant data + WalkFrom(nodes, h, None) == GridRows(nodes)
      decreases |nodes| - h
    {
      var headerText := JsTrim(nodes[h].text);
      data, h := WalkSection(nodes, h + 1, headerText, data);
    }
  }
}
