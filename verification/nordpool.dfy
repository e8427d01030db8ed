/**
 The Nord Pool side of `util/sahkotin.py`: the request URL, the flattening
 of the JSON payload into `(start, end, value)` triples, and the price table
 built from those triples. The HTTP exchange itself is not modelled: its
 outcome is an input.
 */
module Nordpool {
  import opened Wrappers
  import opened Frame

  const Host: string := "https://marketdata-api.nordpoolgroup.com/"

  /** Calling the builder with an unknown market type reads `url` before it is bound. */
  datatype UrlError = UnboundUrl

  /** The query suffix every URL ends with; `quote` is `urllib.parse.quote`. */
  function TimeQuery(start: string, end: string, quote: string -> string): string {
    "&startTime=" + quote(start) + "&endTime=" + quote(end)
  }

  /** The path and query for a `dayahead` variable; an unknown variable adds nothing. */
  function DayaheadPath(variable: string, region: string): string {
    if variable == "price" then "prices/area?deliveryA" + ("rea=" + region + "&currency=EUR")
    else if variable == "volume-purchase" then "volumes/area/purchases?deliverya" + ("rea=" + region)
    else if variable == "volume-sale" then "volumes/area/sales?deliverya" + ("rea=" + region)
    else ""
  }

  /** The path and query for a `regulationmarket` variable; an unknown variable adds nothing. */
  function RegulationPath(variable: string, region: string): string {
    if variable == "price_up" then "/v2/prices/up?deliveryarea=" + region + "&currency=EUR"
    else if variable == "price_down" then "/v2/prices/down?deliveryarea=" + region + "&currency=EUR"
    else if variable == "volume_ordinary_up" then "/v2/volumes/ordinary/up?deliveryarea=" + region
    else if variable == "volume_ordinary_down" then "/v2/volumes/ordinary/down?deliveryarea=" + region
    else if variable == "volume_automatic_up" then "/v2/volumes/automatic/up?deliveryarea=" + region
    else if variable == "volume_automatic_down" then "/v2/volumes/automatic/down?deliveryarea=" + region
    else ""
  }

  /**
   `get_url_nordpool`: the host, the market type, a variable-specific path
   and the time query. Only the `dayahead` and `regulationmarket` types bind
   the URL.
   */
  function NordpoolUrl(kind: string, variable: string, region: string, start: string, end: string,
                       quote: string -> string): (r: Result<string, UrlError>)
    ensures r.Failure? <==> kind != "dayahead" && kind != "regulationmarket"
    ensures r.Success? ==> Host + kind + "/" <= r.value
    ensures r.Success? ==> EndsWith(r.value, TimeQuery(start, end, quote))
  {
    var path :=
      if kind == "dayahead" then Some(DayaheadPath(variable, region))
      else if kind == "regulationmarket" then Some(RegulationPath(variable, region))
      else None;
    match path
    case None => Failure(UnboundUrl)
    case Some(p) =>
      var url := Host + kind + "/" + p + TimeQuery(start, end, quote);
      assert (Host + kind + "/" + p) + TimeQuery(start, end, quote) == url;
      assert url[..|Host + kind + "/"|] == Host + kind + "/";
      Success(url)
  }

  lemma PricePathLiteral(region: string)
    ensures DayaheadPath("price", region) == "prices/area?deliveryArea=" + region + "&currency=EUR"
  {
    assert "prices/area?deliveryA" + "rea=" == "prices/area?deliveryArea=";
  }

  lemma PriceHostLiteral()
    ensures Host + "dayahead" + "/" + "prices/area?deliveryArea="
         == "https://marketdata-api.nordpoolgroup.com/dayahead/prices/area?deliveryArea="
  {
    DayaheadHostLiteral();
    DayaheadPathLiteral();
  }

  lemma DayaheadHostLiteral()
    ensures Host + "dayahead" + "/" == "https://marketdata-api.nordpoolgroup.com/dayahead/"
  {
    assert Host + "dayahead" == "https://marketdata-api.nordpoolgroup.com/dayahead";
  }

  lemma DayaheadPathLiteral()
    ensures "https://marketdata-api.nordpoolgroup.com/dayahead/" + "prices/area?deliveryArea="
         == "https://marketdata-api.nordpoolgroup.com/dayahead/prices/area?deliveryArea="
  {
  }

  lemma CurrencyQueryLiteral(qs: string, qe: string)
    ensures "&currency=EUR" + ("&startTime=" + qs + "&endTime=" + qe) == "&currency=EUR&startTime=" + qs + "&endTime=" + qe
  {
    assert "&currency=EUR" + "&startTime=" == "&currency=EUR&startTime=";
  }

  lemma Regroup(h: string, m: string, region: string, c: string, q: string)
    ensures h + (m + region + c) + q == (h + m) + region + (c + q)
  {
  }

  lemma Flatten5(x: string, y: string, qs: string, z: string, qe: string)
    ensures x + (y + qs + z + qe) == x + y + qs + z + qe
  {
  }

  /** The day-ahead price URL the price fetch requests. */
  lemma DayaheadPriceUrl(region: string, start: string, end: string, quote: string -> string)
    ensures NordpoolUrl("dayahead", "price", region, start, end, quote) ==
      Success("https://marketdata-api.nordpoolgroup.com/dayahead/prices/area?deliveryArea=" + region
              + "&currency=EUR&startTime=" + quote(start) + "&endTime=" + quote(end))
  {
    PricePathLiteral(region);
    PriceHostLiteral();
    CurrencyQueryLiteral(quote(start), quote(end));
    var h := Host + "dayahead" + "/";
    var q := TimeQuery(start, end, quote);
    assert NordpoolUrl("dayahead", "price", region, start, end, quote)
        == Success(h + DayaheadPath("price", region) + q);
    Regroup(h, "prices/area?deliveryArea=", region, "&currency=EUR", q);
    Flatten5(h + "prices/area?deliveryArea=" + region, "&currency=EUR&startTime=", quote(start), "&endTime=", quote(end));
  }

  /** One entry of an item's `values` list. */
  datatype Entry<V> = Entry(startTime: string, endTime: string, value: Option<V>)
  /** One item of the payload. */
  datatype Item<V> = Item(unit: string, scale: int, values: seq<Entry<V>>)
  /** One flattened `(startTime, endTime, value)` triple. */
  datatype Triple<V> = Triple(start: string, end: string, value: Option<V>)

  function TripleOf<V>(e: Entry<V>): Triple<V> {
    Triple(e.startTime, e.endTime, e.value)
  }

  function TriplesOf<V>(values: seq<Entry<V>>): (r: seq<Triple<V>>)
    ensures |r| == |values|
    ensures forall j :: 0 <= j < |values| ==> r[j] == TripleOf(values[j])
  {
    seq(|values|, j requires 0 <= j < |values| => TripleOf(values[j]))
  }

  /** The number of values across all items. */
  function TotalValues<V>(items: seq<Item<V>>): nat {
    if |items| == 0 then 0 else TotalValues(items[..|items| - 1]) + |items[|items| - 1].values|
  }

  /** The reference flattening: each item's triples, item after item. */
  function FlattenSpec<V>(items: seq<Item<V>>): (r: seq<Triple<V>>)
    ensures |r| == TotalValues(items)
  {
    if |items| == 0 then [] else FlattenSpec(items[..|items| - 1]) + TriplesOf(items[|items| - 1].values)
  }

  /**
   The value `j` of item `i` sits at position `TotalValues(items[..i]) + j`
   of the flattened payload: item order first, value order within an item.
   */
  lemma {:induction false} FlattenOrder<V>(items: seq<Item<V>>, i: nat, j: nat)
    requires i < |items| && j < |items[i].values|
    ensures TotalValues(items[..i]) + j < |FlattenSpec(items)|
    ensures FlattenSpec(items)[TotalValues(items[..i]) + j] == TripleOf(items[i].values[j])
  {
    var n := |items| - 1;
    assert items[..n][..i] == items[..i];
    if i < n {
      FlattenOrder(items[..n], i, j);
    } else {
      assert items[..n] == items[..i];
    }
  }

  /** Lines 77-84 of `util/sahkotin.py`: the nested loop over items and their values. */
  method Flatten<V>(items: seq<Item<V>>) returns (out: seq<Triple<V>>)
    ensures out == FlattenSpec(items)
    ensures |out| == TotalValues(items)
  {
    out := [];
    var i := 0;
    while i < |items|
      invariant 0 <= i <= |items|
      invariant out == FlattenSpec(items[..i])
    {
      var values := items[i].values;
      var j := 0;
      while j < |values|
        invariant 0 <= j <= |values|
        invariant out == FlattenSpec(items[..i]) + TriplesOf(values[..j])
      {
        out := out + [TripleOf(values[j])];
        j := j + 1;
      }
      assert values[..j] == values;
      assert items[..i + 1][..i] == items[..i];
      i := i + 1;
    }
    assert items[..i] == items;
  }

  /** One row of the price table: a parsed start instant and its price. */
  datatype Price<V> = Price(ts: int, value: Option<V>)

  predicate SortedByTs<V>(s: seq<Price<V>>) {
    forall i, j :: 0 <= i < j < |s| ==> s[i].ts <= s[j].ts
  }

  /** Inserts `p` after every row not later than it. */
  function InsertByTs<V>(s: seq<Price<V>>, p: Price<V>): (r: seq<Price<V>>)
    requires SortedByTs(s)
    ensures SortedByTs(r)
    ensures multiset(r) == multiset(s) + multiset{p}
  {
    if |s| == 0 then [p]
    else if p.ts < s[0].ts then [p] + s
    else
      var rest := InsertByTs(s[1..], p);
      SortedBehind(s, p, rest);
      [s[0]] + rest
  }

  lemma SortedBehind<V>(s: seq<Price<V>>, p: Price<V>, rest: seq<Price<V>>)
    requires SortedByTs(s) && |s| > 0 && s[0].ts <= p.ts
    requires SortedByTs(rest) && multiset(rest) == multiset(s[1..]) + multiset{p}
    ensures SortedByTs([s[0]] + rest) && multiset([s[0]] + rest) == multiset(s) + multiset{p}
  {
    assert s == [s[0]] + s[1..];
    forall k | 0 <= k < |rest| ensures s[0].ts <= rest[k].ts {
      assert rest[k] in multiset(rest);
      if rest[k] != p {
        assert rest[k] in multiset(s[1..]);
        var m :| 0 <= m < |s[1..]| && s[1..][m] == rest[k];
        assert s[m + 1] == rest[k];
      }
    }
  }

  /** `sort_values(by='Timestamp')`, as a stable insertion sort. */
  function SortByTs<V>(s: seq<Price<V>>): (r: seq<Price<V>>)
    ensures SortedByTs(r)
    ensures multiset(r) == multiset(s)
  {
    if |s| == 0 then []
    else
      assert s == s[..|s| - 1] + [s[|s| - 1]];
      InsertByTs(SortByTs(s[..|s| - 1]), s[|s| - 1])
  }

  /** Each triple's start parsed to an instant and its end dropped. */
  function Parsed<V>(triples: seq<Triple<V>>, parse: string -> int): (r: seq<Price<V>>)
    ensures |r| == |triples|
    ensures forall k :: 0 <= k < |triples| ==> r[k] == Price(parse(triples[k].start), triples[k].value)
  {
    seq(|triples|, k requires 0 <= k < |triples| => Price(parse(triples[k].start), triples[k].value))
  }

  /**
   Lines 110-124 of `util/sahkotin.py`: a fetch that returned nothing, or
   no triples, gives an empty table; otherwise the triples' starts parsed by
   `parse`, with their values, sorted by instant.
   */
  function PriceTable<V>(fetched: Option<seq<Triple<V>>>, parse: string -> int): (r: seq<Price<V>>)
    ensures fetched.None? ==> r == []
    ensures fetched.Some? ==> multiset(r) == multiset(Parsed(fetched.value, parse))
    ensures SortedByTs(r)
  {
    match fetched
    case None => []
    case Some(triples) => SortByTs(Parsed(triples, parse))
  }
}
