/**
 * `crawl_source`: assemble one canonical event per fetched detail page,
 * dropping listings that start before the recency cutoff.
 */
module Crawler {
  import opened Wrappers
  import opened Strings
  import opened Dates
  import opened Identity
  import opened Extract
  import opened Period
  import opened Price
  import opened Category

  /** The canonical record (`Event`). Dates are ISO strings. */
  datatype Event = Event(
    id: string,
    title: string,
    startDate: Option<string>,
    endDate: Option<string>,
    place: Option<string>,
    price: Option<string>,
    category: Option<string>,
    url: string,
    collectedAt: string,
    source: string)

  /** What the per-item step reads from an adapter: its detail selectors and date patterns. */
  datatype Adapter = Adapter(detailSelectors: map<string, string>, datePatterns: seq<Pattern>)

  /** The library calls the crawler makes: regex search, date parsing and SHA-1. */
  datatype Oracles = Oracles(search: Searcher, parse: DateParser, sha1: Digest)

  /** One source crawl: the libraries, the adapter key, its configuration and the cutoff. */
  datatype Run = Run(oracles: Oracles, name: string, conf: Adapter, since: Option<string>)

  /**
   * One link of a list page: the item URL, the detail page (None when its
   * fetch failed) and the UTC clock reading, as ISO text to the second, taken
   * when the item is assembled.
   */
  datatype Detail = Detail(url: string, doc: Option<Doc>, clock: string)

  /** The demo source's fixed item URL. */
  const DemoUrl: string := "https://demo.local/detail/1"

  const DemoName: string := "demo"

  /** `sel.get(field)`. */
  function Selector(conf: Adapter, field: string): (r: Option<string>)
    ensures r.Some? <==> field in conf.detailSelectors
    ensures r.Some? ==> r.value == conf.detailSelectors[field]
  {
    if field in conf.detailSelectors then Some(conf.detailSelectors[field]) else None
  }

  /** Python truthiness of an optional string. */
  predicate Truthy(x: Option<string>) {
    x.Some? && x.value != ""
  }

  /** The recency filter `since and sdate and sdate < since`. */
  predicate Dropped(since: Option<string>, start: Option<string>)
    ensures Dropped(since, start) ==> since.Some? && start.Some? && start.value != since.value
    ensures !Truthy(since) || !Truthy(start) ==> !Dropped(since, start)
  {
    Truthy(since) && Truthy(start) && LexLess(start.value, since.value)
  }

  /** The period the item's period text parses to. */
  function ItemPeriod(run: Run, doc: Doc): DatePair {
    ParsePeriod(run.oracles.search, run.oracles.parse, TextOf(doc, Selector(run.conf, "period")), run.conf.datePatterns)
  }

  /**
   * The per-item step shared by the demo and the paged branch: extract the
   * fields, normalise them, apply the recency filter and build the event.
   */
  function ExtractItem(run: Run, url: string, doc: Doc, clock: string): (r: Option<Event>)
    ensures r.None? <==> Dropped(run.since, ItemPeriod(run, doc).0)
    ensures r.Some? ==>
              var e := r.value;
              && e.source == run.name && e.url == url && e.collectedAt == clock + "Z"
              && e.title == TextOf(doc, Selector(run.conf, "title")).GetOr("")
              && e.id == MakeId(run.oracles.sha1, e.title, e.startDate, e.place, run.name)
              && (e.startDate, e.endDate) == ItemPeriod(run, doc)
              && (e.startDate.Some? <==> e.endDate.Some?)
              && e.place == TextOf(doc, Selector(run.conf, "place"))
              && e.price == ParsePrice(TextOf(doc, Selector(run.conf, "price")))
              && e.category == NormalizeCategory(e.title, TextOf(doc, Selector(run.conf, "category")))
  {
    var title := TextOf(doc, Selector(run.conf, "title")).GetOr("");
    var place := TextOf(doc, Selector(run.conf, "place"));
    var priceRaw := TextOf(doc, Selector(run.conf, "price"));
    var categoryRaw := TextOf(doc, Selector(run.conf, "category"));
    var (sdate, edate) := ItemPeriod(run, doc);
    if Dropped(run.since, sdate) then None
    else
      Some(Event(
        id := MakeId(run.oracles.sha1, title, sdate, place, run.name),
        title := title,
        startDate := sdate,
        endDate := edate,
        place := place,
        price := ParsePrice(priceRaw),
        category := NormalizeCategory(title, categoryRaw),
        url := url,
        collectedAt := clock + "Z",
        source := run.name))
  }

  /**
   * With an ISO cutoff, the string comparison drops exactly the items that
   * start on an earlier day; an item starting on the cutoff day is kept, and
   * one without a start date is never dropped.
   */
  lemma RecencyIsChronological(cutoff: Date, start: Option<Date>)
    ensures Dropped(Some(Iso(cutoff)), if start.Some? then Some(Iso(start.value)) else None)
            <==> start.Some? && Before(start.value, cutoff)
  {
    IsoLength(cutoff);
    if start.Some? {
      IsoLength(start.value);
      IsoOrder(start.value, cutoff);
    }
  }

  /** An event the crawler may emit for this run. */
  ghost predicate Emittable(run: Run, e: Event) {
    e.source == run.name
    && !Dropped(run.since, e.startDate)
    && e.id == MakeId(run.oracles.sha1, e.title, e.startDate, e.place, run.name)
    && (e.startDate.Some? <==> e.endDate.Some?)
  }

  /** The link's detail page was fetched and its item survives the recency filter. */
  predicate Kept(run: Run, d: Detail) {
    d.doc.Some? && !Dropped(run.since, ItemPeriod(run, d.doc.value).0)
  }

  /** The event a kept link yields. */
  function KeptEvent(run: Run, d: Detail): Event
    requires Kept(run, d)
  {
    ExtractItem(run, d.url, d.doc.value, d.clock).value
  }

  /** The number of kept links. */
  function KeptCount(run: Run, links: seq<Detail>): nat {
    if links == [] then 0
    else KeptCount(run, links[..|links| - 1]) + if Kept(run, links[|links| - 1]) then 1 else 0
  }

  /** What one link contributes: nothing when its fetch failed or the item is dropped. */
  function LinkEvents(run: Run, d: Detail): (r: seq<Event>)
    ensures |r| <= 1
    ensures |r| == 1 <==> Kept(run, d)
    ensures |r| == 1 ==> r[0] == KeptEvent(run, d) && Emittable(run, r[0]) && r[0].url == d.url
  {
    match d.doc
    case None => []
    case Some(doc) =>
      match ExtractItem(run, d.url, doc, d.clock)
      case None => []
      case Some(e) => [e]
  }

  /** The events of one list page's links, in link order. */
  function LinksEvents(run: Run, links: seq<Detail>): (r: seq<Event>)
    ensures |r| == KeptCount(run, links) <= |links|
    ensures forall i :: 0 <= i < |r| ==> Emittable(run, r[i])
  {
    if links == [] then []
    else
      var init := links[..|links| - 1];
      var prev := LinksEvents(run, init);
      var last := LinkEvents(run, links[|links| - 1]);
      assert forall i :: 0 <= i < |last| ==> Emittable(run, last[i]);
      prev + last
  }

  /** Every kept link's event is among the page's events. */
  lemma {:induction false} LinksEventsComplete(run: Run, links: seq<Detail>, k: nat)
    requires k < |links| && Kept(run, links[k])
    ensures KeptEvent(run, links[k]) in LinksEvents(run, links)
  {
    var n := |links| - 1;
    var init := links[..n];
    var e := KeptEvent(run, links[k]);
    var prev := LinksEvents(run, init);
    var last := LinkEvents(run, links[n]);
    if k < n {
      assert init[k] == links[k];
      LinksEventsComplete(run, init, k);
      assert e in prev;
    } else {
      assert k == n;
      assert last == [e];
    }
    assert LinksEvents(run, links) == prev + last;
  }

  /** Every event of the page is the event of one of its kept links. */
  lemma {:induction false} LinksEventsSound(run: Run, links: seq<Detail>, i: nat)
    requires i < |LinksEvents(run, links)|
    ensures exists k :: 0 <= k < |links| && Kept(run, links[k]) && LinksEvents(run, links)[i] == KeptEvent(run, links[k])
  {
    var n := |links| - 1;
    var init := links[..n];
    var prev := LinksEvents(run, init);
    if i < |prev| {
      LinksEventsSound(run, init, i);
      var k :| 0 <= k < |init| && Kept(run, init[k]) && prev[i] == KeptEvent(run, init[k]);
      assert init[k] == links[k];
    } else {
      assert LinksEvents(run, links)[i] == LinkEvents(run, links[n])[0];
    }
  }

  lemma LinksEventsStep(run: Run, links: seq<Detail>, i: nat)
    requires i < |links|
    ensures LinksEvents(run, links[..i + 1]) == LinksEvents(run, links[..i]) + LinkEvents(run, links[i])
  {
    assert links[..i + 1][..i] == links[..i];
  }

  /** The number of list pages fetched and links found on them. */
  function LinkCount(pages: seq<Option<seq<Detail>>>): nat {
    if pages == [] then 0
    else LinkCount(pages[..|pages| - 1]) + match pages[|pages| - 1] case None => 0 case Some(links) => |links|
  }

  /** The number of kept links over all fetched list pages. */
  function PagesKeptCount(run: Run, pages: seq<Option<seq<Detail>>>): nat {
    if pages == [] then 0
    else PagesKeptCount(run, pages[..|pages| - 1]) + match pages[|pages| - 1] case None => 0 case Some(links) => KeptCount(run, links)
  }

  /** The events of the paged branch: pages in order, a failed list fetch contributing nothing. */
  function PagesEvents(run: Run, pages: seq<Option<seq<Detail>>>): (r: seq<Event>)
    ensures |r| == PagesKeptCount(run, pages) <= LinkCount(pages)
    ensures forall i :: 0 <= i < |r| ==> Emittable(run, r[i])
  {
    if pages == [] then []
    else
      PagesEvents(run, pages[..|pages| - 1])
      + match pages[|pages| - 1] case None => [] case Some(links) => LinksEvents(run, links)
  }

  /** The paged events are those of all pages but the last, then the last page's. */
  lemma PagesEventsLast(run: Run, pages: seq<Option<seq<Detail>>>)
    requires pages != []
    ensures PagesEvents(run, pages) == PagesEvents(run, pages[..|pages| - 1]) + PageEvents(run, pages[|pages| - 1])
  {
  }

  /** The events of one list page; none when its fetch failed. */
  function PageEvents(run: Run, page: Option<seq<Detail>>): seq<Event> {
    match page case None => [] case Some(links) => LinksEvents(run, links)
  }

  /** Every kept link of every fetched list page yields its event. */
  lemma {:induction false} PagesEventsComplete(run: Run, pages: seq<Option<seq<Detail>>>, p: nat, k: nat)
    requires p < |pages| && pages[p].Some? && k < |pages[p].value| && Kept(run, pages[p].value[k])
    ensures KeptEvent(run, pages[p].value[k]) in PagesEvents(run, pages)
  {
    var n := |pages| - 1;
    var init := pages[..n];
    var links := pages[p].value;
    var e := KeptEvent(run, links[k]);
    var prev := PagesEvents(run, init);
    var page := PageEvents(run, pages[n]);
    if p < n {
      assert init[p] == pages[p];
      PagesEventsComplete(run, init, p, k);
      assert e in prev;
    } else {
      assert p == n;
      assert page == LinksEvents(run, links);
      LinksEventsComplete(run, links, k);
    }
    PagesEventsLast(run, pages);
    assert e in prev + page;
  }

  /** Every event of the paged branch is the event of a kept link of a fetched list page. */
  lemma {:induction false} PagesEventsSound(run: Run, pages: seq<Option<seq<Detail>>>, i: nat)
    requires i < |PagesEvents(run, pages)|
    ensures exists p, k :: 0 <= p < |pages| && pages[p].Some? && 0 <= k < |pages[p].value|
                           && Kept(run, pages[p].value[k]) && PagesEvents(run, pages)[i] == KeptEvent(run, pages[p].value[k])
  {
    var n := |pages| - 1;
    var init := pages[..n];
    var prev := PagesEvents(run, init);
    if i < |prev| {
      PagesEventsSound(run, init, i);
      var p, k :| 0 <= p < |init| && init[p].Some? && 0 <= k < |init[p].value|
                  && Kept(run, init[p].value[k]) && prev[i] == KeptEvent(run, init[p].value[k]);
      assert init[p] == pages[p];
    } else {
      var links := pages[n].value;
      LinksEventsSound(run, links, i - |prev|);
      var k :| 0 <= k < |links| && Kept(run, links[k]) && LinksEvents(run, links)[i - |prev|] == KeptEvent(run, links[k]);
      assert PagesEvents(run, pages)[i] == LinksEvents(run, links)[i - |prev|];
    }
  }

  lemma PagesEventsStep(run: Run, pages: seq<Option<seq<Detail>>>, p: nat)
    requires p < |pages|
    ensures pages[p].None? ==> PagesEvents(run, pages[..p + 1]) == PagesEvents(run, pages[..p])
    ensures pages[p].Some? ==>
              PagesEvents(run, pages[..p + 1]) == PagesEvents(run, pages[..p]) + LinksEvents(run, pages[p].value)
  {
    assert pages[..p + 1][..p] == pages[..p];
  }

  /** The events `crawl_source` returns: the demo item for the demo source, the paged crawl otherwise. */
  function SourceEvents(run: Run, demoDoc: Doc, demoClock: string, pages: seq<Option<seq<Detail>>>): (r: seq<Event>)
    ensures forall i :: 0 <= i < |r| ==> Emittable(run, r[i])
    ensures run.name == DemoName ==> |r| <= 1 && (|r| == 1 <==> !Dropped(run.since, ItemPeriod(run, demoDoc).0))
    ensures run.name == DemoName && |r| == 1 ==>
              r[0] == ExtractItem(run, DemoUrl, demoDoc, demoClock).value && r[0].url == DemoUrl
    ensures run.name != DemoName ==> |r| == PagesKeptCount(run, pages)
  {
    if run.name == DemoName then LinkEvents(run, Detail(DemoUrl, Some(demoDoc), demoClock))
    else PagesEvents(run, pages)
  }

  /**
   * The inner loop of `crawl_source` over one list page's links: skip a link
   * whose detail fetch failed, run the per-item step, and append what it keeps.
   */
  method CrawlLinks(run: Run, links: seq<Detail>) returns (found: seq<Event>)
    ensures found == LinksEvents(run, links)
  {
    found := [];
    var i := 0;
    while i < |links|
      invariant 0 <= i <= |links|
      invariant found == LinksEvents(run, links[..i])
    {
      var d := links[i];
      LinksEventsStep(run, links, i);
      if d.doc.Some? {
        var ev := ExtractItem(run, d.url, d.doc.value, d.clock);
        if ev.Some? {
          assert LinkEvents(run, d) == [ev.value];
          found := found + [ev.value];
        } else {
          assert LinkEvents(run, d) == [];
        }
      } else {
        assert LinkEvents(run, d) == [];
      }
      i := i + 1;
    }
    assert links[..|links|] == links;
  }

  /**
   * `crawl_source` with the list pages already fetched (one entry per page
   * number, None when the fetch failed) and the demo page given: the events
   * of every kept item, in page and link order.
   */
  method CrawlSource(run: Run, demoDoc: Doc, demoClock: string, pages: seq<Option<seq<Detail>>>)
    returns (out: seq<Event>)
    ensures out == SourceEvents(run, demoDoc, demoClock, pages)
  {
    if run.name == DemoName {
      var ev := ExtractItem(run, DemoUrl, demoDoc, demoClock);
      out := if ev.Some? then [ev.value] else [];
      return;
    }
    out := [];
    var p := 0;
    while p < |pages|
      invariant 0 <= p <= |pages|
      invariant out == PagesEvents(run, pages[..p])
    {
      PagesEventsStep(run, pages, p);
      if pages[p].Some? {
        var found := CrawlLinks(run, pages[p].value);
        out := out + found;
      }
      p := p + 1;
    }
    assert pages[..|pages|] == pages;
  }

  /** How a call ends: with a list of events, or with an exception. */
  datatype Outcome = Returned(events: seq<Event>) | Raised(error: string)

  /**
   * The paged branch as written. The link extraction reads `lsoup.selct`,
   * which the parsed page resolves as a search for a `<selct>` tag, finds
   * none, and gives `None`. The call's argument, the adapter's
   * `list_item_selector` entry, is looked up next and raises `KeyError` when
   * the adapter has no such key; otherwise calling `None` raises `TypeError`.
   * Either way the first list page that is fetched ends `crawl_source`.
   * A list page that itself contains a `<selct>` element, for which the
   * search would find a tag and the call would return no links, is not
   * modelled.
   */
  function PagesAsWritten(hasListSelector: bool, pages: seq<Option<seq<Detail>>>): (r: Outcome)
    ensures r.Raised? <==> exists p :: 0 <= p < |pages| && pages[p].Some?
    ensures r.Raised? ==> r.error == if hasListSelector then "TypeError" else "KeyError"
    ensures r.Returned? ==> r.events == []
  {
    if pages == [] then Returned([])
    else if pages[0].Some? then Raised(if hasListSelector then "TypeError" else "KeyError")
    else
      var r := PagesAsWritten(hasListSelector, pages[1..]);
      assert forall p :: 1 <= p < |pages| ==> pages[p] == pages[1..][p - 1];
      r
  }

  /**
   * One fetched list page with one fetched item is enough to tell the two
   * apart: as written the crawl raises, the corrected crawl emits the item.
   */
  lemma SelctTypoLosesItems(run: Run, d: Detail)
    requires run.name != DemoName && d.doc.Some? && !Truthy(run.since)
    ensures forall hasListSelector :: PagesAsWritten(hasListSelector, [Some([d])]).Raised?
    ensures forall demoDoc, demoClock :: |SourceEvents(run, demoDoc, demoClock, [Some([d])])| == 1
  {
    var pages := [Some([d])];
    assert pages[0].Some?;
    assert [d][..0] == [];
    assert pages[..0] == [];
  }
}
