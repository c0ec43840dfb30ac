/**
 * The extraction half of the scraper: which listing pages are requested,
 * which nodes of a listing page are news items, how each item's title, link
 * and description are found, how the publication date is looked up on the
 * article's own page, and the loop that collects the records.
 *
 * The network is a map from URL to the parsed page that a GET of that URL
 * yields. A URL that is not in the map stands for a failed request: for a
 * listing page that is a timeout, a connection error or a non-2xx status
 * (`raise_for_status`); for a detail page, whose status is never checked, it
 * is only a timeout, a connection error or a URL that `requests` refuses, and
 * an error page that came back is in the map like any other page.
 */
module Extractor {
  import opened Wrappers
  import opened Text
  import opened Html

  /** What a successful GET of each URL returns, parsed. */
  type Web = map<string, Node>

  /** One scraped news item (a dict with these four keys in the source). */
  datatype Article = Article(title: string, link: string, description: string, pubDate: string)

  const BaseUrl: string := "https://www.bankier.pl/wiadomosc/"
  const Origin: string := "https://www.bankier.pl"
  /** `range(1, 3)`: pages 1 and 2. */
  const LastPage: nat := 2

  const Entry := WithClass("article", "entry")
  const DivArticle := WithClass("div", "article")
  const TitleLink := WithClass("a", "entry__title")
  const EntryLead := WithClass("div", "entry__lead")
  const ArticleLead := WithClass("p", "article__lead")
  const PublishedMeta := WithAttr("meta", "property", "article:published_time")
  const ArticleTime := WithClass("time", "article__date")

  /** The number a string of decimal digits denotes, most significant digit first. */
  function DigitsValue(s: string): int
  {
    if s == [] then 0 else DigitsValue(s[..|s| - 1]) * 10 + (s[|s| - 1] as int - '0' as int)
  }

  /** `str(n)` for a natural number. */
  function Decimal(n: nat): (r: string)
    ensures |r| >= 1
    ensures forall k :: 0 <= k < |r| ==> '0' <= r[k] <= '9'
  {
    var digit := ['0' + (n % 10) as char];
    if n < 10 then digit else Decimal(n / 10) + digit
  }

  /** `str(n)` has no leading zero and reads back as `n`. */
  lemma {:induction false} DecimalValue(n: nat)
    ensures |Decimal(n)| > 1 ==> Decimal(n)[0] != '0'
    ensures DigitsValue(Decimal(n)) == n
  {
    if n >= 10 {
      DecimalValue(n / 10);
      var high := Decimal(n / 10);
      var digit := ['0' + (n % 10) as char];
      assert Decimal(n) == high + digit;
      assert (high + digit)[..|high|] == high;
    }
  }

  /** `f"{base_url}?page={page}" if page > 1 else base_url`. */
  function PageUrl(page: nat): (r: string)
    ensures BaseUrl <= r
  {
    if page > 1 then BaseUrl + "?page=" + Decimal(page) else BaseUrl
  }

  /** Page 1 is the bare section URL, page 2 carries the query `?page=2`. */
  lemma PageUrls()
    ensures PageUrl(1) == BaseUrl
    ensures PageUrl(2) == BaseUrl + "?page=2"
    ensures PageUrl(1) != PageUrl(2)
  {
    assert Decimal(2) == "2";
    assert |PageUrl(2)| == |BaseUrl| + 7;
  }

  // ---------------------------------------------------------------------------
  // The publication date on an article's detail page
  // ---------------------------------------------------------------------------

  /** The value of attribute `key` when it is present and non-empty (`tag.get(key)` is truthy). */
  function NonEmptyAttr(t: Node, key: string): Option<string>
  {
    if t.Tag? && key in t.attrs && t.attrs[key] != [] then Some(t.attrs[key]) else None
  }

  /**
   * `get_article_date`: fetch the article's page; the `content` of its first
   * `meta[property=article:published_time]` if that is non-empty, otherwise the
   * `datetime` of its first `time.article__date` if that is non-empty, otherwise
   * (and whenever the fetch fails) no date.
   */
  function GetArticleDate(web: Web, url: string): (r: Option<string>)
  {
    if url !in web then None
    else
      var soup := web[url];
      var meta := Find(soup, PublishedMeta);
      if meta.Some? && NonEmptyAttr(meta.value, "content").Some? then
        NonEmptyAttr(meta.value, "content")
      else
        var time := Find(soup, ArticleTime);
        if time.Some? then NonEmptyAttr(time.value, "datetime") else None
  }

  /**
   * A failed fetch gives no date; a date is never empty, and it is the `content`
   * of a published-time meta tag or the `datetime` of an `article__date` time tag
   * on that page.
   */
  lemma GetArticleDateSpec(web: Web, url: string)
    ensures var r := GetArticleDate(web, url);
            (url !in web ==> r.None?) &&
            (r.Some? ==> r.value != []) &&
            (r.Some? ==>
               exists d :: d in Descendants(web[url]) &&
                 ((Matches(d, PublishedMeta) && NonEmptyAttr(d, "content") == r) ||
                  (Matches(d, ArticleTime) && NonEmptyAttr(d, "datetime") == r)))
  {
  }

  /**
   * The meta tag wins: when the page's first published-time meta tag has a
   * non-empty `content`, that is the date, whatever `time` tags the page has;
   * the `time` tag is consulted only when the meta tag is missing or empty.
   */
  lemma DateCascade(web: Web, url: string)
    requires url in web
    ensures var meta := Find(web[url], PublishedMeta);
            meta.Some? && NonEmptyAttr(meta.value, "content").Some? ==>
              GetArticleDate(web, url) == Some(meta.value.attrs["content"])
    ensures var meta := Find(web[url], PublishedMeta);
            var time := Find(web[url], ArticleTime);
            !(meta.Some? && NonEmptyAttr(meta.value, "content").Some?) ==>
              GetArticleDate(web, url) == (if time.Some? then NonEmptyAttr(time.value, "datetime") else None)
    ensures GetArticleDate(web, url).None? <==>
              (Find(web[url], PublishedMeta).None? || NonEmptyAttr(Find(web[url], PublishedMeta).value, "content").None?) &&
              (Find(web[url], ArticleTime).None? || NonEmptyAttr(Find(web[url], ArticleTime).value, "datetime").None?)
  {
  }

  // ---------------------------------------------------------------------------
  // One listing item
  // ---------------------------------------------------------------------------

  /**
   * The title link: the first `a.entry__title` below the item; failing that,
   * the first `a` below the item's first `h2`; failing that, none.
   */
  function TitleTag(item: Node): (r: Option<Node>)
  {
    var primary := Find(item, TitleLink);
    if primary.Some? then primary
    else
      var h2 := Find(item, Named("h2"));
      if h2.None? then None else Find(h2.value, Named("a"))
  }

  /**
   * The title link is an `a` below the item; the first `a.entry__title` wins;
   * without one, it is the first `a` below the item's first `h2`; there is none
   * exactly when there is no `a.entry__title` and no `a` below the item's first
   * `h2`.
   */
  lemma TitleTagSpec(item: Node)
    ensures var r := TitleTag(item);
            (r.Some? ==> r.value.Tag? && r.value.name == "a" && r.value in Descendants(item)) &&
            (Find(item, TitleLink).Some? ==> r == Find(item, TitleLink)) &&
            (Find(item, TitleLink).None? && Find(item, Named("h2")).Some? ==>
               r == Find(Find(item, Named("h2")).value, Named("a"))) &&
            (r.None? <==> Find(item, TitleLink).None? &&
                          (Find(item, Named("h2")).None? || Find(Find(item, Named("h2")).value, Named("a")).None?))
  {
    var h2 := Find(item, Named("h2"));
    if Find(item, TitleLink).None? && h2.Some? {
      DescendantsClosed(item, h2.value);
    }
  }

  /** `title_tag['href']`, which raises `KeyError` (`None` here) when the attribute is absent. */
  function Href(t: Node): Option<string>
  {
    if t.Tag? && "href" in t.attrs then Some(t.attrs["href"]) else None
  }

  /** A root-relative href is resolved against the site's origin; any other href is kept. */
  function NormalizeLink(href: string): (r: string)
    ensures |r| >= |href| && r[|r| - |href|..] == href
    ensures "/" <= href ==> r == Origin + href
    ensures !("/" <= href) ==> r == href
  {
    if "/" <= href then Origin + href else href
  }

  /** Resolving is done once: a resolved link is never resolved again. */
  lemma NormalizeLinkIdempotent(href: string)
    ensures NormalizeLink(NormalizeLink(href)) == NormalizeLink(href)
    ensures "/" <= href ==> !("/" <= NormalizeLink(href))
  {
    assert Origin[0] == 'h';
    if "/" <= href {
      assert NormalizeLink(href)[0] == 'h';
    }
  }

  /**
   * The description: the stripped text of the first `div.entry__lead`, failing
   * that of the first `p.article__lead`, failing that the empty string.
   */
  function Description(item: Node): (r: string)
  {
    var lead := Find(item, EntryLead);
    if lead.Some? then GetText(lead.value)
    else
      var p := Find(item, ArticleLead);
      if p.Some? then GetText(p.value) else []
  }

  /**
   * The description is trimmed; it is the text of the first `div.entry__lead`,
   * else of the first `p.article__lead`; it is non-empty only if one of them exists.
   */
  lemma DescriptionSpec(item: Node)
    ensures var r := Description(item);
            Trimmed(r) &&
            (Find(item, EntryLead).Some? ==> r == GetText(Find(item, EntryLead).value)) &&
            (Find(item, EntryLead).None? && Find(item, ArticleLead).Some? ==>
               r == GetText(Find(item, ArticleLead).value)) &&
            (r != [] ==> Find(item, EntryLead).Some? || Find(item, ArticleLead).Some?)
  {
  }

  /**
   * What the loop body makes of one item: nothing when it has no title link or
   * the link has no `href` (the `continue` and the caught `KeyError`), otherwise
   * a record whose date is the detail page's date or, failing that, `nowIso`.
   */
  function ParseItem(item: Node, web: Web, nowIso: string): (r: Option<Article>)
  {
    match TitleTag(item)
    case None => None
    case Some(t) =>
      match Href(t)
      case None => None
      case Some(href) =>
        var link := NormalizeLink(href);
        var date := GetArticleDate(web, link);
        Some(Article(GetText(t), link, Description(item), date.GetOr(nowIso)))
  }

  /**
   * A title link with an empty `href` is not skipped: the item is emitted with
   * an empty link (an empty string does not start with `/`).
   */
  lemma EmptyHrefIsKept(item: Node, web: Web, nowIso: string)
    requires TitleTag(item).Some? && Href(TitleTag(item).value) == Some("")
    ensures ParseItem(item, web, nowIso).Some? && ParseItem(item, web, nowIso).value.link == []
  {
  }

  /**
   * An item is skipped exactly when it has no title link or the link has no
   * `href`; otherwise its record carries the link's text, the resolved link, the
   * description, and the detail page's date or else `nowIso`.
   */
  lemma ParseItemSpec(item: Node, web: Web, nowIso: string)
    ensures var r := ParseItem(item, web, nowIso);
            (r.None? <==> TitleTag(item).None? || Href(TitleTag(item).value).None?) &&
            (r.Some? ==>
               r.value.title == GetText(TitleTag(item).value) &&
               r.value.link == NormalizeLink(TitleTag(item).value.attrs["href"]) &&
               r.value.description == Description(item) &&
               r.value.pubDate == GetArticleDate(web, r.value.link).GetOr(nowIso) &&
               (r.value.pubDate != [] || r.value.pubDate == nowIso))
  {
    if TitleTag(item).Some? && Href(TitleTag(item).value).Some? {
      GetArticleDateSpec(web, NormalizeLink(TitleTag(item).value.attrs["href"]));
    }
  }

  /** The URL the item's detail-page lookup requests, if the item gets that far. */
  function DetailRequest(item: Node): (r: Option<string>)
  {
    match TitleTag(item)
    case None => None
    case Some(t) =>
      match Href(t)
      case None => None
      case Some(href) => Some(NormalizeLink(href))
  }

  /** The link of an item's record, when the item yields one. */
  function LinkOf(o: Option<Article>): Option<string>
  {
    if o.Some? then Some(o.value.link) else None
  }

  /**
   * An item's detail page is requested exactly when the item yields a record,
   * and the URL requested is that record's link.
   */
  lemma DetailRequestIsLink(item: Node, web: Web, nowIso: string)
    ensures DetailRequest(item) == LinkOf(ParseItem(item, web, nowIso))
  {
  }

  // ---------------------------------------------------------------------------
  // One listing page
  // ---------------------------------------------------------------------------

  /** `find_all('article', class_='entry')`, or `find_all('div', class_='article')` when that is empty. */
  function ItemNodes(page: Node): (r: seq<Node>)
    ensures forall i :: 0 <= i < |r| ==> r[i] in Descendants(page)
  {
    var entries := FindAll(page, Entry);
    if entries != [] then entries else FindAll(page, DivArticle)
  }

  /**
   * Entries take precedence: if any `article.entry` lies below the page, the items
   * are exactly the entries in document order and no `div.article` is among them;
   * only when there is none are the `div.article` nodes the items.
   */
  lemma ItemSelection(page: Node)
    ensures (exists m :: m in Descendants(page) && Matches(m, Entry)) ==>
              ItemNodes(page) == Filter(Descendants(page), Entry) &&
              forall i :: 0 <= i < |ItemNodes(page)| ==> ItemNodes(page)[i].name == "article"
    ensures (forall m :: m in Descendants(page) ==> !Matches(m, Entry)) ==>
              ItemNodes(page) == Filter(Descendants(page), DivArticle)
  {
  }

  /** `f` applied to every item, in order. */
  function MapItems<T>(items: seq<Node>, f: Node -> T): (r: seq<T>)
    ensures |r| == |items|
    ensures forall i :: 0 <= i < |items| ==> r[i] == f(items[i])
    decreases |items|
  {
    if items == [] then [] else MapItems(items[..|items| - 1], f) + [f(items[|items| - 1])]
  }

  lemma MapItemsAppend<T>(a: seq<Node>, b: seq<Node>, f: Node -> T)
    ensures MapItems(a + b, f) == MapItems(a, f) + MapItems(b, f)
  {
    var l, r := MapItems(a + b, f), MapItems(a, f) + MapItems(b, f);
    forall k | 0 <= k < |l| ensures l[k] == r[k] {
      if k < |a| { assert (a + b)[k] == a[k]; } else { assert (a + b)[k] == b[k - |a|]; }
    }
  }

  /**
   * The values that are present, in order: what the `continue`s of the item loop
   * leave of the items' outcomes.
   */
  function Somes<T>(os: seq<Option<T>>): (r: seq<T>)
    ensures |r| <= |os|
    decreases |os|
  {
    if os == [] then []
    else Somes(os[..|os| - 1]) + (if os[|os| - 1].Some? then [os[|os| - 1].value] else [])
  }

  lemma {:induction false} SomesAppend<T>(a: seq<Option<T>>, b: seq<Option<T>>)
    ensures Somes(a + b) == Somes(a) + Somes(b)
    decreases |b|
  {
    if b == [] {
      assert a + b == a;
    } else {
      var b' := b[..|b| - 1];
      assert (a + b)[..|a + b| - 1] == a + b';
      assert (a + b)[|a + b| - 1] == b[|b| - 1];
      SomesAppend(a, b');
    }
  }

  /** One more step of a map-then-keep loop: the next item's value, if any, is appended. */
  lemma KeepStep<T>(items: seq<Node>, i: nat, f: Node -> Option<T>)
    requires i < |items|
    ensures Somes(MapItems(items[..i + 1], f)) ==
            Somes(MapItems(items[..i], f)) + (if f(items[i]).Some? then [f(items[i]).value] else [])
  {
    assert items[..i + 1] == items[..i] + [items[i]];
    MapItemsAppend(items[..i], [items[i]], f);
    SomesAppend(MapItems(items[..i], f), [f(items[i])]);
  }

  /** Every value kept was present at some position of the input. */
  lemma {:induction false} SomesFrom<T>(os: seq<Option<T>>, k: nat)
    requires k < |Somes(os)|
    ensures exists i :: 0 <= i < |os| && os[i] == Some(Somes(os)[k])
    decreases |os|
  {
    var init := os[..|os| - 1];
    if k < |Somes(init)| {
      SomesFrom(init, k);
      var i :| 0 <= i < |init| && init[i] == Some(Somes(init)[k]);
      assert os[i] == init[i];
    } else {
      assert os[|os| - 1] == Some(Somes(os)[k]);
    }
  }

  /** Taking the links of the kept records is keeping the links of the records. */
  lemma {:induction false} SomesLinks(os: seq<Option<Article>>, ls: seq<Option<string>>)
    requires |ls| == |os|
    requires forall i :: 0 <= i < |os| ==> ls[i] == LinkOf(os[i])
    ensures Somes(ls) == Links(Somes(os))
    decreases |os|
  {
    if os != [] {
      var n := |os| - 1;
      SomesLinks(os[..n], ls[..n]);
      var recs := Somes(os[..n]);
      assert ls[n] == LinkOf(os[n]);
      if os[n].Some? {
        assert Links(recs + [os[n].value]) == Links(recs) + [os[n].value.link] by {
          assert (recs + [os[n].value])[..|recs|] == recs;
        }
      } else {
        assert recs + [] == recs;
      }
    }
  }

  /** The loop body as a function of the item. */
  function ItemParser(web: Web, nowIso: string): Node -> Option<Article>
  {
    item => ParseItem(item, web, nowIso)
  }

  /** The records one page contributes, in the order of its items. */
  function PageRecords(items: seq<Node>, web: Web, nowIso: string): (r: seq<Article>)
    ensures |r| <= |items|
  {
    Somes(MapItems(items, ItemParser(web, nowIso)))
  }

  /** The detail pages one listing page causes to be requested, in order. */
  function PageRequests(items: seq<Node>): (r: seq<string>)
    ensures |r| <= |items|
  {
    Somes(MapItems(items, DetailRequest))
  }

  /** Records keep document order: the items of `a` come before those of `b`. */
  lemma PageRecordsAppend(a: seq<Node>, b: seq<Node>, web: Web, nowIso: string)
    ensures PageRecords(a + b, web, nowIso) == PageRecords(a, web, nowIso) + PageRecords(b, web, nowIso)
  {
    var f := ItemParser(web, nowIso);
    MapItemsAppend(a, b, f);
    SomesAppend(MapItems(a, f), MapItems(b, f));
  }

  /** Every record is what `ParseItem` makes of one of the page's items. */
  lemma RecordsComeFromItems(items: seq<Node>, web: Web, nowIso: string, k: nat)
    requires k < |PageRecords(items, web, nowIso)|
    ensures exists i :: 0 <= i < |items| && ParseItem(items[i], web, nowIso) == Some(PageRecords(items, web, nowIso)[k])
  {
    var os := MapItems(items, ItemParser(web, nowIso));
    SomesFrom(os, k);
    var i :| 0 <= i < |os| && os[i] == Some(Somes(os)[k]);
    assert os[i] == ParseItem(items[i], web, nowIso);
  }

  function Links(records: seq<Article>): (r: seq<string>)
    ensures |r| == |records|
    ensures forall i :: 0 <= i < |r| ==> r[i] == records[i].link
  {
    if records == [] then [] else Links(records[..|records| - 1]) + [records[|records| - 1].link]
  }

  /**
   * Every item that gets as far as the date lookup is also emitted: the detail
   * pages requested are exactly the links of the page's records, in order.
   */
  lemma RequestsAreRecordLinks(items: seq<Node>, web: Web, nowIso: string)
    ensures PageRequests(items) == Links(PageRecords(items, web, nowIso))
  {
    var os := MapItems(items, ItemParser(web, nowIso));
    var ls := MapItems(items, DetailRequest);
    forall i | 0 <= i < |items| ensures ls[i] == LinkOf(os[i]) {
      DetailRequestIsLink(items[i], web, nowIso);
    }
    SomesLinks(os, ls);
  }

  // ---------------------------------------------------------------------------
  // The whole run
  // ---------------------------------------------------------------------------

  /** The records of listing page `page`; none when its GET fails. */
  function PageArticles(web: Web, nowIso: string, page: nat): (r: seq<Article>)
  {
    var url := PageUrl(page);
    if url in web then PageRecords(ItemNodes(web[url]), web, nowIso) else []
  }

  /** The records of pages 1 to `n`, page by page. */
  function ScrapeUpTo(web: Web, nowIso: string, n: nat): (r: seq<Article>)
  {
    if n == 0 then [] else ScrapeUpTo(web, nowIso, n - 1) + PageArticles(web, nowIso, n)
  }

  /** Every GET issued for pages 1 to `n`: each listing page, then its detail pages. */
  function TraceUpTo(web: Web, n: nat): (r: seq<string>)
    ensures |r| >= n
  {
    if n == 0 then []
    else
      var url := PageUrl(n);
      TraceUpTo(web, n - 1) + [url] + (if url in web then PageRequests(ItemNodes(web[url])) else [])
  }

  /** The records `scrape_bankier_news` returns. */
  function Scrape(web: Web, nowIso: string): seq<Article>
  {
    ScrapeUpTo(web, nowIso, LastPage)
  }

  /** The GETs `scrape_bankier_news` issues, in order. */
  function RequestTrace(web: Web): seq<string>
  {
    TraceUpTo(web, LastPage)
  }

  /**
   * The body of the item loop for one item: the record it appends and the detail
   * page it requests, `None` where a `continue` is taken first.
   */
  method ScrapeItem(item: Node, web: Web, nowIso: string) returns (record: Option<Article>, requested: Option<string>)
    ensures record == ParseItem(item, web, nowIso)
    ensures requested == DetailRequest(item)
  {
    record, requested := None, None;
    var titleTag := TitleTag(item);
    if titleTag.None? {
      return;
    }
    var href := Href(titleTag.value);
    if href.None? {
      return;
    }
    var title := GetText(titleTag.value);
    var link := NormalizeLink(href.value);
    var description := Description(item);
    requested := Some(link);
    var pubDate := GetArticleDate(web, link);
    if pubDate.None? {
      pubDate := Some(nowIso);
    }
    record := Some(Article(title, link, description, pubDate.value));
  }

  /** The item loop of one listing page. */
  method ScrapeItems(items: seq<Node>, web: Web, nowIso: string) returns (records: seq<Article>, requested: seq<string>)
    ensures records == PageRecords(items, web, nowIso)
    ensures requested == PageRequests(items)
  {
    records, requested := [], [];
    var i := 0;
    while i < |items|
      invariant 0 <= i <= |items|
      invariant records == PageRecords(items[..i], web, nowIso)
      invariant requested == PageRequests(items[..i])
    {
      var record, link := ScrapeItem(items[i], web, nowIso);
      KeepStep(items, i, ItemParser(web, nowIso));
      KeepStep(items, i, DetailRequest);
      if record.Some? {
        records := records + [record.value];
      }
      if link.Some? {
        requested := requested + [link.value];
      }
      i := i + 1;
    }
    assert items[..i] == items;
  }

  /**
   * `scrape_bankier_news`: for page 1 and then page 2, fetch the listing (a failed
   * fetch skips the page), select its items and append one record per usable item.
   */
  method ScrapeBankierNews(web: Web, nowIso: string) returns (articles: seq<Article>, requested: seq<string>)
    ensures articles == Scrape(web, nowIso)
    ensures requested == RequestTrace(web)
  {
    articles, requested := [], [];
    var page := 1;
    while page <= LastPage
      invariant 1 <= page <= LastPage + 1
      invariant articles == ScrapeUpTo(web, nowIso, page - 1)
      invariant requested == TraceUpTo(web, page - 1)
    {
      var url := PageUrl(page);
      requested := requested + [url];
      if url in web {
        var items := ItemNodes(web[url]);
        var records, detailRequests := ScrapeItems(items, web, nowIso);
        articles := articles + records;
        requested := requested + detailRequests;
      }
      page := page + 1;
    }
  }

  /**
   * The order of the GETs: page 1 at the bare section URL, the detail pages of
   * page 1's records, page 2 at `?page=2`, then the detail pages of page 2's records.
   */
  lemma RequestOrder(web: Web, nowIso: string)
    ensures RequestTrace(web) ==
      [BaseUrl] + Links(PageArticles(web, nowIso, 1)) +
      [BaseUrl + "?page=2"] + Links(PageArticles(web, nowIso, 2))
  {
    PageUrls();
    PageRequestsAreLinks(web, nowIso, 1);
    PageRequestsAreLinks(web, nowIso, 2);
    var u1, u2 := PageUrl(1), PageUrl(2);
    var r1 := if u1 in web then PageRequests(ItemNodes(web[u1])) else [];
    var r2 := if u2 in web then PageRequests(ItemNodes(web[u2])) else [];
    var l1, l2 := Links(PageArticles(web, nowIso, 1)), Links(PageArticles(web, nowIso, 2));
    assert r1 == l1 && r2 == l2;
    assert TraceUpTo(web, 1) == [] + [u1] + r1;
    assert [] + [u1] == [u1];
    var t1 := [u1] + l1;
    assert TraceUpTo(web, 1) == t1;
    assert TraceUpTo(web, 2) == t1 + [u2] + l2;
  }

  /** The detail pages a listing page causes to be requested are its records' links. */
  lemma PageRequestsAreLinks(web: Web, nowIso: string, page: nat)
    ensures (if PageUrl(page) in web then PageRequests(ItemNodes(web[PageUrl(page)])) else []) ==
            Links(PageArticles(web, nowIso, page))
  {
    if PageUrl(page) in web {
      RequestsAreRecordLinks(ItemNodes(web[PageUrl(page)]), web, nowIso);
    }
  }

  /** The records of page 1 come before those of page 2. */
  lemma PageOrder(web: Web, nowIso: string)
    ensures Scrape(web, nowIso) == PageArticles(web, nowIso, 1) + PageArticles(web, nowIso, 2)
  {
    assert ScrapeUpTo(web, nowIso, 1) == PageArticles(web, nowIso, 1);
  }

  /** With a non-empty current time, every record carries a non-empty date. */
  lemma RecordsHaveDates(items: seq<Node>, web: Web, nowIso: string)
    requires nowIso != []
    ensures forall a :: a in PageRecords(items, web, nowIso) ==> a.pubDate != []
  {
    var recs := PageRecords(items, web, nowIso);
    forall k | 0 <= k < |recs| ensures recs[k].pubDate != [] {
      RecordsComeFromItems(items, web, nowIso, k);
      var i :| 0 <= i < |items| && ParseItem(items[i], web, nowIso) == Some(recs[k]);
      ParseItemSpec(items[i], web, nowIso);
    }
  }

  /** Lifted to the whole run: with a non-empty current time no record lacks a date. */
  lemma ScrapeHasDates(web: Web, nowIso: string)
    requires nowIso != []
    ensures forall a :: a in Scrape(web, nowIso) ==> a.pubDate != []
  {
    PageOrder(web, nowIso);
    forall page | 1 <= page <= 2
      ensures forall a :: a in PageArticles(web, nowIso, page) ==> a.pubDate != []
    {
      if PageUrl(page) in web {
        RecordsHaveDates(ItemNodes(web[PageUrl(page)]), web, nowIso);
      }
    }
  }

  /**
   * Every record's link is an `href` of a title link inside one of the page's
   * items, resolved by `NormalizeLink`.
   */
  lemma RecordLinksFromHrefs(items: seq<Node>, web: Web, nowIso: string, k: nat)
    requires k < |PageRecords(items, web, nowIso)|
    ensures exists i, t :: 0 <= i < |items| && TitleTag(items[i]) == Some(t) && "href" in t.attrs &&
              PageRecords(items, web, nowIso)[k].link == NormalizeLink(t.attrs["href"])
  {
    RecordsComeFromItems(items, web, nowIso, k);
    var i :| 0 <= i < |items| && ParseItem(items[i], web, nowIso) == Some(PageRecords(items, web, nowIso)[k]);
    var t := TitleTag(items[i]).value;
    assert Href(t).Some?;
    assert PageRecords(items, web, nowIso)[k].link == NormalizeLink(t.attrs["href"]);
  }
}
