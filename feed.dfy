/**
 * The feed half of the scraper (`generate_rss`): the RSS 2.0 element tree,
 * the per-item conversion of the publication date to RFC 822 form, and the
 * removal of blank lines from the serialised document.
 *
 * The date library (`datetime.fromisoformat`, the Europe/Warsaw offset from
 * pytz and `strftime('%a, %d %b %Y %H:%M:%S %z')`) is a parameter, as is the
 * pretty-printer that turns the tree into text.
 */
module FeedBuilder {
  import opened Wrappers
  import opened Text
  import Extractor

  /** A wall-clock date and time without a zone. */
  datatype Civil = Civil(year: int, month: int, day: int, hour: int, minute: int, second: int, microsecond: int)

  /** A parsed ISO-8601 value: naive when `offset` (seconds east of UTC) is `None`. */
  datatype Stamp = Stamp(civil: Civil, offset: Option<int>)

  /**
   * The library calls `generate_rss` makes: `fromIsoFormat` is `None` where
   * `datetime.fromisoformat` raises; `warsawOffset` is the offset
   * `warsaw_tz.localize` attaches to a naive time; `rfc822` is `strftime` with
   * the RFC 822 pattern.
   */
  datatype TimeLib = TimeLib(
    fromIsoFormat: string -> Option<Stamp>,
    warsawOffset: Civil -> int,
    rfc822: (Civil, int) -> string)

  /** An ElementTree element: tag, attributes, text and sub-elements. */
  datatype Element = Element(tag: string, attrs: map<string, string>, text: string, children: seq<Element>)

  /** A sub-element holding only text. */
  function Leaf(tag: string, text: string): Element
  {
    Element(tag, map[], text, [])
  }

  const ChannelTitle: string := "Bankier.pl - Wiadomości"
  const ChannelLink: string := "https://www.bankier.pl/wiadomosc/"
  const ChannelDescription: string := "Najnowsze wiadomości z Bankier.pl"
  const RssAttrs: map<string, string> := map["version" := "2.0", "xmlns:atom" := "http://www.w3.org/2005/Atom"]

  /** What `replace('Z', '+00:00')` hands to `fromisoformat`. */
  function IsoInput(pubDate: string): (r: string)
    ensures 'Z' !in r
    ensures 'Z' !in pubDate ==> r == pubDate
  {
    ReplaceAllSpec(pubDate, 'Z', "+00:00");
    ReplaceAll(pubDate, 'Z', "+00:00")
  }

  /**
   * The `pubDate` text of one item: a string holding a `T` is read as ISO 8601
   * (every `Z` made `+00:00`, a naive value placed in Warsaw time) and formatted
   * per RFC 822, or replaced by the build time `nowRfc` when it does not parse;
   * any other string is used as it is.
   */
  function PubDateText(pubDate: string, lib: TimeLib, nowRfc: string): (r: string)
    ensures 'T' !in pubDate ==> r == pubDate
    ensures 'T' in pubDate && lib.fromIsoFormat(IsoInput(pubDate)).None? ==> r == nowRfc
    ensures 'T' in pubDate && lib.fromIsoFormat(IsoInput(pubDate)).Some? ==>
              var st := lib.fromIsoFormat(IsoInput(pubDate)).value;
              r == lib.rfc822(st.civil, st.offset.GetOr(lib.warsawOffset(st.civil)))
  {
    if 'T' in pubDate then
      match lib.fromIsoFormat(IsoInput(pubDate))
      case None => nowRfc
      case Some(st) =>
        var offset := if st.offset.Some? then st.offset.value else lib.warsawOffset(st.civil);
        lib.rfc822(st.civil, offset)
    else pubDate
  }

  /**
   * A UTC stamp written with a trailing `Z`: the parser sees the same text with
   * `+00:00` in place of the `Z`, so an offset of zero is what gets formatted.
   */
  lemma ZuluIsUtc(prefix: string, lib: TimeLib, nowRfc: string, c: Civil)
    requires 'T' in prefix && 'Z' !in prefix
    requires lib.fromIsoFormat(prefix + "+00:00") == Some(Stamp(c, Some(0)))
    ensures PubDateText(prefix + "Z", lib, nowRfc) == lib.rfc822(c, 0)
  {
    ReplaceAllParts('Z', "+00:00", prefix, []);
    assert prefix + "Z" == prefix + ['Z'] + [];
    assert IsoInput(prefix + "Z") == prefix + "+00:00";
    assert 'T' in prefix + "Z";
  }

  /** A UTC stamp written with `Z`, such as `2024-01-15T10:30:00Z`, is formatted at offset 0. */
  lemma ZuluExample(lib: TimeLib, nowRfc: string)
    requires lib.fromIsoFormat("2024-01-15T10:30:00+00:00") ==
             Some(Stamp(Civil(2024, 1, 15, 10, 30, 0, 0), Some(0)))
    ensures PubDateText("2024-01-15T10:30:00Z", lib, nowRfc) ==
            lib.rfc822(Civil(2024, 1, 15, 10, 30, 0, 0), 0)
  {
    assert 'T' == "2024-01-15T10:30:00"[10];
    assert "2024-01-15T10:30:00" + "Z" == "2024-01-15T10:30:00Z";
    assert "2024-01-15T10:30:00" + "+00:00" == "2024-01-15T10:30:00+00:00";
    ZuluIsUtc("2024-01-15T10:30:00", lib, nowRfc, Civil(2024, 1, 15, 10, 30, 0, 0));
  }

  /** A naive ISO value is formatted at the Warsaw offset for that wall-clock time. */
  lemma NaiveGetsWarsawOffset(pubDate: string, lib: TimeLib, nowRfc: string, c: Civil)
    requires 'T' in pubDate
    requires lib.fromIsoFormat(IsoInput(pubDate)) == Some(Stamp(c, None))
    ensures PubDateText(pubDate, lib, nowRfc) == lib.rfc822(c, lib.warsawOffset(c))
  {
  }

  /**
   * The `T` test is on the whole string: an RFC 822 date on a Tuesday or a
   * Thursday holds a `T`, goes to the ISO parser and, rejected there, is
   * replaced by the build time instead of being kept.
   */
  lemma RfcThursdayIsReplaced(pubDate: string, lib: TimeLib, nowRfc: string)
    requires "Thu" <= pubDate
    requires lib.fromIsoFormat(IsoInput(pubDate)).None?
    ensures PubDateText(pubDate, lib, nowRfc) == nowRfc
  {
    assert pubDate[0] == 'T';
  }

  /**
   * The pubDate step never fails: whatever the input, the text is the input,
   * the build time, or a formatted stamp.
   */
  lemma PubDateNeverFails(pubDate: string, lib: TimeLib, nowRfc: string)
    ensures var r := PubDateText(pubDate, lib, nowRfc);
            r == pubDate || r == nowRfc ||
            exists st: Stamp :: r == lib.rfc822(st.civil, st.offset.GetOr(lib.warsawOffset(st.civil))) &&
                         lib.fromIsoFormat(IsoInput(pubDate)) == Some(st)
  {
  }

  /** The five fixed children that open the channel. */
  function ChannelMetadata(nowRfc: string): (r: seq<Element>)
    ensures |r| == 5
  {
    [Leaf("title", ChannelTitle), Leaf("link", ChannelLink), Leaf("description", ChannelDescription),
     Leaf("language", "pl"), Leaf("lastBuildDate", nowRfc)]
  }

  /** The `item` element of one article. */
  function ItemElement(a: Extractor.Article, lib: TimeLib, nowRfc: string): (e: Element)
  {
    Element("item", map[], [],
      [Leaf("title", a.title), Leaf("link", a.link), Leaf("description", a.description),
       Leaf("guid", a.link), Leaf("pubDate", PubDateText(a.pubDate, lib, nowRfc))])
  }

  /** One `item` per article, in the articles' order. */
  function Items(articles: seq<Extractor.Article>, lib: TimeLib, nowRfc: string): (r: seq<Element>)
    ensures |r| == |articles|
    ensures forall i :: 0 <= i < |r| ==> r[i] == ItemElement(articles[i], lib, nowRfc)
    decreases |articles|
  {
    if articles == [] then []
    else Items(articles[..|articles| - 1], lib, nowRfc) + [ItemElement(articles[|articles| - 1], lib, nowRfc)]
  }

  /** The tree `generate_rss` builds before serialising it. */
  function RssTree(articles: seq<Extractor.Article>, lib: TimeLib, nowRfc: string): (e: Element)
  {
    Element("rss", RssAttrs, [], [Element("channel", map[], [], ChannelMetadata(nowRfc) + Items(articles, lib, nowRfc))])
  }

  /** The channel of a tree built by `RssTree`. */
  function Channel(rss: Element): (r: Option<Element>)
  {
    if |rss.children| == 1 then Some(rss.children[0]) else None
  }

  predicate IsItemOf(e: Element, a: Extractor.Article, lib: TimeLib, nowRfc: string)
  {
    e.tag == "item" && |e.children| == 5 &&
    e.children[0].tag == "title" && e.children[0].text == a.title &&
    e.children[1].tag == "link" && e.children[1].text == a.link &&
    e.children[2].tag == "description" && e.children[2].text == a.description &&
    e.children[3].tag == "guid" && e.children[3].text == e.children[1].text &&
    e.children[4].tag == "pubDate" && e.children[4].text == PubDateText(a.pubDate, lib, nowRfc)
  }

  /**
   * The layout of the feed: an `rss` root (version 2.0, Atom namespace) with one
   * `channel`; the channel opens with title, link, description, language `pl` and
   * lastBuildDate, then holds exactly one `item` per article, in order, each with
   * title, link, description, a `guid` equal to the link, and pubDate.
   */
  lemma FeedLayout(articles: seq<Extractor.Article>, lib: TimeLib, nowRfc: string)
    ensures var rss := RssTree(articles, lib, nowRfc);
            rss.tag == "rss" && rss.attrs["version"] == "2.0" &&
            rss.attrs["xmlns:atom"] == "http://www.w3.org/2005/Atom" &&
            Channel(rss).Some? && Channel(rss).value.tag == "channel" &&
            var kids := Channel(rss).value.children;
            |kids| == 5 + |articles| &&
            kids[0] == Leaf("title", ChannelTitle) && kids[1] == Leaf("link", ChannelLink) &&
            kids[2] == Leaf("description", ChannelDescription) && kids[3] == Leaf("language", "pl") &&
            kids[4] == Leaf("lastBuildDate", nowRfc) &&
            (forall k :: 0 <= k < 5 ==> kids[k].tag != "item") &&
            (forall i :: 0 <= i < |articles| ==> IsItemOf(kids[5 + i], articles[i], lib, nowRfc))
  {
    var kids := ChannelMetadata(nowRfc) + Items(articles, lib, nowRfc);
    assert Channel(RssTree(articles, lib, nowRfc)) == Some(Element("channel", map[], [], kids));
    ChannelHead(nowRfc, Items(articles, lib, nowRfc));
    ChannelItems(articles, lib, nowRfc);
  }

  /** The five metadata elements stay in front, whatever follows them. */
  lemma ChannelHead(nowRfc: string, items: seq<Element>)
    ensures var kids := ChannelMetadata(nowRfc) + items;
            |kids| == 5 + |items| &&
            kids[0] == Leaf("title", ChannelTitle) && kids[1] == Leaf("link", ChannelLink) &&
            kids[2] == Leaf("description", ChannelDescription) && kids[3] == Leaf("language", "pl") &&
            kids[4] == Leaf("lastBuildDate", nowRfc) &&
            (forall k :: 0 <= k < 5 ==> kids[k].tag != "item") &&
            (forall i :: 0 <= i < |items| ==> kids[5 + i] == items[i])
  {
  }

  /** Each element `Items` produces is the `item` of the article at the same position. */
  lemma ChannelItems(articles: seq<Extractor.Article>, lib: TimeLib, nowRfc: string)
    ensures forall i :: 0 <= i < |articles| ==> IsItemOf(Items(articles, lib, nowRfc)[i], articles[i], lib, nowRfc)
  {
    forall i | 0 <= i < |articles| ensures IsItemOf(Items(articles, lib, nowRfc)[i], articles[i], lib, nowRfc) {
      ItemShape(articles[i], lib, nowRfc);
    }
  }

  /** The `item` of an article holds its five fields, and its `guid` is its link. */
  lemma ItemShape(a: Extractor.Article, lib: TimeLib, nowRfc: string)
    ensures IsItemOf(ItemElement(a, lib, nowRfc), a, lib, nowRfc)
  {
  }

  /** The number of elements of `es` whose tag is `item`. */
  function CountItems(es: seq<Element>): (n: nat)
    ensures n <= |es|
  {
    if es == [] then 0 else CountItems(es[..|es| - 1]) + (if es[|es| - 1].tag == "item" then 1 else 0)
  }

  lemma {:induction false} CountAllItems(es: seq<Element>)
    requires forall k :: 0 <= k < |es| ==> es[k].tag == "item"
    ensures CountItems(es) == |es|
  {
    if es != [] {
      CountAllItems(es[..|es| - 1]);
    }
  }

  lemma {:induction false} CountNoItems(es: seq<Element>)
    requires forall k :: 0 <= k < |es| ==> es[k].tag != "item"
    ensures CountItems(es) == 0
  {
    if es != [] {
      CountNoItems(es[..|es| - 1]);
    }
  }

  lemma {:induction false} CountAppend(a: seq<Element>, b: seq<Element>)
    ensures CountItems(a + b) == CountItems(a) + CountItems(b)
    decreases |b|
  {
    if b != [] {
      assert (a + b)[..|a + b| - 1] == a + b[..|b| - 1];
      assert (a + b)[|a + b| - 1] == b[|b| - 1];
      CountAppend(a, b[..|b| - 1]);
    } else {
      assert a + b == a;
    }
  }

  /** One `item` per article; so an empty list gives a channel with no `item` at all. */
  lemma ItemCount(articles: seq<Extractor.Article>, lib: TimeLib, nowRfc: string)
    ensures CountItems(Channel(RssTree(articles, lib, nowRfc)).value.children) == |articles|
    ensures articles == [] ==>
              forall k :: 0 <= k < |Channel(RssTree(articles, lib, nowRfc)).value.children| ==>
                Channel(RssTree(articles, lib, nowRfc)).value.children[k].tag != "item"
  {
    var meta := ChannelMetadata(nowRfc);
    var items := Items(articles, lib, nowRfc);
    CountAppend(meta, items);
    CountAllItems(items);
    CountNoItems(meta);
    if articles == [] {
      assert meta + items == meta;
    }
  }

  /** `generate_rss` keeps the articles' order: items of a list split in two are the two parts' items. */
  lemma {:induction false} ItemsAppend(a: seq<Extractor.Article>, b: seq<Extractor.Article>, lib: TimeLib, nowRfc: string)
    ensures Items(a + b, lib, nowRfc) == Items(a, lib, nowRfc) + Items(b, lib, nowRfc)
  {
    var l := Items(a + b, lib, nowRfc);
    var r := Items(a, lib, nowRfc) + Items(b, lib, nowRfc);
    assert |l| == |r|;
    forall k | 0 <= k < |l| ensures l[k] == r[k] {
      if k < |a| {
        assert (a + b)[k] == a[k];
      } else {
        assert (a + b)[k] == b[k - |a|];
      }
    }
  }

  /**
   * `generate_rss`: build the root and the channel, append the five metadata
   * elements, then one `item` per article, and return the serialised tree with
   * its blank lines removed. `serialize` gives `None` where `ET.tostring`
   * followed by `minidom.parseString` raises (a character XML forbids in some
   * text); `generate_rss` does not catch that, so the whole call fails.
   */
  method GenerateRss(articles: seq<Extractor.Article>, lib: TimeLib, nowRfc: string, serialize: Element -> Option<string>)
    returns (tree: Element, xml: Option<string>)
    ensures tree == RssTree(articles, lib, nowRfc)
    ensures serialize(tree).None? <==> xml.None?
    ensures serialize(tree).Some? ==> xml == Some(RemoveBlankLines(serialize(tree).value))
  {
    var channel := [];
    channel := channel + [Leaf("title", ChannelTitle)];
    channel := channel + [Leaf("link", ChannelLink)];
    channel := channel + [Leaf("description", ChannelDescription)];
    channel := channel + [Leaf("language", "pl")];
    channel := channel + [Leaf("lastBuildDate", nowRfc)];
    var i := 0;
    while i < |articles|
      invariant 0 <= i <= |articles|
      invariant channel == ChannelMetadata(nowRfc) + Items(articles[..i], lib, nowRfc)
    {
      var article := articles[i];
      assert articles[..i + 1][..i] == articles[..i];
      var item := [Leaf("title", article.title), Leaf("link", article.link),
                   Leaf("description", article.description), Leaf("guid", article.link)];
      var pubDate := PubDateText(article.pubDate, lib, nowRfc);
      item := item + [Leaf("pubDate", pubDate)];
      assert Element("item", map[], [], item) == ItemElement(article, lib, nowRfc);
      assert Items(articles[..i + 1], lib, nowRfc) ==
             Items(articles[..i], lib, nowRfc) + [ItemElement(article, lib, nowRfc)];
      channel := channel + [Element("item", map[], [], item)];
      i := i + 1;
    }
    assert articles[..i] == articles;
    tree := Element("rss", RssAttrs, [], [Element("channel", map[], [], channel)]);
    var pretty := serialize(tree);
    if pretty.None? {
      return tree, None;
    }
    xml := Some(RemoveBlankLines(pretty.value));
  }
}
