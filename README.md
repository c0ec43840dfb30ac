# Bankier.pl news scraper and RSS feed builder — a Dafny model

The scraper reads the first two listing pages of the news section of
bankier.pl, picks out the news items, extracts a title, link, description and
publication date for each (the date comes from each article's own page), and
writes the records out as an RSS 2.0 feed. This project models that logic in
Dafny and proves properties about it. It starts from pages that are already
parsed, and it proves what the extraction cascades, the loops and the feed
builder guarantee.

Files and modules:

- `wrappers.dfy` (`Wrappers`): `Option`, which stands for Python's `None` results.
- `text.dfy` (`Text`): Python's `str.strip`, `str.replace` with a one-character
  pattern, `str.split('\n')`, `'\n'.join`, and the blank-line filter applied to
  the pretty-printed document.
- `html.dfy` (`Html`): the parsed tree (`Node`: an element with tag, class tokens,
  attributes and children, or a text run). It also has BeautifulSoup's `find_all`
  (all matching descendants in document order), `find` (the first of them) and
  `get_text(strip=True)`.
- `extractor.dfy` (`Extractor`): `get_article_date`, the title, link and
  description cascades, link resolution, item selection, and
  `scrape_bankier_news`. The scrape is a method with loops, proved equal to
  the specification function `Scrape`. It also returns the list of URLs it
  tried to request.
- `feed.dfy` (`FeedBuilder`): the pubDate conversion, the element tree that
  `generate_rss` builds, and `GenerateRss`, a method with a loop proved equal
  to the specification function `RssTree`.

Inputs that the source reads from the outside world are parameters here:

- The network is a `map` from URL to the parsed page a GET of that URL gives.
  For a listing page, a URL that is not in the map stands for a timeout, a
  connection error, or a non-2xx status raised by `raise_for_status`. The
  detail-page GET in `get_article_date` never checks the status, so for a
  detail URL the map holds whatever body came back, an error page included;
  only a timeout, a connection error or a URL that `requests` refuses is absent.
- The current time is two strings. `nowIso` is what `datetime.now(warsaw).isoformat()`
  gives the scraper. `nowRfc` is what the feed builder's `now.strftime(...)` gives.
- The date library is a `TimeLib` holding three functions: `fromisoformat` (`None`
  where it raises), the Europe/Warsaw offset that `localize` attaches, and `strftime`
  with the RFC 822 pattern.
- The serialiser (`ET.tostring` followed by minidom's `parseString` and
  `toprettyxml`) is a function from the element tree to text, `None` where
  `parseString` raises.

Behaviour worth knowing:

- The two date lookups consult only the FIRST `meta[property=article:published_time]`
  and the FIRST `time.article__date` of the page. A later tag is never used.
- `replace('Z', '+00:00')` replaces every `Z`, not only a trailing one.
- The ISO test is "a capital `T` occurs anywhere". So any date holding a `T`
  (an RFC 822 date on a Tuesday or a Thursday, or with a zone name such as
  `GMT`, `UT`, `EST` or `CET`) is not passed through. It goes to the ISO parser
  and, when that rejects it, becomes the build time (`RfcThursdayIsReplaced`).
- An item whose title text is empty is still emitted.
- An item whose title link has `href=""` is emitted with an empty link
  (`EmptyHrefIsKept`).

## Model

| member | source | states |
|---|---|---|
| `Text.StripLeft` | scraper.py:144 | the result is a suffix of the input; everything cut off is white space; the result does not start with white space |
| `Text.StripRight` | scraper.py:144 | the result is a prefix of the input; everything cut off is white space; the result does not end with white space |
| `Text.StripSpec` | scraper.py:144 | `strip()` gives a trimmed piece of the input, and only white space lies outside it on either side |
| `Text.StripEmptyIffAllSpace` | scraper.py:144 | `line.strip()` is empty exactly when the line is white space only (both directions) |
| `Text.StripIdempotent` | scraper.py:58 | stripping twice is the same as stripping once |
| `Text.ReplaceAllSpec` | scraper.py:126 | with no `Z` in the input nothing changes; when the replacement has no `Z`, no `Z` is left |
| `Text.ReplaceAllAppend` | scraper.py:126 | replacing in a concatenation replaces in each part |
| `Text.ReplaceAllParts` | scraper.py:126 | the first `Z` becomes `+00:00` and the text before it is kept unchanged |
| `Text.Split` | scraper.py:144 | `split('\n')` yields at least one piece, no piece holds a break, and joining the pieces with `\n` gives the input back |
| `Text.SplitJoin` | scraper.py:144 | splitting the join of break-free lines gives the same lines back |
| `Text.NonBlank` | scraper.py:144 | no kept line is blank; break-free lines stay break-free |
| `Text.NonBlankMembers` | scraper.py:144 | a line is kept exactly when it is one of the input lines and `line.strip()` is non-empty |
| `Text.NonBlankAppend` | scraper.py:144 | the filter keeps line order (it distributes over concatenation) |
| `Text.LinesOfRemoveBlankLines` | scraper.py:144 | the lines of the filtered document are exactly the non-blank input lines, in order; the output is empty exactly when every input line is blank |
| `Text.RemoveBlankLinesIdempotent` | scraper.py:144 | removing blank lines a second time changes nothing |
| `Html.Filter` | scraper.py:44-46 | the filter never lengthens a list |
| `Html.FilterSpec` | scraper.py:44-46 | every result matches the selector and comes from the input, every matching input node is in the result, and the result is empty exactly when nothing in the input matches |
| `Html.FindAll` | scraper.py:44-46 | the results are matching descendants, every matching descendant is among them, and the result is empty exactly when no descendant matches |
| `Html.First` | scraper.py:51 | the index of a match with no earlier match, or `None` exactly when nothing matches |
| `Html.Find` | scraper.py:15 | the first matching descendant in document order (no descendant before it matches), or `None` exactly when no descendant matches |
| `Html.FindIsHeadOfFindAll` | scraper.py:44-53 | `find` returns the first element of `find_all`, and `None` exactly when `find_all` is empty |
| `Html.FilterAppend` | scraper.py:44 | `find_all` keeps document order |
| `Html.DescendantTransitive` | scraper.py:53 | an `a` found below the item's first `h2` is below the item |
| `Html.StrippedTextTrimmed` | scraper.py:58 | the concatenation of stripped text runs is itself trimmed |
| `Html.GetText` | scraper.py:69 | `get_text(strip=True)` never starts or ends with white space |
| `Html.StrippedTextAppend` | scraper.py:58 | the text of two consecutive node lists is the first's text followed by the second's |
| `Html.StrippedTextOne` | scraper.py:58 | a text run contributes its stripped value, an element node nothing of its own |
| `Html.GetTextOfRun` | scraper.py:58 | a tag whose only child is a text run has that run, stripped, as its text |
| `Extractor.Decimal` | scraper.py:36 | `str(page)` is a non-empty run of decimal digits |
| `Extractor.DecimalValue` | scraper.py:36 | `str(page)` has no leading zero and its digits denote the page number |
| `Extractor.PageUrl` | scraper.py:36 | every listing URL starts with the section's base URL |
| `Extractor.PageUrls` | scraper.py:34-36 | page 1 is the bare base URL, page 2 is `base_url + "?page=2"`, and the two differ |
| `Extractor.GetArticleDateSpec` | scraper.py:8-27 | a failed fetch gives no date; a date is never empty, and it is the `content` of a published-time meta tag or the `datetime` of an `article__date` time tag of that page |
| `Extractor.DateCascade` | scraper.py:15-22 | a non-empty meta `content` beats any time tag; otherwise the first time tag's non-empty `datetime` is used; there is no date exactly when neither applies |
| `Extractor.TitleTagSpec` | scraper.py:51-53 | the title link is an `a` below the item; the first `a.entry__title` wins; without one it is the first `a` below the item's first `h2`; there is none exactly when there is no `a.entry__title` and no `a` below the first `h2` |
| `Extractor.NormalizeLink` | scraper.py:62-63 | an href starting with `/` gets the site origin put in front; any other href is kept; the href is always a suffix of the result |
| `Extractor.NormalizeLinkIdempotent` | scraper.py:62-63 | a resolved link no longer starts with `/`, so resolving it again changes nothing |
| `Extractor.DescriptionSpec` | scraper.py:66-69 | the description is trimmed; it is the text of the first `div.entry__lead`, else of the first `p.article__lead`; it is non-empty only if one of them exists |
| `Extractor.ParseItemSpec` | scraper.py:49-89 | an item is skipped exactly when it has no title link or the link has no `href`; otherwise the record carries the link text, the resolved link, the description, and the detail-page date or else `nowIso` |
| `Extractor.EmptyHrefIsKept` | scraper.py:51-83 | any item whose title link (found either way) has `href=""` still yields a record, whose link is empty |
| `Extractor.DetailRequestIsLink` | scraper.py:51-78 | a detail page is requested exactly for the items that yield a record, and the URL requested is that record's link |
| `Extractor.ItemNodes` | scraper.py:44-46 | every item is a descendant of the listing page |
| `Extractor.ItemSelection` | scraper.py:44-46 | if any `article.entry` exists, the items are exactly the entries in document order and all are `article` elements; only when there is none are the items the `div.article` nodes |
| `Extractor.PageRecords` | scraper.py:48-83 | a page yields at most one record per item |
| `Extractor.PageRequests` | scraper.py:72 | a page causes at most one detail-page GET per item |
| `Extractor.PageRecordsAppend` | scraper.py:48 | records follow document order: the items of a prefix contribute before those of the rest |
| `Extractor.RecordsComeFromItems` | scraper.py:48-83 | every record is what `ParseItem` makes of one of the page's items |
| `Extractor.RequestsAreRecordLinks` | scraper.py:72-78 | the detail pages requested are exactly the links of the records emitted, in the same order |
| `Extractor.TraceUpTo` | scraper.py:34-39 | at least one GET for each page processed |
| `Extractor.ScrapeItem` | scraper.py:49-89 | one pass of the item loop appends exactly the record `ParseItem` gives and requests exactly the detail page `DetailRequest` gives |
| `Extractor.SomesAppend` | scraper.py:48-56 | skipping items with `continue` keeps the order of the rest |
| `Extractor.SomesFrom` | scraper.py:48-56 | everything kept was produced at some position of the loop |
| `Extractor.KeepStep` | scraper.py:48-83 | one more pass of the item loop appends the next item's value when it yields one, and nothing otherwise |
| `Extractor.ScrapeItems` | scraper.py:48-89 | the item loop appends exactly the records, and issues exactly the detail GETs, that the specification gives for the page |
| `Extractor.ScrapeBankierNews` | scraper.py:29-95 | the two-page loop returns exactly the records of `Scrape`, and tries exactly the GETs of `RequestTrace` |
| `Extractor.PageRequestsAreLinks` | scraper.py:39-78 | the detail pages a listing page causes to be requested are its records' links; a page whose fetch fails causes none |
| `Extractor.RequestOrder` | scraper.py:34-39 | the GETs are: the bare base URL, page 1's record links, `?page=2`, then page 2's record links |
| `Extractor.PageOrder` | scraper.py:34 | page 1's records come before page 2's; a page whose fetch fails contributes none |
| `Extractor.RecordsHaveDates` | scraper.py:72-76 | when the current time is non-empty, no record of a page has an empty date |
| `Extractor.ScrapeHasDates` | scraper.py:72-78 | when the current time is non-empty, no record of the run has an empty date |
| `Extractor.RecordLinksFromHrefs` | scraper.py:51-63 | every record's link is the resolved `href` of the title link of one of the page's items |
| `FeedBuilder.IsoInput` | scraper.py:126 | the text given to the ISO parser contains no `Z`; with no `Z` in the input it is unchanged |
| `FeedBuilder.PubDateText` | scraper.py:124-136 | without a `T` the date is used verbatim; with one it is formatted from the parsed stamp, or it becomes the build time when parsing fails |
| `FeedBuilder.ZuluIsUtc` | scraper.py:126-129 | an ISO stamp ending in `Z` is parsed as `+00:00` and formatted at offset 0 |
| `FeedBuilder.ZuluExample` | scraper.py:125-129 | `2024-01-15T10:30:00Z` is formatted at offset 0, for the same wall-clock time |
| `FeedBuilder.NaiveGetsWarsawOffset` | scraper.py:127-128 | a naive ISO stamp is formatted at the Warsaw offset for that time |
| `FeedBuilder.RfcThursdayIsReplaced` | scraper.py:124-136 | any date that starts with `Thu` takes the ISO branch; when the parser rejects it, it is replaced by the build time |
| `FeedBuilder.PubDateNeverFails` | scraper.py:124-136 | the pubDate step never fails: its text is always the input, the build time, or the formatting of what the parser returned |
| `FeedBuilder.ChannelMetadata` | scraper.py:109-113 | the channel opens with exactly five metadata elements |
| `FeedBuilder.Items` | scraper.py:116-136 | one `item` per article, at the article's position |
| `FeedBuilder.FeedLayout` | scraper.py:103-136 | `rss` root with version 2.0 and the Atom namespace, and one `channel`; the channel holds title, link, description, language `pl` and lastBuildDate, then one item per article in order; each item holds title, link, description, a guid equal to the link, and pubDate |
| `FeedBuilder.ChannelHead` | scraper.py:109-117 | the five metadata elements come first, none of them an `item`, and the items follow unchanged |
| `FeedBuilder.ChannelItems` | scraper.py:116-136 | every element built for an article is that article's item |
| `FeedBuilder.ItemShape` | scraper.py:117-136 | an item holds title, link, description, a `guid` whose text is the link, and pubDate, in that order |
| `FeedBuilder.CountItems` | scraper.py:116 | the number of `item` children is at most the number of children |
| `FeedBuilder.ItemCount` | scraper.py:116-117 | the channel holds exactly as many `item` elements as there are articles; an empty list gives none |
| `FeedBuilder.ItemsAppend` | scraper.py:116 | items keep the articles' order |
| `FeedBuilder.GenerateRss` | scraper.py:97-146 | the loop builds exactly the tree `RssTree`; the result is the serialised tree with its blank lines removed, and there is no result exactly when serialisation fails |

## Left out

- HTTP (`requests.get`, its timeouts and headers, `raise_for_status`): the network is a map from URL to parsed page. An absent URL is a failure of the kind described above, and no HTTP status or exception type is modelled.
- HTML parsing by BeautifulSoup: the model starts from the parsed tree. Comments, CDATA and matching against a whole multi-word `class` string are not modelled. The selectors here have no spaces, so a class-token match gives the same answer.
- The clock: `datetime.now` is read afresh at every date fallback in the source. The model uses one `nowIso` value for the whole run.
- `datetime.fromisoformat`, pytz's Europe/Warsaw rules and `strftime` are parameters (`TimeLib`). What the date strings look like is not modelled beyond the checks for `T` and `Z`.
- ElementTree and minidom serialisation, the exact pretty-print whitespace and the attribute order are a parameter. The source sets `version` before `xmlns:atom` and both serialisers keep that order, but the model holds the root's attributes in a `map`, so the order is not represented. Which characters make `parseString` raise (control characters XML forbids, written unescaped by `ET.tostring`) is left to that parameter; the model only says that such a failure leaves `GenerateRss` without a result. The line filter that follows is modelled.
- One map serves both kinds of GET, so the model cannot give the same URL a failing listing fetch and a parsed error-page detail fetch.
- `Extractor.RequestTrace`: it lists a detail GET for every record link, including links that `requests` rejects before sending anything (`href=""`, `javascript:…`); it is the list of URLs the scraper tried to request.
- `print` logging, `main`'s do-not-write-when-empty check, and the file write to `rss.xml`: these are I/O.
- Python's `str.isspace` is modelled for the characters Python treats as white space. No other Unicode property is modelled.
- `Extractor.ScrapeItems`: the `for item in article_items` loop is a separate method called once per fetched page, and its body is the method `Extractor.ScrapeItem`. In the source both are written inline inside the page loop.
