/** Collecting candidate articles: `scrape_single_site` (feed alias table,
    status classification, the feed and HTML branches with their caps), the
    fan-out over the user's sites, and the Google News search loop. */
module Scrape {
  import opened Text
  import opened Urls
  import opened Keywords

  // ---------------------------------------------------------- inputs

  /** A parsed feed entry; reading `title` or `link` of a broken entry
      raises, with `message` as the exception text. */
  datatype FeedEntry = Entry(title: string, link: string) | BrokenEntry(message: string)

  /** An `<a href>` element: its visible text (already stripped) and href. */
  datatype Anchor = Anchor(text: string, href: string)

  /** The answer to the request for a site: the request raised, or a status
      code, the Content-Type header ("" when absent) and the body parsed both
      as a feed and as HTML. */
  datatype SiteResponse =
    | Raised(message: string)
    | Response(status: int, contentType: string, entries: seq<FeedEntry>, anchors: seq<Anchor>)

  /** The outside world seen by the scraper: `urlparse`, the site request
      (keyed by the URL actually requested), the article-page request, and
      `urljoin` (an `Err` carries the exception text). */
  datatype SiteServices = SiteServices(
    parse: UrlParser,
    fetchSite: string -> SiteResponse,
    fetchBody: string -> BodyFetch,
    join: (string, string) -> Result<string, string>)

  // --------------------------------------------------------- outputs

  /** The three outcomes a site scrape reports. */
  datatype SiteStatus = SiteOk | SiteBlocked | SiteError(detail: string)

  function StatusText(s: SiteStatus): string
  {
    match s
    case SiteOk => "OK"
    case SiteBlocked => "Blocked"
    case SiteError(detail) => "Error: " + detail
  }

  /** `f"Error: {str(e)[:10]}"`: the first ten characters of the message. */
  function ErrorStatus(message: string): (s: SiteStatus)
    ensures s.SiteError? && s.detail <= message
    ensures |s.detail| == Min(10, |message|)
  {
    SiteError(message[..Min(10, |message|)])
  }

  datatype Region = Global | Local

  function RegionLabel(r: Region): string
  {
    match r
    case Global => "Global"
    case Local => "Local"
  }

  /** Where an article came from: a user site (`Is_User_Site`) or a Google
      News search of a region. */
  datatype Origin = UserSite | GoogleNews(region: Region)

  /** One collected article, the record both collectors append. */
  datatype Article = Article(date: string, keyword: string, link: string, site: string, title: string, origin: Origin)

  // ---------------------------------------------------- alias table

  const YnetFeed := "https://www.ynet.co.il/Integration/StoryRss2.xml"
  const GlobesFeed := "https://www.globes.co.il/webservice/rss/rss.aspx?BID=2"
  const CalcalistFeed := "https://www.calcalist.co.il/GeneralRSS/0,16335,L-8,00.xml"
  const TheMarkerFeed := "https://www.themarker.com/srv/tm-market-rss"
  const BizportalFeed := "https://www.bizportal.co.il/forumpages/rss/general"

  /** The known sites and their feeds, in the order they are tried. */
  const Aliases: seq<(string, string)> := [
    ("ynet", YnetFeed), ("globes", GlobesFeed), ("calcalist", CalcalistFeed),
    ("themarker", TheMarkerFeed), ("bizportal", BizportalFeed)]

  /** The index of the first alias whose name occurs in `url`. */
  function FirstAlias(url: string, table: seq<(string, string)>): (r: Option<nat>)
    ensures r.Some? ==> r.value < |table| && Contains(url, table[r.value].0)
    ensures r.Some? ==> forall j :: 0 <= j < r.value ==> !Contains(url, table[j].0)
    ensures r.None? ==> forall j :: 0 <= j < |table| ==> !Contains(url, table[j].0)
  {
    if table == [] then None
    else if Contains(url, table[0].0) then Some(0)
    else match FirstAlias(url, table[1..])
      case None => None
      case Some(k) => Some(k + 1)
  }

  /** The URL actually requested for a site. */
  function FeedUrl(url: string): (feed: string)
    ensures Contains(url, "xml") || Contains(url, "rss") ==> feed == url
    ensures !Contains(url, "xml") && !Contains(url, "rss") ==>
      match FirstAlias(url, Aliases)
      case None => feed == url
      case Some(i) => feed == Aliases[i].1 && forall j :: 0 <= j < i ==> !Contains(url, Aliases[j].0)
  {
    if Contains(url, "xml") || Contains(url, "rss") then url
    else match FirstAlias(url, Aliases)
      case None => url
      case Some(i) => Aliases[i].1
  }

  /** A feed marker found at position `k` of a feed URL. */
  lemma MarkerAt(feed: string, marker: string, k: nat)
    requires k + |marker| <= |feed| && feed[k..k + |marker|] == marker
    ensures Contains(feed, marker)
  {
    ContainsIff(feed, marker);
    assert OccursAt(feed, marker, k);
  }

  /** Every alias target names itself as a feed: "xml" or "rss" occurs in it. */
  lemma AliasTargetIsFeed(i: nat)
    requires i < |Aliases|
    ensures Contains(Aliases[i].1, "xml") || Contains(Aliases[i].1, "rss")
  {
    var feed := Aliases[i].1;
    if i == 0 {
      assert feed == YnetFeed;
      MarkerAt(YnetFeed, "xml", 45);
    } else if i == 1 {
      assert feed == GlobesFeed;
      MarkerAt(GlobesFeed, "rss", 36);
    } else if i == 2 {
      assert feed == CalcalistFeed;
      MarkerAt(CalcalistFeed, "xml", 54);
    } else if i == 3 {
      assert feed == TheMarkerFeed;
      MarkerAt(TheMarkerFeed, "rss", 40);
    } else {
      assert feed == BizportalFeed;
      MarkerAt(BizportalFeed, "rss", 39);
    }
  }

  /** Hence resolving a resolved URL changes nothing. */
  lemma FeedUrlIdempotent(url: string)
    ensures FeedUrl(FeedUrl(url)) == FeedUrl(url)
  {
    if !Contains(url, "xml") && !Contains(url, "rss") {
      match FirstAlias(url, Aliases)
      case None =>
      case Some(i) => AliasTargetIsFeed(i);
    }
  }

  /** The feed branch is taken when the Content-Type mentions "xml" or the
      requested URL ends in "xml"; otherwise the page is read as HTML. */
  predicate IsFeedResponse(contentType: string, feed: string)
  {
    Contains(contentType, "xml") || EndsWith(feed, "xml")
  }

  /** `lst[:30]`. */
  function Cap<T>(xs: seq<T>, n: nat): (ys: seq<T>)
    ensures ys <= xs
    ensures |ys| == Min(n, |xs|)
  {
    xs[..Min(n, |xs|)]
  }

  // ------------------------------------------------- per-entry logic

  /** The keyword a feed entry is filed under: the title test first, the
      article body only when the title matches nothing. */
  function EntryKeyword(title: string, link: string, keywords: seq<KeywordPair>, fetchBody: string -> BodyFetch)
    : (r: Option<string>)
    ensures MatchedKeyword(keywords, Lower(title)).Some? ==> r == MatchedKeyword(keywords, Lower(title))
    ensures MatchedKeyword(keywords, Lower(title)).None? ==> r == BodyKeyword(fetchBody(link), keywords)
    ensures r.Some? ==> r.value != ""
  {
    match MatchedKeyword(keywords, Lower(title))
    case Some(kw) => Some(kw)
    case None => BodyKeyword(fetchBody(link), keywords)
  }

  /** The article a hit produces, dated `now` and labelled with the host of
      the site being scraped (not of the article). */
  function UserArticle(url: string, now: string, kw: string, link: string, title: string, parse: UrlParser): Article
  {
    Article(now, kw, link, SiteFromUrl(parse, url), title, UserSite)
  }

  /** Found articles so far and, once an exception has escaped, its text. */
  datatype Scan = Scan(found: seq<Article>, error: Option<string>)

  /** The facts every article a site scrape reports satisfies. */
  predicate Reportable(a: Article, url: string, now: string, parse: UrlParser)
  {
    a.origin == UserSite && a.date == now && a.site == SiteFromUrl(parse, url) && a.keyword != ""
  }

  /** The feed loop over `entries`: entries are processed in order and the
      first broken one stops the loop with its message. */
  function FeedScan(entries: seq<FeedEntry>, url: string, now: string, keywords: seq<KeywordPair>, svc: SiteServices)
    : (s: Scan)
    ensures |s.found| <= |entries|
    decreases |entries|
  {
    if entries == [] then Scan([], None)
    else
      var n := |entries| - 1;
      var s := FeedScan(entries[..n], url, now, keywords, svc);
      if s.error.Some? then s
      else match entries[n]
        case BrokenEntry(m) => Scan(s.found, Some(m))
        case Entry(t, l) =>
          match EntryKeyword(t, l, keywords, svc.fetchBody)
          case None => s
          case Some(kw) => Scan(s.found + [UserArticle(url, now, kw, l, t, svc.parse)], None)
  }

  /** Every article of the feed loop comes from a readable entry, with the
      entry's own title and link. */
  lemma {:induction false} FeedScanFacts(entries: seq<FeedEntry>, url: string, now: string,
                                         keywords: seq<KeywordPair>, svc: SiteServices)
    ensures forall a :: a in FeedScan(entries, url, now, keywords, svc).found ==>
      Reportable(a, url, now, svc.parse) && Entry(a.title, a.link) in entries &&
      EntryKeyword(a.title, a.link, keywords, svc.fetchBody) == Some(a.keyword)
    decreases |entries|
  {
    if entries != [] {
      var n := |entries| - 1;
      FeedScanFacts(entries[..n], url, now, keywords, svc);
      assert forall e :: e in entries[..n] ==> e in entries;
    }
  }

  /** The article a feed entry yields: none for a broken entry or one
      whose keyword test finds nothing. */
  function FeedHit(e: FeedEntry, url: string, now: string, keywords: seq<KeywordPair>, svc: SiteServices)
    : Option<Article>
  {
    match e
    case BrokenEntry(_) => None
    case Entry(t, l) =>
      match EntryKeyword(t, l, keywords, svc.fetchBody)
      case None => None
      case Some(kw) => Some(UserArticle(url, now, kw, l, t, svc.parse))
  }

  function FeedHits(entries: seq<FeedEntry>, url: string, now: string, keywords: seq<KeywordPair>, svc: SiteServices)
    : (hs: seq<Option<Article>>)
    ensures |hs| == |entries|
    ensures forall j :: 0 <= j < |entries| ==> hs[j] == FeedHit(entries[j], url, now, keywords, svc)
  {
    seq(|entries|, j requires 0 <= j < |entries| => FeedHit(entries[j], url, now, keywords, svc))
  }

  /** Over readable entries the feed loop ends normally with the articles
      of the matching entries, in feed order. */
  lemma {:induction false} FeedScanReadable(entries: seq<FeedEntry>, url: string, now: string,
                                            keywords: seq<KeywordPair>, svc: SiteServices)
    requires forall j :: 0 <= j < |entries| ==> entries[j].Entry?
    ensures FeedScan(entries, url, now, keywords, svc) == Scan(Somes(FeedHits(entries, url, now, keywords, svc)), None)
    decreases |entries|
  {
    if entries != [] {
      var n := |entries| - 1;
      FeedScanReadable(entries[..n], url, now, keywords, svc);
      var hs := FeedHits(entries, url, now, keywords, svc);
      assert hs[..n] == FeedHits(entries[..n], url, now, keywords, svc);
    }
  }

  /** Completeness of the feed loop: with `k` the first broken entry (or
      the end), the scan keeps exactly the articles of the matching entries
      before `k`, in feed order, so none of them is missed. */
  lemma FeedScanComplete(entries: seq<FeedEntry>, k: nat, url: string, now: string,
                         keywords: seq<KeywordPair>, svc: SiteServices)
    requires k <= |entries|
    requires forall j :: 0 <= j < k ==> entries[j].Entry?
    requires k < |entries| ==> entries[k].BrokenEntry?
    ensures FeedScan(entries, url, now, keywords, svc).found == Somes(FeedHits(entries[..k], url, now, keywords, svc))
    ensures forall j :: 0 <= j < k && FeedHit(entries[j], url, now, keywords, svc).Some? ==>
      FeedHit(entries[j], url, now, keywords, svc).value in FeedScan(entries, url, now, keywords, svc).found
  {
    var hs := FeedHits(entries[..k], url, now, keywords, svc);
    FeedScanReadable(entries[..k], url, now, keywords, svc);
    if k < |entries| {
      BrokenEntryKeepsEarlierFinds(entries, k, url, now, keywords, svc);
    } else {
      assert entries[..k] == entries;
    }
    SomesMembers(hs);
    forall j | 0 <= j < k && FeedHit(entries[j], url, now, keywords, svc).Some?
      ensures FeedHit(entries[j], url, now, keywords, svc).value in Somes(hs)
    {
      assert hs[j] == FeedHit(entries[j], url, now, keywords, svc);
      assert hs[j] in hs;
    }
  }

  /** Once the loop has stopped, later entries change nothing. */
  lemma {:induction false} FeedScanSticky(entries: seq<FeedEntry>, i: nat, url: string, now: string,
                                          keywords: seq<KeywordPair>, svc: SiteServices)
    requires i <= |entries|
    requires FeedScan(entries[..i], url, now, keywords, svc).error.Some?
    ensures FeedScan(entries, url, now, keywords, svc) == FeedScan(entries[..i], url, now, keywords, svc)
    decreases |entries| - i
  {
    if i < |entries| {
      assert entries[..i + 1][..i] == entries[..i];
      FeedScanSticky(entries, i + 1, url, now, keywords, svc);
    } else {
      assert entries[..i] == entries;
    }
  }

  /** A broken entry ends the scan with its message and keeps exactly what
      the entries before it had produced. */
  lemma BrokenEntryKeepsEarlierFinds(entries: seq<FeedEntry>, k: nat, url: string, now: string,
                                     keywords: seq<KeywordPair>, svc: SiteServices)
    requires k < |entries| && entries[k].BrokenEntry?
    requires forall j :: 0 <= j < k ==> entries[j].Entry?
    ensures FeedScan(entries, url, now, keywords, svc)
         == Scan(FeedScan(entries[..k], url, now, keywords, svc).found, Some(entries[k].message))
  {
    NoBrokenNoError(entries[..k], url, now, keywords, svc);
    assert entries[..k + 1][..k] == entries[..k];
    FeedScanSticky(entries, k + 1, url, now, keywords, svc);
  }

  /** Without broken entries the feed loop ends normally. */
  lemma {:induction false} NoBrokenNoError(entries: seq<FeedEntry>, url: string, now: string,
                                           keywords: seq<KeywordPair>, svc: SiteServices)
    requires forall j :: 0 <= j < |entries| ==> entries[j].Entry?
    ensures FeedScan(entries, url, now, keywords, svc).error.None?
    decreases |entries|
  {
    if entries != [] {
      NoBrokenNoError(entries[..|entries| - 1], url, now, keywords, svc);
    }
  }

  /** The HTML loop over `anchors`: each href is joined to the site URL
      (a failing join stops the loop), anchors whose text is shorter than
      five characters are skipped, and the rest go straight to the body
      check. */
  function AnchorScan(anchors: seq<Anchor>, url: string, now: string, keywords: seq<KeywordPair>, svc: SiteServices)
    : (s: Scan)
    ensures |s.found| <= |anchors|
    decreases |anchors|
  {
    if anchors == [] then Scan([], None)
    else
      var n := |anchors| - 1;
      var s := AnchorScan(anchors[..n], url, now, keywords, svc);
      if s.error.Some? then s
      else match svc.join(url, anchors[n].href)
        case Err(m) => Scan(s.found, Some(m))
        case Ok(l) =>
          var t := anchors[n].text;
          if |t| < 5 then s
          else match BodyKeyword(svc.fetchBody(l), keywords)
            case None => s
            case Some(kw) =>
              Scan(s.found + [UserArticle(url, now, kw, l, t, svc.parse)], None)
  }

  /** Every article of the HTML loop comes from an anchor whose text (its
      title) has at least five characters, whose href joined to the site URL
      is the article link, and whose page matched the reported keyword. */
  lemma {:induction false} AnchorScanFacts(anchors: seq<Anchor>, url: string, now: string,
                                           keywords: seq<KeywordPair>, svc: SiteServices)
    ensures forall a :: a in AnchorScan(anchors, url, now, keywords, svc).found ==>
      Reportable(a, url, now, svc.parse) &&
      exists k :: 0 <= k < |anchors| && anchors[k].text == a.title && |a.title| >= 5 &&
        svc.join(url, anchors[k].href) == Ok(a.link) &&
        BodyKeyword(svc.fetchBody(a.link), keywords) == Some(a.keyword)
    decreases |anchors|
  {
    if anchors != [] {
      var n := |anchors| - 1;
      AnchorScanFacts(anchors[..n], url, now, keywords, svc);
      assert forall k :: 0 <= k < n ==> anchors[..n][k] == anchors[k];
    }
  }

  /** The article a link yields: none when the join fails, the text is
      shorter than five characters or the page matches no keyword. */
  function AnchorHit(a: Anchor, url: string, now: string, keywords: seq<KeywordPair>, svc: SiteServices)
    : Option<Article>
  {
    match svc.join(url, a.href)
    case Err(_) => None
    case Ok(l) =>
      if |a.text| < 5 then None
      else match BodyKeyword(svc.fetchBody(l), keywords)
        case None => None
        case Some(kw) => Some(UserArticle(url, now, kw, l, a.text, svc.parse))
  }

  function AnchorHits(anchors: seq<Anchor>, url: string, now: string, keywords: seq<KeywordPair>, svc: SiteServices)
    : (hs: seq<Option<Article>>)
    ensures |hs| == |anchors|
    ensures forall j :: 0 <= j < |anchors| ==> hs[j] == AnchorHit(anchors[j], url, now, keywords, svc)
  {
    seq(|anchors|, j requires 0 <= j < |anchors| => AnchorHit(anchors[j], url, now, keywords, svc))
  }

  /** Links that all join give a normal end with the articles of the
      matching links, in page order. */
  lemma {:induction false} AnchorScanJoinable(anchors: seq<Anchor>, url: string, now: string,
                                              keywords: seq<KeywordPair>, svc: SiteServices)
    requires forall j :: 0 <= j < |anchors| ==> svc.join(url, anchors[j].href).Ok?
    ensures AnchorScan(anchors, url, now, keywords, svc) == Scan(Somes(AnchorHits(anchors, url, now, keywords, svc)), None)
    decreases |anchors|
  {
    if anchors != [] {
      var n := |anchors| - 1;
      AnchorScanJoinable(anchors[..n], url, now, keywords, svc);
      var hs := AnchorHits(anchors, url, now, keywords, svc);
      assert hs[..n] == AnchorHits(anchors[..n], url, now, keywords, svc);
    }
  }

  /** Completeness of the link loop: with `k` the first link whose join
      fails (or the end), the scan keeps exactly the articles of the
      matching links before `k`, in page order, and reports the failure. */
  lemma AnchorScanComplete(anchors: seq<Anchor>, k: nat, url: string, now: string,
                           keywords: seq<KeywordPair>, svc: SiteServices)
    requires k <= |anchors|
    requires forall j :: 0 <= j < k ==> svc.join(url, anchors[j].href).Ok?
    requires k < |anchors| ==> svc.join(url, anchors[k].href).Err?
    ensures AnchorScan(anchors, url, now, keywords, svc).found == Somes(AnchorHits(anchors[..k], url, now, keywords, svc))
    ensures AnchorScan(anchors, url, now, keywords, svc).error ==
      if k < |anchors| then Some(svc.join(url, anchors[k].href).error) else None
    ensures forall j :: 0 <= j < k && AnchorHit(anchors[j], url, now, keywords, svc).Some? ==>
      AnchorHit(anchors[j], url, now, keywords, svc).value in AnchorScan(anchors, url, now, keywords, svc).found
  {
    var hs := AnchorHits(anchors[..k], url, now, keywords, svc);
    AnchorScanJoinable(anchors[..k], url, now, keywords, svc);
    if k < |anchors| {
      assert anchors[..k + 1][..k] == anchors[..k];
      AnchorScanSticky(anchors, k + 1, url, now, keywords, svc);
    } else {
      assert anchors[..k] == anchors;
    }
    SomesMembers(hs);
    forall j | 0 <= j < k && AnchorHit(anchors[j], url, now, keywords, svc).Some?
      ensures AnchorHit(anchors[j], url, now, keywords, svc).value in Somes(hs)
    {
      assert hs[j] == AnchorHit(anchors[j], url, now, keywords, svc);
      assert hs[j] in hs;
    }
  }

  lemma {:induction false} AnchorScanSticky(anchors: seq<Anchor>, i: nat, url: string, now: string,
                                            keywords: seq<KeywordPair>, svc: SiteServices)
    requires i <= |anchors|
    requires AnchorScan(anchors[..i], url, now, keywords, svc).error.Some?
    ensures AnchorScan(anchors, url, now, keywords, svc) == AnchorScan(anchors[..i], url, now, keywords, svc)
    decreases |anchors| - i
  {
    if i < |anchors| {
      assert anchors[..i + 1][..i] == anchors[..i];
      AnchorScanSticky(anchors, i + 1, url, now, keywords, svc);
    } else {
      assert anchors[..i] == anchors;
    }
  }

  // ------------------------------------------------------ one site

  /** What `scrape_single_site` returns for `url` (the row index it echoes
      back is not modelled). */
  function SiteOutcome(url: string, now: string, keywords: seq<KeywordPair>, svc: SiteServices)
    : (r: (seq<Article>, SiteStatus))
  {
    var feed := FeedUrl(url);
    match svc.fetchSite(feed)
    case Raised(m) => ([], ErrorStatus(m))
    case Response(status, contentType, entries, anchors) =>
      if status == 403 || status == 401 then ([], SiteBlocked)
      else
        var s := if IsFeedResponse(contentType, feed) then FeedScan(Cap(entries, 30), url, now, keywords, svc)
                 else AnchorScan(Cap(anchors, 30), url, now, keywords, svc);
        (s.found, if s.error.Some? then ErrorStatus(s.error.value) else SiteOk)
  }

  /** The status classification: a failed request is an error with nothing
      found, 401 and 403 are "Blocked" with nothing found, and any other
      answer is "OK" unless an exception escaped the loop; at most 30
      articles come back, all from this site, dated `now`. */
  lemma SiteOutcomeShape(url: string, now: string, keywords: seq<KeywordPair>, svc: SiteServices)
    ensures var (found, status) := SiteOutcome(url, now, keywords, svc);
      && |found| <= 30
      && (forall a :: a in found ==> Reportable(a, url, now, svc.parse))
      && (svc.fetchSite(FeedUrl(url)).Raised? ==>
            found == [] && status == ErrorStatus(svc.fetchSite(FeedUrl(url)).message))
      && (status == SiteBlocked <==>
            svc.fetchSite(FeedUrl(url)).Response? && svc.fetchSite(FeedUrl(url)).status in {401, 403})
      && (status == SiteBlocked ==> found == [])
      && (status.SiteError? ==> |StatusText(status)| <= 17 && StatusText(status)[..7] == "Error: ")
  {
    var feed := FeedUrl(url);
    if svc.fetchSite(feed).Response? {
      FeedScanFacts(Cap(svc.fetchSite(feed).entries, 30), url, now, keywords, svc);
      AnchorScanFacts(Cap(svc.fetchSite(feed).anchors, 30), url, now, keywords, svc);
    }
  }

  /** A feed answer whose first 30 entries are all readable is "OK", even
      when nothing matched. */
  lemma ReadableFeedIsOk(url: string, now: string, keywords: seq<KeywordPair>, svc: SiteServices)
    requires svc.fetchSite(FeedUrl(url)).Response?
    requires svc.fetchSite(FeedUrl(url)).status !in {401, 403}
    requires IsFeedResponse(svc.fetchSite(FeedUrl(url)).contentType, FeedUrl(url))
    requires forall e :: e in Cap(svc.fetchSite(FeedUrl(url)).entries, 30) ==> e.Entry?
    ensures SiteOutcome(url, now, keywords, svc).1 == SiteOk
  {
    var es := Cap(svc.fetchSite(FeedUrl(url)).entries, 30);
    NoBrokenNoError(es, url, now, keywords, svc);
  }

  /** An HTML answer whose first 30 links all join is "OK", even when
      nothing matched. */
  lemma ReadablePageIsOk(url: string, now: string, keywords: seq<KeywordPair>, svc: SiteServices)
    requires svc.fetchSite(FeedUrl(url)).Response?
    requires svc.fetchSite(FeedUrl(url)).status !in {401, 403}
    requires !IsFeedResponse(svc.fetchSite(FeedUrl(url)).contentType, FeedUrl(url))
    requires forall a :: a in Cap(svc.fetchSite(FeedUrl(url)).anchors, 30) ==> svc.join(url, a.href).Ok?
    ensures SiteOutcome(url, now, keywords, svc).1 == SiteOk
  {
    var links := Cap(svc.fetchSite(FeedUrl(url)).anchors, 30);
    forall j | 0 <= j < |links| ensures svc.join(url, links[j].href).Ok? {
      assert links[j] in links;
    }
    AnchorScanJoinable(links, url, now, keywords, svc);
  }

  /** The title test, then the body check when the title matched nothing. */
  method MatchEntry(title: string, link: string, keywords: seq<KeywordPair>, fetchBody: string -> BodyFetch)
    returns (found: bool, kw: string)
    ensures found <==> EntryKeyword(title, link, keywords, fetchBody).Some?
    ensures found ==> kw == EntryKeyword(title, link, keywords, fetchBody).value
  {
    found, kw := FindKeyword(Lower(title), keywords);
    if !found {
      found, kw := CheckArticleBody(fetchBody, link, keywords);
    }
  }

  /** The feed loop: `entries` are the first 30 entries of the feed. */
  method ScanFeed(entries: seq<FeedEntry>, url: string, now: string, keywords: seq<KeywordPair>, svc: SiteServices)
    returns (found: seq<Article>, error: Option<string>)
    ensures Scan(found, error) == FeedScan(entries, url, now, keywords, svc)
  {
    found, error := [], None;
    var site := SiteFromUrl(svc.parse, url);
    var i := 0;
    while i < |entries| && error.None?
      invariant 0 <= i <= |entries|
      invariant Scan(found, error) == FeedScan(entries[..i], url, now, keywords, svc)
    {
      assert entries[..i + 1][..i] == entries[..i];
      match entries[i] {
        case BrokenEntry(m) =>
          error := Some(m);
        case Entry(t, l) =>
          var match_, kw := MatchEntry(t, l, keywords, svc.fetchBody);
          if match_ {
            found := found + [Article(now, kw, l, site, t, UserSite)];
          }
      }
      i := i + 1;
    }
    if error.Some? {
      FeedScanSticky(entries, i, url, now, keywords, svc);
    } else {
      assert entries[..i] == entries;
    }
  }

  /** The HTML loop: `anchors` are the first 30 links of the page. */
  method ScanAnchors(anchors: seq<Anchor>, url: string, now: string, keywords: seq<KeywordPair>, svc: SiteServices)
    returns (found: seq<Article>, error: Option<string>)
    ensures Scan(found, error) == AnchorScan(anchors, url, now, keywords, svc)
  {
    found, error := [], None;
    var site := SiteFromUrl(svc.parse, url);
    var i := 0;
    while i < |anchors| && error.None?
      invariant 0 <= i <= |anchors|
      invariant Scan(found, error) == AnchorScan(anchors[..i], url, now, keywords, svc)
    {
      assert anchors[..i + 1][..i] == anchors[..i];
      var t := anchors[i].text;
      var joined := svc.join(url, anchors[i].href);
      if joined.Err? {
        error := Some(joined.error);
      } else if |t| >= 5 {
        var match_, kw := CheckArticleBody(svc.fetchBody, joined.value, keywords);
        if match_ {
          found := found + [Article(now, kw, joined.value, site, t, UserSite)];
        }
      }
      i := i + 1;
    }
    if error.Some? {
      AnchorScanSticky(anchors, i, url, now, keywords, svc);
    } else {
      assert anchors[..i] == anchors;
    }
  }

  /** `scrape_single_site`: the request, then the feed or HTML loop; an
      exception inside a loop ends it and turns the status into an error
      while the articles found so far are kept. */
  method ScrapeSite(url: string, now: string, keywords: seq<KeywordPair>, svc: SiteServices)
    returns (found: seq<Article>, status: SiteStatus)
    ensures (found, status) == SiteOutcome(url, now, keywords, svc)
  {
    var feed := FeedUrl(url);
    var response := svc.fetchSite(feed);
    if response.Raised? {
      return [], ErrorStatus(response.message);
    }
    if response.status == 403 || response.status == 401 {
      return [], SiteBlocked;
    }
    var error: Option<string>;
    if Contains(response.contentType, "xml") || EndsWith(feed, "xml") {
      found, error := ScanFeed(Cap(response.entries, 30), url, now, keywords, svc);
    } else {
      found, error := ScanAnchors(Cap(response.anchors, 30), url, now, keywords, svc);
    }
    status := if error.Some? then ErrorStatus(error.value) else SiteOk;
  }

  // ------------------------------------------------ all user sites

  /** `[r[0] for r in rows[1:] if r and r[0].startswith('http')]`: the sites
      to scrape, which are also the priority-site strings. */
  function PrioritySites(values: seq<seq<string>>): (sites: seq<string>)
    ensures |sites| <= |values|
    ensures forall s :: s in sites <==> exists k :: 1 <= k < |values| && values[k] != [] &&
                                                   values[k][0] == s && StartsWith(s, "http")
    decreases |values|
  {
    if |values| <= 1 then []
    else
      var n := |values| - 1;
      var sites := PrioritySites(values[..n]);
      assert forall k :: 1 <= k < n ==> values[..n][k] == values[k];
      if values[n] != [] && StartsWith(values[n][0], "http") then sites + [values[n][0]] else sites
  }

  /** The results of the sites, concatenated in completion order. */
  function InOrder(order: seq<nat>, results: seq<seq<Article>>): (all: seq<Article>)
    requires forall k :: 0 <= k < |order| ==> order[k] < |results|
    decreases |order|
  {
    if order == [] then []
    else
      var n := |order| - 1;
      InOrder(order[..n], results) + results[order[n]]
  }

  /** The gathered articles are exactly those of the sites in `order`. */
  lemma {:induction false} InOrderMembers(order: seq<nat>, results: seq<seq<Article>>)
    requires forall k :: 0 <= k < |order| ==> order[k] < |results|
    ensures forall a :: a in InOrder(order, results) <==> exists k :: 0 <= k < |order| && a in results[order[k]]
    decreases |order|
  {
    if order != [] {
      var n := |order| - 1;
      InOrderMembers(order[..n], results);
      assert forall k :: 0 <= k < n ==> order[..n][k] == order[k];
    }
  }

  /** Whatever order the sites complete in, the same articles are
      collected: exactly those of the sites' own scrapes. */
  lemma CompletionOrderIrrelevant(order1: seq<nat>, order2: seq<nat>, results: seq<seq<Article>>)
    requires forall k :: 0 <= k < |order1| ==> order1[k] < |results|
    requires forall k :: 0 <= k < |order2| ==> order2[k] < |results|
    requires forall j :: 0 <= j < |results| ==> j in order1 && j in order2
    ensures forall a :: a in InOrder(order1, results) <==> a in InOrder(order2, results)
    ensures forall a :: a in InOrder(order1, results) <==> exists j :: 0 <= j < |results| && a in results[j]
  {
    InOrderMembers(order1, results);
    InOrderMembers(order2, results);
    forall a | a in InOrder(order1, results) ensures a in InOrder(order2, results) {
      var k :| 0 <= k < |order1| && a in results[order1[k]];
      assert order1[k] in order2;
      var k2 :| 0 <= k2 < |order2| && order2[k2] == order1[k];
    }
    forall a | a in InOrder(order2, results) ensures a in InOrder(order1, results) {
      var k :| 0 <= k < |order2| && a in results[order2[k]];
      assert order2[k] in order1;
      var k1 :| 0 <= k1 < |order1| && order1[k1] == order2[k];
    }
    forall a, j | 0 <= j < |results| && a in results[j] ensures a in InOrder(order1, results) {
      assert j in order1;
      var k :| 0 <= k < |order1| && order1[k] == j;
    }
  }

  /** Every site's own scrape, by position. */
  function SiteResults(sites: seq<string>, times: seq<string>, keywords: seq<KeywordPair>, svc: SiteServices)
    : (rs: seq<seq<Article>>)
    requires |times| == |sites|
    ensures |rs| == |sites|
    ensures forall j :: 0 <= j < |sites| ==> rs[j] == SiteOutcome(sites[j], times[j], keywords, svc).0
  {
    seq(|sites|, j requires 0 <= j < |sites| => SiteOutcome(sites[j], times[j], keywords, svc).0)
  }

  /** The thread pool: every site is scraped (site `j` at clock reading
      `times[j]`), and `order` is the order `as_completed` yields them in;
      the articles are gathered in that order and every site gets exactly
      one status. */
  method FetchAll(sites: seq<string>, order: seq<nat>, times: seq<string>, keywords: seq<KeywordPair>, svc: SiteServices)
    returns (articles: seq<Article>, statuses: seq<SiteStatus>)
    requires |times| == |sites| && |order| == |sites|
    requires forall k :: 0 <= k < |order| ==> order[k] < |sites|
    requires forall j :: 0 <= j < |sites| ==> j in order
    ensures articles == InOrder(order, SiteResults(sites, times, keywords, svc))
    ensures |statuses| == |sites|
    ensures forall j :: 0 <= j < |sites| ==> statuses[j] == SiteOutcome(sites[j], times[j], keywords, svc).1
  {
    ghost var results := SiteResults(sites, times, keywords, svc);
    ghost var target := seq(|sites|, j requires 0 <= j < |sites| => SiteOutcome(sites[j], times[j], keywords, svc).1);
    articles := [];
    statuses := seq(|sites|, _ => SiteOk);
    var k := 0;
    while k < |order|
      invariant 0 <= k <= |order|
      invariant |statuses| == |sites|
      invariant articles == InOrder(order[..k], results)
      invariant forall m :: 0 <= m < k ==> statuses[order[m]] == target[order[m]]
    {
      assert order[..k + 1][..k] == order[..k];
      var j := order[k];
      assert InOrder(order[..k + 1], results) == InOrder(order[..k], results) + results[j];
      var arts, status := ScrapeSite(sites[j], times[j], keywords, svc);
      assert arts == results[j] && status == target[j];
      articles := articles + arts;
      ghost var before := statuses;
      statuses := statuses[j := status];
      forall m | 0 <= m <= k ensures statuses[order[m]] == target[order[m]] {
        if order[m] != j {
          assert statuses[order[m]] == before[order[m]];
        }
      }
      k := k + 1;
    }
    assert order[..k] == order;
    forall j | 0 <= j < |sites| ensures statuses[j] == SiteOutcome(sites[j], times[j], keywords, svc).1 {
      assert j in order;
      var m :| 0 <= m < |order| && order[m] == j;
      assert statuses[j] == target[j];
    }
  }

  // ---------------------------------------------------- Google News

  /** The parsed result feed of a Google News search in a region; the
      parser itself never raises. */
  type NewsSearch = (Region, string) -> seq<FeedEntry>

  /** The search term of a pair in a region: English for the US edition,
      Hebrew for the Israeli one. */
  function Query(region: Region, p: KeywordPair): string
  {
    match region
    case Global => p.en
    case Local => p.he
  }

  /** How many entries are read before the first broken one. */
  function ReadablePrefix(entries: seq<FeedEntry>): (k: nat)
    ensures k <= |entries|
    ensures forall j :: 0 <= j < k ==> entries[j].Entry?
    ensures k < |entries| ==> entries[k].BrokenEntry?
  {
    if entries == [] || entries[0].BrokenEntry? then 0 else 1 + ReadablePrefix(entries[1..])
  }

  /** The article a Google News entry produces. */
  function NewsArticle(t: string, l: string, region: Region, p: KeywordPair, now: string, parse: UrlParser): Article
  {
    Article(now, Reported(p), l, ExtractSiteName(parse, l, t, true), CleanTitleGoogleNews(t), GoogleNews(region))
  }

  /** The articles of one search: one per entry before the first broken
      one (which ends that search only), filed under the pair's reported
      keyword, with the publisher and headline split off the title. */
  function QueryArticles(entries: seq<FeedEntry>, region: Region, p: KeywordPair, now: string, parse: UrlParser)
    : (arts: seq<Article>)
    ensures |arts| <= |entries|
  {
    var k := ReadablePrefix(entries);
    seq(k, i requires 0 <= i < k => NewsArticle(entries[i].title, entries[i].link, region, p, now, parse))
  }

  /** Every article of a search is filed under the pair's reported
      keyword and comes from a readable entry: its publisher and headline
      are the two halves of that entry's title. */
  lemma QueryArticlesFacts(entries: seq<FeedEntry>, region: Region, p: KeywordPair,
                           now: string, parse: UrlParser)
    ensures forall a :: a in QueryArticles(entries, region, p, now, parse) ==>
      a.origin == GoogleNews(region) && a.date == now && a.keyword == Reported(p) &&
      exists t :: (Entry(t, a.link) in entries &&
        a.site == ExtractSiteName(parse, a.link, t, true) && a.title == CleanTitleGoogleNews(t))
  {
    var arts := QueryArticles(entries, region, p, now, parse);
    forall a | a in arts
      ensures exists t :: (Entry(t, a.link) in entries &&
        a.site == ExtractSiteName(parse, a.link, t, true) && a.title == CleanTitleGoogleNews(t))
    {
      var i :| 0 <= i < |arts| && arts[i] == a;
      assert entries[i] == Entry(entries[i].title, a.link);
      assert entries[i] in entries;
    }
  }

  /** One region's searches, one per pair in keyword order. */
  function RegionArticles(pairs: seq<KeywordPair>, region: Region, now: string, search: NewsSearch, parse: UrlParser)
    : (arts: seq<Article>)
    ensures |arts| <= 10 * |pairs|
    decreases |pairs|
  {
    if pairs == [] then []
    else
      var n := |pairs| - 1;
      var arts := RegionArticles(pairs[..n], region, now, search, parse);
      arts + QueryArticles(Cap(search(region, Query(region, pairs[n])), 10), region, pairs[n], now, parse)
  }

  lemma {:induction false} RegionArticlesFacts(pairs: seq<KeywordPair>, region: Region, now: string,
                                               search: NewsSearch, parse: UrlParser)
    ensures forall a :: a in RegionArticles(pairs, region, now, search, parse) ==>
      a.origin == GoogleNews(region) && a.date == now && exists p :: p in pairs && a.keyword == Reported(p)
    decreases |pairs|
  {
    if pairs != [] {
      var n := |pairs| - 1;
      RegionArticlesFacts(pairs[..n], region, now, search, parse);
      QueryArticlesFacts(Cap(search(region, Query(region, pairs[n])), 10), region, pairs[n], now, parse);
      assert forall p :: p in pairs[..n] ==> p in pairs;
    }
  }

  /** The Google News loop: the global edition first, then the local one. */
  function NewsArticles(pairs: seq<KeywordPair>, now: string, search: NewsSearch, parse: UrlParser): seq<Article>
  {
    RegionArticles(pairs, Global, now, search, parse) + RegionArticles(pairs, Local, now, search, parse)
  }

  /** At most ten articles per search, none marked as a user site, each
      filed under a configured keyword. */
  lemma NewsArticlesShape(pairs: seq<KeywordPair>, now: string, search: NewsSearch, parse: UrlParser)
    ensures |NewsArticles(pairs, now, search, parse)| <= 20 * |pairs|
    ensures forall a :: a in NewsArticles(pairs, now, search, parse) ==>
      a.origin.GoogleNews? && a.date == now && exists p :: p in pairs && a.keyword == Reported(p)
  {
    RegionArticlesFacts(pairs, Global, now, search, parse);
    RegionArticlesFacts(pairs, Local, now, search, parse);
  }

  /** One search: the entries are read in order until a broken one. */
  method ReadSearch(entries: seq<FeedEntry>, region: Region, p: KeywordPair, now: string, parse: UrlParser)
    returns (arts: seq<Article>)
    ensures arts == QueryArticles(entries, region, p, now, parse)
  {
    ghost var target := QueryArticles(entries, region, p, now, parse);
    arts := [];
    var e := 0;
    while e < |entries| && entries[e].Entry?
      invariant 0 <= e <= |target|
      invariant arts == target[..e]
    {
      arts := arts + [NewsArticle(entries[e].title, entries[e].link, region, p, now, parse)];
      e := e + 1;
    }
    assert e == |target|;
  }

  /** One region: a search per pair, in keyword order. */
  method SearchRegion(pairs: seq<KeywordPair>, region: Region, now: string, search: NewsSearch, parse: UrlParser)
    returns (arts: seq<Article>)
    ensures arts == RegionArticles(pairs, region, now, search, parse)
  {
    arts := [];
    var i := 0;
    while i < |pairs|
      invariant 0 <= i <= |pairs|
      invariant arts == RegionArticles(pairs[..i], region, now, search, parse)
    {
      assert pairs[..i + 1][..i] == pairs[..i];
      var entries := Cap(search(region, Query(region, pairs[i])), 10);
      var found := ReadSearch(entries, region, pairs[i], now, parse);
      assert RegionArticles(pairs[..i + 1], region, now, search, parse)
          == RegionArticles(pairs[..i], region, now, search, parse) + found;
      arts := arts + found;
      i := i + 1;
    }
    assert pairs[..i] == pairs;
  }

  /** The Google News loop as the script runs it: both regions, appended
      after the user-site articles by the caller. */
  method SearchGoogleNews(pairs: seq<KeywordPair>, now: string, search: NewsSearch, parse: UrlParser)
    returns (arts: seq<Article>)
    ensures arts == NewsArticles(pairs, now, search, parse)
  {
    arts := [];
    var regions := [Global, Local];
    var r := 0;
    while r < 2
      invariant 0 <= r <= 2
      invariant r == 0 ==> arts == []
      invariant r == 1 ==> arts == RegionArticles(pairs, Global, now, search, parse)
      invariant r == 2 ==> arts == NewsArticles(pairs, now, search, parse)
    {
      var found := SearchRegion(pairs, regions[r], now, search, parse);
      arts := arts + found;
      r := r + 1;
    }
  }
}
