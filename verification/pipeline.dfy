/** `background_process`: one run of the news pipeline, from the four
    sheets and the outside services to the rewritten sheets and the
    notification. */
module Pipeline {
  import opened Text
  import opened Urls
  import opened Keywords
  import opened Scrape
  import opened History
  import opened Merge
  import opened Report
  import opened Decisions

  /** The sheets as read at the start of the run (`get_all_values`). */
  datatype Sheets = Sheets(log: seq<seq<string>>, keywords: seq<seq<string>>, sites: seq<seq<string>>,
                           decisions: seq<seq<string>>)

  /** The services the run talks to. */
  datatype World = World(
    site: SiteServices,
    search: NewsSearch,
    toEnglish: string -> string,
    toHebrew: string -> string,
    titleToHebrew: string -> Option<string>,
    analyst: Analyst)

  /** What the scheduler and the clock decide: the clock reading of each
      site's scrape, the order the scrapes complete in, and the time of the
      Google News searches and of the decisions. */
  datatype Timing = Timing(siteTimes: seq<string>, order: seq<nat>, now: string)

  /** What the run writes: the keyword sheet corrections, the new results
      sheet, the new decision table and the notification, the last three
      only when the combined table is non-empty. */
  datatype Outcome = Outcome(keywordUpdates: seq<KeywordUpdate>, log: Option<seq<seq<string>>>,
                             decisions: Option<DecisionMap>, notification: Option<string>)

  /** The scheduler completes every site exactly once. */
  predicate SchedulerFits(sheets: Sheets, t: Timing)
  {
    var n := |PrioritySites(sheets.sites)|;
    |t.siteTimes| == n && |t.order| == n &&
    (forall k :: 0 <= k < |t.order| ==> t.order[k] < n) &&
    (forall j :: 0 <= j < n ==> j in t.order)
  }

  function Pairs(sheets: Sheets, w: World): seq<KeywordPair>
  {
    PairsOf(Outcomes(DataRows(sheets.keywords), w.toEnglish, w.toHebrew))
  }

  /** Everything collected in the run: the user sites in completion order,
      then Google News. */
  function Collected(sheets: Sheets, w: World, t: Timing): seq<Article>
    requires SchedulerFits(sheets, t)
  {
    var sites := PrioritySites(sheets.sites);
    InOrder(t.order, SiteResults(sites, t.siteTimes, Pairs(sheets, w), w.site))
      + NewsArticles(Pairs(sheets, w), t.now, w.search, w.site.parse)
  }

  function NewRows(arts: seq<Article>, hist: seq<Row>, w: World): (rows: seq<Row>)
    ensures |rows| == |arts|
    ensures forall i :: 0 <= i < |arts| ==> rows[i] == NewRow(arts[i], DateIndex(hist), w.site.parse, w.titleToHebrew)
  {
    seq(|arts|, i requires 0 <= i < |arts| => NewRow(arts[i], DateIndex(hist), w.site.parse, w.titleToHebrew))
  }

  /** The deduplicated, ranked and sorted table. */
  function Table(newRows: seq<Row>, hist: seq<Row>, sites: seq<string>): seq<Ranked>
  {
    SortRanked(Rank(Dedup(newRows + hist), Keys(hist), sites))
  }

  /** The headlines handed to the analysis: title, site and date of each
      row of the group, in the group's order. */
  function Headlines(g: seq<Ranked>): (hs: seq<Headline>)
    ensures |hs| == |g|
    ensures forall i :: 0 <= i < |g| ==>
      hs[i].title == g[i].row.title && hs[i].site == g[i].row.site && hs[i].date == g[i].row.date
  {
    seq(|g|, i requires 0 <= i < |g| => Headline(g[i].row.title, g[i].row.site, g[i].row.date))
  }

  /** The keyword groups handed to the analysis, in keyword order. */
  function Groups(table: seq<Ranked>): seq<(string, seq<Headline>)>
  {
    var kws := KeywordOrder(table);
    seq(|kws|, i requires 0 <= i < |kws| => (kws[i], Headlines(Group(table, kws[i]))))
  }

  function RowKeywords(rows: seq<Row>): set<string>
  {
    set i | 0 <= i < |rows| :: rows[i].keyword
  }

  /** The decision table after the analysis loop: the stored decisions,
      updated group by group, where the keywords of this run's rows count
      as having new data. */
  function NewDecisions(sheets: Sheets, w: World, t: Timing, table: seq<Ranked>): DecisionMap
    requires SchedulerFits(sheets, t)
  {
    var loaded := if |sheets.decisions| > 1 then LoadedMap(sheets.decisions[1..]) else [];
    var newRows := NewRows(Collected(sheets, w, t), LoadHistory(sheets.log, w.site.parse), w);
    Updated(loaded, Groups(table), RowKeywords(newRows), t.now, w.analyst)
  }

  /** One run. The site statuses are computed and dropped, as in the
      script. */
  method BackgroundProcess(sheets: Sheets, w: World, t: Timing) returns (out: Outcome, table: seq<Ranked>)
    requires SchedulerFits(sheets, t)
    ensures out.keywordUpdates == UpdatesOf(Outcomes(DataRows(sheets.keywords), w.toEnglish, w.toHebrew))
    ensures var hist := LoadHistory(sheets.log, w.site.parse);
      table == Table(NewRows(Collected(sheets, w, t), hist, w), hist, PrioritySites(sheets.sites))
    ensures out.log.Some? <==> table != []
    ensures out.log.Some? ==> out.log.value == [LogHeader] + LogBody(KeywordOrder(table), table)
    ensures out.notification.Some? <==> table != [] && Flagged(KeywordOrder(table), table) != {}
    ensures out.notification.Some? ==> Announces(out.notification.value, Flagged(KeywordOrder(table), table))
    ensures !(w.analyst.hasKey && table != []) ==> out.decisions.None?
    ensures w.analyst.hasKey && table != [] ==>
      var m := NewDecisions(sheets, w, t, table);
      out.decisions == if m == [] then None else Some(m)
  {
    // 1. history
    var hist := LoadHistory(sheets.log, w.site.parse);
    var index := BuildDateIndex(hist);
    var oldKeys := Keys(hist);

    // 2. keywords
    var keywords, updates := ResolveKeywords(sheets.keywords, w.toEnglish, w.toHebrew);

    // 3. collection
    var sites := PrioritySites(sheets.sites);
    var userArts, _ := FetchAll(sites, t.order, t.siteTimes, keywords, w.site);
    var newsArts := SearchGoogleNews(keywords, t.now, w.search, w.site.parse);
    var arts := userArts + newsArts;

    // 4. merge, rank, sort
    var newRows := PrepareNew(arts, index, w.site.parse, w.titleToHebrew);
    assert newRows == NewRows(Collected(sheets, w, t), hist, w);
    table := SortRanked(Rank(Dedup(newRows + hist), oldKeys, sites));

    // 5. decisions
    var decisions: Option<DecisionMap> := None;
    if w.analyst.hasKey && table != [] {
      var m0 := LoadDecisions(sheets.decisions);
      var m := UpdateDecisions(m0, Groups(table), RowKeywords(newRows), t.now, w.analyst);
      if m != [] {
        decisions := Some(m);
      }
    }

    // 6. log and notification
    var log: Option<seq<seq<string>>> := None;
    var notification: Option<string> := None;
    if table != [] {
      var lines, flagged := BuildLog(KeywordOrder(table), table);
      log := Some(lines);
      var listed;
      notification, listed := Notification(flagged);
    }
    out := Outcome(updates, log, decisions, notification);
  }

  // ------------------------------------------------ end-to-end facts

  /** The analysis visits the keywords in ascending order, as the sorted
      `groupby('Keyword')` does, each once, with all of its rows. */
  lemma GroupsAscend(newRows: seq<Row>, hist: seq<Row>, sites: seq<string>)
    ensures var gs := Groups(Table(newRows, hist, sites));
      forall i, j :: 0 <= i < j < |gs| ==> StrLt(gs[i].0, gs[j].0)
    ensures var table := Table(newRows, hist, sites);
      forall g :: g in Groups(table) ==>
        |g.1| == |Group(table, g.0)| && (exists r :: r in table && r.row.keyword == g.0)
  {
    var table := Table(newRows, hist, sites);
    SortRankedFacts(Rank(Dedup(newRows + hist), Keys(hist), sites));
    SortedKeywordOrderAscends(table);
    GroupsCoverKeywords(table);
  }

  /** Each group is a keyword of the table with all of its rows. */
  lemma GroupsCoverKeywords(table: seq<Ranked>)
    ensures forall g :: g in Groups(table) ==>
      |g.1| == |Group(table, g.0)| && (exists r :: r in table && r.row.keyword == g.0)
  {
    forall g | g in Groups(table)
      ensures |g.1| == |Group(table, g.0)| && (exists r :: r in table && r.row.keyword == g.0)
    {
      var kws := KeywordOrder(table);
      var i :| 0 <= i < |kws| && Groups(table)[i] == g;
      assert kws[i] in kws;
      var k :| 0 <= k < |table| && table[k].row.keyword == kws[i];
      assert table[k] in table;
    }
  }

  /** Every row of the table carries the tier of its own row. */
  lemma TableTiers(newRows: seq<Row>, hist: seq<Row>, sites: seq<string>, x: Ranked)
    requires x in Table(newRows, hist, sites)
    ensures x.tier == Priority(x.row, Keys(hist), sites)
    ensures x.row in Dedup(newRows + hist)
  {
    var ranked := Rank(Dedup(newRows + hist), Keys(hist), sites);
    SortRankedFacts(ranked);
    assert x in multiset(Table(newRows, hist, sites));
    assert x in ranked;
  }

  /** A keyword is announced exactly when one of the (at most 20) rows the
      log shows for it has a canonical URL that was not in the history. */
  lemma FlaggedIffUnseenShown(newRows: seq<Row>, hist: seq<Row>, sites: seq<string>, kw: string)
    ensures var table := Table(newRows, hist, sites);
      kw in Flagged(KeywordOrder(table), table) <==>
        kw in KeywordOrder(table) && exists x :: x in Window(table, kw) && x.row.key !in Keys(hist)
  {
    var table := Table(newRows, hist, sites);
    forall x | x in table ensures (x.tier < 4 <==> x.row.key !in Keys(hist)) {
      TableTiers(newRows, hist, sites, x);
    }
    FlaggedIffFresh(table, Keys(hist), kw);
  }

  /** For any table whose tiers below 4 are exactly the rows with an unseen
      key, the flagged keywords are those with an unseen key in their
      window. */
  lemma FlaggedIffFresh(table: seq<Ranked>, seen: set<string>, kw: string)
    requires forall x :: x in table ==> (x.tier < 4 <==> x.row.key !in seen)
    ensures kw in Flagged(KeywordOrder(table), table) <==>
      kw in KeywordOrder(table) && exists x :: x in Window(table, kw) && x.row.key !in seen
  {
    FlaggedMeaning(KeywordOrder(table), table);
    var w := Window(table, kw);
    HasFreshMembers(w);
    assert forall x :: x in w ==> x in table;
  }

  /** In particular nothing is announced when every shown row was already
      in the history, and a run whose collection only re-found history
      URLs announces nothing at all. */
  lemma OnlyRediscoveriesNotifyNothing(newRows: seq<Row>, hist: seq<Row>, sites: seq<string>)
    requires forall r :: r in newRows ==> r.key in Keys(hist)
    ensures var table := Table(newRows, hist, sites);
      Flagged(KeywordOrder(table), table) == {}
  {
    var table := Table(newRows, hist, sites);
    forall x | x in table ensures x.row.key in Keys(hist) {
      TableTiers(newRows, hist, sites, x);
      var all := newRows + hist;
      DedupFirst(all);
      var k :| FirstWithKey(all, k) && all[k] == x.row;
      if k < |newRows| {
        assert newRows[k] in newRows;
      } else {
        assert hist[k - |newRows|] == x.row;
      }
    }
    forall kw | kw in Flagged(KeywordOrder(table), table) ensures false {
      FlaggedIffUnseenShown(newRows, hist, sites, kw);
    }
  }

  /** A URL re-found in this run shows up with the date of its last history
      row and in tier 4. */
  lemma RediscoveredKeepsHistory(a: Article, hist: seq<Row>, w: World, sites: seq<string>, k: nat)
    requires k < |hist| && hist[k].key == NormalizeUrl(w.site.parse, a.link)
    requires forall j :: k < j < |hist| ==> hist[j].key != hist[k].key
    ensures NewRow(a, DateIndex(hist), w.site.parse, w.titleToHebrew).date == hist[k].date
    ensures Priority(NewRow(a, DateIndex(hist), w.site.parse, w.titleToHebrew), Keys(hist), sites) == 4
  {
    NewRowFacts(a, hist, w.site.parse, w.titleToHebrew);
  }
}
