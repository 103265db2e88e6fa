# news_for_invest — a Dafny model of the news collection run

`app.py` runs one job, `background_process`. It reads four Google Sheets: the
keywords, the sites to search, the previous results and the decisions. From
them it:

1. reads the previous results back as history, keyed by a canonical URL;
2. resolves every keyword row into a (Hebrew, English) pair, translating the
   missing side and writing corrections back to the sheet;
3. scrapes every user site (an RSS feed, or the links of an HTML page), then
   searches Google News (US edition in English, Israeli edition in Hebrew);
4. merges the new articles with the history. The new rows come first. The
   merged table is deduplicated by canonical URL. Each row gets a priority
   tier (4 for a URL already in the history). The table is sorted by keyword,
   then tier, then newest date first;
5. when an API key is present, asks a language model for a recommendation on
   each keyword that has new data or no decision yet;
6. rewrites the results sheet with at most 20 rows per keyword and sends a
   notification listing the keywords whose shown rows contain a new URL.

The model follows the script's structure, one module per stage:

- `Text`: string helpers (`str.lower`, `str.strip`, `str.replace`,
  `str.rsplit`, the substring test, code-point order).
- `Urls`: `normalize_url`, `extract_site_name`, `clean_title_google_news`.
- `Keywords`: `contains_hebrew`, keyword matching,
  `check_keyword_in_article_body`, keyword-sheet resolution.
- `Scrape`: `scrape_single_site`, the thread pool, the Google News loop.
- `History`: step 1.
- `Merge`: step 4.
- `Decisions`: `analyze_market_sentiment` and step 5.
- `Report`: step 6.
- `Pipeline`: `background_process` itself.

Loops in the source are methods with loop invariants. Each method is proved
equal to a specification function, and the properties are proved about
those functions as lemmas.

The outside world becomes parameters: `urlparse`, the HTTP requests with
their parsed feeds and pages, `urljoin`, the translators, the model call and
`json.loads`. Each of these is a function value. A call that raises is
`None` or `Err`. The clock readings and the order in which the thread pool
completes the sites are also parameters.

Three behaviours of the script worth knowing:

- `normalize_url` is not idempotent. A host/path ending in `//` loses one
  slash per application (`Urls.CleanKeyNotIdempotent`). The key is computed
  once from the raw link on every run, so this never matters in the script.
- A site scrape has three statuses only: `OK`, `Blocked` (HTTP 401 or 403)
  and `Error: ` followed by the first ten characters of the exception text.
  The script discards the status.
- A readable-entry failure inside the feed or link loop ends that loop. The
  articles found so far are kept.

## Model

| member | source | states |
|---|---|---|
| Text.Lower | app.py:73 | `str.lower` keeps the length, maps each character through ASCII lower-casing, and leaves no upper-case letter |
| Text.LastOccurrence | app.py:49 | the last start of the separator, as `rsplit(sep, 1)` cuts there, also when occurrences overlap; none when it does not occur |
| Text.SplitLastFacts | app.py:49-51 | `rsplit(sep, 1)` yields two parts exactly when `sep` occurs; the parts rejoin to the input and the second holds no further separator |
| Text.RemoveAll | app.py:73 | `str.replace(p, "")` never lengthens the text and keeps only characters of it; `RemoveAllAbsent` and `RemoveAllAfterFree` state which occurrences go |
| Text.RemoveAllAfterFree | app.py:73 | an occurrence that no earlier occurrence overlaps is deleted, and the text before it is kept |
| Text.Strip | app.py:281-282 | `str.strip` leaves no whitespace at either end; `StripRemovesOnlySurroundingSpace` states that it removes nothing else |
| Text.StripStartOnlySpaces | app.py:281-282 | everything the left strip drops is whitespace |
| Text.StripEndOnlySpaces | app.py:281-282 | everything the right strip drops is whitespace |
| Text.StripRemovesOnlySurroundingSpace | app.py:281-282 | the stripped text is a slice of the input with only whitespace before and after it |
| Urls.Scrub | app.py:73 | after lower-casing and the three deletions no upper-case letter is left and the text is not longer |
| Urls.ScrubDeletesInnerScheme | app.py:73 | an `https://` in the middle of the host/path is deleted too, not only a leading one |
| Urls.DropTrailingSlash | app.py:74 | at most one trailing `/` is removed, and one is removed exactly when the text ends in `/` |
| Urls.CleanKey | app.py:73-75 | the key of a host/path has no upper-case letter and is no longer than it |
| Urls.NormalizeUrl | app.py:68-77 | the empty URL gives ""; an unparsable URL is its own key; otherwise the key has no upper-case letter and is no longer than netloc plus path |
| Urls.NormalizeIgnoresSchemeQueryFragment | app.py:71-72 | two parsable URLs with the same netloc and path share a key, whatever their scheme, query and fragment |
| Urls.OnlyOneTrailingSlashStripped | app.py:74 | a cleaned host/path ending in `//` still ends in `/` after normalisation |
| Urls.CleanKeyNotIdempotent | app.py:72-75 | cleaning is not idempotent: `a//` cleans to `a/`, which cleans to `a` |
| Urls.SpellingsShareKey | app.py:72-75 | letter case, a leading `www.` and one trailing `/` around a clean core all normalise to that core |
| Urls.EquivalentUrlsShareKey | app.py:68-77 | two URLs spelling the same core in those ways get the same key, the core |
| Urls.SiteFromUrl | app.py:53-60 | the site is the netloc minus a leading `www.`, or `Unknown Source` when parsing raises |
| Urls.ExtractSiteName | app.py:47-60 | no contract of its own; `GoogleNewsSplit` and `NoSeparatorFallbacks` state its result |
| Urls.CleanTitleGoogleNews | app.py:62-66 | no contract of its own; `GoogleNewsSplit` and `NoSeparatorFallbacks` state its result |
| Urls.NoSeparatorFallbacks | app.py:47-66 | unless it is a Google News title holding ` - `, the site is the URL's host; a title without ` - ` stays as it is |
| Urls.GoogleNewsSplit | app.py:47-66 | site and clean title are the stripped halves around the same, last, separator; the site holds no separator; the clean title is strictly shorter than the title |
| Keywords.ContainsHebrew | app.py:105-106 | true exactly when some character lies in U+0590..U+05FF |
| Keywords.PairMatches | app.py:120 | no contract of its own; `EmptyTermsNeverMatch` and `MatchedKeyword` state what it means |
| Keywords.FirstMatchIndex | app.py:148-150 | the index of the first pair with a non-empty term contained in the text, none matching before it |
| Keywords.MatchedKeyword | app.py:119-121 | a keyword is reported exactly when some pair matches; it is non-empty; it is that of the FIRST matching pair, its Hebrew term when non-empty even if only the English one matched, else its English term |
| Keywords.EmptyTermsNeverMatch | app.py:120 | with an empty Hebrew term a pair matches exactly when its English term is non-empty and occurs, and the mirror for an empty English term; "" itself occurs in every text |
| Keywords.FindKeyword | app.py:148-150 | the loop reports the first matching pair, under its Hebrew term when non-empty, and "" when nothing matches |
| Keywords.BodyKeyword | app.py:114-123 | a match needs status 200; with status 200 it is the keyword match on the lower-cased page text |
| Keywords.CheckArticleBody | app.py:114-123 | the body check returns exactly `BodyKeyword` of the fetched page, and "" on no match |
| Keywords.ResolveRow | app.py:281-283 | a row is skipped exactly when both stripped cells are empty |
| Keywords.ResolveRowSlots | app.py:285-289 | a Hebrew cell fills the Hebrew slot, any other non-empty cell the English one, column B over column A; one slot is copied from the row |
| Keywords.ResolveRowTranslations | app.py:290-293 | the missing English side is the translation of the Hebrew; the missing Hebrew side is the translation unless it equals the English up to case |
| Keywords.PairsOf | app.py:283-295 | the pairs are exactly those of the non-skipped rows, no more than the rows; `PairsOfAppend` gives their order |
| Keywords.PairsOfAppend | app.py:280-295 | the pairs of a sheet split in two are those of the upper part followed by those of the lower part, so sheet order is kept |
| Keywords.UpdatesOf | app.py:296-297 | no more write-backs than data rows |
| Keywords.UpdatesOfFacts | app.py:280-297 | exactly one write-back per row whose pair differs from its cells, at sheet row index + 2, carrying that pair, in row order |
| Keywords.OutcomesStep | app.py:280-297 | one more sheet row adds its pair, if any, and its write-back, if changed, at the end |
| Keywords.ResolvedPairsComeFromCells | app.py:280-295 | every resolved pair has a non-empty term copied from some data row |
| Keywords.ResolveKeywords | app.py:274-298 | the loop returns the pairs and the write-backs of the keyword sheet |
| Scrape.ErrorStatus | app.py:180-181 | the error status is an error whose text is a prefix of the message of length exactly min(10, length of the message) |
| Scrape.FirstAlias | app.py:131-136 | the first alias name occurring in the URL, none before it |
| Scrape.FeedUrl | app.py:130-136 | a URL mentioning `xml` or `rss` is requested as is; otherwise the feed of the first matching alias, or the URL itself |
| Scrape.AliasTargetIsFeed | app.py:132-136 | every alias target mentions `xml` or `rss` |
| Scrape.FeedUrlIdempotent | app.py:130-136 | every alias feed mentions `xml` or `rss`, so resolving twice equals resolving once |
| Scrape.Cap | app.py:145 | `lst[:n]` is a prefix of length exactly min(n, length of the list) |
| Scrape.EntryKeyword | app.py:146-151 | the title test decides when it matches; otherwise the body check; a reported keyword is non-empty |
| Scrape.FeedScan | app.py:144-161 | the feed loop finds no more articles than entries |
| Scrape.FeedScanFacts | app.py:145-161 | every found article is dated now, labelled with the site's host, from a readable entry with its title and link, and filed under the keyword that entry's title or body check reports |
| Scrape.FeedScanSticky | app.py:144-181 | after an exception in the loop, later entries change nothing |
| Scrape.BrokenEntryKeepsEarlierFinds | app.py:145-182 | the first unreadable entry ends the scan with its message and keeps what came before |
| Scrape.NoBrokenNoError | app.py:145-161 | without unreadable entries the feed loop ends without error |
| Scrape.FeedScanReadable | app.py:144-161 | over readable entries the feed loop ends without error, with the articles of the matching entries in feed order |
| Scrape.FeedScanComplete | app.py:144-182 | up to the first unreadable entry, the feed loop keeps exactly the articles of the matching entries, in feed order; none is missed |
| Scrape.AnchorScan | app.py:163-179 | the link loop finds no more articles than links |
| Scrape.AnchorScanFacts | app.py:163-179 | every article comes from a link with text of five or more characters, joined to the site URL, whose page matched the keyword |
| Scrape.AnchorScanSticky | app.py:165-181 | after a failing join, later links change nothing |
| Scrape.AnchorScanJoinable | app.py:163-179 | when every link joins, the link loop ends without error, with the articles of the matching links in page order |
| Scrape.AnchorScanComplete | app.py:163-182 | up to the first failing join, the link loop keeps exactly the articles of the matching links, in page order, and reports that join's error; none is missed |
| Scrape.SiteOutcomeShape | app.py:125-182 | at most 30 articles, all from this site and dated now; a raised request gives nothing and an error; Blocked exactly on 401/403, with nothing; an error text is at most 17 characters starting `Error: ` |
| Scrape.SiteOutcome | app.py:125-182 | no contract of its own; `SiteOutcomeShape`, `ReadableFeedIsOk`, `ReadablePageIsOk` and `ScrapeSite` state its result |
| Scrape.ReadableFeedIsOk | app.py:143-161 | a feed answer whose first 30 entries are readable is OK even when nothing matched |
| Scrape.ReadablePageIsOk | app.py:162-179 | an HTML answer, not 401/403, whose first 30 links all join is OK even when nothing matched |
| Scrape.MatchEntry | app.py:146-151 | returns exactly the entry's keyword decision |
| Scrape.ScanFeed | app.py:144-161 | the feed loop with early exit equals the feed scan |
| Scrape.ScanAnchors | app.py:163-179 | the link loop with early exit equals the link scan |
| Scrape.ScrapeSite | app.py:125-182 | `scrape_single_site` returns exactly the articles and status of the site outcome |
| Scrape.PrioritySites | app.py:303 | the sites are exactly the first cells below the header that start with `http` |
| Scrape.InOrderMembers | app.py:308-310 | the gathered articles are exactly those of the sites in the completion order |
| Scrape.CompletionOrderIrrelevant | app.py:306-310 | any completion order covering every site gathers the same articles, exactly those of all sites |
| Scrape.SiteResults | app.py:307 | one result per site, that site's own scrape |
| Scrape.FetchAll | app.py:306-310 | the articles are the per-site results in completion order; every site gets its own status |
| Scrape.ReadablePrefix | app.py:318-333 | the entries read before the first unreadable one: all readable, and the next one, if any, unreadable |
| Scrape.QueryArticles | app.py:321-333 | one search yields no more articles than entries |
| Scrape.QueryArticlesFacts | app.py:321-332 | each result is filed under the pair's reported keyword, from a readable entry whose title halves are its site and headline |
| Scrape.RegionArticles | app.py:316-333 | at most ten articles per keyword in one region |
| Scrape.RegionArticlesFacts | app.py:316-333 | every region result is marked with its region, dated now, filed under a configured keyword |
| Scrape.NewsArticlesShape | app.py:313-333 | at most 20 articles per keyword, none from a user site, each under a configured keyword |
| Scrape.ReadSearch | app.py:318-333 | reading one search's entries until an unreadable one equals the search's articles |
| Scrape.SearchRegion | app.py:316-333 | the per-keyword loop of one region equals the region's articles |
| Scrape.SearchGoogleNews | app.py:313-333 | the two-region loop yields the global articles, then the local ones |
| History.FixHeader | app.py:260 | same length; the fourth header cell becomes the site heading; every other cell is unchanged |
| History.ColumnOf | app.py:263-265 | the first column whose renamed heading matches, or none when no heading does |
| History.KeptRows | app.py:261 | exactly the rows with at least three cells and a non-empty third cell are kept, each as often as the sheet holds it |
| History.KeptRowsInOrder | app.py:261 | the kept rows are a subsequence of the sheet rows: sheet order is kept |
| History.HistoryRow | app.py:262-267 | no contract of its own; `LoadHistory` and `HistoryComesFromSheet` state its use |
| History.LoadHistory | app.py:253-267 | no history unless there is a data row and all five columns are found in the fixed header; then the k-th history row is the k-th kept row read through those columns, keyed by its normalised link |
| History.HistoryComesFromSheet | app.py:258-267 | every history row is a kept sheet row read through the found columns |
| History.DateIndex | app.py:268-269 | no contract of its own; `DateIndexLastWins` states its keys and values |
| History.DateIndexKeys | app.py:268-269 | the index holds exactly the keys of the rows |
| History.DateIndexAt | app.py:268-269 | a row that no later row shares its key with sets its key's date |
| History.DateIndexLastWins | app.py:268-269 | the index holds exactly the history keys, each mapped to the date of its last row |
| History.BuildDateIndex | app.py:268-269 | the index loop equals the date index |
| History.Keys | app.py:271 | exactly the keys of the given rows; of the history, the seen canonical URLs |
| History.KeysAreIndexed | app.py:268-271 | the seen keys are exactly the domain of the date index |
| Merge.TranslatedTitle | app.py:344-347 | no contract of its own; `NewRowFacts` states when the title is kept |
| Merge.FixDate | app.py:349-353 | no contract of its own; `NewRowFacts` and `RediscoveredKeepsHistory` state the date |
| Merge.NewRow | app.py:339-353 | no contract of its own; `NewRowFacts` states its fields |
| Merge.PrepareNew | app.py:340-353 | one row per new article, keyed, title-translated and date-fixed |
| Merge.NewRowFacts | app.py:341-353 | a new row keeps keyword, link and site; a title without a Latin letter is unchanged; a rediscovered URL takes the date of its last history row, another keeps its own date |
| Merge.Dedup | app.py:358 | no more rows than the input; `DedupKeys`, `DedupDistinct` and `DedupFirst` state which rows stay |
| Merge.DedupKeys | app.py:358 | the dedup keeps the set of keys unchanged |
| Merge.DedupDistinct | app.py:358 | after the dedup no two rows share a key |
| Merge.DedupFirst | app.py:358 | each kept row is the first row of the input with its key |
| Merge.NewBeatsOld | app.py:355-358 | a key collected in this run keeps its first new row, never a history row |
| Merge.Priority | app.py:360-367 | tiers 1 to 4; 4 exactly for a key in the history; otherwise 1 exactly for a user-site article or a link containing a priority site; otherwise 2 exactly for the global edition; 3 for the rest |
| Merge.HistoryIsTierFour | app.py:362 | every history row ranks in tier 4 |
| Merge.Rank | app.py:369 | every row is paired with its own tier |
| Merge.BeforeTransitive | app.py:370 | the sort order (keyword up, tier up, date down) is transitive |
| Merge.InsertPermutes | app.py:370 | inserting adds exactly one element and loses none |
| Merge.InsertKeepsSorted | app.py:370 | inserting into a sorted list keeps it sorted |
| Merge.SortRanked | app.py:370 | keeps the length; `SortRankedFacts` states that it is a sorted permutation |
| Merge.SortRankedFacts | app.py:370 | the sort yields a sorted permutation of its input |
| Merge.SortedMeaning | app.py:370 | in a sorted table keywords never decrease; within a keyword tiers never decrease; within both, dates never increase |
| Report.KeywordOrder | app.py:431 | each keyword of the table once, and only those |
| Report.SortedKeywordOrderAscends | app.py:392-394 | in a sorted table first appearance lists keywords in ascending order, as the sorted grouping does |
| Report.Group | app.py:431-432 | exactly the rows of one keyword, each as often as the table holds it |
| Report.GroupInOrder | app.py:431-432 | a group is a subsequence of the table: table order is kept |
| Report.Window | app.py:433 | `head(20)`: a prefix of the group of length exactly min(20, group size) |
| Report.Block | app.py:435-438 | a keyword's block is its rows' five cells, then two blank rows |
| Report.LogBody | app.py:432-438 | no contract of its own; `LogLinesComeFromTable` and `LogBodyLength` state what it holds |
| Report.LogLinesComeFromTable | app.py:428-438 | every log line is blank or the cells of a table row |
| Report.LogBodyLength | app.py:432-438 | each keyword adds between 2 and 22 lines |
| Report.FlaggedMeaning | app.py:434 | a keyword is flagged exactly when its window has a row below tier 4 |
| Report.Flagged | app.py:429-434 | no contract of its own; `FlaggedMeaning` states which keywords it holds |
| Report.HasFreshMembers | app.py:434 | `any(top_20['Sort_Priority'] < 4)` holds exactly when some shown row is below tier 4 |
| Report.EmitBlock | app.py:433-438 | one keyword's lines and whether one of its shown rows is below tier 4 |
| Report.BuildLog | app.py:427-441 | the written sheet is the header, then each keyword's block; the flags are the flagged keywords |
| Report.Notification | app.py:443-447 | nothing is sent exactly when no keyword is flagged; otherwise the message is the prefix and every flagged keyword listed once, joined by ", " |
| Decisions.StripFence | app.py:219-223 | the cleaned reply is no longer than the stripped reply |
| Decisions.FenceRoundTrip | app.py:219-223 | a reply fenced by ```` ```json ```` and ```` ``` ```` gives back exactly its inside |
| Decisions.UnfencedReplyOnlyStripped | app.py:219-223 | an unfenced reply is only stripped |
| Decisions.Analyze | app.py:185-229 | no analysis without an API key; an analysis needs a successful model call on at most 50 headlines; `AnalyzeDecodesFencedReply` and `AnalyzeDecodesUnfencedReply` state that the result is the decoding of the reply with its fence and surrounding whitespace removed |
| Decisions.AnalyzeDecodesFencedReply | app.py:218-225 | with a key, a reply fenced by ```` ```json ```` and ```` ``` ```` is decoded from exactly its inside |
| Decisions.AnalyzeDecodesUnfencedReply | app.py:218-225 | with a key, a reply without fences is decoded after only stripping surrounding whitespace |
| Decisions.Upsert | app.py:405-411 | an existing key keeps its position, a new key goes last |
| Decisions.UpsertLookup | app.py:405-411 | after the upsert the key maps to the new value and every other key keeps its value |
| Decisions.UpsertDistinct | app.py:405-411 | an upsert into a table with distinct keys keeps them distinct |
| Decisions.LoadedMap | app.py:386-390 | no contract of its own; `LoadedMapDistinct` and `LoadedMapLastWins` state its entries |
| Decisions.LoadedMapDistinct | app.py:386-390 | the loaded table has distinct keys |
| Decisions.LoadedMapLastWins | app.py:386-390 | each loaded key maps to the last row naming it |
| Decisions.LoadDecisions | app.py:381-390 | the loading loop equals the loaded map |
| Decisions.Step | app.py:394-411 | no contract of its own; `StaleKeywordKeepsDecision`, `ChangedOnlyByAnalysis` and `AnalysisInstallsVerdict` state when an entry changes and to what |
| Decisions.Updated | app.py:392-411 | no contract of its own; `AnalysisInstallsVerdict` states that an analysed keyword gets its verdict, `ChangedOnlyByAnalysis` that nothing else changes an entry, `StaleKeywordKeepsDecision` that a stale decided keyword keeps it; `UpdateDecisions` is the loop |
| Decisions.StepElsewhere | app.py:394-411 | one group's step leaves the entry of every other keyword as it was |
| Decisions.StepInstalls | app.py:396-411 | a group whose keyword has new data or no decision, and whose analysis is a non-empty object, sets that keyword's entry to its verdict |
| Decisions.StaleKeywordKeepsDecision | app.py:394-417 | a keyword without new data that has a decision keeps it |
| Decisions.ChangedOnlyByAnalysis | app.py:394-411 | an entry only changes to the verdict of a successful, non-empty analysis of its keyword, dated now and counting its rows |
| Decisions.UpdatedAppend | app.py:394 | running two lists of groups one after the other is running their concatenation |
| Decisions.OtherGroupsKeepEntry | app.py:394-411 | groups of other keywords leave a keyword's entry unchanged |
| Decisions.OtherGroupsKeepEntryIn | app.py:394-411 | a run of groups of other keywords leaves a keyword's entry unchanged |
| Decisions.InstalledAfterGroup | app.py:394-411 | after the groups up to and including a keyword's first group, if that group is analysed and its analysis is a non-empty object, the keyword holds that group's verdict |
| Decisions.AnalysisInstallsVerdict | app.py:394-411 | a group whose keyword has new data or no decision, and whose analysis is a non-empty object, leaves its verdict, dated now and counting the group's rows, as that keyword's entry after the loop |
| Decisions.UpdateDecisions | app.py:392-417 | the analysis loop equals the group-by-group update |
| Pipeline.NewRows | app.py:339-353 | one row per collected article, in order; the contract is the projection itself and holds no proof, `NewRowFacts` states what each row holds |
| Pipeline.Table | app.py:355-370 | no contract of its own; `TableTiers`, `SortRankedFacts` and the `Dedup` lemmas state what it holds |
| Pipeline.Headlines | app.py:397 | one headline per row of the group, the i-th carrying the title, site and date of the i-th row; the contract is the projection itself and holds no proof |
| Pipeline.Groups | app.py:392-397 | no contract of its own; `GroupsAscend` and `GroupsCoverKeywords` state its order and contents |
| Pipeline.BackgroundProcess | app.py:231-447 | returns the keyword write-backs and the merged table; writes the log exactly when the table is non-empty; notifies exactly when a keyword is flagged, with the prefix and every flagged keyword listed once; writes decisions only with a key and a non-empty table |
| Pipeline.GroupsAscend | app.py:392-397 | the analysis visits keywords in ascending order, each with all its rows |
| Pipeline.GroupsCoverKeywords | app.py:392-397 | each group is a keyword of the table carrying as many headlines as the table has rows of it |
| Pipeline.TableTiers | app.py:357-370 | every table row carries its own tier and survived the dedup |
| Pipeline.FlaggedIffUnseenShown | app.py:431-434 | a keyword is announced exactly when one of its shown rows has a URL not in the history |
| Pipeline.FlaggedIffFresh | app.py:431-434 | for any table whose tiers below 4 are exactly its unseen keys, a keyword is flagged exactly when its window holds an unseen key |
| Pipeline.OnlyRediscoveriesNotifyNothing | app.py:355-445 | a run that only re-found history URLs announces nothing |
| Pipeline.RediscoveredKeepsHistory | app.py:349-362 | a re-found URL shows its last history date and ranks in tier 4 |

## Left out

- Google Sheets access: opening, creating the decisions sheet, header colours, `clear`/`update`/`batch_update`. The model returns what would be written.
- Sheet values are lists of rows of strings. A pandas frame built from rows of unequal length is not modelled; short rows read as "" past their end.
- Duplicate header names in the results sheet: the first column with a heading is taken.
- HTTP requests, `feedparser`, BeautifulSoup, `urlparse`, `urljoin`, the translators, the model call and `json.loads` are oracle parameters. Their own behaviour is out of scope.
- Lower-casing is ASCII only. Hebrew has no case; other scripts' case folding is not modelled.
- The thread pool's concurrency: only the completion order is a parameter, and each site's scrape is a function of its inputs.
- `get_il_time`, `time.sleep`, `print` and environment variables. The clock readings are parameters.
- `send_notification`: the HTTP POST, its base64 title and the ntfy topic. The model stops at the message text.
- The prompt's wording; only the keyword, the headlines shown and the total count reach the model oracle.
- Decisions.Analyze: the decoded JSON is a map of strings. A reply that decodes to a non-object value, which would raise in `.get`, is not modelled.
- A translator exception while resolving keywords aborts the script; the translators here always answer.
- Merge.SortRankedFacts: a sorted permutation is proved, not the stability of pandas' sort, which its default sort does not promise either.
- Scrape.FetchAll: the row index echoed back by each scrape is not modelled; the script ignores it.
- Titles the translator would turn into non-strings, and missing values (NaN) in the history frame, are not modelled.
