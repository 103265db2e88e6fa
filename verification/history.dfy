/** Step 1 of the run: the previous results sheet read back as history,
    the index from canonical URL to original date, and the set of keys
    already seen. */
module History {
  import opened Text
  import opened Urls
  import opened Scrape

  /** Where a row of the combined table comes from: collected in this run
      (with its collector) or read back from the previous results sheet. */
  datatype RowOrigin = Fetched(origin: Origin) | Historical

  /** A row of the combined table, with its canonical URL `key`. */
  datatype Row = Row(date: string, keyword: string, link: string, site: string, title: string,
                     key: string, from: RowOrigin)

  const DateHeader := "תאריך ושעה"
  const KeywordHeader := "מילת מפתח"
  const LinkHeader := "קישור לכתבה"
  const SiteHeader := "שם האתר"
  const TitleHeader := "כותרת"

  /** The header row the results sheet is written with. */
  const LogHeader := [DateHeader, KeywordHeader, LinkHeader, SiteHeader, TitleHeader]

  /** The `col_map` renaming applied to the sheet's header. */
  function Rename(h: string): string
  {
    if h == DateHeader then "Date"
    else if h == KeywordHeader then "Keyword"
    else if h == LinkHeader then "Article URL"
    else if h == SiteHeader then "Site URL"
    else if h == TitleHeader then "Title"
    else h
  }

  /** The fourth header cell is forced to the site heading. */
  function FixHeader(header: seq<string>): (h: seq<string>)
    ensures |h| == |header|
    ensures |header| > 3 ==> h[3] == SiteHeader
    ensures forall j :: 0 <= j < |header| && j != 3 ==> h[j] == header[j]
  {
    if |header| > 3 then header[3 := SiteHeader] else header
  }

  /** The first column whose renamed heading is `name`. */
  function ColumnOf(header: seq<string>, name: string): (r: Option<nat>)
    ensures r.Some? ==> r.value < |header| && Rename(header[r.value]) == name
    ensures r.Some? ==> forall j :: 0 <= j < r.value ==> Rename(header[j]) != name
    ensures r.None? ==> forall j :: 0 <= j < |header| ==> Rename(header[j]) != name
  {
    if header == [] then None
    else if Rename(header[0]) == name then Some(0)
    else match ColumnOf(header[1..], name)
      case None => None
      case Some(k) => Some(k + 1)
  }

  /** A cell of a sheet row; "" past its end. */
  function At(row: seq<string>, j: nat): string
  {
    if j < |row| then row[j] else ""
  }

  /** The rows kept as history: non-empty, at least three cells, and a
      non-empty third cell. */
  predicate Kept(r: seq<string>)
  {
    |r| > 2 && r[2] != ""
  }

  /** The kept rows in sheet order, each as often as the sheet holds it. */
  function KeptRows(rows: seq<seq<string>>): (kept: seq<seq<string>>)
    ensures |kept| <= |rows|
    ensures forall r :: r in kept <==> r in rows && Kept(r)
    ensures forall r :: multiset(kept)[r] == if Kept(r) then multiset(rows)[r] else 0
    decreases |rows|
  {
    if rows == [] then []
    else
      var n := |rows| - 1;
      var kept := KeptRows(rows[..n]);
      assert rows == rows[..n] + [rows[n]];
      if Kept(rows[n]) then kept + [rows[n]] else kept
  }

  /** The kept rows keep the sheet's order. */
  lemma {:induction false} KeptRowsInOrder(rows: seq<seq<string>>)
    ensures IsSubsequence(KeptRows(rows), rows)
    decreases |rows|
  {
    if rows == [] {
      assert PicksAt(KeptRows(rows), rows, []);
    } else {
      var n := |rows| - 1;
      var pre, last := rows[..n], rows[n];
      KeptRowsInOrder(pre);
      var kept := KeptRows(pre);
      SubsequenceExtend(kept, pre, last, Kept(last));
      assert pre + [last] == rows;
      assert KeptRows(rows) == kept + (if Kept(last) then [last] else []);
    }
  }

  /** The five column positions of a history table. */
  datatype Columns = Columns(date: nat, keyword: nat, link: nat, site: nat, title: nat)

  function FindColumns(header: seq<string>): Option<Columns>
  {
    var d, k, l := ColumnOf(header, "Date"), ColumnOf(header, "Keyword"), ColumnOf(header, "Article URL");
    var s, t := ColumnOf(header, "Site URL"), ColumnOf(header, "Title");
    if d.Some? && k.Some? && l.Some? && s.Some? && t.Some? then
      Some(Columns(d.value, k.value, l.value, s.value, t.value))
    else None
  }

  /** One kept sheet row as a history row, keyed by its canonical URL. */
  function HistoryRow(r: seq<string>, c: Columns, parse: UrlParser): Row
  {
    var link := At(r, c.link);
    Row(At(r, c.date), At(r, c.keyword), link, At(r, c.site), At(r, c.title), NormalizeUrl(parse, link), Historical)
  }

  /** The history table: empty unless the sheet has a data row, some row is
      kept and all five columns are found (under their Hebrew or English
      headings) in the fixed header. */
  function LoadHistory(existing: seq<seq<string>>, parse: UrlParser): (hist: seq<Row>)
    ensures |existing| <= 1 ==> hist == []
    ensures |existing| > 1 && FindColumns(FixHeader(existing[0])).None? ==> hist == []
    ensures forall k :: 0 <= k < |hist| ==> hist[k].from == Historical && hist[k].key == NormalizeUrl(parse, hist[k].link)
    ensures |existing| > 1 && FindColumns(FixHeader(existing[0])).Some? ==>
      var (rows, c) := (KeptRows(existing[1..]), FindColumns(FixHeader(existing[0])).value);
      |hist| == |rows| && forall k :: 0 <= k < |hist| ==> hist[k] == HistoryRow(rows[k], c, parse)
  {
    if |existing| <= 1 then []
    else
      var rows := KeptRows(existing[1..]);
      match FindColumns(FixHeader(existing[0]))
      case None => []
      case Some(c) => seq(|rows|, k requires 0 <= k < |rows| => HistoryRow(rows[k], c, parse))
  }

  /** Every kept history row has a non-empty third cell and comes from the
      sheet, below its header. */
  lemma HistoryComesFromSheet(existing: seq<seq<string>>, parse: UrlParser, row: Row)
    requires row in LoadHistory(existing, parse)
    ensures exists r, c :: r in existing[1..] && Kept(r) && FindColumns(FixHeader(existing[0])) == Some(c) &&
                           row == HistoryRow(r, c, parse)
  {
    var rows := KeptRows(existing[1..]);
    var c := FindColumns(FixHeader(existing[0])).value;
    var k :| 0 <= k < |rows| && LoadHistory(existing, parse)[k] == row;
    assert rows[k] in rows;
  }

  // ------------------------------------------------------ date index

  /** `url_to_original_date` as the loop leaves it: later rows overwrite. */
  function DateIndex(rows: seq<Row>): (index: map<string, string>)
    decreases |rows|
  {
    if rows == [] then map[]
    else
      var n := |rows| - 1;
      DateIndex(rows[..n])[rows[n].key := rows[n].date]
  }

  /** The index has exactly the keys of the rows. */
  lemma {:induction false} DateIndexKeys(rows: seq<Row>)
    ensures forall key :: key in DateIndex(rows) <==> exists k :: 0 <= k < |rows| && rows[k].key == key
    decreases |rows|
  {
    if rows != [] {
      var n := |rows| - 1;
      DateIndexKeys(rows[..n]);
      assert forall k :: 0 <= k < n ==> rows[..n][k] == rows[k];
    }
  }

  /** A row no later row shares its key with sets that key's date. */
  lemma {:induction false} DateIndexAt(rows: seq<Row>, k: nat)
    requires k < |rows|
    requires forall j :: k < j < |rows| ==> rows[j].key != rows[k].key
    ensures rows[k].key in DateIndex(rows) && DateIndex(rows)[rows[k].key] == rows[k].date
    decreases |rows|
  {
    var n := |rows| - 1;
    if k < n {
      var pre := rows[..n];
      assert rows[n].key != rows[k].key;
      assert forall j :: k < j < n ==> pre[j] == rows[j];
      DateIndexAt(pre, k);
    }
  }

  /** The index has exactly the keys of the rows, and each maps to the date
      of the LAST row with that key. */
  lemma DateIndexLastWins(rows: seq<Row>)
    ensures forall key :: key in DateIndex(rows) <==> exists k :: 0 <= k < |rows| && rows[k].key == key
    ensures forall k :: 0 <= k < |rows| && (forall j :: k < j < |rows| ==> rows[j].key != rows[k].key) ==>
      DateIndex(rows)[rows[k].key] == rows[k].date
  {
    DateIndexKeys(rows);
    forall k | 0 <= k < |rows| && (forall j :: k < j < |rows| ==> rows[j].key != rows[k].key)
      ensures DateIndex(rows)[rows[k].key] == rows[k].date
    {
      DateIndexAt(rows, k);
    }
  }

  /** The loop that fills `url_to_original_date`. */
  method BuildDateIndex(rows: seq<Row>) returns (index: map<string, string>)
    ensures index == DateIndex(rows)
  {
    index := map[];
    var i := 0;
    while i < |rows|
      invariant 0 <= i <= |rows|
      invariant index == DateIndex(rows[..i])
    {
      assert rows[..i + 1][..i] == rows[..i];
      index := index[rows[i].key := rows[i].date];
      i := i + 1;
    }
    assert rows[..i] == rows;
  }

  /** The keys of `rows`; of the history rows, `old_urls_set`. */
  function Keys(rows: seq<Row>): (keys: set<string>)
    ensures forall key :: key in keys <==> exists k :: 0 <= k < |rows| && rows[k].key == key
  {
    set k | 0 <= k < |rows| :: rows[k].key
  }

  /** The set of seen keys is exactly the domain of the date index. */
  lemma KeysAreIndexed(rows: seq<Row>)
    ensures Keys(rows) == DateIndex(rows).Keys
  {
    DateIndexLastWins(rows);
  }
}
