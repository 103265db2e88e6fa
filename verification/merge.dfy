/** Step 4 of the run: the new articles keyed and completed, the combined
    table deduplicated by canonical URL, the priority tiers and the sort. */
module Merge {
  import opened Text
  import opened Urls
  import opened Scrape
  import opened History

  // ------------------------------------------------- new rows

  predicate IsAsciiLetter(c: char) { 'a' <= c <= 'z' || 'A' <= c <= 'Z' }

  /** `any(c.isalpha() and c.isascii() for c in title)`. */
  predicate HasAsciiLetter(s: string)
  {
    exists i :: 0 <= i < |s| && IsAsciiLetter(s[i])
  }

  /** A title with a Latin letter is replaced by its Hebrew translation;
      when the translator raises (`None`), the title stays. */
  function TranslatedTitle(title: string, translate: string -> Option<string>): string
  {
    if HasAsciiLetter(title) && translate(title).Some? then translate(title).value else title
  }

  /** `fix_date_if_exists`: an article already in the history keeps the date
      it was first logged with. */
  function FixDate(index: map<string, string>, key: string, date: string): string
  {
    if key in index then index[key] else date
  }

  /** A collected article as a row of the combined table. */
  function NewRow(a: Article, index: map<string, string>, parse: UrlParser, translate: string -> Option<string>): Row
  {
    var key := NormalizeUrl(parse, a.link);
    Row(FixDate(index, key, a.date), a.keyword, a.link, a.site, TranslatedTitle(a.title, translate), key, Fetched(a.origin))
  }

  /** The keying, title translation and date fix of the new articles. */
  method PrepareNew(arts: seq<Article>, index: map<string, string>, parse: UrlParser, translate: string -> Option<string>)
    returns (rows: seq<Row>)
    ensures |rows| == |arts|
    ensures forall i :: 0 <= i < |arts| ==> rows[i] == NewRow(arts[i], index, parse, translate)
  {
    rows := [];
    var i := 0;
    while i < |arts|
      invariant 0 <= i <= |arts|
      invariant |rows| == i
      invariant forall j :: 0 <= j < i ==> rows[j] == NewRow(arts[j], index, parse, translate)
    {
      var a := arts[i];
      var key := NormalizeUrl(parse, a.link);
      var title := a.title;
      if HasAsciiLetter(title) {
        var t := translate(title);
        if t.Some? {
          title := t.value;
        }
      }
      var date := if key in index then index[key] else a.date;
      var row := Row(date, a.keyword, a.link, a.site, title, key, Fetched(a.origin));
      assert row == NewRow(a, index, parse, translate);
      rows := rows + [row];
      i := i + 1;
    }
  }

  /** A new row keeps everything the collector found except the title,
      which only changes when it holds a Latin letter, and the date, which
      is the history's date for a rediscovered URL: the date of the LAST
      history row with that key. */
  lemma NewRowFacts(a: Article, hist: seq<Row>, parse: UrlParser, translate: string -> Option<string>)
    ensures var r := NewRow(a, DateIndex(hist), parse, translate);
      && r.key == NormalizeUrl(parse, a.link)
      && r.keyword == a.keyword && r.link == a.link && r.site == a.site && r.from == Fetched(a.origin)
      && (!HasAsciiLetter(a.title) ==> r.title == a.title)
      && (r.key !in Keys(hist) ==> r.date == a.date)
      && (forall k :: (0 <= k < |hist| && hist[k].key == r.key &&
            (forall j :: k < j < |hist| ==> hist[j].key != r.key)) ==> r.date == hist[k].date)
  {
    DateIndexLastWins(hist);
    KeysAreIndexed(hist);
  }

  // ------------------------------------------------------ dedup

  /** `drop_duplicates(subset=['normalized_url'], keep='first')`. */
  function Dedup(rows: seq<Row>): (kept: seq<Row>)
    ensures |kept| <= |rows|
    decreases |rows|
  {
    if rows == [] then []
    else
      var n := |rows| - 1;
      var kept := Dedup(rows[..n]);
      if rows[n].key in Keys(rows[..n]) then kept else kept + [rows[n]]
  }

  /** The first row with a given key. */
  predicate FirstWithKey(rows: seq<Row>, k: int)
  {
    0 <= k < |rows| && forall j :: 0 <= j < k ==> rows[j].key != rows[k].key
  }

  /** The dedup loses no key: every key of the input is still there. */
  lemma {:induction false} DedupKeys(rows: seq<Row>)
    ensures Keys(Dedup(rows)) == Keys(rows)
    decreases |rows|
  {
    if rows != [] {
      var n := |rows| - 1;
      var pre := rows[..n];
      DedupKeys(pre);
      var kept := Dedup(pre);
      assert Keys(rows) == Keys(pre) + {rows[n].key} by {
        assert rows == pre + [rows[n]];
      }
      if rows[n].key !in Keys(pre) {
        var d := kept + [rows[n]];
        assert Keys(d) == Keys(kept) + {rows[n].key} by {
          forall key | key in Keys(d) ensures key in Keys(kept) + {rows[n].key} {
            var i :| 0 <= i < |d| && d[i].key == key;
            if i < |kept| { assert d[i] == kept[i]; }
          }
          forall key | key in Keys(kept) ensures key in Keys(d) {
            var i :| 0 <= i < |kept| && kept[i].key == key;
            assert d[i] == kept[i];
          }
          assert d[|kept|] == rows[n];
        }
      }
    }
  }

  /** After the dedup every key occurs once. */
  lemma {:induction false} DedupDistinct(rows: seq<Row>)
    ensures forall i, j :: 0 <= i < j < |Dedup(rows)| ==> Dedup(rows)[i].key != Dedup(rows)[j].key
    decreases |rows|
  {
    if rows != [] {
      var n := |rows| - 1;
      var pre := rows[..n];
      DedupDistinct(pre);
      DedupKeys(pre);
      var kept := Dedup(pre);
      if rows[n].key !in Keys(pre) {
        var d := kept + [rows[n]];
        forall i, j | 0 <= i < j < |d| ensures d[i].key != d[j].key {
          assert d[i] == kept[i];
          if j == |kept| {
            assert kept[i].key in Keys(kept);
          } else {
            assert d[j] == kept[j];
          }
        }
      }
    }
  }

  /** What is kept of each key is its first row. */
  lemma {:induction false} DedupFirst(rows: seq<Row>)
    ensures forall r :: r in Dedup(rows) ==> exists k :: FirstWithKey(rows, k) && rows[k] == r
    decreases |rows|
  {
    if rows != [] {
      var n := |rows| - 1;
      var pre := rows[..n];
      DedupFirst(pre);
      assert forall k :: 0 <= k < n ==> pre[k] == rows[k];
      var kept := Dedup(pre);
      forall r | r in Dedup(rows) ensures exists k :: FirstWithKey(rows, k) && rows[k] == r {
        if r in kept {
          var k :| FirstWithKey(pre, k) && pre[k] == r;
          assert FirstWithKey(rows, k);
        } else {
          assert r == rows[n] && rows[n].key !in Keys(pre);
          assert FirstWithKey(rows, n);
        }
      }
    }
  }

  /** The dedup runs on `new ++ old`: a URL collected in this run shadows
      every history row with the same key, across keywords. */
  lemma NewBeatsOld(newRows: seq<Row>, oldRows: seq<Row>, r: Row)
    requires r in Dedup(newRows + oldRows)
    requires r.key in Keys(newRows)
    ensures exists k :: FirstWithKey(newRows, k) && newRows[k] == r
  {
    var rows := newRows + oldRows;
    DedupFirst(rows);
    var k :| FirstWithKey(rows, k) && rows[k] == r;
    var m :| 0 <= m < |newRows| && newRows[m].key == r.key;
    assert forall j :: 0 <= j < |newRows| ==> rows[j] == newRows[j];
    assert k <= m;
    assert newRows[k] == r;
    assert FirstWithKey(newRows, k);
  }

  // ------------------------------------------------------ priority

  /** `any(ps in link for ps in priority_sites)`: a raw substring test. */
  predicate MentionsPrioritySite(link: string, sites: seq<string>)
  {
    exists i :: 0 <= i < |sites| && Contains(link, sites[i])
  }

  /** `calculate_priority`: 4 for a URL already in the history, 1 for a
      user-site article or one whose link contains a priority site, 2 for
      the global Google News edition, 3 for the rest. */
  function Priority(r: Row, oldKeys: set<string>, sites: seq<string>): (tier: int)
    ensures 1 <= tier <= 4
    ensures tier == 4 <==> r.key in oldKeys
    ensures tier == 1 <==>
      r.key !in oldKeys && (r.from == Fetched(UserSite) || MentionsPrioritySite(r.link, sites))
    ensures tier == 2 <==>
      r.key !in oldKeys && !(r.from == Fetched(UserSite) || MentionsPrioritySite(r.link, sites))
      && r.from == Fetched(GoogleNews(Global))
    ensures tier == 3 <==>
      r.key !in oldKeys && !(r.from == Fetched(UserSite) || MentionsPrioritySite(r.link, sites))
      && r.from != Fetched(GoogleNews(Global))
  {
    if r.key in oldKeys then 4
    else if r.from == Fetched(UserSite) then 1
    else if MentionsPrioritySite(r.link, sites) then 1
    else if r.from == Fetched(GoogleNews(Global)) then 2
    else 3
  }

  /** Every history row ranks in tier 4, whatever its other columns. */
  lemma HistoryIsTierFour(hist: seq<Row>, sites: seq<string>)
    ensures forall r :: r in hist ==> Priority(r, Keys(hist), sites) == 4
  {
  }

  /** A row with its `Sort_Priority`. */
  datatype Ranked = Ranked(row: Row, tier: int)

  function Rank(rows: seq<Row>, oldKeys: set<string>, sites: seq<string>): (ranked: seq<Ranked>)
    ensures |ranked| == |rows|
    ensures forall i :: 0 <= i < |rows| ==> ranked[i] == Ranked(rows[i], Priority(rows[i], oldKeys, sites))
  {
    seq(|rows|, i requires 0 <= i < |rows| => Ranked(rows[i], Priority(rows[i], oldKeys, sites)))
  }

  // ---------------------------------------------------------- sort

  /** `a` sorts strictly before `b`: keyword ascending, then tier
      ascending, then date string descending. */
  predicate Before(a: Ranked, b: Ranked)
  {
    || StrLt(a.row.keyword, b.row.keyword)
    || (a.row.keyword == b.row.keyword && a.tier < b.tier)
    || (a.row.keyword == b.row.keyword && a.tier == b.tier && StrLt(b.row.date, a.row.date))
  }

  lemma BeforeTransitive(a: Ranked, b: Ranked, c: Ranked)
    requires Before(a, b) && Before(b, c)
    ensures Before(a, c)
  {
    if StrLt(a.row.keyword, b.row.keyword) && StrLt(b.row.keyword, c.row.keyword) {
      StrLtTransitive(a.row.keyword, b.row.keyword, c.row.keyword);
    } else if a.row.keyword == b.row.keyword == c.row.keyword && a.tier == b.tier == c.tier {
      StrLtTransitive(c.row.date, b.row.date, a.row.date);
    }
  }

  lemma BeforeIrreflexive(a: Ranked)
    ensures !Before(a, a)
  {
    StrLtIrreflexive(a.row.keyword);
    StrLtIrreflexive(a.row.date);
  }

  predicate Sorted(s: seq<Ranked>)
  {
    forall i, j :: 0 <= i < j < |s| ==> !Before(s[j], s[i])
  }

  /** Places `x` before the first element it sorts strictly before. */
  function Insert(x: Ranked, s: seq<Ranked>): (r: seq<Ranked>)
    ensures |r| == |s| + 1
    decreases |s|
  {
    if s == [] then [x]
    else if Before(x, s[0]) then [x] + s
    else [s[0]] + Insert(x, s[1..])
  }

  /** Inserting adds exactly the one element. */
  lemma {:induction false} InsertPermutes(x: Ranked, s: seq<Ranked>)
    ensures multiset(Insert(x, s)) == multiset(s) + multiset{x}
    decreases |s|
  {
    if s != [] {
      assert s == [s[0]] + s[1..];
      if !Before(x, s[0]) {
        InsertPermutes(x, s[1..]);
      }
    }
  }

  /** Inserting into a sorted list keeps it sorted. */
  lemma {:induction false} InsertKeepsSorted(x: Ranked, s: seq<Ranked>)
    requires Sorted(s)
    ensures Sorted(Insert(x, s))
    decreases |s|
  {
    if s != [] {
      if Before(x, s[0]) {
        forall j | 0 <= j < |s| ensures !Before(s[j], x) {
          if Before(s[j], x) {
            BeforeTransitive(s[j], x, s[0]);
            BeforeIrreflexive(s[0]);
          }
        }
      } else {
        assert Sorted(s[1..]);
        InsertKeepsSorted(x, s[1..]);
        InsertPermutes(x, s[1..]);
        var t := Insert(x, s[1..]);
        forall k | 0 <= k < |t| ensures !Before(t[k], s[0]) {
          assert t[k] in multiset(t);
          if t[k] != x {
            assert t[k] in multiset(s[1..]);
            var j :| 0 <= j < |s[1..]| && s[1..][j] == t[k];
            assert s[j + 1] == t[k];
          }
        }
      }
    }
  }

  /** `sort_values(by=['Keyword', 'Sort_Priority', 'Date'],
      ascending=[True, True, False])`, as a stable insertion sort. */
  function SortRanked(xs: seq<Ranked>): (s: seq<Ranked>)
    ensures |s| == |xs|
    decreases |xs|
  {
    if xs == [] then []
    else Insert(xs[|xs| - 1], SortRanked(xs[..|xs| - 1]))
  }

  /** The sort returns a sorted permutation of its input. */
  lemma {:induction false} SortRankedFacts(xs: seq<Ranked>)
    ensures Sorted(SortRanked(xs))
    ensures multiset(SortRanked(xs)) == multiset(xs)
    decreases |xs|
  {
    if xs != [] {
      var n := |xs| - 1;
      SortRankedFacts(xs[..n]);
      InsertPermutes(xs[n], SortRanked(xs[..n]));
      InsertKeepsSorted(xs[n], SortRanked(xs[..n]));
      assert xs == xs[..n] + [xs[n]];
    }
  }

  /** What sortedness means for the table: keywords never decrease; within
      a keyword tiers never decrease; within a keyword and tier dates never
      increase. */
  lemma SortedMeaning(s: seq<Ranked>, i: int, j: int)
    requires Sorted(s) && 0 <= i < j < |s|
    ensures StrLe(s[i].row.keyword, s[j].row.keyword)
    ensures s[i].row.keyword == s[j].row.keyword ==> s[i].tier <= s[j].tier
    ensures s[i].row.keyword == s[j].row.keyword && s[i].tier == s[j].tier ==> StrLe(s[j].row.date, s[i].row.date)
  {
    if s[i].row.keyword != s[j].row.keyword {
      StrLtTotal(s[i].row.keyword, s[j].row.keyword);
    }
    if s[i].row.date != s[j].row.date {
      StrLtTotal(s[i].row.date, s[j].row.date);
    }
  }
}
