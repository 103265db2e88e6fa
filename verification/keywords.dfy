/** Bilingual keyword pairs: Hebrew detection, the case-insensitive matcher
    used on feed titles and on article bodies, and the resolution of the
    keyword sheet into (Hebrew, English) pairs. */
module Keywords {
  import opened Text

  /** A keyword in its two spellings; either may be empty. */
  datatype KeywordPair = KeywordPair(he: string, en: string)

  predicate InHebrewBlock(c: char) { '\U{0590}' <= c <= '\U{05FF}' }

  /** `contains_hebrew`: some character lies in U+0590..U+05FF. */
  function ContainsHebrew(s: string): (b: bool)
    ensures b <==> exists i :: 0 <= i < |s| && InHebrewBlock(s[i])
  {
    if s == [] then false
    else if InHebrewBlock(s[0]) then true
    else
      var rest := ContainsHebrew(s[1..]);
      assert forall i :: 1 <= i < |s| ==> s[i] == s[1..][i - 1];
      assert rest ==> exists i :: 0 <= i < |s| && InHebrewBlock(s[i]) by {
        if rest {
          var k :| 0 <= k < |s[1..]| && InHebrewBlock(s[1..][k]);
          assert InHebrewBlock(s[k + 1]);
        }
      }
      rest
  }

  // ------------------------------------------------------------ matching

  /** A pair matches lower-cased text when one of its NON-EMPTY terms,
      lower-cased, is a substring of it. */
  predicate PairMatches(p: KeywordPair, lowerText: string)
  {
    || (p.he != "" && Contains(lowerText, Lower(p.he)))
    || (p.en != "" && Contains(lowerText, Lower(p.en)))
  }

  /** The keyword a match is reported under: the Hebrew term when present. */
  function Reported(p: KeywordPair): string
  {
    if p.he != "" then p.he else p.en
  }

  /** The index of the first pair, in input order, that matches. */
  function FirstMatchIndex(pairs: seq<KeywordPair>, lowerText: string): (r: Option<nat>)
    ensures r.Some? ==> r.value < |pairs| && PairMatches(pairs[r.value], lowerText)
    ensures r.Some? ==> forall j :: 0 <= j < r.value ==> !PairMatches(pairs[j], lowerText)
    ensures r.None? ==> forall j :: 0 <= j < |pairs| ==> !PairMatches(pairs[j], lowerText)
  {
    if pairs == [] then None
    else if PairMatches(pairs[0], lowerText) then Some(0)
    else match FirstMatchIndex(pairs[1..], lowerText)
      case None => None
      case Some(k) => Some(k + 1)
  }

  /** The keyword reported for `lowerText`: that of the first matching pair,
      its Hebrew term when non-empty, even when only the English one matched. */
  function MatchedKeyword(pairs: seq<KeywordPair>, lowerText: string): (r: Option<string>)
    ensures r.Some? <==> exists i :: 0 <= i < |pairs| && PairMatches(pairs[i], lowerText)
    ensures r.Some? ==> r.value != ""
    ensures forall i :: 0 <= i < |pairs| && PairMatches(pairs[i], lowerText) &&
                        (forall j :: 0 <= j < i ==> !PairMatches(pairs[j], lowerText)) ==>
      r == Some(if pairs[i].he != "" then pairs[i].he else pairs[i].en)
  {
    match FirstMatchIndex(pairs, lowerText)
    case None => None
    case Some(i) => Some(Reported(pairs[i]))
  }

  /** An empty term never matches, although "" is a substring of every
      text: a pair with an empty Hebrew term matches exactly when its English
      term is non-empty and occurs, and the mirror holds for an empty English
      term. */
  lemma EmptyTermsNeverMatch(p: KeywordPair, lowerText: string)
    ensures p.he == "" ==> (PairMatches(p, lowerText) <==> p.en != "" && Contains(lowerText, Lower(p.en)))
    ensures p.en == "" ==> (PairMatches(p, lowerText) <==> p.he != "" && Contains(lowerText, Lower(p.he)))
    ensures Contains(lowerText, Lower(""))
  {
    assert Lower("") == "";
  }

  /** The keyword loop of the title test (and of the body test): pairs are
      tried in order and the first hit is reported, under its Hebrew term
      when that term is non-empty even if only the English one matched. */
  method FindKeyword(lowerText: string, keywords: seq<KeywordPair>) returns (found: bool, kw: string)
    ensures found <==> MatchedKeyword(keywords, lowerText).Some?
    ensures found ==> kw == MatchedKeyword(keywords, lowerText).value
    ensures !found ==> kw == ""
  {
    var i := 0;
    while i < |keywords|
      invariant 0 <= i <= |keywords|
      invariant forall j :: 0 <= j < i ==> !PairMatches(keywords[j], lowerText)
    {
      var he, en := keywords[i].he, keywords[i].en;
      if (he != "" && Contains(lowerText, Lower(he))) || (en != "" && Contains(lowerText, Lower(en))) {
        found, kw := true, (if he != "" then he else en);
        return;
      }
      i := i + 1;
    }
    found, kw := false, "";
  }

  // -------------------------------------------------------- body check

  /** The outcome of fetching an article page: the request or the HTML
      parsing raised, or a status code and the page's visible text. */
  datatype BodyFetch = BodyRaised | BodyPage(status: int, text: string)

  /** What `check_keyword_in_article_body` reports for a fetched page. */
  function BodyKeyword(page: BodyFetch, keywords: seq<KeywordPair>): (r: Option<string>)
    ensures r.Some? ==> page.BodyPage? && page.status == 200
    ensures page.BodyPage? && page.status == 200 ==> r == MatchedKeyword(keywords, Lower(page.text))
  {
    match page
    case BodyRaised => None
    case BodyPage(status, text) =>
      if status != 200 then None else MatchedKeyword(keywords, Lower(text))
  }

  /** `check_keyword_in_article_body`: no match on a non-200 status or when
      the fetch raises; otherwise the keyword loop on the lower-cased text. */
  method CheckArticleBody(fetchBody: string -> BodyFetch, articleUrl: string, keywords: seq<KeywordPair>)
    returns (found: bool, kw: string)
    ensures found <==> BodyKeyword(fetchBody(articleUrl), keywords).Some?
    ensures found ==> kw == BodyKeyword(fetchBody(articleUrl), keywords).value
    ensures !found ==> kw == ""
  {
    var page := fetchBody(articleUrl);
    if page.BodyRaised? || page.status != 200 {
      return false, "";
    }
    var text := Lower(page.text);
    found, kw := FindKeyword(text, keywords);
  }

  // ---------------------------------------------------- sheet resolution

  /** A cell of the keyword sheet, stripped; "" past the end of the row. */
  function Cell(row: seq<string>, j: nat): string
  {
    if j < |row| then Strip(row[j]) else ""
  }

  /** One row of the keyword sheet turned into a pair; `None` when both
      cells are empty (the row is skipped). Its properties are stated by
      `ResolveRowSlots` and `ResolveRowTranslations`. */
  function ResolveRow(row: seq<string>, toEnglish: string -> string, toHebrew: string -> string): (r: Option<KeywordPair>)
    ensures r.None? <==> Cell(row, 0) == "" && Cell(row, 1) == ""
  {
    var a, b := Cell(row, 0), Cell(row, 1);
    if a == "" && b == "" then None
    else
      var he1, en1 := if ContainsHebrew(a) then a else "", if !ContainsHebrew(a) && a != "" then a else "";
      var he2 := if ContainsHebrew(b) then b else he1;
      var en2 := if !ContainsHebrew(b) && b != "" then b else en1;
      if he2 != "" && en2 == "" then
        Some(KeywordPair(he2, toEnglish(he2)))
      else if en2 != "" && he2 == "" then
        var t := toHebrew(en2);
        Some(KeywordPair(if Lower(t) != Lower(en2) then t else en2, en2))
      else
        Some(KeywordPair(he2, en2))
  }

  /** Which cell lands in which slot: a Hebrew cell fills the Hebrew slot
      and any other non-empty cell the English one, column B winning over
      column A; at least one slot holds a non-empty term copied from the
      row. */
  lemma ResolveRowSlots(row: seq<string>, toEnglish: string -> string, toHebrew: string -> string)
    requires ResolveRow(row, toEnglish, toHebrew).Some?
    ensures
      var (a, b, p) := (Cell(row, 0), Cell(row, 1), ResolveRow(row, toEnglish, toHebrew).value);
      && (ContainsHebrew(b) ==> p.he == b)
      && (ContainsHebrew(a) && !ContainsHebrew(b) ==> p.he == a)
      && (b != "" && !ContainsHebrew(b) ==> p.en == b)
      && (a != "" && !ContainsHebrew(a) && (b == "" || ContainsHebrew(b)) ==> p.en == a)
      && ((p.he != "" && p.he in {a, b}) || (p.en != "" && p.en in {a, b}))
  {
  }

  /** The missing side comes from a translator: the English term of an
      all-Hebrew row is the English translation of its Hebrew term; the
      Hebrew term of a row without Hebrew is the Hebrew translation, unless
      that only differs from the English term in letter case, in which case
      it is the English term itself. */
  lemma ResolveRowTranslations(row: seq<string>, toEnglish: string -> string, toHebrew: string -> string)
    requires ResolveRow(row, toEnglish, toHebrew).Some?
    ensures !ContainsHebrew(Cell(row, 0)) && !ContainsHebrew(Cell(row, 1)) ==>
      var (en, t) := (ResolveRow(row, toEnglish, toHebrew).value.en, toHebrew(ResolveRow(row, toEnglish, toHebrew).value.en));
      ResolveRow(row, toEnglish, toHebrew).value.he == (if Lower(t) != Lower(en) then t else en)
    ensures (ContainsHebrew(Cell(row, 0)) || ContainsHebrew(Cell(row, 1)))
            && (Cell(row, 0) == "" || ContainsHebrew(Cell(row, 0)))
            && (Cell(row, 1) == "" || ContainsHebrew(Cell(row, 1))) ==>
      var p := ResolveRow(row, toEnglish, toHebrew).value;
      p.en == toEnglish(p.he)
  {
  }

  /** A `batch_update` entry: sheet row `row`, columns A:B, set to `pair`. */
  datatype KeywordUpdate = KeywordUpdate(row: nat, pair: KeywordPair)

  /** What one sheet row resolves to, beside its stripped cells. */
  datatype RowOutcome = RowOutcome(a: string, b: string, pair: Option<KeywordPair>)

  function Outcome(row: seq<string>, toEnglish: string -> string, toHebrew: string -> string): RowOutcome
  {
    RowOutcome(Cell(row, 0), Cell(row, 1), ResolveRow(row, toEnglish, toHebrew))
  }

  function Outcomes(rows: seq<seq<string>>, toEnglish: string -> string, toHebrew: string -> string)
    : (os: seq<RowOutcome>)
    ensures |os| == |rows|
    ensures forall k :: 0 <= k < |rows| ==> os[k] == Outcome(rows[k], toEnglish, toHebrew)
  {
    seq(|rows|, k requires 0 <= k < |rows| => Outcome(rows[k], toEnglish, toHebrew))
  }

  /** A row is written back when it resolves to a pair that differs from
      its cells. */
  predicate Changed(o: RowOutcome)
  {
    o.pair.Some? && (o.a, o.b) != (o.pair.value.he, o.pair.value.en)
  }

  /** The pairs of the non-blank rows, in sheet order (`PairsOfAppend`). */
  function PairsOf(os: seq<RowOutcome>): (ks: seq<KeywordPair>)
    ensures |ks| <= |os|
    ensures forall p :: p in ks <==> exists k :: 0 <= k < |os| && os[k].pair == Some(p)
    decreases |os|
  {
    if os == [] then []
    else
      var n := |os| - 1;
      var ks := PairsOf(os[..n]);
      assert forall k :: 0 <= k < n ==> os[k] == os[..n][k];
      match os[n].pair
      case None => ks
      case Some(p) => ks + [p]
  }

  /** The pairs of a sheet split in two are the pairs of the upper part,
      then those of the lower part: a pair never moves ahead of the pair of
      an earlier row, which is what first-match resolution relies on. */
  lemma {:induction false} PairsOfAppend(a: seq<RowOutcome>, b: seq<RowOutcome>)
    ensures PairsOf(a + b) == PairsOf(a) + PairsOf(b)
    decreases |b|
  {
    if b == [] {
      assert a + b == a;
    } else {
      var n := |b| - 1;
      assert (a + b)[..|a + b| - 1] == a + b[..n];
      PairsOfAppend(a, b[..n]);
    }
  }

  /** The write-backs, where `os[k]` is sheet row `k + 2` (the header is row
      1); `UpdatesOfFacts` says which. */
  function UpdatesOf(os: seq<RowOutcome>): (us: seq<KeywordUpdate>)
    ensures |us| <= |os|
    decreases |os|
  {
    if os == [] then []
    else
      var n := |os| - 1;
      var us := UpdatesOf(os[..n]);
      if Changed(os[n]) then
        us + [KeywordUpdate(n + 2, os[n].pair.value)]
      else us
  }

  /** Exactly one write-back, carrying the resolved pair, for every changed
      row, in row order. */
  lemma {:induction false} UpdatesOfFacts(os: seq<RowOutcome>)
    ensures forall u :: u in UpdatesOf(os) ==>
      2 <= u.row < |os| + 2 && Changed(os[u.row - 2]) && os[u.row - 2].pair == Some(u.pair)
    ensures forall k :: 0 <= k < |os| && Changed(os[k]) ==> KeywordUpdate(k + 2, os[k].pair.value) in UpdatesOf(os)
    ensures forall i, j :: 0 <= i < j < |UpdatesOf(os)| ==> UpdatesOf(os)[i].row < UpdatesOf(os)[j].row
    decreases |os|
  {
    if os != [] {
      var n := |os| - 1;
      UpdatesOfFacts(os[..n]);
      assert forall k :: 0 <= k < n ==> os[k] == os[..n][k];
    }
  }

  /** One more row adds its pair, if any, and its write-back, if changed. */
  lemma OutcomesStep(os: seq<RowOutcome>, i: nat)
    requires i < |os|
    ensures PairsOf(os[..i + 1]) == PairsOf(os[..i]) + (if os[i].pair.Some? then [os[i].pair.value] else [])
    ensures UpdatesOf(os[..i + 1])
         == UpdatesOf(os[..i]) + (if Changed(os[i]) then [KeywordUpdate(i + 2, os[i].pair.value)] else [])
  {
    assert os[..i + 1][..i] == os[..i];
  }

  /** The data rows of a sheet: everything after the header row. */
  function DataRows(values: seq<seq<string>>): seq<seq<string>>
  {
    if values == [] then [] else values[1..]
  }

  /** Every resolved keyword has a non-empty term copied from its row. */
  lemma ResolvedPairsComeFromCells(kVals: seq<seq<string>>, toEnglish: string -> string, toHebrew: string -> string,
                                   p: KeywordPair)
    requires p in PairsOf(Outcomes(DataRows(kVals), toEnglish, toHebrew))
    ensures exists row :: (row in DataRows(kVals) &&
      ((p.he != "" && p.he in {Cell(row, 0), Cell(row, 1)}) ||
       (p.en != "" && p.en in {Cell(row, 0), Cell(row, 1)})))
  {
    var rows := DataRows(kVals);
    var os := Outcomes(rows, toEnglish, toHebrew);
    var k :| 0 <= k < |os| && os[k].pair == Some(p);
    assert ResolveRow(rows[k], toEnglish, toHebrew) == Some(p);
    ResolveRowSlots(rows[k], toEnglish, toHebrew);
    assert rows[k] in rows;
  }

  /** Step 2 of the run: the loop over the keyword sheet that collects the
      pairs and the write-backs. */
  method ResolveKeywords(kVals: seq<seq<string>>, toEnglish: string -> string, toHebrew: string -> string)
    returns (keywords: seq<KeywordPair>, updates: seq<KeywordUpdate>)
    ensures keywords == PairsOf(Outcomes(DataRows(kVals), toEnglish, toHebrew))
    ensures updates == UpdatesOf(Outcomes(DataRows(kVals), toEnglish, toHebrew))
  {
    var rows := DataRows(kVals);
    ghost var os := Outcomes(rows, toEnglish, toHebrew);
    keywords, updates := [], [];
    var i := 0;
    while i < |rows|
      invariant 0 <= i <= |rows|
      invariant keywords == PairsOf(os[..i])
      invariant updates == UpdatesOf(os[..i])
    {
      var row := rows[i];
      var valA, valB := Cell(row, 0), Cell(row, 1);
      assert os[i] == Outcome(row, toEnglish, toHebrew);
      OutcomesStep(os, i);
      if valA != "" || valB != "" {
        var pair := ResolveRow(row, toEnglish, toHebrew).value;
        keywords := keywords + [pair];
        if valA != pair.he || valB != pair.en {
          updates := updates + [KeywordUpdate(i + 2, pair)];
        }
      }
      i := i + 1;
    }
    assert os[..i] == os;
  }
}
