/** Step 6 of the run: the results sheet rebuilt keyword by keyword (at
    most 20 rows each, then two blank rows), the keywords flagged as
    having fresh articles, and the notification text. */
module Report {
  import opened Text
  import opened Scrape
  import opened History
  import opened Merge

  /** The distinct keywords of the table in order of first appearance
      (`groupby('Keyword', sort=False)`). */
  function KeywordOrder(rows: seq<Ranked>): (kws: seq<string>)
    ensures forall i, j :: 0 <= i < j < |kws| ==> kws[i] != kws[j]
    ensures forall kw :: kw in kws <==> exists i :: 0 <= i < |rows| && rows[i].row.keyword == kw
    decreases |rows|
  {
    if rows == [] then []
    else
      var n := |rows| - 1;
      var kws := KeywordOrder(rows[..n]);
      assert forall i :: 0 <= i < n ==> rows[..n][i] == rows[i];
      if rows[n].row.keyword in kws then kws else kws + [rows[n].row.keyword]
  }

  /** A sorted table lists its keywords in ascending order, so the sorted
      `groupby('Keyword')` used for the decisions visits the groups in the
      same order as the unsorted one used for the log. */
  lemma {:induction false} SortedKeywordOrderAscends(rows: seq<Ranked>)
    requires Sorted(rows)
    ensures forall i, j :: 0 <= i < j < |KeywordOrder(rows)| ==> StrLt(KeywordOrder(rows)[i], KeywordOrder(rows)[j])
    decreases |rows|
  {
    if rows != [] {
      var n := |rows| - 1;
      var pre := rows[..n];
      assert forall i :: 0 <= i < n ==> pre[i] == rows[i];
      assert Sorted(pre);
      SortedKeywordOrderAscends(pre);
      var kws := KeywordOrder(pre);
      if rows[n].row.keyword !in kws {
        forall i | 0 <= i < |kws| ensures StrLt(kws[i], rows[n].row.keyword) {
          assert kws[i] in kws;
          var k :| 0 <= k < n && pre[k].row.keyword == kws[i];
          SortedMeaning(rows, k, n);
        }
      }
    }
  }

  /** The rows of one keyword, in table order: each row of the keyword as
      often as the table holds it, and no other row. */
  function Group(rows: seq<Ranked>, kw: string): (g: seq<Ranked>)
    ensures |g| <= |rows|
    ensures forall r :: r in g <==> r in rows && r.row.keyword == kw
    ensures forall r :: multiset(g)[r] == if r.row.keyword == kw then multiset(rows)[r] else 0
    decreases |rows|
  {
    if rows == [] then []
    else
      var n := |rows| - 1;
      var g := Group(rows[..n], kw);
      assert rows == rows[..n] + [rows[n]];
      if rows[n].row.keyword == kw then g + [rows[n]] else g
  }

  /** The group keeps the table's order. */
  lemma {:induction false} GroupInOrder(rows: seq<Ranked>, kw: string)
    ensures IsSubsequence(Group(rows, kw), rows)
    decreases |rows|
  {
    if rows == [] {
      assert PicksAt(Group(rows, kw), rows, []);
    } else {
      var n := |rows| - 1;
      var pre, last := rows[..n], rows[n];
      GroupInOrder(pre, kw);
      var g := Group(pre, kw);
      SubsequenceExtend(g, pre, last, last.row.keyword == kw);
      assert pre + [last] == rows;
      assert Group(rows, kw) == g + (if last.row.keyword == kw then [last] else []);
    }
  }

  /** `group.head(20)`: the first 20 rows of the group, all of a shorter one. */
  function Window(rows: seq<Ranked>, kw: string): (w: seq<Ranked>)
    ensures w <= Group(rows, kw)
    ensures |w| == Min(20, |Group(rows, kw)|)
    ensures forall r :: r in w ==> r in rows && r.row.keyword == kw
  {
    Cap(Group(rows, kw), 20)
  }

  /** A keyword is flagged when its window holds a row of tier below 4. */
  predicate HasFresh(w: seq<Ranked>)
  {
    exists i :: 0 <= i < |w| && w[i].tier < 4
  }

  lemma HasFreshMembers(w: seq<Ranked>)
    ensures HasFresh(w) <==> exists x :: x in w && x.tier < 4
  {
    if HasFresh(w) {
      var i :| 0 <= i < |w| && w[i].tier < 4;
      assert w[i] in w;
    }
  }

  /** The five cells written for a row. */
  function Cells(r: Ranked): seq<string>
  {
    [r.row.date, r.row.keyword, r.row.link, r.row.site, r.row.title]
  }

  const Blank: seq<string> := ["", "", "", "", ""]

  /** What one keyword contributes: its window, then two blank rows. */
  function Block(w: seq<Ranked>): (b: seq<seq<string>>)
    ensures |b| == |w| + 2
    ensures forall k :: 0 <= k < |w| ==> b[k] == Cells(w[k])
    ensures b[|w|] == Blank && b[|w| + 1] == Blank
  {
    seq(|w|, k requires 0 <= k < |w| => Cells(w[k])) + [Blank, Blank]
  }

  /** The log below its header: one block per keyword in `kws`. */
  function LogBody(kws: seq<string>, rows: seq<Ranked>): seq<seq<string>>
    decreases |kws|
  {
    if kws == [] then []
    else
      var n := |kws| - 1;
      LogBody(kws[..n], rows) + Block(Window(rows, kws[n]))
  }

  /** Every line of the log body is blank or the cells of a table row. */
  lemma {:induction false} LogLinesComeFromTable(kws: seq<string>, rows: seq<Ranked>)
    ensures forall line :: line in LogBody(kws, rows) ==> line == Blank || exists r :: r in rows && line == Cells(r)
    decreases |kws|
  {
    if kws != [] {
      var n := |kws| - 1;
      LogLinesComeFromTable(kws[..n], rows);
      var w := Window(rows, kws[n]);
      forall line | line in Block(w) ensures line == Blank || exists r :: r in rows && line == Cells(r) {
        var k :| 0 <= k < |Block(w)| && Block(w)[k] == line;
        if k < |w| {
          assert w[k] in w;
        }
      }
    }
  }

  /** Each keyword contributes at most 20 rows plus its two blank rows. */
  lemma {:induction false} LogBodyLength(kws: seq<string>, rows: seq<Ranked>)
    ensures |LogBody(kws, rows)| <= 22 * |kws|
    ensures |LogBody(kws, rows)| >= 2 * |kws|
    decreases |kws|
  {
    if kws != [] {
      LogBodyLength(kws[..|kws| - 1], rows);
    }
  }

  /** `truly_new_keywords` as the loop leaves it. */
  function Flagged(kws: seq<string>, rows: seq<Ranked>): set<string>
    decreases |kws|
  {
    if kws == [] then {}
    else
      var n := |kws| - 1;
      Flagged(kws[..n], rows) + (if HasFresh(Window(rows, kws[n])) then {kws[n]} else {})
  }

  /** The flagged keywords are exactly those whose window has a row of
      tier below 4. */
  lemma {:induction false} FlaggedMeaning(kws: seq<string>, rows: seq<Ranked>)
    ensures forall kw :: kw in Flagged(kws, rows) <==> kw in kws && HasFresh(Window(rows, kw))
    decreases |kws|
  {
    if kws != [] {
      var n := |kws| - 1;
      FlaggedMeaning(kws[..n], rows);
      assert kws == kws[..n] + [kws[n]];
    }
  }

  /** One keyword's rows of the log, and whether any of them is fresh. */
  method EmitBlock(top: seq<Ranked>) returns (block: seq<seq<string>>, anyFresh: bool)
    ensures block == Block(top)
    ensures anyFresh == HasFresh(top)
  {
    block := [];
    anyFresh := false;
    var j := 0;
    while j < |top|
      invariant 0 <= j <= |top|
      invariant block == seq(j, k requires 0 <= k < j => Cells(top[k]))
      invariant anyFresh <==> exists k :: 0 <= k < j && top[k].tier < 4
    {
      block := block + [Cells(top[j])];
      anyFresh := anyFresh || top[j].tier < 4;
      j := j + 1;
    }
    block := block + [Blank, Blank];
  }

  /** The final log loop over the keyword groups `kws`: the header, then
      each keyword's block, collecting the keywords whose window has a row of
      tier below 4. */
  method BuildLog(kws: seq<string>, rows: seq<Ranked>) returns (lines: seq<seq<string>>, flagged: set<string>)
    ensures lines == [LogHeader] + LogBody(kws, rows)
    ensures flagged == Flagged(kws, rows)
  {
    var body: seq<seq<string>> := [];
    flagged := {};
    var i := 0;
    while i < |kws|
      invariant 0 <= i <= |kws|
      invariant body == LogBody(kws[..i], rows)
      invariant flagged == Flagged(kws[..i], rows)
    {
      assert kws[..i + 1][..i] == kws[..i];
      var block, anyFresh := EmitBlock(Window(rows, kws[i]));
      body := body + block;
      if anyFresh {
        flagged := flagged + {kws[i]};
      }
      i := i + 1;
    }
    assert kws[..i] == kws;
    lines := [LogHeader] + body;
  }

  // -------------------------------------------------- notification

  const NotifyPrefix := "חדש: "

  /** `message` is the prefix followed by the keywords of `flagged`, each
      listed once, in some order, joined by ", ". */
  ghost predicate Announces(message: string, flagged: set<string>)
  {
    exists listed: seq<string> ::
      && (forall i, j :: 0 <= i < j < |listed| ==> listed[i] != listed[j])
      && (forall kw :: kw in listed <==> kw in flagged)
      && message == NotifyPrefix + Join(listed, ", ")
  }

  /** `", ".join(list(truly_new_keywords))`: the set is listed in some
      order, each keyword once; nothing is sent for an empty set. */
  method Notification(flagged: set<string>) returns (message: Option<string>, listed: seq<string>)
    ensures message.None? <==> flagged == {}
    ensures forall i, j :: 0 <= i < j < |listed| ==> listed[i] != listed[j]
    ensures forall kw :: kw in listed <==> kw in flagged
    ensures message.Some? ==> message.value == NotifyPrefix + Join(listed, ", ")
    ensures message.Some? ==> Announces(message.value, flagged)
  {
    listed := [];
    var rest := flagged;
    while rest != {}
      invariant rest <= flagged
      invariant forall kw :: kw in listed <==> kw in flagged && kw !in rest
      invariant forall i, j :: 0 <= i < j < |listed| ==> listed[i] != listed[j]
      decreases rest
    {
      var kw :| kw in rest;
      listed := listed + [kw];
      rest := rest - {kw};
    }
    if flagged == {} {
      message := None;
    } else {
      message := Some(NotifyPrefix + Join(listed, ", "));
    }
  }
}
