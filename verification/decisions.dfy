/** Step 5 of the run: the per-keyword recommendation table. Existing
    decisions are read into an insertion-ordered map (a later row for the
    same keyword overwrites the value but keeps the first position), a
    keyword is re-analysed only when this run found articles for it or it
    has no decision yet, and its entry is replaced only when the analysis
    produced a non-empty object. */
module Decisions {
  import opened Text
  import opened History

  const DecisionHeader := [DateHeader, KeywordHeader, "המלצה", "הסבר", "כמות כתבות"]

  // ------------------------------------------------- model response

  const OpenFence := "```json"
  const CloseFence := "```"

  /** The reply text with surrounding whitespace, a leading "```json" and a
      trailing "```" removed, in that order. */
  function StripFence(text: string): (body: string)
    ensures |body| <= |Strip(text)|
  {
    var t := Strip(text);
    var t1 := if StartsWith(t, OpenFence) then t[7..] else t;
    if EndsWith(t1, CloseFence) then t1[..|t1| - 3] else t1
  }

  /** A string without surrounding whitespace is its own `strip()`. */
  lemma StripNoop(s: string)
    requires s != [] ==> !IsSpace(s[0]) && !IsSpace(s[|s| - 1])
    ensures Strip(s) == s
  {
    assert StripStart(s) == s;
    assert StripEnd(s) == s;
  }

  /** A fenced reply gives back exactly what was inside the fence. */
  lemma FenceRoundTrip(body: string)
    ensures StripFence(OpenFence + body + CloseFence) == body
  {
    var s := OpenFence + body + CloseFence;
    assert s[0] == OpenFence[0] == '`';
    assert s[|s| - 1] == CloseFence[2] == '`';
    StripNoop(s);
    Unwrap(OpenFence, body, CloseFence);
  }

  /** Dropping a known prefix, then a known suffix, gives back the middle. */
  lemma Unwrap(open: string, body: string, close: string)
    ensures StartsWith(open + body + close, open)
    ensures (open + body + close)[|open|..] == body + close
    ensures EndsWith(body + close, close)
    ensures (body + close)[..|body + close| - |close|] == body
  {
    assert open + body + close == open + (body + close);
  }

  /** An unfenced reply is only stripped. */
  lemma UnfencedReplyOnlyStripped(text: string)
    requires !StartsWith(Strip(text), OpenFence) && !EndsWith(Strip(text), CloseFence)
    ensures StripFence(text) == Strip(text)
  {
  }

  // ------------------------------------------------------ analysis

  /** What the prompt shows of an article. */
  datatype Headline = Headline(title: string, site: string, date: string)

  /** The model call: the keyword, the headlines shown (at most 50) and the
      total number of articles; `None` when the call raised. */
  type Model = (string, seq<Headline>, nat) -> Option<string>

  /** `json.loads` of the reply: `None` when it raised; otherwise the
      decoded object's string fields. */
  type JsonDecoder = string -> Option<map<string, string>>

  /** `analyze_market_sentiment`: `None` without an API key, when the call
      raises, or when the reply is not valid JSON. */
  function Analyze(hasKey: bool, kw: string, arts: seq<Headline>, model: Model, decode: JsonDecoder)
    : (r: Option<map<string, string>>)
    ensures !hasKey ==> r.None?
    ensures r.Some? ==> model(kw, arts[..Min(50, |arts|)], |arts|).Some?
  {
    if !hasKey then None
    else match model(kw, arts[..Min(50, |arts|)], |arts|)
      case None => None
      case Some(text) => decode(StripFence(text))
  }

  /** With a key, a reply fenced as "```json" … "```" is decoded from what
      is inside the fence. */
  lemma AnalyzeDecodesFencedReply(kw: string, arts: seq<Headline>, model: Model, decode: JsonDecoder, body: string)
    requires model(kw, arts[..Min(50, |arts|)], |arts|) == Some(OpenFence + body + CloseFence)
    ensures Analyze(true, kw, arts, model, decode) == decode(body)
  {
    FenceRoundTrip(body);
  }

  /** With a key, an unfenced reply is decoded once stripped of surrounding
      whitespace. */
  lemma AnalyzeDecodesUnfencedReply(kw: string, arts: seq<Headline>, model: Model, decode: JsonDecoder, text: string)
    requires model(kw, arts[..Min(50, |arts|)], |arts|) == Some(text)
    requires !StartsWith(Strip(text), OpenFence) && !EndsWith(Strip(text), CloseFence)
    ensures Analyze(true, kw, arts, model, decode) == decode(Strip(text))
  {
    UnfencedReplyOnlyStripped(text);
  }

  /** A sheet row read back, or a new analysis. */
  datatype Decision =
    | Stored(cells: seq<string>)
    | Analysed(time: string, keyword: string, recommendation: string, explanation: string, count: nat)

  /** `analysis.get(key, default)`. */
  function Get(d: map<string, string>, key: string, default: string): string
  {
    if key in d then d[key] else default
  }

  function Verdict(now: string, kw: string, d: map<string, string>, count: nat): Decision
  {
    Analysed(now, kw, Get(d, "recommendation", "N/A"), Get(d, "explanation", ""), count)
  }

  // ------------------------------------------- insertion-ordered map

  type DecisionMap = seq<(string, Decision)>

  function Lookup(m: DecisionMap, k: string): Option<Decision>
  {
    if m == [] then None else if m[0].0 == k then Some(m[0].1) else Lookup(m[1..], k)
  }

  predicate HasKey(m: DecisionMap, k: string)
  {
    exists i :: 0 <= i < |m| && m[i].0 == k
  }

  predicate DistinctKeys(m: DecisionMap)
  {
    forall i, j :: 0 <= i < j < |m| ==> m[i].0 != m[j].0
  }

  /** `d[k] = v`: an existing key keeps its position, a new key goes last. */
  function Upsert(m: DecisionMap, k: string, v: Decision): (r: DecisionMap)
    ensures |r| == if HasKey(m, k) then |m| else |m| + 1
    ensures forall i :: 0 <= i < |m| ==> r[i].0 == m[i].0
    ensures !HasKey(m, k) ==> r[|m|] == (k, v)
    decreases |m|
  {
    if m == [] then [(k, v)]
    else if m[0].0 == k then [(k, v)] + m[1..]
    else
      var r := Upsert(m[1..], k, v);
      assert HasKey(m, k) <==> HasKey(m[1..], k) by {
        if HasKey(m, k) {
          var i :| 0 <= i < |m| && m[i].0 == k;
          assert m[1..][i - 1].0 == k;
        }
        if HasKey(m[1..], k) {
          var i :| 0 <= i < |m[1..]| && m[1..][i].0 == k;
          assert m[i + 1].0 == k;
        }
      }
      [m[0]] + r
  }

  lemma LookupPresence(m: DecisionMap, k: string)
    ensures Lookup(m, k).Some? <==> HasKey(m, k)
  {
    if m != [] && m[0].0 != k {
      LookupPresence(m[1..], k);
      if HasKey(m, k) {
        var i :| 0 <= i < |m| && m[i].0 == k;
        assert m[1..][i - 1].0 == k;
      }
      if HasKey(m[1..], k) {
        var i :| 0 <= i < |m[1..]| && m[1..][i].0 == k;
        assert m[i + 1].0 == k;
      }
    } else if m != [] {
      assert m[0].0 == k;
    }
  }

  /** Dictionary semantics: the updated key maps to the new value and every
      other key keeps its value. */
  lemma {:induction false} UpsertLookup(m: DecisionMap, k: string, v: Decision)
    ensures Lookup(Upsert(m, k, v), k) == Some(v)
    ensures forall k2 :: k2 != k ==> Lookup(Upsert(m, k, v), k2) == Lookup(m, k2)
    decreases |m|
  {
    if m != [] && m[0].0 != k {
      UpsertLookup(m[1..], k, v);
      assert Upsert(m, k, v) == [m[0]] + Upsert(m[1..], k, v);
    }
  }

  /** The keys stay distinct. */
  lemma UpsertDistinct(m: DecisionMap, k: string, v: Decision)
    requires DistinctKeys(m)
    ensures DistinctKeys(Upsert(m, k, v))
  {
    var u := Upsert(m, k, v);
    forall i, j | 0 <= i < j < |u| ensures u[i].0 != u[j].0 {
      if j < |m| {
        assert u[i].0 == m[i].0 && u[j].0 == m[j].0;
      } else {
        assert !HasKey(m, k) && u[j] == (k, v) && u[i].0 == m[i].0;
      }
    }
  }

  // ------------------------------------------------ loading and update

  /** The map as the loading loop leaves it: every sheet row below the
      header with at least two cells, keyed by its second cell. */
  function LoadedMap(rows: seq<seq<string>>): DecisionMap
    decreases |rows|
  {
    if rows == [] then []
    else
      var n := |rows| - 1;
      var m := LoadedMap(rows[..n]);
      if |rows[n]| >= 2 then Upsert(m, rows[n][1], Stored(rows[n])) else m
  }

  /** Loading gives distinct keys. */
  lemma {:induction false} LoadedMapDistinct(rows: seq<seq<string>>)
    ensures DistinctKeys(LoadedMap(rows))
    decreases |rows|
  {
    if rows != [] {
      var n := |rows| - 1;
      LoadedMapDistinct(rows[..n]);
      if |rows[n]| >= 2 {
        UpsertDistinct(LoadedMap(rows[..n]), rows[n][1], Stored(rows[n]));
      }
    }
  }

  /** Each loaded key maps to the LAST row that names it. */
  lemma {:induction false} LoadedMapLastWins(rows: seq<seq<string>>)
    ensures forall k :: (0 <= k < |rows| && |rows[k]| >= 2 &&
              (forall j :: k < j < |rows| && |rows[j]| >= 2 ==> rows[j][1] != rows[k][1])) ==>
              Lookup(LoadedMap(rows), rows[k][1]) == Some(Stored(rows[k]))
    decreases |rows|
  {
    if rows != [] {
      var n := |rows| - 1;
      LoadedMapLastWins(rows[..n]);
      var m := LoadedMap(rows[..n]);
      assert forall k :: 0 <= k < n ==> rows[..n][k] == rows[k];
      if |rows[n]| >= 2 {
        UpsertLookup(m, rows[n][1], Stored(rows[n]));
      }
    }
  }

  /** `decision_map[r[1]] = r` for the rows below the header. */
  method LoadDecisions(existing: seq<seq<string>>) returns (m: DecisionMap)
    ensures m == (if |existing| > 1 then LoadedMap(existing[1..]) else [])
  {
    m := [];
    if |existing| > 1 {
      var rows := existing[1..];
      var i := 0;
      while i < |rows|
        invariant 0 <= i <= |rows|
        invariant m == LoadedMap(rows[..i])
      {
        assert rows[..i + 1][..i] == rows[..i];
        var r := rows[i];
        if |r| >= 2 {
          m := Upsert(m, r[1], Stored(r));
        }
        i := i + 1;
      }
      assert rows[..i] == rows;
    }
  }

  /** The oracles and flags the decision step depends on. */
  datatype Analyst = Analyst(hasKey: bool, model: Model, decode: JsonDecoder)

  /** One keyword group: re-analysed when it has new data or no decision;
      its entry replaced only when the analysis is a non-empty object. */
  function Step(m: DecisionMap, kw: string, arts: seq<Headline>, newData: set<string>, now: string, an: Analyst)
    : DecisionMap
  {
    if kw in newData || Lookup(m, kw).None? then
      match Analyze(an.hasKey, kw, arts, an.model, an.decode)
      case Some(d) => if |d| > 0 then Upsert(m, kw, Verdict(now, kw, d, |arts|)) else m
      case None => m
    else m
  }

  /** The map after all groups, in group order. */
  function Updated(m: DecisionMap, groups: seq<(string, seq<Headline>)>, newData: set<string>, now: string, an: Analyst)
    : DecisionMap
    decreases |groups|
  {
    if groups == [] then m
    else
      var n := |groups| - 1;
      Step(Updated(m, groups[..n], newData, now, an), groups[n].0, groups[n].1, newData, now, an)
  }

  /** A group of another keyword leaves a keyword's entry as it is. */
  lemma {:induction false} StepElsewhere(pre: DecisionMap, g: (string, seq<Headline>), newData: set<string>, now: string, an: Analyst,
                      kw: string)
    requires g.0 != kw
    ensures Lookup(Step(pre, g.0, g.1, newData, now, an), kw) == Lookup(pre, kw)
  {
    match Analyze(an.hasKey, g.0, g.1, an.model, an.decode)
    case Some(d) => UpsertLookup(pre, g.0, Verdict(now, g.0, d, |g.1|));
    case None =>
  }

  /** A re-analysed keyword whose analysis is a non-empty object gets its
      verdict. */
  lemma {:induction false} StepInstalls(pre: DecisionMap, kw: string, arts: seq<Headline>, newData: set<string>, now: string,
                     an: Analyst, d: map<string, string>)
    requires kw in newData || Lookup(pre, kw).None?
    requires Analyze(an.hasKey, kw, arts, an.model, an.decode) == Some(d) && |d| > 0
    ensures Lookup(Step(pre, kw, arts, newData, now, an), kw) == Some(Verdict(now, kw, d, |arts|))
  {
    UpsertLookup(pre, kw, Verdict(now, kw, d, |arts|));
  }

  /** A keyword without new data that already has a decision keeps it. */
  lemma {:induction false} StaleKeywordKeepsDecision(m: DecisionMap, groups: seq<(string, seq<Headline>)>,
                                                     newData: set<string>, now: string, an: Analyst, kw: string)
    requires kw !in newData && Lookup(m, kw).Some?
    ensures Lookup(Updated(m, groups, newData, now, an), kw) == Lookup(m, kw)
    decreases |groups|
  {
    if groups != [] {
      var n := |groups| - 1;
      StaleKeywordKeepsDecision(m, groups[..n], newData, now, an, kw);
      var pre := Updated(m, groups[..n], newData, now, an);
      if groups[n].0 != kw {
        StepElsewhere(pre, groups[n], newData, now, an, kw);
      }
    }
  }

  /** An entry only ever changes to the verdict of a successful analysis of
      one of its keyword's groups, dated `now` and counting that group. */
  lemma {:induction false} ChangedOnlyByAnalysis(m: DecisionMap, groups: seq<(string, seq<Headline>)>,
                                                 newData: set<string>, now: string, an: Analyst, kw: string)
    requires Lookup(Updated(m, groups, newData, now, an), kw) != Lookup(m, kw)
    ensures exists k, d :: (0 <= k < |groups| && groups[k].0 == kw &&
      Analyze(an.hasKey, kw, groups[k].1, an.model, an.decode) == Some(d) && |d| > 0 &&
      Lookup(Updated(m, groups, newData, now, an), kw) == Some(Verdict(now, kw, d, |groups[k].1|)))
    decreases |groups|
  {
    if groups == [] {
      assert false;
    } else {
      var n := |groups| - 1;
      var pre := Updated(m, groups[..n], newData, now, an);
      var g := groups[n];
      var post := Updated(m, groups, newData, now, an);
      assert post == Step(pre, g.0, g.1, newData, now, an);
      if g.0 != kw {
        StepElsewhere(pre, g, newData, now, an, kw);
      }
      if Lookup(post, kw) == Lookup(pre, kw) {
        ChangedOnlyByAnalysis(m, groups[..n], newData, now, an, kw);
        var k, d :| 0 <= k < n && groups[..n][k].0 == kw &&
          Analyze(an.hasKey, kw, groups[..n][k].1, an.model, an.decode) == Some(d) && |d| > 0 &&
          Lookup(pre, kw) == Some(Verdict(now, kw, d, |groups[..n][k].1|));
        TakeIndex(groups, n, k);
      } else {
        var d := Analyze(an.hasKey, kw, g.1, an.model, an.decode).value;
        StepInstalls(pre, kw, g.1, newData, now, an, d);
      }
    }
  }

  /** An index below `n` reads the same element in `s[..n]` as in `s`. */
  lemma TakeIndex<T>(s: seq<T>, n: nat, k: nat)
    requires k < n <= |s|
    ensures s[..n][k] == s[k]
  {
  }

  /** Running the groups of `a`, then those of `b`, is running `a + b`. */
  lemma {:induction false} UpdatedAppend(m: DecisionMap, a: seq<(string, seq<Headline>)>, b: seq<(string, seq<Headline>)>,
                                         newData: set<string>, now: string, an: Analyst)
    ensures Updated(m, a + b, newData, now, an) == Updated(Updated(m, a, newData, now, an), b, newData, now, an)
    decreases |b|
  {
    if b == [] {
      assert a + b == a;
    } else {
      var n := |b| - 1;
      assert (a + b)[..|a + b| - 1] == a + b[..n];
      UpdatedAppend(m, a, b[..n], newData, now, an);
    }
  }

  /** Cutting after index `i` and joining again gives the sequence back. */
  lemma SplitAfter<T>(s: seq<T>, i: nat)
    requires i < |s|
    ensures s[..i + 1] + s[i + 1..] == s
    ensures s[i + 1..|s|] == s[i + 1..]
  {
  }

  /** Groups of other keywords leave a keyword's entry as it is. */
  lemma {:induction false} OtherGroupsKeepEntry(m: DecisionMap, groups: seq<(string, seq<Headline>)>,
                                                newData: set<string>, now: string, an: Analyst, kw: string)
    requires forall k :: 0 <= k < |groups| ==> groups[k].0 != kw
    ensures Lookup(Updated(m, groups, newData, now, an), kw) == Lookup(m, kw)
    decreases |groups|
  {
    if groups != [] {
      var n := |groups| - 1;
      OtherGroupsKeepEntry(m, groups[..n], newData, now, an, kw);
      StepElsewhere(Updated(m, groups[..n], newData, now, an), groups[n], newData, now, an, kw);
    }
  }

  /** `OtherGroupsKeepEntry` for a slice of the groups. */
  lemma {:induction false} OtherGroupsKeepEntryIn(m: DecisionMap, groups: seq<(string, seq<Headline>)>, lo: nat, hi: nat,
                               newData: set<string>, now: string, an: Analyst, kw: string)
    requires lo <= hi <= |groups|
    requires forall k :: lo <= k < hi ==> groups[k].0 != kw
    ensures Lookup(Updated(m, groups[lo..hi], newData, now, an), kw) == Lookup(m, kw)
  {
    assert forall k :: 0 <= k < hi - lo ==> groups[lo..hi][k] == groups[lo + k];
    OtherGroupsKeepEntry(m, groups[lo..hi], newData, now, an, kw);
  }

  /** After the groups up to and including `i`, the keyword of group `i`
      holds its verdict. */
  lemma {:induction false} InstalledAfterGroup(m: DecisionMap, groups: seq<(string, seq<Headline>)>, newData: set<string>,
                            now: string, an: Analyst, i: nat, d: map<string, string>)
    requires i < |groups|
    requires forall k :: 0 <= k < i ==> groups[k].0 != groups[i].0
    requires groups[i].0 in newData || Lookup(m, groups[i].0).None?
    requires Analyze(an.hasKey, groups[i].0, groups[i].1, an.model, an.decode) == Some(d) && |d| > 0
    ensures Lookup(Updated(m, groups[..i + 1], newData, now, an), groups[i].0)
         == Some(Verdict(now, groups[i].0, d, |groups[i].1|))
  {
    var kw := groups[i].0;
    OtherGroupsKeepEntryIn(m, groups, 0, i, newData, now, an, kw);
    assert groups[0..i] == groups[..i];
    var pre := Updated(m, groups[..i], newData, now, an);
    assert groups[..i + 1][..i] == groups[..i];
    StepInstalls(pre, kw, groups[i].1, newData, now, an, d);
  }

  /** The converse of `ChangedOnlyByAnalysis`: a group whose keyword has
      new data or no decision yet, and whose analysis is a non-empty
      object, installs its verdict, and no other group touches it again. */
  lemma {:induction false} AnalysisInstallsVerdict(m: DecisionMap, groups: seq<(string, seq<Headline>)>, newData: set<string>,
                                now: string, an: Analyst, i: nat, d: map<string, string>)
    requires i < |groups|
    requires forall k :: 0 <= k < |groups| && k != i ==> groups[k].0 != groups[i].0
    requires groups[i].0 in newData || Lookup(m, groups[i].0).None?
    requires Analyze(an.hasKey, groups[i].0, groups[i].1, an.model, an.decode) == Some(d) && |d| > 0
    ensures Lookup(Updated(m, groups, newData, now, an), groups[i].0) == Some(Verdict(now, groups[i].0, d, |groups[i].1|))
  {
    var kw := groups[i].0;
    var upTo, after := groups[..i + 1], groups[i + 1..];
    InstalledAfterGroup(m, groups, newData, now, an, i, d);
    var mid := Updated(m, upTo, newData, now, an);
    SplitAfter(groups, i);
    UpdatedAppend(m, upTo, after, newData, now, an);
    assert Updated(m, groups, newData, now, an) == Updated(mid, after, newData, now, an);
    OtherGroupsKeepEntryIn(mid, groups, i + 1, |groups|, newData, now, an, kw);
    assert Lookup(Updated(mid, after, newData, now, an), kw) == Lookup(mid, kw);
  }

  /** The analysis loop over the keyword groups. */
  method UpdateDecisions(m0: DecisionMap, groups: seq<(string, seq<Headline>)>, newData: set<string>,
                         now: string, an: Analyst)
    returns (m: DecisionMap)
    ensures m == Updated(m0, groups, newData, now, an)
  {
    m := m0;
    var i := 0;
    while i < |groups|
      invariant 0 <= i <= |groups|
      invariant m == Updated(m0, groups[..i], newData, now, an)
    {
      assert groups[..i + 1][..i] == groups[..i];
      var (kw, arts) := groups[i];
      if kw in newData || Lookup(m, kw).None? {
        var analysis := Analyze(an.hasKey, kw, arts, an.model, an.decode);
        if analysis.Some? && |analysis.value| > 0 {
          m := Upsert(m, kw, Verdict(now, kw, analysis.value, |arts|));
        }
      }
      i := i + 1;
    }
    assert groups[..i] == groups;
  }
}
