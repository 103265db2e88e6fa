/** The Python string operations the news pipeline relies on: lower-casing,
    substring search (`p in s`), removal of every occurrence of a pattern
    (`s.replace(p, "")`), `strip()`, the last occurrence of a separator
    (`rsplit(sep, 1)`), `startswith`/`endswith`, `", ".join` and the
    code-point ordering Python uses to compare strings. */
module Text {

  datatype Option<T> = None | Some(value: T)

  datatype Result<T, E> = Ok(value: T) | Err(error: E)

  function Min(a: int, b: int): int { if a < b then a else b }

  // ------------------------------------------------------- filtering

  /** `xs` is `ys` read at the strictly increasing positions `idx`. */
  ghost predicate PicksAt<T>(xs: seq<T>, ys: seq<T>, idx: seq<int>)
  {
    && |idx| == |xs|
    && (forall i :: 0 <= i < |idx| ==> 0 <= idx[i] < |ys| && ys[idx[i]] == xs[i])
    && (forall i, j :: 0 <= i < j < |idx| ==> idx[i] < idx[j])
  }

  /** `xs` keeps some elements of `ys`, in their order in `ys`. */
  ghost predicate IsSubsequence<T>(xs: seq<T>, ys: seq<T>)
  {
    exists idx :: PicksAt(xs, ys, idx)
  }

  /** A filter step: one more element of the input, kept or not. */
  lemma SubsequenceExtend<T>(xs: seq<T>, ys: seq<T>, y: T, keep: bool)
    requires IsSubsequence(xs, ys)
    ensures IsSubsequence(xs + (if keep then [y] else []), ys + [y])
  {
    var idx :| PicksAt(xs, ys, idx);
    if keep {
      assert PicksAt(xs + [y], ys + [y], idx + [|ys|]);
    } else {
      assert PicksAt(xs, ys + [y], idx);
      assert xs + [] == xs;
    }
  }

  /** The values of the `Some` entries, in order (`[x for x in hs if x]`). */
  function Somes<T>(hs: seq<Option<T>>): (xs: seq<T>)
    ensures |xs| <= |hs|
    decreases |hs|
  {
    if hs == [] then []
    else
      var n := |hs| - 1;
      Somes(hs[..n]) + (match hs[n] case None => [] case Some(x) => [x])
  }

  /** `Somes` keeps exactly the present values, each where it stood. */
  lemma {:induction false} SomesMembers<T>(hs: seq<Option<T>>)
    ensures forall x :: x in Somes(hs) <==> Some(x) in hs
    decreases |hs|
  {
    if hs != [] {
      var n := |hs| - 1;
      SomesMembers(hs[..n]);
      assert hs == hs[..n] + [hs[n]];
    }
  }

  /** `Somes` of a concatenation is the concatenation of the parts, so the
      values come out in the order of their entries. */
  lemma {:induction false} SomesAppend<T>(a: seq<Option<T>>, b: seq<Option<T>>)
    ensures Somes(a + b) == Somes(a) + Somes(b)
    decreases |b|
  {
    if b != [] {
      var n := |b| - 1;
      assert (a + b)[..|a + b| - 1] == a + b[..n];
      SomesAppend(a, b[..n]);
    } else {
      assert a + b == a;
    }
  }

  // ---------------------------------------------------------------- case

  predicate IsUpper(c: char) { 'A' <= c <= 'Z' }

  /** `str.lower()` restricted to ASCII letters; Hebrew letters have no case. */
  function LowerChar(c: char): char
  {
    if IsUpper(c) then (c as int + 32) as char else c
  }

  predicate NoUpper(s: string) { forall i :: 0 <= i < |s| ==> !IsUpper(s[i]) }

  function Lower(s: string): (r: string)
    ensures |r| == |s|
    ensures forall i :: 0 <= i < |s| ==> r[i] == LowerChar(s[i])
    ensures NoUpper(r)
  {
    seq(|s|, i requires 0 <= i < |s| => LowerChar(s[i]))
  }

  /** Lower-casing a text without upper-case letters changes nothing. */
  lemma LowerOfNoUpper(s: string)
    requires NoUpper(s)
    ensures Lower(s) == s
  {
  }

  // ------------------------------------------------------- searching

  predicate OccursAt(s: string, p: string, i: int)
  {
    0 <= i && i + |p| <= |s| && s[i..i + |p|] == p
  }

  /** A mismatching character rules an occurrence out. */
  lemma MismatchNotAt(s: string, p: string, i: int, k: int)
    requires 0 <= i <= k < i + |p| && k < |s|
    requires s[k] != p[k - i]
    ensures !OccursAt(s, p, i)
  {
    if i + |p| <= |s| {
      assert s[i..i + |p|][k - i] == s[k];
    }
  }

  /** Python's `p in s`. */
  predicate Contains(s: string, p: string)
    decreases |s|
  {
    p <= s || (s != [] && Contains(s[1..], p))
  }

  lemma TailOccurrence(s: string, p: string, i: int)
    requires 0 < i && OccursAt(s, p, i)
    ensures OccursAt(s[1..], p, i - 1)
  {
    assert s[1..][i - 1..i - 1 + |p|] == s[i..i + |p|];
  }
  lemma {:induction false} ContainsIff(s: string, p: string)
    ensures Contains(s, p) <==> exists i :: OccursAt(s, p, i)
    decreases |s|
  {
    if p <= s {
      assert OccursAt(s, p, 0);
    } else if s == [] {
    } else {
      ContainsIff(s[1..], p);
      SliceOccurrences(s, 1, |s|, p);
      if Contains(s[1..], p) {
        var i :| OccursAt(s[1..], p, i);
        assert OccursAt(s, p, 1 + i);
      } else {
        forall i | OccursAt(s, p, i) ensures OccursAt(s[1..], p, i - 1) {
          TailOccurrence(s, p, i);
        }
      }
    }
  }

  /** Every occurrence inside a slice is an occurrence in the whole string. */
  lemma SliceOccurrences(s: string, i: int, j: int, p: string)
    requires 0 <= i <= j <= |s|
    ensures forall k :: OccursAt(s[i..j], p, k) ==> OccursAt(s, p, i + k)
  {
    forall k | OccursAt(s[i..j], p, k) ensures OccursAt(s, p, i + k) {
      var t := s[i..j];
      forall m | 0 <= m < |p| ensures s[i + k + m] == p[m] {
        assert t[k..k + |p|][m] == p[m];
        assert t[k + m] == s[i + k + m];
      }
      assert s[i + k..i + k + |p|] == p;
    }
  }

  predicate StartsWith(s: string, p: string) { p <= s }

  predicate EndsWith(s: string, p: string)
  {
    |p| <= |s| && s[|s| - |p|..] == p
  }

  /** The start of the last occurrence of `p` in `s`, as `str.rfind` finds it. */
  function LastOccurrence(s: string, p: string): (r: Option<nat>)
    ensures r.Some? ==> OccursAt(s, p, r.value)
    ensures r.Some? ==> forall j :: r.value < j ==> !OccursAt(s, p, j)
    ensures r.None? ==> forall j :: !OccursAt(s, p, j)
    decreases |s|
  {
    if |s| < |p| then None
    else if OccursAt(s, p, |s| - |p|) then Some(|s| - |p|)
    else
      DropLastKeepsOccurrences(s, p);
      LastOccurrence(s[..|s| - 1], p)
  }

  /** Dropping the last character keeps exactly the occurrences that end
      before it. */
  lemma DropLastKeepsOccurrences(s: string, p: string)
    requires s != []
    ensures forall j :: OccursAt(s, p, j) && j + |p| < |s| ==> OccursAt(s[..|s| - 1], p, j)
    ensures forall j :: OccursAt(s[..|s| - 1], p, j) ==> OccursAt(s, p, j)
  {
    var t := s[..|s| - 1];
    forall j | OccursAt(s, p, j) && j + |p| < |s| ensures OccursAt(t, p, j) {
      assert t[j..j + |p|] == s[j..j + |p|];
    }
    forall j | OccursAt(t, p, j) ensures OccursAt(s, p, j) {
      assert t[j..j + |p|] == s[j..j + |p|];
    }
  }

  /** `s.rsplit(sep, 1)` when it yields two parts: the text before and after
      the last separator. */
  function SplitLast(s: string, sep: string): (r: Option<(string, string)>)
    requires sep != []
  {
    match LastOccurrence(s, sep)
    case None => None
    case Some(i) => Some((s[..i], s[i + |sep|..]))
  }

  /** There are two parts exactly when `sep` occurs; they rejoin around
      `sep` to `s`, and the second is free of `sep`. That the cut is at the
      LAST occurrence, also when occurrences overlap, is the contract of
      `LastOccurrence`. */
  lemma SplitLastFacts(s: string, sep: string)
    requires sep != []
    ensures SplitLast(s, sep).None? <==> !Contains(s, sep)
    ensures SplitLast(s, sep).Some? ==>
      var (before, after) := SplitLast(s, sep).value;
      before + sep + after == s && !Contains(after, sep)
  {
    ContainsIff(s, sep);
    match LastOccurrence(s, sep)
    case None =>
    case Some(i) => SplitAround(s, sep, i);
  }

  /** Cutting at the last occurrence of `sep`: the pieces rejoin to `s` and
      the second is free of `sep`. */
  lemma SplitAround(s: string, sep: string, i: nat)
    requires sep != []
    requires OccursAt(s, sep, i)
    requires forall j :: i < j ==> !OccursAt(s, sep, j)
    ensures s[..i] + sep + s[i + |sep|..] == s
    ensures !Contains(s[i + |sep|..], sep)
  {
    Rejoin(s, sep, i);
    TailFree(s, sep, i + |sep|);
  }

  lemma Rejoin(s: string, sep: string, i: nat)
    requires OccursAt(s, sep, i)
    ensures s[..i] + sep + s[i + |sep|..] == s
  {
    var rest := s[i + |sep|..];
    assert s[i..] == sep + rest by {
      assert s[i..] == s[i..i + |sep|] + rest;
    }
    assert s == s[..i] + s[i..];
  }

  /** No occurrence starts at or after `a`, so the suffix from `a` is free of `p`. */
  lemma TailFree(s: string, p: string, a: nat)
    requires a <= |s|
    requires forall j :: a <= j ==> !OccursAt(s, p, j)
    ensures !Contains(s[a..], p)
  {
    var rest := s[a..];
    SliceOccurrences(s, a, |s|, p);
    assert s[a..|s|] == rest;
    ContainsIff(rest, p);
  }

  // ------------------------------------------------------- rewriting

  /** `s.replace(p, "")`: scans left to right and drops every
      non-overlapping occurrence of `p`. */
  function RemoveAll(s: string, p: string): (r: string)
    requires p != []
    ensures |r| <= |s|
    ensures forall i :: 0 <= i < |r| ==> r[i] in s
    decreases |s|
  {
    if |s| < |p| then s
    else if p <= s then
      var r := RemoveAll(s[|p|..], p);
      assert forall c :: c in s[|p|..] ==> c in s;
      r
    else
      var r := RemoveAll(s[1..], p);
      assert forall c :: c in s[1..] ==> c in s;
      [s[0]] + r
  }

  lemma RemoveAllKeepsNoUpper(s: string, p: string)
    requires p != [] && NoUpper(s)
    ensures NoUpper(RemoveAll(s, p))
  {
    var r := RemoveAll(s, p);
    forall i | 0 <= i < |r| ensures !IsUpper(r[i]) {
      var k :| 0 <= k < |s| && s[k] == r[i];
    }
  }

  /** Removing a pattern that does not occur changes nothing. */
  lemma {:induction false} RemoveAllAbsent(s: string, p: string)
    requires p != [] && !Contains(s, p)
    ensures RemoveAll(s, p) == s
    decreases |s|
  {
    if |s| >= |p| && !(p <= s) {
      RemoveAllAbsent(s[1..], p);
    }
  }

  /** When the first occurrence of `p` in `x + p` is the one after `x`,
      the removal keeps `x`, drops that occurrence and goes on with `y`. */
  lemma {:induction false} RemoveAllAfterFree(x: string, p: string, y: string)
    requires p != []
    requires forall i :: 0 <= i < |x| ==> !OccursAt(x + p, p, i)
    ensures RemoveAll(x + p + y, p) == x + RemoveAll(y, p)
    decreases |x|
  {
    var s := x + p + y;
    if x == [] {
      assert s == p + y && p <= s && s[|p|..] == y;
    } else {
      assert !(p <= s) by {
        assert !OccursAt(x + p, p, 0);
        assert (x + p)[0..|p|] == s[..|p|];
      }
      assert s[1..] == x[1..] + p + y;
      SliceOccurrences(x + p, 1, |x + p|, p);
      assert (x + p)[1..|x + p|] == x[1..] + p;
      RemoveAllAfterFree(x[1..], p, y);
      RemoveAllKeepsHead(s, p);
      assert s[0] == x[0];
      ConsAppend(x, RemoveAll(y, p));
    }
  }

  lemma ConsAppend(x: string, r: string)
    requires x != []
    ensures [x[0]] + (x[1..] + r) == x + r
  {
    assert x == [x[0]] + x[1..];
  }

  /** A first character that starts no occurrence is kept. */
  lemma RemoveAllKeepsHead(s: string, p: string)
    requires p != [] && |p| <= |s| && !(p <= s)
    ensures RemoveAll(s, p) == [s[0]] + RemoveAll(s[1..], p)
  {
  }

  /** A leading occurrence is removed, and nothing else when the rest is
      free of the pattern. */
  lemma RemoveAllPrefix(p: string, t: string)
    requires p != [] && !Contains(t, p)
    ensures RemoveAll(p + t, p) == t
  {
    var s := p + t;
    assert p <= s && s[|p|..] == t;
    RemoveAllAbsent(t, p);
  }

  /** Python's `str.isspace()` characters, which `strip()` removes. */
  predicate IsSpace(c: char)
  {
    || c == ' '
    || '\t' <= c <= '\r'
    || '\U{1C}' <= c <= '\U{1F}'
    || c == '\U{85}' || c == '\U{A0}' || c == '\U{1680}'
    || '\U{2000}' <= c <= '\U{200A}'
    || c == '\U{2028}' || c == '\U{2029}' || c == '\U{202F}'
    || c == '\U{205F}' || c == '\U{3000}'
  }

  function StripStart(s: string): (r: string)
    ensures |r| <= |s| && r == s[|s| - |r|..]
    ensures r != [] ==> !IsSpace(r[0])
    decreases |s|
  {
    if s != [] && IsSpace(s[0]) then StripStart(s[1..]) else s
  }

  function StripEnd(s: string): (r: string)
    ensures |r| <= |s| && r == s[..|r|]
    ensures r != [] ==> !IsSpace(r[|r| - 1])
    decreases |s|
  {
    if s != [] && IsSpace(s[|s| - 1]) then StripEnd(s[..|s| - 1]) else s
  }

  /** `str.strip()`: no surrounding whitespace is left. */
  function Strip(s: string): (r: string)
    ensures r != [] ==> !IsSpace(r[0]) && !IsSpace(r[|r| - 1])
  {
    StripEnd(StripStart(s))
  }

  /** `StripStart` drops only whitespace. */
  lemma {:induction false} StripStartOnlySpaces(s: string)
    ensures forall k :: 0 <= k < |s| - |StripStart(s)| ==> IsSpace(s[k])
    decreases |s|
  {
    if s != [] && IsSpace(s[0]) {
      StripStartOnlySpaces(s[1..]);
      assert forall k :: 1 <= k < |s| ==> s[k] == s[1..][k - 1];
    }
  }

  /** `StripEnd` drops only whitespace. */
  lemma {:induction false} StripEndOnlySpaces(s: string)
    ensures forall k :: |StripEnd(s)| <= k < |s| ==> IsSpace(s[k])
    decreases |s|
  {
    if s != [] && IsSpace(s[|s| - 1]) {
      StripEndOnlySpaces(s[..|s| - 1]);
      assert forall k :: 0 <= k < |s| - 1 ==> s[k] == s[..|s| - 1][k];
    }
  }

  /** `str.strip()` removes whitespace at the two ends and nothing else: the
      result is a slice of the input with only whitespace around it. */
  lemma StripRemovesOnlySurroundingSpace(s: string)
    ensures exists i, j ::
              && 0 <= i <= j <= |s| && Strip(s) == s[i..j]
              && (forall k :: 0 <= k < i ==> IsSpace(s[k]))
              && (forall k :: j <= k < |s| ==> IsSpace(s[k]))
  {
    var t := StripStart(s);
    var i := |s| - |t|;
    var j := i + |Strip(s)|;
    StripStartOnlySpaces(s);
    StripEndOnlySpaces(t);
    assert t == s[i..];
    assert Strip(s) == s[i..j];
    assert forall k :: j <= k < |s| ==> s[k] == t[k - i];
  }

  /** A slice of a string free of `p` is itself free of `p`. */
  lemma SliceKeepsAbsence(s: string, i: int, j: int, p: string)
    requires 0 <= i <= j <= |s| && !Contains(s, p)
    ensures !Contains(s[i..j], p)
  {
    SliceOccurrences(s, i, j, p);
    ContainsIff(s, p);
    ContainsIff(s[i..j], p);
  }

  lemma StripKeepsAbsence(s: string, p: string)
    requires !Contains(s, p)
    ensures !Contains(Strip(s), p)
  {
    var a := StripStart(s);
    SliceKeepsAbsence(s, |s| - |a|, |s|, p);
    assert s[|s| - |a|..|s|] == a;
    var b := StripEnd(a);
    SliceKeepsAbsence(a, 0, |b|, p);
    assert a[0..|b|] == b;
  }

  /** `sep.join(xs)`. */
  function Join(xs: seq<string>, sep: string): string
  {
    if xs == [] then "" else if |xs| == 1 then xs[0] else xs[0] + sep + Join(xs[1..], sep)
  }

  // ------------------------------------------------------- ordering

  /** Python's `a < b` on strings: lexicographic by code point, a proper
      prefix coming first. */
  predicate StrLt(a: string, b: string)
    decreases |a|
  {
    if a == [] then b != []
    else if b == [] then false
    else a[0] < b[0] || (a[0] == b[0] && StrLt(a[1..], b[1..]))
  }

  predicate StrLe(a: string, b: string) { a == b || StrLt(a, b) }

  lemma {:induction false} StrLtIrreflexive(a: string)
    ensures !StrLt(a, a)
    decreases |a|
  {
    if a != [] { StrLtIrreflexive(a[1..]); }
  }

  lemma {:induction false} StrLtTransitive(a: string, b: string, c: string)
    requires StrLt(a, b) && StrLt(b, c)
    ensures StrLt(a, c)
    decreases |a|
  {
    if a != [] && b != [] && c != [] && a[0] == b[0] == c[0] {
      StrLtTransitive(a[1..], b[1..], c[1..]);
    }
  }

  lemma {:induction false} StrLtTotal(a: string, b: string)
    requires a != b
    ensures StrLt(a, b) || StrLt(b, a)
    decreases |a|
  {
    if a != [] && b != [] && a[0] == b[0] {
      assert a == [a[0]] + a[1..] && b == [b[0]] + b[1..];
      StrLtTotal(a[1..], b[1..]);
    }
  }

  lemma {:induction false} StrLtAsymmetric(a: string, b: string)
    requires StrLt(a, b)
    ensures !StrLt(b, a)
    decreases |a|
  {
    if a != [] && b != [] && a[0] == b[0] {
      StrLtAsymmetric(a[1..], b[1..]);
    }
  }
}
