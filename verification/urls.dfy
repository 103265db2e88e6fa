/** URL canonicalisation and the title/site helpers of the news script:
    `normalize_url`, `extract_site_name` and `clean_title_google_news`. */
module Urls {
  import opened Text

  /** The parts `urllib.parse.urlparse` splits a URL into; `path` is the
      path as urlparse reports it (without `;params`). */
  datatype ParsedUrl = ParsedUrl(scheme: string, netloc: string, path: string, query: string, fragment: string)

  /** `urlparse` as an oracle: `None` when it raises (a malformed netloc). */
  type UrlParser = string -> Option<ParsedUrl>

  /** The separator Google News puts between a headline and its publisher. */
  const Separator := " - "

  // ------------------------------------------------------ normalize_url

  /** Lower-case, then delete every "www.", then every "https://", then
      every "http://", wherever they occur (three `str.replace` calls). */
  function Scrub(s: string): (r: string)
    ensures NoUpper(r)
    ensures |r| <= |s|
  {
    var a := RemoveAll(Lower(s), "www.");
    RemoveAllKeepsNoUpper(Lower(s), "www.");
    var b := RemoveAll(a, "https://");
    RemoveAllKeepsNoUpper(a, "https://");
    RemoveAllKeepsNoUpper(b, "http://");
    RemoveAll(b, "http://")
  }

  /** Strips at most one trailing '/'. */
  function DropTrailingSlash(s: string): (r: string)
    ensures s == r || s == r + "/"
    ensures EndsWith(s, "/") <==> s == r + "/"
  {
    if EndsWith(s, "/") then s[..|s| - 1] else s
  }

  /** The canonical key computed from `netloc + path`. */
  function CleanKey(hostPath: string): (key: string)
    ensures NoUpper(key)
    ensures |key| <= |hostPath|
  {
    DropTrailingSlash(Scrub(hostPath))
  }

  /** `normalize_url`: "" for the empty URL, the URL itself when urlparse
      raises, otherwise the cleaned `netloc + path`. */
  function NormalizeUrl(parse: UrlParser, url: string): (key: string)
    ensures url == "" ==> key == ""
    ensures url != "" && parse(url).None? ==> key == url
    ensures url != "" && parse(url).Some? ==>
      NoUpper(key) && |key| <= |parse(url).value.netloc| + |parse(url).value.path|
  {
    if url == "" then ""
    else match parse(url)
      case None => url
      case Some(p) => CleanKey(p.netloc + p.path)
  }

  /** Scheme, query and fragment never reach the key: two parsable URLs with
      the same netloc and path have the same key. */
  lemma NormalizeIgnoresSchemeQueryFragment(parse: UrlParser, u1: string, u2: string)
    requires u1 != "" && u2 != "" && parse(u1).Some? && parse(u2).Some?
    requires parse(u1).value.netloc == parse(u2).value.netloc
    requires parse(u1).value.path == parse(u2).value.path
    ensures NormalizeUrl(parse, u1) == NormalizeUrl(parse, u2)
  {
  }

  /** Only one trailing slash is removed: a cleaned string ending in "//"
      yields a key that still ends in "/". */
  lemma OnlyOneTrailingSlashStripped(hostPath: string)
    requires EndsWith(Scrub(hostPath), "//")
    ensures EndsWith(CleanKey(hostPath), "/")
  {
    var s := Scrub(hostPath);
    var k := CleanKey(hostPath);
    assert s == k + "/";
    assert s[|s| - 2] == '/';
    assert k[|k| - 1] == s[|s| - 2];
  }

  /** The key is not a fixed point of the cleaning: cleaning "a//" twice
      strips two slashes. */
  lemma CleanKeyNotIdempotent()
    ensures CleanKey("a//") == "a/"
    ensures CleanKey(CleanKey("a//")) == "a"
  {
    assert Lower("a//") == "a//";
    assert Lower("a/") == "a/";
  }

  /** None of the three deleted substrings occurs in `s`. */
  predicate Unscrubbable(s: string)
  {
    !Contains(s, "www.") && !Contains(s, "https://") && !Contains(s, "http://")
  }

  /** The spellings a key is meant to absorb: whatever the letter case, an
      optional leading "www." and an optional trailing "/" around a core that
      holds none of the deleted substrings and does not end in "/" all give
      that core as the key. */
  lemma SpellingsShareKey(hostPath: string, core: string, www: bool, slash: bool)
    requires Unscrubbable(core + (if slash then "/" else ""))
    requires !EndsWith(core, "/")
    requires Lower(hostPath) == (if www then "www." else "") + core + (if slash then "/" else "")
    ensures CleanKey(hostPath) == core
  {
    var t := core + (if slash then "/" else "");
    ScrubOf(hostPath, t, www);
    DropSlashOf(core, slash);
  }

  /** An optional "/" after a core that does not end in "/" is all that
      the slash rule removes. */
  lemma DropSlashOf(core: string, slash: bool)
    requires !EndsWith(core, "/")
    ensures DropTrailingSlash(core + (if slash then "/" else "")) == core
  {
    var t := core + (if slash then "/" else "");
    if slash {
      assert EndsWith(t, "/") && t[..|t| - 1] == core;
    }
  }

  /** Scrubbing a lower-cased host/path that is `t`, optionally behind a
      "www.", gives `t` when `t` holds none of the deleted substrings. */
  lemma ScrubOf(hostPath: string, t: string, www: bool)
    requires Unscrubbable(t)
    requires Lower(hostPath) == (if www then "www." else "") + t
    ensures Scrub(hostPath) == t
  {
    if www {
      RemoveAllPrefix("www.", t);
    } else {
      assert Lower(hostPath) == t;
      RemoveAllAbsent(t, "www.");
    }
    RemoveAllAbsent(t, "https://");
    RemoveAllAbsent(t, "http://");
  }

  /** The deletions are not anchored: a "https://" in the middle of a
      lower-case host/path whose other parts hold none of the deleted
      substrings is cut out, e.g. `a.com/https://b` scrubs to `a.com/b`. */
  lemma ScrubDeletesInnerScheme(x: string, y: string)
    requires NoUpper(x) && NoUpper(y)
    requires Unscrubbable(x + y)
    ensures Scrub(x + "https://" + y) == x + y
  {
    WwwStageKeeps(x, y);
    SchemeStageCuts(x, y);
    RemoveAllAbsent(x + y, "http://");
  }

  /** Lower-casing and deleting "www." leave `x + "https://" + y` as it is. */
  lemma WwwStageKeeps(x: string, y: string)
    requires NoUpper(x) && NoUpper(y)
    requires Unscrubbable(x + y)
    ensures RemoveAll(Lower(x + "https://" + y), "www.") == x + "https://" + y
  {
    var p := "https://";
    var s := x + p + y;
    forall i | 0 <= i < |s| ensures !IsUpper(s[i]) {
      if i < |x| { assert s[i] == x[i]; }
      else if i < |x| + |p| { assert s[i] == p[i - |x|]; }
      else { assert s[i] == y[i - |x| - |p|]; }
    }
    LowerOfNoUpper(s);
    NoWwwAroundScheme(x, y);
    RemoveAllAbsent(s, "www.");
  }

  /** Deleting "https://" from `x + "https://" + y` leaves `x + y`. */
  lemma SchemeStageCuts(x: string, y: string)
    requires Unscrubbable(x + y)
    ensures RemoveAll(x + "https://" + y, "https://") == x + y
  {
    var p := "https://";
    forall i | 0 <= i < |x| ensures !OccursAt(x + p, p, i) {
      SchemeStartsOnce(x, y, i);
    }
    RemoveAllAfterFree(x, p, y);
    SliceKeepsAbsence(x + y, |x|, |x + y|, p);
    assert (x + y)[|x|..|x + y|] == y;
    RemoveAllAbsent(y, p);
  }

  /** No "https://" starts inside `x` in `x + "https://"`: one inside `x`
      would be an occurrence in `x + y`, and one reaching past `x` would put
      the leading 'h' of the second copy on a later letter of the first. */
  lemma SchemeStartsOnce(x: string, y: string, i: int)
    requires Unscrubbable(x + y)
    requires 0 <= i < |x|
    ensures !OccursAt(x + "https://", "https://", i)
  {
    var p := "https://";
    if i + |p| <= |x| {
      ContainsIff(x + y, p);
      assert !OccursAt(x + y, p, i);
      assert (x + p)[i..i + |p|] == (x + y)[i..i + |p|];
    } else {
      var d := |x| - i;
      assert (x + p)[i..i + |p|][d] == (x + p)[|x|] == 'h';
      assert p[d] != 'h';
    }
  }

  /** "www." shares no letter with "https://", so it cannot occur across
      the seams of `x + "https://" + y` when it occurs in neither part. */
  lemma NoWwwAroundScheme(x: string, y: string)
    requires Unscrubbable(x + y)
    ensures !Contains(x + "https://" + y, "www.")
  {
    var s := x + "https://" + y;
    ContainsIff(x + y, "www.");
    forall i | 0 <= i && i + 4 <= |s| ensures !OccursAt(s, "www.", i) {
      if i + 4 <= |x| {
        WwwNotInLeft(x, y, i);
      } else if |x| + 8 <= i {
        WwwNotInRight(x, y, i);
      } else {
        WwwNotAtSeam(x, y, i);
      }
    }
    ContainsIff(s, "www.");
  }

  lemma WwwNotInLeft(x: string, y: string, i: int)
    requires 0 <= i && i + 4 <= |x| && !OccursAt(x + y, "www.", i)
    ensures !OccursAt(x + "https://" + y, "www.", i)
  {
    assert (x + y)[i..i + 4] == x[i..i + 4];
    assert (x + "https://" + y)[i..i + 4] == x[i..i + 4];
  }

  lemma WwwNotInRight(x: string, y: string, i: int)
    requires |x| + 8 <= i && i + 4 <= |x| + 8 + |y| && !OccursAt(x + y, "www.", i - 8)
    ensures !OccursAt(x + "https://" + y, "www.", i)
  {
    var j := i - 8 - |x|;
    assert (x + y)[i - 8..i - 4] == y[j..j + 4];
    assert (x + "https://" + y)[i..i + 4] == y[j..j + 4];
  }

  lemma WwwNotAtSeam(x: string, y: string, i: int)
    requires 0 <= i && |x| < i + 4 && i < |x| + 8 && i + 4 <= |x| + 8 + |y|
    ensures !OccursAt(x + "https://" + y, "www.", i)
  {
    var s := x + "https://" + y;
    var k := if i < |x| then |x| else i;
    SchemeLetterNotWww(k - |x|, k - i);
    assert s[k] == "https://"[k - |x|];
    MismatchNotAt(s, "www.", i, k);
  }

  /** No letter of "https://" is a letter of "www.". */
  lemma SchemeLetterNotWww(m: int, n: int)
    requires 0 <= m < 8 && 0 <= n < 4
    ensures "https://"[m] != "www."[n]
  {
  }

  /** Hence two URLs whose netloc and path spell the same core (e.g.
      `https://WWW.Example.com/Path/` and `http://example.com/Path`, core
      `example.com/path`) get the same key, that core. */
  lemma EquivalentUrlsShareKey(parse: UrlParser, u1: string, u2: string, core: string,
                                www1: bool, slash1: bool, www2: bool, slash2: bool)
    requires u1 != "" && u2 != "" && parse(u1).Some? && parse(u2).Some?
    requires Unscrubbable(core + (if slash1 then "/" else ""))
    requires Unscrubbable(core + (if slash2 then "/" else ""))
    requires !EndsWith(core, "/")
    requires Lower(parse(u1).value.netloc + parse(u1).value.path)
               == (if www1 then "www." else "") + core + (if slash1 then "/" else "")
    requires Lower(parse(u2).value.netloc + parse(u2).value.path)
               == (if www2 then "www." else "") + core + (if slash2 then "/" else "")
    ensures NormalizeUrl(parse, u1) == NormalizeUrl(parse, u2) == core
  {
    SpellingsShareKey(parse(u1).value.netloc + parse(u1).value.path, core, www1, slash1);
    SpellingsShareKey(parse(u2).value.netloc + parse(u2).value.path, core, www2, slash2);
  }

  // ------------------------------------------- extract_site_name & co.

  /** The site label taken from the URL itself: the netloc without a leading
      "www.", or "Unknown Source" when urlparse raises. */
  function SiteFromUrl(parse: UrlParser, url: string): (site: string)
    ensures parse(url).None? ==> site == "Unknown Source"
    ensures parse(url).Some? ==>
      var host := parse(url).value.netloc;
      if StartsWith(host, "www.") then host == "www." + site else site == host
  {
    match parse(url)
    case None => "Unknown Source"
    case Some(p) => if StartsWith(p.netloc, "www.") then p.netloc[4..] else p.netloc
  }

  /** `extract_site_name`: for a Google News entry whose title holds the
      separator, the publisher after the last " - "; otherwise the URL's host. */
  function ExtractSiteName(parse: UrlParser, url: string, title: string, isGoogleNews: bool): (site: string)
  {
    if isGoogleNews && title != "" && SplitLast(title, Separator).Some? then
      Strip(SplitLast(title, Separator).value.1)
    else
      SiteFromUrl(parse, url)
  }

  /** `clean_title_google_news`: the headline before the last " - ",
      stripped; the title unchanged when there is no separator. */
  function CleanTitleGoogleNews(title: string): (clean: string)
  {
    match SplitLast(title, Separator)
    case None => title
    case Some((before, _)) => Strip(before)
  }

  /** Without a separator in a Google News title, the site is the URL's
      host and the title stays as it is. */
  lemma NoSeparatorFallbacks(parse: UrlParser, url: string, title: string, isGoogleNews: bool)
    ensures !(isGoogleNews && Contains(title, Separator)) ==>
      ExtractSiteName(parse, url, title, isGoogleNews) == SiteFromUrl(parse, url)
    ensures !Contains(title, Separator) ==> CleanTitleGoogleNews(title) == title
  {
    SplitLastFacts(title, Separator);
  }

  /** Both helpers cut a Google News title at the same, last, separator:
      the site is the stripped text after it, the clean title the stripped
      text before it, neither the text after it nor the site holds a
      further separator, and the clean title is shorter than the title. */
  lemma GoogleNewsSplit(parse: UrlParser, url: string, title: string)
    requires Contains(title, Separator)
    ensures SplitLast(title, Separator).Some?
    ensures
      var (before, after) := SplitLast(title, Separator).value;
      && title == before + Separator + after
      && !Contains(after, Separator)
      && ExtractSiteName(parse, url, title, true) == Strip(after)
      && !Contains(ExtractSiteName(parse, url, title, true), Separator)
      && CleanTitleGoogleNews(title) == Strip(before)
    ensures |CleanTitleGoogleNews(title)| < |title|
  {
    SplitLastFacts(title, Separator);
    assert title != "";
    var (before, after) := SplitLast(title, Separator).value;
    StripKeepsAbsence(after, Separator);
  }
}
