/**
 * The URL tests of `FileRouter.handle` and the cache key computed by its
 * constructor: whether a URL is absolute, whether it leaves the current
 * origin, whether it only moves to a fragment of the current document.
 */
module Urls {
  import opened Paths

  /** A character of the regular-expression class `\w`: `[A-Za-z0-9_]`. */
  predicate IsWordChar(c: char)
  {
    ('a' <= c <= 'z') || ('A' <= c <= 'Z') || ('0' <= c <= '9') || c == '_'
  }

  predicate AllWordChars(s: string)
  {
    forall i :: 0 <= i < |s| ==> IsWordChar(s[i])
  }

  /** `url` matches `/^\w+:/`: one or more word characters, then a colon. */
  ghost predicate MatchesScheme(url: string)
  {
    exists k :: 0 < k < |url| && url[k] == ':' && AllWordChars(url[..k])
  }

  /** Length of the longest prefix of `s` made of word characters. */
  function WordRun(s: string): (n: nat)
    ensures n <= |s| && AllWordChars(s[..n])
    ensures n < |s| ==> !IsWordChar(s[n])
  {
    if |s| == 0 || !IsWordChar(s[0]) then 0
    else
      var n := WordRun(s[1..]);
      assert s[..n + 1] == [s[0]] + s[1..][..n];
      n + 1
  }

  /** Whether `url` is absolute, decided by scanning its leading word characters. */
  predicate IsAbsolute(url: string)
  {
    var n := WordRun(url);
    0 < n < |url| && url[n] == ':'
  }

  /** The scan decides exactly the language of `/^\w+:/`. */
  lemma AbsoluteIffScheme(url: string)
    ensures IsAbsolute(url) <==> MatchesScheme(url)
  {
  }

  /**
   * Rule 1 of `handle`: an absolute URL that does not start with the current
   * origin leaves the application.
   */
  predicate IsForeign(url: string, origin: string)
  {
    IsAbsolute(url) && !StartsWith(url, origin)
  }

  /** A URL without a scheme is never taken for a foreign one. */
  lemma RelativeNeverForeign(url: string, origin: string)
    requires !MatchesScheme(url)
    ensures !IsForeign(url, origin)
  {
  }

  /**
   * Rule 2 of `handle`: the target's pathname occurs in the current `href`
   * and the URL carries a `#` fragment.
   */
  predicate IsSameDocumentHash(url: string, pathname: string, href: string)
  {
    IndexOf(href, pathname) != -1 && SplitLength(url, '#') > 1
  }

  lemma SameDocumentHashMeans(url: string, pathname: string, href: string)
    ensures IsSameDocumentHash(url, pathname, href)
        <==> '#' in url && exists j :: OccursAt(href, pathname, j)
  {
  }

  /**
   * The cache key the constructor seeds with the current page's state:
   * `href.split('#')[0].replace(origin, '')`.
   */
  function SeedKey(href: string, origin: string): (key: string)
    ensures '#' !in key
    ensures |key| <= |href|
  {
    var page := BeforeFirst(href, '#');
    var i := IndexOf(page, origin);
    assert i != -1 ==> page == page[..i] + origin + page[i + |origin|..];
    ReplaceFirst(page, origin, "")
  }

  /**
   * For an `href` that starts with the origin, the seeded key is the rest of
   * the address up to the fragment: the path and query of the page.
   */
  lemma SeedKeyOfOwnHref(origin: string, rest: string, fragment: string)
    requires '#' !in origin && '#' !in rest
    ensures SeedKey(origin + rest, origin) == rest
    ensures SeedKey(origin + rest + "#" + fragment, origin) == rest
  {
    var href := origin + rest;
    var page := BeforeFirst(href, '#');
    assert '#' !in href;
    assert page == href;
    assert StartsWith(page, origin);
    ReplaceFirstAtStart(page, origin);
    var href2 := origin + rest + "#" + fragment;
    assert href2[|href|] == '#';
    assert href2[..|href|] == href;
    var page2 := BeforeFirst(href2, '#');
    assert page2 == href;
  }
}
