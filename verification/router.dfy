/**
 * `FileRouter`: the cache its constructor seeds and the navigation decision of
 * `handle`. The promise, the network, the parser and the state module are
 * replaced by values: the outcome `handle` resolves, the cache after the call,
 * the transitions it requests, the URLs it fetches and the insertions the
 * importer makes. The result of the fetch is an input.
 */
module Router {
  import opened Wrappers
  import opened Paths
  import opened Urls
  import Importer

  /** The state module's snapshot of active frames; only its length is inspected. */
  type Snapshot = seq<string>

  /** `this._cache`: snapshots by key, kept for the life of the router. */
  type Cache = map<string, Snapshot>

  /** The `urlData` argument of `handle`; the transition description is forwarded untouched. */
  datatype Request<T> = Request(url: string, pathname: string, transition: T)

  /** The value `handle`'s promise resolves with. */
  datatype Outcome = Outcome(handled: bool, stop: bool)

  /** One `state.transitionTo(snapshot, transition)`. */
  datatype TransitionRequest<T> = TransitionRequest(snapshot: Snapshot, transition: T)

  /**
   * A fetched and parsed page: the frame paths `state.exportStructure` lists, and
   * the snapshot `state.exportState` returns for it after the import.
   */
  datatype Document = Document(frames: seq<string>, exported: Snapshot)

  /** What `_loadHTML` delivers: a parsed page, or a rejected promise. */
  datatype Load = Loaded(doc: Document) | LoadFailed

  /**
   * The page the router runs in: `window.location.href`, `window.location.origin`,
   * the frame paths that have a live view, and the name of the placeholder frame.
   */
  datatype Page = Page(href: string, origin: string, live: set<string>, none: string)

  /** Everything one `handle` call does. */
  datatype Effects<T> = Effects(
    outcome: Outcome,
    cache: Cache,
    transitions: seq<TransitionRequest<T>>,
    fetches: seq<string>,
    insertions: seq<Importer.Insertion>)

  /** The four rules of `handle`, in the order they are tried. */
  datatype Route = Foreign | SameDocumentHash | CacheHit | Fetch

  /**
   * The constructor (lines 9-18): an empty cache, or, with `cacheCurrent`, the
   * current page's snapshot under the page's own address without origin and fragment.
   */
  function NewCache(cacheCurrent: bool, href: string, origin: string, current: Snapshot): (c: Cache)
    ensures c != map[] <==> cacheCurrent
    ensures |c.Keys| <= 1
    ensures forall k :: k in c ==> '#' !in k && c[k] == current
  {
    if cacheCurrent then map[SeedKey(href, origin) := current] else map[]
  }

  /** The first rule that applies to a request. */
  function Classify<T>(req: Request<T>, page: Page, cache: Cache): Route
  {
    if IsForeign(req.url, page.origin) then Foreign
    else if IsSameDocumentHash(req.url, req.pathname, page.href) then SameDocumentHash
    else if req.pathname in cache then CacheHit
    else Fetch
  }

  /** A navigation left to the browser: nothing happens. */
  function Declined<T>(cache: Cache): Effects<T>
  {
    Effects(Outcome(false, false), cache, [], [], [])
  }

  /**
   * `handle`, rule by rule. The cache is read under the request's pathname but
   * written under its full URL.
   */
  function Handle<T>(req: Request<T>, page: Page, cache: Cache, load: Load): (e: Effects<T>)
    ensures !e.outcome.stop
    // rule 1: a foreign absolute URL is refused and nothing happens
    ensures IsForeign(req.url, page.origin) ==> e == Declined(cache)
    // rule 2: a fragment of the current document is refused and nothing happens
    ensures !IsForeign(req.url, page.origin) && IsSameDocumentHash(req.url, req.pathname, page.href)
      ==> e == Declined(cache)
    // rule 3: a cached pathname transitions to its snapshot without a fetch
    ensures !IsForeign(req.url, page.origin) && !IsSameDocumentHash(req.url, req.pathname, page.href)
            && req.pathname in cache
      ==> e == Effects(Outcome(true, false), cache,
                       [TransitionRequest(cache[req.pathname], req.transition)], [], [])
    // rule 4: a fetch happens exactly when no earlier rule applies, and only of the URL
    ensures e.fetches != [] <==>
      !IsForeign(req.url, page.origin) && !IsSameDocumentHash(req.url, req.pathname, page.href)
      && req.pathname !in cache
    ensures e.fetches != [] ==> e.fetches == [req.url]
    // a failed fetch is declined and leaves the cache alone
    ensures e.fetches != [] && load.LoadFailed? ==> e == Effects(Outcome(false, false), cache, [], [req.url], [])
    // a fetched page is handled, stored under the URL, and transitioned to unless its snapshot is empty
    ensures e.fetches != [] && load.Loaded? ==>
      && e.outcome == Outcome(true, false)
      && e.cache == cache[req.url := load.doc.exported]
      && (e.transitions != [] <==> |load.doc.exported| > 0)
      && (e.transitions != [] ==> e.transitions == [TransitionRequest(load.doc.exported, req.transition)])
      && e.insertions == Importer.ImportRun(load.doc.frames, page.live, page.none).insertions
    // the importer only runs for a fetched page
    ensures e.insertions != [] ==> e.fetches != [] && load.Loaded?
  {
    match Classify(req, page, cache)
    case Foreign => Declined(cache)
    case SameDocumentHash => Declined(cache)
    case CacheHit =>
      Effects(Outcome(true, false), cache, [TransitionRequest(cache[req.pathname], req.transition)], [], [])
    case Fetch =>
      match load
      case LoadFailed => Effects(Outcome(false, false), cache, [], [req.url], [])
      case Loaded(doc) =>
        var imported := Importer.ImportRun(doc.frames, page.live, page.none);
        var transitions := if |doc.exported| > 0 then [TransitionRequest(doc.exported, req.transition)] else [];
        Effects(Outcome(true, false), cache[req.url := doc.exported], transitions, [req.url], imported.insertions)
  }

  /**
   * `handle` as the code runs it: independent `if` blocks guarded by the
   * `canHandle` flag, each of which may resolve the promise. Every call resolves
   * it exactly once, and the effects are those of the first rule that applies.
   */
  method HandleRequest<T>(req: Request<T>, page: Page, cache: Cache, load: Load)
    returns (resolved: seq<Outcome>, e: Effects<T>)
    ensures |resolved| == 1 && resolved[0] == e.outcome
    ensures e == Handle(req, page, cache, load)
  {
    resolved := [];
    var canHandle := true;
    var newCache := cache;
    var transitions: seq<TransitionRequest<T>> := [];
    var fetches: seq<string> := [];
    var insertions: seq<Importer.Insertion> := [];

    if IsAbsolute(req.url) {
      if !StartsWith(req.url, page.origin) {
        canHandle := false;
        resolved := resolved + [Outcome(false, false)];
      }
    }

    if canHandle && IndexOf(page.href, req.pathname) != -1 && SplitLength(req.url, '#') > 1 {
      canHandle := false;
      resolved := resolved + [Outcome(false, false)];
    }

    if canHandle && req.pathname in newCache {
      canHandle := false;
      transitions := transitions + [TransitionRequest(newCache[req.pathname], req.transition)];
      resolved := resolved + [Outcome(true, false)];
    }

    if canHandle {
      fetches := fetches + [req.url];
      match load {
        case Loaded(doc) =>
          var imported := Importer.ImportFrames(doc.frames, page.live, page.none);
          insertions := imported.insertions;
          newCache := newCache[req.url := doc.exported];
          if |doc.exported| > 0 {
            transitions := transitions + [TransitionRequest(doc.exported, req.transition)];
          }
          resolved := resolved + [Outcome(true, false)];
        case LoadFailed =>
          resolved := resolved + [Outcome(false, false)];
      }
    }

    e := Effects(resolved[0], newCache, transitions, fetches, insertions);
  }

  /**
   * With `cacheCurrent`, coming back to the page the router started on, by a
   * relative address without fragment, is answered from the seeded cache.
   */
  lemma InitialPageIsCacheHit<T>(page: Page, rest: string, fragment: string, current: Snapshot, t: T, load: Load)
    requires '#' !in page.origin && '#' !in rest
    requires page.href == page.origin + rest + "#" + fragment || page.href == page.origin + rest
    requires !MatchesScheme(rest)
    ensures var cache := NewCache(true, page.href, page.origin, current);
            Handle(Request(rest, rest, t), page, cache, load)
              == Effects(Outcome(true, false), cache, [TransitionRequest(current, t)], [], [])
  {
    SeedKeyOfOwnHref(page.origin, rest, fragment);
    RelativeNeverForeign(rest, page.origin);
  }

  /**
   * The cache is read under the pathname but written under the URL: after a
   * fetched navigation, repeating it fetches again exactly when the URL differs
   * from the pathname (a query string, say).
   */
  lemma RepeatRefetchesUnlessUrlIsPathname<T>(req: Request<T>, page: Page, cache: Cache, doc: Document, load: Load)
    requires !IsForeign(req.url, page.origin)
    requires !IsSameDocumentHash(req.url, req.pathname, page.href)
    requires req.pathname !in cache
    ensures var after := Handle(req, page, cache, Loaded(doc)).cache;
            Handle(req, page, after, load).fetches != [] <==> req.url != req.pathname
  {
  }

  /**
   * A fetched page that declares a live frame `a` and its new child `a.b`: the
   * child is attached, hidden, below `a`, the page's snapshot is stored under the
   * URL and transitioned to, and the navigation is handled.
   */
  lemma FetchAttachesNewFrame<T>(req: Request<T>, page: Page, cache: Cache, a: string, b: string, snapshot: Snapshot)
    requires !MatchesScheme(req.url) && '#' !in req.url && req.pathname !in cache
    requires page.live == {a} && |a| > 0 && '.' !in a && '.' !in b && Importer.BracketGuard(a)
    requires !EndsWith(a + "." + b, "." + page.none)
    requires |snapshot| > 0
    ensures Handle(req, page, cache, Loaded(Document([a, a + "." + b], snapshot)))
         == Effects(Outcome(true, false), cache[req.url := snapshot],
                    [TransitionRequest(snapshot, req.transition)], [req.url],
                    [Importer.Insertion(a, a + "." + b, true)])
  {
    RelativeNeverForeign(req.url, page.origin);
    Importer.ImportsNewChildOfLiveFrame(a, b, page.none);
  }

  /**
   * One navigation of a session: the page it starts from (its address and live
   * frames change from one navigation to the next), the request, and what
   * fetching its URL would give.
   */
  datatype Navigation<T> = Navigation(page: Page, request: Request<T>, load: Load)

  /**
   * The cache after a sequence of navigations. Entries are never removed, and
   * every new or changed entry sits under the URL of one of the navigations.
   */
  function CacheAfter<T>(navs: seq<Navigation<T>>, cache: Cache): (c: Cache)
    ensures cache.Keys <= c.Keys
    ensures forall k :: k in c && (k !in cache || c[k] != cache[k]) ==>
      exists i :: 0 <= i < |navs| && navs[i].request.url == k
  {
    if |navs| == 0 then cache
    else
      var init := navs[..|navs| - 1];
      var last := navs[|navs| - 1];
      var before := CacheAfter(init, cache);
      var after := Handle(last.request, last.page, before, last.load).cache;
      assert forall k :: k in after && (k !in cache || after[k] != cache[k]) ==>
          exists i :: 0 <= i < |navs| && navs[i].request.url == k by {
        forall k | k in after && (k !in cache || after[k] != cache[k])
          ensures exists i :: 0 <= i < |navs| && navs[i].request.url == k
        {
          if k == last.request.url {
            assert navs[|navs| - 1].request.url == k;
          } else {
            assert k in before && (k !in cache || before[k] != cache[k]);
            var i :| 0 <= i < |init| && init[i].request.url == k;
            assert navs[i] == init[i];
          }
        }
      }
      after
  }

  /**
   * A pathname that is in the cache is never fetched again by any later
   * navigation of the session, and is answered from the cache unless rule 1 or 2
   * declines the navigation first.
   */
  lemma {:induction false} CachedPathNeverRefetched<T>(navs: seq<Navigation<T>>, cache: Cache, i: nat)
    requires i < |navs| && navs[i].request.pathname in cache
    ensures var n := navs[i];
            var e := Handle(n.request, n.page, CacheAfter(navs[..i], cache), n.load);
            && e.fetches == []
            && (e.outcome.handled <==>
                  !IsForeign(n.request.url, n.page.origin)
                  && !IsSameDocumentHash(n.request.url, n.request.pathname, n.page.href))
  {
  }
}
