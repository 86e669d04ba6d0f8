# FileRouter navigation model

A Dafny model of the navigation decision of layerJS's `FileRouter`
(`src/framework/router/filerouter.js`). The router intercepts an in-app
navigation request and decides whether to leave it to the browser or handle it
without a page reload. If it handles it, it either replays a cached snapshot of
the active frames or fetches the target page. For a fetched page it attaches the
frames the live document lacks below their nearest live ancestor, invisible,
then caches the page's snapshot and requests a transition to it.

The model is made of pure functions, plus two methods that mirror the code's
imperative shape:

- `Paths` holds the JavaScript string operations the router uses, with their
  JavaScript meaning: `indexOf`, `split(c).length`, `split(c)[0]`, `replace`
  with a string pattern, `endsWith`, a literal prefix test standing in for
  `match(new RegExp('^' + origin))`, and the regular expression
  `/\.[^\.]*$/`. It also holds the dot-separated frame hierarchy built on them
  (ancestor, direct child, dot count).
- `Urls` holds the rule predicates of `handle`:
  - whether a URL matches `/^\w+:/` (proved equal to a scan of its leading word characters);
  - whether a URL leaves the origin;
  - whether it only moves to a fragment of the current document;
  - the key the constructor seeds the cache with.
- `Importer` holds the frame-import loop. It exists in two versions:
  - As written: `Walk`, `Step`, `ImportRun`, and the loop method `ImportFrames`, which is proved equal to `ImportRun`.
  - With the evident intent: `StepIntended`, `ImportRunIntended`. See Findings below.
- `Router` holds the constructor's cache and `Handle`, the first-match rule table of `handle`.
  - `HandleRequest` follows the code's sequence of `if (canHandle …)` blocks.
  - It is proved to resolve the promise exactly once, with the effects `Handle` states.
  - Lemmas cover sessions of several navigations and the cache's read/write key asymmetry.

The environment is passed in as values:

- `window.location` becomes `Page`.
- The set of frame paths that have a live view is `Page.live`.
- The placeholder frame name is `Page.none`.
- What `_loadHTML` delivers is `Load`: either a parsed `Document`, carrying its frame paths and the snapshot exported after the import, or a failure.
- The snapshot of the current page used for seeding is the `current` argument of `NewCache`.

Every call's effects are returned as `Effects`. That value holds:

- the outcome the promise resolves with;
- the cache after the call;
- the requested transitions;
- the fetched URLs;
- the log of insertions. Each insertion records the path of the live view whose container receives the copy, the copied frame's path, and the opacity-0 flag.

Points where the code behaves other than a quick reading suggests; the model follows the code:

- The walk does not start afresh for every frame. `parentView` and `pathToImport` are declared without an initialiser inside the loop, so they keep the previous frame's values. The guard at line 84 indexes `hasOwnProperty` instead of calling it. `ImportRun` models both as written.
- In the stale case the copy goes into the remembered parent's container. The key marked for re-parsing, however, is the current frame's path, because line 74 resets `parentPath`. `Step` and `StaleParentIsReused` state this.
- A cached pathname is not always handled: rules 1 and 2 are tried first. So a same-document fragment URL whose pathname is cached is still declined (`CachedPathNeverRefetched`).
- The walk checks `alreadyImported` on the path it is about to leave, starting with the frame itself. It does not check the ancestor it arrives at.

## Model

| member | source | states |
|---|---|---|
| Paths.IndexOf | src/framework/router/filerouter.js:40 | the result is the first index at which the pattern occurs, or -1 exactly when it occurs nowhere |
| Paths.SplitLength | src/framework/router/filerouter.js:39-40 | `url.split('#')` has more than one piece exactly when the URL contains `#` |
| Paths.BeforeFirst | src/framework/router/filerouter.js:15 | `split('#')[0]` is the longest prefix without `#`, cut at the first `#` |
| Paths.ReplaceFirstAtStart | src/framework/router/filerouter.js:15 | replacing the origin in an address that starts with it removes exactly that prefix |
| Paths.StripLastSegment | src/framework/router/filerouter.js:79 | removing the last `.segment` yields the parent path, of which the input is a direct child, with one dot fewer; a path without a dot is unchanged |
| Paths.AncestorOfParent | src/framework/router/filerouter.js:77-80 | every ancestor of a path is its parent or an ancestor of its parent, so the walk passes through every ancestor |
| Urls.AbsoluteIffScheme | src/framework/router/filerouter.js:29 | the word-character scan accepts exactly the URLs matching `/^\w+:/` |
| Urls.RelativeNeverForeign | src/framework/router/filerouter.js:29-37 | a URL without a scheme is never refused by the foreign-origin rule |
| Urls.SameDocumentHashMeans | src/framework/router/filerouter.js:39-40 | rule 2 applies exactly when the URL has a `#` and the pathname occurs somewhere in `href` |
| Urls.SeedKey | src/framework/router/filerouter.js:15 | the seeded cache key never contains a `#` and is no longer than the address |
| Urls.SeedKeyOfOwnHref | src/framework/router/filerouter.js:15 | for an address made of the origin, a path and an optional fragment, the seeded key is the path |
| Router.NewCache | src/framework/router/filerouter.js:9-18 | the cache is empty unless `cacheCurrent`; then it holds one entry, the current snapshot under a key without `#` |
| Router.InitialPageIsCacheHit | src/framework/router/filerouter.js:14-16 | navigating back to the starting page by its relative path is a cache hit on the seeded snapshot, with no fetch |
| Router.Handle | src/framework/router/filerouter.js:24-120 | first match wins. A foreign URL or a same-document fragment is declined with nothing done. A cached pathname requests one transition to its snapshot, with no fetch and the cache unchanged. Otherwise the URL alone is fetched. A failure is declined with the cache unchanged. A success is handled, stores the snapshot under the URL, and requests a transition exactly when the snapshot is non-empty. `stop` is always false |
| Router.HandleRequest | src/framework/router/filerouter.js:24-120 | the `canHandle`-guarded blocks resolve the promise exactly once, and their effects are those of the first rule that applies |
| Router.RepeatRefetchesUnlessUrlIsPathname | src/framework/router/filerouter.js:49-95 | because the cache is read under the pathname and written under the URL, repeating a fetched navigation fetches again exactly when the URL differs from the pathname |
| Router.FetchAttachesNewFrame | src/framework/router/filerouter.js:59-110 | a relative URL without `#` whose pathname is not cached is fetched. If the page declares a live frame `a` and its new child `a.b`, then `a.b` is attached hidden below `a`, the non-empty snapshot is cached under the URL and transitioned to, and the navigation is handled |
| Router.CacheAfter | src/framework/router/filerouter.js:49-95 | over a session whose navigations each start from their own page (address and live frames), cache entries are never removed, and every new or changed entry is keyed by some navigation's URL |
| Router.CachedPathNeverRefetched | src/framework/router/filerouter.js:27-60 | a pathname present in the cache is never fetched by a later navigation, whatever page each navigation starts from; that navigation is handled unless rule 1 or 2, judged against its own page, declines it first |
| Importer.BracketGuardHoldsOnDottedPaths | src/framework/router/filerouter.js:84 | the bracket-indexed guard can only refuse a parent whose path has no dot |
| Importer.Walk | src/framework/router/filerouter.js:77-82 | the walk ends where its condition fails, never leaves a path that was imported in this pass, and only climbs when no parent view is known. It ends on an ancestor with no more dots than the start. After a step, the parent view is that ancestor's live view, and the path to import is its direct child on the way down to the start. Every path passed on the way was neither imported nor live |
| Importer.WalkFindsNearestLiveAncestor | src/framework/router/filerouter.js:77-82 | starting without a parent view, the walk finds parent `a` exactly when `a` is a live ancestor reachable through paths neither imported nor live, and the frame does not start with a dot |
| Importer.Step | src/framework/router/filerouter.js:67-91 | a skipped frame (live, or ending in `.` plus the placeholder name) changes nothing, and the log grows by at most one insertion, which adds exactly its child to the imported keys. With no parent view carried over, a frame that is not skipped is attached exactly when it has a reachable live parent `a` that passes the line-84 guard; the entry puts a child of `a` on the way down to the frame, hidden, into `a`'s container, and `a` is marked for re-parsing. With a parent view carried over, the frame is attached exactly when its own path passes the guard; the entry is the remembered path in the remembered container, and the frame's path is marked for re-parsing. Without an insertion no key changes. A remembered parent view and path to import are kept unchanged; after a fresh walk the parent view left behind is exactly the reachable live parent, even when the guard refused it, and the path to import left behind is that parent's child on the way down to the frame. After an insertion, the remembered path to import is the inserted child. The consistency invariant is preserved |
| Importer.ImportRun | src/framework/router/filerouter.js:66-92 | after the pass, every insertion is hidden and puts a direct child below a live frame; every inserted child is recorded as imported; no live frame is recorded as imported |
| Importer.ImportFrames | src/framework/router/filerouter.js:63-92 | the nested loops compute exactly the pass `ImportRun`; the inner loop terminates because each step removes one dot |
| Importer.StaleParentIsReused | src/framework/router/filerouter.js:73-91 | once a parent view is remembered, each later frame that is not skipped and passes the line-84 guard bypasses the walk. It appends the remembered path again into the remembered parent's container and marks the new frame's path for re-parsing |
| Importer.RememberedParentPersists | src/framework/router/filerouter.js:66-91 | once the frames of a prefix have left a parent view behind, the whole pass ends with that same parent view and path to import, so no later frame walks again |
| Importer.InsertionsFollowFrameOrder | src/framework/router/filerouter.js:66-92 | the insertions made for a prefix of the frames are a prefix of all insertions, so insertions happen in frame order |
| Importer.WalkToLiveParent | src/framework/router/filerouter.js:77-82 | from a new child `a.b` of a live, dot-free `a`, the walk takes one step and ends on `a`, with `a.b` to import |
| Importer.WalkStopsAtImportedParent | src/framework/router/filerouter.js:77-82 | from `a.b.c`, once `a.b` is imported and not live, the walk stops at `a.b` without a parent view |
| Importer.ImportsNewChildOfLiveFrame | src/framework/router/filerouter.js:66-91 | with `a` live, the frames `a`, `a.b` give exactly one insertion: `a.b` hidden below `a`. This holds unless `a` is one of the names the line-84 guard trips on |
| Importer.DuplicateInsertionAsWritten | src/framework/router/filerouter.js:73-91 | with `a` live, the frames `a.b`, `a.b.c` append `a.b` below `a` twice |
| Importer.FunctionPropertyParentRefusedAsWritten | src/framework/router/filerouter.js:84 | in a pass whose only frame is the new child `k.b` of a live frame `k` named like a property of a function object (`length`, `name`, `call`, …), nothing is attached. A later frame that is not skipped can still attach `k.b` through the remembered parent view (`StaleParentIsReused`) |
| Importer.StepIntended | src/framework/router/filerouter.js:73-91 | with a fresh walk per frame and a called guard, a frame is attached exactly when it has a reachable live parent. The invariant holds and no child is attached twice |
| Importer.ImportRunIntended | src/framework/router/filerouter.js:66-92 | the intended pass keeps the consistency invariant and never attaches the same frame twice |
| Importer.NoDuplicateWhenIntended | src/framework/router/filerouter.js:73-91 | with `a` live, the frames `a.b`, `a.b.c` attach `a.b` once; `a.b.c` stops at the imported `a.b` |
| Importer.FunctionPropertyParentAcceptedWhenIntended | src/framework/router/filerouter.js:84 | with the called guard, the new child of a live frame named like `length` is attached below it |

## Findings

| source | as written | input that shows it | evidently intended | confidence | as-written member | corrected member |
|---|---|---|---|---|---|---|
| src/framework/router/filerouter.js:73-75 | `var parentView;` and `var pathToImport;` have no initialiser, so they keep the previous frame's values and a later frame skips its own walk | frames `["a.b", "a.b.c"]`, live `{"a"}`: `a.b` is appended below `a` twice | both variables reset for every frame; `a.b.c` then stops at the already imported `a.b` and nothing is appended twice | high; not executed | Importer.DuplicateInsertionAsWritten | Importer.ImportRunIntended |
| src/framework/router/filerouter.js:84 | `alreadyImported.hasOwnProperty[parentPath]` indexes the method instead of calling it | frames `["length.x"]`, live `{"length"}`: `hasOwnProperty["length"]` is 1, so the pass attaches nothing | `!alreadyImported.hasOwnProperty(parentPath)` | medium; not executed | Importer.FunctionPropertyParentRefusedAsWritten | Importer.ImportRunIntended |

`Router.Handle` runs the importer as written (`Importer.ImportRun`), so that the
router model describes the program. The corrected pass `Importer.ImportRunIntended`
is a separate definition with its properties proved. `Importer.StepIntended`
shows that, with fresh variables, the called guard never refuses: the parent
found by a walk is live, and no live path is ever recorded as imported.

## Left out

- `_loadHTML` (lines 127-149): the XMLHttpRequest and the parsing of the response into a document are network and DOM work. Their result is the `Load` input, and a failure is `LoadFailed`.
- `parseManager.parseDocument` and the `state` module (`exportState`, `exportStructure`, `getViewForPath`, `getStateForPath`, `transitionTo`) are external services.
  - A snapshot is a sequence of which only the length is inspected.
  - Frame lookup in the live document is membership in `Page.live`, fixed for the pass, since inserted markup is not parsed during it.
  - `transitionTo` becomes an entry in the transition log.
- The fetched document is assumed to have a view for every path the importer copies. `getStateForPath` returning nothing would throw inside the callback, which is not modelled.
- DOM mutation (`style.opacity`, `insertAdjacentHTML`, `outerHTML`) is represented only by the insertion log, with a hidden flag for the opacity.
- `$.postAnimationFrame` and the `Kern.Promise` machinery are collapsed: the outcome, the transitions and the cache are returned together. Timing and the order of callbacks are not modelled.
- `new RegExp('^' + origin)` (line 30) is modelled as a literal prefix test. Metacharacters in the origin, such as `.`, would let the source's pattern match more strings.
- Keys of plain JavaScript objects: `__proto__` and other inherited names in `this._cache` and `alreadyImported` behave differently from map and set membership. The model uses true maps and sets.
- The line-84 guard: `caller` and `arguments` are treated as undefined on the function object. Some engines throw when those properties are read from a built-in function.
- Overlapping `handle` calls and the `Kern.EventManager` base are concurrency and framework plumbing.
