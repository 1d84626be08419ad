# Unity WebGL game server: header policy and entry-file discovery

This project models the logic core of a small Express server (`server.js`). The server serves a Unity WebGL build from `public/games/pixeltris`. Three parts are modelled and proved:

- **Header middleware** (server.js:12-28). It runs on every request. It picks a content-type override from the suffix of the raw request URL: `.wasm`, `.data`, `.symbols.json` or `.js`, tested in that order. Then it sets five fixed headers: the cross-origin isolation headers (COEP `require-corp`, COOP `same-origin`) and three CORS headers. It is modelled as a `Response` class with a header map and an optional content type. `Middleware(url)` updates them in place.
- **Entry-file discovery** (`findUnityGamePath` / `findIndexHtml`, server.js:34-59). This is a depth-first search at most five levels below the game root. It looks for a file whose lower-cased name is `index.html` and whose content mentions `UnityLoader` or `createUnityInstance`. The filesystem is a `Node` tree: `File`, `Dir` or `Other`. A failed `readdirSync` or `readFileSync` is a `None` in the tree. The search is a pair of mutually recursive functions: one for a directory, one for its `for…of` loop. The result is a sequence of path segments.
- **Root route** (server.js:62-76). This is the three-way choice between sending the discovered file, answering 404, and answering 500.

The search is modelled twice. `FindIndexHtml` follows the code as written. `FindFixed` is the evidently intended search; it differs only in what line 44 returns. A declarative predicate, `Hit(node, ds, name, depth)`, says where a validated entry file is: reached through the visible directories `ds`, within the depth bound, with every listing on the way succeeding. Several lemmas connect the searches to `Hit`:

- the corrected search is sound and complete with respect to `Hit`;
- the as-written search finds the same file but reports the file at `ds + [name]` as `ds + ds + [name]` (see Findings).

Behaviour of the code worth noting:

- Only the *first* file entry whose lower-cased name is `index.html` is tried (`items.find`, line 39). A rejected `INDEX.HTML` listed before a valid `index.html` hides it (`Scenarios.OnlyFirstCandidateTried`).
- If the candidate cannot be read, the whole directory is abandoned, subdirectories included. This is because the read throws inside the same `try` (line 42 / 55). Traversal continues only with the directory's own siblings.
- A nested entry file is reported with its directory prefix doubled (see Findings).
- Discovery catches every failure itself, so an unreadable game root gives 404, not 500. In this model the 500 branch of the route cannot be reached through discovery (`RootRoute.ServeRootAsWritten`).

## Model

| member | source | states |
|---|---|---|
| `Headers.FixedHeaders` | server.js:22-26 | the fixed header set has exactly the five header names COEP, COOP, ACAO, ACAM, ACAH |
| `Headers.Response.Middleware` | server.js:12-28 | the content type becomes the override for the URL when there is one and is otherwise unchanged; the headers become the old headers overridden by the five fixed ones, and nothing else changes |
| `Headers.FixedHeadersInOrder` | server.js:22-26 | setting the five headers one after another equals overriding the map with the fixed header set |
| `Headers.ContentTypeFor` | server.js:13-21 | an override is chosen iff the URL ends in `.wasm`, `.data`, `.symbols.json` or `.js`, and it is one of the three types; `ContentTypeMapping` states which suffix gives which type |
| `Headers.Respond` | server.js:12-28 | on a response with no headers yet, after the middleware the headers are exactly the fixed header set and the content type is the override for the URL, if any (`FixedHeadersOverride` gives the five values, `ContentTypeMapping` which suffix gives which type) |
| `Headers.SuffixesExclusive` | server.js:13-20 | at most one of `.wasm`, `.data`, `.symbols.json`, `.js` ends any URL, so the order of the tests never decides the outcome |
| `Headers.ContentTypeMapping` | server.js:13-21 | `application/wasm` iff the URL ends in `.wasm`; `application/octet-stream` iff it ends in `.data` or `.symbols.json`; `application/javascript` iff it ends in `.js`; no override iff none of these |
| `Headers.OverrideNeedsSuffixAtEnd` | server.js:13-21 | a URL whose last character is not `m`, `a`, `n` or `s` (e.g. one with a query string after the extension) gets no override |
| `Headers.QueryStringExample` | server.js:13-14 | `/Build/game.wasm?v=2` gets no override while `/Build/game.wasm` gets `application/wasm` |
| `Headers.FixedHeadersOverride` | server.js:22-26 | after the middleware the five header values are present whatever was there before; every other header keeps its value |
| `Strings.Contains` | server.js:43 | `includes` holds iff the substring occurs at some offset |
| `Strings.ToLower` | server.js:39 | lower-casing keeps the length and maps each character through `A`..`Z` -> `a`..`z` |
| `Strings.Slashes` | server.js:51 | the replacement keeps the length, turns every backslash into `/`, and leaves no backslash |
| `Discovery.IsCandidate` | server.js:39 | a file entry (not a directory or other entry) whose lower-cased name is `index.html`; `FirstCandidate` and `CandidateName` state its use |
| `Discovery.IsUnityPage` | server.js:43 | the content names `UnityLoader` or `createUnityInstance` as a substring; `Strings.Contains` gives the meaning of the substring test |
| `Discovery.IsVisibleDir` | server.js:48 | a directory entry whose name does not start with `.`; `VisibleDirs` and `ScanSkipsInvisible` state its use |
| `Discovery.FirstCandidate` | server.js:39 | the index found is a candidate and no earlier entry is one; none is found iff no entry is a candidate |
| `Discovery.CandidateName` | server.js:39-41 | the candidate's original-case name lower-cases to `index.html` |
| `Discovery.FindIndexHtml` | server.js:35-57 | the as-written search: a result has at least one segment more than the directory path it was called with; `AsWrittenDoublesPrefix` gives its exact result in terms of the corrected search, and `DiscoveryResultShape` in terms of `Hit` |
| `Discovery.ScanDirs` | server.js:47-54 | the as-written loop: a result is at least three segments longer than the directory path, since a subdirectory hit is extended by line 44 and again by line 51; `ScanDoublesPrefix` gives its exact result |
| `Discovery.FindUnityGamePath` | server.js:34-59 | the as-written discovery from the game root returns a non-empty path or not-found; `DiscoveryResultShape` states which path and when |
| `Discovery.Render` | server.js:51 | the rendered path holds no backslash and is exactly as long as its segments joined by `/`, so at least as long as the separators and the last segment; `RenderPerLevel` relates it to the per-level replacement of line 51 |
| `Discovery.AsWrittenDoublesPrefix` | server.js:35-57 | for every tree, the as-written search returns `Doubled(p, dir)` exactly when the corrected search returns `p`: the root-relative hit of line 44 gets each enclosing directory prepended again by line 51 |
| `Discovery.ScanDoublesPrefix` | server.js:47-54 | the same relation for the loop over a directory's entries |
| `Discovery.FixedSound` | server.js:35-57 | a path returned by the corrected search leads, through visible directories within the depth bound, to a validated entry file of that name |
| `Discovery.ScanFixedSound` | server.js:47-54 | a path returned by the corrected loop starts with a visible subdirectory from which the rest of the path is a hit |
| `Discovery.FixedComplete` | server.js:35-57 | if any validated entry file is reachable, the corrected search returns some path |
| `Discovery.ScanFixedComplete` | server.js:47-54 | if some visible subdirectory leads to a hit, the loop returns some path |
| `Discovery.HitBounds` | server.js:36-48 | a reachable entry file's name lower-cases to `index.html`, its directory is at most 5 levels below the root, and no directory on the way starts with `.` |
| `Discovery.FindFixed` | server.js:35-57 | the corrected search returns a non-empty path or not-found |
| `Discovery.ScanFixed` | server.js:47-54 | the corrected loop returns a path of at least a directory and a file name, or not-found |
| `Discovery.FindUnityGamePathFixed` | server.js:34-59 | the corrected discovery returns a non-empty path or not-found |
| `Discovery.FixedReportsLocation` | server.js:34-59 | the corrected discovery finds something iff a validated entry file is reachable, and then reports exactly that file's location, at most 5 directories deep |
| `Discovery.DiscoveryResultShape` | server.js:34-59 | the as-written discovery finds something iff a validated entry file is reachable, and then reports the file at `ds + [name]` as `ds + ds + [name]` |
| `Discovery.CandidateSelection` | server.js:39-47 | an accepted candidate is returned (root-relative) before any subdirectory is visited; an unreadable candidate makes the directory not-found whatever its subdirectories hold; a missing or rejected candidate falls through to the loop |
| `Discovery.NotFoundWithoutListing` | server.js:36-38 | past depth 5, at a directory that cannot be listed, and at anything that is not a directory, the result is not-found |
| `Discovery.ScanDirsAppend` | server.js:47-53 | the loop returns the first hit in listing order: on `a + b` it consults `b` only when nothing in `a` is found |
| `Discovery.VisibleDirs` | server.js:48 | the entries kept are exactly the listed directories whose names do not start with `.`; a one-entry listing is kept iff that entry is a visible directory |
| `Discovery.VisibleDirsAppend` | server.js:47-48 | filtering keeps listing order: the entries kept from `a + b` are those kept from `a` followed by those kept from `b` |
| `Discovery.ScanSkipsInvisible` | server.js:47-48 | files, other entries and hidden directories play no part: the loop gives the same result over the visible directories alone |
| `Discovery.SearchIgnoresDeeperLevels` | server.js:36-49 | the search gives the same answer on the tree with every directory below level 5 made unlistable: nothing deeper is ever examined |
| `Discovery.ScanIgnoresDeeperLevels` | server.js:47-49 | the same for the loop over a directory's entries |
| `Discovery.FindUnityGamePathString` | server.js:58 | the string result exists iff the segment result does |
| `Discovery.RootHitRendersAsName` | server.js:44 | a name that lower-cases to `index.html` renders as itself (it holds no backslash) |
| `Discovery.RenderPerLevel` | server.js:51 | replacing backslashes once at the end equals joining and replacing at every level, as line 51 does |
| `Discovery.DiscoveredPathNonEmpty` | server.js:58-65 | the path handed to the route is never the empty string, so the truthiness test of line 65 means "found" |
| `Discovery.NestedResultNonEmpty` | server.js:49-50 | a result of the recursive call for a subdirectory renders as a non-empty string, so the test `if (found)` of line 50 means "found" |
| `Discovery.RootHitIsName` | server.js:40-44 | a validated candidate directly in the game root is reported as its own original-case name |
| `RootRoute.GamesDir` | server.js:8-9 | the games directory starts with the server's directory and ends in `/public/games/pixeltris`, and is exactly as long as both together |
| `RootRoute.Route` | server.js:62-76 | a file is sent iff discovery returned a non-empty path, and it is the games directory joined with that path; 500 with the error message iff discovery threw; otherwise 404 with the not-found message |
| `RootRoute.ServeRoot` | server.js:62-76 | `GET /` with the as-written discovery either sends a file whose path string starts with the games directory and `/`, or answers 404 with the not-found message |
| `RootRoute.ServeRootFixed` | server.js:62-76 | the same for the corrected discovery: a textual prefix, or 404 |
| `RootRoute.ServeRootAsWritten` | server.js:62-76 | as written, `GET /` never answers 500; it sends a file iff a validated entry file is reachable, and the path sent repeats the file's directories; otherwise 404 |
| `RootRoute.ServeRootIntended` | server.js:62-76 | with the corrected discovery, `GET /` sends exactly the reachable validated entry file, and answers 404 iff there is none |
| `Scenarios.LoaderValidates` | server.js:43 | a page calling `createUnityInstance(canvas, config)` passes the content test, so the scenarios below that assume a page naming the loader are about real pages |
| `Scenarios.NestedHitIsDoubled` | server.js:44-51 | for a tree whose single entry file, naming the loader, is `a/b/index.html`, the corrected search gives `a/b/index.html`; the as-written one gives `a/b/a/b/index.html`, and the route sends `<gamesDir>/a/b/a/b/index.html` |
| `Scenarios.SendsBelowGamesDir` | server.js:64-68 | whatever path segments discovery returns are rendered and sent below the games directory |
| `Scenarios.NestedBuildFixed` | server.js:35-57 | the corrected search locates the nested loader page at `a/b/index.html` |
| `Scenarios.TwoLevelsDown` | server.js:39-54 | the corrected search reports an accepted candidate two visible directories down as `a/b/<its name>` |
| `Scenarios.TooDeepIsNotFound` | server.js:36 | a page six directories down is not found, whatever it holds |
| `Scenarios.UnvalidatedIsNotFound` | server.js:43 | an `index.html` without either loader name is not found, even when there is no other candidate |
| `Scenarios.PlaceholderIsNotFound` | server.js:43 | a placeholder `index.html` (`<p>coming soon</p>`) in a subdirectory is not found |
| `Scenarios.HiddenDirIsNotFound` | server.js:48 | a page inside `.cache` is not found, whatever it holds |
| `Scenarios.UnreadableCandidatePrunes` | server.js:42-55 | an unreadable `index.html` in the root hides any page in a subdirectory, a loader page included |
| `Scenarios.OnlyFirstCandidateTried` | server.js:39 | a rejected `INDEX.HTML` listed first hides any `index.html` after it, a valid one included |

## Left out

- `app.listen`, the `PORT` environment variable (taken as given, with no numeric validation) and the startup logs (server.js:5, 78-81): process plumbing.
- `express.static` (server.js:31): library code whose source is not part of this model. It is mounted before the `/` route. So a literal `index.html` directly in the game root is served by it for `GET /`, and the route never runs.
- `res.sendFile` (server.js:68), including its asynchronous 404 when the (doubled) path does not exist: library I/O. The model stops at the path handed to it.
- `console.log` / `console.error` (server.js:67, 73): diagnostics only.
- The real `fs.readdirSync` / `fs.readFileSync`, UTF-8 decoding and the operating system's listing order. The tree gives entries in listing order and file contents as decoded strings.
- Headers.Response.Middleware: `res.type` is recorded as the override value it is given. Express turns it into the `Content-Type` header and may append a charset; that is library behaviour. Header names are kept as written, although HTTP treats them case-insensitively.
- Discovery.FindUnityGamePathString: `path.join` is modelled as joining segments with `/`. Node's normalisation of `.`, `..` and repeated separators is not modelled. It matters for directory names containing a backslash, which line 51 turns into separators; the lines for `RootRoute.ServeRoot` and `RootRoute.ServeRootFixed` below give the consequence. `path.relative` is modelled with POSIX separators.
- Strings.ToLower: lower-cases only `A`..`Z`. JavaScript's full Unicode mapping is not modelled; it is only ever compared against the ASCII name `index.html`.
- RootRoute.ServeRoot: the path sent starts with the games directory only as a string. Line 51 turns backslashes in directory names into `/`, and `path.join` (line 66) then resolves `..`. On POSIX a visible directory named `x\..\..` holding a loader page makes discovery return `x/../../x/../../index.html`, and the file sent is `<serverDir>/public/index.html`, outside the games directory. Path resolution is not modelled, so the model does not promise containment.
- RootRoute.ServeRootFixed: the same textual prefix only. With the corrected discovery the same directory gives `x/../../index.html`, which resolves to `<serverDir>/public/games/index.html`, also outside the games directory.
- RootRoute.Route: the exception of server.js:72 is an input (`Threw`). None of the calls inside that `try` throws in this model.

## Findings

| source | as written | input that shows it | evidently intended | confidence | as-written member | corrected member |
|---|---|---|---|---|---|---|
| server.js:44-51 | line 44 returns the hit relative to the game root, and line 51 prepends each enclosing directory's name again, so a file at `d1/…/dk/index.html` is reported as `d1/…/dk/d1/…/dk/index.html` | a tree whose only page is `a/b/index.html`, with content that names the loader (for example `createUnityInstance(canvas, config)`): discovery returns `a/b/a/b/index.html` and `GET /` sends `<gamesDir>/a/b/a/b/index.html` | the path of the entry file, `a/b/index.html` (line 44 returning the path relative to the directory being searched) | high; not executed | `Scenarios.NestedHitIsDoubled` | `Discovery.FixedReportsLocation` |
