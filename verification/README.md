# minicache core, modelled in Dafny

minicache is an in-process HTTP response cache. Handlers are registered on
path patterns in a route trie; a request path is split into decoded
segments, the trie picks a route, and the handler's output is cached under
the canonical form of the segments, served stale while a refresh runs in the
background. This project models the core of `cache.go`:

- `escape.dfy` (module `Escape`): the two `net/url` functions the core
  calls. `PathUnescape` follows section 2.1 of RFC 3986: a `%` must be
  followed by two hex digits. `PathEscape` follows the segment grammar of
  section 3.3 of RFC 3986: only letters, digits, `- _ . ~` and `$ & + : = @`
  stay literal, and every other byte becomes upper-case `%XX`.
- `segments.dfy` (module `Segments`): `fromPath` and `toCanonicalPath`,
  with `strings.Split` and `strings.Join` written out.
- `trie.dfy` (module `Trie`): `newRoute`, `getOrCreateChild`, `Register`
  and `lookup`. The trie is an immutable value, and each operation that
  mutates a node in Go returns the updated trie.
- `store.dfy` (module `Store`): `request` as a sequential state machine
  over `map<Key, Entry>`. Clocks are integer parameters. Each handler call
  is an oracle result: an error, or a slice that may be nil.
  - The synchronous first population is split into `Arrive` and
    `FinishPopulate`. `Arrive` inserts an empty entry; `FinishPopulate`
    stores the handler's result or rolls the entry back.
  - The refresh goroutine becomes a queued `Refresh`, which `RunRefresh`
    executes later.
  - `Request` runs a whole call without interleaving.
- `dispatch.dfy` (module `Dispatch`): the response `ServeHTTP` chooses.

`base.dfy` (module `Base`) holds bytes, `Option` and `Result`.

Where the specification of the system and `cache.go` disagree, the model
follows the code:

- No route TTL is ever set. `newRoute` leaves `cacheRules` at zero,
  `Register` never assigns it, and `WithDefaultTTL` writes a field that
  `request` never reads. So every node has TTL 0 (`Trie.Valid`), and there
  is no inheritance from the parent. With TTL 0, a read at any instant
  after the populate instant finds the entry stale. The first request
  therefore already queues a refresh whenever its two clock readings
  differ (`Store.ZeroTtlRefreshesAtOnce`).
- There is no "not found". `lookup` returns the deepest node it reached, so
  a handler on `/` serves every path whose first segment has no child of
  the root. A path that matches part of the way stops at an inner node,
  which may have no handler.
  - If that node has no handler, `request` calls a nil function and
    panics while holding the entry's write lock. The HTTP server recovers
    the panic and drops the connection.
  - The entry stays in the map with its lock held forever, so every later
    request for that key waits forever (`Dispatch.UnhandledPathWedges`).
  - A refresh goroutine that calls a nil handler crashes the process.
    The model records this as `Crashed` and lets later steps run, whereas
    in Go the process has exited. So every real run is a prefix of a model
    run, and the lemmas about all runs still cover it.
- A handler that returns a nil slice with a nil error leaves an entry whose
  value is nil. Every read then fails with "try again later". No refresh
  is ever queued for it, so the key never recovers
  (`Store.StuckIsPermanent`).
- `Register` decodes the pattern, so `%2A` and `%2a` are wildcards too
  (`Trie.EscapedStarIsWildcard`).
- `Register` accepts a nil handler and stores it, which clears an earlier
  registration. The model's handler argument is an `Option`.

## Model

| member | source | states |
|---|---|---|
| `Escape.PathUnescape` | cache.go:211-214 | decoding never lengthens a segment and keeps a non-empty one non-empty; an error is one to three bytes beginning with `%` |
| `Escape.UnescapeErrorAt` | cache.go:211-214 | an error is the input's first `%` not followed by two hex digits, together with at most the two bytes after it |
| `Escape.PathEscape` | cache.go:226 | escaping never shortens a segment and always gives well-escaped output, which `Escape.UnescapeEscape` decodes back |
| `Escape.UnescapeOkIffWellEscaped` | cache.go:211-214 | decoding a piece succeeds exactly when every `%` in it is followed by two hex digits |
| `Escape.UnescapeWithoutPercent` | cache.go:211 | a piece containing no `%` decodes to itself |
| `Escape.UnescapeEscape` | cache.go:226 | unescaping the escaped form of any segment gives the segment back |
| `Escape.EscapeHasNoSlash` | cache.go:226-228 | an escaped segment never contains `/`, so the joined key can be split again |
| `Escape.EscapeInjective` | cache.go:226 | distinct segments escape differently |
| `Segments.DecodePieces` | cache.go:207-216 | the loop yields only non-empty segments, at most one per piece; an error is an escape error |
| `Segments.FromPath` | cache.go:205-218 | a successful decode never contains an empty segment |
| `Segments.JoinSplit` | cache.go:207 | joining the pieces of a split with `/` restores the path |
| `Segments.SplitJoin` | cache.go:228 | splitting a join of slash-free pieces restores the pieces |
| `Segments.FromPathAround` | cache.go:205-218 | the decoding of `a/b` is that of `a` followed by that of `b`; the first error in path order wins |
| `Segments.LeadingSlash` | cache.go:207-210 | a leading slash does not change the segments |
| `Segments.TrailingSlash` | cache.go:207-210 | a trailing slash does not change the segments |
| `Segments.RepeatedSlash` | cache.go:207-210 | a doubled slash decodes like a single one |
| `Segments.AllSlashesIsRoot` | cache.go:205-218 | the empty path and every all-slash path decode to no segments |
| `Segments.FromPathOkIffWellEscaped` | cache.go:205-218 | decoding a path fails exactly when some `%` in it is not followed by two hex digits |
| `Segments.FromPathOnePiece` | cache.go:205-218 | a non-empty path without `/` is exactly one segment, its decoding, or that decoding's error |
| `Segments.FromPathWithoutPercent` | cache.go:207-215 | without `%`, the segments are the non-empty split pieces unchanged |
| `Segments.ToCanonicalPath` | cache.go:220-229 | the key always starts with `/`, and is exactly `/` when no segment is non-empty |
| `Segments.CanonicalRoundTrip` | cache.go:205-229 | decoding the key of any segment sequence gives back its non-empty segments |
| `Segments.CanonicalIgnoresEmpty` | cache.go:222-225 | empty segments never change the key |
| `Segments.CanonicalInjective` | cache.go:220-229 | distinct sequences of non-empty segments get distinct keys |
| `Segments.CanonicalIdempotent` | cache.go:205-229 | a key decodes, and re-keying its segments gives the same key |
| `Trie.NewRoute` | cache.go:69-73 | a new route has no handler, TTL 0, and no node under any non-empty segment |
| `Trie.NewRouteValid` | cache.go:69-73 | a new route satisfies the trie invariant: TTL 0 at every node, and no static child under the empty key or `*` |
| `Trie.GetOrCreateChild` | cache.go:75-89 | the returned child hangs under the segment's edge. An existing child is returned and nothing changes. A missing one is created fresh. Other edges and the handler are untouched, and the empty segment returns the node itself |
| `Trie.GetOrCreateChildIdempotent` | cache.go:75-89 | asking twice for the same child creates it at most once |
| `Trie.RegisterSegments` | cache.go:96-100 | afterwards the node the segments name exists and holds the given handler (possibly nil), and the root keeps its TTL |
| `Trie.Register` | cache.go:91-95 | registration fails exactly when the pattern is not well escaped, and then leaves the trie untouched |
| `Trie.EscapedStarIsWildcard` | cache.go:75-100 | the patterns `/%2A` and `/%2a` register exactly as the pattern `/*` does, on the dynamic child |
| `Trie.RegisterHandlerAt` | cache.go:91-102 | after registering `h`, possibly nil, at a pattern, the handler at the same pattern is `h` and the handler at every other pattern is unchanged |
| `Trie.RegisterKeepsNodes` | cache.go:85-88 | registering never removes a node that existed |
| `Trie.RegisterValid` | cache.go:69-102 | registration keeps every TTL at 0 and never puts a static child under `*` or the empty key |
| `Trie.Lookup` | cache.go:184-203 | a path of only empty segments returns the starting node, and when every non-empty segment has a candidate the walk's end is returned |
| `Trie.LookupLoop` | cache.go:184-203 | the loop returns what the recursive walk returns |
| `Trie.LookupPrecedence` | cache.go:190-196 | a static child with the segment as key wins over the dynamic child; with neither, the walk stops at the current node |
| `Trie.LookupIsDeepest` | cache.go:197-202 | the node returned is the end of the longest prefix that walks strictly, and no longer prefix walks |
| `Trie.LookupReachesFind` | cache.go:184-203 | on a trie built by registrations, the request walk reaches every node a pattern names, including through a literal `*` |
| `Trie.RegisterThenLookup` | cache.go:184-203 | after a successful registration of `h` on a pattern, looking up the pattern's own segments reaches a node holding `h` |
| `Trie.LookupValid` | cache.go:69-73 | on a trie built by registrations, the node returned has TTL 0 |
| `Store.Read` | cache.go:154-174 | a nil value gives the try-again error with no change. Otherwise the value is returned, and a refresh is queued exactly when the expiry is strictly before now. A wedged entry blocks |
| `Store.Arrive` | cache.go:134-138 | an absent key gets an empty entry and becomes populating. A present key gets exactly `Store.Read`'s answer and refresh rule. The handler is not called |
| `Store.FinishPopulate` | cache.go:139-150 | the handler is called once. On error the entry is deleted and the error returned. On success the entry holds the value with expiry `tPop + ttl`. A missing handler panics and leaves the entry wedged |
| `Store.Request` | cache.go:133-175 | an existing key never reaches the handler and gets exactly `Store.Read`'s answer and refresh rule. An absent key calls the handler once. A failed first population restores the map exactly |
| `Store.RunRefresh` | cache.go:163-172 | a successful refresh replaces both value and expiry; a failed one leaves the entries unchanged; a missing handler crashes |
| `Store.NextInv` | cache.go:133-175 | every step keeps the store invariant: populating keys hold empty entries, and queued refreshes hold live, unwedged entries |
| `Store.OnlyFailedPopulateRemoves` | cache.go:144-146 | a key leaves the map only through a failed first population of that key |
| `Store.StuckIsPermanent` | cache.go:159-160 | once a key holds a nil value with nothing in flight for it, no sequence of steps changes its entry |
| `Store.StuckNeverServes` | cache.go:159-160 | a request for such a key changes nothing and either fails with the try-again error or blocks |
| `Store.NilFirstResultSticks` | cache.go:141-160 | a nil slice with a nil error on the first request leaves the key stuck |
| `Store.SinglePopulation` | cache.go:134-160 | while a first population is in flight, another request for the key starts no population, calls no handler and gets the try-again error |
| `Store.FailedPopulateIsRetried` | cache.go:141-147 | after a failed first population the key is absent, so the next request calls the handler again |
| `Store.StaleServedThenRefreshed` | cache.go:162-172 | a stale value is served at once and a refresh is queued; after the refresh succeeds, a request within the new TTL gets the new value and queues nothing |
| `Store.ZeroTtlRefreshesAtOnce` | cache.go:149-163 | with TTL 0, a first request whose read follows the populate instant serves the value and queues a refresh |
| `Dispatch.ServeHTTP` | cache.go:104-131 | status 400 exactly for a malformed path, with the store unchanged. Otherwise the store is what `request` leaves, 500 exactly when `request` fails, and 200 with the body exactly when it serves one |
| `Dispatch.RequestInv` | cache.go:115-116 | a whole request keeps the store invariant |
| `Dispatch.MalformedIgnoresRoutes` | cache.go:105-114 | a malformed path gets the same answer whatever the routes are, since no lookup happens |
| `Dispatch.UnhandledPathWedges` | cache.go:115-141 | a first request whose lookup ends on a node without a handler drops the connection, and every later request for it never gets an answer |
| `Dispatch.RegisteredPathIsServed` | cache.go:91-131 | after registering a handler on a pattern, the first request for that path calls it once and answers 200 with its body |

## Left out

- `ListenAndServe` and the writes in `ServeHTTP` are network I/O, as is the `Content-Type` header set after `WriteHeader`. Only the chosen response is modelled.
- `Dispatch.ServeHTTP`: the 400 and 500 bodies are the error values, not their text. The quoting in `url.EscapeError` and the handler's `err.Error()` are not modelled.
- `ServeHTTP` decodes `r.URL.EscapedPath()`, which is the `rawPath` parameter here. `net/url` re-escapes the path whenever its raw form does not decode, so through `net/http` the 400 branch at cache.go:106-113 is probably never reached. The model takes any byte string and keeps that branch.
- `New`, `WithDefaultTTL` and `WithLogger` are option plumbing. `WithDefaultTTL` writes a field that `request` never reads, so it cannot change any behaviour modelled here. The logger calls are foreign code.
- Locks and goroutine scheduling are not modelled, and every step is atomic.
  - A reader that reaches an entry while its populator holds the write lock would wait in Go. Here it is a read after `FinishPopulate`; a read between `Arrive` and `FinishPopulate` stands for one that got in first.
  - The race in which an entry is deleted between lines 138 and 155 is out of scope. So is the lack of deduplication among concurrent refreshes.
- `lookup`'s scan over the static children map is modelled as a key membership test. The scan breaks on the first equal key, and keys are unique.
- `time.Now` becomes integer clock parameters, and `time.Duration` overflow is not modelled. An entry's expiry before its first population is 0, which no read can observe because its value is nil.
- Handler bodies are an uninterpreted oracle: each call's result is a parameter, and a handler is named only by an id.
- The `net/url` and `strings` library code is not part of this model. Their behaviour on paths is written out from RFC 3986 as described above.
- `examples/echo/main.go` is a demo that registers `/` and listens; it has no logic of its own.
