/** The decision `ServeHTTP` makes for one request: decode the escaped path,
    look up the route, run `request`, and pick the response. The writes to
    the connection and the headers are not modelled, only the outcome. */
module Dispatch {
  import opened Base
  import opened Escape
  import opened Segments
  import opened Trie
  import opened Store

  /** What the client gets. A panic inside `ServeHTTP` is recovered by the
      HTTP server, which drops the connection without a response. */
  datatype Response =
    | Success(body: Bytes)
    | BadRequest(badEscape: Bytes)
    | InternalError(error: Error)
    | ConnectionDropped
    | NeverAnswered

  /** The status code written for a response, or 0 when none is written. */
  function Status(r: Response): int
  {
    match r
    case Success(_) => 200
    case BadRequest(_) => 400
    case InternalError(_) => 500
    case ConnectionDropped => 0
    case NeverAnswered => 0
  }

  /** The response for the outcome of `request`. */
  function Respond(o: Outcome): Response
  {
    match o
    case Served(b) => Success(b)
    case Failure(e) => InternalError(e)
    case Panicked => ConnectionDropped
    case Blocked => NeverAnswered
  }

  /** `ServeHTTP` (cache.go): a decoding error answers 400 before any lookup;
      a `request` error answers 500; otherwise the body is sent. `rawPath`
      is the request's `r.URL.EscapedPath()`. */
  function ServeHTTP(s: State, root: Route, rawPath: Bytes, result: HandlerResult, tPop: int, tRead: int)
    : (res: (State, Response))
    requires Inv(s)
    ensures Inv(res.0)
    ensures FromPath(rawPath).Ok? <==> WellEscaped(rawPath)
    ensures !WellEscaped(rawPath) <==> Status(res.1) == 400
    ensures !WellEscaped(rawPath) ==> res.0 == s
    ensures WellEscaped(rawPath) ==>
              var segs := FromPath(rawPath).value;
              var (s', o) := Request(s, Lookup(root, segs), segs, result, tPop, tRead);
              && res.0 == s'
              && (Status(res.1) == 500 <==> o.Failure?)
              && (Status(res.1) == 200 <==> o.Served?)
              && (o.Served? ==> res.1 == Success(o.body))
  {
    FromPathOkIffWellEscaped(rawPath);
    match FromPath(rawPath)
    case Err(e) => (s, BadRequest(e))
    case Ok(segs) => Answer(s, Lookup(root, segs), segs, result, tPop, tRead)
  }

  /** The part of `ServeHTTP` after a successful decode and lookup: run
      `request` and turn its outcome into a response. */
  function Answer(s: State, route: Route, segs: seq<Bytes>, result: HandlerResult, tPop: int, tRead: int)
    : (res: (State, Response))
    requires Inv(s)
    ensures Inv(res.0)
    ensures var (s', o) := Request(s, route, segs, result, tPop, tRead);
            && res.0 == s'
            && Status(res.1) != 400
            && (Status(res.1) == 500 <==> o.Failure?)
            && (Status(res.1) == 200 <==> o.Served?)
            && (o.Served? ==> res.1 == Success(o.body))
  {
    var (s', o) := Request(s, route, segs, result, tPop, tRead);
    RequestInv(s, route, segs, result, tPop, tRead);
    (s', Respond(o))
  }

  /** A whole request keeps the store invariant. */
  lemma RequestInv(s: State, route: Route, segs: seq<Bytes>, result: HandlerResult, tPop: int, tRead: int)
    requires Inv(s)
    ensures Inv(Request(s, route, segs, result, tPop, tRead).0)
  {
    var a := RequestArrives(route, segs, tRead);
    NextInv(s, a);
    var s1 := Next(s, a);
    if KeyOf(segs) !in s.entries {
      var b := PopulateFinishes(route, segs, result, tPop, tRead);
      NextInv(s1, b);
    }
  }

  /** A malformed path is answered without consulting the routes. */
  lemma MalformedIgnoresRoutes(s: State, root1: Route, root2: Route, rawPath: Bytes,
                               result: HandlerResult, tPop: int, tRead: int)
    requires Inv(s) && !WellEscaped(rawPath)
    ensures ServeHTTP(s, root1, rawPath, result, tPop, tRead) == ServeHTTP(s, root2, rawPath, result, tPop, tRead)
  {
    FromPathOkIffWellEscaped(rawPath);
  }

  /** A path whose lookup ends on a node without a handler, requested for the
      first time, makes `request` call a nil function: the connection is
      dropped and the key's entry stays wedged, so every later request for
      it never gets an answer. */
  lemma UnhandledPathWedges(s: State, root: Route, rawPath: Bytes, r1: HandlerResult, r2: HandlerResult,
                            t1: int, t2: int, t3: int, t4: int)
    requires Inv(s) && WellEscaped(rawPath)
    requires FromPath(rawPath).Ok? && Lookup(root, FromPath(rawPath).value).handler.None?
    requires KeyOf(FromPath(rawPath).value) !in s.entries
    ensures var (s1, resp1) := ServeHTTP(s, root, rawPath, r1, t1, t2);
            && resp1 == ConnectionDropped
            && ServeHTTP(s1, root, rawPath, r2, t3, t4) == (s1, NeverAnswered)
  {
    var segs := FromPath(rawPath).value;
    var s1 := ServeHTTP(s, root, rawPath, r1, t1, t2).0;
    assert s1.entries[KeyOf(segs)].wedged;
  }

  /** End to end: after registering a handler on a pattern in a trie built by
      registrations, the first request for that same path calls that handler
      once and answers 200 with its body. */
  lemma RegisteredPathIsServed(root: Route, pattern: Bytes, h: HandlerId, body: Bytes, tPop: int, tRead: int)
    requires Valid(root) && WellEscaped(pattern)
    ensures var root' := Register(root, pattern, Some(h)).0;
            var (s1, resp) := ServeHTTP(EmptyStore, root', pattern, Returned(Some(body)), tPop, tRead);
            && resp == Success(body)
            && s1.calls == [KeyOf(FromPath(pattern).value)]
  {
    RegisterThenLookup(root, pattern, Some(h));
    EmptyStoreInv();
  }
}
