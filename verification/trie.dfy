/** The route trie of cache.go: `newRoute`, `getOrCreateChild`, `Register`
    and `lookup`. The trie is an immutable value here; the Go code mutates
    nodes in place, which corresponds to returning the updated trie. */
module Trie {
  import opened Base
  import opened Escape
  import opened Segments

  /** Handlers are opaque to the trie; a registered handler is named by an id. */
  type HandlerId = nat

  /** A `route`: an optional handler, static children keyed by the literal
      segment, at most one dynamic (`*`) child, and the TTL of its
      `cacheRules`. */
  datatype Route = Route(
    handler: Option<HandlerId>,
    staticChildren: map<Bytes, Route>,
    dynamicChild: Option<Route>,
    ttl: int)

  /** `newRoute`: no handler, no children, and `cacheRules` left at its zero
      value, so a TTL of 0. */
  function NewRoute(): (r: Route)
    ensures r.handler.None? && r.ttl == 0
    ensures forall t :: t != [] ==> Edge(r, t).None?
  {
    Route(None, map[], None, 0)
  }

  /** The node a pattern segment names below `r`: the node itself for an
      empty segment, the dynamic child for `*`, else the static child. */
  function Edge(r: Route, segment: Bytes): Option<Route>
  {
    if segment == [] then Some(r)
    else if segment == Wildcard then r.dynamicChild
    else if segment in r.staticChildren then Some(r.staticChildren[segment])
    else None
  }

  /** `getOrCreateChild`: the parent (with the child added if it was missing)
      and the child. */
  function GetOrCreateChild(r: Route, segment: Bytes): (res: (Route, Route))
    ensures Edge(res.0, segment) == Some(res.1)
    ensures Edge(r, segment).Some? ==> res == (r, Edge(r, segment).value)
    ensures Edge(r, segment).None? ==> res.1 == NewRoute()
    ensures res.0.handler == r.handler && res.0.ttl == r.ttl
    ensures forall t :: t != [] && t != segment ==> Edge(res.0, t) == Edge(r, t)
  {
    if segment == [] then (r, r)
    else if segment == Wildcard then
      if r.dynamicChild.None? then (r.(dynamicChild := Some(NewRoute())), NewRoute())
      else (r, r.dynamicChild.value)
    else if segment !in r.staticChildren then
      (r.(staticChildren := r.staticChildren[segment := NewRoute()]), NewRoute())
    else (r, r.staticChildren[segment])
  }

  /** Puts `child` back under `r` at the edge `segment` names (for the empty
      segment, `child` replaces `r` itself). */
  function Attach(r: Route, segment: Bytes, child: Route): (r': Route)
    ensures Edge(r', segment) == Some(child)
    ensures segment != [] ==> r'.handler == r.handler && r'.ttl == r.ttl
    ensures segment != [] ==> forall t :: t != [] && t != segment ==> Edge(r', t) == Edge(r, t)
  {
    if segment == [] then child
    else if segment == Wildcard then r.(dynamicChild := Some(child))
    else r.(staticChildren := r.staticChildren[segment := child])
  }

  /** The loop of `Register` after decoding: walk the segments creating
      missing children, then set the handler on the last node. `h` is `None`
      for a nil `HandlerFunc`, which Go stores like any other. */
  function RegisterSegments(r: Route, segs: seq<Bytes>, h: Option<HandlerId>): (r': Route)
    ensures Find(r', segs).Some? && Find(r', segs).value.handler == h
    ensures r'.ttl == r.ttl
    decreases |segs|
  {
    if |segs| == 0 then r.(handler := h)
    else
      var (r1, child) := GetOrCreateChild(r, segs[0]);
      Attach(r1, segs[0], RegisterSegments(child, segs[1..], h))
  }

  /** `Register`: the new trie and the decoding error, if any. */
  function Register(root: Route, pattern: Bytes, h: Option<HandlerId>): (res: (Route, Option<Bytes>))
    ensures res.1.Some? <==> !WellEscaped(pattern)
    ensures res.1.Some? ==> res.0 == root
  {
    FromPathOkIffWellEscaped(pattern);
    match FromPath(pattern)
    case Err(e) => (root, Some(e))
    case Ok(segs) => (RegisterSegments(root, segs, h), None)
  }

  /** The candidate `lookup` picks for a request segment: the static child
      with that exact key, else the dynamic child. */
  function Candidate(r: Route, segment: Bytes): Option<Route>
  {
    if segment in r.staticChildren then Some(r.staticChildren[segment]) else r.dynamicChild
  }

  /** `lookup`: follow candidates while they exist and return the deepest node
      reached; empty segments are skipped. */
  function Lookup(r: Route, path: seq<Bytes>): (res: Route)
    ensures NonEmpty(path) == [] ==> res == r
    ensures Walk(r, path).Some? ==> res == Walk(r, path).value
    decreases |path|
  {
    if |path| == 0 then r
    else if path[0] == [] then Lookup(r, path[1..])
    else
      match Candidate(r, path[0])
      case None => r
      case Some(c) => Lookup(c, path[1..])
  }

  /** `lookup` as the loop cache.go writes. */
  method LookupLoop(root: Route, path: seq<Bytes>) returns (r: Route)
    ensures r == Lookup(root, path)
  {
    r := root;
    var i := 0;
    while i < |path|
      invariant 0 <= i <= |path|
      invariant Lookup(root, path) == Lookup(r, path[i..])
    {
      var p := path[i];
      assert path[i..][0] == p && path[i..][1..] == path[i + 1..];
      if p == [] {
        i := i + 1;
        continue;
      }
      var candidate := Candidate(r, p);
      if candidate.None? {
        break;
      }
      r := candidate.value;
      i := i + 1;
    }
  }

  // ---------------------------------------------------------------------
  // Reference definitions

  /** The node a pattern names exactly, following the edges `Register`
      creates; `None` when some edge is missing. */
  function Find(r: Route, segs: seq<Bytes>): Option<Route>
    decreases |segs|
  {
    if |segs| == 0 then Some(r)
    else
      match Edge(r, segs[0])
      case None => None
      case Some(c) => Find(c, segs[1..])
  }

  /** The handler registered at exactly the pattern `segs`. */
  function HandlerAt(r: Route, segs: seq<Bytes>): Option<HandlerId>
  {
    match Find(r, segs)
    case None => None
    case Some(n) => n.handler
  }

  /** The strict walk of a request path: every non-empty segment must have a
      candidate. */
  function Walk(r: Route, path: seq<Bytes>): Option<Route>
    decreases |path|
  {
    if |path| == 0 then Some(r)
    else if path[0] == [] then Walk(r, path[1..])
    else
      match Candidate(r, path[0])
      case None => None
      case Some(c) => Walk(c, path[1..])
  }

  /** The shape every trie built by `Register` has: no static child under
      the empty key or under `*` (those go elsewhere), and a zero TTL. */
  predicate Valid(r: Route)
  {
    && r.ttl == 0
    && [] !in r.staticChildren
    && Wildcard !in r.staticChildren
    && (forall k :: k in r.staticChildren ==> Valid(r.staticChildren[k]))
    && (r.dynamicChild.Some? ==> Valid(r.dynamicChild.value))
  }

  // ---------------------------------------------------------------------
  // getOrCreateChild

  /** Asking twice for the same child creates it at most once. */
  lemma GetOrCreateChildIdempotent(r: Route, segment: Bytes)
    ensures GetOrCreateChild(GetOrCreateChild(r, segment).0, segment) == GetOrCreateChild(r, segment)
  {
  }

  // ---------------------------------------------------------------------
  // Register

  lemma {:induction false} FreshHasNoHandler(q: seq<Bytes>)
    ensures HandlerAt(NewRoute(), q) == None
    decreases |q|
  {
    if |q| > 0 && q[0] == [] {
      FreshHasNoHandler(q[1..]);
    }
  }

  lemma SkipEmpty(x: Route, q: seq<Bytes>)
    requires |q| > 0 && q[0] == []
    ensures HandlerAt(x, q) == HandlerAt(x, q[1..])
    ensures Find(x, q) == Find(x, q[1..])
    ensures NonEmpty(q) == NonEmpty(q[1..])
  {
  }

  /** One step of registration below a non-empty segment: the edge it names
      now leads to the updated child, and every other edge is as before. */
  lemma RegisterStep(r: Route, segs: seq<Bytes>, h: Option<HandlerId>)
    requires |segs| > 0 && segs[0] != []
    ensures var child := GetOrCreateChild(r, segs[0]).1;
            Edge(RegisterSegments(r, segs, h), segs[0]) == Some(RegisterSegments(child, segs[1..], h))
    ensures RegisterSegments(r, segs, h).handler == r.handler
    ensures forall t :: t != [] && t != segs[0] ==> Edge(RegisterSegments(r, segs, h), t) == Edge(r, t)
  {
  }

  /** Two nodes whose edge for the first segment agree name the same node. */
  lemma FindSameEdge(x: Route, y: Route, q: seq<Bytes>)
    requires |q| > 0 && q[0] != []
    requires Edge(x, q[0]) == Edge(y, q[0])
    ensures Find(x, q) == Find(y, q)
  {
  }

  lemma NonEmptyCons(q: seq<Bytes>)
    requires |q| > 0 && q[0] != []
    ensures NonEmpty(q) == [q[0]] + NonEmpty(q[1..])
  {
  }

  /** After registering `h` at `segs`, the handler at any pattern `q` is `h`
      when `q` names the same node, and what it was before otherwise: the
      terminal handler is overwritten and nothing else changes. */
  lemma {:induction false} RegisterHandlerAt(r: Route, segs: seq<Bytes>, h: Option<HandlerId>, q: seq<Bytes>)
    ensures HandlerAt(RegisterSegments(r, segs, h), q)
         == if NonEmpty(q) == NonEmpty(segs) then h else HandlerAt(r, q)
    decreases |segs| + |q|
  {
    var r' := RegisterSegments(r, segs, h);
    if |segs| > 0 && segs[0] == [] {
      assert r' == RegisterSegments(r, segs[1..], h);
      assert NonEmpty(segs) == NonEmpty(segs[1..]);
      RegisterHandlerAt(r, segs[1..], h, q);
    } else if |q| > 0 && q[0] == [] {
      SkipEmpty(r', q);
      SkipEmpty(r, q);
      RegisterHandlerAt(r, segs, h, q[1..]);
    } else if |segs| == 0 {
      if |q| > 0 {
        FindSameEdge(r', r, q);
        NonEmptyCons(q);
      }
    } else {
      RegisterHandlerBelow(r, segs, h, q);
    }
  }

  lemma {:induction false} RegisterHandlerBelow(r: Route, segs: seq<Bytes>, h: Option<HandlerId>, q: seq<Bytes>)
    requires |segs| > 0 && segs[0] != []
    requires |q| > 0 ==> q[0] != []
    ensures HandlerAt(RegisterSegments(r, segs, h), q)
         == if NonEmpty(q) == NonEmpty(segs) then h else HandlerAt(r, q)
    decreases |segs| + |q|, 0
  {
    var r' := RegisterSegments(r, segs, h);
    var s := segs[0];
    RegisterStep(r, segs, h);
    NonEmptyCons(segs);
    if |q| == 0 {
    } else if q[0] == s {
      var child := GetOrCreateChild(r, s).1;
      var child' := RegisterSegments(child, segs[1..], h);
      NonEmptyCons(q);
      assert Find(r', q) == Find(child', q[1..]);
      assert HandlerAt(r', q) == HandlerAt(child', q[1..]);
      RegisterHandlerAt(child, segs[1..], h, q[1..]);
      assert NonEmpty(q) == NonEmpty(segs) <==> NonEmpty(q[1..]) == NonEmpty(segs[1..]) by {
        if NonEmpty(q) == NonEmpty(segs) {
          assert NonEmpty(q)[1..] == NonEmpty(q[1..]);
          assert NonEmpty(segs)[1..] == NonEmpty(segs[1..]);
        }
      }
      if Edge(r, s).None? {
        FreshHasNoHandler(q[1..]);
      } else {
        assert Find(r, q) == Find(child, q[1..]);
        assert HandlerAt(r, q) == HandlerAt(child, q[1..]);
      }
    } else {
      NonEmptyCons(q);
      assert NonEmpty(q)[0] != NonEmpty(segs)[0];
      assert Edge(r', q[0]) == Edge(r, q[0]);
      FindSameEdge(r', r, q);
      assert HandlerAt(r', q) == HandlerAt(r, q);
    }
  }

  /** `Register` decodes the pattern before walking it, so the patterns
      `/%2A` and `/%2a` register on the dynamic child, exactly like a
      pattern whose only segment is `*`. */
  lemma EscapedStarIsWildcard(root: Route, h: Option<HandlerId>, x: Byte)
    requires x == 'A' as int || x == 'a' as int
    ensures Register(root, [Slash, Percent, '2' as int, x], h) == Register(root, [Slash, Star], h)
  {
    var escaped: Bytes := [Percent, '2' as int, x];
    assert escaped[0] == Percent && IsHex(escaped[1]) && IsHex(escaped[2]);
    assert HexVal(escaped[1]) * 16 + HexVal(escaped[2]) == Star;
    assert escaped[3..] == [] && PathUnescape(escaped[3..]) == Ok([]);
    assert [Star] + [] == [Star];
    assert PathUnescape(escaped) == Ok([Star]);
    assert Wildcard[1..] == [];
    assert PathUnescape(Wildcard) == Ok(Wildcard);
    FromPathOnePiece(escaped);
    FromPathOnePiece(Wildcard);
    LeadingSlash(escaped);
    LeadingSlash(Wildcard);
    assert [Slash, Percent, '2' as int, x] == [Slash] + escaped;
    assert [Slash, Star] == [Slash] + Wildcard;
  }

  /** Registering keeps every node that already existed. */
  lemma {:induction false} RegisterKeepsNodes(r: Route, segs: seq<Bytes>, h: Option<HandlerId>, q: seq<Bytes>)
    requires Find(r, q).Some?
    ensures Find(RegisterSegments(r, segs, h), q).Some?
    decreases |segs| + |q|
  {
    var r' := RegisterSegments(r, segs, h);
    if |segs| > 0 && segs[0] == [] {
      assert r' == RegisterSegments(r, segs[1..], h);
      RegisterKeepsNodes(r, segs[1..], h, q);
    } else if |q| > 0 && q[0] == [] {
      SkipEmpty(r', q);
      SkipEmpty(r, q);
      RegisterKeepsNodes(r, segs, h, q[1..]);
    } else if |segs| == 0 {
      if |q| > 0 {
        assert Edge(r', q[0]) == Edge(r, q[0]);
        assert Find(r', q) == Find(r, q);
      }
    } else if |q| > 0 {
      var s := segs[0];
      var (r1, child) := GetOrCreateChild(r, s);
      var child' := RegisterSegments(child, segs[1..], h);
      assert r' == Attach(r1, s, child');
      if q[0] == s {
        assert Find(r', q) == Find(child', q[1..]);
        assert Find(r, q) == Find(child, q[1..]);
        RegisterKeepsNodes(child, segs[1..], h, q[1..]);
      } else {
        assert Edge(r', q[0]) == Edge(r, q[0]);
        assert Find(r', q) == Find(r, q);
      }
    }
  }

  lemma NewRouteValid()
    ensures Valid(NewRoute())
  {
  }

  /** Registration keeps the shape: in particular every node's TTL stays 0,
      since nothing ever assigns `cacheRules`. */
  lemma {:induction false} RegisterValid(r: Route, segs: seq<Bytes>, h: Option<HandlerId>)
    requires Valid(r)
    ensures Valid(RegisterSegments(r, segs, h))
    decreases |segs|
  {
    if |segs| > 0 {
      var s := segs[0];
      var (r1, child) := GetOrCreateChild(r, s);
      assert Valid(r1);
      assert Valid(child);
      RegisterValid(child, segs[1..], h);
      var child' := RegisterSegments(child, segs[1..], h);
      assert Valid(Attach(r1, s, child'));
    }
  }

  // ---------------------------------------------------------------------
  // lookup

  /** On a valid trie the request walk reaches every node a pattern names:
      a literal `*` segment has no static child and falls to the dynamic
      one. */
  lemma {:induction false} LookupReachesFind(r: Route, segs: seq<Bytes>)
    requires Valid(r)
    requires Find(r, segs).Some?
    ensures Lookup(r, segs) == Find(r, segs).value
    ensures Walk(r, segs) == Find(r, segs)
    decreases |segs|
  {
    if |segs| > 0 && segs[0] != [] {
      assert Candidate(r, segs[0]) == Edge(r, segs[0]);
      var c := Edge(r, segs[0]).value;
      assert Valid(c);
      LookupReachesFind(c, segs[1..]);
    } else if |segs| > 0 {
      LookupReachesFind(r, segs[1..]);
    }
  }

  /** After a successful `Register(pattern, h)` on a trie built by
      registrations, looking up the pattern's own segments reaches the node
      holding `h`. */
  lemma RegisterThenLookup(root: Route, pattern: Bytes, h: Option<HandlerId>)
    requires Valid(root)
    requires Register(root, pattern, h).1.None?
    ensures FromPath(pattern).Ok?
    ensures Lookup(Register(root, pattern, h).0, FromPath(pattern).value).handler == h
  {
    FromPathOkIffWellEscaped(pattern);
    var segs := FromPath(pattern).value;
    var r' := RegisterSegments(root, segs, h);
    RegisterHandlerAt(root, segs, h, segs);
    RegisterValid(root, segs, h);
    LookupReachesFind(r', segs);
  }

  /** A static child whose key equals the segment wins over the dynamic
      child; the dynamic child is used only when no key matches. */
  lemma LookupPrecedence(r: Route, segment: Bytes, rest: seq<Bytes>)
    requires segment != []
    ensures segment in r.staticChildren ==> Lookup(r, [segment] + rest) == Lookup(r.staticChildren[segment], rest)
    ensures segment !in r.staticChildren && r.dynamicChild.Some? ==> Lookup(r, [segment] + rest) == Lookup(r.dynamicChild.value, rest)
    ensures segment !in r.staticChildren && r.dynamicChild.None? ==> Lookup(r, [segment] + rest) == r
  {
    assert ([segment] + rest)[1..] == rest;
  }

  lemma {:induction false} WalkAppend(r: Route, a: seq<Bytes>, b: seq<Bytes>)
    ensures Walk(r, a + b) == match Walk(r, a) case None => None case Some(n) => Walk(n, b)
    decreases |a|
  {
    if |a| == 0 {
      assert a + b == b;
    } else {
      assert (a + b)[0] == a[0] && (a + b)[1..] == a[1..] + b;
      if a[0] == [] {
        WalkAppend(r, a[1..], b);
      } else if Candidate(r, a[0]).Some? {
        WalkAppend(Candidate(r, a[0]).value, a[1..], b);
      }
    }
  }

  /** `lookup` returns the deepest node reached: the first `k` segments walk
      strictly to it, and no longer prefix of the path walks at all. */
  lemma {:induction false} LookupIsDeepest(r: Route, path: seq<Bytes>) returns (k: nat)
    ensures k <= |path|
    ensures Walk(r, path[..k]) == Some(Lookup(r, path))
    ensures forall j :: k < j <= |path| ==> Walk(r, path[..j]) == None
    decreases |path|
  {
    if |path| == 0 {
      k := 0;
    } else if path[0] == [] || Candidate(r, path[0]).Some? {
      var next := if path[0] == [] then r else Candidate(r, path[0]).value;
      var k' := LookupIsDeepest(next, path[1..]);
      k := k' + 1;
      assert path[..k] == [path[0]] + path[1..][..k'];
      WalkAppend(r, [path[0]], path[1..][..k']);
      assert Walk(r, [path[0]]) == Some(next) by {
        assert [path[0]][1..] == path[..0];
      }
      forall j | k < j <= |path|
        ensures Walk(r, path[..j]) == None
      {
        assert path[..j] == [path[0]] + path[1..][..j - 1];
        WalkAppend(r, [path[0]], path[1..][..j - 1]);
      }
    } else {
      k := 0;
      forall j | 0 < j <= |path|
        ensures Walk(r, path[..j]) == None
      {
        assert path[..j][0] == path[0];
      }
    }
  }

  /** Every node of a trie built by registrations has TTL 0, so the node
      `lookup` returns does too. */
  lemma {:induction false} LookupValid(r: Route, path: seq<Bytes>)
    requires Valid(r)
    ensures Valid(Lookup(r, path))
    ensures Lookup(r, path).ttl == 0
    decreases |path|
  {
    if |path| > 0 {
      if path[0] == [] {
        LookupValid(r, path[1..]);
      } else if Candidate(r, path[0]).Some? {
        LookupValid(Candidate(r, path[0]).value, path[1..]);
      }
    }
  }
}
