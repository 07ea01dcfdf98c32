/** The path segmenter of cache.go: `fromPath` turns a raw escaped path into
    decoded segments, and `toCanonicalPath` turns segments back into the
    string that keys the cache. */
module Segments {
  import opened Base
  import opened Escape

  /** `strings.Split(s, "/")`: the pieces between separators, empty ones
      included; the empty string gives one empty piece. */
  function Split(s: Bytes): (r: seq<Bytes>)
    ensures |r| >= 1
  {
    if |s| == 0 then [[]] else Prepend(s[0], Split(s[1..]))
  }

  /** The pieces of `[c] + s` from those of `s`: a separator starts a new
      empty piece, any other byte extends the first piece. */
  function Prepend(c: Byte, pieces: seq<Bytes>): (r: seq<Bytes>)
    requires |pieces| >= 1
    ensures |r| >= 1
  {
    if c == Slash then [[]] + pieces else [[c] + pieces[0]] + pieces[1..]
  }

  /** `strings.Join(e, "/")`. */
  function Join(e: seq<Bytes>): Bytes
  {
    if |e| == 0 then [] else if |e| == 1 then e[0] else e[0] + [Slash] + Join(e[1..])
  }

  predicate NoEmpty(segs: seq<Bytes>)
  {
    forall k :: 0 <= k < |segs| ==> |segs[k]| > 0
  }

  /** The segments that are not empty, in order. */
  function NonEmpty(segs: seq<Bytes>): (r: seq<Bytes>)
    ensures NoEmpty(r)
    ensures NoEmpty(segs) ==> r == segs
  {
    if |segs| == 0 then []
    else if |segs[0]| == 0 then NonEmpty(segs[1..])
    else [segs[0]] + NonEmpty(segs[1..])
  }

  /** The first error of `a`, else the first error of `b`, else both values
      concatenated: how an early `return nil, err` in a loop composes. */
  function Combine(a: Result<seq<Bytes>, Bytes>, b: Result<seq<Bytes>, Bytes>): Result<seq<Bytes>, Bytes>
  {
    match a
    case Err(e) => Err(e)
    case Ok(u) =>
      match b
      case Err(e) => Err(e)
      case Ok(v) => Ok(u + v)
  }

  /** The loop of `fromPath` over the split pieces: empty pieces are skipped,
      the others unescaped, and the first escape error ends the loop. */
  function DecodePieces(pieces: seq<Bytes>): (r: Result<seq<Bytes>, Bytes>)
    ensures r.Ok? ==> NoEmpty(r.value) && |r.value| <= |pieces|
    ensures r.Err? ==> |r.error| >= 1 && r.error[0] == Percent
  {
    if |pieces| == 0 then Ok([])
    else if |pieces[0]| == 0 then DecodePieces(pieces[1..])
    else
      match PathUnescape(pieces[0])
      case Err(e) => Err(e)
      case Ok(elem) =>
        match DecodePieces(pieces[1..])
        case Err(e) => Err(e)
        case Ok(rest) => Ok([elem] + rest)
  }

  /** `fromPath` (cache.go): split on `/`, drop empty pieces, unescape each. */
  function FromPath(p: Bytes): (r: Result<seq<Bytes>, Bytes>)
    ensures r.Ok? ==> NoEmpty(r.value)
  {
    DecodePieces(Split(p))
  }

  /** The `sanitized` slice of `toCanonicalPath`: non-empty segments, escaped. */
  function Sanitize(segs: seq<Bytes>): (r: seq<Bytes>)
    ensures |r| == |NonEmpty(segs)|
    ensures NoEmpty(r)
    ensures forall k :: 0 <= k < |r| ==> Slash !in r[k]
  {
    if |segs| == 0 then []
    else if |segs[0]| == 0 then Sanitize(segs[1..])
    else
      EscapeHasNoSlash(segs[0]);
      [PathEscape(segs[0])] + Sanitize(segs[1..])
  }

  /** `toCanonicalPath` (cache.go): the cache key of a segment sequence. */
  function ToCanonicalPath(segs: seq<Bytes>): (r: Bytes)
    ensures |r| >= 1 && r[0] == Slash
    ensures NonEmpty(segs) == [] <==> r == [Slash]
  {
    [Slash] + Join(Sanitize(segs))
  }

  // ---------------------------------------------------------------------
  // Split and Join

  lemma {:induction false} SplitCons(c: Byte, s: Bytes)
    ensures Split([c] + s) == Prepend(c, Split(s))
  {
    assert ([c] + s)[0] == c;
    assert ([c] + s)[1..] == s;
  }

  /** Prepending a byte only touches the first pieces, so it commutes with
      appending more pieces. */
  lemma {:induction false} PrependAppend(c: Byte, y: seq<Bytes>, z: seq<Bytes>)
    requires |y| >= 1
    ensures Prepend(c, y + z) == Prepend(c, y) + z
  {
    if c == Slash {
      assert [[]] + (y + z) == ([[]] + y) + z;
    } else {
      assert (y + z)[0] == y[0];
      assert (y + z)[1..] == y[1..] + z;
      assert [[c] + y[0]] + (y[1..] + z) == ([[c] + y[0]] + y[1..]) + z;
    }
  }

  /** Splitting at a separator splits the two sides independently. */
  lemma {:induction false} SplitAround(a: Bytes, b: Bytes)
    ensures Split(a + [Slash] + b) == Split(a) + Split(b)
    decreases |a|
  {
    if |a| == 0 {
      assert a + [Slash] + b == [Slash] + b;
      SplitCons(Slash, b);
    } else {
      var c, a' := a[0], a[1..];
      assert a == [c] + a';
      assert a + [Slash] + b == [c] + (a' + [Slash] + b);
      SplitAround(a', b);
      SplitCons(c, a');
      SplitCons(c, a' + [Slash] + b);
      PrependAppend(c, Split(a'), Split(b));
    }
  }

  /** A piece without separators splits into itself. */
  lemma {:induction false} NoSlashSplit(s: Bytes)
    requires Slash !in s
    ensures Split(s) == [s]
    decreases |s|
  {
    if |s| > 0 {
      NoSlashSplit(s[1..]);
      assert s == [s[0]] + s[1..];
    }
  }

  /** Joining and splitting are inverse on pieces without separators. */
  lemma {:induction false} SplitJoin(e: seq<Bytes>)
    requires |e| >= 1
    requires forall k :: 0 <= k < |e| ==> Slash !in e[k]
    ensures Split(Join(e)) == e
    decreases |e|
  {
    NoSlashSplit(e[0]);
    if |e| > 1 {
      SplitAround(e[0], Join(e[1..]));
      SplitJoin(e[1..]);
      assert e == [e[0]] + e[1..];
    }
  }

  /** Splitting then joining gives back the original path. */
  lemma {:induction false} JoinSplit(s: Bytes)
    ensures Join(Split(s)) == s
    decreases |s|
  {
    if |s| > 0 {
      JoinSplit(s[1..]);
      JoinPrepend(s[0], Split(s[1..]));
      assert s == [s[0]] + s[1..];
    }
  }

  /** Joining undoes a prepended byte: it comes out in front. */
  lemma {:induction false} JoinPrepend(c: Byte, pieces: seq<Bytes>)
    requires |pieces| >= 1
    ensures Join(Prepend(c, pieces)) == [c] + Join(pieces)
  {
    if c == Slash {
      JoinCons([], pieces);
      assert [] + [Slash] + Join(pieces) == [Slash] + Join(pieces);
    } else {
      JoinExtendFirst([c], pieces);
    }
  }

  /** Joining after extending the first piece extends the joined path. */
  lemma {:induction false} JoinExtendFirst(x: Bytes, pieces: seq<Bytes>)
    requires |pieces| >= 1
    ensures Join([x + pieces[0]] + pieces[1..]) == x + Join(pieces)
  {
    if |pieces| > 1 {
      var p, rest := pieces[0], pieces[1..];
      var j := Join(rest);
      assert Join(pieces) == p + [Slash] + j by {
        assert pieces == [p] + rest;
        JoinCons(p, rest);
      }
      assert Join([x + p] + rest) == x + p + [Slash] + j by {
        JoinCons(x + p, rest);
      }
      SlashAssoc(x, p, j);
    }
  }

  lemma {:induction false} SlashAssoc(x: Bytes, p: Bytes, j: Bytes)
    ensures x + p + [Slash] + j == x + (p + [Slash] + j)
  {
  }

  lemma {:induction false} JoinCons(x: Bytes, rest: seq<Bytes>)
    requires |rest| >= 1
    ensures Join([x] + rest) == x + [Slash] + Join(rest)
  {
    assert ([x] + rest)[1..] == rest;
  }

  // ---------------------------------------------------------------------
  // fromPath

  lemma {:induction false} DecodePiecesAppend(x: seq<Bytes>, y: seq<Bytes>)
    ensures DecodePieces(x + y) == Combine(DecodePieces(x), DecodePieces(y))
    decreases |x|
  {
    if |x| == 0 {
      assert x + y == y;
      match DecodePieces(y)
      case Err(_) =>
      case Ok(v) => assert [] + v == v;
    } else {
      assert (x + y)[0] == x[0];
      assert (x + y)[1..] == x[1..] + y;
      DecodePiecesAppend(x[1..], y);
      match DecodePieces(x[1..])
      case Err(_) =>
      case Ok(u) =>
        match DecodePieces(y)
        case Err(_) =>
        case Ok(v) =>
          assert [x[0]] + u + v == [x[0]] + (u + v);
          if |x[0]| > 0 && PathUnescape(x[0]).Ok? {
            assert [PathUnescape(x[0]).value] + u + v == [PathUnescape(x[0]).value] + (u + v);
          }
    }
  }

  /** A separator composes the decodings of the two sides: the left side's
      error wins, then the right side's, else the segments concatenate. */
  lemma FromPathAround(a: Bytes, b: Bytes)
    ensures FromPath(a + [Slash] + b) == Combine(FromPath(a), FromPath(b))
  {
    SplitAround(a, b);
    DecodePiecesAppend(Split(a), Split(b));
  }

  /** A non-empty path without separators is one segment, decoded. */
  lemma FromPathOnePiece(p: Bytes)
    requires |p| > 0 && Slash !in p
    ensures FromPath(p) == match PathUnescape(p) case Err(e) => Err(e) case Ok(u) => Ok([u])
  {
    NoSlashSplit(p);
    assert [p][0] == p && [p][1..] == [];
    assert DecodePieces([p][1..]) == Ok([]);
    match PathUnescape(p)
    case Err(_) =>
    case Ok(u) => assert [u] + [] == [u];
  }

  /** A leading slash does not change the segments. */
  lemma LeadingSlash(b: Bytes)
    ensures FromPath([Slash] + b) == FromPath(b)
  {
    assert FromPath([]) == Ok([]);
    FromPathAround([], b);
    assert [] + [Slash] + b == [Slash] + b;
    if FromPath(b).Ok? {
      assert [] + FromPath(b).value == FromPath(b).value;
    }
  }

  /** A trailing slash does not change the segments. */
  lemma TrailingSlash(b: Bytes)
    ensures FromPath(b + [Slash]) == FromPath(b)
  {
    assert FromPath([]) == Ok([]);
    FromPathAround(b, []);
    assert b + [Slash] + [] == b + [Slash];
    if FromPath(b).Ok? {
      assert FromPath(b).value + [] == FromPath(b).value;
    }
  }

  /** A doubled slash splits the same way as a single one. */
  lemma RepeatedSlash(a: Bytes, b: Bytes)
    ensures FromPath(a + [Slash, Slash] + b) == FromPath(a + [Slash] + b)
  {
    var q := [Slash] + b;
    assert a + [Slash, Slash] + b == a + [Slash] + q;
    LeadingSlash(b);
    FromPathAround(a, q);
    FromPathAround(a, b);
  }

  /** A path made only of slashes, or the empty path, has no segments. */
  lemma {:induction false} AllSlashesIsRoot(p: Bytes)
    requires forall i :: 0 <= i < |p| ==> p[i] == Slash
    ensures FromPath(p) == Ok([])
    decreases |p|
  {
    if |p| == 0 {
    } else {
      AllSlashesIsRoot(p[1..]);
      LeadingSlash(p[1..]);
      assert p == [Slash] + p[1..];
    }
  }

  lemma {:induction false} WellEscapedAroundSlash(a: Bytes, b: Bytes)
    ensures WellEscaped(a + [Slash] + b) <==> WellEscaped(a) && WellEscaped(b)
  {
    var s := a + [Slash] + b;
    if WellEscaped(s) {
      forall i | 0 <= i < |a| && a[i] == Percent
        ensures i + 2 < |a| && IsHex(a[i + 1]) && IsHex(a[i + 2])
      {
        assert s[i] == Percent;
        assert s[|a|] == Slash && !IsHex(Slash);
        assert i + 1 != |a| && i + 2 != |a|;
        assert s[i + 1] == a[i + 1] && s[i + 2] == a[i + 2];
      }
      assert WellEscaped(a);
      WellEscapedAppend(a + [Slash], b);
      assert WellEscaped(b);
    }
    if WellEscaped(a) && WellEscaped(b) {
      WellEscapedAppend(a, [Slash]);
      WellEscapedAppend(a + [Slash], b);
    }
  }

  /** `fromPath` fails exactly when some `%` in the path is not followed by
      two hex digits. */
  lemma {:induction false} FromPathOkIffWellEscaped(p: Bytes)
    ensures FromPath(p).Ok? <==> WellEscaped(p)
    decreases |p|
  {
    if Slash !in p {
      NoSlashSplit(p);
      UnescapeOkIffWellEscaped(p);
      if |p| > 0 {
        assert DecodePieces([p])
            == match PathUnescape(p) case Err(e) => Err(e) case Ok(u) => Ok([u] + []);
      }
    } else {
      var i :| 0 <= i < |p| && p[i] == Slash;
      var a, b := p[..i], p[i + 1..];
      assert p == a + [Slash] + b;
      FromPathAround(a, b);
      FromPathOkIffWellEscaped(a);
      FromPathOkIffWellEscaped(b);
      WellEscapedAroundSlash(a, b);
    }
  }

  /** Without any `%`, the segments are the non-empty pieces unchanged. */
  lemma {:induction false} FromPathWithoutPercent(p: Bytes)
    requires Percent !in p
    ensures FromPath(p) == Ok(NonEmpty(Split(p)))
  {
    var pieces := Split(p);
    JoinSplit(p);
    PiecesWithoutPercent(pieces);
  }

  lemma {:induction false} PiecesWithoutPercent(pieces: seq<Bytes>)
    requires |pieces| >= 1
    requires Percent !in Join(pieces)
    ensures DecodePieces(pieces) == Ok(NonEmpty(pieces))
    decreases |pieces|
  {
    var j := Join(pieces);
    if |pieces| == 1 {
      assert j == pieces[0];
    } else {
      assert j == pieces[0] + ([Slash] + Join(pieces[1..]));
      assert Percent !in pieces[0];
      assert Percent !in Join(pieces[1..]);
      PiecesWithoutPercent(pieces[1..]);
    }
    if |pieces[0]| > 0 {
      UnescapeWithoutPercent(pieces[0]);
    }
    if |pieces| == 1 {
      assert DecodePieces(pieces[1..]) == Ok([]);
    }
  }

  // ---------------------------------------------------------------------
  // toCanonicalPath

  lemma {:induction false} DecodeSanitized(segs: seq<Bytes>)
    ensures DecodePieces(Sanitize(segs)) == Ok(NonEmpty(segs))
    decreases |segs|
  {
    if |segs| > 0 {
      DecodeSanitized(segs[1..]);
      if |segs[0]| > 0 {
        var e := Sanitize(segs);
        assert e[0] == PathEscape(segs[0]) && e[1..] == Sanitize(segs[1..]);
        UnescapeEscape(segs[0]);
      }
    }
  }

  /** Decoding a cache key gives back the non-empty segments it was built
      from. */
  lemma CanonicalRoundTrip(segs: seq<Bytes>)
    ensures FromPath(ToCanonicalPath(segs)) == Ok(NonEmpty(segs))
  {
    var e := Sanitize(segs);
    FromPathAround([], Join(e));
    assert [] + [Slash] + Join(e) == ToCanonicalPath(segs);
    assert FromPath([]) == Ok([]);
    if |e| == 0 {
      assert Join(e) == [];
    } else {
      SplitJoin(e);
    }
    DecodeSanitized(segs);
    assert [] + NonEmpty(segs) == NonEmpty(segs);
  }

  /** Empty segments never change the cache key. */
  lemma CanonicalIgnoresEmpty(segs: seq<Bytes>)
    ensures ToCanonicalPath(NonEmpty(segs)) == ToCanonicalPath(segs)
  {
    SanitizeNonEmpty(segs);
  }

  lemma {:induction false} SanitizeNonEmpty(segs: seq<Bytes>)
    ensures Sanitize(NonEmpty(segs)) == Sanitize(segs)
    decreases |segs|
  {
    if |segs| > 0 {
      SanitizeNonEmpty(segs[1..]);
      if |segs[0]| > 0 {
        var n := NonEmpty(segs);
        assert n[0] == segs[0] && n[1..] == NonEmpty(segs[1..]);
      }
    }
  }

  /** Distinct sequences of non-empty segments get distinct cache keys. */
  lemma CanonicalInjective(s1: seq<Bytes>, s2: seq<Bytes>)
    requires NoEmpty(s1) && NoEmpty(s2)
    requires ToCanonicalPath(s1) == ToCanonicalPath(s2)
    ensures s1 == s2
  {
    CanonicalRoundTrip(s1);
    CanonicalRoundTrip(s2);
  }

  /** A cache key is its own canonical form: decoding it and building the
      key again gives the same bytes. */
  lemma CanonicalIdempotent(segs: seq<Bytes>)
    ensures FromPath(ToCanonicalPath(segs)).Ok?
    ensures ToCanonicalPath(FromPath(ToCanonicalPath(segs)).value) == ToCanonicalPath(segs)
  {
    CanonicalRoundTrip(segs);
    CanonicalIgnoresEmpty(segs);
  }
}
