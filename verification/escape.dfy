/** Percent-encoding of a single path segment, as the cache uses it:
    `url.PathUnescape` when a request or pattern path is split, and
    `url.PathEscape` when a cache key is built. Both follow section 2.1 of
    RFC 3986 (a `%` must be followed by two hex digits) and the segment
    grammar of section 3.3 of RFC 3986 (`/`, `;`, `,` and `?` are escaped,
    as is every byte outside the unreserved set and `$ & + : = @`). */
module Escape {
  import opened Base

  predicate IsHex(c: Byte)
  {
    ('0' as int <= c <= '9' as int) || ('a' as int <= c <= 'f' as int) || ('A' as int <= c <= 'F' as int)
  }

  function HexVal(c: Byte): (v: nat)
    requires IsHex(c)
    ensures v < 16
  {
    if c <= '9' as int then c - '0' as int
    else if c <= 'F' as int then c - 'A' as int + 10
    else c - 'a' as int + 10
  }

  /** The upper-case hex digit `url.PathEscape` writes for a nibble. */
  function HexDigit(n: nat): (c: Byte)
    requires n < 16
    ensures IsHex(c) && HexVal(c) == n
    ensures c != Percent && c != Slash
  {
    if n < 10 then '0' as int + n else 'A' as int + (n - 10)
  }

  /** Bytes that `url.PathEscape` copies unchanged into a segment. */
  predicate Unreserved(c: Byte)
  {
    || ('a' as int <= c <= 'z' as int) || ('A' as int <= c <= 'Z' as int) || ('0' as int <= c <= '9' as int)
    || c == '-' as int || c == '_' as int || c == '.' as int || c == '~' as int
    || c == '$' as int || c == '&' as int || c == '+' as int || c == ':' as int
    || c == '=' as int || c == '@' as int
  }

  function EscapeByte(c: Byte): Bytes
  {
    if Unreserved(c) then [c] else [Percent, HexDigit(c / 16), HexDigit(c % 16)]
  }

  /** `url.PathEscape`: every byte outside the unreserved set becomes `%XX`. */
  function PathEscape(s: Bytes): (r: Bytes)
    ensures |r| >= |s|
    ensures WellEscaped(r)
  {
    if |s| == 0 then []
    else
      var head, tail := EscapeByte(s[0]), PathEscape(s[1..]);
      assert WellEscaped(head);
      WellEscapedAppend(head, tail);
      head + tail
  }

  /** Every `%` is followed by two hex digits. */
  predicate WellEscaped(s: Bytes)
  {
    forall i :: 0 <= i < |s| && s[i] == Percent ==> i + 2 < |s| && IsHex(s[i + 1]) && IsHex(s[i + 2])
  }

  function Min(a: int, b: int): int
  {
    if a < b then a else b
  }

  /** `url.PathUnescape`: decodes `%XX` triples left to right; the first `%`
      not followed by two hex digits is an error carrying that `%` and at
      most the two bytes after it. A `+` is kept, as in path mode. */
  function PathUnescape(s: Bytes): (r: Result<Bytes, Bytes>)
    ensures r.Ok? ==> |r.value| <= |s| && (|s| > 0 ==> |r.value| > 0)
    ensures r.Err? ==> 1 <= |r.error| <= 3 && r.error[0] == Percent
    decreases |s|
  {
    if |s| == 0 then Ok([])
    else if s[0] == Percent then
      if |s| < 3 || !IsHex(s[1]) || !IsHex(s[2]) then Err(s[..Min(3, |s|)])
      else
        match PathUnescape(s[3..])
        case Err(e) => Err(e)
        case Ok(t) => Ok([HexVal(s[1]) * 16 + HexVal(s[2])] + t)
    else
      match PathUnescape(s[1..])
      case Err(e) => Err(e)
      case Ok(t) => Ok([s[0]] + t)
  }

  /** A well-escaped prefix does not change whether the rest is well escaped. */
  lemma {:induction false} WellEscapedAppend(a: Bytes, b: Bytes)
    requires WellEscaped(a)
    ensures WellEscaped(a + b) <==> WellEscaped(b)
  {
    var s := a + b;
    if WellEscaped(s) {
      forall i | 0 <= i < |b| && b[i] == Percent
        ensures i + 2 < |b| && IsHex(b[i + 1]) && IsHex(b[i + 2])
      {
        assert s[|a| + i] == b[i];
        assert s[|a| + i + 1] == b[i + 1] && s[|a| + i + 2] == b[i + 2];
      }
    }
    if WellEscaped(b) {
      forall i | 0 <= i < |s| && s[i] == Percent
        ensures i + 2 < |s| && IsHex(s[i + 1]) && IsHex(s[i + 2])
      {
        if i < |a| {
          assert a[i] == Percent;
        } else {
          assert b[i - |a|] == Percent;
        }
      }
    }
  }

  /** Decoding succeeds exactly on well-escaped input. */
  lemma {:induction false} UnescapeOkIffWellEscaped(s: Bytes)
    ensures PathUnescape(s).Ok? <==> WellEscaped(s)
    decreases |s|
  {
    if |s| == 0 {
    } else if s[0] == Percent {
      if |s| < 3 || !IsHex(s[1]) || !IsHex(s[2]) {
        assert !(0 + 2 < |s| && IsHex(s[0 + 1]) && IsHex(s[0 + 2]));
      } else {
        UnescapeOkIffWellEscaped(s[3..]);
        assert WellEscaped(s[..3]);
        WellEscapedAppend(s[..3], s[3..]);
        assert s[..3] + s[3..] == s;
      }
    } else {
      UnescapeOkIffWellEscaped(s[1..]);
      assert WellEscaped(s[..1]);
      WellEscapedAppend(s[..1], s[1..]);
      assert s[..1] + s[1..] == s;
    }
  }

  /** Position `i` holds a `%` that is not followed by two hex digits. */
  predicate BadPercentAt(s: Bytes, i: nat)
    requires i < |s|
  {
    s[i] == Percent && !(i + 2 < |s| && IsHex(s[i + 1]) && IsHex(s[i + 2]))
  }

  /** A decoding error is the first `%` that is not followed by two hex
      digits, together with at most the two bytes after it. */
  lemma {:induction false} UnescapeErrorAt(s: Bytes)
    requires PathUnescape(s).Err?
    ensures exists i :: 0 <= i < |s| && BadPercentAt(s, i) && WellEscaped(s[..i])
                        && PathUnescape(s).error == s[i..Min(i + 3, |s|)]
    decreases |s|
  {
    assert |s| > 0;
    if BadPercentAt(s, 0) {
      assert WellEscaped(s[..0]);
      assert PathUnescape(s).error == s[0..Min(3, |s|)];
    } else {
      var n := UnescapeStep(s);
      var t := s[n..];
      UnescapeErrorAt(t);
      var j :| 0 <= j < |t| && BadPercentAt(t, j) && WellEscaped(t[..j])
               && PathUnescape(t).error == t[j..Min(j + 3, |t|)];
      ErrorShift(s, n, j);
      var i := n + j;
      assert 0 <= i < |s| && BadPercentAt(s, i) && WellEscaped(s[..i]);
    }
  }

  /** A first byte that is not a bad `%` is decoded on its own: the rest
      after it (one byte, or three for `%XX`) fails exactly as the whole
      does, with the same error. */
  lemma UnescapeStep(s: Bytes) returns (n: nat)
    requires |s| > 0 && !BadPercentAt(s, 0)
    ensures n == (if s[0] == Percent then 3 else 1)
    ensures n <= |s| && WellEscaped(s[..n])
    ensures PathUnescape(s).Err? <==> PathUnescape(s[n..]).Err?
    ensures PathUnescape(s).Err? ==> PathUnescape(s).error == PathUnescape(s[n..]).error
  {
    n := if s[0] == Percent then 3 else 1;
  }

  /** Moves a bad `%` found after a well-escaped prefix of length `n` to its
      position in the whole input. */
  lemma ErrorShift(s: Bytes, n: nat, j: nat)
    requires n <= |s| && j < |s| - n && WellEscaped(s[..n])
    requires BadPercentAt(s[n..], j) && WellEscaped(s[n..][..j])
    ensures BadPercentAt(s, n + j) && WellEscaped(s[..n + j])
    ensures s[n..][j..Min(j + 3, |s| - n)] == s[n + j..Min(n + j + 3, |s|)]
  {
    var t := s[n..];
    assert s[..n + j] == s[..n] + t[..j];
    WellEscapedAppend(s[..n], t[..j]);
    var m := Min(j + 3, |t|);
    assert Min(n + j + 3, |s|) == n + m;
    SliceOfSuffix(s, n, j, m);
    assert s[n + j] == t[j];
    if n + j + 2 < |s| {
      assert s[n + j + 1] == t[j + 1] && s[n + j + 2] == t[j + 2];
    }
  }

  lemma SliceOfSuffix(s: Bytes, n: nat, a: nat, b: nat)
    requires n <= |s| && a <= b <= |s| - n
    ensures s[n..][a..b] == s[n + a..n + b]
  {
  }

  /** A segment without `%` decodes to itself. */
  lemma {:induction false} UnescapeWithoutPercent(s: Bytes)
    requires Percent !in s
    ensures PathUnescape(s) == Ok(s)
    decreases |s|
  {
    if |s| > 0 {
      assert s[0] != Percent;
      UnescapeWithoutPercent(s[1..]);
      assert [s[0]] + s[1..] == s;
    }
  }

  /** Decoding one escaped byte in front of anything yields that byte in front
      of whatever the rest decodes to. */
  lemma UnescapeEscapeByte(c: Byte, t: Bytes)
    ensures PathUnescape(EscapeByte(c) + t)
         == match PathUnescape(t) case Err(e) => Err(e) case Ok(u) => Ok([c] + u)
  {
    var s := EscapeByte(c) + t;
    if Unreserved(c) {
      assert s[0] == c && s[1..] == t;
    } else {
      assert s[0] == Percent && s[1] == HexDigit(c / 16) && s[2] == HexDigit(c % 16);
      assert s[3..] == t;
    }
  }

  /** Escaping then unescaping a segment gives it back. */
  lemma {:induction false} UnescapeEscape(s: Bytes)
    ensures PathUnescape(PathEscape(s)) == Ok(s)
    decreases |s|
  {
    if |s| > 0 {
      UnescapeEscapeByte(s[0], PathEscape(s[1..]));
      UnescapeEscape(s[1..]);
      assert [s[0]] + s[1..] == s;
    }
  }

  /** An escaped segment never contains the path separator, so joining escaped
      segments with `/` can be split apart again. */
  lemma {:induction false} EscapeHasNoSlash(s: Bytes)
    ensures Slash !in PathEscape(s)
    decreases |s|
  {
    if |s| > 0 {
      EscapeHasNoSlash(s[1..]);
      assert Slash !in EscapeByte(s[0]);
    }
  }

  /** Distinct segments have distinct escapings. */
  lemma EscapeInjective(s: Bytes, t: Bytes)
    requires PathEscape(s) == PathEscape(t)
    ensures s == t
  {
    UnescapeEscape(s);
    UnescapeEscape(t);
  }
}
