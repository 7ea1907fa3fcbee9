/** The string operations the manifest logic relies on, over strings as
    sequences of Unicode scalars: the standard library's `split(separator:)`,
    and Foundation's `trimmingCharacters(in: .whitespaces)`,
    `replacingOccurrences(of:with:"")` and `URL.lastPathComponent`. */
module Text {
  import opened Wrappers

  /** Membership in `CharacterSet.whitespaces`: the character tabulation and
      the space separators of Unicode general category Zs. */
  predicate IsWhitespace(c: char) {
    || c == '\t' || c == ' ' || c == '\U{00A0}' || c == '\U{1680}'
    || ('\U{2000}' <= c <= '\U{200A}')
    || c == '\U{202F}' || c == '\U{205F}' || c == '\U{3000}'
  }

  // ---------------------------------------------------------------------
  // Splitting on a separator, empty pieces omitted
  // ---------------------------------------------------------------------

  /** The characters of `s` other than `sep`, in order. */
  function Without(s: string, sep: char): (r: string)
    ensures sep !in r
    ensures |r| <= |s|
  {
    if s == [] then []
    else (if s[0] == sep then [] else [s[0]]) + Without(s[1..], sep)
  }

  /** The pieces laid end to end. */
  function Concat(pieces: seq<string>): string {
    if pieces == [] then [] else pieces[0] + Concat(pieces[1..])
  }

  /** `s` without its leading separators. */
  function SkipSeparators(s: string, sep: char): (r: string)
    ensures |r| <= |s| && r == s[|s| - |r|..]
    ensures r == [] || r[0] != sep
    ensures Without(r, sep) == Without(s, sep)
  {
    if s != [] && s[0] == sep then SkipSeparators(s[1..], sep) else s
  }

  /** The longest prefix of `s` holding no separator. */
  function Token(s: string, sep: char): (w: string)
    ensures |w| <= |s| && w == s[..|w|]
    ensures sep !in w
    ensures |w| == |s| || s[|w|] == sep
  {
    if s == [] || s[0] == sep then [] else [s[0]] + Token(s[1..], sep)
  }

  /** `String.split(separator:)` with its default of omitting empty
      subsequences: the maximal runs of non-separator characters. */
  function Split(s: string, sep: char): (pieces: seq<string>)
    ensures forall k :: 0 <= k < |pieces| ==> |pieces[k]| > 0 && sep !in pieces[k]
    ensures Concat(pieces) == Without(s, sep)
    decreases |s|
  {
    var t := SkipSeparators(s, sep);
    if t == [] then
      assert Without(s, sep) == Without(t, sep) == [];
      []
    else
      var w := Token(t, sep);
      var rest := Split(t[|w|..], sep);
      SplitStepPieces(w, rest, sep);
      SplitStep(s, t, w, t[|w|..], rest, sep);
      [w] + rest
  }

  /** One step of `Split`: the token and the pieces after it are all
      non-empty and separator-free. */
  lemma SplitStepPieces(w: string, rest: seq<string>, sep: char)
    requires |w| > 0 && sep !in w
    requires forall k :: 0 <= k < |rest| ==> |rest[k]| > 0 && sep !in rest[k]
    ensures forall k :: 0 <= k < |[w] + rest| ==> |([w] + rest)[k]| > 0 && sep !in ([w] + rest)[k]
  {
  }

  /** One step of `Split`: the token and the pieces after it cover what the
      separators leave of `s`. */
  lemma SplitStep(s: string, t: string, w: string, u: string, rest: seq<string>, sep: char)
    requires Without(t, sep) == Without(s, sep)
    requires |w| <= |t| && w == t[..|w|] && u == t[|w|..] && sep !in w
    requires Concat(rest) == Without(u, sep)
    ensures Concat([w] + rest) == Without(s, sep)
  {
    assert t == w + u;
    WithoutAppend(w, u, sep);
    WithoutFree(w, sep);
    ConcatCons(w, rest);
  }

  lemma ConcatCons(w: string, rest: seq<string>)
    ensures Concat([w] + rest) == w + Concat(rest)
  {
    assert ([w] + rest)[1..] == rest;
  }

  lemma {:induction false} WithoutAppend(a: string, b: string, sep: char)
    ensures Without(a + b, sep) == Without(a, sep) + Without(b, sep)
  {
    if a != [] {
      var head := if a[0] == sep then [] else [a[0]];
      assert (a + b)[0] == a[0];
      assert (a + b)[1..] == a[1..] + b;
      WithoutAppend(a[1..], b, sep);
      calc {
        Without(a + b, sep);
        head + Without(a[1..] + b, sep);
        head + (Without(a[1..], sep) + Without(b, sep));
        (head + Without(a[1..], sep)) + Without(b, sep);
        Without(a, sep) + Without(b, sep);
      }
    } else {
      assert a + b == b;
    }
  }

  lemma {:induction false} WithoutFree(w: string, sep: char)
    requires sep !in w
    ensures Without(w, sep) == w
  {
    if w != [] {
      WithoutFree(w[1..], sep);
    }
  }

  /** Nothing is left once the separators are dropped exactly when every
      character is a separator. */
  lemma {:induction false} WithoutIsEmpty(s: string, sep: char)
    ensures Without(s, sep) == [] <==> forall k :: 0 <= k < |s| ==> s[k] == sep
  {
    if s != [] {
      WithoutIsEmpty(s[1..], sep);
      if s[0] == sep {
        forall k | 0 < k < |s| ensures s[k] == s[1..][k - 1] { }
      }
    }
  }

  /** A prefix free of separators and delimited by one is a whole token. */
  lemma {:induction false} TokenOfDelimited(h: string, tail: string, sep: char)
    requires sep !in h
    requires tail == [] || tail[0] == sep
    ensures Token(h + tail, sep) == h
  {
    if h != [] {
      assert (h + tail)[1..] == h[1..] + tail;
      TokenOfDelimited(h[1..], tail, sep);
    }
  }

  /** Splitting `h`, a separator, then `rest` yields `h` followed by the
      pieces of `rest`. */
  lemma SplitLeading(h: string, rest: string, sep: char)
    requires |h| > 0 && sep !in h
    ensures Split(h + [sep] + rest, sep) == [h] + Split(rest, sep)
  {
    var s := h + [sep] + rest;
    assert s[0] == h[0];
    assert SkipSeparators(s, sep) == s;
    assert s == h + ([sep] + rest);
    TokenOfDelimited(h, [sep] + rest, sep);
    assert s[|h|..] == [sep] + rest;
    assert ([sep] + rest)[1..] == rest;
    assert SkipSeparators([sep] + rest, sep) == SkipSeparators(rest, sep);
  }

  /** A leading separator is dropped, and nothing splits into no pieces;
      with `SplitLeading` and `SplitSingle` this fixes every piece. */
  lemma SplitDropsLeadingSeparator(s: string, sep: char)
    ensures Split([sep] + s, sep) == Split(s, sep)
    ensures Split([], sep) == []
  {
    assert ([sep] + s)[1..] == s;
    assert SkipSeparators([sep] + s, sep) == SkipSeparators(s, sep);
  }

  /** A non-empty string without separators is its own single piece. */
  lemma SplitSingle(s: string, sep: char)
    requires |s| > 0 && sep !in s
    ensures Split(s, sep) == [s]
  {
    assert SkipSeparators(s, sep) == s;
    TokenOfDelimited(s, [], sep);
    assert s + [] == s;
    assert s[|s|..] == [];
  }

  // ---------------------------------------------------------------------
  // Trimming whitespace at both ends
  // ---------------------------------------------------------------------

  function TrimStart(s: string): (r: string)
    ensures |r| <= |s| && r == s[|s| - |r|..]
    ensures forall k :: 0 <= k < |s| - |r| ==> IsWhitespace(s[k])
    ensures r == [] || !IsWhitespace(r[0])
  {
    if s != [] && IsWhitespace(s[0]) then TrimStart(s[1..]) else s
  }

  function TrimEnd(s: string): (r: string)
    ensures |r| <= |s| && r == s[..|r|]
    ensures forall k :: |r| <= k < |s| ==> IsWhitespace(s[k])
    ensures r == [] || !IsWhitespace(r[|r| - 1])
  {
    if s != [] && IsWhitespace(s[|s| - 1]) then TrimEnd(s[..|s| - 1]) else s
  }

  /** `s` is `r` with only whitespace before it (the first `i` characters)
      and after it. */
  predicate PaddedBy(s: string, i: int, r: string) {
    && 0 <= i <= |s| - |r| && r == s[i..i + |r|]
    && (forall k :: 0 <= k < i ==> IsWhitespace(s[k]))
    && (forall k :: i + |r| <= k < |s| ==> IsWhitespace(s[k]))
  }

  /** `trimmingCharacters(in: .whitespaces)`: the result is a slice of `s`
      with only whitespace cut off on either side, and it neither starts nor
      ends with whitespace. */
  function Trim(s: string): (r: string)
    ensures exists i :: PaddedBy(s, i, r)
    ensures r == [] || (!IsWhitespace(r[0]) && !IsWhitespace(r[|r| - 1]))
  {
    var t := TrimStart(s);
    var r := TrimEnd(t);
    TrimPadded(s, t, r);
    r
  }

  lemma TrimPadded(s: string, t: string, r: string)
    requires |t| <= |s| && t == s[|s| - |t|..]
    requires forall k :: 0 <= k < |s| - |t| ==> IsWhitespace(s[k])
    requires t == [] || !IsWhitespace(t[0])
    requires |r| <= |t| && r == t[..|r|]
    requires forall k :: |r| <= k < |t| ==> IsWhitespace(t[k])
    requires r == [] || !IsWhitespace(r[|r| - 1])
    ensures PaddedBy(s, |s| - |t|, r)
    ensures r == [] || (!IsWhitespace(r[0]) && !IsWhitespace(r[|r| - 1]))
  {
    var i := |s| - |t|;
    assert r == s[i..i + |r|];
    assert forall k :: i + |r| <= k < |s| ==> s[k] == t[k - i];
  }

  /** A string that neither starts nor ends with whitespace is its own
      trimming. */
  lemma TrimUnpadded(s: string)
    requires |s| > 0 && !IsWhitespace(s[0]) && !IsWhitespace(s[|s| - 1])
    ensures Trim(s) == s
  {
    assert TrimStart(s) == s;
    assert TrimEnd(s) == s;
  }

  // ---------------------------------------------------------------------
  // Removing every occurrence of a pattern
  // ---------------------------------------------------------------------

  predicate StartsWith(s: string, p: string) {
    |p| <= |s| && s[..|p|] == p
  }

  /** `p` occurs somewhere in `s`. */
  predicate Contains(s: string, p: string)
    decreases |s|
  {
    StartsWith(s, p) || (|s| > 0 && Contains(s[1..], p))
  }

  /** `replacingOccurrences(of: p, with: "")`: a single left-to-right scan
      that drops each occurrence of `p` it meets and does not look at the
      result again. An empty pattern leaves `s` as it is. */
  function RemoveAll(s: string, p: string): (r: string)
    ensures |r| <= |s|
    ensures forall c :: c in r ==> c in s
    ensures !Contains(s, p) ==> r == s
    decreases |s|
  {
    if |p| == 0 || |s| < |p| then s
    else if s[..|p|] == p then RemoveAll(s[|p|..], p)
    else [s[0]] + RemoveAll(s[1..], p)
  }

  /** No proper non-empty prefix of `p` is also a suffix of it, so two
      occurrences of `p` can never overlap. */
  predicate BorderFree(p: string) {
    forall k :: 0 < k < |p| ==> p[k..] != p[..|p| - k]
  }

  /** A leading occurrence is dropped. */
  lemma RemoveAllLeading(p: string, t: string)
    requires |p| > 0
    ensures RemoveAll(p + t, p) == RemoveAll(t, p)
  {
    assert (p + t)[..|p|] == p;
    assert (p + t)[|p|..] == t;
  }

  /** A character that does not start an occurrence is kept. */
  lemma RemoveAllKeeps(c: char, t: string, p: string)
    requires |p| > 0 && c != p[0]
    ensures RemoveAll([c] + t, p) == [c] + RemoveAll(t, p)
  {
    assert ([c] + t)[1..] == t;
    if |[c] + t| >= |p| {
      assert ([c] + t)[..|p|][0] == c;
    }
  }

  /** A prefix that holds no character starting `p` is kept as it is. */
  lemma {:induction false} RemoveAllKeepsPrefix(a: string, t: string, p: string)
    requires |p| > 0 && p[0] !in a
    ensures RemoveAll(a + t, p) == a + RemoveAll(t, p)
    decreases |a|
  {
    if a != [] {
      var u := a[1..];
      var rest := u + t;
      assert a + t == [a[0]] + rest;
      assert a[0] in a && p[0] !in u;
      RemoveAllKeeps(a[0], rest, p);
      RemoveAllKeepsPrefix(u, t, p);
      ConsChain(RemoveAll(a + t, p), RemoveAll(rest, p), a[0], u, RemoveAll(t, p), a, RemoveAll(t, p));
    } else {
      assert a + t == t && a + RemoveAll(t, p) == RemoveAll(t, p);
    }
  }

  /** A string shorter than `p` does not contain it. */
  lemma {:induction false} ShorterDoesNotContain(s: string, p: string)
    requires |s| < |p|
    ensures !Contains(s, p)
    decreases |s|
  {
    if s != [] {
      ShorterDoesNotContain(s[1..], p);
    }
  }

  /** A string lacking one of the characters of `p` does not contain `p`. */
  lemma {:induction false} MissingCharNotContained(s: string, p: string, c: char)
    requires c in p && c !in s
    ensures !Contains(s, p)
    decreases |s|
  {
    if |s| > 0 {
      MissingCharNotContained(s[1..], p, c);
    }
  }

  /** For a pattern that cannot overlap itself, a trailing occurrence is
      dropped and the scan of what precedes it is unaffected. */
  lemma {:induction false} RemoveAllTrailing(s: string, p: string)
    requires |p| > 0 && BorderFree(p)
    ensures RemoveAll(s + p, p) == RemoveAll(s, p)
    decreases |s|
  {
    if s == [] {
      assert s + p == p + [];
      RemoveAllLeading(p, []);
    } else if |s| >= |p| && s[..|p|] == p {
      assert (s + p)[..|p|] == p;
      assert (s + p)[|p|..] == s[|p|..] + p;
      RemoveAllTrailing(s[|p|..], p);
    } else {
      assert (s + p)[..|p|] != p by {
        if |s| >= |p| {
          assert (s + p)[..|p|] == s[..|p|];
        } else {
          var k := |s|;
          var q := (s + p)[..|p|];
          assert q == s + p[..|p| - k];
          assert q[k..] == p[..|p| - k];
          assert p[k..] != p[..|p| - k];
        }
      }
      assert (s + p)[1..] == s[1..] + p;
      RemoveAllTrailing(s[1..], p);
      if |s| < |p| {
        assert RemoveAll(s[1..], p) == s[1..];
        assert [s[0]] + s[1..] == s;
      }
    }
  }

  /** The position of the first occurrence of `p` in `s`. */
  function IndexOf(s: string, p: string): (r: Option<nat>)
    ensures r.Some? ==> r.value + |p| <= |s| && s[r.value..r.value + |p|] == p
    decreases |s|
  {
    if StartsWith(s, p) then Some(0)
    else if s == [] then None
    else match IndexOf(s[1..], p)
      case None => None
      case Some(i) => Some(i + 1)
  }

  /** The search finds nothing exactly when `p` does not occur. */
  lemma {:induction false} IndexOfNoneIffAbsent(s: string, p: string)
    ensures IndexOf(s, p).None? <==> !Contains(s, p)
    decreases |s|
  {
    if !StartsWith(s, p) && s != [] {
      IndexOfNoneIffAbsent(s[1..], p);
    }
  }

  /** The position the search finds is the first: no earlier position
      starts an occurrence. */
  lemma {:induction false} IndexOfIsFirst(s: string, p: string)
    ensures IndexOf(s, p).Some? ==>
      forall j :: 0 <= j < IndexOf(s, p).value ==> !StartsWith(s[j..], p)
    decreases |s|
  {
    if !StartsWith(s, p) && s != [] {
      IndexOfIsFirst(s[1..], p);
      if IndexOf(s, p).Some? {
        forall j | 0 <= j < IndexOf(s, p).value
          ensures !StartsWith(s[j..], p)
        {
          if j == 0 {
            assert s[j..] == s;
          } else {
            assert s[j..] == s[1..][j - 1..];
          }
        }
      }
    }
  }

  /** The scan drops the first occurrence of `p` and resumes after it:
      with `!Contains(s, p) ==> RemoveAll(s, p) == s` this fixes the result. */
  lemma RemoveAllAtFirst(s: string, p: string, i: nat)
    requires IndexOf(s, p) == Some(i)
    ensures i + |p| <= |s|
    ensures RemoveAll(s, p) == s[..i] + RemoveAll(s[i + |p|..], p)
  {
    var a, b := s[..i], s[i + |p|..];
    assert s == a + p + b;
    RemoveAllAroundFirst(a, p, b);
  }

  /** `RemoveAllAtFirst` with the string given by its pieces around the
      first occurrence. */
  lemma {:induction false} RemoveAllAroundFirst(a: string, p: string, b: string)
    requires IndexOf(a + p + b, p) == Some(|a|)
    ensures RemoveAll(a + p + b, p) == a + RemoveAll(b, p)
    decreases |a|
  {
    var s := a + p + b;
    if a == [] {
      assert s == p + b && s[..|p|] == p && s[|p|..] == b;
    } else {
      var t := a[1..] + p + b;
      AroundFirstTail(a, p, b);
      RemoveAllAroundFirst(a[1..], p, b);
      RemoveAllKeepsHead(s, p);
      ConsChain(RemoveAll(s, p), RemoveAll(t, p), a[0], a[1..], RemoveAll(b, p), a, RemoveAll(b, p));
    }
  }

  /** One step of `RemoveAllAroundFirst`: the string does not start with
      the pattern, and its tail has the occurrence one place earlier. */
  lemma AroundFirstTail(a: string, p: string, b: string)
    requires a != [] && IndexOf(a + p + b, p) == Some(|a|)
    ensures var s := a + p + b;
      && s != [] && !StartsWith(s, p) && s[0] == a[0]
      && s[1..] == a[1..] + p + b
      && IndexOf(a[1..] + p + b, p) == Some(|a| - 1)
  {
    var s := a + p + b;
    assert s[1..] == a[1..] + p + b;
  }

  lemma ConsChain(a: string, b: string, c: char, u: string, v: string, x: string, y: string)
    requires a == [c] + b && b == u + v && x == [c] + u && v == y
    ensures a == x + y
  {
  }

  /** A first character that starts no occurrence is kept. */
  lemma RemoveAllKeepsHead(s: string, p: string)
    requires s != [] && !StartsWith(s, p)
    ensures RemoveAll(s, p) == [s[0]] + RemoveAll(s[1..], p)
  {
    if |s| < |p| {
      assert RemoveAll(s[1..], p) == s[1..];
      assert [s[0]] + s[1..] == s;
    }
  }

  /** When `a` holds no `p` and `p` cannot overlap itself, the first
      occurrence of `p` in `a + p + b` is the one right after `a`. */
  lemma {:induction false} IndexOfAfter(a: string, p: string, b: string)
    requires |p| > 0 && BorderFree(p) && !Contains(a, p)
    ensures IndexOf(a + p + b, p) == Some(|a|)
    decreases |a|
  {
    var s := a + p + b;
    if a == [] {
      assert s[..|p|] == p;
    } else {
      assert !StartsWith(s, p) by {
        if |a| >= |p| {
          assert s[..|p|] == a[..|p|];
        } else {
          var k := |a|;
          var q := s[..|p|];
          assert q == a + p[..|p| - k];
          assert q[k..] == p[..|p| - k];
          assert p[k..] != p[..|p| - k];
        }
      }
      assert s[1..] == a[1..] + p + b;
      IndexOfAfter(a[1..], p, b);
    }
  }

  // ---------------------------------------------------------------------
  // Last path component
  // ---------------------------------------------------------------------

  function DropTrailingSlashes(s: string): (r: string)
    ensures |r| <= |s| && r == s[..|r|]
    ensures r == [] || r[|r| - 1] != '/'
  {
    if s != [] && s[|s| - 1] == '/' then DropTrailingSlashes(s[..|s| - 1]) else s
  }

  /** The characters after the last `/` of `s` (all of `s` when it has none). */
  function AfterLastSlash(s: string): (r: string)
    ensures '/' !in r
    ensures |r| <= |s| && r == s[|s| - |r|..]
  {
    if s == [] || s[|s| - 1] == '/' then []
    else AfterLastSlash(s[..|s| - 1]) + [s[|s| - 1]]
  }

  /** `lastPathComponent` of a URL path: trailing slashes are ignored, a
      path made only of slashes gives "/", the empty path gives "". */
  function LastPathComponent(path: string): (c: string)
    ensures c == "/" || '/' !in c
    ensures c == [] <==> path == []
  {
    var t := DropTrailingSlashes(path);
    if t == [] then (if path == [] then "" else "/")
    else AfterLastSlash(t)
  }

  /** A trailing slash does not change the last path component of a
      non-empty path ("/org/Foo/" has the component "Foo"). */
  lemma LastPathComponentIgnoresTrailingSlash(path: string)
    requires |path| > 0
    ensures LastPathComponent(path + "/") == LastPathComponent(path)
  {
    assert (path + "/")[..|path|] == path;
    assert DropTrailingSlashes(path + "/") == DropTrailingSlashes(path);
  }

  lemma {:induction false} AfterLastSlashOf(a: string, c: string)
    requires '/' !in c
    ensures AfterLastSlash(a + "/" + c) == c
    decreases |c|
  {
    if c == [] {
      AfterLastSlashOfSlash(a);
    } else {
      var p, last := c[..|c| - 1], c[|c| - 1];
      assert last in c;
      AfterLastSlashOf(a, p);
      assert a + "/" + c == (a + "/" + p) + [last];
      AfterLastSlashSnoc(a + "/" + p, last);
      assert p + [last] == c;
    }
  }

  lemma AfterLastSlashOfSlash(s: string)
    ensures AfterLastSlash(s + "/") == []
  {
    assert (s + "/")[|s|] == '/';
  }

  lemma AfterLastSlashSnoc(s: string, c: char)
    requires c != '/'
    ensures AfterLastSlash(s + [c]) == AfterLastSlash(s) + [c]
  {
    assert (s + [c])[..|s|] == s;
  }

  /** A path without slashes is its own last path component. */
  lemma LastPathComponentOfSegment(path: string)
    requires path != [] && '/' !in path
    ensures LastPathComponent(path) == path
  {
    assert path[|path| - 1] in path;
    AfterLastSlashOfFree(path);
  }

  lemma {:induction false} AfterLastSlashOfFree(s: string)
    requires '/' !in s
    ensures AfterLastSlash(s) == s
    decreases |s|
  {
    if s != [] {
      assert s[|s| - 1] in s;
      var init := s[..|s| - 1];
      assert forall c :: c in init ==> c in s;
      AfterLastSlashOfFree(init);
      assert init + [s[|s| - 1]] == s;
    }
  }

  /** A non-empty path made only of slashes has the component "/". */
  lemma LastPathComponentOfSlashes(path: string)
    requires path != [] && forall k :: 0 <= k < |path| ==> path[k] == '/'
    ensures LastPathComponent(path) == "/"
  {
    DropTrailingSlashesOfSlashes(path);
  }

  lemma {:induction false} DropTrailingSlashesOfSlashes(s: string)
    requires forall k :: 0 <= k < |s| ==> s[k] == '/'
    ensures DropTrailingSlashes(s) == []
    decreases |s|
  {
    if s != [] {
      DropTrailingSlashesOfSlashes(s[..|s| - 1]);
    }
  }

  /** The segment after the last slash of a path that does not end in a
      slash is its last path component. */
  lemma LastPathComponentOf(prefix: string, segment: string)
    requires |segment| > 0 && '/' !in segment
    ensures LastPathComponent(prefix + "/" + segment) == segment
  {
    var path := prefix + "/" + segment;
    assert path[|path| - 1] == segment[|segment| - 1];
    assert segment[|segment| - 1] in segment;
    assert DropTrailingSlashes(path) == path;
    AfterLastSlashOf(prefix, segment);
  }
}
