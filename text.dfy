/**
 * The string operations the quiz relies on, as Python defines them:
 * `str.strip()` without arguments, `str.split(sep)` with an explicit
 * separator, and `sep.join(xs)`, plus the parse idiom
 * `[p.strip() for p in raw.split(sep) if p.strip()]`.
 */
module Text {

  /** The code points for which Python's `str.isspace()` holds; these are
      what `str.strip()` removes. */
  predicate IsSpace(c: char) {
    var n := c as int;
    || 9 <= n <= 13 || 28 <= n <= 32 || n == 133 || n == 160 || n == 5760
    || 8192 <= n <= 8202 || n == 8232 || n == 8233 || n == 8239 || n == 8287 || n == 12288
  }

  predicate AllSpace(s: string) {
    forall k :: 0 <= k < |s| ==> IsSpace(s[k])
  }

  /** Neither starts nor ends with whitespace: a fixed point of `strip()`. */
  predicate IsTrimmed(s: string) {
    s == [] || (!IsSpace(s[0]) && !IsSpace(s[|s| - 1]))
  }

  /** `s.lstrip()`: the longest suffix of `s` that does not start with whitespace. */
  function TrimStart(s: string): (r: string)
    ensures |r| <= |s| && r == s[|s| - |r|..]
    ensures r == [] || !IsSpace(r[0])
    ensures AllSpace(s[..|s| - |r|])
  {
    if |s| > 0 && IsSpace(s[0]) then
      var t := s[1..];
      var r := TrimStart(t);
      assert t[|t| - |r|..] == s[|s| - |r|..];
      assert t[..|t| - |r|] == t[..|s| - |r| - 1];
      SpacePrefix(s, |s| - |r|);
      r
    else
      s
  }

  /** `s.rstrip()`: the longest prefix of `s` that does not end with whitespace. */
  function TrimEnd(s: string): (r: string)
    ensures |r| <= |s| && r == s[..|r|]
    ensures r == [] || !IsSpace(r[|r| - 1])
    ensures AllSpace(s[|r|..])
  {
    if |s| > 0 && IsSpace(s[|s| - 1]) then
      var r := TrimEnd(s[..|s| - 1]);
      SpaceSuffix(s, |r|);
      r
    else
      s
  }

  /** A whitespace character followed by whitespace is whitespace. */
  lemma SpacePrefix(s: string, n: nat)
    requires 1 <= n <= |s| && IsSpace(s[0]) && AllSpace(s[1..][..n - 1])
    ensures AllSpace(s[..n])
  {
    assert forall k :: 1 <= k < n ==> s[k] == s[1..][..n - 1][k - 1];
  }

  /** Whitespace followed by a whitespace character is whitespace. */
  lemma SpaceSuffix(s: string, n: nat)
    requires n < |s| && IsSpace(s[|s| - 1]) && AllSpace(s[..|s| - 1][n..])
    ensures AllSpace(s[n..])
  {
    assert forall k :: n <= k < |s| - 1 ==> s[k] == s[..|s| - 1][n..][k - n];
  }

  /** `s.strip()`. */
  function Strip(s: string): (r: string)
    ensures IsTrimmed(r)
    ensures forall c :: c in r ==> c in s
    ensures r == [] <==> AllSpace(s)
    ensures IsTrimmed(s) ==> r == s
    ensures exists i, j :: 0 <= i <= j <= |s| && r == s[i..j] && AllSpace(s[..i]) && AllSpace(s[j..])
  {
    StripOf(s);
    TrimEnd(TrimStart(s))
  }

  /** The trims' contracts, put together. */
  lemma StripOf(s: string)
    ensures var r := TrimEnd(TrimStart(s));
      && IsTrimmed(r)
      && (forall c :: c in r ==> c in s)
      && (r == [] <==> AllSpace(s))
      && (IsTrimmed(s) ==> r == s)
      && exists i, j :: 0 <= i <= j <= |s| && r == s[i..j] && AllSpace(s[..i]) && AllSpace(s[j..])
  {
    var t := TrimStart(s);
    var r := TrimEnd(t);
    assert |t| <= |s|;
    assert t == s[|s| - |t|..];
    assert t == [] || !IsSpace(t[0]);
    assert AllSpace(s[..|s| - |t|]);
    assert |r| <= |t|;
    assert r == t[..|r|];
    assert r == [] || !IsSpace(r[|r| - 1]);
    assert AllSpace(t[|r|..]);
    StripFacts(s, t, r);
  }

  /** `s[i..j]` is what `strip()` keeps: only whitespace lies outside it,
      and it neither starts nor ends with whitespace. */
  predicate StrippedAt(s: string, i: nat, j: nat) {
    && i <= j <= |s|
    && AllSpace(s[..i]) && AllSpace(s[j..])
    && (i < |s| ==> !IsSpace(s[i]))
    && (i < j ==> !IsSpace(s[j - 1]))
  }

  /** Trimming the start and then the end keeps such an infix. */
  lemma StripCut(s: string, t: string, r: string)
    requires |t| <= |s| && t == s[|s| - |t|..] && (t == [] || !IsSpace(t[0])) && AllSpace(s[..|s| - |t|])
    requires |r| <= |t| && r == t[..|r|] && (r == [] || !IsSpace(r[|r| - 1])) && AllSpace(t[|r|..])
    ensures StrippedAt(s, |s| - |t|, |s| - |t| + |r|)
    ensures r == s[|s| - |t|..|s| - |t| + |r|]
  {
    var i := |s| - |t|;
    assert s[i + |r|..] == t[|r|..];
  }

  /** What `strip()` keeps, from the contracts of the two trims. */
  lemma StripFacts(s: string, t: string, r: string)
    requires |t| <= |s|
    requires t == s[|s| - |t|..]
    requires t == [] || !IsSpace(t[0])
    requires AllSpace(s[..|s| - |t|])
    requires |r| <= |t|
    requires r == t[..|r|]
    requires r == [] || !IsSpace(r[|r| - 1])
    requires AllSpace(t[|r|..])
    ensures IsTrimmed(r)
    ensures forall c :: c in r ==> c in s
    ensures r == [] <==> AllSpace(s)
    ensures IsTrimmed(s) ==> r == s
    ensures exists i, j :: 0 <= i <= j <= |s| && r == s[i..j] && AllSpace(s[..i]) && AllSpace(s[j..])
  {
    StripCut(s, t, r);
    StrippedFacts(s, |s| - |t|, |s| - |t| + |r|, r);
  }

  lemma StrippedFacts(s: string, i: nat, j: nat, r: string)
    requires StrippedAt(s, i, j) && r == s[i..j]
    ensures IsTrimmed(r)
    ensures forall c :: c in r ==> c in s
    ensures r == [] <==> AllSpace(s)
    ensures IsTrimmed(s) ==> r == s
    ensures exists i, j :: 0 <= i <= j <= |s| && r == s[i..j] && AllSpace(s[..i]) && AllSpace(s[j..])
  {
    StrippedEmpty(s, i, j);
    StrippedWhole(s, i, j);
    forall c | c in r ensures c in s {
      var k :| 0 <= k < j - i && r[k] == c;
      assert s[i + k] == c;
    }
  }

  /** The first character of a non-empty all-whitespace prefix. */
  lemma SpaceFirst(s: string, i: nat)
    requires 0 < i <= |s| && AllSpace(s[..i])
    ensures IsSpace(s[0])
  {
    assert s[..i][0] == s[0];
  }

  /** The first character of a non-empty all-whitespace suffix, and the last. */
  lemma SpaceAtCut(s: string, j: nat)
    requires j < |s| && AllSpace(s[j..])
    ensures IsSpace(s[j]) && IsSpace(s[|s| - 1])
  {
    assert s[j..][0] == s[j];
    assert s[j..][|s| - j - 1] == s[|s| - 1];
  }

  /** Nothing is kept exactly when the text is all whitespace. */
  lemma StrippedEmpty(s: string, i: nat, j: nat)
    requires StrippedAt(s, i, j)
    ensures i == j <==> AllSpace(s)
  {
    if j < |s| {
      SpaceAtCut(s, j);
    }
    assert s[..|s|] == s;
  }

  /** Text that is already trimmed is kept whole. */
  lemma StrippedWhole(s: string, i: nat, j: nat)
    requires StrippedAt(s, i, j)
    ensures IsTrimmed(s) ==> i == 0 && j == |s|
  {
    if i > 0 {
      SpaceFirst(s, i);
    }
    if j < |s| {
      SpaceAtCut(s, j);
    }
  }

  /** Python's `s.split(sep)` for a non-empty separator: the pieces between
      the leftmost non-overlapping occurrences of `sep`. Never empty:
      `"".split(sep) == [""]`. */
  function Split(s: string, sep: string): (parts: seq<string>)
    requires sep != []
    ensures |parts| >= 1
    decreases |s|
  {
    if |s| < |sep| then [s]
    else if s[..|sep|] == sep then [""] + Split(s[|sep|..], sep)
    else
      var rest := Split(s[1..], sep);
      [[s[0]] + rest[0]] + rest[1..]
  }

  /** Python's `sep.join(xs)`. */
  function Join(xs: seq<string>, sep: string): string {
    if |xs| == 0 then ""
    else if |xs| == 1 then xs[0]
    else xs[0] + sep + Join(xs[1..], sep)
  }

  /** `[p.strip() for p in parts if p.strip()]`. */
  function Clean(parts: seq<string>): (r: seq<string>)
    ensures |r| <= |parts|
    ensures forall y :: y in r ==> y != [] && IsTrimmed(y)
  {
    if parts == [] then []
    else (if Strip(parts[0]) != [] then [Strip(parts[0])] else []) + Clean(parts[1..])
  }

  /** Every part stripped, in order. */
  function StripAll(parts: seq<string>): (r: seq<string>)
    ensures |r| == |parts|
    ensures forall k :: 0 <= k < |parts| ==> r[k] == Strip(parts[k])
  {
    seq(|parts|, k requires 0 <= k < |parts| => Strip(parts[k]))
  }

  /** The comprehension strips every part, then drops the empty results,
      keeping order and duplicates. */
  lemma {:induction false} CleanIsStripThenDrop(parts: seq<string>)
    ensures Clean(parts) == NonEmpty(StripAll(parts))
  {
    if parts != [] {
      CleanIsStripThenDrop(parts[1..]);
      assert StripAll(parts)[1..] == StripAll(parts[1..]);
    }
  }

  /** `[p.strip() for p in raw.split(sep) if p.strip()]`. */
  function SplitClean(raw: string, sep: string): seq<string>
    requires sep != []
  {
    Clean(Split(raw, sep))
  }

  /** The elements of `xs` that are not the empty string, in order. */
  function NonEmpty(xs: seq<string>): seq<string> {
    if xs == [] then []
    else (if xs[0] != [] then [xs[0]] else []) + NonEmpty(xs[1..])
  }

  // ---------------------------------------------------------------------
  // Split and Join are inverse to each other.

  /** Joining the pieces of a split gives back the original string, for every string. */
  lemma {:induction false} JoinSplit(s: string, sep: string)
    requires sep != []
    ensures Join(Split(s, sep), sep) == s
    decreases |s|
  {
    if |s| < |sep| {
    } else if s[..|sep|] == sep {
      JoinSplit(s[|sep|..], sep);
      JoinEmptyHead(Split(s[|sep|..], sep), sep);
      assert s == sep + s[|sep|..];
    } else {
      JoinSplit(s[1..], sep);
      JoinExtendHead(s[0], Split(s[1..], sep), sep);
      assert s == [s[0]] + s[1..];
    }
  }

  /** A leading empty piece contributes just a separator. */
  lemma JoinEmptyHead(rest: seq<string>, sep: string)
    requires |rest| >= 1
    ensures Join([""] + rest, sep) == sep + Join(rest, sep)
  {
    assert ([""] + rest)[1..] == rest;
  }

  /** A character put in front of the first piece comes first in the join. */
  lemma JoinExtendHead(c: char, rest: seq<string>, sep: string)
    requires |rest| >= 1
    ensures Join([[c] + rest[0]] + rest[1..], sep) == [c] + Join(rest, sep)
  {
    var parts := [[c] + rest[0]] + rest[1..];
    assert parts[1..] == rest[1..];
    if |rest| > 1 {
      assert Join(rest, sep) == rest[0] + sep + Join(rest[1..], sep);
    }
  }

  /** A string with no first character of the separator is one piece. */
  lemma {:induction false} SplitWithoutSep(x: string, sep: string)
    requires sep != [] && sep[0] !in x
    ensures Split(x, sep) == [x]
    decreases |x|
  {
    if |x| >= |sep| {
      assert x[..|sep|][0] == x[0] != sep[0];
      SplitWithoutSep(x[1..], sep);
      assert [x[0]] + x[1..] == x;
    }
  }

  /** A piece followed by the separator is split off as one whole piece. */
  lemma {:induction false} SplitPieceThenSep(x: string, sep: string, t: string)
    requires sep != [] && sep[0] !in x
    ensures Split(x + sep + t, sep) == [x] + Split(t, sep)
    decreases |x|
  {
    var s := x + sep + t;
    if x == [] {
      assert s == sep + t;
      assert s[..|sep|] == sep && s[|sep|..] == t;
    } else {
      assert s[..|sep|][0] == x[0] != sep[0];
      assert s[1..] == x[1..] + sep + t;
      SplitPieceThenSep(x[1..], sep, t);
      assert [x[0]] + x[1..] == x;
    }
  }

  /** Splitting a join gives back the pieces, provided no piece contains the
      separator's first character. */
  lemma {:induction false} SplitJoin(xs: seq<string>, sep: string)
    requires sep != [] && |xs| >= 1
    requires forall x :: x in xs ==> sep[0] !in x
    ensures Split(Join(xs, sep), sep) == xs
  {
    if |xs| == 1 {
      SplitWithoutSep(xs[0], sep);
    } else {
      SplitJoin(xs[1..], sep);
      SplitPieceThenSep(xs[0], sep, Join(xs[1..], sep));
      assert [xs[0]] + xs[1..] == xs;
    }
  }

  /** Splitting on a one-character separator leaves that character in no piece. */
  lemma {:induction false} SplitPiecesAvoidSep(s: string, sep: string)
    requires |sep| == 1
    ensures forall p :: p in Split(s, sep) ==> sep[0] !in p
    decreases |s|
  {
    if |s| < |sep| {
    } else if s[..|sep|] == sep {
      SplitPiecesAvoidSep(s[|sep|..], sep);
    } else {
      var rest := Split(s[1..], sep);
      SplitPiecesAvoidSep(s[1..], sep);
      assert s[..1] == [s[0]];
      assert forall p :: p in rest[1..] ==> p in rest;
    }
  }

  // ---------------------------------------------------------------------
  // What the clean-up comprehension keeps.

  /** On pieces that are already trimmed, cleaning only drops the empty ones. */
  lemma {:induction false} CleanTrimmed(parts: seq<string>)
    requires forall p :: p in parts ==> IsTrimmed(p)
    ensures Clean(parts) == NonEmpty(parts)
  {
    if parts != [] {
      CleanTrimmed(parts[1..]);
    }
  }

  /** A list with no empty element is its own non-empty part. */
  lemma {:induction false} NonEmptyAll(xs: seq<string>)
    requires forall x :: x in xs ==> x != []
    ensures NonEmpty(xs) == xs
  {
    if xs != [] {
      assert xs[0] in xs;
      assert forall x :: x in xs[1..] ==> x in xs;
      NonEmptyAll(xs[1..]);
      assert [xs[0]] + xs[1..] == xs;
    }
  }

  /** Cleaning never introduces a character that no piece had. */
  lemma {:induction false} CleanAvoids(parts: seq<string>, c: char)
    requires forall p :: p in parts ==> c !in p
    ensures forall y :: y in Clean(parts) ==> c !in y
  {
    if parts != [] {
      CleanAvoids(parts[1..], c);
    }
  }
}
