/**
 * The Python string operations that `extract_answer` is built on, over
 * `string` (Dafny's seq<char>): looking for a literal pattern and
 * `str.replace`.
 *
 * `Split` and `Join` are not called by the program. They are an independent
 * reference definition of `str.replace`, taken from the identity
 * `s.replace(a, b) == b.join(s.split(a))`. Through them the lemmas below say
 * what replacement does: the text between the occurrences of the pattern is
 * kept verbatim, and only the occurrences change.
 */
module Strings {
  import opened Options

  /** `p` occurs in `s` starting at index `i`. */
  predicate OccursAt(s: string, p: string, i: int) {
    0 <= i && i + |p| <= |s| && s[i..i + |p|] == p
  }

  /** Python's `p in s`. */
  predicate Contains(s: string, p: string) {
    exists i :: 0 <= i <= |s| - |p| && OccursAt(s, p, i)
  }

  /** Index of the leftmost occurrence of `p` in `s` at or after `k`: Python's
      `s.find(p, k)`, with None for -1. */
  function FindFrom(s: string, p: string, k: nat): (r: Option<nat>)
    decreases |s| - k
  {
    if |s| < k + |p| then None
    else if s[k..k + |p|] == p then Some(k)
    else FindFrom(s, p, k + 1)
  }

  /** Python's `s.find(p)`: the search from the start of `s`. What the result
      means is stated by `FirstIndexSpec`. */
  function FirstIndex(s: string, p: string): (r: Option<nat>) {
    FindFrom(s, p, 0)
  }

  /** `FindFrom` finds the leftmost occurrence at or after `k`, and finds none
      exactly when there is none there. */
  lemma {:induction false} FindFromSpec(s: string, p: string, k: nat)
    ensures FindFrom(s, p, k).Some? ==> k <= FindFrom(s, p, k).value && OccursAt(s, p, FindFrom(s, p, k).value)
    ensures FindFrom(s, p, k).Some? ==> forall j :: k <= j < FindFrom(s, p, k).value ==> !OccursAt(s, p, j)
    ensures FindFrom(s, p, k).None? ==> forall j :: k <= j ==> !OccursAt(s, p, j)
    decreases |s| - k
  {
    if |s| < k + |p| {
    } else if s[k..k + |p|] == p {
    } else {
      FindFromSpec(s, p, k + 1);
    }
  }

  /** `FirstIndex` finds the leftmost occurrence, and finds none exactly when
      there is none. */
  lemma FirstIndexSpec(s: string, p: string)
    ensures FirstIndex(s, p).Some? ==> OccursAt(s, p, FirstIndex(s, p).value)
    ensures FirstIndex(s, p).Some? ==> forall j :: 0 <= j < FirstIndex(s, p).value ==> !OccursAt(s, p, j)
    ensures FirstIndex(s, p).None? <==> !Contains(s, p)
  {
    FindFromSpec(s, p, 0);
  }

  /** An occurrence that `FindFrom` finds lies inside `s`. */
  lemma {:induction false} FindFromBound(s: string, p: string, k: nat)
    ensures FindFrom(s, p, k).Some? ==> FindFrom(s, p, k).value + |p| <= |s|
    decreases |s| - k
  {
    if |s| >= k + |p| && s[k..k + |p|] != p {
      FindFromBound(s, p, k + 1);
    }
  }

  /** Python's `s.replace(target, replacement)`: the occurrences of `target`,
      found from left to right without overlapping, are replaced by `replacement`. */
  function Replace(s: string, target: string, replacement: string): (r: string)
    requires |target| > 0
    decreases |s|
  {
    if |s| < |target| then s
    else if s[..|target|] == target then
      replacement + Replace(s[|target|..], target, replacement)
    else
      [s[0]] + Replace(s[1..], target, replacement)
  }

  /** A text with no occurrence of the target comes back unchanged. */
  lemma {:induction false} ReplaceWithoutTarget(s: string, target: string, replacement: string)
    requires |target| > 0
    requires !Contains(s, target)
    ensures Replace(s, target, replacement) == s
    decreases |s|
  {
    if |s| >= |target| {
      assert !OccursAt(s, target, 0);
      ContainsInTail(s, target);
      ReplaceWithoutTarget(s[1..], target, replacement);
      assert s == [s[0]] + s[1..];
    }
  }

  /** Python's `s.split(sep)`: the pieces of `s` between the occurrences of `sep`,
      found from left to right. */
  function Split(s: string, sep: string): (parts: seq<string>)
    requires |sep| > 0
    ensures |parts| >= 1
    decreases |s|
  {
    match FirstIndex(s, sep)
    case None => [s]
    case Some(i) =>
      FindFromBound(s, sep, 0);
      [s[..i]] + Split(s[i + |sep|..], sep)
  }

  /** Python's `sep.join(parts)`. */
  function Join(parts: seq<string>, sep: string): (r: string)
    requires |parts| >= 1
  {
    if |parts| == 1 then parts[0] else parts[0] + sep + Join(parts[1..], sep)
  }

  // ---------------------------------------------------------------------------
  // Occurrences in slices

  lemma OccursInSuffix(s: string, p: string, a: int, i: int)
    requires 0 <= a <= |s| && 0 <= i
    ensures OccursAt(s[a..], p, i) <==> OccursAt(s, p, a + i)
  {
    if i + |p| <= |s| - a {
      assert s[a..][i..i + |p|] == s[a + i..a + i + |p|];
    }
  }

  lemma OccursInSuffixAll(s: string, p: string, a: int)
    requires 0 <= a <= |s|
    ensures forall j :: a <= j ==> (OccursAt(s, p, j) <==> OccursAt(s[a..], p, j - a))
  {
    forall j | a <= j
      ensures OccursAt(s, p, j) <==> OccursAt(s[a..], p, j - a)
    {
      OccursInSuffix(s, p, a, j - a);
    }
  }

  lemma OccursInPrefix(s: string, p: string, b: int, i: int)
    requires 0 <= b <= |s|
    ensures OccursAt(s[..b], p, i) <==> (OccursAt(s, p, i) && i + |p| <= b)
  {
    if 0 <= i && i + |p| <= b {
      assert s[..b][i..i + |p|] == s[i..i + |p|];
    }
  }

  /** A pattern found in a piece of `s` is found in `s`. */
  lemma ContainsSlice(s: string, p: string, a: int, b: int)
    requires 0 <= a <= b <= |s|
    requires Contains(s[a..b], p)
    ensures Contains(s, p)
  {
    var i :| OccursAt(s[a..b], p, i);
    assert s[a..b] == s[a..][..b - a];
    OccursInPrefix(s[a..], p, b - a, i);
    OccursInSuffix(s, p, a, i);
  }

  lemma ContainsInTail(s: string, p: string)
    requires |s| >= 1
    ensures Contains(s[1..], p) ==> Contains(s, p)
  {
    if Contains(s[1..], p) {
      assert s[1..|s|] == s[1..];
      ContainsSlice(s, p, 1, |s|);
    }
  }

  /** Nothing before the first occurrence of `p` contains `p`. */
  lemma FreeBeforeFirst(s: string, p: string, i: int)
    requires 0 <= i <= |s| && |p| > 0
    requires forall j :: 0 <= j < i ==> !OccursAt(s, p, j)
    ensures !Contains(s[..i], p)
  {
    forall j
      ensures !OccursAt(s[..i], p, j)
    {
      OccursInPrefix(s, p, i, j);
    }
  }

  /** A text that lacks one of the characters of `p` does not contain `p`. */
  lemma MissingChar(s: string, p: string, k: int)
    requires 0 <= k < |p|
    requires forall m :: 0 <= m < |s| ==> s[m] != p[k]
    ensures !Contains(s, p)
  {
    forall i
      ensures !OccursAt(s, p, i)
    {
      if OccursAt(s, p, i) {
        CharOfOccurrence(s, p, i, k);
        assert false;
      }
    }
  }

  lemma CharOfOccurrence(s: string, p: string, i: int, k: int)
    requires OccursAt(s, p, i) && 0 <= k < |p|
    ensures s[i + k] == p[k]
  {
    assert s[i..i + |p|][k] == s[i + k];
  }

  /** The leftmost occurrence is determined by the two properties FirstIndex promises. */
  lemma FirstIndexIs(s: string, p: string, i: int)
    requires OccursAt(s, p, i)
    requires forall j :: 0 <= j < i ==> !OccursAt(s, p, j)
    ensures FirstIndex(s, p) == Some(i)
  {
    FirstIndexSpec(s, p);
    if FirstIndex(s, p).Some? {
      var k := FirstIndex(s, p).value;
      assert !(k < i) && !(i < k);
    }
  }

  // ---------------------------------------------------------------------------
  // Replacement against its reference definition

  /** Splitting on `sep` and joining the pieces again with `sep` gives back the
      text: the pieces and the occurrences between them make up all of `s`. */
  lemma {:induction false} SplitJoin(s: string, sep: string)
    requires |sep| > 0
    ensures Join(Split(s, sep), sep) == s
    decreases |s|
  {
    match FirstIndex(s, sep)
    case None =>
    case Some(i) =>
      FirstIndexSpec(s, sep);
      var rest := s[i + |sep|..];
      SplitJoin(rest, sep);
      JoinSplitAt(s, sep, sep, i);
      assert s == s[..i] + s[i..i + |sep|] + rest;
  }

  /** Joining the pieces of a split on its first occurrence at `i`. */
  lemma JoinSplitAt(s: string, sep: string, glue: string, i: nat)
    requires |sep| > 0
    requires FirstIndex(s, sep) == Some(i) && i + |sep| <= |s|
    ensures Join(Split(s, sep), glue) == s[..i] + (glue + Join(Split(s[i + |sep|..], sep), glue))
  {
    var rest := s[i + |sep|..];
    SplitAt(s, sep, i);
    JoinCons(s[..i], Split(rest, sep), glue);
  }

  lemma SplitAt(s: string, sep: string, i: nat)
    requires |sep| > 0
    requires FirstIndex(s, sep) == Some(i) && i + |sep| <= |s|
    ensures Split(s, sep) == [s[..i]] + Split(s[i + |sep|..], sep)
  {
  }

  lemma JoinCons(x: string, parts: seq<string>, glue: string)
    requires |parts| >= 1
    ensures Join([x] + parts, glue) == x + (glue + Join(parts, glue))
  {
    assert ([x] + parts)[1..] == parts;
  }

  /** `s.replace(target, replacement) == replacement.join(s.split(target))`:
      replacement keeps every piece between two occurrences of `target` as it
      was and puts `replacement` where each occurrence stood. */
  lemma {:induction false} ReplaceIsJoinOfSplit(s: string, target: string, replacement: string)
    requires |target| > 0
    ensures Replace(s, target, replacement) == Join(Split(s, target), replacement)
    decreases |s|
  {
    if |s| < |target| {
    } else if s[..|target|] == target {
      ReplaceIsJoinOfSplit(s[|target|..], target, replacement);
      FirstIndexIs(s, target, 0);
      JoinSplitAt(s, target, replacement, 0);
    } else {
      ReplaceIsJoinOfSplit(s[1..], target, replacement);
      JoinSplitShift(s, target, replacement);
    }
  }

  /** When `s` does not start with `sep`, its split-and-join is its first
      character followed by that of the rest. */
  lemma JoinSplitShift(s: string, sep: string, glue: string)
    requires |sep| > 0 && |s| >= |sep| && s[..|sep|] != sep
    ensures Join(Split(s, sep), glue) == [s[0]] + Join(Split(s[1..], sep), glue)
  {
    var tail := s[1..];
    match FirstIndex(tail, sep)
    case None =>
      FirstIndexShift(s, sep);
      assert Split(s, sep) == [s];
      assert Split(tail, sep) == [tail];
      assert s == [s[0]] + tail;
    case Some(i) =>
      FirstIndexSpec(tail, sep);
      JoinSplitShiftAt(s, sep, glue, i);
  }

  lemma JoinSplitShiftAt(s: string, sep: string, glue: string, i: nat)
    requires |sep| > 0 && |s| >= |sep| && s[..|sep|] != sep
    requires FirstIndex(s[1..], sep) == Some(i) && i + |sep| <= |s| - 1
    ensures Join(Split(s, sep), glue) == [s[0]] + Join(Split(s[1..], sep), glue)
  {
    var y := glue + Join(Split(s[i + 1 + |sep|..], sep), glue);
    JoinSplitOfTail(s, sep, glue, i);
    JoinSplitPastFirst(s, sep, glue, i);
    PrependFirst(s, i + 1, y);
  }

  lemma JoinSplitOfTail(s: string, sep: string, glue: string, i: nat)
    requires |sep| > 0 && |s| >= 1
    requires FirstIndex(s[1..], sep) == Some(i) && i + |sep| <= |s| - 1
    ensures Join(Split(s[1..], sep), glue)
      == s[1..][..i] + (glue + Join(Split(s[i + 1 + |sep|..], sep), glue))
  {
    assert s[1..][i + |sep|..] == s[i + 1 + |sep|..];
    JoinSplitAt(s[1..], sep, glue, i);
  }

  lemma JoinSplitPastFirst(s: string, sep: string, glue: string, i: nat)
    requires |sep| > 0 && |s| >= |sep| && s[..|sep|] != sep
    requires FirstIndex(s[1..], sep) == Some(i) && i + |sep| <= |s| - 1
    ensures Join(Split(s, sep), glue)
      == s[..i + 1] + (glue + Join(Split(s[i + 1 + |sep|..], sep), glue))
  {
    FirstIndexShift(s, sep);
    JoinSplitAt(s, sep, glue, i + 1);
  }

  lemma PrependFirst(s: string, n: nat, y: string)
    requires 1 <= n <= |s|
    ensures s[..n] + y == [s[0]] + (s[1..][..n - 1] + y)
  {
    assert s[..n] == [s[0]] + s[1..][..n - 1];
  }

  /** When `s` does not start with `p`, its first occurrence is one past that of
      its tail. */
  lemma FirstIndexShift(s: string, p: string)
    requires |s| >= |p| && s[..|p|] != p
    ensures FirstIndex(s[1..], p).None? ==> FirstIndex(s, p).None?
    ensures FirstIndex(s[1..], p).Some? ==> FirstIndex(s, p) == Some(FirstIndex(s[1..], p).value + 1)
  {
    var tail := s[1..];
    FirstIndexSpec(tail, p);
    OccursInSuffixAll(s, p, 1);
    assert !OccursAt(s, p, 0);
    match FirstIndex(tail, p)
    case None =>
      FirstIndexSpec(s, p);
    case Some(i) =>
      FirstIndexIs(s, p, i + 1);
  }

  /** No piece of a split holds the separator: each one ends at the next
      occurrence, or at the end of the text. */
  lemma {:induction false} SplitPiecesLackSeparator(s: string, sep: string)
    requires |sep| > 0
    ensures forall k :: 0 <= k < |Split(s, sep)| ==> !Contains(Split(s, sep)[k], sep)
    decreases |s|
  {
    FirstIndexSpec(s, sep);
    match FirstIndex(s, sep)
    case None =>
    case Some(i) =>
      FreeBeforeFirst(s, sep, i);
      SplitPiecesLackSeparator(s[i + |sep|..], sep);
  }

  /** The pieces of a split are pieces of the text, so they contain no pattern
      the text does not contain. */
  lemma {:induction false} SplitPiecesFree(s: string, sep: string, p: string)
    requires |sep| > 0
    requires !Contains(s, p)
    ensures forall k :: 0 <= k < |Split(s, sep)| ==> !Contains(Split(s, sep)[k], p)
    decreases |s|
  {
    match FirstIndex(s, sep)
    case None =>
    case Some(i) =>
      FirstIndexSpec(s, sep);
      var rest := s[i + |sep|..];
      if Contains(s[..i], p) {
        ContainsSlice(s, p, 0, i);
      }
      if Contains(rest, p) {
        assert s[i + |sep|..|s|] == rest;
        ContainsSlice(s, p, i + |sep|, |s|);
      }
      SplitPiecesFree(rest, sep, p);
  }

  // ---------------------------------------------------------------------------
  // Occurrences across a boundary

  /** The first character of `p` occurs nowhere else in `p`. */
  predicate FirstCharUnique(p: string) {
    |p| >= 1 && forall k :: 1 <= k < |p| ==> p[k] != p[0]
  }

  /** No occurrence of `p` can start inside `t`, or run from outside into `t`:
      `t` begins with the first character of `p` (which `p` has only there), does
      not end with it, and never holds the second character of `p`. For example
      `<|end|>` against `</s>` or `<gpt>`. */
  predicate Separable(p: string, t: string) {
    |p| >= 2 && FirstCharUnique(p)
    && |t| >= 1 && t[0] == p[0] && t[|t| - 1] != p[0]
    && forall k :: 0 <= k < |t| ==> t[k] != p[1]
  }

  /** When `y` begins with the first character of `p`, and `p` has that character
      only at its start, every occurrence of `p` in `x + y` lies inside `x` or
      inside `y`. */
  lemma OccurrenceInConcat(x: string, y: string, p: string, i: int)
    requires FirstCharUnique(p) && |y| >= 1 && y[0] == p[0]
    requires OccursAt(x + y, p, i)
    ensures (i + |p| <= |x| && OccursAt(x, p, i)) || (|x| <= i && OccursAt(y, p, i - |x|))
  {
    var w := x + y;
    if i + |p| <= |x| {
      assert w[i..i + |p|] == x[i..i + |p|];
    } else if |x| <= i {
      assert w[i..i + |p|] == y[i - |x|..i - |x| + |p|];
    } else {
      StraddlingChar(x, y, p, i);
      assert false;
    }
  }

  /** An occurrence of `p` that runs over the end of `x` into `y` has the first
      character of `y` inside it, at offset `|x| - i`. */
  lemma StraddlingChar(x: string, y: string, p: string, i: int)
    requires |y| >= 1 && OccursAt(x + y, p, i) && i < |x| < i + |p|
    ensures p[|x| - i] == y[0]
  {
    assert (x + y)[i..i + |p|][|x| - i] == (x + y)[|x|];
  }

  lemma OccurrencesInConcat(x: string, y: string, p: string)
    requires FirstCharUnique(p) && |y| >= 1 && y[0] == p[0]
    ensures forall i :: OccursAt(x + y, p, i) ==>
      (i + |p| <= |x| && OccursAt(x, p, i)) || (|x| <= i && OccursAt(y, p, i - |x|))
  {
    forall i | OccursAt(x + y, p, i)
      ensures (i + |p| <= |x| && OccursAt(x, p, i)) || (|x| <= i && OccursAt(y, p, i - |x|))
    {
      OccurrenceInConcat(x, y, p, i);
    }
  }

  /** An occurrence of `p` cannot start inside a separable `t`. */
  lemma OccurrenceAfterSeparable(t: string, y: string, p: string, i: int)
    requires Separable(p, t)
    requires OccursAt(t + y, p, i)
    ensures |t| <= i && OccursAt(y, p, i - |t|)
  {
    if i < |t| {
      StartInside(t, y, p, i);
      assert false;
    }
    assert (t + y)[i..i + |p|] == y[i - |t|..i - |t| + |p|];
  }

  /** An occurrence of `p` that starts inside `t` begins with `t[i]` and, unless
      `t[i]` is the last character of `t`, continues with `t[i + 1]`. */
  lemma StartInside(t: string, y: string, p: string, i: int)
    requires |p| >= 2 && OccursAt(t + y, p, i) && i < |t|
    ensures t[i] == p[0]
    ensures i + 1 < |t| ==> t[i + 1] == p[1]
  {
    var w := t + y;
    assert w[i..i + |p|][0] == w[i] && w[i..i + |p|][1] == w[i + 1];
  }

  /** Putting a separable `t` between two texts free of `p` creates no `p`. */
  lemma {:induction false} Splice(x: string, t: string, y: string, p: string)
    requires Separable(p, t)
    requires !Contains(x, p) && !Contains(y, p)
    ensures !Contains(x + t + y, p)
  {
    forall i | OccursAt(t + y, p, i)
      ensures OccursAt(y, p, i - |t|)
    {
      OccurrenceAfterSeparable(t, y, p, i);
    }
    assert !Contains(t + y, p);
    OccurrencesInConcat(x, t + y, p);
    assert x + t + y == x + (t + y);
  }

  /** Joining pieces free of `p` with a separable separator creates no `p`. */
  lemma {:induction false} JoinFree(parts: seq<string>, sep: string, p: string)
    requires |parts| >= 1
    requires forall k :: 0 <= k < |parts| ==> !Contains(parts[k], p)
    requires Separable(p, sep)
    ensures !Contains(Join(parts, sep), p)
  {
    if |parts| > 1 {
      JoinFree(parts[1..], sep, p);
      Splice(parts[0], sep, Join(parts[1..], sep), p);
    }
  }

  // ---------------------------------------------------------------------------
  // Consequences for Replace

  /** Every occurrence of `target` is replaced: none is left afterwards, provided
      the replacement cannot combine with its neighbours into a new one. */
  lemma ReplaceLeavesNoTarget(s: string, target: string, replacement: string)
    requires Separable(target, replacement)
    ensures !Contains(Replace(s, target, replacement), target)
  {
    ReplaceIsJoinOfSplit(s, target, replacement);
    SplitPiecesLackSeparator(s, target);
    JoinFree(Split(s, target), replacement, target);
  }

  /** Replacement creates no occurrence of a pattern `p` that the text did not
      hold, provided the replacement cannot combine with its neighbours into `p`. */
  lemma ReplaceCreatesNoPattern(s: string, target: string, replacement: string, p: string)
    requires |target| > 0
    requires Separable(p, replacement)
    requires !Contains(s, p)
    ensures !Contains(Replace(s, target, replacement), p)
  {
    ReplaceIsJoinOfSplit(s, target, replacement);
    SplitPiecesFree(s, target, p);
    JoinFree(Split(s, target), replacement, p);
  }

  /** A text that starts with `target` gets `replacement` at its start. */
  lemma ReplaceAtStart(x: string, target: string, replacement: string)
    requires |target| > 0
    ensures Replace(target + x, target, replacement) == replacement + Replace(x, target, replacement)
  {
    assert (target + x)[..|target|] == target;
    assert (target + x)[|target|..] == x;
  }

  /** No occurrence of `p` in `x + y` runs over the boundary between `x` and `y`. */
  predicate NoStraddle(x: string, y: string, p: string) {
    forall i :: 0 <= i < |x| < i + |p| ==> !OccursAt(x + y, p, i)
  }

  /** When `y` begins with the first character of `p`, which `p` has only at its
      start, no occurrence of `p` runs from `x` into `y`. */
  lemma NoStraddleBeforeFirstChar(x: string, y: string, p: string)
    requires FirstCharUnique(p) && |y| >= 1 && y[0] == p[0]
    ensures NoStraddle(x, y, p)
  {
    OccurrencesInConcat(x, y, p);
  }

  lemma NoStraddleInSuffix(x: string, y: string, p: string, d: int)
    requires 0 <= d <= |x| && NoStraddle(x, y, p)
    ensures NoStraddle(x[d..], y, p)
  {
    assert x[d..] + y == (x + y)[d..];
    forall i | 0 <= i < |x| - d < i + |p|
      ensures !OccursAt(x[d..] + y, p, i)
    {
      OccursInSuffix(x + y, p, d, i);
    }
  }

  /** Where no occurrence of `target` runs over the boundary, replacing in
      `x + y` is replacing in `x` and in `y` separately:
      `(x + y).replace(a, b) == x.replace(a, b) + y.replace(a, b)`. */
  lemma {:induction false} ReplaceConcat(x: string, y: string, target: string, replacement: string)
    requires |target| > 0
    requires NoStraddle(x, y, target)
    ensures Replace(x + y, target, replacement)
      == Replace(x, target, replacement) + Replace(y, target, replacement)
    decreases |x|
  {
    var s := x + y;
    if |x| == 0 {
      assert s == y;
    } else if |s| < |target| {
    } else if s[..|target|] == target {
      // The occurrence at 0 cannot run past `x`, so `x` starts with it.
      assert OccursAt(s, target, 0);
      assert x[..|target|] == target;
      assert s[|target|..] == x[|target|..] + y;
      NoStraddleInSuffix(x, y, target, |target|);
      ReplaceConcat(x[|target|..], y, target, replacement);
    } else {
      assert s[1..] == x[1..] + y;
      NoStraddleInSuffix(x, y, target, 1);
      ReplaceConcat(x[1..], y, target, replacement);
      if |x| >= |target| {
        assert x[..|target|] == s[..|target|];
      }
      assert x == [x[0]] + x[1..];
    }
  }

  /** An occurrence of `target` cuts the replacement in two: whatever `x` and `y`
      hold, `(x + target + y).replace(target, r)` is `x.replace(target, r)`, then
      `r`, then `y.replace(target, r)`, when `target` has its first character only
      at its start. */
  lemma ReplaceSplice(x: string, target: string, y: string, replacement: string)
    requires FirstCharUnique(target)
    ensures Replace(x + target + y, target, replacement)
      == Replace(x, target, replacement) + replacement + Replace(y, target, replacement)
  {
    NoStraddleBeforeFirstChar(x, target + y, target);
    assert x + target + y == x + (target + y);
    ReplaceConcat(x, target + y, target, replacement);
    ReplaceAtStart(y, target, replacement);
  }

  /** When the only occurrence of `target` is the one that closes the text,
      exactly that one is replaced. */
  lemma ReplaceAtEnd(x: string, target: string, replacement: string)
    requires FirstCharUnique(target)
    requires !Contains(x, target)
    ensures Replace(x + target, target, replacement) == x + replacement
  {
    ReplaceSplice(x, target, [], replacement);
    ReplaceWithoutTarget(x, target, replacement);
    assert x + target + [] == x + target;
  }

  /** A replacement that begins like the target keeps the first character of the
      text. */
  lemma ReplaceKeepsFirstChar(s: string, target: string, replacement: string)
    requires |target| > 0 && |replacement| > 0 && replacement[0] == target[0]
    requires |s| >= 1
    ensures |Replace(s, target, replacement)| >= 1 && Replace(s, target, replacement)[0] == s[0]
  {
    if |s| >= |target| && s[..|target|] == target {
      assert s[0] == s[..|target|][0];
    }
  }
}
