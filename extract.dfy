/**
 * `extract_answer` (utils.py): the answer of a chat model is the text between
 * the first `<gpt>` tag and the first `</s>` tag after it. Before the search,
 * the model's own `<|assistant|>` and `<|end|>` markers are rewritten to those
 * two tags.
 *
 * The regular expression `<gpt>(.*?)</s>` with DOTALL is modelled by what it
 * matches (`IsMatch`) and by the match `findall` lists first (`IsFirstMatch`):
 * the leftmost start, and, because `.*?` is non-greedy, the nearest close
 * after it. `.` matches every character under DOTALL, so no character of the
 * answer is restricted.
 */
module Extract {
  import opened Options
  import opened Strings

  const AssistantMarker: string := "<|assistant|>"
  const EndMarker: string := "<|end|>"
  const OpenTag: string := "<gpt>"
  const CloseTag: string := "</s>"

  /** The two rewrites that come before the search: every `<|assistant|>`
      becomes `<gpt>`, then every `<|end|>` becomes `</s>`. */
  function Normalise(text: string): (r: string) {
    Replace(Replace(text, AssistantMarker, OpenTag), EndMarker, CloseTag)
  }

  /** `<gpt>(.*?)</s>` matches `t` with the open tag at `i` and the close tag at
      `j`; the captured group is `t[i + 5..j]`. */
  predicate IsMatch(t: string, i: int, j: int) {
    OccursAt(t, OpenTag, i) && i + |OpenTag| <= j && OccursAt(t, CloseTag, j)
  }

  ghost predicate HasMatch(t: string) {
    exists i, j :: IsMatch(t, i, j)
  }

  /** The match that `findall` lists first: no match starts further left, and no
      match from the same start closes earlier. */
  ghost predicate IsFirstMatch(t: string, i: int, j: int) {
    IsMatch(t, i, j)
    && (forall i', j' :: IsMatch(t, i', j') ==> i <= i')
    && (forall j' :: IsMatch(t, i, j') ==> j <= j')
  }

  /** Where the first match of `<gpt>(.*?)</s>` lies in `t`, found by two
      searches: the first `<gpt>`, then the first `</s>` after it. When that
      `<gpt>` has no `</s>` after it, no later `<gpt>` has either, so there is
      no match at all. */
  function FirstMatch(t: string): (r: Option<(nat, nat)>)
    ensures r.Some? ==> IsFirstMatch(t, r.value.0, r.value.1)
    ensures r.Some? ==> forall k :: 0 <= k < r.value.0 ==> !OccursAt(t, OpenTag, k)
    ensures r.None? <==> !HasMatch(t)
  {
    FirstIndexSpec(t, OpenTag);
    match FirstIndex(t, OpenTag)
    case None =>
      NoOpenTagNoMatch(t);
      None
    case Some(i) =>
      var start := i + |OpenTag|;
      FirstIndexSpec(t[start..], CloseTag);
      match FirstIndex(t[start..], CloseTag)
      case None =>
        NoCloseTagNoMatch(t, i);
        None
      case Some(d) =>
        OccursInSuffixAll(t, CloseTag, start);
        NearestCloseTag(t, i, d);
        Some((i, start + d))
  }

  lemma NoOpenTagNoMatch(t: string)
    requires !Contains(t, OpenTag)
    ensures !HasMatch(t)
  {
  }

  /** When the first `<gpt>` has no `</s>` after it, no `<gpt>` has. */
  lemma NoCloseTagNoMatch(t: string, i: nat)
    requires OccursAt(t, OpenTag, i)
    requires forall k :: 0 <= k < i ==> !OccursAt(t, OpenTag, k)
    requires !Contains(t[i + |OpenTag|..], CloseTag)
    ensures !HasMatch(t)
  {
    var start := i + |OpenTag|;
    forall i', j' | IsMatch(t, i', j')
      ensures !OccursAt(t[start..], CloseTag, j' - start)
    {
      OccursInSuffix(t, CloseTag, start, j' - start);
    }
  }

  /** The nearest `</s>` after the first `<gpt>` closes the first match. */
  lemma NearestCloseTag(t: string, i: nat, d: nat)
    requires OccursAt(t, OpenTag, i)
    requires forall k :: 0 <= k < i ==> !OccursAt(t, OpenTag, k)
    requires OccursAt(t, CloseTag, i + |OpenTag| + d)
    requires forall k :: i + |OpenTag| <= k < i + |OpenTag| + d ==> !OccursAt(t, CloseTag, k)
    ensures IsFirstMatch(t, i, i + |OpenTag| + d)
  {
  }

  /** The search on the normalised text `t`: the group captured by the first
      element of `findall`, or None when the list is empty. */
  function Search(t: string): (answer: Option<string>)
    ensures answer.Some? ==> Contains(t, OpenTag + answer.value + CloseTag)
    ensures answer.Some? ==> !Contains(answer.value, CloseTag)
    ensures answer.None? <==> !HasMatch(t)
  {
    match FirstMatch(t)
    case None => None
    case Some((i, j)) =>
      MatchFacts(t, i, j);
      Some(t[i + |OpenTag|..j])
  }

  /** `extract_answer(text)`: the two rewrites, then the search; None where the
      program prints "No match found". What the answer is, is stated by
      `ExtractAnswerSpec` and `ExtractAnswerIsFirstMatch`. */
  function ExtractAnswer(text: string): (answer: Option<string>) {
    Search(Normalise(text))
  }

  /** Any answer appears between `<gpt>` and `</s>` in the normalised text and
      holds no `</s>`; there is no answer exactly when the normalised text has
      no match. */
  lemma ExtractAnswerSpec(text: string)
    ensures ExtractAnswer(text).Some?
      ==> Contains(Normalise(text), OpenTag + ExtractAnswer(text).value + CloseTag)
    ensures ExtractAnswer(text).Some? ==> !Contains(ExtractAnswer(text).value, CloseTag)
    ensures ExtractAnswer(text).None? <==> !HasMatch(Normalise(text))
  {
  }

  /** The text of a first match sits between its tags and holds no `</s>`. */
  lemma MatchFacts(t: string, i: nat, j: nat)
    requires IsFirstMatch(t, i, j)
    ensures OccursAt(t, OpenTag + t[i + |OpenTag|..j] + CloseTag, i)
    ensures !Contains(t[i + |OpenTag|..j], CloseTag)
  {
    var start := i + |OpenTag|;
    assert t[i..j + |CloseTag|] == t[i..start] + t[start..j] + t[j..j + |CloseTag|];
    forall k | 0 <= k < j - start
      ensures !OccursAt(t[start..], CloseTag, k)
    {
      OccursInSuffix(t, CloseTag, start, k);
      assert !IsMatch(t, i, start + k);
    }
    FreeBeforeFirst(t[start..], CloseTag, j - start);
    assert t[start..][..j - start] == t[start..j];
  }

  // ---------------------------------------------------------------------------
  // Normalisation

  lemma MarkersAreSeparable()
    ensures Separable(AssistantMarker, OpenTag) && Separable(AssistantMarker, CloseTag)
    ensures Separable(EndMarker, OpenTag) && Separable(EndMarker, CloseTag)
    ensures Separable(OpenTag, CloseTag)
  {
  }

  /** The two rewrites against the reference definition of replacement: the
      text is cut at every `<|assistant|>` and glued again with `<gpt>`, then
      cut at every `<|end|>` and glued with `</s>`. What lies between two
      markers is kept as it was. */
  lemma NormaliseRewritesEveryMarker(text: string)
    ensures Normalise(text)
      == Join(Split(Join(Split(text, AssistantMarker), OpenTag), EndMarker), CloseTag)
  {
    ReplaceIsJoinOfSplit(text, AssistantMarker, OpenTag);
    ReplaceIsJoinOfSplit(Replace(text, AssistantMarker, OpenTag), EndMarker, CloseTag);
  }

  /** No `<|assistant|>` and no `<|end|>` is left after normalisation: the tags
      put in their place cannot combine with their neighbours into new ones. */
  lemma NormaliseLeavesNoModelMarker(text: string)
    ensures !Contains(Normalise(text), AssistantMarker)
    ensures !Contains(Normalise(text), EndMarker)
  {
    MarkersAreSeparable();
    var mid := Replace(text, AssistantMarker, OpenTag);
    ReplaceLeavesNoTarget(text, AssistantMarker, OpenTag);
    ReplaceCreatesNoPattern(mid, EndMarker, CloseTag, AssistantMarker);
    ReplaceLeavesNoTarget(mid, EndMarker, CloseTag);
  }

  /** Text without model markers reaches the search unchanged. */
  lemma NormaliseKeepsMarkerFreeText(text: string)
    requires !Contains(text, AssistantMarker) && !Contains(text, EndMarker)
    ensures Normalise(text) == text
  {
    ReplaceWithoutTarget(text, AssistantMarker, OpenTag);
    ReplaceWithoutTarget(text, EndMarker, CloseTag);
  }

  /** Normalisation acts piecewise on a text cut just before a `<`: every marker
      and tag begins with `<` and holds no other, so none runs over such a cut,
      before or after the first rewrite. */
  lemma NormaliseConcat(x: string, y: string)
    requires |y| >= 1 && y[0] == '<'
    ensures Normalise(x + y) == Normalise(x) + Normalise(y)
  {
    MarkersAreSeparable();
    NoStraddleBeforeFirstChar(x, y, AssistantMarker);
    ReplaceConcat(x, y, AssistantMarker, OpenTag);
    var x', y' := Replace(x, AssistantMarker, OpenTag), Replace(y, AssistantMarker, OpenTag);
    ReplaceKeepsFirstChar(y, AssistantMarker, OpenTag);
    NoStraddleBeforeFirstChar(x', y', EndMarker);
    ReplaceConcat(x', y', EndMarker, CloseTag);
  }

  /** Each model marker on its own normalises to its tag. */
  lemma NormaliseMarkers()
    ensures Normalise(AssistantMarker) == OpenTag
    ensures Normalise(EndMarker) == CloseTag
  {
    MarkersAreSeparable();
    ReplaceAtEnd([], AssistantMarker, OpenTag);
    assert [] + AssistantMarker == AssistantMarker;
    NormaliseKeepsMarkerFreeText(OpenTag);
    ReplaceAtEnd([], EndMarker, CloseTag);
    assert [] + EndMarker == EndMarker;
  }

  /** `<|assistant|>` and `<|end|>` around a text become `<gpt>` and `</s>`
      around the same text. */
  lemma {:induction false} ModelMarkersBecomeTags(s: string)
    requires !Contains(s, AssistantMarker) && !Contains(s, EndMarker)
    ensures Normalise(AssistantMarker + s + EndMarker) == OpenTag + s + CloseTag
  {
    MarkersAreSeparable();
    // First rewrite: only the leading marker is an `<|assistant|>`.
    OccurrencesInConcat(s, EndMarker, AssistantMarker);
    assert !Contains(s + EndMarker, AssistantMarker);
    assert AssistantMarker + s + EndMarker == AssistantMarker + (s + EndMarker);
    ReplaceAtStart(s + EndMarker, AssistantMarker, OpenTag);
    ReplaceWithoutTarget(s + EndMarker, AssistantMarker, OpenTag);
    assert OpenTag + (s + EndMarker) == (OpenTag + s) + EndMarker;
    // Second rewrite: only the trailing marker is an `<|end|>`.
    Splice([], OpenTag, s, EndMarker);
    assert [] + OpenTag + s == OpenTag + s;
    ReplaceAtEnd(OpenTag + s, EndMarker, CloseTag);
  }

  /** Tags around text free of `<|assistant|>` and `<|end|>` reach the search
      unchanged, whatever tags the text itself holds. */
  lemma {:induction false} TagsSurviveNormalisation(s: string)
    requires !Contains(s, AssistantMarker) && !Contains(s, EndMarker)
    ensures Normalise(OpenTag + s + CloseTag) == OpenTag + s + CloseTag
  {
    MarkersAreSeparable();
    OccurrencesInConcat(s, CloseTag, AssistantMarker);
    OccurrencesInConcat(s, CloseTag, EndMarker);
    Splice([], OpenTag, s + CloseTag, AssistantMarker);
    Splice([], OpenTag, s + CloseTag, EndMarker);
    assert [] + OpenTag + (s + CloseTag) == OpenTag + s + CloseTag;
    NormaliseKeepsMarkerFreeText(OpenTag + s + CloseTag);
  }

  // ---------------------------------------------------------------------------
  // Extraction

  /** At most one match is the first: `FirstMatch` finds it whenever it exists. */
  lemma FirstMatchIsTheFirst(t: string, i: int, j: int)
    requires IsFirstMatch(t, i, j)
    ensures FirstMatch(t) == Some((i, j))
  {
    assert HasMatch(t);
    var r := FirstMatch(t);
    assert IsMatch(t, r.value.0, r.value.1);
  }

  /** The answer is exactly the group of the first match `findall` reports. */
  lemma ExtractAnswerIsFirstMatch(text: string, s: string)
    ensures ExtractAnswer(text) == Some(s)
      <==> exists i, j :: IsFirstMatch(Normalise(text), i, j) && s == Normalise(text)[i + |OpenTag|..j]
  {
    var t := Normalise(text);
    if exists i, j :: IsFirstMatch(t, i, j) && s == t[i + |OpenTag|..j] {
      var i, j :| IsFirstMatch(t, i, j) && s == t[i + |OpenTag|..j];
      FirstMatchIsTheFirst(t, i, j);
    }
    if ExtractAnswer(text) == Some(s) {
      var r := FirstMatch(t);
      assert IsFirstMatch(t, r.value.0, r.value.1) && s == t[r.value.0 + |OpenTag|..r.value.1];
    }
  }

  /** The answer opens at the first `<gpt>` of the normalised text. */
  lemma AnswerOpensAtFirstTag(text: string)
    requires ExtractAnswer(text).Some?
    ensures FirstIndex(Normalise(text), OpenTag).Some?
    ensures OccursAt(Normalise(text), OpenTag + ExtractAnswer(text).value + CloseTag,
                     FirstIndex(Normalise(text), OpenTag).value)
  {
    var t := Normalise(text);
    var r := FirstMatch(t);
    FirstIndexIs(t, OpenTag, r.value.0);
    MatchFacts(t, r.value.0, r.value.1);
  }

  /** In p + `<gpt>` + s + `</s>` + rest, with no `<gpt>` in p and no `</s>` in
      s, the first match is the one around s, whatever rest holds. */
  lemma SegmentIsFirstMatch(p: string, s: string, rest: string)
    requires !Contains(p, OpenTag) && !Contains(s, CloseTag)
    ensures FirstMatch(p + OpenTag + s + CloseTag + rest)
      == Some((|p|, |p| + |OpenTag| + |s|))
  {
    SegmentIsFirst(p, s, rest);
    FirstMatchIsTheFirst(p + OpenTag + s + CloseTag + rest, |p|, |p| + |OpenTag| + |s|);
  }

  lemma SegmentIsFirst(p: string, s: string, rest: string)
    requires !Contains(p, OpenTag) && !Contains(s, CloseTag)
    ensures IsFirstMatch(p + OpenTag + s + CloseTag + rest, |p|, |p| + |OpenTag| + |s|)
  {
    SegmentTags(p, s, rest);
    NoOpenTagBeforeSegment(p, s, rest);
    NoCloseTagInSegment(p, s, rest);
    NearestCloseTag(p + OpenTag + s + CloseTag + rest, |p|, |s|);
  }

  lemma SegmentText(p: string, s: string, rest: string)
    ensures (p + OpenTag + s + CloseTag + rest)[|p| + |OpenTag|..|p| + |OpenTag| + |s|] == s
  {
  }

  lemma SegmentTags(p: string, s: string, rest: string)
    ensures OccursAt(p + OpenTag + s + CloseTag + rest, OpenTag, |p|)
    ensures OccursAt(p + OpenTag + s + CloseTag + rest, CloseTag, |p| + |OpenTag| + |s|)
  {
    var t := p + OpenTag + s + CloseTag + rest;
    var i, e := |p|, |p| + |OpenTag| + |s|;
    assert t[i..i + |OpenTag|] == OpenTag;
    assert t[e..e + |CloseTag|] == CloseTag;
  }

  lemma NoOpenTagBeforeSegment(p: string, s: string, rest: string)
    requires !Contains(p, OpenTag)
    ensures forall k :: 0 <= k < |p| ==> !OccursAt(p + OpenTag + s + CloseTag + rest, OpenTag, k)
  {
    assert p + OpenTag + s + CloseTag + rest == p + (OpenTag + s + CloseTag + rest);
    NoTagBefore(p, OpenTag + s + CloseTag + rest, OpenTag);
  }

  lemma NoCloseTagInSegment(p: string, s: string, rest: string)
    requires !Contains(s, CloseTag)
    ensures forall k :: |p| + |OpenTag| <= k < |p| + |OpenTag| + |s| ==>
      !OccursAt(p + OpenTag + s + CloseTag + rest, CloseTag, k)
  {
    var t := p + OpenTag + s + CloseTag + rest;
    var start := |p| + |OpenTag|;
    assert t[start..] == s + (CloseTag + rest);
    NoTagBefore(s, CloseTag + rest, CloseTag);
    forall k | start <= k < start + |s|
      ensures !OccursAt(t, CloseTag, k)
    {
      OccursInSuffix(t, CloseTag, start, k - start);
    }
  }

  /** A text free of a tag, followed by a piece that starts with `<`, has no
      occurrence of the tag starting inside it. */
  lemma NoTagBefore(x: string, y: string, tag: string)
    requires tag == OpenTag || tag == CloseTag
    requires !Contains(x, tag) && |y| >= 1 && y[0] == '<'
    ensures forall k :: 0 <= k < |x| ==> !OccursAt(x + y, tag, k)
  {
    MarkersAreSeparable();
    forall k | 0 <= k < |x|
      ensures !OccursAt(x + y, tag, k)
    {
      if OccursAt(x + y, tag, k) {
        OccurrenceInConcat(x, y, tag, k);
        assert false;
      }
    }
  }

  /** When the normalised text is p + `<gpt>` + s + `</s>` + rest, with no `<gpt>`
      in p and no `</s>` in s, the answer is s: later segments are ignored. */
  lemma FirstSegmentWins(text: string, p: string, s: string, rest: string)
    requires Normalise(text) == p + OpenTag + s + CloseTag + rest
    requires !Contains(p, OpenTag) && !Contains(s, CloseTag)
    ensures ExtractAnswer(text) == Some(s)
  {
    SearchFindsFirstSegment(p, s, rest);
  }

  /** The search on p + `<gpt>` + s + `</s>` + rest, with no `<gpt>` in p and no
      `</s>` in s, returns s. */
  lemma SearchFindsFirstSegment(p: string, s: string, rest: string)
    requires !Contains(p, OpenTag) && !Contains(s, CloseTag)
    ensures Search(p + OpenTag + s + CloseTag + rest) == Some(s)
  {
    var t := p + OpenTag + s + CloseTag + rest;
    SegmentIsFirstMatch(p, s, rest);
    SearchOfFirstMatch(t, |p|, |p| + |OpenTag| + |s|);
    SegmentText(p, s, rest);
  }

  lemma SearchOfFirstMatch(t: string, i: nat, j: nat)
    requires FirstMatch(t) == Some((i, j))
    ensures i + |OpenTag| <= j <= |t|
    ensures Search(t) == Some(t[i + |OpenTag|..j])
  {
  }

  /** `<gpt>` + s + `</s>` gives s, for every s free of the markers and of `</s>`: s may be
      empty, and may span lines, since under DOTALL `.` matches every character. */
  lemma TagsAroundAnswer(s: string)
    requires !Contains(s, AssistantMarker) && !Contains(s, EndMarker) && !Contains(s, CloseTag)
    ensures ExtractAnswer(OpenTag + s + CloseTag) == Some(s)
  {
    TagsSurviveNormalisation(s);
    assert OpenTag + s + CloseTag == [] + OpenTag + s + CloseTag + [];
    FirstSegmentWins(OpenTag + s + CloseTag, [], s, []);
  }

  /** After any text p whose normalised form has no `<gpt>`, `<|assistant|>` + s
      + `<|end|>` gives the same answer s as `<gpt>` + s + `</s>`. */
  lemma ModelMarkersGiveSameAnswer(p: string, s: string)
    requires !Contains(s, AssistantMarker) && !Contains(s, EndMarker) && !Contains(s, CloseTag)
    requires !Contains(Normalise(p), OpenTag)
    ensures ExtractAnswer(p + AssistantMarker + s + EndMarker)
      == ExtractAnswer(p + OpenTag + s + CloseTag) == Some(s)
  {
    ModelMarkersAfterPrefix(p, s);
    TagsAfterPrefix(p, s);
  }

  lemma ModelMarkersAfterPrefix(p: string, s: string)
    requires !Contains(s, AssistantMarker) && !Contains(s, EndMarker)
    requires !Contains(Normalise(p), OpenTag) && !Contains(s, CloseTag)
    ensures ExtractAnswer(p + AssistantMarker + s + EndMarker) == Some(s)
  {
    assert p + AssistantMarker + s + EndMarker == p + (AssistantMarker + s + EndMarker);
    NormaliseConcat(p, AssistantMarker + s + EndMarker);
    ModelMarkersBecomeTags(s);
    AnswerAfterPrefix(p + AssistantMarker + s + EndMarker, Normalise(p), s);
  }

  lemma TagsAfterPrefix(p: string, s: string)
    requires !Contains(s, AssistantMarker) && !Contains(s, EndMarker)
    requires !Contains(Normalise(p), OpenTag) && !Contains(s, CloseTag)
    ensures ExtractAnswer(p + OpenTag + s + CloseTag) == Some(s)
  {
    assert p + OpenTag + s + CloseTag == p + (OpenTag + s + CloseTag);
    NormaliseConcat(p, OpenTag + s + CloseTag);
    TagsSurviveNormalisation(s);
    AnswerAfterPrefix(p + OpenTag + s + CloseTag, Normalise(p), s);
  }

  lemma AnswerAfterPrefix(text: string, q: string, s: string)
    requires Normalise(text) == q + (OpenTag + s + CloseTag)
    requires !Contains(q, OpenTag) && !Contains(s, CloseTag)
    ensures ExtractAnswer(text) == Some(s)
  {
    assert q + (OpenTag + s + CloseTag) == q + OpenTag + s + CloseTag + [];
    FirstSegmentWins(text, q, s, []);
  }

  /** A chat transcript: a user turn u closed by `<|end|>`, then the assistant
      turn `<|assistant|>` + a + `<|end|>`. The answer is a. */
  lemma UserTurnThenAnswer(u: string, a: string)
    requires !Contains(u, AssistantMarker) && !Contains(u, EndMarker) && !Contains(u, OpenTag)
    requires !Contains(a, AssistantMarker) && !Contains(a, EndMarker) && !Contains(a, CloseTag)
    ensures ExtractAnswer(u + EndMarker + AssistantMarker + a + EndMarker) == Some(a)
  {
    // The user turn normalises to u + `</s>`, which holds no `<gpt>`.
    NormaliseConcat(u, EndMarker);
    NormaliseKeepsMarkerFreeText(u);
    NormaliseMarkers();
    MarkersAreSeparable();
    OccurrencesInConcat(u, CloseTag, OpenTag);
    assert !Contains(CloseTag, OpenTag);
    ModelMarkersGiveSameAnswer(u + EndMarker, a);
  }

  /** A text with neither `<|assistant|>` nor `<gpt>` has no answer. */
  lemma NoOpeningMarkerNoAnswer(text: string)
    requires !Contains(text, AssistantMarker) && !Contains(text, OpenTag)
    ensures ExtractAnswer(text) == None
  {
    MarkersAreSeparable();
    ReplaceWithoutTarget(text, AssistantMarker, OpenTag);
    ReplaceCreatesNoPattern(text, EndMarker, CloseTag, OpenTag);
  }
}
