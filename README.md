# extract_answer, modelled in Dafny

`extract_answer` (utils.py) pulls a chat model's answer out of a text blob in
two steps. First it normalises the markers: every `<|assistant|>` becomes
`<gpt>`, then every `<|end|>` becomes `</s>`, using Python's `str.replace`.
Then it takes the first match of the regular expression `<gpt>(.*?)</s>` under
DOTALL and returns the captured text. If there is no match, it prints
"No match found" and returns `None`.

The project has four modules:

- `Options` (option.dfy) holds the `Option` result.
- `Strings` (strings.dfy) holds the string operations the function relies on.
  - `OccursAt` and `Contains` say where a pattern occurs.
  - `FindFrom` and `FirstIndex` are the literal scans that the fixed regular
    expression reduces to (utils.py:8-9). They find the leftmost occurrence of a
    tag from a given index, or from the start. The program itself never calls
    `str.find`.
  - `Replace` is `str.replace`, written as a left-to-right rewrite.
  - `Split` (`str.split`) and `Join` (`str.join`) are an independent reference
    definition of replacement, from the identity
    `s.replace(a, b) == b.join(s.split(a))`. The lemmas use them to say what
    replacement keeps and what it changes.
- `Extract` (extract.dfy) holds the function itself.
  - `Normalise` does the two rewrites.
  - `IsMatch` and `IsFirstMatch` describe what the regular expression matches
    and which match `findall` lists first: the leftmost start, then the
    nearest `</s>` after it, because `.*?` is non-greedy.
  - `FirstMatch` finds that match with two scans.
  - `Search` is the regular-expression step on the normalised text: the first
    element of `findall`, or `None` when the list is empty.
  - `ExtractAnswer` is `extract_answer`: `Normalise`, then `Search`.
- `Scenarios` (scenarios.dfy) covers the concrete inputs the function is
  expected to handle.

For this one fixed pattern, the regular expression reduces to substring
search. Suppose the first `<gpt>` has no `</s>` after it. Then no later `<gpt>`
has one either, so there is no match at all. The lemma `NoCloseTagNoMatch`
proves this, and `FirstMatch` relies on it.

## Model

| member | source | states |
|---|---|---|
| Strings.FindFromSpec | utils.py:8-9 | The search from index k finds the leftmost occurrence at or after k. `None` means the pattern occurs nowhere from k on. |
| Strings.FirstIndexSpec | utils.py:8-9 | Finds the leftmost occurrence. `Some(i)` means the pattern occurs at `i` and nowhere before `i`. `None` holds exactly when the pattern does not occur. |
| Strings.ReplaceWithoutTarget | utils.py:6-7 | `str.replace` (leftmost, non-overlapping): a text with no occurrence of the target comes back unchanged. |
| Strings.ReplaceIsJoinOfSplit | utils.py:6-7 | `s.replace(a, b) == b.join(s.split(a))`. Each piece between two occurrences is kept verbatim, and each occurrence is swapped for the replacement. |
| Strings.SplitJoin | utils.py:6-7 | Joining the pieces of a split with the separator gives back the original text. So the pieces and the occurrences together make up the whole text. |
| Strings.SplitPiecesLackSeparator | utils.py:6-7 | No piece of a split contains the separator: each piece ends at the next occurrence or at the end of the text. |
| Strings.ReplaceLeavesNoTarget | utils.py:6-7 | No occurrence of the target is left after replacement. This needs a replacement that cannot combine with its neighbours into a new occurrence. |
| Strings.ReplaceCreatesNoPattern | utils.py:6-7 | Replacement creates no occurrence of a pattern the text did not hold. This needs a replacement that cannot combine with its neighbours into that pattern. |
| Strings.ReplaceConcat | utils.py:6-7 | Suppose no occurrence of the target runs over the boundary between x and y. Then `(x + y).replace(a, b)` is `x.replace(a, b) + y.replace(a, b)`. |
| Strings.ReplaceSplice | utils.py:6-7 | Take any x and y, and a target that has its first character only at its start. Then `(x + target + y).replace(target, r)` is `x.replace(target, r)`, then r, then `y.replace(target, r)`. |
| Strings.ReplaceAtEnd | utils.py:7 | For a target whose first character appears only at its start: if x holds no occurrence of the target, `(x + target).replace(target, r)` is x + r. Exactly the closing occurrence is replaced. |
| Extract.NormaliseRewritesEveryMarker | utils.py:6-7 | The text is cut at every `<|assistant|>` and joined with `<gpt>`. The result is then cut at every `<|end|>` and joined with `</s>`, in that order. Everything between markers is kept. |
| Extract.NormaliseLeavesNoModelMarker | utils.py:6-7 | No `<|assistant|>` and no `<|end|>` remains after normalisation. |
| Extract.NormaliseKeepsMarkerFreeText | utils.py:6-7 | A text without `<|assistant|>` or `<|end|>` reaches the search unchanged. |
| Extract.NormaliseConcat | utils.py:6-7 | A text cut just before a `<` normalises piece by piece: `Normalise(x + y) == Normalise(x) + Normalise(y)`. No marker or tag can run over such a cut. |
| Extract.NormaliseMarkers | utils.py:6-7 | `<|assistant|>` on its own normalises to `<gpt>`, and `<|end|>` to `</s>`. |
| Extract.ModelMarkersBecomeTags | utils.py:6-7 | `<|assistant|>` + s + `<|end|>` normalises to `<gpt>` + s + `</s>` whenever s holds neither marker. |
| Extract.TagsSurviveNormalisation | utils.py:6-7 | `<gpt>` + s + `</s>` is left unchanged whenever s holds neither `<|assistant|>` nor `<|end|>`, whatever tags s holds. |
| Extract.FirstMatch | utils.py:8-11 | The result is the first match: the leftmost `<gpt>` of the text, then the nearest `</s>` after it. `None` holds exactly when no `<gpt>` is followed later by `</s>`. |
| Extract.NoCloseTagNoMatch | utils.py:8-9 | If the first `<gpt>` has no `</s>` after it, the text has no match at all. So the search need not try later `<gpt>` tags. |
| Extract.NearestCloseTag | utils.py:8-9 | The first `<gpt>`, closed by the nearest `</s>` after it, is the first match (`.*?` is non-greedy). |
| Extract.MatchFacts | utils.py:8 | The captured group of a first match sits between `<gpt>` and `</s>` and holds no `</s>`. |
| Extract.Search | utils.py:8-11 | Any result appears as `<gpt>` + result + `</s>` in the searched text and holds no `</s>`. `None` holds exactly when the text has no `<gpt>` followed later by `</s>`. |
| Extract.ExtractAnswerSpec | utils.py:4-13 | Any answer appears as `<gpt>` + answer + `</s>` in the normalised text. It never contains `</s>`. `None` holds exactly when the normalised text has no `<gpt>` followed later by `</s>`. The function is total. |
| Extract.FirstMatchIsTheFirst | utils.py:9-11 | The first match is unique, and `FirstMatch` returns it whenever it exists. |
| Extract.ExtractAnswerIsFirstMatch | utils.py:8-11 | The answer is `Some(s)` exactly when s is the group captured by the first match of `<gpt>(.*?)</s>` in the normalised text. |
| Extract.AnswerOpensAtFirstTag | utils.py:9-11 | `<gpt>` + answer + `</s>` starts at the first `<gpt>` of the normalised text. |
| Extract.SegmentIsFirstMatch | utils.py:8-11 | Take p + `<gpt>` + s + `</s>` + rest, with no `<gpt>` in p and no `</s>` in s. The first match opens right after p and closes right after s, whatever rest holds. |
| Extract.SearchFindsFirstSegment | utils.py:8-11 | The search on p + `<gpt>` + s + `</s>` + rest returns s, under the same conditions. |
| Extract.FirstSegmentWins | utils.py:6-11 | Suppose the normalised text is p + `<gpt>` + s + `</s>` + rest, with no `<gpt>` in p and no `</s>` in s. Then the answer is s, whatever p and rest hold otherwise. |
| Extract.TagsAroundAnswer | utils.py:8-11 | `<gpt>` + s + `</s>` gives s for every s free of the markers and of `</s>`. This includes the empty s and s with line breaks (DOTALL). |
| Extract.ModelMarkersGiveSameAnswer | utils.py:6-11 | Take any prefix p whose normalised form has no `<gpt>`. Then p + `<|assistant|>` + s + `<|end|>` gives the same answer s as p + `<gpt>` + s + `</s>`, for every s free of the markers and of `</s>`. |
| Extract.UserTurnThenAnswer | utils.py:6-11 | In a transcript u + `<|end|>` + `<|assistant|>` + a + `<|end|>`, the answer is a. Here u holds no marker and no `<gpt>`, and a holds no marker and no `</s>`. |
| Extract.NoOpeningMarkerNoAnswer | utils.py:10-13 | A text with neither `<|assistant|>` nor `<gpt>` gives `None`. |
| Scenarios.HelloWorld | utils.py:6-11 | `<|assistant|>Hello world<|end|>` and `<gpt>Hello world</s>` both give `Hello world`. |
| Scenarios.UserTurnFirst | utils.py:6-11 | `Hi<|end|><|assistant|>Hello world<|end|>` gives `Hello world`. |
| Scenarios.FirstSegmentOnly | utils.py:9-11 | `<gpt>First</s>middle<gpt>Second</s>` gives `First`. |
| Scenarios.MultiLineAnswer | utils.py:8 | `<gpt>line one\nline two</s>` gives the whole two-line text. |
| Scenarios.EmptySegment | utils.py:9-11 | `<gpt></s>` gives `Some("")`, not `None`: the code tests whether the match list is empty, not whether the first match is. |
| Scenarios.NoMarkers | utils.py:10-13 | `Hello world` gives `None`. |

## Left out

- `show_responses` (utils.py:17-37): its only effect is rendering HTML through the notebook's `display`. What it computes is a fixed f-string template, with no logic to model.
- The "No match found" message (utils.py:13) is console output. The model keeps only the `None` result.
- The general regular-expression engine is not modelled. Only the fixed pattern `<gpt>(.*?)</s>` with DOTALL is modelled, as substring search.
- Strings.Replace: requires a non-empty target. `str.replace` with an empty pattern inserts the replacement between characters, but `extract_answer` only replaces the two fixed markers.
- Scenarios.HelloWorld and the other scenarios write their inputs with the marker constants (`AssistantMarker + "Hello world" + EndMarker`) rather than as single string literals. The texts are the same.
- Python strings are sequences of code points. Here they are Dafny `string`s. Only literal ASCII markers are matched, so encoding plays no part.
