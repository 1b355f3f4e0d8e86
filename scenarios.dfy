/** The concrete inputs the program is expected to handle, and what it returns
    for each. The inputs are written with the marker constants of `Extract`:
    `AssistantMarker + "Hello world" + EndMarker` is the text
    `<|assistant|>Hello world<|end|>`. */
module Scenarios {
  import opened Options
  import opened Strings
  import opened Extract

  /** The model's own markers: `<|assistant|>Hello world<|end|>` gives
      `Hello world`, as `<gpt>Hello world</s>` does. */
  lemma HelloWorld()
    ensures ExtractAnswer(AssistantMarker + "Hello world" + EndMarker) == Some("Hello world")
    ensures ExtractAnswer(OpenTag + "Hello world" + CloseTag) == Some("Hello world")
  {
    var s := "Hello world";
    MissingChar(s, AssistantMarker, 0);
    MissingChar(s, EndMarker, 0);
    MissingChar(s, CloseTag, 0);
    assert ExtractAnswer(AssistantMarker + s + EndMarker) == Some(s) by {
      ModelMarkersBecomeTags(s);
      assert OpenTag + s + CloseTag == [] + (OpenTag + s + CloseTag);
      AnswerAfterPrefix(AssistantMarker + s + EndMarker, [], s);
    }
    TagsAroundAnswer(s);
  }

  /** A transcript with a user turn first, `Hi<|end|><|assistant|>Hello world<|end|>`:
      the answer is the assistant's turn. */
  lemma UserTurnFirst()
    ensures ExtractAnswer("Hi" + EndMarker + AssistantMarker + "Hello world" + EndMarker)
      == Some("Hello world")
  {
    var u, a := "Hi", "Hello world";
    MissingChar(u, AssistantMarker, 0);
    MissingChar(u, EndMarker, 0);
    MissingChar(u, OpenTag, 0);
    MissingChar(a, AssistantMarker, 0);
    MissingChar(a, EndMarker, 0);
    MissingChar(a, CloseTag, 0);
    UserTurnThenAnswer(u, a);
  }

  /** Two segments, `<gpt>First</s>middle<gpt>Second</s>`: only the first is returned. */
  lemma FirstSegmentOnly()
    ensures ExtractAnswer(OpenTag + "First" + CloseTag + "middle" + OpenTag + "Second" + CloseTag)
      == Some("First")
  {
    var rest := "middle" + OpenTag + "Second" + CloseTag;
    var text := OpenTag + "First" + CloseTag + rest;
    assert text == OpenTag + "First" + CloseTag + "middle" + OpenTag + "Second" + CloseTag;
    MissingChar(text, AssistantMarker, 1);
    MissingChar(text, EndMarker, 1);
    NormaliseKeepsMarkerFreeText(text);
    MissingChar("First", CloseTag, 0);
    assert text == [] + OpenTag + "First" + CloseTag + rest;
    FirstSegmentWins(text, [], "First", rest);
  }

  /** An answer spanning two lines, `<gpt>line one\nline two</s>`, is returned whole. */
  lemma MultiLineAnswer()
    ensures ExtractAnswer(OpenTag + "line one\nline two" + CloseTag) == Some("line one\nline two")
  {
    var s := "line one\nline two";
    MissingChar(s, AssistantMarker, 0);
    MissingChar(s, EndMarker, 0);
    MissingChar(s, CloseTag, 0);
    TagsAroundAnswer(s);
  }

  /** An empty segment, `<gpt></s>`, is an empty answer, not a missing one. */
  lemma EmptySegment()
    ensures ExtractAnswer(OpenTag + CloseTag) == Some("")
  {
    TagsAroundAnswer("");
    assert OpenTag + "" + CloseTag == OpenTag + CloseTag;
  }

  /** Text without markers has no answer. */
  lemma NoMarkers()
    ensures ExtractAnswer("Hello world") == None
  {
    var s := "Hello world";
    MissingChar(s, AssistantMarker, 0);
    MissingChar(s, OpenTag, 0);
    NoOpeningMarkerNoAnswer(s);
  }
}
