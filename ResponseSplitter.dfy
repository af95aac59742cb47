/**
  The completion splitter of the question-answering handler: it cuts the
  provider's completion into a summary and an answer at the literal "Answer:",
  drops the first "Summary:" from the summary part and normalises both parts
  with `cleanText`. The two provider branches of the handler (server.js lines
  96-101 and 128-133) contain this code word for word; it is modelled once.
 */
module ResponseSplitter {
  import opened JsStrings
  import opened TextNormalizer

  const AnswerMarker: string := "Answer:"
  const SummaryMarker: string := "Summary:"
  const NoAnswer: string := "No answer provided"

  /** The `{ summary, answer }` pair the handler sends back. */
  datatype StructuredAnswer = StructuredAnswer(summary: string, answer: string)

  /** JavaScript's `x || d` for a string that may be undefined: `d` when `x`
      is undefined or "" (the falsy strings), `x` otherwise. */
  function OrElse(x: Option<string>, d: string): (r: string)
    ensures x.None? || x.value == "" ==> r == d
    ensures x.Some? && x.value != "" ==> r == x.value
  {
    if x.Some? && x.value != "" then x.value else d
  }

  /** Cuts the completion at every "Answer:". The summary is the first piece
      less its first "Summary:", cleaned; the answer is the second piece
      cleaned, or the placeholder when that piece is missing or empty. Both
      fields are free of `*` and of surrounding whitespace. */
  function SplitCompletion(content: string): (r: StructuredAnswer)
    ensures '*' !in r.summary && '*' !in r.answer
    ensures Trimmed(r.summary) && Trimmed(r.answer)
  {
    var parts := Split(content, AnswerMarker);
    var second := if |parts| > 1 then Some(parts[1]) else None;
    StructuredAnswer(
      CleanText(ReplaceFirst(parts[0], SummaryMarker, "")),
      CleanText(OrElse(second, NoAnswer)))
  }

  lemma NoAnswerIsClean()
    ensures CleanText(NoAnswer) == NoAnswer
  {
    assert '*' !in NoAnswer && Trimmed(NoAnswer);
    CleanTextFixesCleanText(NoAnswer);
  }

  /** The split described through the first and second "Answer:" directly:
      with no marker the whole text is the summary and the answer is the
      placeholder; otherwise the summary comes from the text before the first
      marker and the answer from the segment between the first marker and the
      second one (or the end), the placeholder standing in only for an empty
      segment. */
  lemma SplitCompletionSpec(content: string)
    ensures var r := SplitCompletion(content);
      match IndexOf(content, AnswerMarker)
      case None =>
        && r.summary == CleanText(ReplaceFirst(content, SummaryMarker, ""))
        && r.answer == NoAnswer
      case Some(i) =>
        var segment := Before(content[i + |AnswerMarker|..], AnswerMarker);
        && r.summary == CleanText(ReplaceFirst(content[..i], SummaryMarker, ""))
        && r.answer == if segment == "" then NoAnswer else CleanText(segment)
  {
    NoAnswerIsClean();
    if IndexOf(content, AnswerMarker).Some? {
      SplitSecond(content, AnswerMarker);
    }
  }

  /** The summary is the cleaned text before the first "Answer:" (all of it
      when there is none), with the first "Summary:" in it removed, wherever
      that occurrence is. */
  lemma SummaryIsCleanedPrefix(content: string)
    ensures SplitCompletion(content).summary
         == CleanText(ReplaceFirst(Before(content, AnswerMarker), SummaryMarker, ""))
  {
    SplitCompletionSpec(content);
  }

  /** The answer is the placeholder exactly when there is no "Answer:", or the
      segment after the first one is empty, or the segment itself cleans to the
      placeholder's text. */
  lemma AnswerIsPlaceholderIff(content: string)
    ensures var r := SplitCompletion(content);
      r.answer == NoAnswer <==>
        match IndexOf(content, AnswerMarker)
        case None => true
        case Some(i) =>
          var segment := Before(content[i + |AnswerMarker|..], AnswerMarker);
          segment == "" || CleanText(segment) == NoAnswer
  {
    SplitCompletionSpec(content);
  }

  /** A segment after the first "Answer:" that holds only whitespace and `*`
      is not empty, so the placeholder is not used: the answer is "". */
  lemma BlankSegmentGivesEmptyAnswer(content: string)
    requires IndexOf(content, AnswerMarker).Some?
    requires var i := IndexOf(content, AnswerMarker).value;
      var segment := Before(content[i + |AnswerMarker|..], AnswerMarker);
      segment != "" && forall k :: 0 <= k < |segment| ==> segment[k] == '*' || IsWs(segment[k])
    ensures SplitCompletion(content).answer == ""
  {
    SplitCompletionSpec(content);
    var i := IndexOf(content, AnswerMarker).value;
    CleanTextBlank(Before(content[i + |AnswerMarker|..], AnswerMarker));
  }

  /** A text holding "Answer:" exactly once splits into the cleaned text
      before it (less its first "Summary:") and the cleaned text after it, or
      the placeholder when nothing follows the marker. */
  lemma SingleMarker(content: string, pre: string, post: string)
    requires content == pre + AnswerMarker + post
    requires forall j :: OccursAt(content, AnswerMarker, j) ==> j == |pre|
    ensures SplitCompletion(content).summary == CleanText(ReplaceFirst(pre, SummaryMarker, ""))
    ensures SplitCompletion(content).answer == if post == "" then NoAnswer else CleanText(post)
  {
    var n := |pre| + |AnswerMarker|;
    assert content[|pre|..n] == AnswerMarker;
    assert OccursAt(content, AnswerMarker, |pre|);
    assert IndexOf(content, AnswerMarker) == Some(|pre|);
    assert content[..|pre|] == pre;
    assert content[n..] == post;
    forall j | OccursAt(post, AnswerMarker, j) ensures false {
      OccursInSuffix(content, n, AnswerMarker, j);
    }
    assert Before(post, AnswerMarker) == post;
    SplitCompletionSpec(content);
  }

  /** With no "Answer:" at all, the whole text (less its first "Summary:")
      is the summary and the answer is the placeholder. */
  lemma NoMarker(content: string)
    requires forall j :: !OccursAt(content, AnswerMarker, j)
    ensures SplitCompletion(content)
         == StructuredAnswer(CleanText(ReplaceFirst(content, SummaryMarker, "")), NoAnswer)
  {
    SplitCompletionSpec(content);
  }

  /** A completion in the requested format, "Summary:" text "Answer:" text,
      where neither text holds an "A", splits into the two cleaned texts (the
      placeholder standing in for an empty answer text). */
  lemma WellFormedCompletion(content: string, summary: string, answer: string)
    requires content == SummaryMarker + summary + AnswerMarker + answer
    requires 'A' !in summary && 'A' !in answer
    ensures SplitCompletion(content)
         == StructuredAnswer(CleanText(summary), if answer == "" then NoAnswer else CleanText(answer))
  {
    var pre := SummaryMarker + summary;
    assert content == pre + AnswerMarker + answer;
    assert 'A' !in pre;
    SoleOccurrence(pre, AnswerMarker, answer);
    SingleMarker(content, pre, answer);
    ReplaceFirstAtStart(SummaryMarker, summary);
  }

  /** A plain text with no "A", no "S", no `*` and no surrounding whitespace
      is its own summary, and the answer is the placeholder. */
  lemma PlainText(content: string)
    requires 'A' !in content && 'S' !in content && '*' !in content && Trimmed(content)
    ensures SplitCompletion(content) == StructuredAnswer(content, NoAnswer)
  {
    NoOccurrence(content, AnswerMarker);
    NoMarker(content);
    NoOccurrence(content, SummaryMarker);
    CleanTextFixesCleanText(content);
  }

  /** The first worked example: a completion in the requested format,
      "Summary: Paris is the capital.\nAnswer: **Paris**.", written here as
      its four parts. */
  lemma ParisExample()
    ensures SplitCompletion("Summary:" + " Paris is the capital.\n" + "Answer:" + " **Paris**.")
         == StructuredAnswer("Paris is the capital.", "Paris.")
  {
    ParisParts(" Paris is the capital.\n", " **Paris**.");
  }

  lemma ParisParts(summary: string, answer: string)
    requires summary == " Paris is the capital.\n" && answer == " **Paris**."
    ensures SplitCompletion(SummaryMarker + summary + AnswerMarker + answer)
         == StructuredAnswer("Paris is the capital.", "Paris.")
  {
    WellFormedCompletion(SummaryMarker + summary + AnswerMarker + answer, summary, answer);
    ParisSummary(summary);
    ParisAnswer(answer);
  }

  lemma ParisSummary(text: string)
    requires text == " Paris is the capital.\n"
    ensures CleanText(text) == "Paris is the capital."
  {
    SummaryPieces(text);
    CleanTextStarFree(" ", "Paris is the capital.", "\n");
  }

  lemma SummaryPieces(text: string)
    requires text == " Paris is the capital.\n"
    ensures text == " " + "Paris is the capital." + "\n"
  {
  }

  lemma ParisAnswer(text: string)
    requires text == " **Paris**."
    ensures CleanText(text) == "Paris."
  {
    BoldWord(text, " ", "Paris.", 5);
  }

  /** A word in bold followed by the rest of its sentence, after whitespace. */
  lemma BoldWord(text: string, sp: string, m: string, n: nat)
    requires n <= |m| && text == sp + "**" + m[..n] + "**" + m[n..]
    requires AllWs(sp) && '*' !in sp + m && Trimmed(m)
    ensures CleanText(text) == m
  {
    CleanTextIsTrimWithoutStars(text);
    BoldWithout(text, sp, m, n);
    TrimLeadingWs(sp, m);
  }

  lemma BoldWithout(text: string, sp: string, m: string, n: nat)
    requires n <= |m| && text == sp + "**" + m[..n] + "**" + m[n..]
    requires '*' !in sp + m
    ensures Without(text, '*') == sp + m
  {
    WithoutDropsBold(sp, m[..n], m[n..]);
    assert sp + m[..n] + m[n..] == sp + m;
    WithoutAbsent(sp + m, '*');
  }

  /** The second worked example: a text without any marker. */
  lemma PlainTextExample()
    ensures SplitCompletion("Just some text") == StructuredAnswer("Just some text", NoAnswer)
  {
    PlainTextParts("Just some text");
  }

  lemma PlainTextParts(content: string)
    requires content == "Just some text"
    ensures SplitCompletion(content) == StructuredAnswer(content, NoAnswer)
  {
    PlainText(content);
  }
}
