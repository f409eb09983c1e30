/**
 * The route as a whole: the POST branch (grade, then pick the page), and
 * the round trip from a rendered quiz through the client back to the
 * grading loop when the hidden fields come back untouched.
 */
module Quiz {
  import opened Wrappers
  import opened Text
  import opened Loader
  import opened Encoding
  import opened Grading
  import opened Display

  /** The POST branch: grade the submission and render the results page. */
  method HandlePost(form: Form) returns (page: Page)
    ensures page.Summary? <==> SlotsWhere(Slots, CountedIn(form)) != {}
    ensures page.Summary? ==>
              page.total == |SlotsWhere(Slots, CountedIn(form))| &&
              page.score == |SlotsWhere(Slots, ScoredIn(form))| &&
              page.score <= page.total &&
              0.0 <= page.percent <= 100.0
    ensures page.Summary? ==> page.results == ResultsBelow(form, Slots)
  {
    var total, score, results := GradeSubmission(form);
    page := ResultsPage(results, score, total);
  }

  /** The form the browser sends back for a rendered sample: the three
      hidden fields of every question as rendered, and the boxes the user
      ticked (slot `i` sends `selections[i]`, nothing when it is empty). */
  function SubmittedForm(sample: seq<Question>, selections: seq<seq<string>>): Form {
    (map i: nat | i < |sample| :: Answer(i) := [AnswerField(sample[i])])
    + (map i: nat | i < |sample| :: QuestionText(i) := [sample[i].text])
    + (map i: nat | i < |sample| :: Options(i) := [OptionsField(sample[i])])
    + (map i: nat | i < |selections| && selections[i] != [] :: Choice(i) := selections[i])
  }

  function SelectionAt(selections: seq<seq<string>>, i: nat): seq<string> {
    if i < |selections| then selections[i] else []
  }

  /** A sample the hidden fields carry intact: loaded questions whose option
      text holds no `|`. */
  predicate Transportable(sample: seq<Question>) {
    forall k :: 0 <= k < |sample| ==>
      WellFormed(sample[k]) && forall o :: o in sample[k].options ==> OptionSep[0] !in o
  }

  /** The result a rendered slot should produce: for a question with
      answers, its own text, its non-empty options, the user's selections
      and its answers; nothing for a question without answers or for a
      slot beyond the sample. */
  function ExpectedSlot(sample: seq<Question>, selections: seq<seq<string>>, i: nat): Option<QuestionResult> {
    if i < |sample| && sample[i].answers != [] then
      Some(QuestionResult(Some(sample[i].text), NonEmpty(sample[i].options),
                          SelectionAt(selections, i), sample[i].answers))
    else None
  }

  function ExpectedIn(sample: seq<Question>, selections: seq<seq<string>>): nat -> Option<QuestionResult> {
    (i: nat) => ExpectedSlot(sample, selections, i)
  }

  /** The expected results of the slots below `n`, in slot order. */
  function ExpectedResults(sample: seq<Question>, selections: seq<seq<string>>, n: nat): seq<QuestionResult> {
    Collect(n, ExpectedIn(sample, selections))
  }

  /** The slots that hold a rendered question with answers. */
  function AnsweredIn(sample: seq<Question>): nat -> bool {
    (k: nat) => k < |sample| && sample[k].answers != []
  }

  // The values the grading loop reads for slot `i` of an untouched rendered form.

  lemma SubmittedAnswer(sample: seq<Question>, selections: seq<seq<string>>, i: nat)
    ensures Get(SubmittedForm(sample, selections), Answer(i)) ==
            if i < |sample| then Some(AnswerField(sample[i])) else None
  {
  }

  lemma SubmittedOptions(sample: seq<Question>, selections: seq<seq<string>>, i: nat)
    ensures Get(SubmittedForm(sample, selections), Options(i)) ==
            if i < |sample| then Some(OptionsField(sample[i])) else None
  {
  }

  lemma SubmittedText(sample: seq<Question>, selections: seq<seq<string>>, i: nat)
    ensures Get(SubmittedForm(sample, selections), QuestionText(i)) ==
            if i < |sample| then Some(sample[i].text) else None
  {
  }

  lemma SubmittedChoice(sample: seq<Question>, selections: seq<seq<string>>, i: nat)
    ensures GetList(SubmittedForm(sample, selections), Choice(i)) == SelectionAt(selections, i)
  {
  }

  /** Slot `i` of an untouched rendered form is counted exactly when it
      holds a rendered question that has answers. */
  lemma SlotCounted(sample: seq<Question>, selections: seq<seq<string>>, i: nat)
    requires forall k :: 0 <= k < |sample| ==> WellFormed(sample[k])
    ensures Counted(SubmittedForm(sample, selections), i) <==> i < |sample| && sample[i].answers != []
  {
    SubmittedAnswer(sample, selections, i);
    SubmittedOptions(sample, selections, i);
    if i < |sample| {
      AnswerFieldEmpty(sample[i].answers);
      OptionsFieldNotEmpty(sample[i]);
    }
  }

  /** The result recorded for such a slot carries the question's own data. */
  lemma SlotContents(sample: seq<Question>, selections: seq<seq<string>>, i: nat)
    requires Transportable(sample) && i < |sample| && sample[i].answers != []
    requires Counted(SubmittedForm(sample, selections), i)
    ensures SlotResult(SubmittedForm(sample, selections), i) ==
            QuestionResult(Some(sample[i].text), NonEmpty(sample[i].options),
                           SelectionAt(selections, i), sample[i].answers)
  {
    var form := SubmittedForm(sample, selections);
    var q := sample[i];
    SubmittedAnswer(sample, selections, i);
    SubmittedOptions(sample, selections, i);
    SubmittedText(sample, selections, i);
    SubmittedChoice(sample, selections, i);
    LoadedAnswersRoundTrip(q);
    LoadedOptionsRoundTrip(q);
    var r := SlotResult(form, i);
    assert r.correctAnswer == ParseAnswers(AnswerField(q));
    assert r.allOptions == ParseOptionsField(OptionsField(q));
  }

  /** Slot by slot, grading an untouched rendered form gives what the
      sample says it should. */
  lemma GradeSubmittedSlot(sample: seq<Question>, selections: seq<seq<string>>, i: nat)
    requires Transportable(sample)
    ensures GradeSlot(SubmittedForm(sample, selections), i) == ExpectedSlot(sample, selections, i)
  {
    SlotCounted(sample, selections, i);
    if Counted(SubmittedForm(sample, selections), i) {
      SlotContents(sample, selections, i);
    }
  }

  /** Grading an untouched rendered form gives back, in order, one result
      per rendered question that has answers, carrying that question's own
      data; slots beyond the sample contribute nothing. */
  lemma RenderThenGrade(sample: seq<Question>, selections: seq<seq<string>>, n: nat)
    requires Transportable(sample)
    ensures ResultsBelow(SubmittedForm(sample, selections), n) == ExpectedResults(sample, selections, n)
  {
    var form := SubmittedForm(sample, selections);
    forall i: nat | i < n ensures GradeIn(form)(i) == ExpectedIn(sample, selections)(i) {
      GradeSubmittedSlot(sample, selections, i);
    }
    CollectAgree(n, GradeIn(form), ExpectedIn(sample, selections));
  }

  /** One expected result per answered slot. */
  lemma ExpectedResultsLength(sample: seq<Question>, selections: seq<seq<string>>, n: nat)
    ensures |ExpectedResults(sample, selections, n)| == CountBelow(n, AnsweredIn(sample))
  {
    CollectLength(n, ExpectedIn(sample, selections), AnsweredIn(sample));
  }

  /** When every sampled question has answers, the slots below `n` that
      hold one are all those below both `n` and the sample size. */
  lemma {:induction false} CountAllAnswered(sample: seq<Question>, n: nat)
    requires forall k :: 0 <= k < |sample| ==> sample[k].answers != []
    ensures CountBelow(n, AnsweredIn(sample)) == if n <= |sample| then n else |sample|
  {
    if n > 0 {
      CountAllAnswered(sample, n - 1);
    }
  }

  /** The total of an untouched rendered quiz is the number of sampled
      questions that have answers; when all have, it is the sample size. */
  lemma RenderedTotal(sample: seq<Question>, selections: seq<seq<string>>)
    requires Transportable(sample)
    ensures |ResultsBelow(SubmittedForm(sample, selections), Slots)| == |SlotsWhere(Slots, AnsweredIn(sample))|
    ensures (forall k :: 0 <= k < |sample| ==> sample[k].answers != []) && |sample| <= Slots ==>
              |ResultsBelow(SubmittedForm(sample, selections), Slots)| == |sample|
  {
    RenderThenGrade(sample, selections, Slots);
    ExpectedResultsLength(sample, selections, Slots);
    CountBelowIsSize(Slots, AnsweredIn(sample));
    if forall k :: 0 <= k < |sample| ==> sample[k].answers != [] {
      CountAllAnswered(sample, Slots);
    }
  }

  /** Ticking exactly the correct answers of every question scores every
      counted question. */
  lemma AllCorrectScoresTotal(sample: seq<Question>, selections: seq<seq<string>>)
    requires Transportable(sample)
    requires |selections| == |sample|
    requires forall k :: 0 <= k < |sample| ==> selections[k] == sample[k].answers
    ensures var form := SubmittedForm(sample, selections);
            SlotsWhere(Slots, ScoredIn(form)) == SlotsWhere(Slots, CountedIn(form))
  {
    var form := SubmittedForm(sample, selections);
    forall i: nat | i < Slots ensures ScoredIn(form)(i) == CountedIn(form)(i) {
      SlotCounted(sample, selections, i);
      if Counted(form, i) {
        SlotContents(sample, selections, i);
      }
    }
  }

  /** A question with options Paris, London and three empty slots and the
      answer Paris. */
  const Paris := Question("Capital of France?", ["Paris", "London", "", "", ""], ["Paris"])

  lemma ParisTransportable()
    ensures Transportable([Paris])
  {
    assert IsTrimmed("Paris") && IsTrimmed("London") && IsTrimmed("Capital of France?");
    assert forall o :: o in Paris.options ==> OptionSep[0] !in o;
  }

  lemma ParisOptionLines()
    ensures OptionLinesOf(NonEmpty(Paris.options), ["Paris"], ["Paris"]) == [("Paris", Correct), ("London", Normal)]
  {
    assert NonEmpty(Paris.options) == ["Paris", "London"];
  }

  /** Answered with Paris, the question is counted and the options shown
      are Paris, marked correct, and London, marked normal. */
  lemma ParisExample()
    ensures
      var form := SubmittedForm([Paris], [["Paris"]]);
      Counted(form, 0) &&
      OptionLines(SlotResult(form, 0)) == [("Paris", Correct), ("London", Normal)]
  {
    ParisTransportable();
    SlotCounted([Paris], [["Paris"]], 0);
    SlotContents([Paris], [["Paris"]], 0);
    ParisOptionLines();
  }
}
