/**
 * The decisions the results page makes: the class of each displayed
 * option, and whether the score summary (and so the percentage division)
 * is rendered at all.
 */
module Display {
  import opened Text
  import opened Grading

  /** The CSS class an option is shown with. */
  datatype Highlight = Correct | Wrong | Normal

  /** The conditional at line 97, branch by branch. */
  function Classify(opt: string, correct: seq<string>, user: seq<string>): (h: Highlight)
    ensures h == Correct <==> opt in correct
    ensures h == Wrong <==> opt in user && opt !in correct
    ensures h == Normal <==> opt !in correct && opt !in user
  {
    if opt in correct && opt in user then Correct
    else if opt in user && opt !in correct then Wrong
    else if opt in correct then Correct
    else Normal
  }

  /** The option lines shown for one result: every non-empty option, in
      order, with its class. */
  function OptionLines(r: QuestionResult): (lines: seq<(string, Highlight)>)
    ensures |lines| == |NonEmpty(r.allOptions)|
    ensures forall k :: 0 <= k < |lines| ==> lines[k].0 == NonEmpty(r.allOptions)[k]
    ensures forall k :: 0 <= k < |lines| ==>
              lines[k].0 != [] && lines[k].0 in r.allOptions &&
              lines[k].1 == Classify(lines[k].0, r.correctAnswer, r.userAnswer)
  {
    OptionLinesOf(r.allOptions, r.correctAnswer, r.userAnswer)
  }

  function OptionLinesOf(opts: seq<string>, correct: seq<string>, user: seq<string>)
    : (lines: seq<(string, Highlight)>)
    ensures |lines| == |NonEmpty(opts)| <= |opts|
    ensures forall k :: 0 <= k < |lines| ==> lines[k].0 == NonEmpty(opts)[k]
    ensures forall k :: 0 <= k < |lines| ==>
              lines[k].0 != [] && lines[k].0 in opts && lines[k].1 == Classify(lines[k].0, correct, user)
  {
    if opts == [] then []
    else
      var rest := OptionLinesOf(opts[1..], correct, user);
      assert forall o :: o in opts[1..] ==> o in opts;
      (if opts[0] != [] then [(opts[0], Classify(opts[0], correct, user))] else []) + rest
  }

  /** A correct selection shows no option as wrong: each selected option is
      then among the correct answers. */
  lemma CorrectSelectionShowsNoWrong(r: QuestionResult)
    requires IsCorrect(r.userAnswer, r.correctAnswer)
    ensures forall k :: 0 <= k < |OptionLines(r)| ==> OptionLines(r)[k].1 != Wrong
  {
    IsCorrectIffSameMultiset(r.userAnswer, r.correctAnswer);
    forall o | o in r.userAnswer ensures o in r.correctAnswer {
      assert o in multiset(r.userAnswer);
    }
  }

  /** The page the grading branch renders. */
  datatype Page =
    | Blank
    | Summary(score: nat, total: nat, percent: real, results: seq<QuestionResult>)

  /** The `{% elif results %}` branch: the summary, with `score / total * 100`,
      is rendered only when there are results; otherwise the page body is
      empty. The division is safe because a non-empty result list means a
      positive total. */
  function ResultsPage(results: seq<QuestionResult>, score: nat, total: nat): (p: Page)
    requires results != [] ==> total > 0
    ensures p.Summary? <==> results != []
    ensures p.Summary? ==> p.percent * (total as real) == (score as real) * 100.0
    ensures p.Summary? && score <= total ==> 0.0 <= p.percent <= 100.0
  {
    if results == [] then Blank
    else Summary(score, total, (score as real) / (total as real) * 100.0, results)
  }
}
