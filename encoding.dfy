/**
 * The hidden form fields that carry each question's grading data through
 * the client: the render side joins the answers with `;` and the option
 * slots with `||`; the grading side splits, trims and drops empty pieces.
 */
module Encoding {
  import opened Text
  import opened Loader

  /** The separator of the hidden options field. */
  const OptionSep: string := "||"

  /** The hidden `answer{i}` value: `q.answer | join(';')`. */
  function AnswerField(q: Question): string {
    Join(q.answers, AnswerSep)
  }

  /** The hidden `options{i}` value: `q.options | join('||')`. */
  function OptionsField(q: Question): string {
    Join(q.options, OptionSep)
  }

  /** `[opt.strip() for opt in raw.split("||") if opt.strip()]`. */
  function ParseOptionsField(raw: string): (options: seq<string>)
    ensures forall o :: o in options ==> o != [] && IsTrimmed(o)
  {
    SplitClean(raw, OptionSep)
  }

  /** For any value the client sends, the options are its `||`-pieces
      stripped, with the empty ones dropped, in order. */
  lemma ParseOptionsFieldStripsPieces(raw: string)
    ensures ParseOptionsField(raw) == NonEmpty(StripAll(Split(raw, OptionSep)))
  {
    CleanIsStripThenDrop(Split(raw, OptionSep));
  }

  /** Answers that are trimmed, non-empty and free of `;` survive the
      join and the re-parse unchanged, in order and with duplicates. */
  lemma AnswersRoundTrip(xs: seq<string>)
    requires forall x :: x in xs ==> x != [] && IsTrimmed(x) && AnswerSep[0] !in x
    ensures ParseAnswers(Join(xs, AnswerSep)) == xs
  {
    if xs == [] {
      assert Split([], AnswerSep) == [[]];
    } else {
      SplitJoin(xs, AnswerSep);
      CleanTrimmed(xs);
      NonEmptyAll(xs);
    }
  }

  /** Option slots that are trimmed and free of `|` come back as exactly
      the non-empty slots, in order: an empty `option5` slot disappears. */
  lemma OptionsRoundTrip(opts: seq<string>)
    requires forall o :: o in opts ==> IsTrimmed(o) && OptionSep[0] !in o
    ensures ParseOptionsField(Join(opts, OptionSep)) == NonEmpty(opts)
  {
    if opts == [] {
      assert Split([], OptionSep) == [[]];
    } else {
      SplitJoin(opts, OptionSep);
      CleanTrimmed(opts);
    }
  }

  /** A loaded question's answers always survive the hidden field, since
      loading already trimmed them, dropped empties and split on `;`. */
  lemma LoadedAnswersRoundTrip(q: Question)
    requires WellFormed(q)
    ensures ParseAnswers(AnswerField(q)) == q.answers
  {
    AnswersRoundTrip(q.answers);
  }

  /** A loaded question's options survive the hidden field when no option
      contains `|`. */
  lemma LoadedOptionsRoundTrip(q: Question)
    requires WellFormed(q)
    requires forall o :: o in q.options ==> OptionSep[0] !in o
    ensures ParseOptionsField(OptionsField(q)) == NonEmpty(q.options)
  {
    forall o | o in q.options ensures IsTrimmed(o) {
      var k :| 0 <= k < |q.options| && q.options[k] == o;
    }
    OptionsRoundTrip(q.options);
  }

  /** The hidden answer value is empty exactly when the question has no
      answers; the grading side then skips the question. */
  lemma {:induction false} AnswerFieldEmpty(xs: seq<string>)
    requires forall x :: x in xs ==> x != []
    ensures Join(xs, AnswerSep) == [] <==> xs == []
  {
    if xs != [] {
      assert xs[0] in xs;
    }
  }

  /** The hidden options value of five slots is never empty: it holds
      four separators whatever the slots are. */
  lemma OptionsFieldNotEmpty(q: Question)
    requires |q.options| == 5
    ensures OptionsField(q) != []
  {
    var o := q.options;
    assert Join(o, OptionSep) == o[0] + OptionSep + Join(o[1..], OptionSep);
  }
}
