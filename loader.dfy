/**
 * `load_questions`: the rows of the question file are filtered, each kept
 * row is parsed into a question, and a sample of at most 50 of them is
 * drawn without replacement.
 */
module Loader {
  import opened Wrappers
  import opened Text

  /** A row as `csv.DictReader` yields it: column name to cell text. */
  type Row = map<string, string>

  /** A parsed question: trimmed text, the five option slots in column
      order (an empty slot stays in the list), and the correct answers. */
  datatype Question = Question(text: string, options: seq<string>, answers: seq<string>)

  /** The separator of the `answer` column. */
  const AnswerSep: string := ";"

  /** The largest sample drawn. */
  const SampleCap: nat := 50

  /** `row.get(key)` is truthy: the column exists and its raw, untrimmed
      text is not empty. */
  predicate Present(row: Row, key: string) {
    key in row && row[key] != ""
  }

  /** The row filter: the question, the first four options and the answer
      are present; `option5` is not required. */
  predicate Keep(row: Row) {
    && Present(row, "question")
    && Present(row, "option1")
    && Present(row, "option2")
    && Present(row, "option3")
    && Present(row, "option4")
    && Present(row, "answer")
  }

  /** `row.get(key, default)`. */
  function GetOr(row: Row, key: string, default: string): string {
    if key in row then row[key] else default
  }

  /** What every parsed question satisfies: trimmed text, exactly five
      trimmed option slots, and answers that are trimmed, non-empty and free
      of the answer separator. */
  predicate WellFormed(q: Question) {
    && IsTrimmed(q.text)
    && |q.options| == 5
    && (forall k :: 0 <= k < |q.options| ==> IsTrimmed(q.options[k]))
    && (forall a :: a in q.answers ==> a != [] && IsTrimmed(a) && AnswerSep[0] !in a)
  }

  /** The record built for a kept row. */
  function ParseRow(row: Row): (q: Question)
    requires "question" in row && "answer" in row
    ensures WellFormed(q)
    ensures q.text == [] <==> AllSpace(row["question"])
    ensures q.answers == [] <==> forall p :: p in Split(row["answer"], AnswerSep) ==> AllSpace(p)
  {
    Question(Strip(row["question"]), ParseOptions(row), ParseAnswers(row["answer"]))
  }

  /** The five option columns, in slot order. */
  const OptionKeys: seq<string> := ["option1", "option2", "option3", "option4", "option5"]

  /** The five option slots, each `row.get(f"option{k}", "").strip()`. */
  function ParseOptions(row: Row): (options: seq<string>)
    ensures |options| == 5
    ensures forall k :: 0 <= k < 5 ==> IsTrimmed(options[k])
  {
    seq(5, k requires 0 <= k < 5 => Strip(GetOr(row, OptionKeys[k], "")))
  }

  /** `[ans.strip() for ans in raw.split(";") if ans.strip()]`. */
  function ParseAnswers(raw: string): (answers: seq<string>)
    ensures forall a :: a in answers ==> a != [] && IsTrimmed(a) && AnswerSep[0] !in a
    ensures answers == [] <==> forall p :: p in Split(raw, AnswerSep) ==> AllSpace(p)
  {
    SplitPiecesAvoidSep(raw, AnswerSep);
    CleanAvoids(Split(raw, AnswerSep), AnswerSep[0]);
    CleanEmpty(Split(raw, AnswerSep));
    SplitClean(raw, AnswerSep)
  }

  /** The answers are the `;`-pieces of the cell, each stripped, with the
      empty ones dropped: in cell order, duplicates kept. */
  lemma ParseAnswersStripsPieces(raw: string)
    ensures ParseAnswers(raw) == NonEmpty(StripAll(Split(raw, AnswerSep)))
  {
    CleanIsStripThenDrop(Split(raw, AnswerSep));
  }

  /** Cleaning drops everything exactly when every piece is whitespace. */
  lemma {:induction false} CleanEmpty(parts: seq<string>)
    ensures Clean(parts) == [] <==> forall p :: p in parts ==> AllSpace(p)
  {
    if parts != [] {
      CleanEmpty(parts[1..]);
      assert forall p :: p in parts <==> p == parts[0] || p in parts[1..];
    }
  }

  /** What the read loop takes from one row: its question when the row is
      kept, nothing otherwise. */
  function LoadRow(row: Row): Option<Question> {
    if Keep(row) then Some(ParseRow(row)) else None
  }

  /** What `load` takes from each row, in row order. */
  function Gather<R, Q>(rows: seq<R>, load: R -> Option<Q>): seq<Q> {
    if rows == [] then []
    else
      var r := load(rows[|rows| - 1]);
      Gather(rows[..|rows| - 1], load) + (if r.Some? then [r.value] else [])
  }

  /** The questions the read loop collects from `rows`: one per kept row, in
      row order. */
  function ValidQuestions(rows: seq<Row>): seq<Question> {
    Gather(rows, LoadRow)
  }

  /** The read loop. */
  method ReadQuestions(rows: seq<Row>) returns (questions: seq<Question>)
    ensures questions == ValidQuestions(rows)
  {
    questions := [];
    for i := 0 to |rows|
      invariant questions == ValidQuestions(rows[..i])
    {
      assert rows[..i + 1][..i] == rows[..i];
      var row := rows[i];
      if !Keep(row) {
        continue;
      }
      questions := questions + [ParseRow(row)];
    }
    assert rows[..|rows|] == rows;
  }

  /** Every loaded question is well formed. */
  lemma ValidQuestionsWellFormed(rows: seq<Row>)
    ensures forall q :: q in ValidQuestions(rows) ==> WellFormed(q)
  {
    forall q | q in ValidQuestions(rows) ensures WellFormed(q) {
      var k := GatheredFrom(rows, LoadRow, q);
    }
  }

  /** A question is loaded exactly when some kept row parses to it. */
  lemma ValidQuestionsFromKeptRows(rows: seq<Row>, q: Question)
    ensures q in ValidQuestions(rows) <==>
            exists k :: 0 <= k < |rows| && Keep(rows[k]) && ParseRow(rows[k]) == q
  {
    if q in ValidQuestions(rows) {
      var k := GatheredFrom(rows, LoadRow, q);
      assert Keep(rows[k]) && ParseRow(rows[k]) == q;
    }
    if exists k :: 0 <= k < |rows| && Keep(rows[k]) && ParseRow(rows[k]) == q {
      var k :| 0 <= k < |rows| && Keep(rows[k]) && ParseRow(rows[k]) == q;
      assert LoadRow(rows[k]) == Some(q);
      GatheredAll(rows, LoadRow, k);
    }
  }

  /** Everything gathered comes from some row. */
  lemma {:induction false} GatheredFrom<R, Q>(rows: seq<R>, load: R -> Option<Q>, q: Q) returns (k: nat)
    requires q in Gather(rows, load)
    ensures k < |rows| && load(rows[k]) == Some(q)
  {
    var init := rows[..|rows| - 1];
    if q in Gather(init, load) {
      k := GatheredFrom(init, load, q);
      assert init[k] == rows[k];
    } else {
      k := |rows| - 1;
    }
  }

  /** Whatever a row yields is gathered. */
  lemma {:induction false} GatheredAll<R, Q>(rows: seq<R>, load: R -> Option<Q>, k: nat)
    requires k < |rows| && load(rows[k]).Some?
    ensures load(rows[k]).value in Gather(rows, load)
  {
    var init := rows[..|rows| - 1];
    if k < |init| {
      assert init[k] == rows[k];
      GatheredAll(init, load, k);
    }
  }

  /** At most one question per row. */
  lemma ValidQuestionsLength(rows: seq<Row>)
    ensures |ValidQuestions(rows)| <= |rows|
  {
    GatherLength(rows, LoadRow);
  }

  lemma {:induction false} GatherLength<R, Q>(rows: seq<R>, load: R -> Option<Q>)
    ensures |Gather(rows, load)| <= |rows|
  {
    if rows != [] {
      GatherLength(rows[..|rows| - 1], load);
    }
  }

  /** The filter reads `option5` not at all. */
  lemma KeepIgnoresOption5(row: Row, v: string)
    ensures Keep(row["option5" := v]) == Keep(row - {"option5"}) == Keep(row)
  {
  }

  /** The filter looks at raw text: a kept row whose question or answer
      cell is only whitespace parses to empty text or to no answer at all. */
  lemma {:induction false} WhitespaceCellsParseEmpty(row: Row)
    requires Keep(row)
    ensures AllSpace(row["question"]) ==> ParseRow(row).text == []
    ensures (forall p :: p in Split(row["answer"], AnswerSep) ==> AllSpace(p)) ==>
              ParseRow(row).answers == []
    ensures AllSpace(row["answer"]) ==> ParseRow(row).answers == []
  {
    if AllSpace(row["answer"]) {
      var raw := row["answer"];
      assert !IsSpace(AnswerSep[0]);
      assert AnswerSep[0] !in raw;
      SplitWithoutSep(raw, AnswerSep);
    }
  }

  /** Such a row exists: every required cell is a single space. */
  lemma WhitespaceRowKept(row: Row)
    requires row == map["question" := " ", "option1" := " ", "option2" := " ",
                        "option3" := " ", "option4" := " ", "answer" := " "]
    ensures Keep(row) && ParseRow(row).text == [] && ParseRow(row).answers == []
  {
    assert IsSpace(' ');
    assert AllSpace(" ");
    WhitespaceCellsParseEmpty(row);
  }

  function Min(a: nat, b: nat): nat {
    if a <= b then a else b
  }

  /** `random.sample(questions, min(50, len(questions)))`: the random
      generator is replaced by a nondeterministic choice, so the contract
      holds for every choice it could make. The chosen positions come back
      alongside the sample. */
  method Sample(questions: seq<Question>) returns (sample: seq<Question>, positions: seq<nat>)
    ensures |sample| == |positions| == Min(SampleCap, |questions|)
    ensures forall k :: 0 <= k < |positions| ==>
              positions[k] < |questions| && sample[k] == questions[positions[k]]
    ensures forall k, l :: 0 <= k < l < |positions| ==> positions[k] != positions[l]
  {
    var n := Min(SampleCap, |questions|);
    var remaining: seq<nat> := seq(|questions|, i => i);
    sample, positions := [], [];
    while |sample| < n
      invariant |sample| == |positions| <= n
      invariant |remaining| + |positions| == |questions|
      invariant forall k :: 0 <= k < |remaining| ==> remaining[k] < |questions|
      invariant forall k, l :: 0 <= k < l < |remaining| ==> remaining[k] != remaining[l]
      invariant forall k :: 0 <= k < |positions| ==>
                  positions[k] < |questions| && sample[k] == questions[positions[k]]
      invariant forall k, l :: 0 <= k < l < |positions| ==> positions[k] != positions[l]
      invariant forall k, l :: 0 <= k < |positions| && 0 <= l < |remaining| ==>
                  positions[k] != remaining[l]
      decreases n - |sample|
    {
      var j :| 0 <= j < |remaining|;
      var p := remaining[j];
      remaining := remaining[..j] + remaining[j + 1..];
      positions := positions + [p];
      sample := sample + [questions[p]];
    }
  }

  /** `load_questions`: read the rows, keep and parse the valid ones, draw
      the sample. */
  method LoadQuestions(rows: seq<Row>) returns (sample: seq<Question>, positions: seq<nat>)
    ensures |sample| == |positions| == Min(SampleCap, |ValidQuestions(rows)|)
    ensures forall k :: 0 <= k < |positions| ==>
              positions[k] < |ValidQuestions(rows)| && sample[k] == ValidQuestions(rows)[positions[k]]
    ensures forall k, l :: 0 <= k < l < |positions| ==> positions[k] != positions[l]
    ensures forall q :: q in sample ==> WellFormed(q)
  {
    var questions := ReadQuestions(rows);
    sample, positions := Sample(questions);
    ValidQuestionsWellFormed(rows);
    forall q | q in sample ensures WellFormed(q) {
      var k :| 0 <= k < |sample| && sample[k] == q;
      assert questions[positions[k]] in questions;
    }
  }
}
