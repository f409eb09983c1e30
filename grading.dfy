/**
 * The POST branch of the quiz route: for each of the 50 question slots it
 * reads the submitted selections and the three hidden fields, skips a slot
 * whose answer or options field is missing or empty, re-parses the hidden
 * fields, counts the slot and scores it when the sorted selections equal
 * the sorted correct answers.
 */
module Grading {
  import opened Wrappers
  import opened Ordering
  import opened Loader
  import opened Encoding

  /** The form fields of slot `i`: `q{i}` (checkbox selections),
      `answer{i}`, `text{i}` and `options{i}` (hidden). */
  datatype Field = Choice(i: nat) | Answer(i: nat) | QuestionText(i: nat) | Options(i: nat)

  /** A submitted form: every field name with the list of values sent for it. */
  type Form = map<Field, seq<string>>

  /** The number of slots the grading loop walks: `range(50)`. */
  const Slots: nat := 50

  /** `request.form.get(f)`: the first value sent, or `None`. */
  function Get(form: Form, f: Field): (v: Option<string>)
    ensures v.Some? <==> GetList(form, f) != []
    ensures v.Some? ==> v.value == GetList(form, f)[0]
  {
    if f in form && |form[f]| > 0 then Some(form[f][0]) else None
  }

  /** `request.form.getlist(f)`: every value sent, in order. */
  function GetList(form: Form, f: Field): seq<string> {
    if f in form then form[f] else []
  }

  /** Python truthiness of an optional string. */
  predicate Truthy(v: Option<string>) {
    v.Some? && v.value != []
  }

  /** One graded question as the results page receives it. */
  datatype QuestionResult = QuestionResult(
    question: Option<string>,
    allOptions: seq<string>,
    userAnswer: seq<string>,
    correctAnswer: seq<string>)

  /** `sorted(selected) == sorted(correct_answers)`. */
  predicate IsCorrect(selected: seq<string>, correct: seq<string>) {
    Sort(selected) == Sort(correct)
  }

  /** Slot `i` is counted: both its hidden answer field and its hidden
      options field were sent and are not empty. */
  predicate Counted(form: Form, i: nat) {
    Truthy(Get(form, Answer(i))) && Truthy(Get(form, Options(i)))
  }

  /** The result recorded for a counted slot. The selections are taken as
      sent, without trimming. */
  function SlotResult(form: Form, i: nat): QuestionResult
    requires Counted(form, i)
  {
    QuestionResult(
      Get(form, QuestionText(i)),
      ParseOptionsField(Get(form, Options(i)).value),
      GetList(form, Choice(i)),
      ParseAnswers(Get(form, Answer(i)).value))
  }

  /** A counted slot whose selections are correct. */
  predicate Scored(form: Form, i: nat) {
    Counted(form, i) && IsCorrect(SlotResult(form, i).userAnswer, SlotResult(form, i).correctAnswer)
  }

  /** What slot `i` contributes: nothing when it is not counted. */
  function GradeSlot(form: Form, i: nat): Option<QuestionResult> {
    if Counted(form, i) then Some(SlotResult(form, i)) else None
  }

  /** What the slots below `n` contribute, in slot order. */
  function Collect<T>(n: nat, slot: nat -> Option<T>): seq<T> {
    if n == 0 then []
    else
      var r := slot(n - 1);
      Collect(n - 1, slot) + (if r.Some? then [r.value] else [])
  }

  function GradeIn(form: Form): nat -> Option<QuestionResult> {
    (i: nat) => GradeSlot(form, i)
  }

  /** The results list after the slots below `n`. */
  function ResultsBelow(form: Form, n: nat): seq<QuestionResult> {
    Collect(n, GradeIn(form))
  }

  /** How many slots below `n` satisfy `p`. */
  function CountBelow(n: nat, p: nat -> bool): nat {
    if n == 0 then 0 else CountBelow(n - 1, p) + if p(n - 1) then 1 else 0
  }

  /** The slots below `n` that satisfy `p`. */
  function SlotsWhere(n: nat, p: nat -> bool): set<nat> {
    set i: nat | i < n && p(i)
  }

  function CountedIn(form: Form): nat -> bool {
    (i: nat) => Counted(form, i)
  }

  function ScoredIn(form: Form): nat -> bool {
    (i: nat) => Scored(form, i)
  }

  /** The grading loop. */
  method GradeSubmission(form: Form) returns (total: nat, score: nat, results: seq<QuestionResult>)
    ensures results == ResultsBelow(form, Slots)
    ensures total == |results| == |SlotsWhere(Slots, CountedIn(form))|
    ensures score == |SlotsWhere(Slots, ScoredIn(form))|
    ensures score <= total <= Slots
  {
    total, score, results := 0, 0, [];
    for i := 0 to Slots
      invariant results == ResultsBelow(form, i)
      invariant total == |results|
      invariant score == CountBelow(i, ScoredIn(form))
    {
      var selected := GetList(form, Choice(i));
      var answerRaw := Get(form, Answer(i));
      var questionText := Get(form, QuestionText(i));
      var optionsRaw := Get(form, Options(i));
      if !Truthy(answerRaw) || !Truthy(optionsRaw) {
        continue;
      }
      var correctAnswers := ParseAnswers(answerRaw.value);
      var allOptions := ParseOptionsField(optionsRaw.value);
      total := total + 1;
      var r := QuestionResult(questionText, allOptions, selected, correctAnswers);
      if Sort(selected) == Sort(correctAnswers) {
        score := score + 1;
      }
      assert (results + [r])[..|results|] == results;
      results := results + [r];
    }
    ResultsCountCountedSlots(form, Slots);
    CountBelowIsSize(Slots, CountedIn(form));
    CountBelowIsSize(Slots, ScoredIn(form));
    CountBelowMonotone(Slots, ScoredIn(form), CountedIn(form));
  }

  // ---------------------------------------------------------------------
  // Counting.

  /** Counting slot by slot gives the number of qualifying slots. */
  lemma {:induction false} CountBelowIsSize(n: nat, p: nat -> bool)
    ensures CountBelow(n, p) == |SlotsWhere(n, p)| <= n
  {
    if n > 0 {
      CountBelowIsSize(n - 1, p);
      if p(n - 1) {
        assert SlotsWhere(n, p) == SlotsWhere(n - 1, p) + {n - 1};
      } else {
        assert SlotsWhere(n, p) == SlotsWhere(n - 1, p);
      }
    }
  }

  /** A weaker condition counts at least as many slots. */
  lemma {:induction false} CountBelowMonotone(n: nat, p: nat -> bool, q: nat -> bool)
    requires forall i: nat :: p(i) ==> q(i)
    ensures CountBelow(n, p) <= CountBelow(n, q)
  {
    if n > 0 {
      CountBelowMonotone(n - 1, p, q);
    }
  }

  /** The results list has one entry per counted slot, so slot `i` adds to
      `total` exactly when both of its hidden fields are truthy. */
  lemma ResultsCountCountedSlots(form: Form, n: nat)
    ensures |ResultsBelow(form, n)| == CountBelow(n, CountedIn(form))
  {
    CollectLength(n, GradeIn(form), CountedIn(form));
  }

  /** One collected entry per slot that contributes. */
  lemma {:induction false} CollectLength<T>(n: nat, slot: nat -> Option<T>, p: nat -> bool)
    requires forall i: nat :: p(i) == slot(i).Some?
    ensures |Collect(n, slot)| == CountBelow(n, p)
  {
    if n > 0 {
      CollectLength(n - 1, slot, p);
    }
  }

  /** Slot functions that agree below `n` collect the same list. */
  lemma {:induction false} CollectAgree<T>(n: nat, f: nat -> Option<T>, g: nat -> Option<T>)
    requires forall i: nat :: i < n ==> f(i) == g(i)
    ensures Collect(n, f) == Collect(n, g)
  {
    if n > 0 {
      CollectAgree(n - 1, f, g);
    }
  }

  // ---------------------------------------------------------------------
  // The comparison `sorted(selected) == sorted(correct_answers)`.

  /** The comparison is multiset equality: same strings, each as often. */
  lemma IsCorrectIffSameMultiset(selected: seq<string>, correct: seq<string>)
    ensures IsCorrect(selected, correct) <==> multiset(selected) == multiset(correct)
  {
    SortedEqualIffSameMultiset(selected, correct);
  }

  /** Reordering the selections never changes the outcome. */
  lemma SelectionOrderIrrelevant(s1: seq<string>, s2: seq<string>, correct: seq<string>)
    requires multiset(s1) == multiset(s2)
    ensures IsCorrect(s1, correct) <==> IsCorrect(s2, correct)
  {
    IsCorrectIffSameMultiset(s1, correct);
    IsCorrectIffSameMultiset(s2, correct);
  }

  /** Sending one more value, a duplicate included, turns a correct
      selection into an incorrect one. */
  lemma ExtraSelectionIsWrong(selected: seq<string>, correct: seq<string>, x: string)
    requires IsCorrect(selected, correct)
    ensures !IsCorrect(selected + [x], correct)
  {
    IsCorrectIffSameMultiset(selected, correct);
    IsCorrectIffSameMultiset(selected + [x], correct);
    assert |multiset(selected + [x])| == |multiset(selected)| + 1;
  }

  /** A concrete case: selecting "A" twice against the single answer "A"
      is wrong, although the two lists are equal as sets. */
  lemma DuplicateSelectionIsWrong()
    ensures IsCorrect(["A"], ["A"]) && !IsCorrect(["A", "A"], ["A"])
  {
    assert ["A", "A"] == ["A"] + ["A"];
    ExtraSelectionIsWrong(["A"], ["A"], "A");
  }

  /** An empty selection scores only when the parsed correct list is empty. */
  lemma EmptySelection(correct: seq<string>)
    ensures IsCorrect([], correct) <==> correct == []
  {
    IsCorrectIffSameMultiset([], correct);
    if multiset(correct) == multiset{} {
      assert |correct| == |multiset(correct)|;
    }
  }
}
