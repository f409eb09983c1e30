# Ethical hacking MCQ quiz — grading core in Dafny

The quiz app is a single Flask application, `app.py`. This project models its core.

- **Loading questions** (`load_questions`): each CSV row needs non-empty raw cells for the question, the first four options and the answer. A kept row becomes a question: the text is trimmed, five option slots are trimmed, and the answer cell is split on `;` into trimmed, non-empty parts. At most 50 questions are sampled without replacement.
- **Hidden fields**: the quiz page sends each question back in three hidden fields:
  - `answer{i}`, the answers joined with `;`;
  - `text{i}`, the question text;
  - `options{i}`, the options joined with `||`.
- **Grading** (the POST branch): for each of the 50 slots, a slot is skipped unless both the answer field and the options field are non-empty. Otherwise:
  - the answer and options fields are parsed back;
  - the slot counts towards `total`;
  - it scores when `sorted(selected) == sorted(correct_answers)`;
  - a result record is appended.
- **Results page**: the summary is shown only when there are results. It gives `score / total * 100`, and each option carries a class: correct, wrong or normal.

Modules:

| module | file | content |
|---|---|---|
| `Wrappers` | wrappers.dfy | `Option`, for `None` from `form.get` |
| `Text` | text.dfy | Python's `str.strip`, `str.split(sep)`, `sep.join` and the strip-and-drop-empty comprehension |
| `Ordering` | ordering.dfy | the code-point order on strings; `sorted` as an insertion sort, proved equal exactly on permutations |
| `Loader` | loader.dfy | the row filter, row parsing, the read loop (`method`), the sample (`method`) |
| `Encoding` | encoding.dfy | the hidden fields and their round trips |
| `Grading` | grading.dfy | the submitted form as a multi-dict; the 50-slot grading loop (`method`) and its counting lemmas; the answer comparison |
| `Display` | display.dfy | the option class of line 97; the summary/blank choice and the percentage |
| `Quiz` | quiz.dfy | the POST handler, and the round trip from a rendered sample through an untouched form back to the grading loop |

Where the program's documentation and the code disagree, the model follows the code:

- **Row filter.** The filter tests the raw cell, before trimming. A row whose question or answer cell is only whitespace is kept. It then yields empty text or no answers (`Loader.WhitespaceCellsParseEmpty`).
- **Question with no answers.** Such a question renders an empty `answer{i}` field, so the grading loop skips its slot, and it never counts towards the total (`Quiz.SlotCounted`).
- **Answer comparison.** The comparison is on sorted lists, i.e. on multisets, not on sets. Ticking a value twice, which a client can do, is wrong (`Grading.DuplicateSelectionIsWrong`).
- **Selections are not trimmed.**
- **Zero total.** When nothing is counted, the page shows neither questions nor a summary. It does not show "0%" (`Display.ResultsPage`).

## Model

| member | source | states |
|---|---|---|
| Text.Strip | app.py:18-23 | `str.strip()`: the result is the infix `s[i..j]` of the input with only whitespace before `i` and after `j`; it has no leading or trailing whitespace, is empty exactly when the input is all whitespace, and leaves trimmed text unchanged |
| Text.Split | app.py:24 | Python's `s.split(sep)`: the pieces between the leftmost non-overlapping occurrences of `sep`, at least one piece (`"".split(sep) == [""]`); `Text.JoinSplit` and `Text.SplitJoin` are its inverse laws with `Text.Join` |
| Text.Join | app.py:76 | the `join` filter: the pieces with the separator between consecutive ones; `Text.SplitJoin` proves `Text.Split` recovers separator-free pieces from it |
| Text.Clean | app.py:24 | the comprehension keeps at most as many parts as it is given, each non-empty and trimmed; `Text.CleanIsStripThenDrop` proves it is every part stripped, empty results dropped, in order |
| Text.StripAll | app.py:24 | one stripped part per part, in order |
| Text.CleanIsStripThenDrop | app.py:24 | for any parts, trimmed or not, the comprehension equals stripping every part and then keeping the non-empty results, in order and with duplicates |
| Text.JoinSplit | app.py:24 | joining the pieces of `s.split(sep)` with `sep` gives back `s` |
| Text.SplitJoin | app.py:127-128 | splitting a join of pieces that avoid the separator gives back the pieces |
| Text.SplitPieceThenSep | app.py:24 | splitting `x + sep + t`, when `x` does not contain the separator, gives `x` followed by the split of `t` |
| Text.SplitWithoutSep | app.py:24 | text without the separator splits into itself alone |
| Text.SplitPiecesAvoidSep | app.py:24 | no piece split on a one-character separator contains that character |
| Text.CleanTrimmed | app.py:127-128 | on parts that are already trimmed, the comprehension only drops the empty ones |
| Text.CleanAvoids | app.py:24 | cleaning introduces no character its parts lack |
| Ordering.StrLeTotal | app.py:130 | the string order compares any two strings |
| Ordering.StrLeAntisymmetric | app.py:130 | strings ordered both ways are equal |
| Ordering.StrLeTransitive | app.py:130 | the string order is transitive |
| Ordering.Sort | app.py:130 | `sorted(s)`; `Ordering.SortPermutes`, `Ordering.SortSorted` and `Ordering.SortedUnique` prove it is the one ordered permutation of `s`, the same list Timsort returns |
| Ordering.SortPermutes | app.py:130 | `sorted` returns a permutation of its input |
| Ordering.SortSorted | app.py:130 | `sorted` returns an ordered list |
| Ordering.SortedUnique | app.py:130 | two ordered permutations of the same multiset are equal |
| Ordering.SortedEqualIffSameMultiset | app.py:130 | `sorted(a) == sorted(b)` exactly when `a` and `b` hold the same strings equally often |
| Loader.Keep | app.py:15-16 | (predicate) the row filter: question, option1-4 and answer are present and not empty as raw text |
| Loader.ParseRow | app.py:17-25 | the question built for a row is well formed (trimmed text, five trimmed slots, answers non-empty, trimmed and free of `;`); its text is empty exactly when the question cell is all whitespace; it has no answers exactly when every `;`-piece is whitespace |
| Loader.ParseOptions | app.py:19-23 | exactly five option slots, each trimmed |
| Loader.ParseAnswers | app.py:24 | the answers are non-empty, trimmed and free of `;`, and are empty exactly when every piece is whitespace |
| Loader.ParseAnswersStripsPieces | app.py:24 | for any raw cell, the answers are its `;`-pieces stripped, with the empty ones dropped, in cell order and with duplicates kept |
| Loader.ReadQuestions | app.py:11-25 | the read loop returns exactly the parsed kept rows in row order (`ValidQuestions`) |
| Loader.ValidQuestionsWellFormed | app.py:17-25 | every loaded question is well formed |
| Loader.ValidQuestionsFromKeptRows | app.py:14-25 | a question is loaded exactly when some kept row parses to it |
| Loader.ValidQuestionsLength | app.py:14-25 | at most one question per row |
| Loader.KeepIgnoresOption5 | app.py:15 | the filter does not look at `option5`: setting or removing it changes nothing |
| Loader.WhitespaceCellsParseEmpty | app.py:15-24 | a kept row with a whitespace-only question cell gets empty text; one with a whitespace-only answer cell gets no answers |
| Loader.WhitespaceRowKept | app.py:15-24 | a row of single spaces passes the filter and yields empty text and no answers |
| Loader.Sample | app.py:26 | `random.sample(questions, min(50, len(questions)))`: the sample has `min(50, n)` entries, each taken from a distinct position of the input |
| Loader.LoadQuestions | app.py:10-26 | the sample is drawn from distinct positions of the loaded questions, has `min(50, n)` entries, and every sampled question is well formed |
| Encoding.AnswerField | app.py:76 | the hidden `answer{i}` value, the answers joined with `;`; `Encoding.LoadedAnswersRoundTrip` proves the grading loop parses it back to the answers |
| Encoding.OptionsField | app.py:78 | the hidden `options{i}` value, the five slots joined with a double bar; `Encoding.LoadedOptionsRoundTrip` proves the grading loop parses it back to the non-empty options |
| Encoding.ParseOptionsField | app.py:128 | every option parsed from `options{i}` is non-empty and trimmed |
| Encoding.ParseOptionsFieldStripsPieces | app.py:128 | for any `options{i}` value the client sends, the options are its double-bar pieces stripped, with the empty ones dropped, in order |
| Encoding.AnswersRoundTrip | app.py:127 | parsing a `;`-join of non-empty trimmed answers free of `;` gives them back |
| Encoding.OptionsRoundTrip | app.py:128 | parsing a double-bar join of trimmed options gives back the non-empty ones, in order |
| Encoding.LoadedAnswersRoundTrip | app.py:76 | a loaded question's answers, joined into the hidden field and parsed back by the grading loop, come back unchanged |
| Encoding.LoadedOptionsRoundTrip | app.py:78 | a loaded question's non-empty options, joined into the hidden field and parsed back by the grading loop, come back in order when no option contains a bar |
| Encoding.AnswerFieldEmpty | app.py:76 | the answer field is empty exactly when the question has no answers |
| Encoding.OptionsFieldNotEmpty | app.py:78 | with five slots the options field is never empty (it holds at least four separator bars) |
| Grading.Get | app.py:122-124 | `request.form.get(f)` is `None` exactly when `getlist(f)` is empty, and otherwise the first value `getlist(f)` returns |
| Grading.GetList | app.py:121 | `request.form.getlist(f)`: every value sent for the field, in order, or none; `Quiz.SubmittedChoice` proves it returns the boxes ticked in a rendered slot |
| Grading.Counted | app.py:125 | (predicate) a slot is graded exactly when both its `answer{i}` and `options{i}` values are present and not empty; `Quiz.SlotCounted` proves a rendered slot is counted exactly when its question has answers |
| Grading.SlotResult | app.py:127-137 | the record appended for a counted slot: the text as sent, the parsed options, the selections untrimmed, the parsed answers; `Quiz.SlotContents` proves it carries the rendered question's own data |
| Grading.IsCorrect | app.py:130 | (predicate) `sorted(selected) == sorted(correct_answers)`; `Grading.IsCorrectIffSameMultiset` proves it is multiset equality |
| Grading.GradeSubmission | app.py:116-137 | the grading loop: `results` lists the counted slots' records in slot order; `total` is the number of slots whose answer and options fields are both non-empty; `score` is the number of those whose sorted selections equal the sorted answers; `score <= total <= 50` |
| Grading.ResultsCountCountedSlots | app.py:125-132 | one result is appended per counted slot |
| Grading.CountBelowIsSize | app.py:129-131 | counting slot by slot gives the size of the set of qualifying slots, at most the number of slots |
| Grading.CountBelowMonotone | app.py:129-131 | a slot that scores is also counted, so score never exceeds total |
| Grading.CollectLength | app.py:120-137 | one result per slot that contributes one |
| Grading.CollectAgree | app.py:120-137 | slots that agree give the same results list |
| Grading.IsCorrectIffSameMultiset | app.py:130 | a slot scores exactly when the selections and the parsed answers are equal as multisets |
| Grading.SelectionOrderIrrelevant | app.py:130 | the order of the selections never changes the outcome |
| Grading.ExtraSelectionIsWrong | app.py:130 | one more selected value, a duplicate included, makes a correct selection wrong |
| Grading.DuplicateSelectionIsWrong | app.py:130 | `["A","A"]` against the answer `["A"]` is wrong, `["A"]` is right |
| Grading.EmptySelection | app.py:130 | ticking nothing scores exactly when the parsed answer list is empty |
| Display.Classify | app.py:97 | an option is correct exactly when it is a correct answer, wrong exactly when selected but not correct, normal exactly when neither |
| Display.OptionLines | app.py:95-101 | the lines shown for a result are exactly its non-empty options, all of them and in order, each with its line 97 class |
| Display.OptionLinesOf | app.py:95-101 | for any option list: one line per non-empty option, in order (`NonEmpty(opts)[k]` is line `k`), each with its class |
| Display.CorrectSelectionShowsNoWrong | app.py:97 | a scoring selection shows no option as wrong |
| Display.ResultsPage | app.py:87-90 | the summary is shown exactly when there are results; its percentage times the total is `100 * score`, and it lies in 0..100 |
| Quiz.HandlePost | app.py:116-138 | the page is a summary exactly when some slot is counted; its total and score are the counted and scored slot counts, and the percentage lies in 0..100; the results it renders are the grading loop's records of the counted slots, in slot order |
| Quiz.SubmittedForm | app.py:65-78 | the form a browser sends back for a rendered sample: the three hidden fields of every rendered question and the ticked boxes; `Quiz.RenderThenGrade` proves what grading it gives |
| Quiz.SubmittedAnswer | app.py:122 | an untouched form returns each rendered question's answer field |
| Quiz.SubmittedOptions | app.py:124 | an untouched form returns each rendered question's options field |
| Quiz.SubmittedText | app.py:123 | an untouched form returns each rendered question's text |
| Quiz.SubmittedChoice | app.py:121 | `getlist(q{i})` returns the boxes ticked in slot `i` |
| Quiz.SlotCounted | app.py:125 | a slot of an untouched form is counted exactly when it holds a sampled question with answers, whatever characters its options hold |
| Quiz.SlotContents | app.py:127-137 | such a slot's record carries the question's text, its non-empty options, the selections and its answers |
| Quiz.GradeSubmittedSlot | app.py:120-137 | slot by slot, grading an untouched form gives what the sample says |
| Quiz.RenderThenGrade | app.py:65-137 | the results of an untouched form are, in order, one record per sampled question with answers, carrying that question's own data |
| Quiz.ExpectedResultsLength | app.py:120-137 | one expected record per sampled question with answers |
| Quiz.CountAllAnswered | app.py:120 | when every sampled question has answers, the answered slots below `n` are those below both `n` and the sample size |
| Quiz.RenderedTotal | app.py:120-129 | the total of an untouched form is the number of sampled questions with answers, and the sample size when all have answers |
| Quiz.AllCorrectScoresTotal | app.py:120-131 | ticking exactly the answers of every question scores every counted slot |
| Quiz.ParisTransportable | app.py:17-24 | a concrete question is well formed and has no bar in its options |
| Quiz.ParisOptionLines | app.py:95-101 | its options shown with answer Paris selected: Paris correct, London normal |
| Quiz.ParisExample | app.py:65-137 | the same question rendered, answered with Paris and graded is counted and shows Paris correct and London normal |

## Left out

- The Flask server, routing and the GET branch are left out. The page is modelled only as the results it holds and the class of each option. The browser is assumed to send each hidden value back exactly as rendered: HTML escaping and line-break normalisation are not modelled. A text, answer or option containing a line break would come back with CRLF line breaks.
- CSV decoding and file I/O are left out. Rows are given as maps from column name to cell text. A missing cell that `csv.DictReader` fills with `None` is a missing key. Calling `.strip()` on a `None` `option5` would crash; this is not modelled.
- Python's random generator is left out. `Loader.Sample` chooses nondeterministically, so its contract holds for every choice. It does not state that the choices are uniform.
- Loader.Sample and Loader.LoadQuestions: the order of the sample and its distribution are not stated, only that it is a selection without replacement of the right size.
- Field names such as `q{i}` and `answer{i}` are a datatype of slot-indexed names, not decimal text. Hand-crafted names outside this scheme are not modelled.
- The request form is a map from field name to its list of values. `form.get` takes the first value; `form.getlist` takes all of them, or none.
- `round(2)` and floating-point division are left out. The percentage is the exact rational `score / total * 100`.
- Python's `sorted` is a Timsort. It is modelled as an insertion sort under code-point order, which gives the same list. Only whether the two sorted lists are equal is used.
- `str.isspace` is modelled as the fixed set of code points Python treats as whitespace. Unicode case and normalisation play no part.
- Quiz.RenderThenGrade and the other round-trip lemmas assume that no option contains `|` (a `||` inside an option would split it). Options containing a bar are not covered.
