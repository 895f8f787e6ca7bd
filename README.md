# GIAR ASOC mock test — exam setup and scoring, modelled in Dafny

The ASOC mock test is a single-page Streamlit app. A candidate picks a grade,
which fixes the number of questions per section: 25 + 25 for Restricted,
50 + 50 for General. The page samples that many rows from the Section A
(Radio Theory) and Section B (Radio Regulations) question banks and shows each
question with four radio options. On submission it scores the attempt.
Each section must reach 40% on its own for the candidate to pass.

Streamlit reruns the whole script on every interaction. The sample stays
stable only because the random seed is stored once in the session state and
read back on every later run.

This project models that logic:

- `strings.dfy` (`Strings`): Python's substring test `p in s`, used to read
  the grade, and `str(n)` for natural numbers, used in the question keys.
- `grade.dfy` (`Grade`): grade to section sizes.
- `session.dfy` (`Session`): the write-once `"seed"` entry of the session
  state, as a class with one mutable field.
- `answers.dfy` (`Answers`): the positional keys `A1..A{nA}` and
  `B1..B{nB}`, and the display loops that fill the `answers` dictionary.
- `scoring.dfy` (`Scoring`): `opt_label_for_text`, the two result loops
  that count correct answers, the percentages, the totals and the verdict.
- `exam.dfy` (`Exam`): one run of the page, tying the steps together.

Percentages are exact rationals (`real`). The pass test is the integer
comparison `correct * 100 >= 40 * total`, and `Passes` states that it agrees
with `correct / total * 100 >= 40` computed exactly.

## Model

| member | source | states |
|---|---|---|
| `Grade.SectionSizes` | app.py:31-34 | Both sections get the same positive size: 25 when "Restricted" occurs in the grade text, 50 otherwise |
| `Grade.MenuSizes` | app.py:27-34 | The two select-box entries give (25, 25) and (50, 50) |
| `Strings.Contains` | app.py:31 | The substring scan behind `"Restricted" in grade` returns true exactly when the pattern occurs at some position of the text, which is what Python's `in` means |
| `Strings.Decimal` | app.py:53 | `str(n)` is non-empty and all digits, has one digit exactly when n < 10, and has no leading zero unless n is 0 |
| `Strings.DecimalValue` | app.py:53 | The digits of `str(n)`, read back most significant first, denote n |
| `Strings.DecimalInjective` | app.py:53 | Different numbers render as different decimal strings |
| `Session.SeedStore.constructor` | app.py:37 | A new session has no stored seed |
| `Session.SeedStore.GetOrDraw` | app.py:37-40 | A stored seed is returned and left unchanged. With no stored seed, the fresh draw in [1, 10^9] is stored and returned. Afterwards a seed in range is always stored |
| `Session.RerunsAgree` | app.py:37-41 | Two reruns in one session use the same seed, whatever the second draw is, and it is the seed stored before them if there was one |
| `Answers.Key` | app.py:53 | A key is the section letter followed by `str(i + 1)` for 0-based row i, so it has at least two characters |
| `Answers.KeyNumber` | app.py:53 | The part of a key after the section letter reads back as the 1-based row number |
| `Answers.KeyInjective` | app.py:53-63 | Two keys are equal only for the same section and the same row |
| `Answers.KeySetSize` | app.py:52-53 | A section of n questions has exactly n distinct keys |
| `Answers.SectionsDisjoint` | app.py:53-63 | No Section A key equals a Section B key |
| `Answers.SectionEntriesAt` | app.py:52-59 | One section's entries have exactly that section's keys, and each key holds the text picked for its own row |
| `Answers.AddSection` | app.py:52-59 | The display loop leaves the earlier map extended by exactly the section's entries |
| `Answers.CollectAnswers` | app.py:49-69 | The map holds exactly the keys A1..A{nA} and B1..B{nB}, has nA + nB entries, and each key holds its question's picked text |
| `Answers.Picked` | app.py:84-85 | Reading n keys back gives n texts, the text of row i being the one stored under row i's key |
| `Answers.CollectThenRead` | app.py:55-100 | Reading the collected map back by key returns exactly the picked texts of each section |
| `Scoring.OptLabelForText` | app.py:74-79 | Returns "?" exactly when no option text equals the picked text. Otherwise it returns the label of the first option, in the order A, B, C, D, whose text matches |
| `Scoring.SharedTextResolvesToEarlier` | app.py:74-78 | When two options share a text, picking the later one still resolves to a label (not "?"), but never to the later option's own label |
| `Scoring.SharedAnswerTextNeverCorrect` | app.py:74-88 | When the answer option repeats an earlier option's text, no pick scores that question as correct |
| `Scoring.IsCorrect` | app.py:86-87 | When the answer is label k, a pick is correct exactly when option k is the first option with the picked text. When the answer is "?", exactly when no option has the picked text. Any other answer is never met |
| `Scoring.CorrectCount` | app.py:82-88 | The count of correct answers is at most the number of rows |
| `Scoring.CorrectCountIsCardinality` | app.py:84-88 | The count equals the number of rows whose picked label equals the row's answer |
| `Scoring.ScoreSection` | app.py:84-103 | The result loop, which reads each picked text by key, returns the count of correct rows and stays within the number of rows |
| `Scoring.Percent` | app.py:94 | The percentage lies in [0, 100]. It is 100 exactly when all rows are correct and 0 exactly when none is |
| `Scoring.Passes` | app.py:114-115 | For a non-empty section, `correct * 100 >= 40 * total` holds exactly when the percentage is at least 40 |
| `Scoring.Summarize` | app.py:114-124 | The overall correct count and question count are the sums of the section counts. The overall percentage is their ratio. Each section passes iff its percentage is at least 40. The attempt passes iff both sections do |
| `Scoring.PassImpliesOverall` | app.py:116-121 | A passing attempt also has an overall percentage of at least 40 |
| `Scoring.FailingSectionFails` | app.py:114-124 | A non-empty section whose percentage is below 40 fails the attempt, whatever the other section scored |
| `Scoring.ExampleVerdicts` | app.py:114-124 | 25/25 and 9/25 give 68% overall and FAIL. 10/25 and 9/25 give 40% (pass) and 36% (fail), 38% overall, FAIL |
| `Scoring.Evaluate` | app.py:81-121 | Scoring both sections from the answers map gives the summary of the two correct counts over the two sample sizes |
| `Exam.RunPage` | app.py:26-124 | One rerun keeps or stores the session seed. It samples nA rows with that seed and nB rows with seed + 1. It builds the answers map with nA + nB distinct keys. On submission only, it produces the summary of the two counts |

## Left out

- Streamlit presentation: page configuration, logo, columns, form, headers, markdown, success and error messages, and the per-question result lines. These are display only.
- Loading the banks with `pd.read_excel`. This is file I/O; the banks appear only through the samplers.
- `DataFrame.sample(...).reset_index(drop=True)`: a pandas call whose behaviour is not part of this model. `Exam.RunPage` takes each sampler as a function of (count, random_state) and requires it to return exactly the requested number of rows. pandas raises an error when a bank has fewer rows than requested; that case is not modelled.
- `random.randint` is a parameter of `GetOrDraw` and `RunPage`, constrained to [1, 10^9]. `random.seed(seed)` only reseeds Python's global generator, which nothing else on the page uses; it is not modelled.
- Floating point: the page computes `correct / len * 100` in binary floating point and prints it with one decimal. The model uses exact rationals, so it does not capture rounding. For the two section sizes used (25 and 50) the only counts exactly at 40% are 10/25 and 20/50.
- The radio widgets: which option text each returns is an input (`pickedA`, `pickedB`). The default (`index=0`, the first option) is not modelled.
- Cell values: every option cell and the answer cell are modelled as strings compared by string equality. `pd.read_excel` can also yield NaN for an empty cell and numbers for numeric cells, and Python's `==` on those is not string equality. In particular NaN != NaN, so picking an empty option makes `opt_label_for_text` return "?", and an empty answer cell becomes the text "nan" after `str(...)`. The model reaches "?" only when no option text equals the picked text.
- Option shuffling, a reveal or auto-fill helper, a check for unanswered questions, bank validation and deduplication are not done by this page. They are not modelled.
