/** Evaluation of a submitted attempt: each picked option text is mapped
    back to its original label, compared with the row's answer label,
    counted per section, and the per-section pass rule is applied. */
module Scoring {
  import opened Answers

  /** One question-bank row as the exam page reads it. `answer` is the
      correct label after `str(...)`, normally "A", "B", "C" or "D". */
  datatype Row = Row(
    question: string,
    optA: string,
    optB: string,
    optC: string,
    optD: string,
    answer: string)

  /** The original option labels, in the order they are tested. */
  const Labels: seq<string> := ["A", "B", "C", "D"]

  /** The label reported when the picked text matches no option. */
  const NoMatch: string := "?"

  /** Each section must reach this percentage on its own. */
  const PassPercent: nat := 40

  /** The text of option `k` (0 = A, ..., 3 = D). */
  function OptionText(row: Row, k: nat): string
    requires k < 4
  {
    match k
    case 0 => row.optA
    case 1 => row.optB
    case 2 => row.optC
    case _ => row.optD
  }

  /** Option `k` is the first option, in the order A, B, C, D, whose text
      equals `text`. */
  predicate FirstMatch(row: Row, text: string, k: nat)
    requires k < 4
  {
    OptionText(row, k) == text && forall j :: 0 <= j < k ==> OptionText(row, j) != text
  }

  /** The four labels and "?" are pairwise different. */
  lemma LabelsDistinct()
    ensures forall j, k :: 0 <= j < k < 4 ==> Labels[j] != Labels[k]
    ensures NoMatch !in Labels
  {
  }

  /** `opt_label_for_text`: the original label of the option whose text was
      picked. The label of the first matching option is returned, so with
      two equal texts the earlier label wins; "?" exactly when no option
      matches. */
  function OptLabelForText(row: Row, text: string): (lbl: string)
    ensures lbl == NoMatch <==> forall k :: 0 <= k < 4 ==> OptionText(row, k) != text
    ensures forall k :: 0 <= k < 4 ==> (lbl == Labels[k] <==> FirstMatch(row, text, k))
  {
    LabelsDistinct();
    if text == row.optA then assert FirstMatch(row, text, 0); "A"
    else if text == row.optB then assert FirstMatch(row, text, 1); "B"
    else if text == row.optC then assert FirstMatch(row, text, 2); "C"
    else if text == row.optD then assert FirstMatch(row, text, 3); "D"
    else "?"
  }

  /** With two options sharing one text, picking the later of them is read
      back as the earlier label: the later label is never reported. */
  lemma SharedTextResolvesToEarlier(row: Row, j: nat, k: nat)
    requires j < k < 4 && OptionText(row, j) == OptionText(row, k)
    ensures OptLabelForText(row, OptionText(row, k)) != Labels[k]
    ensures OptLabelForText(row, OptionText(row, k)) != NoMatch
  {
  }

  /** When the answer option repeats the text of an earlier option, no pick
      at all scores the question as correct: the picked text is always read
      back as the earlier label. */
  lemma SharedAnswerTextNeverCorrect(row: Row, j: nat, k: nat, picked: string)
    requires j < k < 4 && OptionText(row, j) == OptionText(row, k)
    requires row.answer == Labels[k]
    ensures !IsCorrect(row, picked)
  {
  }

  /** The question at `row` counts as answered correctly when the label of
      the picked text equals the row's answer label (`picked_label ==
      str(row['Answer'])`). When the answer names option k, that is when
      option k is the first option carrying the picked text; an answer cell
      that is no label and not "?" can never be met. */
  predicate IsCorrect(row: Row, picked: string): (ok: bool)
    ensures forall k :: 0 <= k < 4 && row.answer == Labels[k] ==> (ok <==> FirstMatch(row, picked, k))
    ensures row.answer == NoMatch ==> (ok <==> forall k :: 0 <= k < 4 ==> OptionText(row, k) != picked)
    ensures row.answer !in Labels && row.answer != NoMatch ==> !ok
  {
    OptLabelForText(row, picked) == row.answer
  }

  /** The number of correctly answered rows, counted over the rows in order. */
  function CorrectCount(rows: seq<Row>, picked: seq<string>): (count: nat)
    requires |rows| == |picked|
    ensures count <= |rows|
    decreases |rows|
  {
    if |rows| == 0 then 0
    else
      var n := |rows| - 1;
      CorrectCount(rows[..n], picked[..n]) + (if IsCorrect(rows[n], picked[n]) then 1 else 0)
  }

  /** Counting one more row adds one exactly when that row is correct. */
  lemma CorrectCountStep(rows: seq<Row>, picked: seq<string>, i: nat)
    requires |rows| == |picked| && i < |rows|
    ensures CorrectCount(rows[..i + 1], picked[..i + 1])
      == CorrectCount(rows[..i], picked[..i]) + (if IsCorrect(rows[i], picked[i]) then 1 else 0)
  {
    assert rows[..i + 1][..i] == rows[..i];
    assert picked[..i + 1][..i] == picked[..i];
  }

  /** The positions of the correctly answered rows. */
  function CorrectRows(rows: seq<Row>, picked: seq<string>): set<nat>
    requires |rows| == |picked|
  {
    set i: nat | i < |rows| && IsCorrect(rows[i], picked[i])
  }

  /** Dropping the last row removes it from the correct positions, and
      nothing else. */
  lemma CorrectRowsStep(rows: seq<Row>, picked: seq<string>)
    requires |rows| == |picked| && |rows| > 0
    ensures var n := |rows| - 1;
      CorrectRows(rows, picked)
        == CorrectRows(rows[..n], picked[..n]) + (if IsCorrect(rows[n], picked[n]) then {n} else {})
  {
    var n := |rows| - 1;
    var before := CorrectRows(rows[..n], picked[..n]);
    var last: set<nat> := if IsCorrect(rows[n], picked[n]) then {n} else {};
    forall i: nat
      ensures i in CorrectRows(rows, picked) <==> i in before + last
    {
      if i < n {
        assert rows[..n][i] == rows[i] && picked[..n][i] == picked[i];
      }
    }
  }

  /** The count is the number of rows whose picked label equals the answer. */
  lemma {:induction false} CorrectCountIsCardinality(rows: seq<Row>, picked: seq<string>)
    requires |rows| == |picked|
    ensures CorrectCount(rows, picked) == |CorrectRows(rows, picked)|
    decreases |rows|
  {
    if |rows| > 0 {
      var n := |rows| - 1;
      CorrectCountIsCardinality(rows[..n], picked[..n]);
      CorrectRowsStep(rows, picked);
      assert n !in CorrectRows(rows[..n], picked[..n]);
    }
  }

  /** One section's result loop: read each row's picked text from `answers`
      under the row's key and add one for every correct answer. */
  method ScoreSection(sample: seq<Row>, answers: map<string, string>, section: char)
    returns (correct: nat)
    requires forall i :: 0 <= i < |sample| ==> Key(section, i) in answers
    ensures correct == CorrectCount(sample, Picked(answers, section, |sample|))
    ensures correct <= |sample|
  {
    correct := 0;
    var picked := Picked(answers, section, |sample|);
    for i := 0 to |sample|
      invariant correct == CorrectCount(sample[..i], picked[..i])
    {
      var text := answers[Key(section, i)];
      var pickedLabel := OptLabelForText(sample[i], text);
      CorrectCountStep(sample, picked, i);
      if pickedLabel == sample[i].answer {
        correct := correct + 1;
      }
    }
    assert sample[..|sample|] == sample;
    assert picked[..|sample|] == picked;
  }

  /** `correct / total * 100`, computed exactly. */
  function Percent(correct: nat, total: nat): (p: real)
    requires 0 < total && correct <= total
    ensures 0.0 <= p <= 100.0
    ensures p == 100.0 <==> correct == total
    ensures p == 0.0 <==> correct == 0
  {
    var t := total as real;
    var p := (correct as real) * 100.0 / t;
    assert p * t == correct as real * 100.0;
    SignOfScaled(p, t);
    SignOfScaled(-p, t);
    SignOfScaled(100.0 - p, t);
    SignOfScaled(p - 100.0, t);
    p
  }


  /** Scaling by a positive factor keeps the sign. */
  lemma SignOfScaled(x: real, t: real)
    requires t > 0.0
    ensures x >= 0.0 <==> x * t >= 0.0
  {
    if x < 0.0 {
      assert (-x) * t > 0.0;
    }
  }

  /** The pass rule `perc >= 40`, decided in integers: for a non-empty
      section it holds exactly when the percentage is at least 40. */
  predicate Passes(correct: nat, total: nat): (pass: bool)
    ensures 0 < total && correct <= total ==> (pass <==> Percent(correct, total) >= 40.0)
  {
    if 0 < total && correct <= total then
      var t := total as real;
      var p := Percent(correct, total);
      assert p * t == correct as real * 100.0;
      assert (p - 40.0) * t == correct as real * 100.0 - 40.0 * t;
      SignOfScaled(p - 40.0, t);
      correct * 100 >= PassPercent * total
    else
      correct * 100 >= PassPercent * total
  }

  /** The summary the page writes after submission. */
  datatype Summary = Summary(
    correctA: nat, totalA: nat, percA: real, passA: bool,
    correctB: nat, totalB: nat, percB: real, passB: bool,
    totalCorrect: nat, totalQuestions: nat, totalPercent: real,
    passed: bool)

  /** Section results, overall totals and the verdict. The overall totals are
      the sums of the section totals; the attempt passes exactly when each
      section reaches 40% on its own. */
  function Summarize(correctA: nat, totalA: nat, correctB: nat, totalB: nat): (s: Summary)
    requires 0 < totalA && correctA <= totalA
    requires 0 < totalB && correctB <= totalB
    ensures s.correctA == correctA && s.totalA == totalA
    ensures s.correctB == correctB && s.totalB == totalB
    ensures s.totalCorrect == correctA + correctB && s.totalQuestions == totalA + totalB
    ensures s.totalCorrect <= s.totalQuestions
    ensures s.percA == Percent(correctA, totalA) && s.percB == Percent(correctB, totalB)
    ensures s.totalPercent == Percent(s.totalCorrect, s.totalQuestions)
    ensures s.passA <==> s.percA >= 40.0
    ensures s.passB <==> s.percB >= 40.0
    ensures s.passed <==> s.percA >= 40.0 && s.percB >= 40.0
  {
    var passA := Passes(correctA, totalA);
    var passB := Passes(correctB, totalB);
    Summary(
      correctA, totalA, Percent(correctA, totalA), passA,
      correctB, totalB, Percent(correctB, totalB), passB,
      correctA + correctB, totalA + totalB, Percent(correctA + correctB, totalA + totalB),
      passA && passB)
  }

  /** A passing attempt also reaches 40% overall. */
  lemma {:induction false} PassImpliesOverall(correctA: nat, totalA: nat, correctB: nat, totalB: nat)
    requires 0 < totalA && correctA <= totalA
    requires 0 < totalB && correctB <= totalB
    ensures Summarize(correctA, totalA, correctB, totalB).passed ==>
      Summarize(correctA, totalA, correctB, totalB).totalPercent >= 40.0
  {
    var s := Summarize(correctA, totalA, correctB, totalB);
    if s.passed {
      assert Passes(correctA, totalA) && Passes(correctB, totalB);
      assert Passes(s.totalCorrect, s.totalQuestions);
    }
  }

  /** The overall percentage never compensates for a failing section: a
      section below 40% fails the attempt, however well the other went. */
  lemma FailingSectionFails(correctA: nat, totalA: nat, correctB: nat, totalB: nat)
    requires 0 < totalA && correctA <= totalA
    requires 0 < totalB && correctB <= totalB
    requires Percent(correctA, totalA) < 40.0 || Percent(correctB, totalB) < 40.0
    ensures !Summarize(correctA, totalA, correctB, totalB).passed
  {
  }

  /** 25/25 in Section A and 9/25 in Section B is 68% overall and a fail;
      10/25 and 9/25 gives 40% (pass) and 36% (fail), 38% overall, a fail. */
  lemma ExampleVerdicts()
    ensures var s := Summarize(25, 25, 9, 25);
      s.totalPercent == 68.0 && s.passA && !s.passB && !s.passed
    ensures var s := Summarize(10, 25, 9, 25);
      s.percA == 40.0 && s.percB == 36.0 && s.totalPercent == 38.0 && s.passA && !s.passB && !s.passed
  {
  }

  /** Both result loops followed by the summary, on the answers collected
      from the form. */
  method Evaluate(sampleA: seq<Row>, sampleB: seq<Row>, answers: map<string, string>)
    returns (s: Summary)
    requires 0 < |sampleA| && 0 < |sampleB|
    requires forall i :: 0 <= i < |sampleA| ==> Key(SectionA, i) in answers
    requires forall i :: 0 <= i < |sampleB| ==> Key(SectionB, i) in answers
    ensures s == Summarize(
      CorrectCount(sampleA, Picked(answers, SectionA, |sampleA|)), |sampleA|,
      CorrectCount(sampleB, Picked(answers, SectionB, |sampleB|)), |sampleB|)
  {
    var correctA := ScoreSection(sampleA, answers, SectionA);
    var correctB := ScoreSection(sampleB, answers, SectionB);
    s := Summarize(correctA, |sampleA|, correctB, |sampleB|);
  }
}
