/** One run of the exam page script, as Streamlit executes it on every
    interaction: read the grade, get the session seed, sample both
    sections, collect the picked options into `answers`, and on submission
    evaluate the attempt. */
module Exam {
  import opened Grade
  import opened Session
  import opened Answers
  import opened Scoring

  /** A question-bank sampler: `(n, random_state)` to the `n` sampled rows,
      renumbered from 0 (`df.sample(n=n, random_state=seed).reset_index(drop=True)`). */
  type Sampler = (nat, int) -> seq<Row>

  /** Asked for `n` rows, the sampler returns exactly `n` rows, whatever
      the seed. */
  ghost predicate GivesRows(sample: Sampler, n: nat)
  {
    forall seed: int :: |sample(n, seed)| == n
  }

  /** One rerun of the page. `draw` is the value `random.randint(1, 10**9)`
      would give; `pickedA` and `pickedB` are the option texts the radio
      buttons return, one per displayed question; `submitted` is the state
      of the submit button. */
  method RunPage(
    store: SeedStore, grade: string, draw: int,
    sampleA: Sampler, sampleB: Sampler,
    pickedA: seq<string>, pickedB: seq<string>, submitted: bool)
    returns (seed: int, rowsA: seq<Row>, rowsB: seq<Row>,
             answers: map<string, string>, result: Option<Summary>)
    requires store.Valid() && InRange(draw)
    requires GivesRows(sampleA, SectionSizes(grade).0) && GivesRows(sampleB, SectionSizes(grade).1)
    requires |pickedA| == SectionSizes(grade).0 && |pickedB| == SectionSizes(grade).1
    modifies store
    ensures store.Valid() && store.stored == Some(seed)
    ensures old(store.stored).Some? ==> seed == old(store.stored).value
    ensures old(store.stored).None? ==> seed == draw
    ensures rowsA == sampleA(SectionSizes(grade).0, seed)
    ensures rowsB == sampleB(SectionSizes(grade).1, seed + 1)
    ensures answers.Keys == KeySet(SectionA, |rowsA|) + KeySet(SectionB, |rowsB|)
    ensures |answers| == |rowsA| + |rowsB|
    ensures submitted <==> result.Some?
    ensures submitted ==> result.value == Summarize(
      CorrectCount(rowsA, pickedA), |rowsA|, CorrectCount(rowsB, pickedB), |rowsB|)
  {
    var sizes := SectionSizes(grade);
    var nA, nB := sizes.0, sizes.1;
    seed := store.GetOrDraw(draw);
    rowsA := sampleA(nA, seed);
    rowsB := sampleB(nB, seed + 1);
    answers := CollectAnswers(pickedA, pickedB);
    if submitted {
      CollectThenRead(answers, pickedA, pickedB);
      var summary := Evaluate(rowsA, rowsB, answers);
      result := Some(summary);
    } else {
      result := None;
    }
  }
}
