/** Positional keys and the answers dictionary. Each displayed question gets
    the key "<section letter><1-based position>", and the option text the
    user picked for it is stored in `answers` under that key. */
module Answers {
  import opened Strings

  const SectionA: char := 'A'
  const SectionB: char := 'B'

  /** The key of the question at 0-based row `index` of a section sample:
      `f"A{i+1}"` for Section A, `f"B{i+1}"` for Section B. */
  function Key(section: char, index: nat): (key: string)
    ensures |key| >= 2 && key[0] == section
    ensures key[1..] == Decimal(index + 1)
  {
    [section] + Decimal(index + 1)
  }

  /** The part after the section letter reads back as the 1-based row
      number. */
  lemma KeyNumber(section: char, index: nat)
    ensures DigitsValue(Key(section, index)[1..]) == index + 1
  {
    DecimalValue(index + 1);
  }

  /** Keys are pairwise distinct: different sections or different rows give
      different keys. */
  lemma KeyInjective(s: char, i: nat, t: char, j: nat)
    requires Key(s, i) == Key(t, j)
    ensures s == t && i == j
  {
    assert Key(s, i)[1..] == Key(t, j)[1..];
    DecimalInjective(i + 1, j + 1);
  }

  /** The keys of the first `n` questions of a section. */
  function KeySet(section: char, n: nat): (keys: set<string>)
    decreases n
  {
    if n == 0 then {} else KeySet(section, n - 1) + {Key(section, n - 1)}
  }

  /** The key of row `m` is not among the keys of the rows before `n <= m`. */
  lemma {:induction false} KeyNotBefore(section: char, m: nat, n: nat)
    requires n <= m
    ensures Key(section, m) !in KeySet(section, n)
    decreases n
  {
    if n > 0 {
      KeyNotBefore(section, m, n - 1);
      if Key(section, m) == Key(section, n - 1) {
        KeyInjective(section, m, section, n - 1);
      }
    }
  }

  /** A section of `n` questions has exactly `n` keys, each 1..n once. */
  lemma {:induction false} KeySetSize(section: char, n: nat)
    ensures |KeySet(section, n)| == n
    decreases n
  {
    if n > 0 {
      KeySetSize(section, n - 1);
      KeyNotBefore(section, n - 1, n - 1);
    }
  }

  /** Keys of the two sections never collide. */
  lemma SectionsDisjoint(nA: nat, nB: nat)
    ensures KeySet(SectionA, nA) !! KeySet(SectionB, nB)
  {
  }

  /** The entries one section's display loop writes: row `i`'s picked text
      under row `i`'s key, written in row order. */
  function SectionEntries(section: char, picked: seq<string>): map<string, string>
    decreases |picked|
  {
    if |picked| == 0 then map[]
    else
      var n := |picked| - 1;
      SectionEntries(section, picked[..n])[Key(section, n) := picked[n]]
  }

  /** A section's entries have exactly the section's keys, and each key holds
      the text picked for its own row. */
  lemma {:induction false} SectionEntriesAt(section: char, picked: seq<string>)
    ensures SectionEntries(section, picked).Keys == KeySet(section, |picked|)
    ensures forall i :: 0 <= i < |picked| ==>
      Key(section, i) in SectionEntries(section, picked) && SectionEntries(section, picked)[Key(section, i)] == picked[i]
    decreases |picked|
  {
    if |picked| > 0 {
      var n := |picked| - 1;
      SectionEntriesAt(section, picked[..n]);
      forall i | 0 <= i < n
        ensures Key(section, i) != Key(section, n)
      {
        if Key(section, i) == Key(section, n) {
          KeyInjective(section, i, section, n);
        }
      }
    }
  }

  /** The display loop of one section: for each row `i`, in order, store the
      picked option text under the row's key; what was there before and is
      not one of this section's keys is kept. */
  method AddSection(answers: map<string, string>, section: char, picked: seq<string>)
    returns (updated: map<string, string>)
    ensures updated == answers + SectionEntries(section, picked)
  {
    updated := answers;
    for i := 0 to |picked|
      invariant updated == answers + SectionEntries(section, picked[..i])
    {
      assert picked[..i + 1][..i] == picked[..i];
      updated := updated[Key(section, i) := picked[i]];
    }
    assert picked[..|picked|] == picked;
  }

  /** Both display loops, Section A first, starting from `answers = {}`.
      The map then has exactly the keys A1..A{nA} and B1..B{nB}, nA + nB
      entries, and each key holds the text picked for its question. */
  method CollectAnswers(pickedA: seq<string>, pickedB: seq<string>)
    returns (answers: map<string, string>)
    ensures answers.Keys == KeySet(SectionA, |pickedA|) + KeySet(SectionB, |pickedB|)
    ensures |answers| == |pickedA| + |pickedB|
    ensures forall i :: 0 <= i < |pickedA| ==> Key(SectionA, i) in answers && answers[Key(SectionA, i)] == pickedA[i]
    ensures forall i :: 0 <= i < |pickedB| ==> Key(SectionB, i) in answers && answers[Key(SectionB, i)] == pickedB[i]
  {
    var empty: map<string, string> := map[];
    var afterA := AddSection(empty, SectionA, pickedA);
    answers := AddSection(afterA, SectionB, pickedB);
    SectionEntriesAt(SectionA, pickedA);
    SectionEntriesAt(SectionB, pickedB);
    SectionsDisjoint(|pickedA|, |pickedB|);
    KeySetSize(SectionA, |pickedA|);
    KeySetSize(SectionB, |pickedB|);
    assert |answers| == |answers.Keys|;
  }

  /** The texts recorded for the first `n` questions of a section, read back
      by key in row order (`answers[f"A{i+1}"]`). */
  function Picked(answers: map<string, string>, section: char, n: nat): (picked: seq<string>)
    requires forall i :: 0 <= i < n ==> Key(section, i) in answers
    ensures |picked| == n
    ensures forall i :: 0 <= i < n ==> picked[i] == answers[Key(section, i)]
  {
    seq(n, i requires 0 <= i < n && Key(section, i) in answers => answers[Key(section, i)])
  }

  /** Reading a section back out of the collected map returns exactly the
      texts the user picked, in order. */
  lemma CollectThenRead(answers: map<string, string>, pickedA: seq<string>, pickedB: seq<string>)
    requires forall i :: 0 <= i < |pickedA| ==> Key(SectionA, i) in answers && answers[Key(SectionA, i)] == pickedA[i]
    requires forall i :: 0 <= i < |pickedB| ==> Key(SectionB, i) in answers && answers[Key(SectionB, i)] == pickedB[i]
    ensures Picked(answers, SectionA, |pickedA|) == pickedA
    ensures Picked(answers, SectionB, |pickedB|) == pickedB
  {
  }
}
