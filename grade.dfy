/** The grade select box: the chosen grade fixes how many questions each
    section of the mock test has. */
module Grade {
  import opened Strings

  /** The two entries of the select box, in display order. */
  const RestrictedGrade: string := "Restricted (25 A + 25 B)"
  const GeneralGrade: string := "General (50 A + 50 B)"

  const RestrictedSize: nat := 25
  const GeneralSize: nat := 50

  /** Questions in Section A and in Section B for a grade: 25 each when
      the grade text contains "Restricted", 50 each otherwise. */
  function SectionSizes(grade: string): (sizes: (nat, nat))
    ensures sizes.0 == sizes.1 > 0
    ensures Occurs("Restricted", grade) ==> sizes == (25, 25)
    ensures !Occurs("Restricted", grade) ==> sizes == (50, 50)
  {
    if Contains(grade, "Restricted") then (RestrictedSize, RestrictedSize)
    else (GeneralSize, GeneralSize)
  }

  /** What the two entries of the select box give. */
  lemma MenuSizes()
    ensures SectionSizes(RestrictedGrade) == (25, 25)
    ensures SectionSizes(GeneralGrade) == (50, 50)
  {
    assert IsPrefix("Restricted", RestrictedGrade);
    assert Contains(RestrictedGrade, "Restricted");
    FirstCharAbsent(GeneralGrade, "Restricted");
  }
}
