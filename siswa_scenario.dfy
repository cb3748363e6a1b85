/** The worked example of the student resource: create "Ani Lestari" of
    class "XII IPA 1", aged 17; fetch her back; then try to set her age to
    19, which is refused and leaves the row as it was. */
module SiswaScenario {
  import opened SiswaValidation
  import opened SiswaController

  function AniInput(): Input
  {
    Body("Ani Lestari", "XII IPA 1", 17)
  }

  lemma AniNamaAccepted()
    ensures Satisfies(Nama, Str("Ani Lestari"))
  {
    var s := "Ani Lestari";
    assert !InClass(s[0], TrimChar);
    assert forall i :: 0 <= i < |s| ==> IsLetter(s[i]) || s[i] == ' ';
  }

  lemma AniKelasAccepted()
    ensures Satisfies(Kelas, Str("XII IPA 1"))
  {
    var s := "XII IPA 1";
    assert KelasSplit(s, 3, 4, 8);
    MatchKelasComplete(s, 3, 4, 8);
    KelasRuleIsPatternAndLength(s);
  }

  function Body(nama: string, kelas: string, umur: int): Input
  {
    map[Key(Nama) := Str(nama), Key(Kelas) := Str(kelas), Key(Umur) := Int(umur)]
  }

  /** A body of three valid values passes the creation rules unchanged. */
  lemma WholeBodyAccepted(nama: string, kelas: string, umur: int)
    requires Satisfies(Nama, Str(nama)) && Satisfies(Kelas, Str(kelas)) && Satisfies(Umur, Int(umur))
    ensures Validate(Body(nama, kelas, umur), Required) == Passed(Patch(Some(nama), Some(kelas), Some(umur)))
  {
  }

  /** The example body passes the creation rules unchanged. */
  lemma AniAccepted()
    ensures Validate(AniInput(), Required) == Passed(Patch(Some("Ani Lestari"), Some("XII IPA 1"), Some(17)))
  {
    AniNamaAccepted();
    AniKelasAccepted();
    WholeBodyAccepted("Ani Lestari", "XII IPA 1", 17);
  }

  /** An update that only sets `umur` to 19 is refused for `umur` alone. */
  lemma AgeNineteenRejected()
    ensures Validate(map[Key(Umur) := Int(19)], Sometimes) == Rejected({Umur})
  {
  }

  /** A class name with its Roman numeral in lower case is refused,
      and so is one without the number. */
  lemma KelasCounterexamples()
    ensures !Satisfies(Kelas, Str("xii IPA 1"))
    ensures !Satisfies(Kelas, Str("XII IPA"))
  {
  }

  /** The example, run against an empty table. */
  method Walkthrough()
  {
    var table := new SiswaTable();
    AniAccepted();
    var created := table.Store(AniInput(), false);
    var ani := NewRow(1, Patch(Some("Ani Lestari"), Some("XII IPA 1"), Some(17)));
    assert created == Response(201, Record(ani));
    assert ani == Siswa(1, "Ani Lestari", "XII IPA 1", 17);

    var fetched := table.Show(1, false);
    assert fetched == Response(200, Record(ani));

    AgeNineteenRejected();
    var refused := table.Update(1, map[Key(Umur) := Int(19)], false, false);
    assert refused == Response(422, ValidationError({Umur}));
    assert table.rows[1].umur == 17;

    var gone := table.Destroy(2, false, false);
    assert gone.status == 500;
    var missing := table.Show(2, false);
    assert missing.status == 404;
  }
}
