/** How the matcher's labels and the hospital directory's labels line up.
    Labels are compared as exact strings, and the two tables were written
    separately. */
module Agreement {
  import Analysis
  import opened HospitalFinder

  /** A name listed by directory entry `j` has a non-empty listing. */
  lemma Offered(name: string, j: nat)
    requires j < |HospitalToSpecialties| && name in HospitalToSpecialties[j].1
    ensures Listing(HospitalToSpecialties, name) != []
  {
    assert HospitalToSpecialties[j].0 in Listing(HospitalToSpecialties, name);
  }

  /** Every name the matcher can return is offered by some hospital, except
      "Gynecology/Reproductive": the directory spells that field
      "Women's Health/Gynecology", so the lookup finds nothing for it. */
  lemma MatcherLabelsInDirectory(k: nat)
    requires k < |Analysis.SpecialtyTable|
    ensures Listing(HospitalToSpecialties, Analysis.SpecialtyTable[k].0) == [] <==>
      Analysis.SpecialtyTable[k].0 == "Gynecology/Reproductive"
  {
    var name := Analysis.SpecialtyTable[k].0;
    // A hospital offering each name, by position in the directory.
    var offeredAt := [0, 1, 1, 0, 0, 0, 0, 8, 5, 1, 2, 0, 3, 5];
    if k == 11 {
      assert forall j :: 0 <= j < |HospitalToSpecialties| ==> name !in HospitalToSpecialties[j].1;
      if Listing(HospitalToSpecialties, name) != [] {
        assert Listing(HospitalToSpecialties, name)[0] in Listing(HospitalToSpecialties, name);
      }
    } else {
      Offered(name, offeredAt[k]);
    }
  }
}
