/** The specialty to hospital lookup over the fixed directory of Toronto
    hospitals and the specialties each one offers. */
module HospitalFinder {
  import opened Outcomes
  import opened Selection

  // Specialty lists of the directory, one constant per hospital.
  const TorontoGeneralSpecialties: seq<string> := ["Cardiology", "Trauma/Critical Care", "Gastroenterology", "Nephrology/Urology", "Pulmonology", "Oncology", "General Surgery", "Infectious Disease", "Vascular Surgery"]
  const TorontoWesternSpecialties: seq<string> := ["Neurology", "Orthopedics", "Rheumatology/Immunology", "Pain Management"]
  const MountSinaiSpecialties: seq<string> := ["Gastroenterology", "Rheumatology/Immunology", "Endocrinology", "Pediatrics", "Women's Health/Gynecology", "Oncology", "Infectious Disease", "Genetics"]
  const HennickBridgepointSpecialties: seq<string> := ["Rehabilitation", "Geriatrics", "Ophthalmology"]
  const StMichaelsSpecialties: seq<string> := ["Cardiology", "Neurology", "Trauma/Critical Care", "Nephrology/Urology", "Orthopedics", "General Surgery", "Plastic Surgery", "Vascular Surgery"]
  const StJosephsSpecialties: seq<string> := ["Orthopedics", "Psychiatry", "General/Minor Care", "Pulmonology", "General Surgery"]
  const NorthYorkGeneralSpecialties: seq<string> := ["Gastroenterology", "General/Minor Care", "Orthopedics", "General Surgery", "Women's Health/Gynecology"]
  const MichaelGarronSpecialties: seq<string> := ["Pulmonology", "General/Minor Care", "Orthopedics", "General Surgery"]
  const SunnybrookSpecialties: seq<string> := ["Cardiology", "Neurology", "Oncology", "Orthopedics", "Trauma/Critical Care", "Women's Health/Gynecology", "Psychiatry", "Plastic Surgery", "Vascular Surgery", "Infectious Disease", "Dermatology"]
  const SickKidsSpecialties: seq<string> := ["Pediatrics", "Cardiology", "Neurology", "Oncology", "Orthopedics", "Gastroenterology", "Genetics", "Rheumatology/Immunology"]
  const HumberRiverSpecialties: seq<string> := ["Cardiology", "Oncology", "General/Minor Care", "Nephrology/Urology", "General Surgery"]
  const CamhSpecialties: seq<string> := ["Psychiatry"]
  const WomensCollegeSpecialties: seq<string> := ["Endocrinology", "Women's Health/Gynecology", "Dermatology", "Rheumatology/Immunology", "Pain Management"]
  const BaycrestSpecialties: seq<string> := ["Rehabilitation", "Geriatrics", "Neurology"]

  /** Hospital name paired with its specialties, in declaration order. */
  const HospitalToSpecialties: seq<(string, seq<string>)> := [
    ("Toronto General Hospital", TorontoGeneralSpecialties),
    ("Toronto Western Hospital", TorontoWesternSpecialties),
    ("Mount Sinai Hospital", MountSinaiSpecialties),
    ("Hennick Bridgepoint Hospital", HennickBridgepointSpecialties),
    ("St. Michael's Hospital", StMichaelsSpecialties),
    ("St. Joseph's Health Centre", StJosephsSpecialties),
    ("North York General Hospital", NorthYorkGeneralSpecialties),
    ("Michael Garron Hospital", MichaelGarronSpecialties),
    ("Sunnybrook Health Sciences Centre", SunnybrookSpecialties),
    ("The Hospital for Sick Children (SickKids)", SickKidsSpecialties),
    ("Humber River Hospital", HumberRiverSpecialties),
    ("Centre for Addiction and Mental Health (CAMH)", CamhSpecialties),
    ("Women's College Hospital", WomensCollegeSpecialties),
    ("Baycrest Health Sciences", BaycrestSpecialties)
  ]


  /** The positions of the entries of `directory` that list `specialty`. */
  ghost function ListingPositions(directory: seq<(string, seq<string>)>, specialty: string): set<int>
  {
    set k | 0 <= k < |directory| && specialty in directory[k].1
  }

  /** The names of the entries of `directory` that list `specialty`, in
      directory order; a name is in it exactly when its entry lists it. */
  function Listing(directory: seq<(string, seq<string>)>, specialty: string): (r: seq<string>)
    ensures |r| <= |directory|
    ensures forall h :: h in r <==> exists k :: 0 <= k < |directory| && directory[k].0 == h && specialty in directory[k].1
  {
    if directory == [] then []
    else
      var last := directory[|directory| - 1];
      Listing(directory[..|directory| - 1], specialty) + (if specialty in last.1 then [last.0] else [])
  }

  /** `get_hospital_by_specialty`: scan the directory in order, collecting the
      hospitals that list the specialty; `None` rather than an empty list
      when there are none. */
  method GetHospitalBySpecialty(specialty: string) returns (r: Option<seq<string>>)
    ensures r.None? <==> forall k :: 0 <= k < |HospitalToSpecialties| ==> specialty !in HospitalToSpecialties[k].1
    ensures r.Some? ==> r.value == Listing(HospitalToSpecialties, specialty)
    ensures r.Some? ==> 1 <= |r.value| <= |HospitalToSpecialties|
    ensures r.Some? ==> forall h :: h in r.value <==>
      exists k :: 0 <= k < |HospitalToSpecialties| && HospitalToSpecialties[k].0 == h && specialty in HospitalToSpecialties[k].1
    ensures r.Some? ==> forall a, b :: 0 <= a < b < |r.value| ==> r.value[a] != r.value[b]
  {
    var matching: seq<string> := [];
    for i := 0 to |HospitalToSpecialties|
      invariant matching == Listing(HospitalToSpecialties[..i], specialty)
    {
      assert HospitalToSpecialties[..i + 1][..i] == HospitalToSpecialties[..i];
      var (hospital, specialties) := HospitalToSpecialties[i];
      if specialty in specialties {
        matching := matching + [hospital];
      }
    }
    assert HospitalToSpecialties[..|HospitalToSpecialties|] == HospitalToSpecialties;
    if matching == [] {
      forall k | 0 <= k < |HospitalToSpecialties| ensures specialty !in HospitalToSpecialties[k].1 {
        assert HospitalToSpecialties[k].0 !in matching;
      }
      return None;
    }
    assert matching[0] in matching;
    HospitalNamesDistinct();
    ListingDistinct(HospitalToSpecialties, specialty);
    return Some(matching);
  }

  /** `idx` gives, in order, the directory positions of the listing's names. */
  ghost predicate ListedAt(directory: seq<(string, seq<string>)>, specialty: string, idx: seq<int>)
  {
    EnumeratesInOrder(idx, |directory|, ListingPositions(directory, specialty)) &&
    |idx| == |Listing(directory, specialty)| &&
    forall a :: 0 <= a < |idx| ==> Listing(directory, specialty)[a] == directory[idx[a]].0
  }

  /** The listing keeps directory order: it is the names at exactly the
      positions that list the specialty, in increasing position order. */
  lemma {:induction false} ListingInOrder(directory: seq<(string, seq<string>)>, specialty: string)
    ensures exists idx :: ListedAt(directory, specialty, idx)
  {
    if directory == [] {
      assert ListedAt(directory, specialty, []);
    } else {
      var n := |directory| - 1;
      ListingInOrder(directory[..n], specialty);
      var idx :| ListedAt(directory[..n], specialty, idx);
      ListedAtExtends(directory, specialty, idx);
    }
  }

  /** One more directory entry extends the positions by its own when it lists the specialty. */
  lemma ListedAtExtends(directory: seq<(string, seq<string>)>, specialty: string, idx: seq<int>)
    requires directory != []
    requires ListedAt(directory[..|directory| - 1], specialty, idx)
    ensures ListedAt(directory, specialty, idx + (if specialty in directory[|directory| - 1].1 then [|directory| - 1] else []))
  {
    var n := |directory| - 1;
    var front := directory[..n];
    var keep := ListingPositions(directory, specialty);
    assert forall i :: 0 <= i < n ==> (i in keep <==> i in ListingPositions(front, specialty));
    assert EnumeratesInOrder(idx, n, keep);
    var keepLast := specialty in directory[n].1;
    EnumerationExtends(idx, n, keep, keepLast);
    var idx' := idx + (if keepLast then [n] else []);
    var listed := Listing(directory, specialty);
    assert listed == Listing(front, specialty) + (if keepLast then [directory[n].0] else []);
    forall a | 0 <= a < |idx'| ensures listed[a] == directory[idx'[a]].0 {
      if a < |idx| {
        assert listed[a] == Listing(front, specialty)[a];
        assert front[idx[a]] == directory[idx[a]];
      }
    }
  }

  /** When the directory's names are distinct, so are the listing's. */
  lemma {:induction false} ListingDistinct(directory: seq<(string, seq<string>)>, specialty: string)
    requires forall i, j :: 0 <= i < j < |directory| ==> directory[i].0 != directory[j].0
    ensures forall a, b :: 0 <= a < b < |Listing(directory, specialty)| ==>
      Listing(directory, specialty)[a] != Listing(directory, specialty)[b]
  {
    ListingInOrder(directory, specialty);
    var idx :| ListedAt(directory, specialty, idx);
    forall a, b | 0 <= a < b < |idx| ensures Listing(directory, specialty)[a] != Listing(directory, specialty)[b] {
      assert idx[a] < idx[b];
    }
  }

  /** The fourteen hospital names are distinct, as dictionary keys must be. */
  lemma HospitalNamesDistinct()
    ensures forall i, j :: 0 <= i < j < |HospitalToSpecialties| ==> HospitalToSpecialties[i].0 != HospitalToSpecialties[j].0
  {
  }

  /** The listing is determined by the positions that list the specialty. */
  lemma {:induction false} ListingAtPositions(directory: seq<(string, seq<string>)>, specialty: string, idx: seq<int>)
    requires EnumeratesInOrder(idx, |directory|, ListingPositions(directory, specialty))
    ensures |Listing(directory, specialty)| == |idx|
    ensures forall a :: 0 <= a < |idx| ==> Listing(directory, specialty)[a] == directory[idx[a]].0
  {
    ListingInOrder(directory, specialty);
    var other :| ListedAt(directory, specialty, other);
    EnumerationUnique(other, idx, |directory|, ListingPositions(directory, specialty));
  }

  lemma PsychiatryOfferedAt(specialty: string)
    requires specialty == "Psychiatry"
    ensures specialty in HospitalToSpecialties[5].1 && specialty in HospitalToSpecialties[8].1 && specialty in HospitalToSpecialties[11].1
  {
  }

  lemma PsychiatryAbsentA(specialty: string)
    requires specialty == "Psychiatry"
    ensures specialty !in HospitalToSpecialties[0].1 && specialty !in HospitalToSpecialties[1].1 && specialty !in HospitalToSpecialties[2].1 && specialty !in HospitalToSpecialties[3].1 && specialty !in HospitalToSpecialties[4].1
  {
  }

  lemma PsychiatryAbsentB(specialty: string)
    requires specialty == "Psychiatry"
    ensures specialty !in HospitalToSpecialties[6].1 && specialty !in HospitalToSpecialties[7].1 && specialty !in HospitalToSpecialties[9].1 && specialty !in HospitalToSpecialties[10].1 && specialty !in HospitalToSpecialties[12].1 && specialty !in HospitalToSpecialties[13].1
  {
  }

  lemma NeurologyOfferedAt(specialty: string)
    requires specialty == "Neurology"
    ensures specialty in HospitalToSpecialties[1].1 && specialty in HospitalToSpecialties[4].1 && specialty in HospitalToSpecialties[8].1 && specialty in HospitalToSpecialties[9].1 && specialty in HospitalToSpecialties[13].1
  {
  }

  lemma NeurologyAbsentA(specialty: string)
    requires specialty == "Neurology"
    ensures specialty !in HospitalToSpecialties[0].1 && specialty !in HospitalToSpecialties[2].1 && specialty !in HospitalToSpecialties[3].1 && specialty !in HospitalToSpecialties[5].1
  {
  }

  lemma NeurologyAbsentB(specialty: string)
    requires specialty == "Neurology"
    ensures specialty !in HospitalToSpecialties[6].1 && specialty !in HospitalToSpecialties[7].1 && specialty !in HospitalToSpecialties[10].1 && specialty !in HospitalToSpecialties[11].1 && specialty !in HospitalToSpecialties[12].1
  {
  }

  /** Psychiatry is offered by St. Joseph's, Sunnybrook and CAMH, in that order. */
  lemma PsychiatryHospitals(specialty: string)
    requires specialty == "Psychiatry"
    ensures Listing(HospitalToSpecialties, specialty) ==
      ["St. Joseph's Health Centre", "Sunnybrook Health Sciences Centre", "Centre for Addiction and Mental Health (CAMH)"]
  {
    PsychiatryOfferedAt(specialty);
    PsychiatryAbsentA(specialty);
    PsychiatryAbsentB(specialty);
    var idx := [5, 8, 11];
    assert EnumeratesInOrder(idx, |HospitalToSpecialties|, ListingPositions(HospitalToSpecialties, specialty));
    ListingAtPositions(HospitalToSpecialties, specialty, idx);
  }

  /** Neurology is offered by five hospitals, in directory order. */
  lemma NeurologyHospitals(specialty: string)
    requires specialty == "Neurology"
    ensures Listing(HospitalToSpecialties, specialty) ==
      ["Toronto Western Hospital", "St. Michael's Hospital", "Sunnybrook Health Sciences Centre",
       "The Hospital for Sick Children (SickKids)", "Baycrest Health Sciences"]
  {
    NeurologyOfferedAt(specialty);
    NeurologyAbsentA(specialty);
    NeurologyAbsentB(specialty);
    var idx := [1, 4, 8, 9, 13];
    assert EnumeratesInOrder(idx, |HospitalToSpecialties|, ListingPositions(HospitalToSpecialties, specialty));
    ListingAtPositions(HospitalToSpecialties, specialty, idx);
  }
}
