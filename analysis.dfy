/** The lexical specialty matcher: a fixed keyword table and the lookup that
    turns a description, plus the noun-chunk root words a parser found in it,
    into a specialty owning one of its words. */
module Analysis {
  import opened Text
  import opened Outcomes

  // Keyword lists of the specialty table, one constant per specialty.
  const CardiologyKeywords: seq<string> := ["heart", "cardio", "aorta", "infarction", "angina", "stenosis", "fibrillation", "embolism", "pericarditis"]
  const NeurologyKeywords: seq<string> := ["brain", "neuro", "stroke", "aneurysm", "seizure", "epilepsy", "als", "parkinson's", "dementia", "meningioma", "hematoma", "neuralgia"]
  const OrthopedicsKeywords: seq<string> := ["fracture", "osteoarthritis", "joint", "bone", "skeletal", "scoliosis", "sprain", "disc", "dislocated", "hip"]
  const OncologyKeywords: seq<string> := ["cancer", "tumor", "leukemia", "lymphoma", "melanoma", "sarcoma", "glioblastoma", "myeloma"]
  const GastroenterologyKeywords: seq<string> := ["gastro", "crohn", "colitis", "liver", "hepatitis", "pancreas", "bowel", "esophageal", "ulcerative"]
  const NephrologyKeywords: seq<string> := ["kidney", "renal", "nephritis", "bladder", "prostate"]
  const PulmonologyKeywords: seq<string> := ["lungs", "respiratory", "pulmonary", "copd", "asthma", "fibrosis", "pneumonia"]
  const DermatologyKeywords: seq<string> := ["skin", "burn", "psoriasis", "dermatitis", "eczema", "acne"]
  const PsychiatryKeywords: seq<string> := ["psychiatric", "psychosis", "schizophrenia", "anorexia", "bulimia", "bipolar", "anxiety", "ocd"]
  const RheumatologyKeywords: seq<string> := ["arthritis", "lupus", "scleroderma", "vasculitis", "immune", "fibromyalgia"]
  const EndocrinologyKeywords: seq<string> := ["endocrine", "diabetes", "thyroid", "adrenal"]
  const GynecologyKeywords: seq<string> := ["reproductive", "uterus", "ovaries", "pcos", "endometriosis", "pregnancy"]
  const OphthalmologyKeywords: seq<string> := ["eye", "retina", "macular", "glaucoma"]
  const GeneralCareKeywords: seq<string> := ["headache", "cold", "constipation", "gout", "strain"]


  /** Specialty label paired with its keywords, in the table's declaration order. */
  const SpecialtyTable: seq<(string, seq<string>)> := [
    ("Cardiology", CardiologyKeywords),
    ("Neurology", NeurologyKeywords),
    ("Orthopedics", OrthopedicsKeywords),
    ("Oncology", OncologyKeywords),
    ("Gastroenterology", GastroenterologyKeywords),
    ("Nephrology/Urology", NephrologyKeywords),
    ("Pulmonology", PulmonologyKeywords),
    ("Dermatology", DermatologyKeywords),
    ("Psychiatry", PsychiatryKeywords),
    ("Rheumatology/Immunology", RheumatologyKeywords),
    ("Endocrinology", EndocrinologyKeywords),
    ("Gynecology/Reproductive", GynecologyKeywords),
    ("Ophthalmology", OphthalmologyKeywords),
    ("General/Minor Care", GeneralCareKeywords)
  ]


  /** True when `word` is one of the keywords filed under `specialty`. */
  predicate IsKeywordOf(word: string, specialty: string)
  {
    exists k :: 0 <= k < |SpecialtyTable| && SpecialtyTable[k].0 == specialty && word in SpecialtyTable[k].1
  }

  /** True when `word` is a keyword of some specialty. */
  predicate IsKeyword(word: string)
  {
    exists k :: 0 <= k < |SpecialtyTable| && word in SpecialtyTable[k].1
  }

  /** The specialties that own at least one of `words`. */
  function Hits(words: set<string>): set<string>
  {
    set k, w | 0 <= k < |SpecialtyTable| && w in words && w in SpecialtyTable[k].1 :: SpecialtyTable[k].0
  }

  /** A chunk root as the matcher stores it: lower-cased, then stripped. */
  function NormalizeRoot(root: string): (r: string)
    ensures r != [] ==> !IsSpace(r[0]) && !IsSpace(r[|r| - 1])
    ensures NoCapital(r)
  {
    LowerStripNoCapital(root);
    Strip(Lower(root))
  }

  /** The normalised chunk roots, in order. */
  function ChunkWords(roots: seq<string>): (r: seq<string>)
    ensures |r| == |roots|
    ensures forall i :: 0 <= i < |roots| ==> r[i] == NormalizeRoot(roots[i])
  {
    if roots == [] then [] else ChunkWords(roots[..|roots| - 1]) + [NormalizeRoot(roots[|roots| - 1])]
  }

  /** The whitespace-split tokens of the lower-cased, stripped description. */
  function DescriptionWords(description: string): (r: seq<string>)
    ensures forall k :: 0 <= k < |r| ==> r[k] != []
    ensures forall k, i :: 0 <= k < |r| && 0 <= i < |r[k]| ==> !IsSpace(r[k][i])
  {
    SplitTokens(Strip(Lower(description)));
    Split(Strip(Lower(description)))
  }

  /** The candidate vocabulary: chunk roots together with description tokens, as a set. */
  function Candidates(roots: seq<string>, description: string): set<string>
  {
    set w | w in ChunkWords(roots) + DescriptionWords(description)
  }

  /** The lexical matcher: collect the candidate words, then look for a
      keyword among them. */
  method GetSpecialtySpacy(description: string, chunkRoots: seq<string>) returns (r: Option<string>)
    ensures r.None? <==> Hits(Candidates(chunkRoots, description)) == {}
    ensures r.Some? ==> r.value in Hits(Candidates(chunkRoots, description))
    ensures r.Some? ==> exists w :: w in Candidates(chunkRoots, description) && IsKeywordOf(w, r.value)
  {
    var impWords := ImportantWords(chunkRoots);
    var fullText := Strip(Lower(description));
    var allWords := set w | w in impWords + Split(fullText);
    assert allWords == Candidates(chunkRoots, description);
    r := FirstHit(allWords);
  }

  /** The loop over the noun chunks: each root's text, lower-cased and
      stripped, appended in chunk order. */
  method ImportantWords(chunkRoots: seq<string>) returns (impWords: seq<string>)
    ensures |impWords| == |chunkRoots|
    ensures forall i :: 0 <= i < |chunkRoots| ==> impWords[i] == Strip(Lower(chunkRoots[i]))
    ensures impWords == ChunkWords(chunkRoots)
  {
    impWords := [];
    for i := 0 to |chunkRoots|
      invariant impWords == ChunkWords(chunkRoots[..i])
    {
      assert chunkRoots[..i + 1][..i] == chunkRoots[..i];
      impWords := impWords + [NormalizeRoot(chunkRoots[i])];
    }
    assert chunkRoots[..|chunkRoots|] == chunkRoots;
  }

  /** The nested search over the candidate words. They are visited in the
      arbitrary order of a set, so when words of two specialties are present
      either specialty may be returned: the choice of the next word is
      nondeterministic. For the chosen word the specialties are tried in
      table order, and the search stops at the first keyword found. */
  method FirstHit(allWords: set<string>) returns (r: Option<string>)
    ensures r.None? <==> Hits(allWords) == {}
    ensures r.Some? ==> r.value in Hits(allWords)
    ensures r.Some? ==> exists w :: w in allWords && IsKeywordOf(w, r.value)
  {
    var remaining := allWords;
    while remaining != {}
      invariant remaining <= allWords
      invariant forall w :: w in allWords && w !in remaining ==> !IsKeyword(w)
      decreases remaining
    {
      var word :| word in remaining;
      for j := 0 to |SpecialtyTable|
        invariant forall k :: 0 <= k < j ==> word !in SpecialtyTable[k].1
      {
        var (specialty, keywords) := SpecialtyTable[j];
        if word in keywords {
          assert IsKeywordOf(word, specialty) && specialty in Hits(allWords);
          return Some(specialty);
        }
      }
      remaining := remaining - {word};
    }
    assert forall w :: w in allWords ==> !IsKeyword(w);
    return None;
  }

  // The pairwise disjointness of the keyword lists, split into pieces small
  // enough for the solver; KeywordsDisjoint puts them together.

  lemma CardiologyApartA()
    ensures forall w :: w in CardiologyKeywords ==> w !in NeurologyKeywords
    ensures forall w :: w in CardiologyKeywords ==> w !in OrthopedicsKeywords
    ensures forall w :: w in CardiologyKeywords ==> w !in OncologyKeywords
    ensures forall w :: w in CardiologyKeywords ==> w !in GastroenterologyKeywords
    ensures forall w :: w in CardiologyKeywords ==> w !in NephrologyKeywords
    ensures forall w :: w in CardiologyKeywords ==> w !in PulmonologyKeywords
  {
  }

  lemma CardiologyApartB()
    ensures forall w :: w in CardiologyKeywords ==> w !in DermatologyKeywords
    ensures forall w :: w in CardiologyKeywords ==> w !in PsychiatryKeywords
    ensures forall w :: w in CardiologyKeywords ==> w !in RheumatologyKeywords
    ensures forall w :: w in CardiologyKeywords ==> w !in EndocrinologyKeywords
    ensures forall w :: w in CardiologyKeywords ==> w !in GynecologyKeywords
    ensures forall w :: w in CardiologyKeywords ==> w !in OphthalmologyKeywords
    ensures forall w :: w in CardiologyKeywords ==> w !in GeneralCareKeywords
  {
  }

  lemma NeurologyApartA()
    ensures forall w :: w in NeurologyKeywords ==> w !in OrthopedicsKeywords
    ensures forall w :: w in NeurologyKeywords ==> w !in OncologyKeywords
    ensures forall w :: w in NeurologyKeywords ==> w !in GastroenterologyKeywords
    ensures forall w :: w in NeurologyKeywords ==> w !in NephrologyKeywords
    ensures forall w :: w in NeurologyKeywords ==> w !in PulmonologyKeywords
    ensures forall w :: w in NeurologyKeywords ==> w !in DermatologyKeywords
  {
  }

  lemma NeurologyApartB()
    ensures forall w :: w in NeurologyKeywords ==> w !in PsychiatryKeywords
    ensures forall w :: w in NeurologyKeywords ==> w !in RheumatologyKeywords
    ensures forall w :: w in NeurologyKeywords ==> w !in EndocrinologyKeywords
    ensures forall w :: w in NeurologyKeywords ==> w !in GynecologyKeywords
    ensures forall w :: w in NeurologyKeywords ==> w !in OphthalmologyKeywords
    ensures forall w :: w in NeurologyKeywords ==> w !in GeneralCareKeywords
  {
  }

  lemma OrthopedicsApartA()
    ensures forall w :: w in OrthopedicsKeywords ==> w !in OncologyKeywords
    ensures forall w :: w in OrthopedicsKeywords ==> w !in GastroenterologyKeywords
    ensures forall w :: w in OrthopedicsKeywords ==> w !in NephrologyKeywords
    ensures forall w :: w in OrthopedicsKeywords ==> w !in PulmonologyKeywords
    ensures forall w :: w in OrthopedicsKeywords ==> w !in DermatologyKeywords
    ensures forall w :: w in OrthopedicsKeywords ==> w !in PsychiatryKeywords
  {
  }

  lemma OrthopedicsApartB()
    ensures forall w :: w in OrthopedicsKeywords ==> w !in RheumatologyKeywords
    ensures forall w :: w in OrthopedicsKeywords ==> w !in EndocrinologyKeywords
    ensures forall w :: w in OrthopedicsKeywords ==> w !in GynecologyKeywords
    ensures forall w :: w in OrthopedicsKeywords ==> w !in OphthalmologyKeywords
    ensures forall w :: w in OrthopedicsKeywords ==> w !in GeneralCareKeywords
  {
  }

  lemma OncologyApart()
    ensures forall w :: w in OncologyKeywords ==> w !in GastroenterologyKeywords
    ensures forall w :: w in OncologyKeywords ==> w !in NephrologyKeywords
    ensures forall w :: w in OncologyKeywords ==> w !in PulmonologyKeywords
    ensures forall w :: w in OncologyKeywords ==> w !in DermatologyKeywords
    ensures forall w :: w in OncologyKeywords ==> w !in PsychiatryKeywords
    ensures forall w :: w in OncologyKeywords ==> w !in RheumatologyKeywords
    ensures forall w :: w in OncologyKeywords ==> w !in EndocrinologyKeywords
    ensures forall w :: w in OncologyKeywords ==> w !in GynecologyKeywords
    ensures forall w :: w in OncologyKeywords ==> w !in OphthalmologyKeywords
    ensures forall w :: w in OncologyKeywords ==> w !in GeneralCareKeywords
  {
  }

  lemma GastroenterologyApart()
    ensures forall w :: w in GastroenterologyKeywords ==> w !in NephrologyKeywords
    ensures forall w :: w in GastroenterologyKeywords ==> w !in PulmonologyKeywords
    ensures forall w :: w in GastroenterologyKeywords ==> w !in DermatologyKeywords
    ensures forall w :: w in GastroenterologyKeywords ==> w !in PsychiatryKeywords
    ensures forall w :: w in GastroenterologyKeywords ==> w !in RheumatologyKeywords
    ensures forall w :: w in GastroenterologyKeywords ==> w !in EndocrinologyKeywords
    ensures forall w :: w in GastroenterologyKeywords ==> w !in GynecologyKeywords
    ensures forall w :: w in GastroenterologyKeywords ==> w !in OphthalmologyKeywords
    ensures forall w :: w in GastroenterologyKeywords ==> w !in GeneralCareKeywords
  {
  }

  lemma NephrologyApart()
    ensures forall w :: w in NephrologyKeywords ==> w !in PulmonologyKeywords
    ensures forall w :: w in NephrologyKeywords ==> w !in DermatologyKeywords
    ensures forall w :: w in NephrologyKeywords ==> w !in PsychiatryKeywords
    ensures forall w :: w in NephrologyKeywords ==> w !in RheumatologyKeywords
    ensures forall w :: w in NephrologyKeywords ==> w !in EndocrinologyKeywords
    ensures forall w :: w in NephrologyKeywords ==> w !in GynecologyKeywords
    ensures forall w :: w in NephrologyKeywords ==> w !in OphthalmologyKeywords
    ensures forall w :: w in NephrologyKeywords ==> w !in GeneralCareKeywords
  {
  }

  lemma PulmonologyApart()
    ensures forall w :: w in PulmonologyKeywords ==> w !in DermatologyKeywords
    ensures forall w :: w in PulmonologyKeywords ==> w !in PsychiatryKeywords
    ensures forall w :: w in PulmonologyKeywords ==> w !in RheumatologyKeywords
    ensures forall w :: w in PulmonologyKeywords ==> w !in EndocrinologyKeywords
    ensures forall w :: w in PulmonologyKeywords ==> w !in GynecologyKeywords
    ensures forall w :: w in PulmonologyKeywords ==> w !in OphthalmologyKeywords
    ensures forall w :: w in PulmonologyKeywords ==> w !in GeneralCareKeywords
  {
  }

  lemma DermatologyApart()
    ensures forall w :: w in DermatologyKeywords ==> w !in PsychiatryKeywords
    ensures forall w :: w in DermatologyKeywords ==> w !in RheumatologyKeywords
    ensures forall w :: w in DermatologyKeywords ==> w !in EndocrinologyKeywords
    ensures forall w :: w in DermatologyKeywords ==> w !in GynecologyKeywords
    ensures forall w :: w in DermatologyKeywords ==> w !in OphthalmologyKeywords
    ensures forall w :: w in DermatologyKeywords ==> w !in GeneralCareKeywords
  {
  }

  lemma PsychiatryApart()
    ensures forall w :: w in PsychiatryKeywords ==> w !in RheumatologyKeywords
    ensures forall w :: w in PsychiatryKeywords ==> w !in EndocrinologyKeywords
    ensures forall w :: w in PsychiatryKeywords ==> w !in GynecologyKeywords
    ensures forall w :: w in PsychiatryKeywords ==> w !in OphthalmologyKeywords
    ensures forall w :: w in PsychiatryKeywords ==> w !in GeneralCareKeywords
  {
  }

  lemma RheumatologyApart()
    ensures forall w :: w in RheumatologyKeywords ==> w !in EndocrinologyKeywords
    ensures forall w :: w in RheumatologyKeywords ==> w !in GynecologyKeywords
    ensures forall w :: w in RheumatologyKeywords ==> w !in OphthalmologyKeywords
    ensures forall w :: w in RheumatologyKeywords ==> w !in GeneralCareKeywords
  {
  }

  lemma EndocrinologyApart()
    ensures forall w :: w in EndocrinologyKeywords ==> w !in GynecologyKeywords
    ensures forall w :: w in EndocrinologyKeywords ==> w !in OphthalmologyKeywords
    ensures forall w :: w in EndocrinologyKeywords ==> w !in GeneralCareKeywords
  {
  }

  lemma GynecologyApart()
    ensures forall w :: w in GynecologyKeywords ==> w !in OphthalmologyKeywords
    ensures forall w :: w in GynecologyKeywords ==> w !in GeneralCareKeywords
  {
  }

  lemma OphthalmologyApart()
    ensures forall w :: w in OphthalmologyKeywords ==> w !in GeneralCareKeywords
  {
  }

  /** No keyword is filed under two specialties: keyword to specialty is a function. */
  lemma KeywordsDisjoint()
    ensures forall i, j, w :: 0 <= i < |SpecialtyTable| && 0 <= j < |SpecialtyTable| && w in SpecialtyTable[i].1 && w in SpecialtyTable[j].1 ==> i == j
  {
    CardiologyApartA(); CardiologyApartB(); NeurologyApartA(); NeurologyApartB();
    OrthopedicsApartA(); OrthopedicsApartB(); OncologyApart(); GastroenterologyApart();
    NephrologyApart(); PulmonologyApart(); DermatologyApart(); PsychiatryApart(); RheumatologyApart();
    EndocrinologyApart(); GynecologyApart(); OphthalmologyApart();
  }

  /** Specialty labels are pairwise distinct. */
  lemma LabelsDistinct()
    ensures forall i, j :: 0 <= i < j < |SpecialtyTable| ==> SpecialtyTable[i].0 != SpecialtyTable[j].0
  {
  }

  /** The catch-all label is a hit only through one of its own keywords: a
      miss is `None`, never "General/Minor Care". */
  lemma {:induction false} CatchAllOnlyByKeyword(words: set<string>)
    ensures "General/Minor Care" in Hits(words) <==> exists w :: w in words && w in GeneralCareKeywords
  {
    LabelsDistinct();
    if "General/Minor Care" in Hits(words) {
      var k, w :| 0 <= k < |SpecialtyTable| && w in words && w in SpecialtyTable[k].1
        && SpecialtyTable[k].0 == "General/Minor Care";
      assert k == 13;
    }
    if exists w :: w in words && w in GeneralCareKeywords {
      var w :| w in words && w in GeneralCareKeywords;
      assert w in SpecialtyTable[13].1;
    }
  }

  /** A keyword has exactly one owning specialty. */
  lemma {:induction false} KeywordOwner(word: string, i: nat)
    requires i < |SpecialtyTable| && word in SpecialtyTable[i].1
    ensures forall s :: IsKeywordOf(word, s) <==> s == SpecialtyTable[i].0
  {
    KeywordsDisjoint();
  }

  /** When every keyword among the candidates belongs to specialty `i`, and
      at least one is present, the only possible result is that specialty,
      whatever order the set of words is visited in. */
  lemma {:induction false} SingleSpecialtyDecides(words: set<string>, i: nat)
    requires i < |SpecialtyTable|
    requires exists w :: w in words && w in SpecialtyTable[i].1
    requires forall w :: w in words && IsKeyword(w) ==> w in SpecialtyTable[i].1
    ensures Hits(words) == {SpecialtyTable[i].0}
  {
    KeywordsDisjoint();
    var w :| w in words && w in SpecialtyTable[i].1;
    assert SpecialtyTable[i].0 in Hits(words);
    forall s | s in Hits(words) ensures s == SpecialtyTable[i].0 {
      var k, v :| 0 <= k < |SpecialtyTable| && v in words && v in SpecialtyTable[k].1 && s == SpecialtyTable[k].0;
      assert IsKeyword(v);
    }
  }

  /** More candidate words can add hits but never remove one. */
  lemma HitsMonotone(a: set<string>, b: set<string>)
    requires a <= b
    ensures Hits(a) <= Hits(b)
  {
  }

  /** Extra chunk roots only enlarge the candidate vocabulary, so a hit stays a hit. */
  lemma {:induction false} ExtraRootsKeepHits(roots: seq<string>, extra: seq<string>, description: string)
    ensures Candidates(roots, description) <= Candidates(roots + extra, description)
    ensures Hits(Candidates(roots, description)) <= Hits(Candidates(roots + extra, description))
  {
    var small := ChunkWords(roots);
    var large := ChunkWords(roots + extra);
    forall w | w in small ensures w in large {
      var i :| 0 <= i < |small| && small[i] == w;
      assert large[i] == NormalizeRoot((roots + extra)[i]);
    }
    HitsMonotone(Candidates(roots, description), Candidates(roots + extra, description));
  }

  /** A description made of one whitespace-free word yields that word, lower-cased. */
  lemma {:induction false} SingleWordDescription(description: string)
    requires description != []
    requires forall i :: 0 <= i < |description| ==> !IsSpace(description[i])
    ensures Candidates([], description) == {Lower(description)}
  {
    var low := Lower(description);
    LowerPreservesSpace(description);
    StripClean(low);
    SplitWord(low);
    NoRootsCandidates(description);
    SingletonAsSet(low);
  }

  /** A one-word description hits exactly the owner of its lower-cased form. */
  lemma {:induction false} OneWordHit(description: string, i: nat)
    requires description != []
    requires forall k :: 0 <= k < |description| ==> !IsSpace(description[k])
    requires i < |SpecialtyTable| && Lower(description) in SpecialtyTable[i].1
    ensures Hits(Candidates([], description)) == {SpecialtyTable[i].0}
  {
    SingleWordDescription(description);
    KeywordsDisjoint();
    SingleSpecialtyDecides({Lower(description)}, i);
  }

  /** A one-word description whose lower-cased form is no keyword is a miss. */
  lemma {:induction false} OneWordMiss(description: string)
    requires description != []
    requires forall k :: 0 <= k < |description| ==> !IsSpace(description[k])
    requires !IsKeyword(Lower(description))
    ensures Hits(Candidates([], description)) == {}
  {
    SingleWordDescription(description);
  }

  /** Case is folded before matching: "hip", "Hip" and "HIP" all hit Orthopedics. */
  lemma CaseFolded(description: string)
    requires description == "hip" || description == "Hip" || description == "HIP"
    ensures Hits(Candidates([], description)) == {"Orthopedics"}
  {
    assert Lower(description) == "hip";
    OneWordHit(description, 2);
  }

  // The three facts below take the word as a parameter fixed by `requires`:
  // with the literal written into the `ensures`, the solver spends far more
  // on unfolding the keyword table.

  lemma FracturedIsNoKeyword(w: string)
    requires w == "fractured"
    ensures !IsKeyword(w)
  {
  }

  lemma FebrileIsNoKeyword(w: string)
    requires w == "febrile"
    ensures !IsKeyword(w)
  {
  }

  lemma HipCommaIsNoKeyword(w: string)
    requires w == "hip,"
    ensures !IsKeyword(w)
  {
  }

  /** There is no stemming: "fractured" does not match the keyword "fracture". */
  lemma NoStemming(description: string)
    requires description == "fractured" || description == "Fractured"
    ensures Hits(Candidates([], description)) == {}
  {
    assert Lower(description) == "fractured";
    FracturedIsNoKeyword(Lower(description));
    OneWordMiss(description);
  }

  /** The candidate vocabulary is the chunk roots' part plus the description's part. */
  lemma CandidatesUnion(roots: seq<string>, description: string)
    ensures Candidates(roots, description) == (set w | w in ChunkWords(roots)) + Candidates([], description)
  {
  }

  /** A root that is already lower-case and free of edge whitespace is kept as is. */
  lemma {:induction false} CleanRoot(root: string)
    requires root != [] ==> !IsSpace(root[0]) && !IsSpace(root[|root| - 1])
    requires Lower(root) == root
    ensures ChunkWords([root]) == [root]
  {
    StripClean(root);
  }

  /** Punctuation stays attached to a split token, so "hip," is a miss through
      the description tokens alone. */
  lemma PunctuationAttached(description: string)
    requires description == "hip,"
    ensures Hits(Candidates([], description)) == {}
  {
    assert Lower(description) == description;
    HipCommaIsNoKeyword(description);
    OneWordMiss(description);
  }

  /** A parser supplying the chunk root "hip" turns the miss on "hip," into a hit. */
  lemma ChunkRootRescues(description: string, roots: seq<string>)
    requires description == "hip,"
    requires roots == ["hip"]
    ensures Hits(Candidates(roots, description)) == {"Orthopedics"}
  {
    assert Lower(description) == description;
    HipCommaIsNoKeyword(description);
    assert Lower(roots[0]) == roots[0];
    RootAddsHit(roots[0], description, 2);
  }

  /** A clean root and a one-word description give the root and the lower-cased word. */
  lemma {:induction false} RootAndWordCandidates(root: string, description: string)
    requires root != [] && !IsSpace(root[0]) && !IsSpace(root[|root| - 1]) && Lower(root) == root
    requires description != []
    requires forall k :: 0 <= k < |description| ==> !IsSpace(description[k])
    ensures Candidates([root], description) == {root, Lower(description)}
  {
    SingleWordDescription(description);
    CleanRoot(root);
    CandidatesUnion([root], description);
    SingletonAsSet(root);
  }

  /** Of two words, the one keyword decides the hits alone. */
  lemma {:induction false} OneOfTwoHits(x: string, y: string, i: nat)
    requires i < |SpecialtyTable| && x in SpecialtyTable[i].1
    requires !IsKeyword(y)
    ensures Hits({x, y}) == Hits({y, x}) == {SpecialtyTable[i].0}
  {
    var words := {x, y};
    assert forall w :: w in words && IsKeyword(w) ==> w == x;
    SingleSpecialtyDecides(words, i);
    assert {y, x} == words;
  }

  /** A clean keyword root added to a one-word description that hits nothing
      makes the root's specialty the only hit. */
  lemma {:induction false} RootAddsHit(root: string, description: string, i: nat)
    requires root != [] && !IsSpace(root[0]) && !IsSpace(root[|root| - 1]) && Lower(root) == root
    requires i < |SpecialtyTable| && root in SpecialtyTable[i].1
    requires description != []
    requires forall k :: 0 <= k < |description| ==> !IsSpace(description[k])
    requires !IsKeyword(Lower(description))
    ensures Hits(Candidates([root], description)) == {SpecialtyTable[i].0}
  {
    RootAndWordCandidates(root, description);
    OneOfTwoHits(root, Lower(description), i);
  }

  /** Without chunk roots the candidates are the description's tokens. */
  lemma NoRootsCandidates(description: string)
    ensures Candidates([], description) == set w | w in DescriptionWords(description)
  {
    assert ChunkWords([]) == [];
    assert ChunkWords([]) + DescriptionWords(description) == DescriptionWords(description);
  }

  /** Chunk roots that normalise to words of the description add nothing:
      the candidates are then those of the description alone, so the
      examples below hold for any parser whose roots are such words. */
  lemma {:induction false} RootsFromDescription(roots: seq<string>, description: string)
    requires forall i :: 0 <= i < |roots| ==> NormalizeRoot(roots[i]) in DescriptionWords(description)
    ensures Candidates(roots, description) == Candidates([], description)
  {
    NoRootsCandidates(description);
    forall w | w in ChunkWords(roots) ensures w in DescriptionWords(description) {
      var i :| 0 <= i < |roots| && ChunkWords(roots)[i] == w;
    }
  }

  /** The set of a one-element list, for `SingleWordDescription` and `RootAndWordCandidates`. */
  lemma SingletonAsSet(x: string)
    ensures (set w | w in [x]) == {x}
  {
  }

  /** The set of a two-element list, for `TwoWordDescription`. */
  lemma PairAsSet(x: string, y: string)
    ensures (set w | w in [x, y]) == {x, y}
  {
  }

  /** Two whitespace-free words separated by a space yield both words, lower-cased. */
  lemma {:induction false} TwoWordDescription(a: string, b: string)
    requires a != [] && b != []
    requires forall k :: 0 <= k < |a| ==> !IsSpace(a[k])
    requires forall k :: 0 <= k < |b| ==> !IsSpace(b[k])
    ensures Candidates([], a + " " + b) == {Lower(a), Lower(b)}
  {
    NormalizeTwoWords(a, b);
    NoRootsCandidates(a + " " + b);
    PairAsSet(Lower(a), Lower(b));
  }

  /** Two keywords of two specialties hit exactly those two. */
  lemma {:induction false} TwoHits(a: string, b: string, i: nat, j: nat)
    requires i < |SpecialtyTable| && a in SpecialtyTable[i].1
    requires j < |SpecialtyTable| && b in SpecialtyTable[j].1
    ensures Hits({a, b}) == {SpecialtyTable[i].0, SpecialtyTable[j].0}
  {
    KeywordsDisjoint();
  }

  /** Two words, only the second of which is a keyword once lower-cased. */
  lemma {:induction false} SecondWordHit(a: string, b: string, i: nat)
    requires a != [] && b != []
    requires forall k :: 0 <= k < |a| ==> !IsSpace(a[k])
    requires forall k :: 0 <= k < |b| ==> !IsSpace(b[k])
    requires !IsKeyword(Lower(a))
    requires i < |SpecialtyTable| && Lower(b) in SpecialtyTable[i].1
    ensures Hits(Candidates([], a + " " + b)) == {SpecialtyTable[i].0}
  {
    TwoWordDescription(a, b);
    OneOfTwoHits(Lower(b), Lower(a), i);
  }

  /** "fractured hip" hits Orthopedics through "hip" alone. */
  lemma FracturedHip(description: string)
    requires description == "fractured hip"
    ensures Hits(Candidates([], description)) == {"Orthopedics"}
  {
    var a, b := "fractured", "hip";
    assert description == a + " " + b;
    assert Lower(a) == a && Lower(b) == b;
    FracturedIsNoKeyword(a);
    SecondWordHit(a, b, 2);
  }

  /** "Febrile seizure" is a lexical hit on Neurology through "seizure". */
  lemma FebrileSeizure(description: string)
    requires description == "Febrile seizure"
    ensures Hits(Candidates([], description)) == {"Neurology"}
  {
    var a, b := "Febrile", "seizure";
    assert description == a + " " + b;
    assert Lower(a) == "febrile" && Lower(b) == b;
    FebrileIsNoKeyword(Lower(a));
    SecondWordHit(a, b, 1);
  }

  /** Two words that are keywords of specialties `i` and `j`. */
  lemma {:induction false} BothWordsHit(a: string, b: string, i: nat, j: nat)
    requires a != [] && b != []
    requires forall k :: 0 <= k < |a| ==> !IsSpace(a[k])
    requires forall k :: 0 <= k < |b| ==> !IsSpace(b[k])
    requires i < |SpecialtyTable| && Lower(a) in SpecialtyTable[i].1
    requires j < |SpecialtyTable| && Lower(b) in SpecialtyTable[j].1
    ensures Hits(Candidates([], a + " " + b)) == {SpecialtyTable[i].0, SpecialtyTable[j].0}
  {
    TwoWordDescription(a, b);
    TwoHits(Lower(a), Lower(b), i, j);
  }

  /** Keywords of two specialties: both are possible results, so the table
      order alone does not decide which one the matcher returns. */
  lemma HeartAndBrain(description: string)
    requires description == "heart brain" || description == "brain heart"
    ensures Hits(Candidates([], description)) == {"Cardiology", "Neurology"}
  {
    var a, b := "heart", "brain";
    assert Lower(a) == a && Lower(b) == b;
    if description == a + " " + b {
      BothWordsHit(a, b, 0, 1);
    } else {
      assert description == b + " " + a;
      BothWordsHit(b, a, 1, 0);
    }
  }
}
