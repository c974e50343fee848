# Treatment Finder core, modelled in Dafny

This project models the core of Treatment Finder. Treatment Finder routes a patient
with a described injury to a Toronto hospital. The core has three parts:

- **Lexical specialty matcher** (`get_specialty_spacy`). It lower-cases the
  description, splits it on whitespace, and adds the words of the noun-chunk
  roots a parser found. It then looks for any candidate word that is a keyword
  in the fourteen-entry specialty table. It returns that keyword's specialty,
  or `None` when no candidate word is a keyword.
- **Patient data handler** (`PatientDataHandler`).
  - It maps raw severity words such as "Critical" or "mild" onto five
    categories.
  - It builds a standardised four-column view of the patient table once, when
    it is created.
  - It answers queries that return all patients or one severity category,
    restricted to three columns. It also returns either of the loaded tables
    on request.
- **Hospital lookup** (`get_hospital_by_specialty`). It scans a fixed
  directory of fourteen hospitals, in declaration order. It collects every
  hospital that lists the requested specialty. It returns `None`, not an empty
  list, when there is none.

Modules:

- `Text`: the ASCII string primitives the matcher needs: `lower()`, `strip()`,
  and `split()` with no separator.
- `Analysis`: the keyword table and the matcher.
- `MatchingEngine`: severity standardisation and the handler class.
- `HospitalFinder`: the directory and the lookup.
- `Selection`: an order-preserving enumeration predicate that the two selection
  functions share.
- `Agreement`: how the matcher's labels meet the directory.
- `Outcomes`: `Option`.

### Behaviour worth knowing

- **Set order picks the winner.** The matcher iterates over a Python `set`,
  whose order is arbitrary. When candidate words of two specialties are
  present, either specialty can be returned; the table order only matters
  within one word, and no keyword belongs to two specialties. `FirstHit`
  picks the next word nondeterministically, and `HeartAndBrain` exhibits
  such a description.
- **A miss is `None`.** The docstring of `get_specialty_spacy`
  (finder/analysis.py:56) promises "General/Minor Care" when nothing matches;
  the code returns `None` (`CatchAllOnlyByKeyword`).
- **"Febrile seizure" hits Neurology** through the token "seizure"
  (`FebrileSeizure`).
- **Severity is not trimmed.** Severity lookup lower-cases but does not
  strip, so `" critical"` is "Unknown" (`WhitespaceIsKept`).
- **The Gynecology label is in no hospital list.** The matcher's label
  "Gynecology/Reproductive" appears in no hospital's list; the directory
  spells the field "Women's Health/Gynecology". Feeding the matcher's answer
  to the lookup therefore gives `None` for that specialty, and for that one
  only (`MatcherLabelsInDirectory`).
- **Two docstrings describe other code.** The docstring of
  `get_patient_data_basic` (finder/matching_engine.py:81-91) speaks of
  integer options 1 to 5 and of the columns PatientID, Name and
  AffectedBodyPart, and its error message (line 107) offers 1 to 4. The code
  accepts the five strings "all", "low", "medium", "high" and "chronic" and
  returns PatientID, AffectedBodyPart and Injury/Sickness. The docstring of
  `get_original_data` (lines 61-71) promises HospitalID, Name and Location;
  the code returns the whole patient or hospital table. The model follows
  the code (`GetPatientDataBasic`, `GetOriginalData`).

The example lemmas about concrete descriptions take no chunk roots, so they
describe the split path alone, except `ChunkRootRescues`, which adds the
root "hip", and `RootAddsHit`, which adds one keyword root. `RootsFromDescription` shows that roots which
normalise to words of the description change nothing, so the examples also
hold for a parser whose roots are such words.

## Model

| member | source | states |
|---|---|---|
| Analysis.GetSpecialtySpacy | finder/analysis.py:58-74 | Returns `None` exactly when no candidate word is a keyword. Candidate words are the lower-cased, stripped chunk roots plus the `split()` tokens of the lower-cased, stripped description. A returned label is a table label that owns some candidate word. |
| Analysis.FirstHit | finder/analysis.py:69-74 | The nested search visits candidate words in arbitrary order and, for each word, the specialties in table order. It returns the first owner found, or `None` exactly when no word is a keyword. |
| Analysis.ChunkWords | finder/analysis.py:61-64 | One entry per chunk root, in order, each lower-cased and stripped. |
| Analysis.KeywordsDisjoint | finder/analysis.py:10-25 | No keyword is listed under two specialties. |
| Analysis.LabelsDistinct | finder/analysis.py:10-25 | The fourteen specialty labels are distinct. |
| Analysis.KeywordOwner | finder/analysis.py:10-25 | A keyword has exactly one owning label, so keyword to specialty is a function. |
| Analysis.SingleSpecialtyDecides | finder/analysis.py:67-72 | If every keyword among the candidates belongs to one specialty and at least one is present, that specialty is the only possible result, whatever the set order. |
| Analysis.CatchAllOnlyByKeyword | finder/analysis.py:56-74 | "General/Minor Care" is a possible result only when a candidate word is one of its own keywords. A miss is never reported as that label. |
| Analysis.HitsMonotone | finder/analysis.py:67-74 | More candidate words never remove a possible result. |
| Analysis.ExtraRootsKeepHits | finder/analysis.py:61-67 | Extra chunk roots only enlarge the candidate set, so a hit stays a hit. |
| Analysis.NormalizeRoot | finder/analysis.py:62-63 | A chunk root as stored: lower-cased then stripped, so it has no whitespace at either end and no ASCII capital. |
| Analysis.DescriptionWords | finder/analysis.py:66-67 | The `split()` tokens of the lower-cased, stripped description: each non-empty and free of whitespace. |
| Analysis.Candidates | finder/analysis.py:67 | The set of the chunk-root words and the description tokens; `CandidatesUnion` states its members. |
| Analysis.CandidatesUnion | finder/analysis.py:67 | The candidate set is the chunk-root words united with the description's tokens. |
| Analysis.CleanRoot | finder/analysis.py:62-63 | A chunk root already lower-case, with no whitespace at either end, is kept unchanged. |
| Analysis.ImportantWords | finder/analysis.py:61-64 | One candidate word per chunk root, in order: the root lower-cased and stripped. |
| Analysis.RootsFromDescription | finder/analysis.py:61-67 | Chunk roots that normalise to words of the description leave the candidate set equal to the description's tokens. |
| Analysis.NoRootsCandidates | finder/analysis.py:66-67 | With no chunk roots, the candidates are the description's tokens. |
| Analysis.SingleWordDescription | finder/analysis.py:66-67 | With no chunk roots, a one-word description yields exactly its lower-cased form as a candidate. |
| Analysis.RootAndWordCandidates | finder/analysis.py:61-67 | A clean root plus a one-word description yield exactly the root and the lower-cased word. |
| Analysis.TwoWordDescription | finder/analysis.py:66-67 | With no chunk roots, two words joined by one space yield exactly both words, lower-cased. |
| Analysis.OneWordHit | finder/analysis.py:66-72 | With no chunk roots, a one-word description whose lower-cased form is a keyword hits exactly that keyword's owner. |
| Analysis.OneWordMiss | finder/analysis.py:66-74 | With no chunk roots, a one-word description whose lower-cased form is no keyword is a miss. |
| Analysis.OneOfTwoHits | finder/analysis.py:69-72 | Of two words, if only one is a keyword, its owner is the only possible result. |
| Analysis.TwoHits | finder/analysis.py:69-72 | Two keywords of two specialties make exactly those two specialties possible. |
| Analysis.SecondWordHit | finder/analysis.py:66-72 | With no chunk roots, of two words, only the second a keyword: its owner is the only result. |
| Analysis.BothWordsHit | finder/analysis.py:66-72 | With no chunk roots, two words, each a keyword: both owners are possible results. |
| Analysis.RootAddsHit | finder/analysis.py:61-72 | Adding a keyword chunk root to a one-word miss makes the root's owner the only result. |
| Analysis.CaseFolded | finder/analysis.py:66-71 | With no chunk roots, "hip", "Hip" and "HIP" all hit Orthopedics, whose keywords (line 13) include "hip". |
| Analysis.FracturedIsNoKeyword | finder/analysis.py:10-25 | "fractured" is in no keyword list. |
| Analysis.FebrileIsNoKeyword | finder/analysis.py:10-25 | "febrile" is in no keyword list. |
| Analysis.HipCommaIsNoKeyword | finder/analysis.py:10-25 | "hip," is in no keyword list. |
| Analysis.NoStemming | finder/analysis.py:66-71 | With no chunk roots, "fractured" and "Fractured" hit nothing: there is no stemming to the keyword "fracture" of line 13. |
| Analysis.PunctuationAttached | finder/analysis.py:66-71 | "hip," hits nothing through the split path: punctuation stays on the token. |
| Analysis.ChunkRootRescues | finder/analysis.py:61-72 | With the chunk root "hip", the description "hip," hits Orthopedics: an extra root turns a miss into a hit. |
| Analysis.FracturedHip | finder/analysis.py:66-72 | With no chunk roots, "fractured hip" hits exactly Orthopedics, through the keyword "hip" of line 13. |
| Analysis.FebrileSeizure | finder/analysis.py:66-72 | With no chunk roots, "Febrile seizure" hits exactly Neurology, through the keyword "seizure" of line 12. |
| Analysis.HeartAndBrain | finder/analysis.py:67-72 | With no chunk roots, "heart brain" and "brain heart" both make either Cardiology or Neurology possible: the result depends on set order, not table order. |
| Text.LowerChar | finder/analysis.py:63 | An ASCII capital becomes the small letter 32 code points above it; every other character is unchanged. |
| Text.Lower | finder/analysis.py:63-66 | Same length as the input, with each ASCII capital replaced by its lower-case letter. |
| Text.LowerIdempotent | finder/matching_engine.py:52 | Lower-casing twice equals lower-casing once. |
| Text.LowerConcat | finder/analysis.py:66 | Lower-casing distributes over concatenation. |
| Text.LowerPreservesSpace | finder/analysis.py:66-67 | Lower-casing neither creates nor removes whitespace. |
| Text.TrimStart | finder/analysis.py:63-66 | Removes exactly the leading whitespace: the result is a suffix, nothing dropped is non-space, and the result does not start with a space. |
| Text.TrimEnd | finder/analysis.py:63-66 | Removes exactly the trailing whitespace: the result is a prefix, nothing dropped is non-space, and the result does not end with a space. |
| Text.Strip | finder/analysis.py:63-66 | The result neither starts nor ends with whitespace; `StripKeepsMiddle` states that everything between the two whitespace ends is kept. |
| Text.StripKeepsMiddle | finder/analysis.py:63-66 | Strip removes only whitespace, and only at the two ends: the result is the slice of the input between a whitespace prefix and a whitespace suffix. |
| Text.MiddleSlice | finder/analysis.py:63-66 | A prefix of a suffix of a string is a slice of it, and whitespace after that prefix in the suffix is whitespace in the string. |
| Text.LowerStripNoCapital | finder/analysis.py:63 | Lower-casing then stripping leaves no ASCII capital. |
| Text.SliceNoCapital | finder/analysis.py:63 | A slice of a string without ASCII capitals has none either. |
| Text.StripClean | finder/analysis.py:63-66 | Strip leaves unchanged a string with no whitespace at either end. |
| Text.WordLength | finder/analysis.py:67 | The longest whitespace-free prefix. |
| Text.Split | finder/analysis.py:67 | `str.split()` with no separator: the maximal whitespace-free runs, in order; `SplitTokens`, `SplitJoin` and `SplitUnique` characterise it. |
| Text.SplitTokens | finder/analysis.py:67 | `split()` yields no empty token and no token containing whitespace. |
| Text.SplitJoin | finder/analysis.py:67 | Completeness of `split()`: joining the tokens with single spaces gives the input with its edge whitespace removed and every inner whitespace run squeezed to one space. |
| Text.SplitJoinWord | finder/analysis.py:67 | The word step of completeness: a leading word followed by a rest whose split joins to its squeeze also joins to its own squeeze. |
| Text.SplitUnique | finder/analysis.py:67 | `split()` is the only list of non-empty, whitespace-free tokens whose single-space join is the squeezed input, so every word of the input is a token, in order. |
| Text.JoinInjective | finder/analysis.py:67 | Non-empty, whitespace-free tokens are recovered from their single-space join. |
| Text.FirstWord | finder/analysis.py:67 | The join of such tokens starts with the whole first token, followed by a space exactly when more tokens follow. |
| Text.SplitEmpty | finder/analysis.py:67 | `split()` is empty exactly when the input is all whitespace. |
| Text.TidyWord | finder/analysis.py:67 | Squeezing keeps a word whole when whitespace or nothing follows it. |
| Text.TidyKeeps | finder/analysis.py:67 | Squeezing copies a non-whitespace character unchanged. |
| Text.TidyAfterWord | finder/analysis.py:67 | Squeezing turns the whitespace run after a word into one space when more text follows, and into nothing at the end. |
| Text.JoinCons | finder/analysis.py:67 | Joining a token in front of a list puts one space between them when the list is non-empty. |
| Text.SplitWord | finder/analysis.py:67 | A non-empty whitespace-free string splits into itself. |
| Text.WordLengthAll | finder/analysis.py:67 | A whitespace-free string is one whole word. |
| Text.WordLengthPrefix | finder/analysis.py:67 | A word followed by whitespace ends where the whitespace starts. |
| Text.SplitTwoWords | finder/analysis.py:67 | Two words joined by one space split back into the two words. |
| Text.NormalizeTwoWords | finder/analysis.py:66-67 | Lower-casing, stripping and splitting two words joined by a space gives the two words, lower-cased. |
| HospitalFinder.GetHospitalBySpecialty | finder/hospital_finder.py:94-103 | Returns `None` exactly when no hospital lists the specialty. Otherwise it returns the in-order listing: 1 to 14 names, exactly the hospitals listing the specialty, with no duplicates. |
| HospitalFinder.Listing | finder/hospital_finder.py:96-98 | A name is in the listing exactly when its directory entry lists the specialty. The listing is no longer than the directory. |
| HospitalFinder.ListingInOrder | finder/hospital_finder.py:96-98 | The listing is the names at exactly the listing positions, in increasing directory order. |
| HospitalFinder.ListedAtExtends | finder/hospital_finder.py:96-98 | One more directory entry extends the listing positions by its own position when it lists the specialty. |
| HospitalFinder.ListingDistinct | finder/hospital_finder.py:96-98 | Distinct directory names give a listing without duplicates. |
| HospitalFinder.HospitalNamesDistinct | finder/hospital_finder.py:9-59 | The fourteen hospital names are distinct. |
| HospitalFinder.ListingAtPositions | finder/hospital_finder.py:96-98 | The listing is determined by the increasing enumeration of the positions that list the specialty. |
| HospitalFinder.PsychiatryOfferedAt | finder/hospital_finder.py:28-50 | St. Joseph's (lines 28-29), Sunnybrook (37-41) and CAMH (49-50) list Psychiatry. |
| HospitalFinder.PsychiatryAbsentA | finder/hospital_finder.py:10-27 | Toronto General, Toronto Western, Mount Sinai, Hennick Bridgepoint and St. Michael's do not list Psychiatry. |
| HospitalFinder.PsychiatryAbsentB | finder/hospital_finder.py:31-58 | North York, Michael Garron, SickKids, Humber River, Women's College and Baycrest do not list Psychiatry. |
| HospitalFinder.NeurologyOfferedAt | finder/hospital_finder.py:14-57 | Toronto Western (lines 14-15), St. Michael's (24-25), Sunnybrook (37-38), SickKids (42-43) and Baycrest (56-57) list Neurology. |
| HospitalFinder.NeurologyAbsentA | finder/hospital_finder.py:10-30 | Toronto General, Mount Sinai, Hennick Bridgepoint and St. Joseph's do not list Neurology. |
| HospitalFinder.NeurologyAbsentB | finder/hospital_finder.py:31-55 | North York, Michael Garron, Humber River, CAMH and Women's College do not list Neurology. |
| HospitalFinder.PsychiatryHospitals | finder/hospital_finder.py:94-103 | "Psychiatry" lists St. Joseph's, Sunnybrook and CAMH, in that order, given the directory of lines 9-59. |
| HospitalFinder.NeurologyHospitals | finder/hospital_finder.py:94-103 | "Neurology" lists Toronto Western, St. Michael's, Sunnybrook, SickKids and Baycrest, in that order, given the directory of lines 9-59. |
| Agreement.Offered | finder/hospital_finder.py:96-98 | A specialty listed by some hospital has a non-empty listing. |
| Agreement.MatcherLabelsInDirectory | finder/analysis.py:11-24 | Every label the matcher can return has at least one hospital, except "Gynecology/Reproductive", which has none, so the lookup returns `None` for it. The directory is finder/hospital_finder.py:9-59, and the `None` return is at lines 100-101. |
| Selection.EnumerationExtends | finder/hospital_finder.py:96-98 | An in-order enumeration of kept positions extends by one position, kept or not. |
| Selection.EnumerationUnique | finder/matching_engine.py:99-105 | Two in-order enumerations of the same kept positions are equal. |
| MatchingEngine.StandardizeSeverity | finder/matching_engine.py:44-52 | The result is always one of the five categories. A non-string is "Unknown". A string is "Unknown" exactly when its lower-cased form is not a key of the severity map. |
| MatchingEngine.SeverityGroups | finder/matching_engine.py:13-26 | The synonym groups. High exactly for critical, severe, serious and life-threatening, in any case. Medium exactly for moderate. Low exactly for low, mild and minor. Chronic exactly for the whole string chronic/stable. |
| MatchingEngine.SeverityIgnoresCase | finder/matching_engine.py:52 | Strings equal up to case standardise alike. |
| MatchingEngine.SeverityOfLowered | finder/matching_engine.py:52 | Lower-casing the input first changes nothing. |
| MatchingEngine.CriticalInAnyCase | finder/matching_engine.py:50-52 | "Critical", "CRITICAL" and "critical" are all High (the map entry of line 14). |
| MatchingEngine.WhitespaceIsKept | finder/matching_engine.py:52 | " critical", "critical " and " Critical " are Unknown: there is no trimming. |
| MatchingEngine.ChronicNeedsWholeKey | finder/matching_engine.py:50-52 | "chronic", "Chronic" and "stable" alone are Unknown: only the whole key "chronic/stable" (line 25) is Chronic. |
| MatchingEngine.StandardizeNotIdempotent | finder/matching_engine.py:13-26 | Standardising again turns High, Medium and Chronic into Unknown. Low stays Low. |
| MatchingEngine.StandardizeTable | finder/matching_engine.py:57-58 | Same number of rows, in the same order. PatientID, AffectedBodyPart and Injury/Sickness are copied, and Severity is each row's standardised value. |
| MatchingEngine.StandardRow | finder/matching_engine.py:57-58 | One row of the standardised view: the three descriptive columns copied, and Severity a string among the five categories. |
| MatchingEngine.BasicColumns | finder/matching_engine.py:94-105 | A row restricted to PatientID, AffectedBodyPart and Injury/Sickness. |
| MatchingEngine.BasicView | finder/matching_engine.py:94-97 | Every row, in order, restricted to the three basic columns. |
| MatchingEngine.SelectSeverity | finder/matching_engine.py:98-105 | A row is in the result exactly when some view row has that category, restricted to the three basic columns. |
| MatchingEngine.SelectionInOrder | finder/matching_engine.py:98-105 | The selection is the basic columns of exactly the rows of that category, in increasing row order. |
| MatchingEngine.SelectedAtExtends | finder/matching_engine.py:98-105 | One more row extends the selected positions by its own position when it has the category. |
| MatchingEngine.PatientDataHandler.constructor | finder/matching_engine.py:28-41 | Both tables are stored unchanged. The working copy has each Severity standardised. The view is the standardised table of the patient rows. |
| MatchingEngine.PatientDataHandler.StandardizeDf | finder/matching_engine.py:55-59 | Overwrites only the Severity of each working-copy row with its standardised value, keeping row count and order. Returns the four-column standardised table of the old copy. |
| MatchingEngine.PatientDataHandler.GetOriginalData | finder/matching_engine.py:62-79 | The patient table for 1 and the hospital table for 2. A `ValueError` with the message "Invalid option. Please choose 1 or 2." for every other option. |
| MatchingEngine.PatientDataHandler.GetPatientDataBasic | finder/matching_engine.py:82-107 | "all" gives every view row, in order, with three columns. "low", "medium", "high" and "chronic" give exactly the rows of that category. Any other option is a `ValueError` with the message "Invalid option. Please choose 1, 2, 3, or 4." |
| MatchingEngine.BasicQueryInOrder | finder/matching_engine.py:98-105 | The four category queries succeed and keep view order: the result is the basic columns at the increasing positions of that category. |
| MatchingEngine.HighFromRawWords | finder/matching_engine.py:102-103 | End to end from the raw rows, through the map (lines 13-17), the lookup (line 52) and the view (lines 57-58): "high" keeps exactly the patients whose raw severity, lower-cased, is one of the four High words. |

## Left out

- spaCy parsing (`nlp`, `doc.noun_chunks`) is a foreign NLP library. The noun-chunk roots are a parameter of `GetSpecialtySpacy`, and each root's text is taken as given.
- The generative classifier is left out: `ai_classify.py`, `ai_funcs.py`, the `setup_gemini` call and the prompt constant are network calls and API-key configuration. The code has no escalation from the lexical matcher to the generative one. `run_client.py` calls `get_specialty`, which `analysis.py` does not define.
- The module `analysis.py` imports `setup_gemini` and `generate_text` from `ai_funcs`, which defines only the class `GeminiClient`. As written, that import fails, so in practice `get_specialty_spacy` cannot be reached. The model describes the function as if the import succeeded.
- `sort_hospitals_by_busyness` is left out. It reads `self.hospitals_df`, but the constructor sets only `self.hospital_df`, so every call fails before sorting. It is also a pandas sort over a CSV column of unknown type.
- CSV loading and `get_hospital_data` are left out: they are file I/O and an accessor. The handler's constructor takes the loaded rows, and the `FileNotFoundError` paths are not modelled. The `HospitalFinder` class, whose constructor only loads a CSV, is reduced to its class-level directory and the lookup method.
- `dataSifting.py` and `run_client.py` are scripts that print.
- `Text.Lower`: models ASCII case folding only, not Python's full Unicode `lower()`; `Text.Split` and `Text.Strip` treat only ASCII whitespace as whitespace.
- Missing columns, which make pandas raise `KeyError`, are not modelled: every row carries the four columns the engine uses.
- The pandas row index is not modelled: tables are sequences of rows, and a result keeps row order but not index labels.
- `MatchingEngine.PatientDataHandler.GetOriginalData` returns the stored tables as values; the model does not capture that pandas hands back the same mutable object.
