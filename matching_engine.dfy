/** Patient records: severity normalisation, the standardised four-column
    view built once when the handler is created, and selection of patients
    by severity category. */
module MatchingEngine {
  import opened Text
  import opened Selection

  /** A table cell: a string, or anything else a loaded column may hold
      (a missing value, a number). */
  datatype Cell = Str(s: string) | NonStr

  /** A row of the patient table. The four columns the engine uses are
      named; any further columns of the file are kept in `otherColumns`. */
  datatype PatientRow = PatientRow(
    patientId: Cell, affectedBodyPart: Cell, injury: Cell, severity: Cell,
    otherColumns: map<string, Cell>)

  /** A row of the standardised view: PatientID, AffectedBodyPart,
      Injury/Sickness and Severity, in that order. */
  datatype SimpleRow = SimpleRow(patientId: Cell, affectedBodyPart: Cell, injury: Cell, severity: Cell)

  /** A row as the basic query returns it: PatientID, AffectedBodyPart and
      Injury/Sickness. */
  datatype BasicRow = BasicRow(patientId: Cell, affectedBodyPart: Cell, injury: Cell)

  /** A row of the hospital table, whose columns the engine never inspects. */
  datatype HospitalRow = HospitalRow(columns: map<string, Cell>)

  datatype Table = PatientTable(patients: seq<PatientRow>) | HospitalTable(hospitals: seq<HospitalRow>)

  /** A value, or the `ValueError` that `get_original_data` and
      `get_patient_data_basic` raise, with its message. */
  datatype Result<T> = Ok(value: T) | ValueError(message: string)

  /** Raw severity words, lower-case, and the category each stands for. */
  const SeverityMap: map<string, string> := map[
    "critical" := "High",
    "severe" := "High",
    "serious" := "High",
    "life-threatening" := "High",
    "moderate" := "Medium",
    "low" := "Low",
    "mild" := "Low",
    "minor" := "Low",
    "chronic/stable" := "Chronic"
  ]

  /** Every value the standardised Severity column can hold. */
  const Categories: set<string> := {"High", "Medium", "Low", "Chronic", "Unknown"}

  /** `__standardize_severity`: a non-string is "Unknown"; a string is
      lower-cased (not trimmed) and looked up, "Unknown" when absent. */
  function StandardizeSeverity(raw: Cell): (r: string)
    ensures r in Categories
    ensures raw.NonStr? ==> r == "Unknown"
    ensures r == "Unknown" <==> raw.NonStr? || Lower(raw.s) !in SeverityMap
  {
    if !raw.Str? then "Unknown"
    else if Lower(raw.s) in SeverityMap then SeverityMap[Lower(raw.s)]
    else "Unknown"
  }

  /** A patient row as the standardised view holds it. */
  function StandardRow(row: PatientRow): (r: SimpleRow)
    ensures r.severity.Str? && r.severity.s in Categories
  {
    SimpleRow(row.patientId, row.affectedBodyPart, row.injury, Str(StandardizeSeverity(row.severity)))
  }

  /** `__standardize_df` as a value: one row per patient row, same order,
      the three descriptive columns copied and Severity standardised. */
  function StandardizeTable(rows: seq<PatientRow>): (r: seq<SimpleRow>)
    ensures |r| == |rows|
    ensures forall i :: 0 <= i < |rows| ==>
      r[i].patientId == rows[i].patientId && r[i].affectedBodyPart == rows[i].affectedBodyPart &&
      r[i].injury == rows[i].injury && r[i].severity == Str(StandardizeSeverity(rows[i].severity))
  {
    if rows == [] then [] else StandardizeTable(rows[..|rows| - 1]) + [StandardRow(rows[|rows| - 1])]
  }

  /** The columns `PatientID`, `AffectedBodyPart` and `Injury/Sickness` of a row. */
  function BasicColumns(row: SimpleRow): BasicRow
  {
    BasicRow(row.patientId, row.affectedBodyPart, row.injury)
  }

  /** The whole view, restricted to the three basic columns. */
  function BasicView(rows: seq<SimpleRow>): (r: seq<BasicRow>)
    ensures |r| == |rows|
    ensures forall i :: 0 <= i < |rows| ==> r[i] == BasicColumns(rows[i])
  {
    seq(|rows|, i requires 0 <= i < |rows| => BasicColumns(rows[i]))
  }

  /** The positions of the rows whose Severity is the string `category`. */
  ghost function SeverityPositions(rows: seq<SimpleRow>, category: string): set<int>
  {
    set i | 0 <= i < |rows| && rows[i].severity == Str(category)
  }

  /** The rows whose Severity is `category`, in order, restricted to the
      three basic columns. */
  function SelectSeverity(rows: seq<SimpleRow>, category: string): (r: seq<BasicRow>)
    ensures |r| <= |rows|
    ensures forall b :: b in r <==> exists i :: 0 <= i < |rows| && rows[i].severity == Str(category) && b == BasicColumns(rows[i])
  {
    if rows == [] then []
    else
      var last := rows[|rows| - 1];
      SelectSeverity(rows[..|rows| - 1], category) + (if last.severity == Str(category) then [BasicColumns(last)] else [])
  }

  /** `idx` gives, in order, the positions of the rows `SelectSeverity` keeps. */
  ghost predicate SelectedAt(rows: seq<SimpleRow>, category: string, idx: seq<int>)
  {
    EnumeratesInOrder(idx, |rows|, SeverityPositions(rows, category)) &&
    |idx| == |SelectSeverity(rows, category)| &&
    forall a :: 0 <= a < |idx| ==> SelectSeverity(rows, category)[a] == BasicColumns(rows[idx[a]])
  }

  /** Selection keeps the original order: the result is the basic columns of
      exactly the rows of that category, in increasing row order. */
  lemma {:induction false} SelectionInOrder(rows: seq<SimpleRow>, category: string)
    ensures exists idx :: SelectedAt(rows, category, idx)
  {
    if rows == [] {
      assert SelectedAt(rows, category, []);
    } else {
      var n := |rows| - 1;
      SelectionInOrder(rows[..n], category);
      var idx :| SelectedAt(rows[..n], category, idx);
      SelectedAtExtends(rows, category, idx);
    }
  }

  /** One more row extends the positions by its own when it has the category. */
  lemma SelectedAtExtends(rows: seq<SimpleRow>, category: string, idx: seq<int>)
    requires rows != []
    requires SelectedAt(rows[..|rows| - 1], category, idx)
    ensures SelectedAt(rows, category, idx + (if rows[|rows| - 1].severity == Str(category) then [|rows| - 1] else []))
  {
    var n := |rows| - 1;
    var front := rows[..n];
    var keep := SeverityPositions(rows, category);
    assert forall i :: 0 <= i < n ==> (i in keep <==> i in SeverityPositions(front, category));
    assert EnumeratesInOrder(idx, n, keep);
    var keepLast := rows[n].severity == Str(category);
    EnumerationExtends(idx, n, keep, keepLast);
    var idx' := idx + (if keepLast then [n] else []);
    var selected := SelectSeverity(rows, category);
    assert selected == SelectSeverity(front, category) + (if keepLast then [BasicColumns(rows[n])] else []);
    forall a | 0 <= a < |idx'| ensures selected[a] == BasicColumns(rows[idx'[a]]) {
      if a < |idx| {
        assert selected[a] == SelectSeverity(front, category)[a];
        assert front[idx[a]] == rows[idx[a]];
      }
    }
  }

  /** The option words of the basic query and the category each selects. */
  const OptionCategory: map<string, string> := map[
    "low" := "Low",
    "medium" := "Medium",
    "high" := "High",
    "chronic" := "Chronic"
  ]

  /** The patient data handler. The tables are loaded by the caller; the
      fields are the original patient table, the hospital table, the working
      copy whose Severity column gets overwritten, and the standardised view. */
  class PatientDataHandler {
    var patientRows: seq<PatientRow>
    var hospitalRows: seq<HospitalRow>
    var tempRows: seq<PatientRow>
    var simpleRows: seq<SimpleRow>

    /** Store both tables, copy the patient table, and build the
        standardised view from the copy; the original is left untouched. */
    constructor (patients: seq<PatientRow>, hospitals: seq<HospitalRow>)
      ensures patientRows == patients && hospitalRows == hospitals
      ensures |tempRows| == |patients|
      ensures forall i :: 0 <= i < |patients| ==>
        tempRows[i] == patients[i].(severity := Str(StandardizeSeverity(patients[i].severity)))
      ensures simpleRows == StandardizeTable(patients)
    {
      patientRows := patients;
      hospitalRows := hospitals;
      tempRows := patients;
      simpleRows := [];
      new;
      simpleRows := StandardizeDf();
    }

    /** Overwrite the Severity column of the working copy, row by row, with
        its standardised value, then return the four-column view of it. */
    method StandardizeDf() returns (simple: seq<SimpleRow>)
      modifies this`tempRows
      ensures |tempRows| == |old(tempRows)|
      ensures forall i :: 0 <= i < |tempRows| ==>
        tempRows[i] == old(tempRows[i]).(severity := Str(StandardizeSeverity(old(tempRows[i].severity))))
      ensures simple == StandardizeTable(old(tempRows))
    {
      var i := 0;
      while i < |tempRows|
        invariant 0 <= i <= |tempRows| == |old(tempRows)|
        invariant forall k :: 0 <= k < i ==>
          tempRows[k] == old(tempRows[k]).(severity := Str(StandardizeSeverity(old(tempRows[k].severity))))
        invariant forall k :: i <= k < |tempRows| ==> tempRows[k] == old(tempRows[k])
      {
        tempRows := tempRows[i := tempRows[i].(severity := Str(StandardizeSeverity(tempRows[i].severity)))];
        i := i + 1;
      }
      var rows := tempRows;
      simple := seq(|rows|, k requires 0 <= k < |rows| =>
        SimpleRow(rows[k].patientId, rows[k].affectedBodyPart, rows[k].injury, rows[k].severity));
      ghost var expected := StandardizeTable(old(tempRows));
      assert forall k :: 0 <= k < |rows| ==> simple[k] == expected[k];
    }

    /** `get_original_data`: the patient table for 1, the hospital table for
        2, a `ValueError` for any other option. */
    function GetOriginalData(option: int): (r: Result<Table>)
      reads this
      ensures r.Ok? <==> option == 1 || option == 2
      ensures option == 1 ==> r == Ok(PatientTable(patientRows))
      ensures option == 2 ==> r == Ok(HospitalTable(hospitalRows))
      ensures r.ValueError? ==> r.message == "Invalid option. Please choose 1 or 2."
    {
      if option == 1 then Ok(PatientTable(patientRows))
      else if option == 2 then Ok(HospitalTable(hospitalRows))
      else ValueError("Invalid option. Please choose 1 or 2.")
    }

    /** `get_patient_data_basic`: every patient for "all", the patients of
        one standardised category for "low", "medium", "high" or "chronic",
        each restricted to the three basic columns; a `ValueError` for any
        other option. */
    function GetPatientDataBasic(option: string): (r: Result<seq<BasicRow>>)
      reads this
      ensures r.Ok? <==> option == "all" || option in OptionCategory
      ensures option == "all" ==> (r.Ok? && |r.value| == |simpleRows| &&
        forall i :: 0 <= i < |simpleRows| ==> r.value[i] == BasicColumns(simpleRows[i]))
      ensures option in OptionCategory ==> (r.Ok? &&
        forall b :: b in r.value <==>
          exists i :: 0 <= i < |simpleRows| && simpleRows[i].severity == Str(OptionCategory[option]) && b == BasicColumns(simpleRows[i]))
      ensures r.ValueError? ==> r.message == "Invalid option. Please choose 1, 2, 3, or 4."
    {
      if option == "all" then Ok(BasicView(simpleRows))
      else if option == "low" then Ok(SelectSeverity(simpleRows, "Low"))
      else if option == "medium" then Ok(SelectSeverity(simpleRows, "Medium"))
      else if option == "high" then Ok(SelectSeverity(simpleRows, "High"))
      else if option == "chronic" then Ok(SelectSeverity(simpleRows, "Chronic"))
      else ValueError("Invalid option. Please choose 1, 2, 3, or 4.")
    }
  }

  /** The synonym groups: exactly these lower-cased words give each category. */
  lemma SeverityGroups(s: string)
    ensures StandardizeSeverity(Str(s)) == "High" <==> Lower(s) in {"critical", "severe", "serious", "life-threatening"}
    ensures StandardizeSeverity(Str(s)) == "Medium" <==> Lower(s) == "moderate"
    ensures StandardizeSeverity(Str(s)) == "Low" <==> Lower(s) in {"low", "mild", "minor"}
    ensures StandardizeSeverity(Str(s)) == "Chronic" <==> Lower(s) == "chronic/stable"
  {
  }

  /** Only case matters to the lookup, never anything else about the spelling. */
  lemma SeverityIgnoresCase(a: string, b: string)
    requires Lower(a) == Lower(b)
    ensures StandardizeSeverity(Str(a)) == StandardizeSeverity(Str(b))
  {
  }

  /** Lower-casing the input first changes nothing. */
  lemma SeverityOfLowered(s: string)
    ensures StandardizeSeverity(Str(Lower(s))) == StandardizeSeverity(Str(s))
  {
    LowerIdempotent(s);
  }

  /** "Critical", "CRITICAL" and "critical" are all High. */
  lemma CriticalInAnyCase(s: string)
    requires s == "Critical" || s == "CRITICAL" || s == "critical"
    ensures StandardizeSeverity(Str(s)) == "High"
  {
    assert Lower(s) == "critical";
  }

  /** There is no trimming: surrounding whitespace makes a word Unknown. */
  lemma WhitespaceIsKept(s: string)
    requires s == " critical" || s == "critical " || s == " Critical "
    ensures StandardizeSeverity(Str(s)) == "Unknown"
  {
    assert Lower(s) == " critical" || Lower(s) == "critical " || Lower(s) == " critical ";
  }

  /** Only the whole string "chronic/stable" is Chronic; either half alone is Unknown. */
  lemma ChronicNeedsWholeKey(s: string)
    requires s == "chronic" || s == "Chronic" || s == "stable"
    ensures StandardizeSeverity(Str(s)) == "Unknown"
  {
    assert Lower(s) == "chronic" || Lower(s) == "stable";
  }

  /** The category names are not themselves keys, except "low": running the
      standardisation a second time turns High, Medium and Chronic into Unknown. */
  lemma StandardizeNotIdempotent(category: string)
    requires category in {"High", "Medium", "Chronic"}
    ensures StandardizeSeverity(Str(category)) == "Unknown"
    ensures StandardizeSeverity(Str(StandardizeSeverity(Str("low")))) == "Low"
  {
    if category == "High" {
      assert Lower(category) == "high";
    } else if category == "Medium" {
      assert Lower(category) == "medium";
    } else {
      assert Lower(category) == "chronic";
    }
    assert Lower("low") == "low";
    assert Lower("Low") == "low";
  }

  /** The category queries of the handler select in original order: the
      result is the basic columns of exactly the rows of that category. */
  lemma {:induction false} BasicQueryInOrder(h: PatientDataHandler, option: string)
    requires option in OptionCategory
    ensures h.GetPatientDataBasic(option).Ok?
    ensures exists idx :: (EnumeratesInOrder(idx, |h.simpleRows|, SeverityPositions(h.simpleRows, OptionCategory[option])) &&
      |idx| == |h.GetPatientDataBasic(option).value| &&
      forall a :: 0 <= a < |idx| ==> h.GetPatientDataBasic(option).value[a] == BasicColumns(h.simpleRows[idx[a]]))
  {
    var category := OptionCategory[option];
    assert h.GetPatientDataBasic(option) == Ok(SelectSeverity(h.simpleRows, category));
    SelectionInOrder(h.simpleRows, category);
    var idx :| SelectedAt(h.simpleRows, category, idx);
  }

  /** End to end: from the raw table, the High query keeps exactly the
      patients whose raw severity is one of the four High words in some case. */
  lemma {:induction false} HighFromRawWords(rows: seq<PatientRow>, b: BasicRow)
    ensures b in SelectSeverity(StandardizeTable(rows), "High") <==>
      exists i :: 0 <= i < |rows| && rows[i].severity.Str? &&
        Lower(rows[i].severity.s) in {"critical", "severe", "serious", "life-threatening"} &&
        b == BasicRow(rows[i].patientId, rows[i].affectedBodyPart, rows[i].injury)
  {
    var view := StandardizeTable(rows);
    forall i | 0 <= i < |rows| && rows[i].severity.Str?
      ensures view[i].severity == Str("High") <==> Lower(rows[i].severity.s) in {"critical", "severe", "serious", "life-threatening"}
    {
      SeverityGroups(rows[i].severity.s);
    }
  }
}
