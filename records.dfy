/**
 * The rows of the clinical table and the nine facet columns the sidebar filters on.
 * Every cell may be missing; categorical cells hold text.
 */
module Records {
  import opened Wrappers

  /** The nine columns that the sidebar offers a dropdown for. */
  datatype Facet = Sex | Race | AgeBin | DiseaseStatus | GeneticStatus | Diagnosis | CaseControl | Month | DrugCategory

  /** One row of the table (one RNA-seq sample of one subject). */
  datatype Record = Record(
    patno: Option<int>,
    sex: Option<string>,
    race: Option<string>,
    ageBin: Option<string>,
    diseaseStatus: Option<string>,
    geneticStatus: Option<string>,
    diagnosis: Option<string>,
    caseControl: Option<string>,
    month: Option<string>,
    drugCategory: Option<string>,
    diseaseModifyingDrug: Option<string>,
    pdIndicatedDrug: Option<string>,
    nonDiseaseModifyingDrug: Option<string>,
    diseaseModifyingTime: Option<real>,
    nonDiseaseModifyingTime: Option<real>,
    parkinsonMedicationTime: Option<real>,
    totalDrugs: Option<real>,
    totalDrugsTime: Option<real>)

  /** The cell of a facet column in a row. */
  function Value(r: Record, f: Facet): Option<string>
  {
    match f
    case Sex => r.sex
    case Race => r.race
    case AgeBin => r.ageBin
    case DiseaseStatus => r.diseaseStatus
    case GeneticStatus => r.geneticStatus
    case Diagnosis => r.diagnosis
    case CaseControl => r.caseControl
    case Month => r.month
    case DrugCategory => r.drugCategory
  }

  /** A whole facet column, top to bottom. */
  function Column(rows: seq<Record>, f: Facet): (col: seq<Option<string>>)
    ensures |col| == |rows|
    ensures forall i :: 0 <= i < |rows| ==> col[i] == Value(rows[i], f)
  {
    seq(|rows|, i requires 0 <= i < |rows| => Value(rows[i], f))
  }

  /**
   * The current value of every dropdown. The eight sorted dropdowns only ever offer text;
   * the drug-category dropdown lists the column's distinct values as they are, so a missing
   * value can be chosen there.
   */
  datatype Selection = Selection(
    sex: string,
    race: string,
    ageBin: string,
    diseaseStatus: string,
    geneticStatus: string,
    diagnosis: string,
    caseControl: string,
    month: string,
    drugCategory: Option<string>)

  /** The sentinel every dropdown starts at, meaning "no filter". */
  const AllChoice: string := "All"

  /** What the dropdown of a facet currently holds. */
  function Choice(sel: Selection, f: Facet): Option<string>
  {
    match f
    case Sex => Some(sel.sex)
    case Race => Some(sel.race)
    case AgeBin => Some(sel.ageBin)
    case DiseaseStatus => Some(sel.diseaseStatus)
    case GeneticStatus => Some(sel.geneticStatus)
    case Diagnosis => Some(sel.diagnosis)
    case CaseControl => Some(sel.caseControl)
    case Month => Some(sel.month)
    case DrugCategory => sel.drugCategory
  }

  /** The selection in which every dropdown is at its default. */
  const NoFilter: Selection :=
    Selection(AllChoice, AllChoice, AllChoice, AllChoice, AllChoice, AllChoice, AllChoice, AllChoice, Some(AllChoice))

  /** Python's ordering of text: lexicographic on code points, a proper prefix first. */
  predicate Less(a: string, b: string)
  {
    if |a| == 0 then |b| > 0
    else if |b| == 0 then false
    else if a[0] != b[0] then a[0] < b[0]
    else Less(a[1..], b[1..])
  }

  lemma {:induction false} LessIrreflexive(a: string)
    ensures !Less(a, a)
  {
    if |a| > 0 { LessIrreflexive(a[1..]); }
  }

  lemma {:induction false} LessTransitive(a: string, b: string, c: string)
    requires Less(a, b) && Less(b, c)
    ensures Less(a, c)
  {
    if |a| > 0 && |b| > 0 && |c| > 0 && a[0] == b[0] && b[0] == c[0] {
      LessTransitive(a[1..], b[1..], c[1..]);
    }
  }

  lemma {:induction false} LessTotal(a: string, b: string)
    requires a != b
    ensures Less(a, b) || Less(b, a)
  {
    if |a| > 0 && |b| > 0 && a[0] == b[0] {
      LessTotal(a[1..], b[1..]);
    }
  }
}
