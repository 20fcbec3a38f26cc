/**
 * The figures the dashboard derives from the filtered view: the three numbers at the top and
 * the per-diagnosis, per-month and per-drug-category counts behind the charts. Missing cells
 * are skipped by every count, as the data library does.
 */
module Metrics {
  import opened Wrappers
  import opened Records
  import opened Vocabulary
  import opened Filters

  /** The present subject ids of the rows. */
  function PatnoSet(rows: seq<Record>): (s: set<int>)
    ensures forall i :: 0 <= i < |rows| && rows[i].patno.Some? ==> rows[i].patno.value in s
    ensures forall p :: p in s ==> exists i :: 0 <= i < |rows| && rows[i].patno == Some(p)
  {
    if rows == [] then {}
    else
      var rest := PatnoSet(rows[1..]);
      assert forall p :: p in rest ==> exists i :: 1 <= i < |rows| && rows[i].patno == Some(p) by {
        forall p | p in rest ensures exists i :: 1 <= i < |rows| && rows[i].patno == Some(p) {
          var j :| 0 <= j < |rows[1..]| && rows[1..][j].patno == Some(p);
          assert rows[j + 1].patno == Some(p);
        }
      }
      (if rows[0].patno.Some? then {rows[0].patno.value} else {}) + rest
  }

  /** The "number of patients": how many distinct subject ids are present. */
  function UniquePatnoCount(rows: seq<Record>): nat
  {
    |PatnoSet(rows)|
  }

  /** The "total of RNA-seq samples": how many rows name a subject. */
  function PatnoCount(rows: seq<Record>): nat
  {
    if rows == [] then 0
    else (if rows[0].patno.Some? then 1 else 0) + PatnoCount(rows[1..])
  }

  /** Distinct subjects never outnumber the rows that name a subject, which never outnumber the rows. */
  lemma {:induction false} CountBounds(rows: seq<Record>)
    ensures UniquePatnoCount(rows) <= PatnoCount(rows) <= |rows|
  {
    if rows != [] {
      CountBounds(rows[1..]);
      var rest := PatnoSet(rows[1..]);
      if rows[0].patno.Some? {
        var p := rows[0].patno.value;
        assert |{p} + rest| <= |{p}| + |rest|;
      } else {
        assert PatnoSet(rows) == rest;
      }
    }
  }

  /** Subject sets grow with the rows: every row of a is a row of b. */
  lemma PatnoSetMonotone(a: seq<Record>, b: seq<Record>)
    requires forall r :: r in a ==> r in b
    ensures PatnoSet(a) <= PatnoSet(b)
  {
    forall p | p in PatnoSet(a) ensures p in PatnoSet(b) {
      var i :| 0 <= i < |a| && a[i].patno == Some(p);
      assert a[i] in b;
      var j :| 0 <= j < |b| && b[j] == a[i];
    }
  }

  /** The six medication columns are all missing in the row. */
  predicate MissingMedication(r: Record)
  {
    && r.diseaseModifyingDrug.None?
    && r.pdIndicatedDrug.None?
    && r.nonDiseaseModifyingDrug.None?
    && r.diseaseModifyingTime.None?
    && r.nonDiseaseModifyingTime.None?
    && r.parkinsonMedicationTime.None?
  }

  /** The rows with no medication data at all, in their order. */
  function RowsMissingMedication(rows: seq<Record>): seq<Record>
  {
    if rows == [] then []
    else if MissingMedication(rows[0]) then [rows[0]] + RowsMissingMedication(rows[1..])
    else RowsMissingMedication(rows[1..])
  }

  /** The "missing medication information" number: distinct subjects among those rows. */
  function MissingMedicationCount(rows: seq<Record>): nat
  {
    UniquePatnoCount(RowsMissingMedication(rows))
  }

  lemma {:induction false} RowsMissingMedicationMembership(rows: seq<Record>, r: Record)
    ensures r in RowsMissingMedication(rows) <==> r in rows && MissingMedication(r)
  {
    if rows != [] {
      RowsMissingMedicationMembership(rows[1..], r);
      assert rows == [rows[0]] + rows[1..];
    }
  }

  /**
   * A subject is counted by the missing-medication number exactly when one of its rows has all
   * six medication columns missing; being a set, it counts each subject once.
   */
  lemma MissingMedicationSubjects(rows: seq<Record>, p: int)
    ensures p in PatnoSet(RowsMissingMedication(rows)) <==>
              exists i :: 0 <= i < |rows| && rows[i].patno == Some(p) && MissingMedication(rows[i])
  {
    var m := RowsMissingMedication(rows);
    if p in PatnoSet(m) {
      var i :| 0 <= i < |m| && m[i].patno == Some(p);
      RowsMissingMedicationMembership(rows, m[i]);
      var j :| 0 <= j < |rows| && rows[j] == m[i];
    }
    if exists i :: 0 <= i < |rows| && rows[i].patno == Some(p) && MissingMedication(rows[i]) {
      var i :| 0 <= i < |rows| && rows[i].patno == Some(p) && MissingMedication(rows[i]);
      RowsMissingMedicationMembership(rows, rows[i]);
      var j :| 0 <= j < |m| && m[j] == rows[i];
    }
  }

  /** The missing-medication number never exceeds the number of subjects. */
  lemma MissingMedicationBound(rows: seq<Record>)
    ensures MissingMedicationCount(rows) <= UniquePatnoCount(rows)
  {
    var m := RowsMissingMedication(rows);
    forall r | r in m ensures r in rows {
      RowsMissingMedicationMembership(rows, r);
    }
    PatnoSetMonotone(m, rows);
    SubsetCard(PatnoSet(m), PatnoSet(rows));
  }

  lemma SubsetCard(a: set<int>, b: set<int>)
    requires a <= b
    ensures |a| <= |b|
  {
    assert b == a + (b - a);
  }

  /** How many cells of the column hold v. */
  function CountOf(col: seq<Option<string>>, v: string): (n: nat)
    ensures n <= |col|
    ensures n > 0 <==> Some(v) in col
  {
    if col == [] then 0
    else
      assert col == [col[0]] + col[1..];
      (if col[0] == Some(v) then 1 else 0) + CountOf(col[1..], v)
  }

  function KeySet(ks: seq<string>): set<string>
  {
    set k | k in ks
  }

  /** How many cells of the column hold some value of S. */
  function CountIn(col: seq<Option<string>>, S: set<string>): nat
  {
    if col == [] then 0
    else (if col[0].Some? && col[0].value in S then 1 else 0) + CountIn(col[1..], S)
  }

  /** Value counts of a column: each present value with the number of rows holding it. */
  function ValueCounts(col: seq<Option<string>>): (m: map<string, nat>)
    ensures forall v :: v in m <==> Some(v) in col
    ensures forall v :: v in m ==> m[v] == CountOf(col, v) && m[v] >= 1
  {
    map v | v in DropMissing(col) :: CountOf(col, v)
  }

  /** The bar chart of samples per diagnosis. */
  function DiagnosisCounts(rows: seq<Record>): map<string, nat>
  {
    ValueCounts(Column(rows, Diagnosis))
  }

  /** The counts of m added up over the keys ks. */
  function Total(m: map<string, nat>, ks: seq<string>): nat
    requires forall k :: k in ks ==> k in m
  {
    if ks == [] then 0 else m[ks[0]] + Total(m, ks[1..])
  }

  lemma {:induction false} CountInAdd(col: seq<Option<string>>, S: set<string>, k: string)
    requires k !in S
    ensures CountIn(col, S + {k}) == CountOf(col, k) + CountIn(col, S)
  {
    if col != [] { CountInAdd(col[1..], S, k); }
  }

  lemma {:induction false} CountInCovering(col: seq<Option<string>>, S: set<string>)
    requires forall v :: Some(v) in col ==> v in S
    ensures CountIn(col, S) == |DropMissing(col)|
  {
    if col != [] {
      assert col == [col[0]] + col[1..];
      CountInCovering(col[1..], S);
    }
  }

  lemma {:induction false} TotalIsCountIn(col: seq<Option<string>>, ks: seq<string>)
    requires Distinct(ks)
    requires forall k :: k in ks ==> k in ValueCounts(col)
    ensures Total(ValueCounts(col), ks) == CountIn(col, KeySet(ks))
  {
    if ks == [] {
      assert KeySet(ks) == {};
      CountInEmpty(col);
    } else {
      var rest := ks[1..];
      assert Distinct(rest);
      TotalIsCountIn(col, rest);
      assert ks == [ks[0]] + rest;
      assert KeySet(ks) == KeySet(rest) + {ks[0]};
      CountInAdd(col, KeySet(rest), ks[0]);
    }
  }

  lemma {:induction false} CountInEmpty(col: seq<Option<string>>)
    ensures CountIn(col, {}) == 0
  {
    if col != [] { CountInEmpty(col[1..]); }
  }

  /**
   * The value counts add up, over their keys in any order, to the number of rows whose column is
   * present: for the diagnosis chart, the bars account for every row with a diagnosis.
   */
  lemma ValueCountsTotal(col: seq<Option<string>>, ks: seq<string>)
    requires Distinct(ks)
    requires forall k :: k in ks <==> Some(k) in col
    ensures Total(ValueCounts(col), ks) == |DropMissing(col)|
  {
    TotalIsCountIn(col, ks);
    CountInCovering(col, KeySet(ks));
  }

  /** Value counts sorted by their index: the counts listed by ascending value. */
  function SortedValueCounts(col: seq<Option<string>>): seq<(string, nat)>
  {
    var keys := SortedDistinct(DropMissing(col));
    seq(|keys|, i requires 0 <= i < |keys| => (keys[i], CountOf(col, keys[i])))
  }

  /** The line chart of samples per month. */
  function MonthCounts(rows: seq<Record>): seq<(string, nat)>
  {
    SortedValueCounts(Column(rows, Month))
  }

  /**
   * The sorted counts list every present value once, in ascending order, each with its value
   * count.
   */
  lemma SortedValueCountsCorrect(col: seq<Option<string>>)
    ensures forall i, j :: 0 <= i < j < |SortedValueCounts(col)| ==>
              Less(SortedValueCounts(col)[i].0, SortedValueCounts(col)[j].0)
    ensures forall v :: (exists i :: 0 <= i < |SortedValueCounts(col)| && SortedValueCounts(col)[i].0 == v)
              <==> Some(v) in col
    ensures forall i :: 0 <= i < |SortedValueCounts(col)| ==>
              SortedValueCounts(col)[i].0 in ValueCounts(col) &&
              SortedValueCounts(col)[i].1 == ValueCounts(col)[SortedValueCounts(col)[i].0]
  {
    var keys := SortedDistinct(DropMissing(col));
    SortedDistinctCorrect(DropMissing(col));
    var r := SortedValueCounts(col);
    forall v ensures (exists i :: 0 <= i < |r| && r[i].0 == v) <==> Some(v) in col {
      if Some(v) in col {
        assert v in keys;
        var i :| 0 <= i < |keys| && keys[i] == v;
        assert r[i].0 == v;
      }
    }
  }

  /** The pie chart: per present drug category, the number of distinct subjects in it. */
  function DrugCategoryPatients(rows: seq<Record>): map<string, nat>
  {
    map c | c in DropMissing(Column(rows, DrugCategory)) :: UniquePatnoCount(Where(rows, DrugCategory, Some(c)))
  }

  /** A drug category has an entry exactly when some row of the view has that category. */
  lemma DrugCategoryKeys(rows: seq<Record>, c: string)
    ensures c in DrugCategoryPatients(rows) <==> exists i :: 0 <= i < |rows| && rows[i].drugCategory == Some(c)
  {
    var col := Column(rows, DrugCategory);
    assert c in DrugCategoryPatients(rows) <==> c in DropMissing(col);
    assert c in DropMissing(col) <==> Some(c) in col;
    if Some(c) in col {
      var i :| 0 <= i < |col| && col[i] == Some(c);
      assert rows[i].drugCategory == Some(c);
    }
    if exists i :: 0 <= i < |rows| && rows[i].drugCategory == Some(c) {
      var i :| 0 <= i < |rows| && rows[i].drugCategory == Some(c);
      assert col[i] == Some(c);
    }
  }

  /** A subject counts for a category exactly when one of its rows has that category. */
  lemma DrugCategorySubjects(rows: seq<Record>, c: string, p: int)
    ensures p in PatnoSet(Where(rows, DrugCategory, Some(c))) <==>
              exists i :: 0 <= i < |rows| && rows[i].patno == Some(p) && rows[i].drugCategory == Some(c)
  {
    var w := Where(rows, DrugCategory, Some(c));
    if p in PatnoSet(w) {
      var i :| 0 <= i < |w| && w[i].patno == Some(p);
      WhereMembership(rows, DrugCategory, Some(c), w[i]);
      var j :| 0 <= j < |rows| && rows[j] == w[i];
    }
    if exists i :: 0 <= i < |rows| && rows[i].patno == Some(p) && rows[i].drugCategory == Some(c) {
      var i :| 0 <= i < |rows| && rows[i].patno == Some(p) && rows[i].drugCategory == Some(c);
      WhereMembership(rows, DrugCategory, Some(c), rows[i]);
      var j :| 0 <= j < |w| && w[j] == rows[i];
    }
  }

  /** No category counts more subjects than the whole view has. */
  lemma DrugCategoryBound(rows: seq<Record>, c: string)
    requires c in DrugCategoryPatients(rows)
    ensures DrugCategoryPatients(rows)[c] <= UniquePatnoCount(rows)
  {
    var w := Where(rows, DrugCategory, Some(c));
    forall r | r in w ensures r in rows {
      WhereMembership(rows, DrugCategory, Some(c), r);
    }
    PatnoSetMonotone(w, rows);
    SubsetCard(PatnoSet(w), PatnoSet(rows));
  }

  /** An empty view yields zero for each number and no bar, point or slice. */
  lemma EmptyViewMetrics()
    ensures UniquePatnoCount([]) == 0 && PatnoCount([]) == 0 && MissingMedicationCount([]) == 0
    ensures DiagnosisCounts([]) == map[] && MonthCounts([]) == [] && DrugCategoryPatients([]) == map[]
  {
  }
}
