/**
 * The box plot of median exposure time by number of drugs: each row's Total_Drugs is put into
 * one of six right-closed intervals, deduplication by subject keeps the last row of each
 * subject, and the kept rows are grouped by interval label.
 */
module DrugBins {
  import opened Wrappers
  import opened Records
  import opened Vocabulary
  import opened Filters
  import opened Metrics

  /** The interval edges: bin i is (BinEdges[i], BinEdges[i + 1]]. */
  const BinEdges: seq<int> := [-1, 2, 5, 10, 20, 50, 100]

  const BinLabels: seq<string> := ["0-2", "3-5", "6-10", "11-20", "21-50", "51-100"]

  predicate InBin(x: real, i: nat)
    requires i < |BinLabels|
  {
    (BinEdges[i] as real) < x <= (BinEdges[i + 1] as real)
  }

  /** The first bin at or after i that holds x, if any. */
  function BinFrom(x: real, i: nat): (b: Option<nat>)
    requires i <= |BinLabels|
    ensures b.Some? ==> i <= b.value < |BinLabels| && InBin(x, b.value)
    ensures b.Some? ==> forall j :: i <= j < b.value ==> !InBin(x, j)
    ensures b.None? ==> forall j :: i <= j < |BinLabels| ==> !InBin(x, j)
    decreases |BinLabels| - i
  {
    if i == |BinLabels| then None
    else if InBin(x, i) then Some(i)
    else BinFrom(x, i + 1)
  }

  /** The interval label the data library's cut assigns to one Total_Drugs cell. */
  function DrugBin(x: Option<real>): Option<string>
  {
    match x
    case None => None
    case Some(v) =>
      match BinFrom(v, 0)
      case None => None
      case Some(i) => Some(BinLabels[i])
  }

  lemma BinsDisjoint(x: real, i: nat, j: nat)
    requires i < j < |BinLabels|
    requires InBin(x, i)
    ensures !InBin(x, j)
  {
  }

  lemma BinLabelsDistinct()
    ensures Distinct(BinLabels)
  {
  }

  /**
   * A cell gets label i exactly when its value lies in (BinEdges[i], BinEdges[i + 1]]: since the
   * intervals are disjoint, a value gets at most one label.
   */
  lemma DrugBinCorrect(x: real, i: nat)
    requires i < |BinLabels|
    ensures DrugBin(Some(x)) == Some(BinLabels[i]) <==> InBin(x, i)
  {
  }

  /** A missing value, a value of -1 or less and a value above 100 get no label; all others get one. */
  lemma DrugBinNone(x: Option<real>)
    ensures DrugBin(x) == None <==> x.None? || x.value <= -1.0 || x.value > 100.0
  {
    if x.Some? {
      var v := x.value;
      if -1.0 < v <= 100.0 {
        var i := if v <= 2.0 then 0 else if v <= 5.0 then 1 else if v <= 10.0 then 2
                 else if v <= 20.0 then 3 else if v <= 50.0 then 4 else 5;
        assert InBin(v, i);
      }
    }
  }

  lemma DrugBinExamples()
    ensures DrugBin(Some(2.0)) == Some("0-2")
    ensures DrugBin(Some(2.0001)) == Some("3-5")
    ensures DrugBin(Some(3.0)) == Some("3-5")
    ensures DrugBin(Some(100.0)) == Some("51-100")
    ensures DrugBin(Some(101.0)) == None
    ensures DrugBin(Some(-1.0)) == None
    ensures DrugBin(None) == None
  {
  }

  /** A row of the view with its Total_Drug_Bins column. */
  datatype BinnedRow = BinnedRow(rec: Record, drugBin: Option<string>)

  /** The view with the Total_Drug_Bins column added. */
  function WithDrugBins(rows: seq<Record>): (t: seq<BinnedRow>)
    ensures |t| == |rows|
    ensures forall i :: 0 <= i < |rows| ==> t[i].rec == rows[i] && t[i].drugBin == DrugBin(rows[i].totalDrugs)
  {
    seq(|rows|, i requires 0 <= i < |rows| => BinnedRow(rows[i], DrugBin(rows[i].totalDrugs)))
  }

  /** The deduplication key; missing ids compare equal to each other here. */
  function Key(b: BinnedRow): Option<int>
  {
    b.rec.patno
  }

  predicate HasKey(rows: seq<BinnedRow>, k: Option<int>)
  {
    exists i :: 0 <= i < |rows| && Key(rows[i]) == k
  }

  /** The keys occurring in the rows. */
  function SubjectKeys(rows: seq<BinnedRow>): set<Option<int>>
  {
    if rows == [] then {} else {Key(rows[0])} + SubjectKeys(rows[1..])
  }

  /** Deduplication by subject id keeping the last row: a row stays when no later row has its key. */
  function KeepLast(rows: seq<BinnedRow>): seq<BinnedRow>
  {
    if rows == [] then []
    else if HasKey(rows[1..], Key(rows[0])) then KeepLast(rows[1..])
    else [rows[0]] + KeepLast(rows[1..])
  }

  /** The position of the last row with key k. */
  function LastIndex(rows: seq<BinnedRow>, k: Option<int>): (i: nat)
    requires HasKey(rows, k)
    ensures i < |rows| && Key(rows[i]) == k
    ensures forall j :: i < j < |rows| ==> Key(rows[j]) != k
  {
    if HasKey(rows[1..], k) then
      var j := LastIndex(rows[1..], k);
      assert forall m :: j + 1 < m < |rows| ==> rows[m] == rows[1..][m - 1];
      1 + j
    else
      assert forall m :: 0 < m < |rows| ==> rows[m] == rows[1..][m - 1];
      0
  }

  lemma {:induction false} HasKeyCons(rows: seq<BinnedRow>, k: Option<int>)
    requires rows != []
    ensures HasKey(rows, k) <==> Key(rows[0]) == k || HasKey(rows[1..], k)
  {
  }

  /** The kept rows hold exactly the keys of the input. */
  lemma {:induction false} KeepLastKeys(rows: seq<BinnedRow>, k: Option<int>)
    ensures HasKey(KeepLast(rows), k) <==> HasKey(rows, k)
  {
    if rows != [] {
      KeepLastKeys(rows[1..], k);
      HasKeyCons(rows, k);
      if !HasKey(rows[1..], Key(rows[0])) {
        HasKeyCons(KeepLast(rows), k);
        assert KeepLast(rows)[1..] == KeepLast(rows[1..]);
      }
    }
  }

  /** No two kept rows share a key. */
  lemma {:induction false} KeepLastDistinct(rows: seq<BinnedRow>)
    ensures forall i, j :: 0 <= i < j < |KeepLast(rows)| ==> Key(KeepLast(rows)[i]) != Key(KeepLast(rows)[j])
  {
    if rows != [] {
      KeepLastDistinct(rows[1..]);
      var rest := KeepLast(rows[1..]);
      if !HasKey(rows[1..], Key(rows[0])) {
        KeepLastKeys(rows[1..], Key(rows[0]));
        var u := KeepLast(rows);
        assert u == [rows[0]] + rest;
        forall i, j | 0 <= i < j < |u| ensures Key(u[i]) != Key(u[j]) {
          if i == 0 {
            HeadKeyIsNew(rest, Key(rows[0]), j - 1);
            assert u[j] == rest[j - 1];
          } else {
            assert u[i] == rest[i - 1] && u[j] == rest[j - 1];
          }
        }
      }
    }
  }

  lemma HeadKeyIsNew(rest: seq<BinnedRow>, k: Option<int>, j: nat)
    requires !HasKey(rest, k) && j < |rest|
    ensures Key(rest[j]) != k
  {
  }

  /** Each kept row is the last row of the input with its key. */
  lemma {:induction false} KeepLastChoosesLast(rows: seq<BinnedRow>)
    ensures forall i :: 0 <= i < |KeepLast(rows)| ==>
              HasKey(rows, Key(KeepLast(rows)[i])) && KeepLast(rows)[i] == rows[LastIndex(rows, Key(KeepLast(rows)[i]))]
  {
    if rows != [] {
      KeepLastChoosesLast(rows[1..]);
      var rest := KeepLast(rows[1..]);
      var u := KeepLast(rows);
      forall i | 0 <= i < |u| ensures HasKey(rows, Key(u[i])) && u[i] == rows[LastIndex(rows, Key(u[i]))] {
        var k := Key(u[i]);
        HasKeyCons(rows, k);
        if HasKey(rows[1..], Key(rows[0])) {
          assert u[i] == rest[i];
        } else if i == 0 {
          assert u[0] == rows[0];
        } else {
          assert u[i] == rest[i - 1];
        }
      }
    }
  }

  /** A key found after the first row lies one position further on in the whole input. */
  lemma LastIndexTail(rows: seq<BinnedRow>, k: Option<int>)
    requires rows != [] && HasKey(rows[1..], k)
    ensures HasKey(rows, k) && LastIndex(rows, k) == 1 + LastIndex(rows[1..], k)
  {
    HasKeyCons(rows, k);
  }

  /**
   * The kept rows appear in the order of the positions they were kept from: each kept row's
   * position in the input (that of the last row with its key) grows along the result.
   */
  lemma {:induction false} KeepLastOrder(rows: seq<BinnedRow>)
    ensures forall i :: 0 <= i < |KeepLast(rows)| ==> HasKey(rows, Key(KeepLast(rows)[i]))
    ensures forall i, j :: 0 <= i < j < |KeepLast(rows)| ==>
              LastIndex(rows, Key(KeepLast(rows)[i])) < LastIndex(rows, Key(KeepLast(rows)[j]))
  {
    if rows != [] {
      KeepLastOrder(rows[1..]);
      var rest := KeepLast(rows[1..]);
      var u := KeepLast(rows);
      forall i | 0 <= i < |rest|
        ensures HasKey(rows, Key(rest[i])) && LastIndex(rows, Key(rest[i])) == 1 + LastIndex(rows[1..], Key(rest[i]))
      {
        LastIndexTail(rows, Key(rest[i]));
      }
      if HasKey(rows[1..], Key(rows[0])) {
        assert u == rest;
      } else {
        assert u == [rows[0]] + rest;
        HasKeyCons(rows, Key(rows[0]));
        assert LastIndex(rows, Key(rows[0])) == 0;
        forall i, j | 0 <= i < j < |u|
          ensures LastIndex(rows, Key(u[i])) < LastIndex(rows, Key(u[j]))
        {
          assert u[j] == rest[j - 1];
          if i > 0 { assert u[i] == rest[i - 1]; }
        }
      }
    }
  }

  /** The kept rows keep their relative order. */
  lemma {:induction false} KeepLastIsSubsequence(rows: seq<BinnedRow>)
    ensures IsSubsequence(KeepLast(rows), rows)
  {
    if rows != [] {
      KeepLastIsSubsequence(rows[1..]);
      if HasKey(rows[1..], Key(rows[0])) {
        SubsequenceDropHead(KeepLast(rows[1..]), rows);
      }
    }
  }

  /** Exactly one row per distinct key remains. */
  lemma {:induction false} KeepLastCount(rows: seq<BinnedRow>)
    ensures |KeepLast(rows)| == |SubjectKeys(rows)|
  {
    if rows != [] {
      KeepLastCount(rows[1..]);
      SubjectKeysHasKey(rows[1..], Key(rows[0]));
      if HasKey(rows[1..], Key(rows[0])) {
        assert SubjectKeys(rows) == SubjectKeys(rows[1..]);
      }
    }
  }

  lemma {:induction false} SubjectKeysHasKey(rows: seq<BinnedRow>, k: Option<int>)
    ensures k in SubjectKeys(rows) <==> HasKey(rows, k)
  {
    if rows != [] {
      SubjectKeysHasKey(rows[1..], k);
      HasKeyCons(rows, k);
    }
  }

  /** The kept rows whose bin equals the label, in their order. */
  function GroupRows(rows: seq<BinnedRow>, binLabel: string): seq<BinnedRow>
  {
    if rows == [] then []
    else if rows[0].drugBin == Some(binLabel) then [rows[0]] + GroupRows(rows[1..], binLabel)
    else GroupRows(rows[1..], binLabel)
  }

  /** The rows whose bin is none of the six labels. */
  function Ungrouped(rows: seq<BinnedRow>): seq<BinnedRow>
  {
    if rows == [] then []
    else if rows[0].drugBin.Some? && rows[0].drugBin.value in BinLabels then Ungrouped(rows[1..])
    else [rows[0]] + Ungrouped(rows[1..])
  }

  /** The median exposure times of the rows, missing ones included. */
  function Times(rows: seq<BinnedRow>): seq<Option<real>>
  {
    seq(|rows|, i requires 0 <= i < |rows| => rows[i].rec.totalDrugsTime)
  }

  /** The points of the box plot: for each label, the times of the kept rows in that bin. */
  function BoxPlotGroups(view: seq<Record>): seq<seq<Option<real>>>
  {
    var unique := KeepLast(WithDrugBins(view));
    seq(|BinLabels|, i requires 0 <= i < |BinLabels| => Times(GroupRows(unique, BinLabels[i])))
  }

  function BinColumn(rows: seq<BinnedRow>): seq<Option<string>>
  {
    seq(|rows|, i requires 0 <= i < |rows| => rows[i].drugBin)
  }

  function GroupSizes(rows: seq<BinnedRow>, labels: seq<string>): nat
  {
    if labels == [] then 0 else |GroupRows(rows, labels[0])| + GroupSizes(rows, labels[1..])
  }

  lemma {:induction false} GroupRowsIsCountOf(rows: seq<BinnedRow>, binLabel: string)
    ensures |GroupRows(rows, binLabel)| == CountOf(BinColumn(rows), binLabel)
  {
    if rows != [] {
      GroupRowsIsCountOf(rows[1..], binLabel);
      assert BinColumn(rows)[1..] == BinColumn(rows[1..]);
    }
  }

  lemma {:induction false} GroupSizesIsCountIn(rows: seq<BinnedRow>, labels: seq<string>)
    requires Distinct(labels)
    ensures GroupSizes(rows, labels) == CountIn(BinColumn(rows), KeySet(labels))
  {
    if labels == [] {
      assert KeySet(labels) == {};
      CountInEmpty(BinColumn(rows));
    } else {
      var rest := labels[1..];
      assert Distinct(rest);
      GroupSizesIsCountIn(rows, rest);
      GroupRowsIsCountOf(rows, labels[0]);
      assert labels == [labels[0]] + rest;
      assert KeySet(labels) == KeySet(rest) + {labels[0]};
      CountInAdd(BinColumn(rows), KeySet(rest), labels[0]);
    }
  }

  lemma {:induction false} UngroupedComplement(rows: seq<BinnedRow>)
    ensures CountIn(BinColumn(rows), KeySet(BinLabels)) + |Ungrouped(rows)| == |rows|
  {
    if rows != [] {
      UngroupedComplement(rows[1..]);
      assert BinColumn(rows)[1..] == BinColumn(rows[1..]);
    }
  }

  /**
   * The bin groups and the unbinned rows partition the rows: each row is counted in exactly one
   * of the six groups or among the unbinned ones.
   */
  lemma PartitionCount(rows: seq<BinnedRow>)
    ensures GroupSizes(rows, BinLabels) + |Ungrouped(rows)| == |rows|
  {
    BinLabelsDistinct();
    GroupSizesIsCountIn(rows, BinLabels);
    UngroupedComplement(rows);
  }

  lemma {:induction false} GroupRowsMembership(rows: seq<BinnedRow>, binLabel: string, b: BinnedRow)
    ensures b in GroupRows(rows, binLabel) <==> b in rows && b.drugBin == Some(binLabel)
  {
    if rows != [] {
      GroupRowsMembership(rows[1..], binLabel, b);
      assert rows == [rows[0]] + rows[1..];
    }
  }

  /** No row lies in two bin groups. */
  lemma GroupsDisjoint(rows: seq<BinnedRow>, i: nat, j: nat, b: BinnedRow)
    requires i < j < |BinLabels|
    requires b in GroupRows(rows, BinLabels[i])
    ensures b !in GroupRows(rows, BinLabels[j])
  {
    GroupRowsMembership(rows, BinLabels[i], b);
    GroupRowsMembership(rows, BinLabels[j], b);
    BinLabelsDistinct();
  }

  /** With an empty view every bin group is empty. */
  lemma EmptyViewGroups()
    ensures forall i :: 0 <= i < |BoxPlotGroups([])| ==> BoxPlotGroups([])[i] == []
    ensures |BoxPlotGroups([])| == |BinLabels|
  {
  }
}
