/**
 * The option lists of the sidebar dropdowns. Eight of them are "All" followed by the distinct
 * present values of the column in ascending order; the drug-category one is "All" followed by
 * the column's distinct values in order of first appearance, a missing value included.
 */
module Vocabulary {
  import opened Wrappers
  import opened Records

  /** The present values of a column, in column order. */
  function DropMissing(col: seq<Option<string>>): (r: seq<string>)
    ensures |r| <= |col|
    ensures forall s :: s in r <==> Some(s) in col
  {
    if col == [] then []
    else
      assert col == [col[0]] + col[1..];
      match col[0]
      case None => DropMissing(col[1..])
      case Some(s) => [s] + DropMissing(col[1..])
  }

  ghost predicate StrictlyAscending(s: seq<string>)
  {
    forall i, j :: 0 <= i < j < |s| ==> Less(s[i], s[j])
  }

  ghost predicate Distinct<T>(s: seq<T>)
  {
    forall i, j :: 0 <= i < j < |s| ==> s[i] != s[j]
  }

  /** Puts x into its place in an ascending list, unless it is already there. */
  function Insert(x: string, s: seq<string>): seq<string>
  {
    if s == [] then [x]
    else if x == s[0] then s
    else if Less(x, s[0]) then [x] + s
    else [s[0]] + Insert(x, s[1..])
  }

  /** The distinct values in ascending order. */
  function SortedDistinct(xs: seq<string>): seq<string>
  {
    if xs == [] then [] else Insert(xs[0], SortedDistinct(xs[1..]))
  }

  /** The option list of one of the eight sorted dropdowns. */
  function SortedOptions(col: seq<Option<string>>): seq<string>
  {
    [AllChoice] + SortedDistinct(DropMissing(col))
  }

  /** The column's distinct values, each at the place of its first appearance. */
  function Unique<T(==)>(xs: seq<T>): seq<T>
  {
    if xs == [] then []
    else
      var u := Unique(xs[..|xs| - 1]);
      if xs[|xs| - 1] in u then u else u + [xs[|xs| - 1]]
  }

  /** The option list of the drug-category dropdown. */
  function DrugCategoryOptions(col: seq<Option<string>>): seq<Option<string>>
  {
    [Some(AllChoice)] + Unique(col)
  }

  /** Where a value first appears. */
  function FirstIndex<T(==)>(xs: seq<T>, x: T): (i: nat)
    requires x in xs
    ensures i < |xs| && xs[i] == x
    ensures forall j :: 0 <= j < i ==> xs[j] != x
  {
    if xs[0] == x then 0 else 1 + FirstIndex(xs[1..], x)
  }

  lemma {:induction false} InsertCorrect(x: string, s: seq<string>)
    requires StrictlyAscending(s)
    ensures StrictlyAscending(Insert(x, s))
    ensures forall y :: y in Insert(x, s) <==> y == x || y in s
  {
    if s == [] {
    } else if x == s[0] {
    } else if Less(x, s[0]) {
      var r := [x] + s;
      forall i, j | 0 <= i < j < |r| ensures Less(r[i], r[j]) {
        if i == 0 && j > 1 { LessTransitive(x, s[0], s[j - 1]); }
      }
    } else {
      LessTotal(x, s[0]);
      var t := s[1..];
      assert StrictlyAscending(t);
      InsertCorrect(x, t);
      var r := [s[0]] + Insert(x, t);
      forall i, j | 0 <= i < j < |r| ensures Less(r[i], r[j]) {
        if i == 0 {
          assert r[j] in Insert(x, t);
          if r[j] != x {
            var k :| 0 <= k < |t| && t[k] == r[j];
            assert s[k + 1] == r[j];
          }
        }
      }
      assert s == [s[0]] + t;
    }
  }

  lemma {:induction false} SortedDistinctCorrect(xs: seq<string>)
    ensures StrictlyAscending(SortedDistinct(xs))
    ensures forall y :: y in SortedDistinct(xs) <==> y in xs
  {
    if xs != [] {
      SortedDistinctCorrect(xs[1..]);
      InsertCorrect(xs[0], SortedDistinct(xs[1..]));
      assert xs == [xs[0]] + xs[1..];
    }
  }

  lemma AscendingIsDistinct(s: seq<string>)
    requires StrictlyAscending(s)
    ensures Distinct(s)
  {
    forall i, j | 0 <= i < j < |s| ensures s[i] != s[j] {
      if s[i] == s[j] { LessIrreflexive(s[i]); }
    }
  }

  /**
   * A sorted dropdown offers "All" first, then every present value of the column exactly once,
   * in ascending order, and nothing else.
   */
  lemma SortedOptionsCorrect(col: seq<Option<string>>)
    ensures |SortedOptions(col)| >= 1 && SortedOptions(col)[0] == AllChoice
    ensures StrictlyAscending(SortedOptions(col)[1..])
    ensures Distinct(SortedOptions(col)[1..])
    ensures forall s :: s in SortedOptions(col)[1..] <==> Some(s) in col
  {
    SortedDistinctCorrect(DropMissing(col));
    assert SortedOptions(col)[1..] == SortedDistinct(DropMissing(col));
    AscendingIsDistinct(SortedOptions(col)[1..]);
  }

  lemma {:induction false} FirstIndexPrefix<T>(p: seq<T>, q: seq<T>, x: T)
    requires x in p
    ensures FirstIndex(p + q, x) == FirstIndex(p, x)
  {
    if p[0] != x {
      assert (p + q)[1..] == p[1..] + q;
      FirstIndexPrefix(p[1..], q, x);
    }
  }

  lemma {:induction false} UniqueCorrect<T>(xs: seq<T>)
    ensures Distinct(Unique(xs))
    ensures forall x :: x in xs ==> x in Unique(xs)
    ensures forall i :: 0 <= i < |Unique(xs)| ==> Unique(xs)[i] in xs
    ensures forall i, j :: 0 <= i < j < |Unique(xs)| ==>
              FirstIndex(xs, Unique(xs)[i]) < FirstIndex(xs, Unique(xs)[j])
  {
    if xs != [] {
      var p, l := xs[..|xs| - 1], xs[|xs| - 1];
      assert xs == p + [l];
      UniqueCorrect(p);
      var U := Unique(p);
      forall y | y in p ensures FirstIndex(xs, y) == FirstIndex(p, y) {
        FirstIndexPrefix(p, [l], y);
      }
      if l !in U {
        var u := U + [l];
        assert FirstIndex(xs, l) == |p|;
        forall i, j | 0 <= i < j < |u| ensures FirstIndex(xs, u[i]) < FirstIndex(xs, u[j]) {
          if j == |U| {
            assert u[i] == U[i] && U[i] in U;
          } else {
            assert u[i] == U[i] && u[j] == U[j];
          }
        }
      }
    }
  }

  /**
   * The drug-category dropdown offers "All" first, then every value of the column (missing
   * included) exactly once, in order of first appearance.
   */
  lemma DrugCategoryOptionsCorrect(col: seq<Option<string>>)
    ensures |DrugCategoryOptions(col)| >= 1 && DrugCategoryOptions(col)[0] == Some(AllChoice)
    ensures Distinct(DrugCategoryOptions(col)[1..])
    ensures forall v :: v in DrugCategoryOptions(col)[1..] <==> v in col
    ensures forall i, j :: 1 <= i < j < |DrugCategoryOptions(col)| ==>
              FirstIndex(col, DrugCategoryOptions(col)[i]) < FirstIndex(col, DrugCategoryOptions(col)[j])
  {
    var o := DrugCategoryOptions(col);
    assert o[1..] == Unique(col);
    UniqueCorrect(col);
    forall v ensures v in o[1..] <==> v in col {
      assert v in o[1..] <==> v in Unique(col);
    }
    forall i, j | 1 <= i < j < |o| ensures FirstIndex(col, o[i]) < FirstIndex(col, o[j]) {
      assert o[i] == Unique(col)[i - 1] && o[j] == Unique(col)[j - 1];
    }
  }
}
