/**
 * The filter engine: each dropdown that is not at "All" keeps only the rows whose column equals
 * the chosen value. A missing cell never equals anything, and choosing a missing value (possible
 * only for the drug category) keeps no row at all.
 */
module Filters {
  import opened Wrappers
  import opened Records

  /** The order in which the dashboard applies the nine filters. */
  const FilterOrder: seq<Facet> :=
    [Sex, Race, AgeBin, DiseaseStatus, GeneticStatus, Diagnosis, CaseControl, Month, DrugCategory]

  const AllFacets: set<Facet> :=
    {Sex, Race, AgeBin, DiseaseStatus, GeneticStatus, Diagnosis, CaseControl, Month, DrugCategory}

  function Elems(order: seq<Facet>): set<Facet>
  {
    set f | f in order
  }

  /** The row survives the equality test of its facet cell against the choice. */
  predicate Equals(r: Record, f: Facet, c: Option<string>)
  {
    c.Some? && Value(r, f) == c
  }

  /** The row passes the dropdown of facet f: the dropdown is at "All", or the cell equals it. */
  predicate Matches(r: Record, f: Facet, c: Option<string>)
  {
    c == Some(AllChoice) || Equals(r, f, c)
  }

  /** The row passes every dropdown among the facets fs. */
  predicate Selected(r: Record, sel: Selection, fs: set<Facet>)
  {
    forall f :: f in fs ==> Matches(r, f, Choice(sel, f))
  }

  /** One equality filter: the rows whose facet cell equals c, in their order. */
  function Where(rows: seq<Record>, f: Facet, c: Option<string>): seq<Record>
  {
    if rows == [] then []
    else if Equals(rows[0], f, c) then [rows[0]] + Where(rows[1..], f, c)
    else Where(rows[1..], f, c)
  }

  /** The rows that pass every dropdown among fs, in their order (the reference definition). */
  function Keep(rows: seq<Record>, sel: Selection, fs: set<Facet>): seq<Record>
  {
    if rows == [] then []
    else if Selected(rows[0], sel, fs) then [rows[0]] + Keep(rows[1..], sel, fs)
    else Keep(rows[1..], sel, fs)
  }

  /** The filtered view: the rows that pass all nine dropdowns. */
  function Filtered(rows: seq<Record>, sel: Selection): seq<Record>
  {
    Keep(rows, sel, AllFacets)
  }

  /** One step of the sidebar filter: narrow the rows unless the dropdown is at "All". */
  function Step(rows: seq<Record>, sel: Selection, f: Facet): seq<Record>
  {
    if Choice(sel, f) != Some(AllChoice) then Where(rows, f, Choice(sel, f)) else rows
  }

  /** The filter steps applied one after another in the given order. */
  function ApplyInOrder(rows: seq<Record>, sel: Selection, order: seq<Facet>): seq<Record>
    decreases |order|
  {
    if order == [] then rows else ApplyInOrder(Step(rows, sel, order[0]), sel, order[1..])
  }

  /** a is an order-preserving subsequence of b. */
  ghost predicate IsSubsequence<T>(a: seq<T>, b: seq<T>)
    decreases |b|
  {
    if a == [] then true
    else if b == [] then false
    else if a[0] == b[0] then IsSubsequence(a[1..], b[1..])
    else IsSubsequence(a, b[1..])
  }

  /** The dashboard's filter: the nine steps of the sidebar, in their order. */
  method ApplyFilters(data: seq<Record>, sel: Selection) returns (view: seq<Record>)
    ensures view == Filtered(data, sel)
  {
    view := data;
    KeepNothing(data, sel);
    var i := 0;
    assert Elems(FilterOrder[..0]) == {};
    while i < |FilterOrder|
      invariant 0 <= i <= |FilterOrder|
      invariant view == Keep(data, sel, Elems(FilterOrder[..i]))
    {
      var f := FilterOrder[i];
      var c := Choice(sel, f);
      StepKeep(data, sel, Elems(FilterOrder[..i]), f);
      if c != Some(AllChoice) {
        view := Where(view, f, c);
      }
      assert FilterOrder[..i + 1] == FilterOrder[..i] + [f];
      assert Elems(FilterOrder[..i + 1]) == Elems(FilterOrder[..i]) + {f};
      i := i + 1;
    }
    assert FilterOrder[..i] == FilterOrder;
    assert Elems(FilterOrder) == AllFacets;
  }

  lemma {:induction false} KeepNothing(rows: seq<Record>, sel: Selection)
    ensures Keep(rows, sel, {}) == rows
  {
    if rows != [] { KeepNothing(rows[1..], sel); }
  }

  /** Narrowing the view found for fs by one more facet gives the view for fs + {f}. */
  lemma {:induction false} StepKeep(rows: seq<Record>, sel: Selection, fs: set<Facet>, f: Facet)
    ensures Step(Keep(rows, sel, fs), sel, f) == Keep(rows, sel, fs + {f})
  {
    if rows != [] {
      StepKeep(rows[1..], sel, fs, f);
    }
  }

  /** Membership in the view, both ways: a row is kept exactly when it is a row and passes. */
  lemma {:induction false} KeepMembership(rows: seq<Record>, sel: Selection, fs: set<Facet>, r: Record)
    ensures r in Keep(rows, sel, fs) <==> r in rows && Selected(r, sel, fs)
  {
    if rows != [] {
      KeepMembership(rows[1..], sel, fs, r);
      assert rows == [rows[0]] + rows[1..];
    }
  }

  /** A row survives one comparison exactly when it is a row whose cell equals the choice. */
  lemma {:induction false} WhereMembership(rows: seq<Record>, f: Facet, c: Option<string>, r: Record)
    ensures r in Where(rows, f, c) <==> r in rows && Equals(r, f, c)
  {
    if rows != [] {
      WhereMembership(rows[1..], f, c, r);
      assert rows == [rows[0]] + rows[1..];
    }
  }

  /** The view keeps its rows in their original relative order. */
  lemma {:induction false} KeepIsSubsequence(rows: seq<Record>, sel: Selection, fs: set<Facet>)
    ensures IsSubsequence(Keep(rows, sel, fs), rows)
  {
    if rows != [] {
      KeepIsSubsequence(rows[1..], sel, fs);
      var k := Keep(rows[1..], sel, fs);
      if !Selected(rows[0], sel, fs) {
        SubsequenceDropHead(k, rows);
      }
    }
  }

  lemma {:induction false} SubsequenceDropHead<T>(a: seq<T>, b: seq<T>)
    requires b != [] && IsSubsequence(a, b[1..])
    ensures IsSubsequence(a, b)
    decreases |b|, 0
  {
    if a != [] && a[0] == b[0] {
      SubsequenceTail(a, b[1..]);
    }
  }

  lemma {:induction false} SubsequenceTail<T>(a: seq<T>, b: seq<T>)
    requires a != [] && IsSubsequence(a, b)
    ensures IsSubsequence(a[1..], b)
    decreases |b|, 1
  {
    if b != [] {
      if a[0] == b[0] {
        if a[1..] != [] { SubsequenceDropHead(a[1..], b); }
      } else {
        SubsequenceTail(a, b[1..]);
        if a[1..] != [] { SubsequenceDropHead(a[1..], b); }
      }
    }
  }

  /** With every dropdown at its default "All" the view is the whole table. */
  lemma {:induction false} NoFilterIsIdentity(rows: seq<Record>)
    ensures Filtered(rows, NoFilter) == rows
  {
    if rows != [] {
      NoFilterIsIdentity(rows[1..]);
      assert Selected(rows[0], NoFilter, AllFacets);
    }
  }

  /**
   * A row of the view agrees with every active dropdown, so a row whose cell is missing for an
   * active facet is never in the view.
   */
  lemma ViewAgreesWithSelection(rows: seq<Record>, sel: Selection, r: Record, f: Facet)
    requires r in Filtered(rows, sel)
    requires Choice(sel, f) != Some(AllChoice)
    ensures Choice(sel, f).Some? && Value(r, f) == Choice(sel, f)
  {
    KeepMembership(rows, sel, AllFacets, r);
    assert f in AllFacets;
  }

  /** Choosing the missing drug category, which its dropdown can offer, empties the view. */
  lemma {:induction false} MissingChoiceKeepsNothing(rows: seq<Record>, sel: Selection)
    requires sel.drugCategory.None?
    ensures Filtered(rows, sel) == []
  {
    if rows != [] {
      MissingChoiceKeepsNothing(rows[1..], sel);
      assert !Matches(rows[0], DrugCategory, Choice(sel, DrugCategory));
    }
  }

  /** Filtering what an earlier filter kept is filtering by both. */
  lemma {:induction false} KeepKeep(rows: seq<Record>, sel: Selection, a: set<Facet>, b: set<Facet>)
    ensures Keep(Keep(rows, sel, a), sel, b) == Keep(rows, sel, a + b)
  {
    if rows != [] {
      KeepKeep(rows[1..], sel, a, b);
    }
  }

  lemma {:induction false} StepIsKeep(rows: seq<Record>, sel: Selection, f: Facet)
    ensures Step(rows, sel, f) == Keep(rows, sel, {f})
  {
    StepKeep(rows, sel, {}, f);
    KeepNothing(rows, sel);
    assert {} + {f} == {f};
  }

  /** The steps, applied in any order, keep exactly the rows that pass every facet of that order. */
  lemma {:induction false} ApplyInOrderIsKeep(rows: seq<Record>, sel: Selection, order: seq<Facet>)
    ensures ApplyInOrder(rows, sel, order) == Keep(rows, sel, Elems(order))
    decreases |order|
  {
    if order == [] {
      KeepNothing(rows, sel);
      assert Elems(order) == {};
    } else {
      var f := order[0];
      ApplyInOrderIsKeep(Step(rows, sel, f), sel, order[1..]);
      StepIsKeep(rows, sel, f);
      KeepKeep(rows, sel, {f}, Elems(order[1..]));
      assert order == [f] + order[1..];
      assert Elems(order) == {f} + Elems(order[1..]);
    }
  }

  /** The filters commute: any order that mentions every facet gives the dashboard's view. */
  lemma FiltersCommute(rows: seq<Record>, sel: Selection, order: seq<Facet>)
    requires forall f :: f in order
    ensures ApplyInOrder(rows, sel, order) == Filtered(rows, sel)
  {
    ApplyInOrderIsKeep(rows, sel, order);
    CoversAll(order);
  }

  lemma InAllFacets(f: Facet)
    ensures f in AllFacets
  {
    match f
    case Sex =>
    case Race =>
    case AgeBin =>
    case DiseaseStatus =>
    case GeneticStatus =>
    case Diagnosis =>
    case CaseControl =>
    case Month =>
    case DrugCategory =>
  }

  lemma CoversAll(order: seq<Facet>)
    requires forall f :: f in order
    ensures Elems(order) == AllFacets
  {
    forall f ensures f in Elems(order) && f in AllFacets {
      InAllFacets(f);
    }
  }

  /** Two single steps commute. */
  lemma StepsCommute(rows: seq<Record>, sel: Selection, f: Facet, g: Facet)
    ensures Step(Step(rows, sel, f), sel, g) == Step(Step(rows, sel, g), sel, f)
  {
    StepIsKeep(rows, sel, f);
    StepIsKeep(rows, sel, g);
    StepIsKeep(Keep(rows, sel, {f}), sel, g);
    StepIsKeep(Keep(rows, sel, {g}), sel, f);
    KeepKeep(rows, sel, {f}, {g});
    KeepKeep(rows, sel, {g}, {f});
    assert {f} + {g} == {g} + {f};
  }

  /** Re-applying the same selection to the view changes nothing. */
  lemma FilterIdempotent(rows: seq<Record>, sel: Selection)
    ensures Filtered(Filtered(rows, sel), sel) == Filtered(rows, sel)
  {
    KeepKeep(rows, sel, AllFacets, AllFacets);
    assert AllFacets + AllFacets == AllFacets;
  }
}
