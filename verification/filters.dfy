/** The filter stage of the dashboard (streamlit_app.py:224-263): starting
    from the whole table, each active sidebar condition narrows `filtered`
    in turn, and the group condition keeps a row when any selected group
    flag is set. The sidebar's choices arrive as a `Selection`. */
module Filters {
  import opened Wrappers
  import opened Text
  import opened Loader

  /** The five group flags offered by the multiselect at lines 217-220. */
  datatype Group = CapitalRegion | National | MedicalMajor | NursingMajor | TeachersCollege

  /** The flag column a group selects (`filtered[g] == True`). */
  predicate Flag(row: Row, g: Group) {
    match g
    case CapitalRegion => row.capitalRegion
    case National => row.national
    case MedicalMajor => row.medical
    case NursingMajor => row.nursing
    case TeachersCollege => row.teachersCollege
  }

  /** The sentinel of the three select boxes: no condition. */
  const All: string := "전체"

  /** The sidebar's state: ranges are absent when their column is (lines
      166-200), the select boxes hold 전체 or a value, the keyword may be
      empty and the group list may be empty. */
  datatype Selection = Selection(
    yearRange: Option<(int, int)>,
    middleSchool: string,
    gradeRange: Option<(int, int)>,
    trackCategory: string,
    majorGroup: string,
    keyword: string,
    groups: seq<Group>)

  /** One filter step's condition. */
  datatype Criterion =
    | YearIn(lo: int, hi: int)
    | MiddleSchoolIs(school: string)
    | GradeIn(lo: int, hi: int)
    | TrackCategoryIs(category: string)
    | MajorGroupIs(group: string)
    | OfferContains(keyword: string)
    | AnyGroup(groups: seq<Group>)

  /** Whether a row passes one condition. A missing number compares false,
      like NaN, and a missing offer is searched as the empty string
      (`fillna("")`). An empty keyword is in every offer, no row lies in
      a reversed range, and an empty group list matches no row. */
  predicate Matches(row: Row, c: Criterion)
    ensures c.OfferContains? && c.keyword == [] ==> Matches(row, c)
    ensures (c.YearIn? || c.GradeIn?) && c.lo > c.hi ==> !Matches(row, c)
    ensures c.AnyGroup? && c.groups == [] ==> !Matches(row, c)
  {
    match c
    case YearIn(lo, hi) => row.record.year.Some? && lo <= row.record.year.value <= hi
    case MiddleSchoolIs(school) => row.record.middleSchool == Some(school)
    case GradeIn(lo, hi) => row.record.highGrade.Some? && lo <= row.record.highGrade.value <= hi
    case TrackCategoryIs(category) => row.trackCategory == category
    case MajorGroupIs(group) => row.majorGroup == group
    case OfferContains(keyword) => Contains(row.record.offer.GetOr(""), keyword)
    case AnyGroup(groups) => HasFlag(row, groups)
  }

  /** Some group of `groups` has its flag set on the row. */
  predicate HasFlag(row: Row, groups: seq<Group>) {
    exists j :: 0 <= j < |groups| && Flag(row, groups[j])
  }

  lemma HasFlagSnoc(row: Row, groups: seq<Group>, k: nat)
    requires k < |groups|
    ensures HasFlag(row, groups[..k + 1]) <==> HasFlag(row, groups[..k]) || Flag(row, groups[k])
  {
    if HasFlag(row, groups[..k + 1]) {
      var j :| 0 <= j < k + 1 && Flag(row, groups[..k + 1][j]);
      if j < k {
        assert groups[..k][j] == groups[j];
      }
    }
    if HasFlag(row, groups[..k]) {
      var j :| 0 <= j < k && Flag(row, groups[..k][j]);
      assert groups[..k + 1][j] == groups[j];
    }
    assert groups[..k + 1][k] == groups[k];
  }

  /** A one-condition selection tests that condition. */
  lemma MatchesOne(row: Row, c: Criterion)
    ensures MatchesAll(row, [c]) <==> Matches(row, c)
  {
    assert [c][0] == c;
  }

  predicate MatchesAll(row: Row, cs: seq<Criterion>) {
    forall j :: 0 <= j < |cs| ==> Matches(row, cs[j])
  }

  /** `a` is `b` with some elements dropped, the rest kept in order. */
  predicate IsSubsequence<T(==)>(a: seq<T>, b: seq<T>) {
    if a == [] then true
    else if b == [] then false
    else (a[|a| - 1] == b[|b| - 1] && IsSubsequence(a[..|a| - 1], b[..|b| - 1]))
         || IsSubsequence(a, b[..|b| - 1])
  }

  /** The rows meeting every condition of `cs`, in table order. */
  function Select(rows: seq<Row>, cs: seq<Criterion>): (r: seq<Row>) {
    if rows == [] then []
    else if MatchesAll(rows[|rows| - 1], cs) then Select(rows[..|rows| - 1], cs) + [rows[|rows| - 1]]
    else Select(rows[..|rows| - 1], cs)
  }

  /** A selection keeps the table's order and exactly the rows meeting
      every condition, each as often as it occurs in the table. */
  lemma {:induction false} SelectSpec(rows: seq<Row>, cs: seq<Criterion>)
    ensures IsSubsequence(Select(rows, cs), rows)
    ensures forall x :: x in Select(rows, cs) <==> x in rows && MatchesAll(x, cs)
    ensures forall x :: multiset(Select(rows, cs))[x] == if MatchesAll(x, cs) then multiset(rows)[x] else 0
  {
    SelectCounts(rows, cs);
    if rows != [] {
      var last := rows[|rows| - 1];
      var init := rows[..|rows| - 1];
      SelectSpec(init, cs);
      assert rows == init + [last];
      var r := Select(rows, cs);
      if MatchesAll(last, cs) {
        assert r[..|r| - 1] == Select(init, cs);
      }
    }
  }

  /** A selection keeps every copy of a matching row and no copy of any
      other: duplicate rows are counted as often as they occur. */
  lemma {:induction false} SelectCounts(rows: seq<Row>, cs: seq<Criterion>)
    ensures forall x :: multiset(Select(rows, cs))[x] == if MatchesAll(x, cs) then multiset(rows)[x] else 0
  {
    if rows != [] {
      var last := rows[|rows| - 1];
      var init := rows[..|rows| - 1];
      SelectCounts(init, cs);
      assert rows == init + [last];
    }
  }

  /** Selecting by no condition keeps the whole table. */
  lemma {:induction false} SelectNothing(rows: seq<Row>)
    ensures Select(rows, []) == rows
  {
    if rows != [] {
      SelectNothing(rows[..|rows| - 1]);
    }
  }

  /** The order of the conditions does not matter. */
  lemma {:induction false} SelectCommutes(rows: seq<Row>, cs: seq<Criterion>, ds: seq<Criterion>)
    ensures Select(rows, cs + ds) == Select(rows, ds + cs)
  {
    if rows != [] {
      var last := rows[|rows| - 1];
      SelectCommutes(rows[..|rows| - 1], cs, ds);
      assert MatchesAll(last, cs + ds) <==> MatchesAll(last, cs) && MatchesAll(last, ds) by {
        MatchesAllAppend(last, cs, ds);
      }
      assert MatchesAll(last, ds + cs) <==> MatchesAll(last, ds) && MatchesAll(last, cs) by {
        MatchesAllAppend(last, ds, cs);
      }
    }
  }

  /** Only which conditions are applied matters, not their order or
      repetition. */
  lemma {:induction false} SelectSameConditions(rows: seq<Row>, cs: seq<Criterion>, ds: seq<Criterion>)
    requires forall c :: c in cs <==> c in ds
    ensures Select(rows, cs) == Select(rows, ds)
  {
    if rows != [] {
      var last := rows[|rows| - 1];
      SelectSameConditions(rows[..|rows| - 1], cs, ds);
      if MatchesAll(last, cs) {
        MatchesAllSubset(last, cs, ds);
      }
      if MatchesAll(last, ds) {
        MatchesAllSubset(last, ds, cs);
      }
    }
  }

  /** A row meeting every condition of `cs` meets every one of `ds` when
      `ds` draws its conditions from `cs`. */
  lemma MatchesAllSubset(row: Row, cs: seq<Criterion>, ds: seq<Criterion>)
    requires forall c :: c in ds ==> c in cs
    requires MatchesAll(row, cs)
    ensures MatchesAll(row, ds)
  {
    forall j | 0 <= j < |ds| ensures Matches(row, ds[j]) {
      assert ds[j] in cs;
      var k :| 0 <= k < |cs| && cs[k] == ds[j];
    }
  }

  lemma MatchesAllAppend(row: Row, cs: seq<Criterion>, ds: seq<Criterion>)
    ensures MatchesAll(row, cs + ds) <==> MatchesAll(row, cs) && MatchesAll(row, ds)
  {
    assert forall j :: 0 <= j < |cs| ==> (cs + ds)[j] == cs[j];
    assert forall j :: 0 <= j < |ds| ==> (cs + ds)[|cs| + j] == ds[j];
  }

  /** Every step only narrows: more conditions select a subsequence of
      what fewer conditions select. */
  lemma MoreConditionsNarrow(rows: seq<Row>, cs: seq<Criterion>, ds: seq<Criterion>)
    ensures IsSubsequence(Select(rows, cs + ds), Select(rows, cs))
  {
    SelectConcat(rows, cs, ds);
    SelectSpec(Select(rows, cs), ds);
  }

  /** Selecting by `cs + ds` is selecting by `ds` among the rows `cs`
      selects. */
  lemma {:induction false} SelectConcat(rows: seq<Row>, cs: seq<Criterion>, ds: seq<Criterion>)
    ensures Select(Select(rows, cs), ds) == Select(rows, cs + ds)
  {
    if rows != [] {
      var init := rows[..|rows| - 1];
      var last := rows[|rows| - 1];
      SelectConcat(init, cs, ds);
      MatchesAllAppend(last, cs, ds);
      var s := Select(init, cs);
      if MatchesAll(last, cs) {
        assert (s + [last])[..|s|] == s;
      }
    }
  }

  /** The conditions applied so far, extended by `c` when it is active. */
  function Extend(before: seq<Criterion>, active: bool, c: Criterion): (r: seq<Criterion>)
    ensures forall x :: x in r <==> x in before || (active && x == c)
  {
    if active then before + [c] else before
  }

  /** The conditions the sidebar makes active, in the order lines 227-263
      apply them; a range needs its column, the keyword needs the offer
      column and must be non-empty, and the group list must be non-empty. */
  function ActiveCriteria(columns: Columns, sel: Selection): (r: seq<Criterion>)
    ensures forall c :: c in r ==> Requested(columns, sel, c)
  {
    var years := sel.yearRange.GetOr((0, 0));
    var grades := sel.gradeRange.GetOr((0, 0));
    var afterYear := Extend([], sel.yearRange.Some? && columns.year, YearIn(years.0, years.1));
    var afterSchool := Extend(afterYear, sel.middleSchool != All, MiddleSchoolIs(sel.middleSchool));
    var afterGrade := Extend(afterSchool, sel.gradeRange.Some? && columns.highGrade, GradeIn(grades.0, grades.1));
    var afterTrack := Extend(afterGrade, sel.trackCategory != All, TrackCategoryIs(sel.trackCategory));
    var afterGroup := Extend(afterTrack, sel.majorGroup != All, MajorGroupIs(sel.majorGroup));
    var afterKeyword := Extend(afterGroup, sel.keyword != [] && columns.offer, OfferContains(sel.keyword));
    Extend(afterKeyword, |sel.groups| > 0, AnyGroup(sel.groups))
  }

  /** Whether the sidebar asks for condition `c`, read off each widget on
      its own: a chosen range whose column exists, a select box not on
      전체, a non-empty keyword with the offer column, a non-empty group
      list. */
  predicate Requested(columns: Columns, sel: Selection, c: Criterion) {
    match c
    case YearIn(lo, hi) => columns.year && sel.yearRange == Some((lo, hi))
    case MiddleSchoolIs(school) => school != All && school == sel.middleSchool
    case GradeIn(lo, hi) => columns.highGrade && sel.gradeRange == Some((lo, hi))
    case TrackCategoryIs(category) => category != All && category == sel.trackCategory
    case MajorGroupIs(group) => group != All && group == sel.majorGroup
    case OfferContains(keyword) => columns.offer && keyword != [] && keyword == sel.keyword
    case AnyGroup(groups) => |groups| > 0 && groups == sel.groups
  }

  /** One narrowing step, `filtered = filtered[mask]`, where the mask is the
      condition evaluated on every row. */
  method Narrow(rows: seq<Row>, c: Criterion) returns (kept: seq<Row>)
    ensures kept == Select(rows, [c])
  {
    kept := [];
    for i := 0 to |rows|
      invariant kept == Select(rows[..i], [c])
    {
      assert rows[..i + 1][..i] == rows[..i];
      MatchesOne(rows[i], c);
      if Matches(rows[i], c) {
        kept := kept + [rows[i]];
      }
    }
    assert rows[..|rows|] == rows;
  }

  /** The group step of lines 257-263: an all-false mask is or-ed with each
      selected flag column, then the rows under a true mask are kept. */
  method FilterByGroups(rows: seq<Row>, groups: seq<Group>) returns (kept: seq<Row>)
    ensures kept == Select(rows, [AnyGroup(groups)])
  {
    var mask: seq<bool> := seq(|rows|, _ => false);
    for k := 0 to |groups|
      invariant |mask| == |rows|
      invariant forall i :: 0 <= i < |rows| ==> mask[i] == HasFlag(rows[i], groups[..k])
    {
      var g := groups[k];
      forall i | 0 <= i < |rows| ensures HasFlag(rows[i], groups[..k + 1]) == (mask[i] || Flag(rows[i], g)) {
        HasFlagSnoc(rows[i], groups, k);
      }
      mask := seq(|rows|, i requires 0 <= i < |rows| && |mask| == |rows| => mask[i] || Flag(rows[i], g));
    }
    assert groups[..|groups|] == groups;
    kept := [];
    for i := 0 to |rows|
      invariant kept == Select(rows[..i], [AnyGroup(groups)])
    {
      assert rows[..i + 1][..i] == rows[..i];
      MatchesOne(rows[i], AnyGroup(groups));
      if mask[i] {
        kept := kept + [rows[i]];
      }
    }
    assert rows[..|rows|] == rows;
  }

  /** The filter block of lines 224-263 over a loaded table. The middle
      school can only be chosen when its column exists (lines 182-187). */
  method ApplyFilters(table: Table, sel: Selection) returns (filtered: seq<Row>)
    ensures filtered == Select(table.rows, ActiveCriteria(table.columns, sel))
  {
    var rows := table.rows;
    var columns := table.columns;
    var years := sel.yearRange.GetOr((0, 0));
    var grades := sel.gradeRange.GetOr((0, 0));
    filtered := rows;
    SelectNothing(rows);
    // after each step, `filtered` is the selection by the conditions so far
    ghost var afterYear, afterSchool, afterGrade, afterTrack, afterGroup, afterKeyword, afterFlags;
    filtered, afterYear := NarrowIf(rows, filtered, [], sel.yearRange.Some? && columns.year, YearIn(years.0, years.1));
    filtered, afterSchool := NarrowIf(rows, filtered, afterYear, sel.middleSchool != All, MiddleSchoolIs(sel.middleSchool));
    filtered, afterGrade := NarrowIf(rows, filtered, afterSchool, sel.gradeRange.Some? && columns.highGrade, GradeIn(grades.0, grades.1));
    filtered, afterTrack := NarrowIf(rows, filtered, afterGrade, sel.trackCategory != All, TrackCategoryIs(sel.trackCategory));
    filtered, afterGroup := NarrowIf(rows, filtered, afterTrack, sel.majorGroup != All, MajorGroupIs(sel.majorGroup));
    filtered, afterKeyword := NarrowIf(rows, filtered, afterGroup, sel.keyword != [] && columns.offer, OfferContains(sel.keyword));
    filtered, afterFlags := NarrowIf(rows, filtered, afterKeyword, |sel.groups| > 0, AnyGroup(sel.groups));
    ActiveCriteriaSteps(columns, sel, afterYear, afterSchool, afterGrade, afterTrack, afterGroup, afterKeyword, afterFlags);
  }

  /** `ActiveCriteria` is built step by step, as the filter block runs. */
  lemma ActiveCriteriaSteps(columns: Columns, sel: Selection,
      afterYear: seq<Criterion>, afterSchool: seq<Criterion>, afterGrade: seq<Criterion>,
      afterTrack: seq<Criterion>, afterGroup: seq<Criterion>, afterKeyword: seq<Criterion>,
      afterFlags: seq<Criterion>)
    requires afterYear == Extend([], sel.yearRange.Some? && columns.year,
      YearIn(sel.yearRange.GetOr((0, 0)).0, sel.yearRange.GetOr((0, 0)).1))
    requires afterSchool == Extend(afterYear, sel.middleSchool != All, MiddleSchoolIs(sel.middleSchool))
    requires afterGrade == Extend(afterSchool, sel.gradeRange.Some? && columns.highGrade,
      GradeIn(sel.gradeRange.GetOr((0, 0)).0, sel.gradeRange.GetOr((0, 0)).1))
    requires afterTrack == Extend(afterGrade, sel.trackCategory != All, TrackCategoryIs(sel.trackCategory))
    requires afterGroup == Extend(afterTrack, sel.majorGroup != All, MajorGroupIs(sel.majorGroup))
    requires afterKeyword == Extend(afterGroup, sel.keyword != [] && columns.offer, OfferContains(sel.keyword))
    requires afterFlags == Extend(afterKeyword, |sel.groups| > 0, AnyGroup(sel.groups))
    ensures afterFlags == ActiveCriteria(columns, sel)
  {
  }

  /** One `if <condition active>: filtered = filtered[...]` of the filter
      block; the group condition builds its mask in `FilterByGroups`.
      `applied` holds the conditions applied before. */
  method NarrowIf(rows: seq<Row>, filtered: seq<Row>, ghost applied: seq<Criterion>, active: bool, c: Criterion)
    returns (narrowed: seq<Row>, ghost appliedNow: seq<Criterion>)
    requires filtered == Select(rows, applied)
    ensures appliedNow == Extend(applied, active, c)
    ensures narrowed == Select(rows, appliedNow)
  {
    appliedNow := Extend(applied, active, c);
    narrowed := filtered;
    if active {
      if c.AnyGroup? {
        narrowed := FilterByGroups(filtered, c.groups);
      } else {
        narrowed := Narrow(filtered, c);
      }
      SelectConcat(rows, applied, [c]);
    }
  }

  /** With groups selected, the group condition is among the active ones. */
  lemma GroupConditionActive(columns: Columns, sel: Selection)
    requires |sel.groups| > 0
    ensures AnyGroup(sel.groups) in ActiveCriteria(columns, sel)
  {
    var cs := ActiveCriteria(columns, sel);
    assert cs[|cs| - 1] == AnyGroup(sel.groups);
  }

  /** The filtered table is a subsequence of the loaded one, and a row is
      in it exactly when it meets every active condition, as many times as
      it occurs in the loaded table; with groups selected, a row survives
      only if one of its selected flags is set. */
  lemma FilteredRows(table: Table, sel: Selection, row: Row)
    ensures IsSubsequence(Select(table.rows, ActiveCriteria(table.columns, sel)), table.rows)
    ensures row in Select(table.rows, ActiveCriteria(table.columns, sel))
        <==> row in table.rows && MatchesAll(row, ActiveCriteria(table.columns, sel))
    ensures |sel.groups| > 0 && row in Select(table.rows, ActiveCriteria(table.columns, sel))
        ==> HasFlag(row, sel.groups)
    ensures multiset(Select(table.rows, ActiveCriteria(table.columns, sel)))[row]
        == if MatchesAll(row, ActiveCriteria(table.columns, sel)) then multiset(table.rows)[row] else 0
  {
    var cs := ActiveCriteria(table.columns, sel);
    SelectSpec(table.rows, cs);
    if |sel.groups| > 0 && row in Select(table.rows, cs) {
      GroupConditionActive(table.columns, sel);
      var j :| 0 <= j < |cs| && cs[j] == AnyGroup(sel.groups);
      assert Matches(row, cs[j]);
    }
  }

  /** The group filter keeps exactly the rows with a selected flag set,
      every copy of them. */
  lemma GroupFilterExact(rows: seq<Row>, groups: seq<Group>, row: Row)
    ensures row in Select(rows, [AnyGroup(groups)])
        <==> row in rows && exists j :: 0 <= j < |groups| && Flag(row, groups[j])
    ensures multiset(Select(rows, [AnyGroup(groups)]))[row]
        == if exists j :: 0 <= j < |groups| && Flag(row, groups[j]) then multiset(rows)[row] else 0
  {
    var c := AnyGroup(groups);
    assert MatchesAll(row, [c]) <==> HasFlag(row, groups) by {
      MatchesOne(row, c);
    }
    SelectSpec(rows, [c]);
  }

  /** The filtered table is the selection by the requested conditions,
      listed in any order. */
  lemma FilterOrderIrrelevant(table: Table, sel: Selection, cs: seq<Criterion>)
    requires forall c :: c in cs <==> Requested(table.columns, sel, c)
    ensures Select(table.rows, cs) == Select(table.rows, ActiveCriteria(table.columns, sel))
  {
    forall c | Requested(table.columns, sel, c) ensures c in ActiveCriteria(table.columns, sel) {
      RequestedIsActive(table.columns, sel, c);
    }
    SelectSameConditions(table.rows, cs, ActiveCriteria(table.columns, sel));
  }

  /** Every condition the sidebar asks for is applied. */
  lemma RequestedIsActive(columns: Columns, sel: Selection, c: Criterion)
    requires Requested(columns, sel, c)
    ensures c in ActiveCriteria(columns, sel)
  {
    match c
    case YearIn(_, _) =>
    case MiddleSchoolIs(_) =>
    case GradeIn(_, _) =>
    case TrackCategoryIs(_) =>
    case MajorGroupIs(_) =>
    case OfferContains(_) =>
    case AnyGroup(_) =>
  }
}
