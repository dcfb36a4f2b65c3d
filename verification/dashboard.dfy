/** The data logic of the dashboard page: the department menu, the row
    filter behind every table, month navigation, the explanation store and
    the CSV export of missing and absent rows. */
module Dashboard {
  import opened Options
  import opened Seqs
  import opened Text
  import opened WorkTimes
  import opened Analytics
  import opened AnalyticsFacts
  import opened Attendance
  import opened Report
  import opened Explanations
  import opened CsvExport

  /* ---------- department menu ---------- */

  const IsNamed: string -> bool := (s: string) => s != ""

  /** `deptList`: each row's department key (`Unassigned` for an empty
      department), without repeats, blank names dropped. */
  function DeptList(rows: seq<WorkTime>): (r: seq<string>)
    ensures NoDuplicates(r)
    ensures forall i :: 0 <= i < |r| ==> r[i] != ""
  {
    DeptKeysNamed(rows);
    Filter(Distinct(MapSeq(rows, ByDept)), IsNamed)
  }

  /** Dropping blank names drops nothing: every key is non-empty. */
  lemma DeptKeysNamed(rows: seq<WorkTime>)
    ensures forall i :: 0 <= i < |Distinct(MapSeq(rows, ByDept))| ==> Distinct(MapSeq(rows, ByDept))[i] != ""
    ensures Filter(Distinct(MapSeq(rows, ByDept)), IsNamed) == Distinct(MapSeq(rows, ByDept))
  {
    var ks := MapSeq(rows, ByDept);
    forall i | 0 <= i < |ks|
      ensures IsNamed(ks[i])
    {
      assert ks[i] == DeptKey(rows[i]);
    }
    DistinctAll(ks, IsNamed);
    FilterAll(Distinct(ks), IsNamed);
  }

  /** A name is on the menu exactly when some row has it as department key. */
  lemma DeptListMembers(rows: seq<WorkTime>, k: string)
    ensures k in DeptList(rows) <==> exists row :: row in rows && DeptKey(row) == k
  {
    DeptKeysNamed(rows);
    DistinctMembers(MapSeq(rows, ByDept), k);
    ImageMapSeq(rows, ByDept, k);
    ImageMembers(rows, ByDept, k);
  }

  /* ---------- the row filter ---------- */

  /** The two screens: the whole company, or one department. */
  datatype View = CompanyView | DeptView

  /** The search condition for the lower-cased term `needle`: the
      lower-cased name or department contains it. */
  function SearchHit(lower: string -> string, needle: string): WorkTime -> bool {
    (row: WorkTime) => Includes(lower(row.nameKo), needle) || Includes(lower(row.orgTxt), needle)
  }

  /** The department condition as written: the raw department field. */
  function RawDeptIs(dept: string): WorkTime -> bool {
    (row: WorkTime) => row.orgTxt == dept
  }

  /** Whether the department condition applies. */
  predicate DeptSelected(view: View, selectedDept: string) {
    view == DeptView && selectedDept != ""
  }

  /** A row the screen shows, as one predicate. */
  function ShownRaw(term: string, view: View, selectedDept: string, lower: string -> string): WorkTime -> bool {
    (row: WorkTime) =>
      (IsBlank(term) || SearchHit(lower, lower(term))(row))
      && (DeptSelected(view, selectedDept) ==> row.orgTxt == selectedDept)
  }

  /** Filtering by `p` and then by `q` is filtering by both. */
  lemma {:induction false} FilterFilter<T>(s: seq<T>, p: T -> bool, q: T -> bool, pq: T -> bool)
    requires forall x :: pq(x) == (p(x) && q(x))
    ensures Filter(Filter(s, p), q) == Filter(s, pq)
    decreases |s|
  {
    if s != [] {
      var pre := s[..|s|-1];
      var x := s[|s|-1];
      FilterFilter(pre, p, q, pq);
      if p(x) {
        FilterSnoc(Filter(pre, p), x, q);
      }
    }
  }

  /** `filteredData` as written: the search filter when the trimmed term
      is non-empty (matching against the untrimmed term, lower-cased),
      then the raw department filter on the department screen. The result
      is the input restricted to the rows that pass both, in input order.
      `lower` stands for `toLowerCase`. */
  function FilterRows(rows: seq<WorkTime>, term: string, view: View, selectedDept: string, lower: string -> string): (r: seq<WorkTime>)
    ensures r == Filter(rows, ShownRaw(term, view, selectedDept, lower))
    ensures IsSubsequence(r, rows)
    ensures IsBlank(term) && !DeptSelected(view, selectedDept) ==> r == rows
  {
    var shown := ShownRaw(term, view, selectedDept, lower);
    var needle := lower(term);
    var searched := if IsBlank(term) then rows else Filter(rows, SearchHit(lower, needle));
    var r := if DeptSelected(view, selectedDept) then Filter(searched, RawDeptIs(selectedDept)) else searched;
    FilterRowsSpec(rows, term, view, selectedDept, lower);
    FilterIsSubsequence(rows, shown);
    r
  }

  lemma FilterRowsSpec(rows: seq<WorkTime>, term: string, view: View, selectedDept: string, lower: string -> string)
    ensures var searched := if IsBlank(term) then rows else Filter(rows, SearchHit(lower, lower(term)));
            (if DeptSelected(view, selectedDept) then Filter(searched, RawDeptIs(selectedDept)) else searched)
            == Filter(rows, ShownRaw(term, view, selectedDept, lower))
  {
    var shown := ShownRaw(term, view, selectedDept, lower);
    var search := SearchHit(lower, lower(term));
    var dept := RawDeptIs(selectedDept);
    if IsBlank(term) {
      if DeptSelected(view, selectedDept) {
        FilterFilter(rows, (row: WorkTime) => true, dept, shown);
        FilterAll(rows, (row: WorkTime) => true);
      } else {
        FilterAll(rows, shown);
      }
    } else {
      if DeptSelected(view, selectedDept) {
        FilterFilter(rows, search, dept, shown);
      } else {
        FilterFilter(rows, search, (row: WorkTime) => true, shown);
        FilterAll(Filter(rows, search), (row: WorkTime) => true);
      }
    }
  }

  /** A row is shown exactly when it is an input row passing the search
      and, on the department screen, has the selected department. */
  lemma FilterRowsMembers(rows: seq<WorkTime>, term: string, view: View, selectedDept: string,
                          lower: string -> string, row: WorkTime)
    ensures row in FilterRows(rows, term, view, selectedDept, lower)
            <==> row in rows
                 && (!IsBlank(term) ==> Includes(lower(row.nameKo), lower(term)) || Includes(lower(row.orgTxt), lower(term)))
                 && (DeptSelected(view, selectedDept) ==> row.orgTxt == selectedDept)
  {
    FilterMembers(rows, ShownRaw(term, view, selectedDept, lower), row);
  }

  /** The department condition as evidently intended: the department key,
      so that the `Unassigned` menu entry selects the rows without a
      department. */
  function ShownByKey(term: string, view: View, selectedDept: string, lower: string -> string): WorkTime -> bool {
    (row: WorkTime) =>
      (IsBlank(term) || SearchHit(lower, lower(term))(row))
      && (DeptSelected(view, selectedDept) ==> DeptKey(row) == selectedDept)
  }

  /** `filteredData` with the department compared by key. */
  function FilterRowsByKey(rows: seq<WorkTime>, term: string, view: View, selectedDept: string, lower: string -> string): (r: seq<WorkTime>)
    ensures IsSubsequence(r, rows)
    ensures forall row :: row in r <==>
              row in rows
              && (!IsBlank(term) ==> Includes(lower(row.nameKo), lower(term)) || Includes(lower(row.orgTxt), lower(term)))
              && (DeptSelected(view, selectedDept) ==> DeptKey(row) == selectedDept)
  {
    var shown := ShownByKey(term, view, selectedDept, lower);
    FilterIsSubsequence(rows, shown);
    forall row
      ensures row in Filter(rows, shown) <==>
              row in rows
              && (!IsBlank(term) ==> Includes(lower(row.nameKo), lower(term)) || Includes(lower(row.orgTxt), lower(term)))
              && (DeptSelected(view, selectedDept) ==> DeptKey(row) == selectedDept)
    {
      FilterMembers(rows, shown, row);
      assert SearchHit(lower, lower(term))(row) == (Includes(lower(row.nameKo), lower(term)) || Includes(lower(row.orgTxt), lower(term)));
    }
    Filter(rows, shown)
  }

  /** With the corrected filter, every department on the menu selects a
      non-empty set of rows, and exactly the rows with that key. */
  lemma MenuEntrySelectsItsRows(rows: seq<WorkTime>, k: string, lower: string -> string)
    requires k in DeptList(rows)
    ensures FilterRowsByKey(rows, "", DeptView, k, lower) != []
    ensures forall row :: row in FilterRowsByKey(rows, "", DeptView, k, lower) <==> row in rows && DeptKey(row) == k
  {
    DeptListMembers(rows, k);
    var row :| row in rows && DeptKey(row) == k;
    assert IsBlank("");
    assert row in FilterRowsByKey(rows, "", DeptView, k, lower);
  }

  /** A row with no department, the menu entry it produces, and the screen
      that entry opens. */
  const NoDeptRow := WorkTime("A1", "", "1001", "Kim", "", "", "2026-01-05", "월", "", "09:00", "18:00", "")

  /** As written, choosing `Unassigned` on the menu shows none of the rows
      that put it there. */
  lemma UnassignedSelectsNothing(lower: string -> string)
    ensures DeptList([NoDeptRow]) == [Unassigned]
    ensures FilterRows([NoDeptRow], "", DeptView, Unassigned, lower) == []
    ensures FilterRowsByKey([NoDeptRow], "", DeptView, Unassigned, lower) == [NoDeptRow]
  {
    var rows := [NoDeptRow];
    assert MapSeq(rows, ByDept) == [Unassigned];
    assert Distinct([Unassigned]) == [Unassigned];
    DeptKeysNamed(rows);
    assert IsBlank("");
    assert NoDeptRow.orgTxt != Unassigned;
    assert DeptSelected(DeptView, Unassigned);
    assert !ShownRaw("", DeptView, Unassigned, lower)(NoDeptRow);
    assert ShownByKey("", DeptView, Unassigned, lower)(NoDeptRow);
  }

  /** The statistics behind every table: `analyzeData` over the rows the
      filter as written shows. The counters partition the shown rows, the
      missing and absent lists are the shown rows of their kind, and on the
      department screen every detail row belongs to the selected department. */
  function ViewStats(rows: seq<WorkTime>, term: string, view: View, selectedDept: string, lower: string -> string): (r: Stats)
    ensures var shown := FilterRows(rows, term, view, selectedDept, lower);
            && r.working + r.offDuty + r.missing + r.absent == |shown| <= |rows|
            && r.missingList == Filter(shown, IsKind(Locals, Missing))
            && r.absentList == Filter(shown, IsKind(Locals, Absent))
            && |r.individualRecords| == |shown|
    ensures DeptSelected(view, selectedDept) ==>
              forall i :: 0 <= i < |r.individualRecords| ==> DeptKey(r.individualRecords[i].row) == selectedDept
  {
    var shown := FilterRows(rows, term, view, selectedDept, lower);
    ShownRowsSelected(rows, term, view, selectedDept, lower);
    FilterIsSubsequenceLength(shown, rows);
    AnalyzeData(shown)
  }

  /** Every shown row passes the department condition, so on the department
      screen its department key is the selected one. */
  lemma ShownRowsSelected(rows: seq<WorkTime>, term: string, view: View, selectedDept: string, lower: string -> string)
    ensures DeptSelected(view, selectedDept) ==>
              forall i :: 0 <= i < |FilterRows(rows, term, view, selectedDept, lower)| ==>
                DeptKey(FilterRows(rows, term, view, selectedDept, lower)[i]) == selectedDept
  {
    var shown := FilterRows(rows, term, view, selectedDept, lower);
    forall i | 0 <= i < |shown|
      ensures DeptSelected(view, selectedDept) ==> DeptKey(shown[i]) == selectedDept
    {
      FilterRowsMembers(rows, term, view, selectedDept, lower, shown[i]);
    }
  }

  lemma {:induction false} FilterIsSubsequenceLength<T>(a: seq<T>, b: seq<T>)
    requires IsSubsequence(a, b)
    ensures |a| <= |b|
    decreases |b|
  {
    if a != [] {
      if a[|a|-1] == b[|b|-1] {
        FilterIsSubsequenceLength(a[..|a|-1], b[..|b|-1]);
      } else {
        FilterIsSubsequenceLength(a, b[..|b|-1]);
      }
    }
  }

  /** The download button: the CSV of the statistics behind the screen,
      nothing (the alert) exactly when no shown row is missing or absent. */
  function DownloadView(rows: seq<WorkTime>, term: string, view: View, selectedDept: string,
                        lower: string -> string, store: Store): (r: Option<string>)
    ensures r.None? <==> forall row :: row in FilterRows(rows, term, view, selectedDept, lower) ==>
                                          KindOf(row) != Missing && KindOf(row) != Absent
  {
    NothingToExport(rows, term, view, selectedDept, lower);
    DownloadCsv(ViewStats(rows, term, view, selectedDept, lower), store)
  }

  /** There is nothing to export exactly when no shown row is missing or absent. */
  lemma NothingToExport(rows: seq<WorkTime>, term: string, view: View, selectedDept: string, lower: string -> string)
    ensures var st := ViewStats(rows, term, view, selectedDept, lower);
            (st.missingList == [] && st.absentList == []) <==>
            forall row :: row in FilterRows(rows, term, view, selectedDept, lower) ==>
                            KindOf(row) != Missing && KindOf(row) != Absent
  {
    var st := ViewStats(rows, term, view, selectedDept, lower);
    var shown := FilterRows(rows, term, view, selectedDept, lower);
    var ex := ExportRows(st);
    assert ex == [] <==> st.missingList == [] && st.absentList == [];
    if ex != [] {
      ExportedRowsMembers(rows, term, view, selectedDept, lower, ex[0]);
    } else {
      forall row | row in shown
        ensures KindOf(row) != Missing && KindOf(row) != Absent
      {
        ExportedRowsMembers(rows, term, view, selectedDept, lower, row);
      }
    }
  }

  /** A row is exported exactly when the screen shows it and it is missing
      or absent; the missing rows come first. */
  lemma ExportedRowsMembers(rows: seq<WorkTime>, term: string, view: View, selectedDept: string,
                            lower: string -> string, row: WorkTime)
    ensures row in ExportRows(ViewStats(rows, term, view, selectedDept, lower)) <==>
            row in FilterRows(rows, term, view, selectedDept, lower) && (KindOf(row) == Missing || KindOf(row) == Absent)
  {
    var shown := FilterRows(rows, term, view, selectedDept, lower);
    var st := ViewStats(rows, term, view, selectedDept, lower);
    FilterMembers(shown, IsKind(Locals, Missing), row);
    FilterMembers(shown, IsKind(Locals, Absent), row);
    assert IsKind(Locals, Missing)(row) <==> KindOf(row) == Missing;
    assert IsKind(Locals, Absent)(row) <==> KindOf(row) == Absent;
  }

  /** As written, the `Unassigned` screen of a row without department has
      empty statistics and nothing to download, although the row is missing
      its clock readings. */
  lemma UnassignedScreenEmpty(lower: string -> string, store: Store)
    ensures ViewStats([NoDeptRow.(beTime := "")], "", DeptView, Unassigned, lower).individualRecords == []
    ensures DownloadView([NoDeptRow.(beTime := "")], "", DeptView, Unassigned, lower, store).None?
  {
    var row := NoDeptRow.(beTime := "");
    FilterRowsMembers([row], "", DeptView, Unassigned, lower, row);
    assert DeptSelected(DeptView, Unassigned);
    assert FilterRows([row], "", DeptView, Unassigned, lower) == [];
  }
}
