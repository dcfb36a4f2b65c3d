/** Declarative descriptions of what `analyzeData` computes, each proved
    equal to the left-to-right passes in `Analytics`. Counters are counts
    of a filter, lists are filters in input order, every map entry is the
    aggregate of exactly the rows carrying its key, and the long-work list
    holds one entry per over-threshold employee-week in the order of first
    occurrence. */
module AnalyticsFacts {
  import opened Options
  import opened Seqs
  import opened WorkTimes
  import opened Attendance
  import opened Analytics

  /* The facts hold for any per-row locals `info`; `Analytics.Pass1` is
     the instance with `InfoOf`. */

  function IsKind(info: WorkTime -> RowInfo, k: Kind): WorkTime -> bool {
    (row: WorkTime) => info(row).kind == k
  }

  function HoursBy(info: WorkTime -> RowInfo): WorkTime -> int {
    (row: WorkTime) => info(row).hours
  }

  function WorkedOnWeekend(info: WorkTime -> RowInfo): WorkTime -> bool {
    (row: WorkTime) => info(row).weekend && info(row).kind == Normal
  }

  function OnWeekday(info: WorkTime -> RowInfo): WorkTime -> bool {
    (row: WorkTime) => !info(row).weekend
  }

  /** The detail-list entry of one row. */
  function Annotate(info: WorkTime -> RowInfo): WorkTime -> Individual {
    (row: WorkTime) => Individual(row, info(row).hours, info(row).status)
  }

  /** The weekend-list entry of one row. */
  function WeekendOf(info: WorkTime -> RowInfo): WorkTime -> WeekendEntry {
    (row: WorkTime) => WeekendEntry(row, info(row).hours)
  }

  const ByEmp: WorkTime -> string := (row: WorkTime) => row.empNum
  const ByDate: WorkTime -> string := (row: WorkTime) => row.tmDate
  const ByDept: WorkTime -> string := (row: WorkTime) => DeptKey(row)

  function KeyBy(info: WorkTime -> RowInfo): WorkTime -> WeekKey {
    (row: WorkTime) => info(row).key
  }

  /* ---------- the three maps of pass 1 on their own ---------- */

  /** The per-date map of pass 1. */
  function DailyFold(rows: seq<WorkTime>, info: WorkTime -> RowInfo): map<string, DailyAgg>
    decreases |rows|
  {
    if rows == [] then map[]
    else DailyStep(DailyFold(rows[..|rows|-1], info), rows[|rows|-1], info(rows[|rows|-1]))
  }

  /** The per-department map of pass 1. */
  function DeptFold(rows: seq<WorkTime>, info: WorkTime -> RowInfo): map<string, DeptAgg>
    decreases |rows|
  {
    if rows == [] then map[]
    else DeptStep(DeptFold(rows[..|rows|-1], info), rows[|rows|-1], info(rows[|rows|-1]))
  }

  /** The weekly buckets of pass 1. */
  function WeeklyFold(rows: seq<WorkTime>, info: WorkTime -> RowInfo): map<WeekKey, int>
    decreases |rows|
  {
    if rows == [] then map[]
    else WeeklyStep(WeeklyFold(rows[..|rows|-1], info), info(rows[|rows|-1]))
  }

  /** Each map of pass 1 depends only on the earlier values of that map. */
  lemma {:induction false} FoldMaps(rows: seq<WorkTime>, info: WorkTime -> RowInfo)
    ensures Fold(rows, info).daily == DailyFold(rows, info)
    ensures Fold(rows, info).dept == DeptFold(rows, info)
    ensures Fold(rows, info).weeklyWork == WeeklyFold(rows, info)
    decreases |rows|
  {
    if rows != [] {
      FoldMaps(rows[..|rows|-1], info);
    }
  }

  /* ---------- counters and lists ---------- */

  /** Every counter is the number of rows of its kind. */
  lemma {:induction false} CountersFaithful(rows: seq<WorkTime>, info: WorkTime -> RowInfo)
    ensures Fold(rows, info).working == Count(rows, IsKind(info, Normal))
    ensures Fold(rows, info).offDuty == Count(rows, IsKind(info, OffDuty))
    ensures Fold(rows, info).missing == Count(rows, IsKind(info, Missing))
    ensures Fold(rows, info).absent == Count(rows, IsKind(info, Absent))
    ensures Fold(rows, info).weekendWork == Count(rows, WorkedOnWeekend(info))
    decreases |rows|
  {
    if rows != [] {
      CountersFaithful(rows[..|rows|-1], info);
    }
  }

  /** The missing and absent lists hold exactly the rows of their kind, the
      weekend list the normal weekend rows, and the detail list every row,
      all in input order. */
  lemma {:induction false} ListsFaithful(rows: seq<WorkTime>, info: WorkTime -> RowInfo)
    ensures Fold(rows, info).missingList == Filter(rows, IsKind(info, Missing))
    ensures Fold(rows, info).absentList == Filter(rows, IsKind(info, Absent))
    ensures Fold(rows, info).weekendList == MapSeq(Filter(rows, WorkedOnWeekend(info)), WeekendOf(info))
    ensures Fold(rows, info).individualRecords == MapSeq(rows, Annotate(info))
    decreases |rows|
  {
    if rows != [] {
      var pre := rows[..|rows|-1];
      var x := rows[|rows|-1];
      ListsFaithful(pre, info);
      if info(x).weekend && info(x).kind == Normal {
        MapSeqSnoc(Filter(pre, WorkedOnWeekend(info)), x, WeekendOf(info));
      }
    }
  }

  /** The hour total is the sum over normal rows, and the employee set is
      the set of employee numbers. */
  lemma {:induction false} TotalsFaithful(rows: seq<WorkTime>, info: WorkTime -> RowInfo)
    ensures Fold(rows, info).totalWorkHours == SumBy(Filter(rows, IsKind(info, Normal)), HoursBy(info))
    ensures Fold(rows, info).totalEmp == Image(rows, ByEmp)
    decreases |rows|
  {
    if rows != [] {
      var pre := rows[..|rows|-1];
      var x := rows[|rows|-1];
      TotalsFaithful(pre, info);
      if info(x).kind == Normal {
        SumBySnoc(Filter(pre, IsKind(info, Normal)), x, HoursBy(info));
      }
    }
  }

  /** Appending a row adds one to the count of its kind only. */
  lemma KindCountsSnoc(on: seq<WorkTime>, x: WorkTime, info: WorkTime -> RowInfo)
    ensures forall k: Kind :: Count(on + [x], IsKind(info, k)) == Count(on, IsKind(info, k)) + Ind(info(x).kind == k)
  {
    forall k: Kind
      ensures Count(on + [x], IsKind(info, k)) == Count(on, IsKind(info, k)) + Ind(info(x).kind == k)
    {
      FilterSnoc(on, x, IsKind(info, k));
    }
  }

  /** Appending a row adds its hours to the sum over normal rows only. */
  lemma NormalHoursSnoc(on: seq<WorkTime>, x: WorkTime, info: WorkTime -> RowInfo)
    ensures SumBy(Filter(on + [x], IsKind(info, Normal)), HoursBy(info))
            == SumBy(Filter(on, IsKind(info, Normal)), HoursBy(info)) + (if info(x).kind == Normal then info(x).hours else 0)
  {
    FilterSnoc(on, x, IsKind(info, Normal));
    if info(x).kind == Normal {
      SumBySnoc(Filter(on, IsKind(info, Normal)), x, HoursBy(info));
    }
  }

  /* ---------- per-date aggregates ---------- */

  /** The rows of one date, in input order. */
  function OnDate(rows: seq<WorkTime>, d: string): seq<WorkTime> {
    Filter(rows, Hits(ByDate, d))
  }

  /** The aggregate of a date computed from its rows alone; weekday label
      and weekend flag are those of its first row. */
  function ExpectedDaily(rows: seq<WorkTime>, info: WorkTime -> RowInfo, d: string): DailyAgg
    requires OnDate(rows, d) != []
  {
    var on := OnDate(rows, d);
    DailyAgg(d, on[0].weekTx, |on|,
             Count(on, IsKind(info, Normal)), Count(on, IsKind(info, OffDuty)),
             Count(on, IsKind(info, Missing)), Count(on, IsKind(info, Absent)),
             info(on[0]).weekend)
  }

  /** There is a date aggregate for exactly the dates occurring in `rows`. */
  lemma {:induction false} DailyKeys(rows: seq<WorkTime>, info: WorkTime -> RowInfo)
    ensures DailyFold(rows, info).Keys == Image(rows, ByDate)
    decreases |rows|
  {
    if rows != [] {
      DailyKeys(rows[..|rows|-1], info);
    }
  }

  /** The aggregate of the appended row's date after one more row. */
  lemma DailyStepSame(rows: seq<WorkTime>, info: WorkTime -> RowInfo)
    requires rows != []
    requires var pre := rows[..|rows|-1];
             var d := rows[|rows|-1].tmDate;
             (d in DailyFold(pre, info) ==>
                OnDate(pre, d) != [] && DailyFold(pre, info)[d] == ExpectedDaily(pre, info, d))
             && (d !in DailyFold(pre, info) ==> d !in Image(pre, ByDate))
    ensures var d := rows[|rows|-1].tmDate;
            d in DailyFold(rows, info) && OnDate(rows, d) != []
            && DailyFold(rows, info)[d] == ExpectedDaily(rows, info, d)
  {
    var pre := rows[..|rows|-1];
    var x := rows[|rows|-1];
    var d := x.tmDate;
    var on := OnDate(pre, d);
    assert OnDate(rows, d) == on + [x];
    KindCountsSnoc(on, x, info);
    var m := DailyFold(pre, info);
    assert DailyFold(rows, info) == DailyStep(m, x, info(x));
    if d !in m {
      FilterHitsEmpty(pre, ByDate, d);
    }
  }

  /** Each date aggregate is exactly the aggregate of that date's rows, and
      there is one per date occurring in the input. */
  lemma {:induction false} DailyFaithful(rows: seq<WorkTime>, info: WorkTime -> RowInfo)
    ensures DailyFold(rows, info).Keys == Image(rows, ByDate)
    ensures forall d :: d in DailyFold(rows, info) ==>
              OnDate(rows, d) != [] && DailyFold(rows, info)[d] == ExpectedDaily(rows, info, d)
    decreases |rows|
  {
    if rows != [] {
      var pre := rows[..|rows|-1];
      var x := rows[|rows|-1];
      DailyFaithful(pre, info);
      DailyStepSame(rows, info);
      var daily := DailyFold(rows, info);
      forall d | d in daily && d != x.tmDate
        ensures OnDate(rows, d) != [] && daily[d] == ExpectedDaily(rows, info, d)
      {
        assert OnDate(rows, d) == OnDate(pre, d);
      }
    }
  }

  /* ---------- per-department aggregates ---------- */

  /** The rows that do not fall on a weekend, in input order. */
  function Weekdays(rows: seq<WorkTime>, info: WorkTime -> RowInfo): seq<WorkTime> {
    Filter(rows, OnWeekday(info))
  }

  /** The weekday rows of one department, in input order. */
  function DeptRows(rows: seq<WorkTime>, info: WorkTime -> RowInfo, k: string): seq<WorkTime> {
    Filter(Weekdays(rows, info), Hits(ByDept, k))
  }

  /** The aggregate of a department computed from its weekday rows alone. */
  function ExpectedDept(rows: seq<WorkTime>, info: WorkTime -> RowInfo, k: string): DeptAgg {
    DeptAggOf(DeptRows(rows, info, k), info, k)
  }

  /** The aggregate named `k` of the rows `on`. */
  function DeptAggOf(on: seq<WorkTime>, info: WorkTime -> RowInfo, k: string): DeptAgg {
    DeptAgg(k, |on|,
            Count(on, IsKind(info, Normal)), Count(on, IsKind(info, Missing)), Count(on, IsKind(info, Absent)),
            SumBy(Filter(on, IsKind(info, Normal)), HoursBy(info)), Image(on, ByEmp))
  }

  /** There is a department aggregate for exactly the departments of the
      weekday rows. */
  lemma {:induction false} DeptKeys(rows: seq<WorkTime>, info: WorkTime -> RowInfo)
    ensures DeptFold(rows, info).Keys == Image(Weekdays(rows, info), ByDept)
    decreases |rows|
  {
    if rows != [] {
      var pre := rows[..|rows|-1];
      var x := rows[|rows|-1];
      DeptKeys(pre, info);
      if !info(x).weekend {
        assert Weekdays(rows, info) == Weekdays(pre, info) + [x];
        ImageSnoc(Weekdays(pre, info), x, ByDept);
      }
    }
  }

  /** The aggregate of the appended weekday row's department. */
  lemma DeptStepSame(rows: seq<WorkTime>, info: WorkTime -> RowInfo)
    requires rows != [] && !info(rows[|rows|-1]).weekend
    requires var pre := rows[..|rows|-1];
             var k := DeptKey(rows[|rows|-1]);
             (k in DeptFold(pre, info) ==> DeptFold(pre, info)[k] == ExpectedDept(pre, info, k))
             && (k !in DeptFold(pre, info) ==> k !in Image(Weekdays(pre, info), ByDept))
    ensures var k := DeptKey(rows[|rows|-1]);
            k in DeptFold(rows, info) && DeptFold(rows, info)[k] == ExpectedDept(rows, info, k)
  {
    var pre := rows[..|rows|-1];
    var x := rows[|rows|-1];
    var k := DeptKey(x);
    var d0 := DeptFold(pre, info);
    assert DeptFold(rows, info) == DeptStep(d0, x, info(x));
    DeptRowsSnoc(rows, info);
    var before := if k in d0 then d0[k] else DeptAgg(k, 0, 0, 0, 0, 0, {});
    if k !in d0 {
      DeptNoRows(pre, info, k);
    }
    DeptAggStep(pre, x, info, k, before);
  }

  /** A weekday row joins the rows of its own department. */
  lemma DeptRowsSnoc(rows: seq<WorkTime>, info: WorkTime -> RowInfo)
    requires rows != [] && !info(rows[|rows|-1]).weekend
    ensures var pre := rows[..|rows|-1];
            var x := rows[|rows|-1];
            DeptRows(rows, info, DeptKey(x)) == DeptRows(pre, info, DeptKey(x)) + [x]
  {
    var pre := rows[..|rows|-1];
    var x := rows[|rows|-1];
    var w := Weekdays(pre, info);
    assert Weekdays(rows, info) == w + [x];
    FilterSnoc(w, x, Hits(ByDept, DeptKey(x)));
  }

  /** A department with no weekday row has the empty aggregate. */
  lemma DeptNoRows(rows: seq<WorkTime>, info: WorkTime -> RowInfo, k: string)
    requires k !in Image(Weekdays(rows, info), ByDept)
    ensures ExpectedDept(rows, info, k) == DeptAgg(k, 0, 0, 0, 0, 0, {})
  {
    FilterHitsEmpty(Weekdays(rows, info), ByDept, k);
  }

  /** Adding one weekday row of department `k` to the aggregate of the
      department's earlier weekday rows gives the aggregate with it. */
  lemma DeptAggStep(pre: seq<WorkTime>, x: WorkTime, info: WorkTime -> RowInfo, k: string, before: DeptAgg)
    requires before == ExpectedDept(pre, info, k)
    ensures var kind := info(x).kind;
            before.(total := before.total + 1,
                    empCount := before.empCount + {x.empNum},
                    normal := before.normal + Ind(kind == Normal),
                    workSum := before.workSum + (if kind == Normal then info(x).hours else 0),
                    missing := before.missing + Ind(kind == Missing),
                    absent := before.absent + Ind(kind == Absent))
            == DeptAggOf(DeptRows(pre, info, k) + [x], info, k)
  {
    var on := DeptRows(pre, info, k);
    KindCountsSnoc(on, x, info);
    NormalHoursSnoc(on, x, info);
    ImageSnoc(on, x, ByEmp);
  }

  /** Each department aggregate is exactly the aggregate of that
      department's weekday rows, and there is one per department with a
      weekday row. */
  lemma {:induction false} DeptFaithful(rows: seq<WorkTime>, info: WorkTime -> RowInfo)
    ensures DeptFold(rows, info).Keys == Image(Weekdays(rows, info), ByDept)
    ensures forall k :: k in DeptFold(rows, info) ==> DeptFold(rows, info)[k] == ExpectedDept(rows, info, k)
    decreases |rows|
  {
    if rows != [] {
      var pre := rows[..|rows|-1];
      var x := rows[|rows|-1];
      DeptFaithful(pre, info);
      if !info(x).weekend {
        DeptStepSame(rows, info);
        var w := Weekdays(pre, info);
        assert Weekdays(rows, info) == w + [x];
        ImageSnoc(w, x, ByDept);
        var dept := DeptFold(rows, info);
        forall k | k in dept && k != DeptKey(x)
          ensures dept[k] == ExpectedDept(rows, info, k)
        {
          FilterSnoc(w, x, Hits(ByDept, k));
        }
      }
    }
  }

  /* ---------- weekly buckets ---------- */

  /** The normal rows of one employee-week, in input order. */
  function BucketRows(rows: seq<WorkTime>, info: WorkTime -> RowInfo, key: WeekKey): seq<WorkTime> {
    Filter(Filter(rows, Hits(KeyBy(info), key)), IsKind(info, Normal))
  }

  /** There is a bucket for every employee-week occurring in the input,
      holding the hours of its normal rows. */
  lemma {:induction false} WeeklyFaithful(rows: seq<WorkTime>, info: WorkTime -> RowInfo)
    ensures WeeklyFold(rows, info).Keys == Image(rows, KeyBy(info))
    ensures forall key :: key in WeeklyFold(rows, info) ==>
              WeeklyFold(rows, info)[key] == SumBy(BucketRows(rows, info, key), HoursBy(info))
    decreases |rows|
  {
    if rows != [] {
      var pre := rows[..|rows|-1];
      var x := rows[|rows|-1];
      WeeklyFaithful(pre, info);
      var weekly := WeeklyFold(rows, info);
      forall key | key in weekly
        ensures weekly[key] == SumBy(BucketRows(rows, info, key), HoursBy(info))
      {
        if info(x).key == key {
          var hit := Filter(pre, Hits(KeyBy(info), key));
          assert Filter(rows, Hits(KeyBy(info), key)) == hit + [x];
          NormalHoursSnoc(hit, x, info);
          if key !in WeeklyFold(pre, info) {
            FilterHitsEmpty(pre, KeyBy(info), key);
          }
        }
      }
    }
  }

  /* ---------- totals over the maps ---------- */

  const DailyTotal: DailyAgg -> int := (a: DailyAgg) => a.total as int
  const DeptTotal: DeptAgg -> int := (a: DeptAgg) => a.total as int

  /** Every row is counted in exactly one date aggregate: the totals over
      the distinct dates add up to the number of rows. */
  lemma {:induction false} DailyTotalsSum(rows: seq<WorkTime>, info: WorkTime -> RowInfo)
    ensures forall d :: d in Distinct(MapSeq(rows, ByDate)) ==> d in DailyFold(rows, info)
    ensures SumOver(Distinct(MapSeq(rows, ByDate)), DailyFold(rows, info), DailyTotal) == |rows|
    decreases |rows|
  {
    if rows != [] {
      var pre := rows[..|rows|-1];
      var x := rows[|rows|-1];
      var d := x.tmDate;
      DailyTotalsSum(pre, info);
      DailyKeys(pre, info);
      var ds := Distinct(MapSeq(pre, ByDate));
      DistinctSnoc(MapSeq(pre, ByDate), d);
      var m := DailyFold(pre, info);
      var m' := DailyFold(rows, info);
      assert m' == m[d := m'[d]];
      if d in ds {
        SumOverUpdatePresent(ds, m, DailyTotal, d, m'[d]);
      } else {
        DistinctMembers(MapSeq(pre, ByDate), d);
        ImageMapSeq(pre, ByDate, d);
        SumOverUpdateAbsent(ds, m, DailyTotal, d, m'[d]);
        SumOverSnoc(ds, d, m', DailyTotal);
      }
    }
  }

  /** Every weekday row is counted in exactly one department aggregate. */
  lemma {:induction false} DeptTotalsSum(rows: seq<WorkTime>, info: WorkTime -> RowInfo)
    ensures forall k :: k in Distinct(MapSeq(Weekdays(rows, info), ByDept)) ==> k in DeptFold(rows, info)
    ensures SumOver(Distinct(MapSeq(Weekdays(rows, info), ByDept)), DeptFold(rows, info), DeptTotal)
            == |Weekdays(rows, info)|
    decreases |rows|
  {
    if rows != [] {
      var pre := rows[..|rows|-1];
      var x := rows[|rows|-1];
      DeptTotalsSum(pre, info);
      if !info(x).weekend {
        DeptTotalsStep(rows, info);
      } else {
        assert Weekdays(rows, info) == Weekdays(pre, info);
      }
    }
  }

  /** One weekday row adds one to its department's total and keeps the
      other totals. */
  lemma DeptTotalsStep(rows: seq<WorkTime>, info: WorkTime -> RowInfo)
    requires rows != [] && !info(rows[|rows|-1]).weekend
    requires var w := Weekdays(rows[..|rows|-1], info);
             var m := DeptFold(rows[..|rows|-1], info);
             && (forall k :: k in Distinct(MapSeq(w, ByDept)) ==> k in m)
             && SumOver(Distinct(MapSeq(w, ByDept)), m, DeptTotal) == |w|
    ensures forall k :: k in Distinct(MapSeq(Weekdays(rows, info), ByDept)) ==> k in DeptFold(rows, info)
    ensures SumOver(Distinct(MapSeq(Weekdays(rows, info), ByDept)), DeptFold(rows, info), DeptTotal)
            == |Weekdays(rows, info)|
  {
    var pre := rows[..|rows|-1];
    var x := rows[|rows|-1];
    var k := DeptKey(x);
    DeptKeys(pre, info);
    var w := Weekdays(pre, info);
    assert Weekdays(rows, info) == w + [x];
    MapSeqSnoc(w, x, ByDept);
    var ks := Distinct(MapSeq(w, ByDept));
    DistinctSnoc(MapSeq(w, ByDept), k);
    var m := DeptFold(pre, info);
    var m' := DeptFold(rows, info);
    DeptFoldBump(rows, info);
    DistinctMembers(MapSeq(w, ByDept), k);
    ImageMapSeq(w, ByDept, k);
    assert k in ks <==> k in m;
    SumOverBump(ks, m, m', DeptTotal, k, |w|);
  }

  /** A weekday row changes only its own department's aggregate, whose
      total goes up by one (from zero for a new department). */
  lemma DeptFoldBump(rows: seq<WorkTime>, info: WorkTime -> RowInfo)
    requires rows != [] && !info(rows[|rows|-1]).weekend
    ensures var m := DeptFold(rows[..|rows|-1], info);
            var m' := DeptFold(rows, info);
            var k := DeptKey(rows[|rows|-1]);
            k in m' && m' == m[k := m'[k]]
            && m'[k].total == (if k in m then m[k].total else 0) + 1
  {
  }

  /** Adding one to the value of key `k` (a new key starting at one) adds
      one to the sum over the keys, `k` appended when it is new. */
  lemma SumOverBump<V>(ks: seq<string>, m: map<string, V>, m': map<string, V>, f: V -> int, k: string, n: int)
    requires forall j :: j in ks ==> j in m
    requires NoDuplicates(ks)
    requires SumOver(ks, m, f) == n
    requires k in m' && m' == m[k := m'[k]]
    requires k in ks ==> f(m'[k]) == f(m[k]) + 1
    requires k !in ks ==> f(m'[k]) == 1
    ensures var ks' := if k in ks then ks else ks + [k];
            (forall j :: j in ks' ==> j in m') && SumOver(ks', m', f) == n + 1
  {
    if k in ks {
      SumOverUpdatePresent(ks, m, f, k, m'[k]);
    } else {
      SumOverUpdateAbsent(ks, m, f, k, m'[k]);
      SumOverSnoc(ks, k, m', f);
    }
  }

  /* ---------- pass 2: the long-work list ---------- */

  function KeyOf(e: LongWork): WeekKey {
    WeekKey(e.empNum, e.week)
  }

  function LongIn(weekly: map<WeekKey, int>): WeekKey -> bool {
    (key: WeekKey) => IsLong(weekly, key)
  }

  /** The over-threshold keys in the order their first row appears. */
  function LongKeys(rows: seq<WorkTime>, keyOf: WorkTime -> WeekKey, weekly: map<WeekKey, int>): seq<WeekKey> {
    Filter(Distinct(MapSeq(rows, keyOf)), LongIn(weekly))
  }

  /** The over-threshold keys occurring in `rows`. */
  function LongKeySet(rows: seq<WorkTime>, keyOf: WorkTime -> WeekKey, weekly: map<WeekKey, int>): set<WeekKey> {
    set k | k in Image(rows, keyOf) && IsLong(weekly, k)
  }

  /** An entry built from the first row carrying its key. */
  predicate ShowsFirstRow(rows: seq<WorkTime>, keyOf: WorkTime -> WeekKey, weekly: map<WeekKey, int>, e: LongWork) {
    var j := FirstIndex(rows, Hits(keyOf, KeyOf(e)));
    j < |rows| && KeyOf(e) in weekly && e == LongWorkEntry(rows[j], KeyOf(e), weekly)
  }

  /** With nothing kept by the filter, no index satisfies the predicate. */
  lemma {:induction false} FirstIndexNone<T>(s: seq<T>, p: T -> bool)
    requires Filter(s, p) == []
    ensures FirstIndex(s, p) == |s|
    decreases |s|
  {
    if s != [] {
      FirstIndexNone(s[..|s|-1], p);
    }
  }

  /** Pass 2 has emitted exactly the over-threshold keys seen so far. */
  lemma {:induction false} EmittedKeys(rows: seq<WorkTime>, keyOf: WorkTime -> WeekKey, weekly: map<WeekKey, int>)
    ensures Pass2With(rows, keyOf, weekly).1 == LongKeySet(rows, keyOf, weekly)
    decreases |rows|
  {
    if rows != [] {
      EmittedKeys(rows[..|rows|-1], keyOf, weekly);
    }
  }

  /** Pass 2 emits the over-threshold keys in the order their first row
      appears, each once. */
  lemma {:induction false} LongWorkOrder(rows: seq<WorkTime>, keyOf: WorkTime -> WeekKey, weekly: map<WeekKey, int>)
    ensures MapSeq(Pass2With(rows, keyOf, weekly).0, KeyOf) == LongKeys(rows, keyOf, weekly)
    decreases |rows|
  {
    if rows != [] {
      var pre := rows[..|rows|-1];
      var x := rows[|rows|-1];
      var key := keyOf(x);
      LongWorkOrder(pre, keyOf, weekly);
      EmittedKeys(pre, keyOf, weekly);
      var prev := Pass2With(pre, keyOf, weekly);
      var ks := MapSeq(pre, keyOf);
      DistinctSnoc(ks, key);
      DistinctMembers(ks, key);
      ImageMapSeq(pre, keyOf, key);
      if key !in Distinct(ks) {
        FilterSnoc(Distinct(ks), key, LongIn(weekly));
        if IsLong(weekly, key) {
          MapSeqSnoc(prev.0, LongWorkEntry(x, key, weekly), KeyOf);
        }
      }
    }
  }

  /** Every entry pass 2 emits shows the first row carrying its key. */
  lemma {:induction false} LongWorkFirstRows(rows: seq<WorkTime>, keyOf: WorkTime -> WeekKey, weekly: map<WeekKey, int>)
    ensures forall i :: 0 <= i < |Pass2With(rows, keyOf, weekly).0| ==>
              ShowsFirstRow(rows, keyOf, weekly, Pass2With(rows, keyOf, weekly).0[i])
    decreases |rows|
  {
    if rows != [] {
      var pre := rows[..|rows|-1];
      var x := rows[|rows|-1];
      var key := keyOf(x);
      LongWorkFirstRows(pre, keyOf, weekly);
      EmittedKeys(pre, keyOf, weekly);
      var prev := Pass2With(pre, keyOf, weekly);
      forall i | 0 <= i < |prev.0|
        ensures ShowsFirstRow(rows, keyOf, weekly, prev.0[i])
      {
        assert ShowsFirstRow(pre, keyOf, weekly, prev.0[i]);
      }
      if key !in prev.1 && IsLong(weekly, key) {
        FilterHitsEmpty(pre, keyOf, key);
        FirstIndexNone(pre, Hits(keyOf, key));
        assert ShowsFirstRow(rows, keyOf, weekly, LongWorkEntry(x, key, weekly));
      }
    }
  }

  /** No rows, nothing counted. */
  lemma EmptyInput(info: WorkTime -> RowInfo, keyOf: WorkTime -> WeekKey, weekly: map<WeekKey, int>)
    ensures Fold([], info) == EmptyStats
    ensures Pass2With([], keyOf, weekly) == ([], {})
  {
  }
}
