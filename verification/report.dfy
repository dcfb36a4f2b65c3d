/** `analyzeData`: pass 1, then the long-work list from pass 2 over the
    same rows and the buckets pass 1 built. Its contract gathers what the
    two passes are proved to compute. */
module Report {
  import opened Options
  import opened Seqs
  import opened WorkTimes
  import opened WorkHours
  import opened Attendance
  import opened IsoWeek
  import opened Analytics
  import opened AnalyticsFacts

  /** The locals are the row's classification, hours, weekend flag and
      bucket key. */
  lemma LocalsOfRow(row: WorkTime)
    ensures Locals(row).kind == Classify(row).kind
    ensures Locals(row).status == Classify(row).labelText
    ensures Locals(row).hours == CalcWorkHours(row.beTime, row.edTime)
    ensures Locals(row).weekend == IsWeekend(row)
    ensures Locals(row).key == BucketOf(row) == WeekKey(row.empNum, WeekNumberOf(row.tmDate))
  {
  }

  /** `analyzeData(data)`: the counters are the numbers of rows of each
      kind and partition the input, the lists hold exactly the rows of
      their kind in input order, the detail list has one entry per row, the
      hour total is the sum over normal rows and the employee set is the set
      of employee numbers. The maps and the long-work list are described by
      the lemmas that follow. */
  function AnalyzeData(rows: seq<WorkTime>): (r: Stats)
    ensures r.working + r.offDuty + r.missing + r.absent == |rows|
    ensures r.working == Count(rows, IsKind(Locals, Normal))
    ensures r.offDuty == Count(rows, IsKind(Locals, OffDuty))
    ensures r.missing == Count(rows, IsKind(Locals, Missing))
    ensures r.absent == Count(rows, IsKind(Locals, Absent))
    ensures r.missingList == Filter(rows, IsKind(Locals, Missing))
    ensures r.absentList == Filter(rows, IsKind(Locals, Absent))
    ensures r.weekendList == MapSeq(Filter(rows, WorkedOnWeekend(Locals)), WeekendOf(Locals))
    ensures r.weekendWork == |r.weekendList|
    ensures r.individualRecords == MapSeq(rows, Annotate(Locals))
    ensures r.totalWorkHours == SumBy(Filter(rows, IsKind(Locals, Normal)), HoursBy(Locals))
    ensures r.totalEmp == Image(rows, ByEmp)
  {
    var st := Pass1(rows);
    var long := Pass2(rows, st.weeklyWork);
    FoldInvariants(rows, Locals);
    CountersFaithful(rows, Locals);
    ListsFaithful(rows, Locals);
    TotalsFaithful(rows, Locals);
    st.(longWorkList := long.0)
  }

  /** The maps and the long-work list of `analyzeData` are the component
      folds of pass 1 and pass 2 over the weekly buckets. */
  lemma AnalyzeMaps(rows: seq<WorkTime>)
    ensures AnalyzeData(rows).daily == DailyFold(rows, Locals)
    ensures AnalyzeData(rows).dept == DeptFold(rows, Locals)
    ensures AnalyzeData(rows).weeklyWork == WeeklyFold(rows, Locals)
    ensures AnalyzeData(rows).longWorkList == Pass2With(rows, BucketOf, WeeklyFold(rows, Locals)).0
  {
    FoldMaps(rows, Locals);
  }

  /** The per-date map of `analyzeData`: one aggregate per date occurring
      in the input, each the aggregate of exactly that date's rows. */
  lemma AnalyzeDaily(rows: seq<WorkTime>)
    ensures var r := AnalyzeData(rows);
            && r.daily.Keys == Image(rows, ByDate)
            && (forall d :: d in r.daily ==>
                  OnDate(rows, d) != [] && r.daily[d] == ExpectedDaily(rows, Locals, d))
  {
    AnalyzeMaps(rows);
    DailyFaithful(rows, Locals);
  }

  /** The date totals of `analyzeData` add up to the number of rows: every
      row is counted under exactly one date. */
  lemma AnalyzeDailyTotals(rows: seq<WorkTime>)
    ensures var m := AnalyzeData(rows).daily;
            && (forall d :: d in Distinct(MapSeq(rows, ByDate)) ==> d in m)
            && SumOver(Distinct(MapSeq(rows, ByDate)), m, DailyTotal) == |rows|
  {
    AnalyzeMaps(rows);
    DailyTotalsSum(rows, Locals);
  }

  /** The per-department map of `analyzeData`: one aggregate per
      department with a weekday row, each the aggregate of exactly that
      department's weekday rows. */
  lemma AnalyzeDepts(rows: seq<WorkTime>)
    ensures var r := AnalyzeData(rows);
            && r.dept.Keys == Image(Weekdays(rows, Locals), ByDept)
            && (forall k :: k in r.dept ==> r.dept[k] == ExpectedDept(rows, Locals, k))
  {
    AnalyzeMaps(rows);
    DeptFaithful(rows, Locals);
  }

  /** The department totals of `analyzeData` add up to the number of
      weekday rows: every weekday row is counted under exactly one
      department. */
  lemma AnalyzeDeptTotals(rows: seq<WorkTime>)
    ensures var m := AnalyzeData(rows).dept;
            var w := Weekdays(rows, Locals);
            && (forall k :: k in Distinct(MapSeq(w, ByDept)) ==> k in m)
            && SumOver(Distinct(MapSeq(w, ByDept)), m, DeptTotal) == |w|
  {
    AnalyzeMaps(rows);
    DeptTotalsSum(rows, Locals);
  }

  /** The weekly buckets of `analyzeData`: one per employee-week occurring
      in the input, holding the hours of its normal rows. */
  lemma AnalyzeWeekly(rows: seq<WorkTime>)
    ensures var r := AnalyzeData(rows);
            && r.weeklyWork.Keys == Image(rows, KeyBy(Locals))
            && forall key :: key in r.weeklyWork ==>
                 r.weeklyWork[key] == SumBy(BucketRows(rows, Locals, key), HoursBy(Locals))
  {
    AnalyzeMaps(rows);
    WeeklyFaithful(rows, Locals);
  }

  /** The long-work list of `analyzeData`: the over-threshold
      employee-weeks in the order their first row appears, each once, each
      showing that first row and its bucket's hours. */
  lemma AnalyzeLongWork(rows: seq<WorkTime>)
    ensures var r := AnalyzeData(rows);
            && MapSeq(r.longWorkList, KeyOf) == LongKeys(rows, BucketOf, r.weeklyWork)
            && forall i :: 0 <= i < |r.longWorkList| ==>
                 ShowsFirstRow(rows, BucketOf, r.weeklyWork, r.longWorkList[i])
                 && r.longWorkList[i].hours == SumBy(BucketRows(rows, Locals, KeyOf(r.longWorkList[i])), HoursBy(Locals))
                 && r.longWorkList[i].hours > LongWorkThreshold
  {
    AnalyzeMaps(rows);
    LongWorkOfStats(rows, AnalyzeData(rows));
  }

  /** The long-work property for statistics whose buckets are those of
      pass 1 and whose list is pass 2 over them. */
  lemma LongWorkOfStats(rows: seq<WorkTime>, r: Stats)
    requires r.weeklyWork == WeeklyFold(rows, Locals)
    requires r.longWorkList == Pass2With(rows, BucketOf, r.weeklyWork).0
    ensures MapSeq(r.longWorkList, KeyOf) == LongKeys(rows, BucketOf, r.weeklyWork)
    ensures forall i :: 0 <= i < |r.longWorkList| ==>
              ShowsFirstRow(rows, BucketOf, r.weeklyWork, r.longWorkList[i])
              && r.longWorkList[i].hours == SumBy(BucketRows(rows, Locals, KeyOf(r.longWorkList[i])), HoursBy(Locals))
              && r.longWorkList[i].hours > LongWorkThreshold
  {
    WeeklyFaithful(rows, Locals);
    LongWorkOf(rows, r.weeklyWork, r.longWorkList);
  }

  /** Pass 2 over buckets holding the hours of their normal rows. */
  lemma LongWorkOf(rows: seq<WorkTime>, weekly: map<WeekKey, int>, long: seq<LongWork>)
    requires forall key :: key in weekly ==> weekly[key] == SumBy(BucketRows(rows, Locals, key), HoursBy(Locals))
    requires long == Pass2With(rows, BucketOf, weekly).0
    ensures MapSeq(long, KeyOf) == LongKeys(rows, BucketOf, weekly)
    ensures forall i :: 0 <= i < |long| ==>
              ShowsFirstRow(rows, BucketOf, weekly, long[i])
              && long[i].hours == SumBy(BucketRows(rows, Locals, KeyOf(long[i])), HoursBy(Locals))
              && long[i].hours > LongWorkThreshold
  {
    LongWorkOrder(rows, BucketOf, weekly);
    LongWorkFirstRows(rows, BucketOf, weekly);
    BucketHours(rows, long, weekly);
  }

  /** Entries carrying their bucket's value carry the hours of the bucket's
      normal rows. */
  lemma BucketHours(rows: seq<WorkTime>, long: seq<LongWork>, weekly: map<WeekKey, int>)
    requires forall key :: key in weekly ==> weekly[key] == SumBy(BucketRows(rows, Locals, key), HoursBy(Locals))
    requires forall i :: 0 <= i < |long| ==>
               WeekKey(long[i].empNum, long[i].week) in weekly
               && long[i].hours == weekly[WeekKey(long[i].empNum, long[i].week)]
    ensures forall i :: 0 <= i < |long| ==>
              long[i].hours == SumBy(BucketRows(rows, Locals, KeyOf(long[i])), HoursBy(Locals))
  {
  }

  /** No rows: every counter zero, every list and map empty. */
  lemma AnalyzeEmpty()
    ensures AnalyzeData([]) == EmptyStats
  {
  }
}
