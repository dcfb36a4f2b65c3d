/** The two passes of `analyzeData` over a batch of rows. Pass 1 folds
    every row into the counters, the missing/absent/weekend lists, the
    per-date and per-department aggregates and the per-(employee, week)
    hour buckets; pass 2 walks the rows again and lists each
    employee-week whose bucket exceeds 50 hours, once. Hours are tenths. */
module Analytics {
  import opened Options
  import opened Text
  import opened WorkTimes
  import opened WorkHours
  import opened Attendance
  import opened IsoWeek

  /** Department name shown for a row whose department is empty. */
  const Unassigned := "미지정"
  /** Weekly hours above which an employee-week is listed: 50.0 hours. */
  const LongWorkThreshold := 500

  /** The department key of a row: its name, or `Unassigned` when empty. */
  function DeptKey(row: WorkTime): (k: string)
    ensures k != ""
    ensures row.orgTxt != "" ==> k == row.orgTxt
    ensures row.orgTxt == "" ==> k == Unassigned
  {
    if row.orgTxt == "" then Unassigned else row.orgTxt
  }

  function KindOf(row: WorkTime): Kind {
    Classify(row).kind
  }

  function HoursOf(row: WorkTime): int {
    CalcWorkHours(row.beTime, row.edTime)
  }

  /** A row that counts as worked on a weekend. */
  predicate IsWeekendWork(row: WorkTime) {
    IsWeekend(row) && KindOf(row) == Normal
  }

  /** The bucket `${EMPNUM}-${weekNumber}`; a week of None is the `NaN`
      produced by an unparsable date. */
  datatype WeekKey = WeekKey(empNum: string, week: Option<int>)

  function WeekKeyOf(row: WorkTime): WeekKey {
    WeekKey(row.empNum, WeekNumberOf(row.tmDate))
  }

  /** A row of the detail list: the record, its hours and its status label. */
  datatype Individual = Individual(row: WorkTime, hours: int, status: string)

  /** A row of the weekend-work list. */
  datatype WeekendEntry = WeekendEntry(row: WorkTime, hours: int)

  /** Counts for one date; weekday label and weekend flag come from the
      first row seen for the date. */
  datatype DailyAgg = DailyAgg(
    date: string, weekday: string,
    total: nat, working: nat, offDuty: nat, missing: nat, absent: nat,
    isWeekend: bool)

  /** Counts for one department over weekday rows only; there is no
      off-duty counter. */
  datatype DeptAgg = DeptAgg(
    name: string, total: nat, normal: nat, missing: nat, absent: nat,
    workSum: int, empCount: set<string>)

  /** One employee-week above the threshold; name and department are the
      raw fields of the first row with that key. */
  datatype LongWork = LongWork(empNum: string, name: string, dept: string, week: Option<int>, hours: int)

  /** The value `analyzeData` returns. */
  datatype Stats = Stats(
    totalEmp: set<string>,
    working: nat, offDuty: nat, missing: nat, absent: nat,
    totalWorkHours: int, weekendWork: nat,
    missingList: seq<WorkTime>, absentList: seq<WorkTime>, weekendList: seq<WeekendEntry>,
    daily: map<string, DailyAgg>, dept: map<string, DeptAgg>,
    weeklyWork: map<WeekKey, int>,
    longWorkList: seq<LongWork>,
    individualRecords: seq<Individual>)

  const EmptyStats := Stats({}, 0, 0, 0, 0, 0, 0, [], [], [], map[], map[], map[], [], [])

  function Ind(b: bool): nat {
    if b then 1 else 0
  }

  /** The values the loop body computes for a row before touching the
      accumulators: its classification, its hours, whether it falls on a
      weekend, and its weekly bucket. */
  datatype RowInfo = RowInfo(kind: Kind, status: string, hours: int, weekend: bool, key: WeekKey)

  /** The locals of the first `forEach` for one row. */
  function InfoOf(row: WorkTime): (i: RowInfo)
    ensures i.kind == KindOf(row) && i.hours == HoursOf(row)
    ensures i.weekend == IsWeekend(row) && i.key == WeekKeyOf(row)
  {
    var c := Classify(row);
    RowInfo(c.kind, c.labelText, HoursOf(row), IsWeekend(row), WeekKeyOf(row))
  }

  /** One row added to the per-date aggregates. */
  function DailyStep(daily: map<string, DailyAgg>, row: WorkTime, info: RowInfo): map<string, DailyAgg> {
    var date := row.tmDate;
    var kind := info.kind;
    var e := if date in daily then daily[date]
             else DailyAgg(date, row.weekTx, 0, 0, 0, 0, 0, info.weekend);
    daily[date := e.(total := e.total + 1,
                     working := e.working + Ind(kind == Normal),
                     offDuty := e.offDuty + Ind(kind == OffDuty),
                     missing := e.missing + Ind(kind == Missing),
                     absent := e.absent + Ind(kind == Absent))]
  }

  /** One row added to the per-department aggregates; weekend rows are skipped. */
  function DeptStep(dept: map<string, DeptAgg>, row: WorkTime, info: RowInfo): map<string, DeptAgg> {
    if info.weekend then dept
    else
      var k := DeptKey(row);
      var kind := info.kind;
      var e := if k in dept then dept[k] else DeptAgg(k, 0, 0, 0, 0, 0, {});
      dept[k := e.(total := e.total + 1,
                   empCount := e.empCount + {row.empNum},
                   normal := e.normal + Ind(kind == Normal),
                   workSum := e.workSum + (if kind == Normal then info.hours else 0),
                   missing := e.missing + Ind(kind == Missing),
                   absent := e.absent + Ind(kind == Absent))]
  }

  /** One row added to the weekly buckets: the bucket is created for every
      row, and only normal rows add their hours. */
  function WeeklyStep(weekly: map<WeekKey, int>, info: RowInfo): map<WeekKey, int> {
    var base := if info.key in weekly then weekly[info.key] else 0;
    weekly[info.key := base + (if info.kind == Normal then info.hours else 0)]
  }

  /** The body of the first `data.forEach` for one row. */
  function Step(st: Stats, row: WorkTime, info: RowInfo): Stats {
    var kind := info.kind;
    var worked := kind == Normal;
    Stats(
      st.totalEmp + {row.empNum},
      st.working + Ind(worked),
      st.offDuty + Ind(kind == OffDuty),
      st.missing + Ind(kind == Missing),
      st.absent + Ind(kind == Absent),
      st.totalWorkHours + (if worked then info.hours else 0),
      st.weekendWork + Ind(info.weekend && worked),
      if kind == Missing then st.missingList + [row] else st.missingList,
      if kind == Absent then st.absentList + [row] else st.absentList,
      if info.weekend && worked then st.weekendList + [WeekendEntry(row, info.hours)] else st.weekendList,
      DailyStep(st.daily, row, info),
      DeptStep(st.dept, row, info),
      WeeklyStep(st.weeklyWork, info),
      st.longWorkList,
      st.individualRecords + [Individual(row, info.hours, info.status)])
  }

  /** One row adds one to exactly one of the four counters, adds its
      employee number to the set, appends one detail entry and leaves the
      long-work list alone. */
  lemma StepEffect(st: Stats, row: WorkTime, info: RowInfo)
    ensures var r := Step(st, row, info);
            && r.working + r.offDuty + r.missing + r.absent == st.working + st.offDuty + st.missing + st.absent + 1
            && r.totalEmp == st.totalEmp + {row.empNum}
            && |r.individualRecords| == |st.individualRecords| + 1
            && r.individualRecords[..|st.individualRecords|] == st.individualRecords
            && r.longWorkList == st.longWorkList
  {
  }

  /** Pass 1 over `rows`, with `info` giving each row's locals: the state
      after the first `forEach`. */
  function Fold(rows: seq<WorkTime>, info: WorkTime -> RowInfo): Stats
    decreases |rows|
  {
    if rows == [] then EmptyStats
    else
      var x := rows[|rows|-1];
      Step(Fold(rows[..|rows|-1], info), x, info(x))
  }

  /** The invariants of pass 1: the four counters partition the rows,
      every row has a detail entry, the lists are as long as their
      counters, every date aggregate's four counts add up to its total,
      no department counts more classified rows than it has, and the
      long-work list is still empty. */
  lemma {:induction false} FoldInvariants(rows: seq<WorkTime>, info: WorkTime -> RowInfo)
    ensures var r := Fold(rows, info);
            && r.working + r.offDuty + r.missing + r.absent == |rows|
            && |r.individualRecords| == |rows|
            && |r.missingList| == r.missing && |r.absentList| == r.absent
            && |r.weekendList| == r.weekendWork
            && (forall d :: d in r.daily ==>
                  r.daily[d].working + r.daily[d].offDuty + r.daily[d].missing + r.daily[d].absent == r.daily[d].total)
            && (forall k :: k in r.dept ==>
                  r.dept[k].normal + r.dept[k].missing + r.dept[k].absent <= r.dept[k].total)
            && r.longWorkList == []
    decreases |rows|
  {
    if rows != [] {
      FoldInvariants(rows[..|rows|-1], info);
    }
  }

  /** `InfoOf` as a function value. */
  const Locals: WorkTime -> RowInfo := (row: WorkTime) => InfoOf(row)

  /** `WeekKeyOf` as a function value. */
  const BucketOf: WorkTime -> WeekKey := (row: WorkTime) => WeekKeyOf(row)

  /** Pass 1 with the locals `analyzeData` computes. */
  function Pass1(rows: seq<WorkTime>): (r: Stats)
    ensures r.working + r.offDuty + r.missing + r.absent == |rows| == |r.individualRecords|
    ensures |r.missingList| == r.missing && |r.absentList| == r.absent
    ensures r.longWorkList == []
  {
    FoldInvariants(rows, Locals);
    Fold(rows, Locals)
  }

  /** The entry pass 2 emits for a row whose bucket `key` is over the
      threshold; the key carries the row's employee number and week. */
  function LongWorkEntry(row: WorkTime, key: WeekKey, weekly: map<WeekKey, int>): LongWork
    requires key in weekly
  {
    LongWork(key.empNum, row.nameKo, row.orgTxt, key.week, weekly[key])
  }

  /** A bucket over the threshold. */
  predicate IsLong(weekly: map<WeekKey, int>, key: WeekKey) {
    key in weekly && weekly[key] > LongWorkThreshold
  }

  /** Pass 2 over `rows` with `keyOf` giving each row's bucket: the entries
      emitted and the keys already emitted (`processedWeeks`). Every
      emitted entry is over the threshold, carries the bucket's total, and
      no key is emitted twice. */
  function Pass2With(rows: seq<WorkTime>, keyOf: WorkTime -> WeekKey, weekly: map<WeekKey, int>): (r: (seq<LongWork>, set<WeekKey>))
    ensures forall i :: 0 <= i < |r.0| ==> r.0[i].hours > LongWorkThreshold
    ensures forall i :: 0 <= i < |r.0| ==>
              WeekKey(r.0[i].empNum, r.0[i].week) in weekly
              && r.0[i].hours == weekly[WeekKey(r.0[i].empNum, r.0[i].week)]
    ensures forall i, j :: 0 <= i < j < |r.0| ==>
              WeekKey(r.0[i].empNum, r.0[i].week) != WeekKey(r.0[j].empNum, r.0[j].week)
    ensures forall i :: 0 <= i < |r.0| ==> WeekKey(r.0[i].empNum, r.0[i].week) in r.1
    ensures forall k :: k in r.1 ==> IsLong(weekly, k)
    decreases |rows|
  {
    if rows == [] then ([], {})
    else
      var prev := Pass2With(rows[..|rows|-1], keyOf, weekly);
      var row := rows[|rows|-1];
      var key := keyOf(row);
      if key !in prev.1 && IsLong(weekly, key) then
        (prev.0 + [LongWorkEntry(row, key, weekly)], prev.1 + {key})
      else prev
  }

  /** Pass 2 with the bucket key `analyzeData` computes. */
  function Pass2(rows: seq<WorkTime>, weekly: map<WeekKey, int>): (r: (seq<LongWork>, set<WeekKey>))
    ensures forall i :: 0 <= i < |r.0| ==> IsLong(weekly, WeekKey(r.0[i].empNum, r.0[i].week))
    ensures forall i, j :: 0 <= i < j < |r.0| ==>
              WeekKey(r.0[i].empNum, r.0[i].week) != WeekKey(r.0[j].empNum, r.0[j].week)
  {
    Pass2With(rows, BucketOf, weekly)
  }
}
