/** The attendance record as it arrives from the warehouse: one row per
    employee per calendar day. Every field is a string; a missing value
    (`null`, `undefined`) is modelled as the empty string, which the
    dashboard code treats the same way: a falsy value falls back to the
    empty string wherever it is read. */
module WorkTimes {

  datatype WorkTime = WorkTime(
    orgAid: string,  // department code
    orgTxt: string,  // department name
    empNum: string,  // employee number
    nameKo: string,  // employee name
    tiText: string,  // title
    leText: string,  // grade
    tmDate: string,  // calendar date, `YYYY-MM-DD`
    weekTx: string,  // weekday label, e.g. "월" .. "일"
    wkscTx: string,  // shift type
    beTime: string,  // clock-in, `HH:MM` or empty
    edTime: string,  // clock-out, `HH:MM` or empty
    reText: string   // remark: leave, unexcused absence, ...
  )

  /** The two weekday labels counted as weekend: Saturday and Sunday. */
  const Saturday := "토"
  const Sunday := "일"

  /** Weekend is decided by the label alone; the date is never consulted. */
  predicate IsWeekend(row: WorkTime) {
    row.weekTx == Saturday || row.weekTx == Sunday
  }
}
