/** Classification of one row into one of four attendance kinds with a
    display label, from the trimmed remark and the presence of both clock
    readings. */
module Attendance {
  import opened Text
  import opened WorkTimes

  datatype Kind = Normal | Missing | Absent | OffDuty

  datatype Classification = Classification(kind: Kind, labelText: string)

  /** The one remark that marks an unexcused absence. */
  const UnexcusedAbsence := "결근(무단결근)"
  /** Label of a normal row without a remark. */
  const NormalLabel := "정상"
  /** Label of a row without a remark and with a clock reading missing. */
  const UncheckedLabel := "미체크"
  /** Remarks that still count as a worked day: normal, early leave, late arrival. */
  const WorkedRemarks: seq<string> := ["정상", "조퇴", "지각"]

  /** Both clock readings are present. */
  predicate HasBothTimes(row: WorkTime) {
    row.beTime != "" && row.edTime != ""
  }

  /** `classifyAttendance`. Each kind is characterised by its own condition
      on the trimmed remark and the clock readings; the four conditions are
      mutually exclusive and together cover every row. */
  function Classify(row: WorkTime): (c: Classification)
    ensures var remark := Trim(row.reText);
      && (c.kind == Absent <==> remark == UnexcusedAbsence)
      && (c.kind == Missing <==> remark == "" && !HasBothTimes(row))
      && (c.kind == Normal <==> (remark == "" && HasBothTimes(row)) || remark in WorkedRemarks)
      && (c.kind == OffDuty <==> remark != "" && remark != UnexcusedAbsence && remark !in WorkedRemarks)
    ensures var remark := Trim(row.reText);
      && (remark != "" ==> c.labelText == remark)
      && (remark == "" ==> c.labelText == if HasBothTimes(row) then NormalLabel else UncheckedLabel)
  {
    var remark := Trim(row.reText);
    if remark == "" then
      if HasBothTimes(row) then Classification(Normal, NormalLabel)
      else Classification(Missing, UncheckedLabel)
    else if remark == UnexcusedAbsence then Classification(Absent, remark)
    else if remark in WorkedRemarks then Classification(Normal, remark)
    else Classification(OffDuty, remark)
  }

  /** The label is never empty, so every row of the detail list shows a status. */
  lemma LabelNeverEmpty(row: WorkTime)
    ensures Classify(row).labelText != ""
  {
  }

  /** The unexcused-absence marker decides the kind whatever the clock
      readings, and a row with no remark is normal exactly when both
      readings are present. */
  lemma ClassifyIgnoresTimesForAbsence(row: WorkTime, beTime: string, edTime: string)
    requires Trim(row.reText) == UnexcusedAbsence
    ensures Classify(row.(beTime := beTime, edTime := edTime)) == Classify(row)
  {
  }
}
