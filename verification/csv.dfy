/** The CSV download of the dashboard: a byte-order mark, a header line,
    and one line per missing row followed by one line per absent row, each
    with the saved explanation quoted in the last column. */
module CsvExport {
  import opened Options
  import opened Seqs
  import opened Text
  import opened WorkTimes
  import opened Attendance
  import opened Analytics
  import opened Explanations

  /** The byte-order mark that makes spreadsheet programs read UTF-8. */
  const Bom := "\U{FEFF}"
  const Header := "날짜,요일,부서,사번,이름,직책,출근시간,퇴근시간,누락유형,소명상태,소명내용"
  /** Type column: no clock reading at all. */
  const AbsentType := "무단결근"
  /** Type column: at least one clock reading. */
  const UncheckedType := "체크누락"
  /** Status column: an explanation is saved. */
  const Written := "작성완료"
  /** Status column: no explanation. */
  const NotWritten := "미작성"

  /** The type column, decided by the clock readings alone. */
  function MissingType(row: WorkTime): (t: string)
    ensures t == AbsentType || t == UncheckedType
    ensures t == AbsentType <==> row.beTime == "" && row.edTime == ""
  {
    if row.beTime == "" && row.edTime == "" then AbsentType else UncheckedType
  }

  /** The status column. */
  function ExplanationStatus(e: string): (s: string)
    ensures s == Written || s == NotWritten
    ensures s == Written <==> e != ""
  {
    if e != "" then Written else NotWritten
  }

  /** The number of double quotes in a string. */
  function Quotes(s: string): nat
    decreases |s|
  {
    if s == [] then 0 else (if s[0] == '"' then 1 else 0) + Quotes(s[1..])
  }

  /** Every double quote in `t` is immediately followed by a second one,
      reading the pairs from the left: the shape of a quoted field's inside
      under section 2 rule 7 of RFC 4180. */
  predicate QuotesPaired(t: string)
    decreases |t|
  {
    if t == [] then true
    else if t[0] == '"' then |t| >= 2 && t[1] == '"' && QuotesPaired(t[2..])
    else QuotesPaired(t[1..])
  }

  /** The explanation escaped for a quoted CSV field: every double quote
      doubled, so the result is one character longer per quote and holds
      no lone quote. */
  function EscapeQuotes(s: string): (r: string)
    ensures |r| >= |s|
    ensures |r| == |s| + Quotes(s)
    ensures QuotesPaired(r)
    decreases |s|
  {
    if s == [] then []
    else (if s[0] == '"' then "\"\"" else [s[0]]) + EscapeQuotes(s[1..])
  }

  /** How a CSV reader takes a quoted field's inside: a doubled quote is one
      quote, anything else is itself. */
  function UnescapeQuotes(t: string): string
    decreases |t|
  {
    if t == [] then []
    else if |t| >= 2 && t[0] == '"' && t[1] == '"' then "\"" + UnescapeQuotes(t[2..])
    else [t[0]] + UnescapeQuotes(t[1..])
  }

  /** Escaping what a reader took out of a well-formed field gives the field
      back: the other direction of the round trip. */
  lemma {:induction false} EscapeUnescape(t: string)
    requires QuotesPaired(t)
    ensures EscapeQuotes(UnescapeQuotes(t)) == t
    decreases |t|
  {
    if t != [] {
      if t[0] == '"' {
        EscapeUnescape(t[2..]);
        var u := UnescapeQuotes(t[2..]);
        assert UnescapeQuotes(t) == "\"" + u;
        assert ("\"" + u)[1..] == u;
        assert t == "\"\"" + t[2..];
      } else {
        EscapeUnescape(t[1..]);
        var u := UnescapeQuotes(t[1..]);
        assert UnescapeQuotes(t) == [t[0]] + u;
        assert ([t[0]] + u)[1..] == u;
        assert t == [t[0]] + t[1..];
      }
    }
  }

  /** A reader gets back exactly the text that was escaped. */
  lemma {:induction false} UnescapeEscape(s: string)
    ensures UnescapeQuotes(EscapeQuotes(s)) == s
    decreases |s|
  {
    if s != [] {
      var rest := EscapeQuotes(s[1..]);
      UnescapeEscape(s[1..]);
      if s[0] == '"' {
        assert EscapeQuotes(s) == "\"\"" + rest;
        assert ("\"\"" + rest)[2..] == rest;
      } else {
        assert EscapeQuotes(s) == [s[0]] + rest;
        assert ([s[0]] + rest)[1..] == rest;
      }
      assert [s[0]] + s[1..] == s;
    }
  }

  /** The ten unquoted columns of a row's line, `e` being its explanation. */
  function PlainFields(row: WorkTime, e: string): seq<string> {
    [row.tmDate, row.weekTx, row.orgTxt, row.empNum, row.nameKo, row.tiText,
     row.beTime, row.edTime, MissingType(row), ExplanationStatus(e)]
  }

  /** The last column: the escaped explanation in quotes, and the line end. */
  function QuotedTail(e: string): string {
    "\"" + EscapeQuotes(e) + "\"\n"
  }

  /** The line written for one row: the ten columns separated by commas,
      a comma, and the quoted explanation with the line end. */
  function CsvLine(row: WorkTime, store: Store): string {
    var e := ExplanationOf(store, row);
    Join(PlainFields(row, e), ',') + "," + QuotedTail(e)
  }

  /** Splitting at the first separator of `p + [sep] + rest`, when `p` has
      none, gives `p` and the pieces of `rest`. */
  lemma SplitCons(p: string, sep: char, rest: string)
    requires sep !in p
    ensures Split(p + [sep] + rest, sep) == [p] + Split(rest, sep)
  {
    var s := p + [sep] + rest;
    assert s[|p|] == sep;
    var i := IndexOf(s, sep);
    if i < |p| {
      assert false;
    }
    assert s[..i] == p;
    assert s[i + 1..] == rest;
  }

  /** Splitting joined separator-free pieces followed by a separator and a
      tail gives the pieces and then the pieces of the tail. */
  lemma {:induction false} SplitJoinThen(parts: seq<string>, sep: char, tail: string)
    requires |parts| >= 1
    requires forall i :: 0 <= i < |parts| ==> sep !in parts[i]
    ensures Split(Join(parts, sep) + [sep] + tail, sep) == parts + Split(tail, sep)
    decreases |parts|
  {
    if |parts| == 1 {
      SplitCons(parts[0], sep, tail);
    } else {
      var more := parts[1..];
      assert [parts[0]] + more == parts;
      var j := Join(more, sep);
      var rest := j + [sep] + tail;
      var whole := Join(parts, sep) + [sep] + tail;
      assert Join(parts, sep) == parts[0] + [sep] + j;
      assert whole == parts[0] + [sep] + rest;
      SplitCons(parts[0], sep, rest);
      assert Split(whole, sep) == [parts[0]] + Split(rest, sep);
      SplitJoinThen(more, sep, tail);
      assert Split(rest, sep) == more + Split(tail, sep);
      ConsAppend(parts[0], more, Split(tail, sep), parts);
    }
  }

  lemma ConsAppend<T>(x: T, a: seq<T>, b: seq<T>, c: seq<T>)
    requires c == [x] + a
    ensures [x] + (a + b) == c + b
  {
  }

  /** How a CSV reader takes a line of this export apart: ten plain columns
      separated by commas, then a quoted column running to the end of the
      line. None when the line is not of that shape. */
  function DecodeLine(line: string): Option<seq<string>> {
    var parts := Split(line, ',');
    if |parts| < 11 then None
    else
      var last := Join(parts[10..], ',');
      if |last| >= 3 && last[0] == '"' && last[|last| - 2] == '"' && last[|last| - 1] == '\n'
      then Some(parts[..10] + [UnescapeQuotes(last[1..|last| - 2])])
      else None
  }

  /** No column written without quotes contains a comma. */
  predicate PlainColumnsClean(row: WorkTime) {
    ',' !in row.tmDate && ',' !in row.weekTx && ',' !in row.orgTxt && ',' !in row.empNum
    && ',' !in row.nameKo && ',' !in row.tiText && ',' !in row.beTime && ',' !in row.edTime
  }

  /** A reader recovers every column of a row's line, the explanation
      included whatever it contains, provided the columns written without
      quotes contain no comma. */
  lemma DecodeCsvLine(row: WorkTime, store: Store)
    requires PlainColumnsClean(row)
    ensures var e := ExplanationOf(store, row);
            DecodeLine(CsvLine(row, store)) == Some(PlainFields(row, e) + [e])
  {
    var e := ExplanationOf(store, row);
    var f := PlainFields(row, e);
    assert forall i :: 0 <= i < |f| ==> ',' !in f[i];
    DecodeFields(f, e);
  }

  /** Ten comma-free columns, a comma and a quoted tail decode to the
      columns and the unescaped text. */
  lemma DecodeFields(f: seq<string>, e: string)
    requires |f| == 10 && forall i :: 0 <= i < |f| ==> ',' !in f[i]
    ensures DecodeLine(Join(f, ',') + "," + QuotedTail(e)) == Some(f + [e])
  {
    var tail := QuotedTail(e);
    SplitJoinThen(f, ',', tail);
    var parts := Split(Join(f, ',') + "," + tail, ',');
    assert parts == f + Split(tail, ',');
    assert parts[..10] == f;
    assert parts[10..] == Split(tail, ',');
    assert Join(parts[10..], ',') == tail;
    QuotedTailReads(e);
  }

  /** The quoted tail is recognised as one and unescapes to the text. */
  lemma QuotedTailReads(e: string)
    ensures var t := QuotedTail(e);
            |t| >= 3 && t[0] == '"' && t[|t| - 2] == '"' && t[|t| - 1] == '\n'
            && UnescapeQuotes(t[1..|t| - 2]) == e
  {
    var t := QuotedTail(e);
    assert t[1..|t| - 2] == EscapeQuotes(e);
    UnescapeEscape(e);
  }

  /** The rows exported: the missing rows, then the absent rows. */
  function ExportRows(stats: Stats): seq<WorkTime> {
    stats.missingList + stats.absentList
  }

  /** The lines written for `rows`, in order. */
  function CsvLines(rows: seq<WorkTime>, store: Store): (r: seq<string>)
    ensures |r| == |rows|
    ensures forall i :: 0 <= i < |rows| ==> r[i] == CsvLine(rows[i], store)
    decreases |rows|
  {
    if rows == [] then [] else CsvLines(rows[..|rows| - 1], store) + [CsvLine(rows[|rows| - 1], store)]
  }

  /** The lines one after another. */
  function Concat(lines: seq<string>): string
    decreases |lines|
  {
    if lines == [] then "" else Concat(lines[..|lines| - 1]) + lines[|lines| - 1]
  }

  /** `handleDownloadCSV`: nothing when there is neither a missing nor an
      absent row (the source shows an alert instead), otherwise the file. */
  function DownloadCsv(stats: Stats, store: Store): (r: Option<string>)
    ensures r.None? <==> stats.missingList == [] && stats.absentList == []
    ensures r.Some? ==> |r.value| > |Bom + Header + "\n"| && r.value[..|Bom + Header + "\n"|] == Bom + Header + "\n"
  {
    if |stats.missingList| == 0 && |stats.absentList| == 0 then None
    else
      var lines := CsvLines(ExportRows(stats), store);
      var body := Concat(lines);
      ConcatNonEmpty(lines);
      Some(Bom + Header + "\n" + body)
  }

  /** Concatenated lines of this export are never empty when there is one. */
  lemma {:induction false} ConcatNonEmpty(lines: seq<string>)
    requires |lines| >= 1
    requires forall i :: 0 <= i < |lines| ==> lines[i] != ""
    ensures |Concat(lines)| > 0
    decreases |lines|
  {
    assert lines[|lines| - 1] != "";
  }

  /** The lines up to any point are a prefix of all of them, and one more
      line extends that prefix by exactly that line. */
  lemma {:induction false} ConcatPrefix(lines: seq<string>, j: nat)
    requires j < |lines|
    ensures Concat(lines[..j + 1]) == Concat(lines[..j]) + lines[j]
    ensures Concat(lines[..j + 1]) <= Concat(lines)
    decreases |lines|
  {
    assert lines[..j + 1][..j] == lines[..j];
    if j + 1 < |lines| {
      var init := lines[..|lines| - 1];
      ConcatPrefix(init, j);
      assert init[..j + 1] == lines[..j + 1];
      assert init[..j] == lines[..j];
    } else {
      assert lines[..j + 1] == lines;
    }
  }

  /** `line` occurs in `f` starting at offset `from`. */
  predicate LineAt(f: string, from: int, line: string) {
    0 <= from && from + |line| <= |f| && f[from..from + |line|] == line
  }

  /** `f` is `pre` followed by the lines, each line starting where the
      lines before it end. */
  predicate FileOf(f: string, pre: string, lines: seq<string>) {
    |f| == |pre| + |Concat(lines)| && f[..|pre|] == pre
    && forall i :: 0 <= i < |lines| ==> LineAt(f, |pre| + |Concat(lines[..i])|, lines[i])
  }

  /** The downloaded file, character by character: the byte order mark and
      the header line, then the line of each exported row in export order,
      and nothing else. */
  lemma DownloadFileLines(stats: Stats, store: Store)
    requires stats.missingList != [] || stats.absentList != []
    ensures |CsvLines(ExportRows(stats), store)| == |stats.missingList| + |stats.absentList|
    ensures FileOf(DownloadCsv(stats, store).value, Bom + Header + "\n", CsvLines(ExportRows(stats), store))
  {
    FileOfLines(Bom + Header + "\n", CsvLines(ExportRows(stats), store));
  }

  /** A prefix followed by the concatenated lines holds each line where the
      lines before it end. */
  lemma FileOfLines(pre: string, lines: seq<string>)
    ensures FileOf(pre + Concat(lines), pre, lines)
  {
    forall i | 0 <= i < |lines|
      ensures LineAt(pre + Concat(lines), |pre| + |Concat(lines[..i])|, lines[i])
    {
      LineInFile(pre, lines, i);
    }
  }

  /** Behind a prefix, line `i` starts where the lines before it end. */
  lemma LineInFile(pre: string, lines: seq<string>, i: nat)
    requires i < |lines|
    ensures LineAt(pre + Concat(lines), |pre| + |Concat(lines[..i])|, lines[i])
  {
    ConcatPrefix(lines, i);
    var body := Concat(lines);
    var a := Concat(lines[..i]);
    assert body[..|a| + |lines[i]|] == a + lines[i];
    assert (pre + body)[|pre| + |a|..|pre| + |a| + |lines[i]|] == (a + lines[i])[|a|..];
  }

  /** The file's records: one line per exported row in export order, the
      missing rows first, each decoding to the row's columns and its saved
      explanation. */
  lemma ExportRecords(stats: Stats, store: Store, i: nat)
    requires i < |stats.missingList| + |stats.absentList|
    requires PlainColumnsClean(ExportRows(stats)[i])
    ensures var lines := CsvLines(ExportRows(stats), store);
            var row := if i < |stats.missingList| then stats.missingList[i]
                       else stats.absentList[i - |stats.missingList|];
            var e := ExplanationOf(store, row);
            |lines| == |stats.missingList| + |stats.absentList|
            && DecodeLine(lines[i]) == Some(PlainFields(row, e) + [e])
  {
    var row := ExportRows(stats)[i];
    DecodeCsvLine(row, store);
  }

  /** A missing row is exported with the absence type exactly when it has
      no clock reading at all, although the dashboard counts it as missing
      and not as absent. */
  lemma MissingRowType(row: WorkTime)
    requires Classify(row).kind == Missing
    ensures MissingType(row) == AbsentType <==> row.beTime == "" && row.edTime == ""
    ensures MissingType(row) == UncheckedType <==> (row.beTime == "") != (row.edTime == "")
  {
  }

  /** An absent row (its remark marks an unexcused absence) is exported with
      the check-missing type when it has a clock reading. */
  lemma AbsentRowType(row: WorkTime)
    requires Classify(row).kind == Absent
    ensures MissingType(row) == UncheckedType <==> row.beTime != "" || row.edTime != ""
  {
  }

  /** The status column says written exactly when a non-empty explanation
      is saved for the row; saving empty text counts as not written. */
  lemma StatusAfterSave(store: Store, row: WorkTime, text: string)
    ensures ExplanationStatus(ExplanationOf(SaveExplanation(store, row, text), row)) == Written <==> text != ""
  {
  }
}
