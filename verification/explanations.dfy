/** The explanations typed into the modal: a map from the key
    `${EMPNUM}-${TMDATE}` to the text last saved for that row. */
module Explanations {
  import opened Text
  import opened WorkTimes

  /** The key of a row's explanation: employee number, a dash, the date. */
  function ExplanationKey(row: WorkTime): (k: string)
    ensures |k| == |row.empNum| + 1 + |row.tmDate|
    ensures k[..|row.empNum|] == row.empNum && k[|row.empNum|] == '-' && k[|row.empNum| + 1..] == row.tmDate
  {
    row.empNum + "-" + row.tmDate
  }

  type Store = map<string, string>

  /** `handleSaveExplanation`: the store with the row's entry set to `text`
      (an empty text is stored too); every other entry is kept. */
  function SaveExplanation(store: Store, row: WorkTime, text: string): (r: Store)
    ensures r.Keys == store.Keys + {ExplanationKey(row)}
    ensures r[ExplanationKey(row)] == text
    ensures forall k :: k in store && k != ExplanationKey(row) ==> r[k] == store[k]
  {
    store[ExplanationKey(row) := text]
  }

  /** The saved text of the row's key, or empty when none is saved. */
  function ExplanationOf(store: Store, row: WorkTime): (e: string)
    ensures ExplanationKey(row) !in store ==> e == ""
    ensures ExplanationKey(row) in store ==> e == store[ExplanationKey(row)]
  {
    var key := ExplanationKey(row);
    if key in store then store[key] else ""
  }

  /** Reading a row back after saving gives the saved text. */
  lemma SaveThenRead(store: Store, row: WorkTime, text: string)
    ensures ExplanationOf(SaveExplanation(store, row, text), row) == text
  {
  }

  /** Saving for one row leaves what every row with another key reads. */
  lemma SaveKeepsOthers(store: Store, row: WorkTime, other: WorkTime, text: string)
    requires ExplanationKey(other) != ExplanationKey(row)
    ensures ExplanationOf(SaveExplanation(store, row, text), other) == ExplanationOf(store, other)
  {
  }

  /** The last save for a row wins. */
  lemma SaveTwice(store: Store, row: WorkTime, t1: string, t2: string)
    ensures SaveExplanation(SaveExplanation(store, row, t1), row, t2) == SaveExplanation(store, row, t2)
  {
  }

  /** When employee numbers contain no dash, two rows share a key exactly
      when they have the same employee number and date. */
  lemma KeyInjective(a: WorkTime, b: WorkTime)
    requires '-' !in a.empNum && '-' !in b.empNum
    ensures ExplanationKey(a) == ExplanationKey(b) <==> a.empNum == b.empNum && a.tmDate == b.tmDate
  {
    var ka := ExplanationKey(a);
    var kb := ExplanationKey(b);
    if ka == kb {
      var n := |a.empNum|;
      var m := |b.empNum|;
      assert ka[n] == '-';
      assert kb[m] == '-';
      if n < m {
        assert false;
      } else if m < n {
        assert false;
      }
      assert a.empNum == ka[..n];
      assert b.empNum == kb[..m];
      assert a.tmDate == ka[n + 1..];
      assert b.tmDate == kb[m + 1..];
    }
  }

  /** Without that condition two different rows can share a key, and then
      share one explanation. */
  lemma DashedNumbersCollide(a: WorkTime, b: WorkTime)
    requires a.empNum == "1-2" && a.tmDate == "3"
    requires b.empNum == "1" && b.tmDate == "2-3"
    ensures ExplanationKey(a) == ExplanationKey(b)
    ensures forall store: Store :: ExplanationOf(store, a) == ExplanationOf(store, b)
  {
  }
}
