/** The few JavaScript string operations the dashboard relies on:
    `String.prototype.trim`, `split` on one character, `Number(...)` on a
    string, `String(n)`, `padStart(2, '0')` and `includes`. */
module Text {
  import opened Options

  /** JavaScript's WhiteSpace and LineTerminator characters, the set that
      `trim` removes and that `Number(...)` ignores around a literal:
      TAB, LF, VT, FF, CR, the space separators of Unicode category Zs,
      the byte-order mark and the line and paragraph separators. */
  predicate IsJsSpace(c: char) {
    || c == '\t' || c == '\n' || c == '\U{000B}' || c == '\U{000C}' || c == '\r'
    || c == ' ' || c == '\U{00A0}' || c == '\U{1680}'
    || ('\U{2000}' <= c <= '\U{200A}')
    || c == '\U{2028}' || c == '\U{2029}' || c == '\U{202F}' || c == '\U{205F}'
    || c == '\U{3000}' || c == '\U{FEFF}'
  }

  /** Every character of `s` is JavaScript white space. */
  predicate IsBlank(s: string) {
    forall k :: 0 <= k < |s| ==> IsJsSpace(s[k])
  }

  /** The index of the first character at or after `i` that is not an
      `sp` character (`|s|` if there is none). The trimming functions are
      stated for an arbitrary set of space characters `sp`; `Trim`
      instantiates it with `IsJsSpace`. */
  function StartFrom(s: string, sp: char -> bool, i: nat): (a: nat)
    requires i <= |s|
    ensures i <= a <= |s|
    ensures forall k :: i <= k < a ==> sp(s[k])
    ensures a < |s| ==> !sp(s[a])
    decreases |s| - i
  {
    if i == |s| || !sp(s[i]) then i else StartFrom(s, sp, i + 1)
  }

  /** The least index `e >= a` such that `s[e..j]` is all `sp` characters. */
  function EndFrom(s: string, sp: char -> bool, a: nat, j: nat): (e: nat)
    requires a <= j <= |s|
    ensures a <= e <= j
    ensures forall k :: e <= k < j ==> sp(s[k])
    ensures e > a ==> !sp(s[e - 1])
    decreases j - a
  {
    if j == a || !sp(s[j - 1]) then j else EndFrom(s, sp, a, j - 1)
  }

  /** `r` is `s` with a prefix `s[..i]` and a suffix of `sp` characters removed. */
  predicate TrimmedAt(s: string, r: string, i: int, sp: char -> bool) {
    && 0 <= i <= |s| - |r|
    && s[i..i + |r|] == r
    && (forall k :: 0 <= k < i ==> sp(s[k]))
    && (forall k :: i + |r| <= k < |s| ==> sp(s[k]))
  }

  /** `s` with leading and trailing `sp` characters removed. */
  function TrimWith(s: string, sp: char -> bool): (r: string)
    ensures TrimmedAt(s, r, StartFrom(s, sp, 0), sp)
    ensures r == [] <==> forall k :: 0 <= k < |s| ==> sp(s[k])
    ensures r != [] ==> !sp(r[0]) && !sp(r[|r| - 1])
  {
    var a := StartFrom(s, sp, 0);
    var e := EndFrom(s, sp, a, |s|);
    assert e > a ==> s[a..e][0] == s[a];
    s[a..e]
  }

  /** JavaScript `s.trim()`: the infix of `s` left after removing white
      space at both ends; only white space is removed. */
  function Trim(s: string): (r: string)
    ensures r == [] <==> IsBlank(s)
    ensures r != [] ==> !IsJsSpace(r[0]) && !IsJsSpace(r[|r|-1])
    ensures exists i :: TrimmedAt(s, r, i, IsJsSpace)
  {
    TrimWith(s, IsJsSpace)
  }

  /** Trimming is idempotent. */
  lemma TrimIdempotent(s: string)
    ensures Trim(Trim(s)) == Trim(s)
  {
    var r := Trim(s);
    if r != [] {
      assert StartFrom(r, IsJsSpace, 0) == 0;
      assert EndFrom(r, IsJsSpace, 0, |r|) == |r|;
    }
  }

  // ----- split / join -----

  /** The index of the first occurrence of `c` in `s`. */
  function IndexOf(s: string, c: char): (i: nat)
    requires c in s
    ensures i < |s| && s[i] == c
    ensures forall j :: 0 <= j < i ==> s[j] != c
  {
    if s[0] == c then 0 else 1 + IndexOf(s[1..], c)
  }

  /** The pieces joined back with `sep` between consecutive ones. */
  function Join(parts: seq<string>, sep: char): string
    requires |parts| >= 1
  {
    if |parts| == 1 then parts[0] else parts[0] + [sep] + Join(parts[1..], sep)
  }

  /** JavaScript `s.split(sep)` for a one-character separator: the maximal
      pieces of `s` between separators, at least one (an empty string
      splits into one empty piece). */
  function Split(s: string, sep: char): (parts: seq<string>)
    ensures |parts| >= 1
    ensures forall i :: 0 <= i < |parts| ==> sep !in parts[i]
    ensures Join(parts, sep) == s
    decreases |s|
  {
    if sep !in s then [s]
    else
      var i := IndexOf(s, sep);
      assert s == s[..i] + [sep] + s[i + 1..];
      [s[..i]] + Split(s[i + 1..], sep)
  }

  /** Splitting undoes joining pieces that do not contain the separator. */
  lemma {:induction false} SplitJoin(parts: seq<string>, sep: char)
    requires |parts| >= 1
    requires forall i :: 0 <= i < |parts| ==> sep !in parts[i]
    ensures Split(Join(parts, sep), sep) == parts
    decreases |parts|
  {
    var s := Join(parts, sep);
    if |parts| > 1 {
      var rest := Join(parts[1..], sep);
      assert s == parts[0] + [sep] + rest;
      assert sep in s by { assert s[|parts[0]|] == sep; }
      var i := IndexOf(s, sep);
      assert s[|parts[0]|] == sep;
      assert forall j :: 0 <= j < |parts[0]| ==> s[j] == parts[0][j];
      assert i == |parts[0]|;
      assert s[..i] == parts[0];
      assert s[i + 1..] == rest;
      SplitJoin(parts[1..], sep);
      assert [parts[0]] + parts[1..] == parts;
    }
  }

  // ----- numbers -----

  predicate IsDigit(c: char) {
    '0' <= c <= '9'
  }

  predicate AllDigits(s: string) {
    forall i :: 0 <= i < |s| ==> IsDigit(s[i])
  }

  /** The value of a string of decimal digits. */
  function DigitsValue(s: string): nat
    requires AllDigits(s)
    decreases |s|
  {
    if s == [] then 0 else DigitsValue(s[..|s|-1]) * 10 + (s[|s|-1] as int - '0' as int)
  }

  /** The decimal numeral of `n`, without leading zeros (JavaScript
      `String(n)` for a non-negative integer). */
  function NatToString(n: nat): (s: string)
    ensures s != [] && AllDigits(s)
    ensures DigitsValue(s) == n
    ensures |s| > 1 ==> s[0] != '0'
    ensures n < 10 <==> |s| == 1
  {
    var d := ['0' + (n % 10) as char];
    if n < 10 then d
    else
      var p := NatToString(n / 10);
      var s := p + d;
      assert s[..|s|-1] == p;
      s
  }

  /** JavaScript `String(i)` for an integer. */
  function IntToString(i: int): (s: string)
    ensures s != []
    ensures i >= 0 ==> AllDigits(s)
    ensures i < 0 ==> s[0] == '-' && AllDigits(s[1..])
  {
    if i < 0 then "-" + NatToString(-i) else NatToString(i)
  }

  /** The value of an optionally signed run of decimal digits, or None
      when `t` is not of that shape. */
  function SignedDigits(t: string): (r: Option<int>)
    ensures r.Some? <==> (AllDigits(t) && t != []) || (|t| > 1 && (t[0] == '-' || t[0] == '+') && AllDigits(t[1..]))
  {
    if t != [] && AllDigits(t) then Some(DigitsValue(t))
    else if |t| > 1 && t[0] == '-' && AllDigits(t[1..]) then Some(-(DigitsValue(t[1..]) as int))
    else if |t| > 1 && t[0] == '+' && AllDigits(t[1..]) then Some(DigitsValue(t[1..]))
    else None
  }

  /** JavaScript `Number(s)` restricted to integers: white space around the
      literal is ignored, a blank string is 0, an optionally signed decimal
      numeral is its value, and anything else is NaN (None). */
  function ToNumber(s: string): (r: Option<int>)
    ensures IsBlank(s) ==> r == Some(0)
    ensures !IsBlank(s) ==> r == SignedDigits(Trim(s))
  {
    var t := Trim(s);
    if t == [] then Some(0) else SignedDigits(t)
  }

  /** A string of digits has no white space to trim. */
  lemma TrimDigits(s: string)
    requires s != [] && (AllDigits(s) || (s[0] == '-' && AllDigits(s[1..])))
    ensures Trim(s) == s
  {
    assert StartFrom(s, IsJsSpace, 0) == 0;
    assert EndFrom(s, IsJsSpace, 0, |s|) == |s|;
  }

  /** Printing an integer and reading it back gives the integer. */
  lemma ToNumberIntToString(i: int)
    ensures ToNumber(IntToString(i)) == Some(i)
  {
    var s := IntToString(i);
    TrimDigits(s);
    if i < 0 {
      assert s[1..] == NatToString(-i);
      assert !AllDigits(s) by { assert !IsDigit(s[0]); }
    }
  }

  /** JavaScript `s.padStart(2, '0')`. */
  function PadStart2(s: string): (r: string)
    ensures |r| >= 2
    ensures |s| >= 2 ==> r == s
    ensures |s| < 2 ==> r == seq(2 - |s|, _ => '0') + s
  {
    if |s| >= 2 then s else if |s| == 1 then "0" + s else "00"
  }

  /** A leading zero does not change the value of a numeral. */
  lemma {:induction false} DigitsValueLeadingZero(d: string)
    requires AllDigits(d)
    ensures AllDigits("0" + d) && DigitsValue("0" + d) == DigitsValue(d)
    decreases |d|
  {
    var z := "0" + d;
    if d != [] {
      assert z[..|z|-1] == "0" + d[..|d|-1];
      DigitsValueLeadingZero(d[..|d|-1]);
    }
  }

  /** A numeral padded with zeros to two characters reads back as its
      value. */
  lemma ToNumberPadded(n: nat)
    ensures AllDigits(PadStart2(NatToString(n)))
    ensures ToNumber(PadStart2(NatToString(n))) == Some(n)
  {
    var d := NatToString(n);
    var p := PadStart2(d);
    if |d| < 2 {
      DigitsValueLeadingZero(d);
      assert p == "0" + d;
    }
    TrimDigits(p);
  }

  // ----- substring search -----

  /** `n` is a prefix of `h`. */
  predicate IsPrefix(n: string, h: string) {
    |n| <= |h| && h[..|n|] == n
  }

  /** JavaScript `h.includes(n)`: `n` occurs in `h` at some offset (the empty
      string occurs everywhere). */
  predicate Includes(h: string, n: string)
    decreases |h|
  {
    IsPrefix(n, h) || (h != [] && Includes(h[1..], n))
  }

  /** `n` occurs in `h` at offset `i`. */
  predicate OccursAt(h: string, n: string, i: int) {
    0 <= i <= |h| - |n| && h[i..i + |n|] == n
  }

  /** `Includes` means an occurrence at some offset, and conversely. */
  lemma {:induction false} IncludesIffOccurs(h: string, n: string)
    ensures Includes(h, n) <==> exists i :: OccursAt(h, n, i)
    decreases |h|
  {
    if h == [] {
      if IsPrefix(n, h) {
        assert OccursAt(h, n, 0);
      }
      if exists i :: OccursAt(h, n, i) {
        var i :| OccursAt(h, n, i);
        assert IsPrefix(n, h);
      }
    } else {
      IncludesIffOccurs(h[1..], n);
      if IsPrefix(n, h) {
        assert OccursAt(h, n, 0);
      } else if Includes(h[1..], n) {
        var i :| OccursAt(h[1..], n, i);
        assert h[i + 1..i + 1 + |n|] == h[1..][i..i + |n|];
        assert OccursAt(h, n, i + 1);
      }
      if exists i :: OccursAt(h, n, i) {
        var i :| OccursAt(h, n, i);
        if i == 0 {
          assert IsPrefix(n, h);
        } else {
          assert h[1..][i - 1..i - 1 + |n|] == h[i..i + |n|];
          assert OccursAt(h[1..], n, i - 1);
        }
      }
    }
  }
}
