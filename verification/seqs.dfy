/** Sequence helpers used as the declarative side of the aggregation pass.
    Everything here is defined from the END of the sequence, so that
    `F(s + [x])` unfolds to `F(s)` and one step for `x`, exactly as a
    left-to-right pass over rows does. */
module Seqs {

  /** No element occurs twice. */
  predicate NoDuplicates<T(==)>(s: seq<T>) {
    forall i, j :: 0 <= i < j < |s| ==> s[i] != s[j]
  }

  /** The elements of `s` satisfying `p`, in their original order. */
  function Filter<T>(s: seq<T>, p: T -> bool): (r: seq<T>)
    ensures |r| <= |s|
    decreases |s|
  {
    if s == [] then []
    else if p(s[|s|-1]) then Filter(s[..|s|-1], p) + [s[|s|-1]]
    else Filter(s[..|s|-1], p)
  }

  /** The number of elements of `s` satisfying `p`. */
  function Count<T>(s: seq<T>, p: T -> bool): nat {
    |Filter(s, p)|
  }

  /** `f` applied to every element, order kept. */
  function MapSeq<T, U>(s: seq<T>, f: T -> U): (r: seq<U>)
    ensures |r| == |s|
    ensures forall i :: 0 <= i < |s| ==> r[i] == f(s[i])
    decreases |s|
  {
    if s == [] then [] else MapSeq(s[..|s|-1], f) + [f(s[|s|-1])]
  }

  /** The sum of `f` over the elements of `s`. */
  function SumBy<T>(s: seq<T>, f: T -> int): int
    decreases |s|
  {
    if s == [] then 0 else SumBy(s[..|s|-1], f) + f(s[|s|-1])
  }

  /** The distinct elements of `s` in the order of their first occurrence
      (the iteration order of a JavaScript `Set` built from `s`). */
  function Distinct<T(==)>(s: seq<T>): (r: seq<T>)
    ensures NoDuplicates(r)
    ensures |r| <= |s|
    decreases |s|
  {
    if s == [] then []
    else
      var d := Distinct(s[..|s|-1]);
      if s[|s|-1] in d then d else d + [s[|s|-1]]
  }

  /** The index of the first element satisfying `p`, or `|s|` if none does. */
  function FirstIndex<T>(s: seq<T>, p: T -> bool): (i: nat)
    ensures i <= |s|
    ensures i < |s| ==> p(s[i])
    ensures forall j :: 0 <= j < i && j < |s| ==> !p(s[j])
    decreases |s|
  {
    if s == [] then 0
    else
      var i := FirstIndex(s[..|s|-1], p);
      if i < |s| - 1 then i
      else if p(s[|s|-1]) then |s| - 1
      else |s|
  }

  /** The set of values `f` takes on the elements of `s`. */
  function Image<T, U>(s: seq<T>, f: T -> U): set<U>
    decreases |s|
  {
    if s == [] then {} else Image(s[..|s|-1], f) + {f(s[|s|-1])}
  }

  /** The elements `f` maps to `u`. */
  function Hits<T, U(==)>(f: T -> U, u: U): T -> bool {
    (x: T) => f(x) == u
  }

  /** `a` is an order-preserving subsequence of `b`. */
  predicate IsSubsequence<T(==)>(a: seq<T>, b: seq<T>)
    decreases |b|
  {
    if a == [] then true
    else if b == [] then false
    else if a[|a|-1] == b[|b|-1] then IsSubsequence(a[..|a|-1], b[..|b|-1])
    else IsSubsequence(a, b[..|b|-1])
  }

  /** The sum of `f` over the values that `m` holds for `keys`. */
  function SumOver<K, V>(keys: seq<K>, m: map<K, V>, f: V -> int): int
    requires forall k :: k in keys ==> k in m
    decreases |keys|
  {
    if keys == [] then 0 else SumOver(keys[..|keys|-1], m, f) + f(m[keys[|keys|-1]])
  }

  /** Filtering keeps exactly the elements satisfying `p`. */
  lemma {:induction false} FilterMembers<T>(s: seq<T>, p: T -> bool, x: T)
    ensures x in Filter(s, p) <==> x in s && p(x)
    decreases |s|
  {
    if s != [] {
      var pre := s[..|s|-1];
      FilterMembers(pre, p, x);
      assert s == pre + [s[|s|-1]];
    }
  }

  /** The distinct elements are the elements. */
  lemma {:induction false} DistinctMembers<T>(s: seq<T>, x: T)
    ensures x in Distinct(s) <==> x in s
    decreases |s|
  {
    if s != [] {
      var pre := s[..|s|-1];
      DistinctMembers(pre, x);
      assert s == pre + [s[|s|-1]];
    }
  }

  lemma {:induction false} FilterIsSubsequence<T>(s: seq<T>, p: T -> bool)
    ensures IsSubsequence(Filter(s, p), s)
    decreases |s|
  {
    if s != [] {
      var pre := s[..|s|-1];
      FilterIsSubsequence(pre, p);
      if !p(s[|s|-1]) {
        assert Filter(s, p) == Filter(pre, p);
        SubsequenceOfPrefix(Filter(pre, p), pre, s[|s|-1]);
        assert pre + [s[|s|-1]] == s;
      } else {
        var f := Filter(s, p);
        assert f[..|f|-1] == Filter(pre, p);
      }
    }
  }

  /** A subsequence of `b` is also a subsequence of `b + [x]`. */
  lemma {:induction false} SubsequenceOfPrefix<T>(a: seq<T>, b: seq<T>, x: T)
    requires IsSubsequence(a, b)
    ensures IsSubsequence(a, b + [x])
    decreases |b|, 1
  {
    var bx := b + [x];
    assert bx[..|bx|-1] == b;
    if a != [] && a[|a|-1] == x {
      SubsequenceDropLast(a, b);
    }
  }

  /** Dropping the last element of a subsequence keeps it a subsequence. */
  lemma {:induction false} SubsequenceDropLast<T>(a: seq<T>, b: seq<T>)
    requires a != []
    requires IsSubsequence(a, b)
    ensures IsSubsequence(a[..|a|-1], b)
    decreases |b|, 0
  {
    var a' := a[..|a|-1];
    if a' != [] {
      if a[|a|-1] == b[|b|-1] {
        SubsequenceOfPrefix(a', b[..|b|-1], b[|b|-1]);
        assert b[..|b|-1] + [b[|b|-1]] == b;
      } else {
        SubsequenceDropLast(a, b[..|b|-1]);
        SubsequenceOfPrefix(a', b[..|b|-1], b[|b|-1]);
        assert b[..|b|-1] + [b[|b|-1]] == b;
      }
    }
  }

  /** Filtering with a predicate that holds everywhere changes nothing. */
  lemma {:induction false} FilterAll<T>(s: seq<T>, p: T -> bool)
    requires forall i :: 0 <= i < |s| ==> p(s[i])
    ensures Filter(s, p) == s
    decreases |s|
  {
    if s != [] {
      FilterAll(s[..|s|-1], p);
    }
  }

  /** A sum over keys is unchanged by updating a key outside them. */
  lemma {:induction false} SumOverUpdateAbsent<K, V>(keys: seq<K>, m: map<K, V>, f: V -> int, k: K, v: V)
    requires forall x :: x in keys ==> x in m
    requires k !in keys
    ensures SumOver(keys, m[k := v], f) == SumOver(keys, m, f)
    decreases |keys|
  {
    if keys != [] {
      SumOverUpdateAbsent(keys[..|keys|-1], m, f, k, v);
    }
  }

  /** Updating a key that occurs once among `keys` changes the sum by the
      difference of the two values. */
  lemma {:induction false} SumOverUpdatePresent<K, V>(keys: seq<K>, m: map<K, V>, f: V -> int, k: K, v: V)
    requires forall x :: x in keys ==> x in m
    requires NoDuplicates(keys)
    requires k in keys
    ensures SumOver(keys, m[k := v], f) == SumOver(keys, m, f) - f(m[k]) + f(v)
    decreases |keys|
  {
    var pre := keys[..|keys|-1];
    if keys[|keys|-1] == k {
      assert k !in pre;
      SumOverUpdateAbsent(pre, m, f, k, v);
    } else {
      assert k in pre;
      SumOverUpdatePresent(pre, m, f, k, v);
    }
  }

  /** Filtering the keys of `s` with the occurrence of `x` in mind: the
      distinct keys grow by `x` exactly when `x` is new. */
  lemma DistinctSnoc<T>(s: seq<T>, x: T)
    ensures Distinct(s + [x]) == if x in Distinct(s) then Distinct(s) else Distinct(s) + [x]
  {
    assert (s + [x])[..|s|] == s;
  }

  lemma FilterSnoc<T>(s: seq<T>, x: T, p: T -> bool)
    ensures p(x) ==> Filter(s + [x], p) == Filter(s, p) + [x]
    ensures !p(x) ==> Filter(s + [x], p) == Filter(s, p)
  {
    assert (s + [x])[..|s|] == s;
  }

  lemma MapSeqSnoc<T, U>(s: seq<T>, x: T, f: T -> U)
    ensures MapSeq(s + [x], f) == MapSeq(s, f) + [f(x)]
  {
    assert (s + [x])[..|s|] == s;
  }

  lemma SumBySnoc<T>(s: seq<T>, x: T, f: T -> int)
    ensures SumBy(s + [x], f) == SumBy(s, f) + f(x)
  {
    assert (s + [x])[..|s|] == s;
  }

  lemma SumOverSnoc<K, V>(keys: seq<K>, k: K, m: map<K, V>, f: V -> int)
    requires forall x :: x in keys ==> x in m
    requires k in m
    ensures SumOver(keys + [k], m, f) == SumOver(keys, m, f) + f(m[k])
  {
    assert (keys + [k])[..|keys|] == keys;
  }

  lemma ImageSnoc<T, U>(s: seq<T>, x: T, f: T -> U)
    ensures Image(s + [x], f) == Image(s, f) + {f(x)}
  {
    assert (s + [x])[..|s|] == s;
  }

  /** `Image` is the set of values taken at some element. */
  lemma {:induction false} ImageMembers<T, U>(s: seq<T>, f: T -> U, u: U)
    ensures u in Image(s, f) <==> exists x :: x in s && f(x) == u
    decreases |s|
  {
    if s != [] {
      var pre := s[..|s|-1];
      var last := s[|s|-1];
      ImageMembers(pre, f, u);
      assert s == pre + [last];
      if exists x :: x in s && f(x) == u {
        var x :| x in s && f(x) == u;
        if x != last {
          assert x in pre;
        }
      }
    }
  }

  /** `Image` holds the same values as `MapSeq`. */
  lemma {:induction false} ImageMapSeq<T, U>(s: seq<T>, f: T -> U, u: U)
    ensures u in Image(s, f) <==> u in MapSeq(s, f)
    decreases |s|
  {
    if s != [] {
      var pre := s[..|s|-1];
      ImageMapSeq(pre, f, u);
      MapSeqSnoc(pre, s[|s|-1], f);
      assert s == pre + [s[|s|-1]];
    }
  }

  /** No element maps to a value outside the image. */
  lemma {:induction false} FilterHitsEmpty<T, U>(s: seq<T>, f: T -> U, u: U)
    requires u !in Image(s, f)
    ensures Filter(s, Hits(f, u)) == []
    decreases |s|
  {
    if s != [] {
      FilterHitsEmpty(s[..|s|-1], f, u);
    }
  }

  /** A property of every element holds of every distinct element. */
  lemma {:induction false} DistinctAll<T>(s: seq<T>, p: T -> bool)
    requires forall i :: 0 <= i < |s| ==> p(s[i])
    ensures forall i :: 0 <= i < |Distinct(s)| ==> p(Distinct(s)[i])
    decreases |s|
  {
    if s != [] {
      DistinctAll(s[..|s|-1], p);
    }
  }
}
