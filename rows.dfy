/** The two input tables as typed rows, and the order-preserving
    de-duplication that pandas' `unique()` performs on a column. */
module Rows {

  /** One row of the location table (`zips.csv`): the columns the SLCSP
      computation reads. Codes are opaque strings, so "01001" and "1001"
      are different codes. */
  datatype Location = Location(zipcode: string, state: string, countyCode: string, rateArea: int)

  /** One row of the plans table (`plans.csv`). The premium is held in
      cents: the computation only compares rates, never does arithmetic. */
  datatype Plan = Plan(state: string, metalLevel: string, rate: int, rateArea: int)

  ghost predicate NoDuplicates<T>(s: seq<T>) {
    forall i, j :: 0 <= i < j < |s| ==> s[i] != s[j]
  }

  /** Position of the first occurrence of `x` in `s`. */
  function FirstIndex<T(==)>(s: seq<T>, x: T): (k: nat)
    requires x in s
    ensures k < |s| && s[k] == x
    ensures forall i :: 0 <= i < k ==> s[i] != x
  {
    if s[0] == x then 0 else 1 + FirstIndex(s[1..], x)
  }

  /** The distinct values of `s`, each kept at its first appearance. */
  function Distinct<T(==, !new)>(s: seq<T>): (d: seq<T>)
    ensures forall x :: x in d <==> x in s
    ensures NoDuplicates(d)
    ensures |d| <= |s|
  {
    if s == [] then []
    else
      var init := s[..|s| - 1];
      assert s == init + [s[|s| - 1]];
      var rest := Distinct(init);
      if s[|s| - 1] in rest then rest else rest + [s[|s| - 1]]
  }

  /** A value present in a prefix has its first occurrence inside that prefix. */
  lemma FirstIndexInPrefix<T>(s: seq<T>, m: nat, x: T)
    requires m <= |s| && x in s[..m]
    ensures FirstIndex(s, x) == FirstIndex(s[..m], x)
  {
    var k, k' := FirstIndex(s, x), FirstIndex(s[..m], x);
    assert s[..m][k'] == s[k'];
  }

  /** `Distinct` lists the values in the order of their first appearance in `s`. */
  lemma {:induction false} DistinctInFirstAppearanceOrder<T(!new)>(s: seq<T>, i: nat, j: nat)
    requires i < j < |Distinct(s)|
    ensures FirstIndex(s, Distinct(s)[i]) < FirstIndex(s, Distinct(s)[j])
  {
    var init := s[..|s| - 1];
    var last := s[|s| - 1];
    assert s == init + [last];
    assert init == s[..|s| - 1];
    var rest := Distinct(init);
    var d := Distinct(s);
    if last in rest {
      assert d == rest;
      DistinctInFirstAppearanceOrder(init, i, j);
      FirstIndexInPrefix(s, |s| - 1, d[i]);
      FirstIndexInPrefix(s, |s| - 1, d[j]);
    } else {
      assert d == rest + [last];
      assert d[i] == rest[i];
      FirstIndexInPrefix(s, |s| - 1, d[i]);
      if j < |rest| {
        assert d[j] == rest[j];
        DistinctInFirstAppearanceOrder(init, i, j);
        FirstIndexInPrefix(s, |s| - 1, d[j]);
      } else {
        assert d[j] == last && last !in init;
        assert FirstIndex(s, last) == |s| - 1;
      }
    }
  }

  /** A sequence without duplicates holds each value at most once, counted as a multiset. */
  lemma {:induction false} NoDuplicatesCountsOnce<T>(s: seq<T>, x: T)
    requires NoDuplicates(s)
    ensures multiset(s)[x] <= 1
  {
    if s != [] {
      assert s == [s[0]] + s[1..];
      assert s[0] !in s[1..];
      NoDuplicatesCountsOnce(s[1..], x);
    }
  }
}
