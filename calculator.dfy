/** The SLCSP calculator: from the plans table and a resolved (state, rate
    area), the second-smallest distinct Silver rate (healthplans/slcsp.py,
    the second half of `slcsp_from_fips`). */
module Calculator {
  import opened Rows

  /** A per-location result; `Undefined` is the source's NaN. */
  datatype Rate = Defined(value: int) | Undefined

  /** Only exact state, rate area and metal level "Silver" select a plan. */
  predicate Relevant(p: Plan, state: string, rateArea: int) {
    p.state == state && p.rateArea == rateArea && p.metalLevel == "Silver"
  }

  /** The rate column of the selected plans, in table order, duplicates kept. */
  function SilverRates(plans: seq<Plan>, state: string, rateArea: int): (rates: seq<int>)
    ensures forall x :: x in rates <==> exists p :: p in plans && Relevant(p, state, rateArea) && p.rate == x
  {
    if plans == [] then []
    else if Relevant(plans[0], state, rateArea) then
      [plans[0].rate] + SilverRates(plans[1..], state, rateArea)
    else SilverRates(plans[1..], state, rateArea)
  }

  function Lowest(s: seq<int>): (m: int)
    requires s != []
    ensures m in s && forall x :: x in s ==> m <= x
  {
    if |s| == 1 then s[0]
    else
      assert s == [s[0]] + s[1..];
      var m := Lowest(s[1..]);
      if s[0] <= m then s[0] else m
  }

  /** The values of `s` strictly greater than `m`. */
  function Above(m: int, s: seq<int>): (r: seq<int>)
    ensures forall x :: x in r <==> x in s && m < x
  {
    if s == [] then []
    else if m < s[0] then [s[0]] + Above(m, s[1..])
    else Above(m, s[1..])
  }

  /** Selection distributes over concatenated plan tables and keeps table order. */
  lemma {:induction false} SilverRatesAppend(a: seq<Plan>, b: seq<Plan>, state: string, rateArea: int)
    ensures SilverRates(a + b, state, rateArea) == SilverRates(a, state, rateArea) + SilverRates(b, state, rateArea)
  {
    if a != [] {
      assert (a + b)[1..] == a[1..] + b;
      SilverRatesAppend(a[1..], b, state, rateArea);
    } else {
      assert a + b == b;
    }
  }

  /** Replacing a plan that is not selected by one that is not selected
      either leaves the selected rates unchanged. */
  lemma {:induction false} SilverRatesIgnoreOtherPlans(plans: seq<Plan>, i: nat, q: Plan, state: string, rateArea: int)
    requires i < |plans|
    requires !Relevant(plans[i], state, rateArea) && !Relevant(q, state, rateArea)
    ensures SilverRates(plans[i := q], state, rateArea) == SilverRates(plans, state, rateArea)
  {
    if i > 0 {
      assert plans[i := q][1..] == plans[1..][i - 1 := q];
      SilverRatesIgnoreOtherPlans(plans[1..], i - 1, q, state, rateArea);
    } else {
      assert plans[i := q][1..] == plans[1..];
    }
  }

  /** Reference definition of the second lowest cost: the lowest rate
      strictly above the lowest one, undefined when there is none. */
  function SecondLowest(rates: seq<int>): Rate {
    if rates == [] then Undefined
    else
      var above := Above(Lowest(rates), rates);
      if above == [] then Undefined else Defined(Lowest(above))
  }

  /** `v` is a rate of `rates` and exactly one distinct rate of `rates` lies below it. */
  ghost predicate IsSecondLowest(v: int, rates: seq<int>) {
    && v in rates
    && (exists u :: u in rates && u < v)
    && (forall u, w :: u in rates && w in rates && u < v && w < v ==> u == w)
  }

  /** A defined result is exactly the value with one distinct smaller rate. */
  lemma SecondLowestDefined(rates: seq<int>, v: int)
    ensures SecondLowest(rates) == Defined(v) <==> IsSecondLowest(v, rates)
  {
  }

  /** Fewer than two distinct rates (none, or all equal) give `Undefined`,
      and nothing else does. */
  lemma SecondLowestUndefined(rates: seq<int>)
    ensures SecondLowest(rates) == Undefined <==> forall x, y :: x in rates && y in rates ==> x == y
  {
  }

  /** The result depends only on the SET of rates: row order and how often
      a rate repeats do not matter. */
  lemma SecondLowestOfSameValues(r1: seq<int>, r2: seq<int>)
    requires forall x :: x in r1 <==> x in r2
    ensures SecondLowest(r1) == SecondLowest(r2)
  {
  }

  ghost predicate Ascending(s: seq<int>) {
    forall i, j :: 0 <= i < j < |s| ==> s[i] <= s[j]
  }

  /** Index of a smallest element of `a[from..]`. */
  method MinIndexFrom(a: array<int>, from: nat) returns (m: nat)
    requires from < a.Length
    ensures from <= m < a.Length
    ensures forall k :: from <= k < a.Length ==> a[m] <= a[k]
  {
    m := from;
    var k := from + 1;
    while k < a.Length
      invariant from <= m < k <= a.Length
      invariant forall t :: from <= t < k ==> a[m] <= a[t]
    {
      if a[k] < a[m] {
        m := k;
      }
      k := k + 1;
    }
  }

  /** Sorts `a` ascending in place (the source's `unique_rates.sort()`). */
  method SortAscending(a: array<int>)
    modifies a
    ensures Ascending(a[..])
    ensures multiset(a[..]) == old(multiset(a[..]))
  {
    var i := 0;
    while i < a.Length
      invariant 0 <= i <= a.Length
      invariant forall p, q :: 0 <= p < q < i ==> a[p] <= a[q]
      invariant forall p, q :: 0 <= p < i <= q < a.Length ==> a[p] <= a[q]
      invariant multiset(a[..]) == old(multiset(a[..]))
    {
      var m := MinIndexFrom(a, i);
      a[i], a[m] := a[m], a[i];
      i := i + 1;
    }
  }

  /** A permutation of the distinct rates holds the same values as the rates. */
  lemma PermutationOfDistinctValues(rates: seq<int>, s: seq<int>)
    requires multiset(s) == multiset(Distinct(rates))
    ensures forall x :: x in s <==> x in rates
  {
    var d := Distinct(rates);
    forall x ensures x in s <==> x in rates {
      assert x in s <==> x in multiset(s);
      assert x in d <==> x in multiset(d);
    }
  }

  /** A permutation of the distinct rates has no two equal neighbours at its head. */
  lemma PermutationOfDistinctHeadsDiffer(rates: seq<int>, s: seq<int>)
    requires multiset(s) == multiset(Distinct(rates)) && |s| >= 2
    ensures s[0] != s[1]
  {
    if s[0] == s[1] {
      assert s == [s[0], s[1]] + s[2..];
      assert multiset(s)[s[0]] >= 2;
      NoDuplicatesCountsOnce(Distinct(rates), s[0]);
    }
  }

  /** An ascending list of exactly the rates' values, with its first two
      entries distinct, holds the second lowest rate at index 1. */
  lemma AscendingValuesSecond(rates: seq<int>, s: seq<int>)
    requires Ascending(s) && forall x :: x in s <==> x in rates
    requires |s| >= 2 ==> s[0] != s[1]
    ensures |s| < 2 ==> SecondLowest(rates) == Undefined
    ensures |s| >= 2 ==> SecondLowest(rates) == Defined(s[1])
  {
    if |s| == 1 {
      SecondLowestUndefined(rates);
    } else if |s| >= 2 {
      forall u | u in rates && u < s[1] ensures u == s[0] {
        var k :| 0 <= k < |s| && s[k] == u;
      }
      assert s[0] in rates && s[0] < s[1];
      SecondLowestDefined(rates, s[1]);
    }
  }

  /** Sorting the distinct rates and taking index 1, as the source does,
      yields the reference second lowest rate; fewer than two sorted
      distinct rates means it is undefined. */
  lemma SortedDistinctSecond(rates: seq<int>, s: seq<int>)
    requires multiset(s) == multiset(Distinct(rates)) && Ascending(s)
    ensures |s| < 2 ==> SecondLowest(rates) == Undefined
    ensures |s| >= 2 ==> SecondLowest(rates) == Defined(s[1])
  {
    PermutationOfDistinctValues(rates, s);
    if |s| >= 2 {
      PermutationOfDistinctHeadsDiffer(rates, s);
    }
    AscendingValuesSecond(rates, s);
  }
}
