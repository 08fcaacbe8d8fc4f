/** `slcsp_from_fips` and `process_rates` (healthplans/slcsp.py): resolve a
    county code, then compute its second lowest cost Silver plan rate; and
    do so for every distinct county code of the location table. */
module Slcsp {
  import opened Rows
  import opened Resolver
  import opened Calculator

  /** A computed value, or the `KeyError` the source raises for a code
      that no location row carries. */
  datatype Result<T> = Ok(value: T) | KeyError

  /** One row of the result table: a county code and its rate. */
  datatype Entry = Entry(code: string, rate: Rate)

  /** What `slcsp_from_fips` computes: the resolver's verdict, then the
      reference second lowest Silver rate of the resolved area. */
  function RateFor(code: string, plans: seq<Plan>, locs: seq<Location>): Result<Rate> {
    match Resolve(code, locs)
    case NoMatch => KeyError
    case Ambiguous => Ok(Undefined)
    case Area(state, rateArea) => Ok(SecondLowest(SilverRates(plans, state, rateArea)))
  }

  /** `slcsp_from_fips`: early returns for a missing code and for several
      rate areas; then the distinct Silver rates are copied into an array,
      sorted in place, and the entry at index 1 is the answer. */
  method SlcspFromFips(code: string, plans: seq<Plan>, locs: seq<Location>) returns (r: Result<Rate>)
    ensures r == RateFor(code, plans, locs)
  {
    var rows := MatchingRows(code, locs);
    if rows == [] {
      return KeyError;
    }
    var rateArea := rows[0].rateArea;
    if !AllInRateArea(rows, rateArea) {
      return Ok(Undefined);
    }
    var state := rows[0].state;
    var rates := SilverRates(plans, state, rateArea);
    var unique := Distinct(rates);
    var sorted := new int[|unique|](i requires 0 <= i < |unique| => unique[i]);
    assert sorted[..] == unique;
    SortAscending(sorted);
    SortedDistinctSecond(rates, sorted[..]);
    if sorted.Length < 2 {
      return Ok(Undefined);
    }
    return Ok(Defined(sorted[1]));
  }

  /** A code fails with `KeyError` exactly when no location row carries it. */
  lemma RateForKeyError(code: string, plans: seq<Plan>, locs: seq<Location>)
    ensures RateFor(code, plans, locs) == KeyError <==> forall l :: l in locs ==> l.countyCode != code
  {
  }

  /** Two rows of the code in different rate areas make the result
      `Undefined`, whatever the plans table holds. */
  lemma AmbiguousIsUndefined(code: string, plans: seq<Plan>, locs: seq<Location>, l1: Location, l2: Location)
    requires l1 in locs && l2 in locs && l1.countyCode == code && l2.countyCode == code
    requires l1.rateArea != l2.rateArea
    ensures RateFor(code, plans, locs) == Ok(Undefined)
  {
  }

  /** A code whose rows share one rate area but span several states is
      not an error: the plans are filtered on the first row's state. */
  lemma FirstRowStateDecides(code: string, plans: seq<Plan>, locs: seq<Location>, i: nat)
    requires i < |locs| && locs[i].countyCode == code
    requires forall j :: 0 <= j < i ==> locs[j].countyCode != code
    requires forall l :: l in locs && l.countyCode == code ==> l.rateArea == locs[i].rateArea
    ensures RateFor(code, plans, locs) == Ok(SecondLowest(SilverRates(plans, locs[i].state, locs[i].rateArea)))
  {
    FirstSeenStateWins(code, locs, i);
  }

  /** Replacing a plan outside the resolved state, rate area and Silver
      level by another such plan does not change the result. */
  lemma OtherPlansIgnored(code: string, plans: seq<Plan>, locs: seq<Location>, i: nat, q: Plan)
    requires i < |plans|
    requires Resolve(code, locs).Area? ==>
      var area := Resolve(code, locs);
      !Relevant(plans[i], area.state, area.rateArea) && !Relevant(q, area.state, area.rateArea)
    ensures RateFor(code, plans[i := q], locs) == RateFor(code, plans, locs)
  {
    if Resolve(code, locs).Area? {
      var area := Resolve(code, locs);
      SilverRatesIgnoreOtherPlans(plans, i, q, area.state, area.rateArea);
    }
  }

  /** The result does not depend on the order of the plans table: two
      tables holding the same rows give the same result for every code. */
  lemma PlanOrderIrrelevant(code: string, p1: seq<Plan>, p2: seq<Plan>, locs: seq<Location>)
    requires multiset(p1) == multiset(p2)
    ensures RateFor(code, p1, locs) == RateFor(code, p2, locs)
  {
    if Resolve(code, locs).Area? {
      var area := Resolve(code, locs);
      forall p ensures p in p1 <==> p in p2 {
        assert p in p1 <==> p in multiset(p1);
        assert p in p2 <==> p in multiset(p2);
      }
      SecondLowestOfSameValues(SilverRates(p1, area.state, area.rateArea), SilverRates(p2, area.state, area.rateArea));
    }
  }

  /** For a resolved code the result is `Defined(v)` exactly when `v` is
      the rate of a selected plan with exactly one distinct selected rate
      below it. */
  lemma RateForDefined(code: string, plans: seq<Plan>, locs: seq<Location>, v: int)
    requires Resolve(code, locs).Area?
    ensures var area := Resolve(code, locs);
      RateFor(code, plans, locs) == Ok(Defined(v)) <==> IsSecondLowest(v, SilverRates(plans, area.state, area.rateArea))
  {
    var area := Resolve(code, locs);
    SecondLowestDefined(SilverRates(plans, area.state, area.rateArea), v);
  }

  /** For a resolved code the result is `Undefined` exactly when the
      selected plans have fewer than two distinct rates. */
  lemma RateForUndefined(code: string, plans: seq<Plan>, locs: seq<Location>)
    requires Resolve(code, locs).Area?
    ensures var area := Resolve(code, locs); var rates := SilverRates(plans, area.state, area.rateArea);
      RateFor(code, plans, locs) == Ok(Undefined) <==> forall x, y :: x in rates && y in rates ==> x == y
  {
  }

  /** No location row carries `code`. */
  ghost predicate Unknown(code: string, locs: seq<Location>) {
    forall l :: l in locs ==> l.countyCode != code
  }

  /** The source's `map` over a list of codes (line 55): one entry per
      code, in order; a code without location rows fails the whole batch. */
  function MapRates(codes: seq<string>, plans: seq<Plan>, locs: seq<Location>): (r: Result<seq<Entry>>)
    ensures r == KeyError <==> exists c :: c in codes && Unknown(c, locs)
    ensures r.Ok? ==> |r.value| == |codes|
    ensures r.Ok? ==>
      forall i :: 0 <= i < |codes| ==> r.value[i].code == codes[i] && RateFor(codes[i], plans, locs) == Ok(r.value[i].rate)
  {
    if codes == [] then Ok([])
    else
      assert codes == [codes[0]] + codes[1..];
      match RateFor(codes[0], plans, locs)
      case KeyError => assert Unknown(codes[0], locs); KeyError
      case Ok(rate) =>
        match MapRates(codes[1..], plans, locs)
        case KeyError => KeyError
        case Ok(rest) => Ok([Entry(codes[0], rate)] + rest)
  }

  /** A successful map lists exactly the given codes, in the given order. */
  lemma MapRatesKeepsCodes(codes: seq<string>, plans: seq<Plan>, locs: seq<Location>)
    requires MapRates(codes, plans, locs).Ok?
    ensures Codes(MapRates(codes, plans, locs).value) == codes
  {
  }

  /** The code column of a result table. */
  function Codes(entries: seq<Entry>): (codes: seq<string>)
    ensures |codes| == |entries|
    ensures forall i :: 0 <= i < |entries| ==> codes[i] == entries[i].code
  {
    seq(|entries|, i requires 0 <= i < |entries| => entries[i].code)
  }

  /** The county code column, in table order. */
  function CountyCodes(locs: seq<Location>): (codes: seq<string>)
    ensures forall l :: l in locs ==> l.countyCode in codes
    ensures forall c :: c in codes ==> exists l :: l in locs && l.countyCode == c
  {
    if locs == [] then [] else [locs[0].countyCode] + CountyCodes(locs[1..])
  }

  /** `process_rates`: every distinct county code of the location table,
      paired with its rate. Since every code comes from the table itself
      and codes here cannot be missing, the batch never fails. */
  function ProcessRates(plans: seq<Plan>, locs: seq<Location>): (r: Result<seq<Entry>>)
    ensures r.Ok?
    ensures Codes(r.value) == Distinct(CountyCodes(locs))
    ensures NoDuplicates(Codes(r.value))
    ensures forall l :: l in locs ==> exists e :: e in r.value && e.code == l.countyCode
    ensures forall e :: e in r.value ==> exists l :: l in locs && l.countyCode == e.code
    ensures forall e :: e in r.value ==> RateFor(e.code, plans, locs) == Ok(e.rate)
  {
    var codes := Distinct(CountyCodes(locs));
    assert forall c :: c in codes ==> !Unknown(c, locs);
    var r := MapRates(codes, plans, locs);
    MapRatesKeepsCodes(codes, plans, locs);
    assert forall e :: e in r.value ==> e.code in codes && RateFor(e.code, plans, locs) == Ok(e.rate) by {
      forall e | e in r.value ensures e.code in codes && RateFor(e.code, plans, locs) == Ok(e.rate) {
        var i :| 0 <= i < |r.value| && r.value[i] == e;
      }
    }
    assert forall c :: c in codes ==> exists e :: e in r.value && e.code == c by {
      forall c | c in codes ensures exists e :: e in r.value && e.code == c {
        var i :| 0 <= i < |codes| && codes[i] == c;
        assert r.value[i] in r.value;
      }
    }
    r
  }
}
