/** The fixtures of tests/test_slcsp.py as lemmas, with rates in cents.
    The tests key on the ZIP column; this model keys on the county code,
    so the fixtures are stated on county codes. */
module SlcspExamples {
  import opened Rows
  import opened Resolver
  import opened Calculator
  import opened Slcsp

  function Zips(): seq<Location> {
    [ Location("64148", "MO", "29095", 3),
      Location("40813", "KY", "21013", 8),
      Location("54923", "WI", "55139", 15) ]
  }

  function MissouriRates(): seq<int> {
    [29005, 23460, 26582, 25108, 35160, 31206, 24520, 26525, 25365, 31957, 27164, 29887, 34124]
  }

  function SilverPlans(state: string, rateArea: int, rates: seq<int>): (plans: seq<Plan>)
    ensures |plans| == |rates|
    ensures forall i :: 0 <= i < |rates| ==> plans[i] == Plan(state, "Silver", rates[i], rateArea)
  {
    if rates == [] then [] else [Plan(state, "Silver", rates[0], rateArea)] + SilverPlans(state, rateArea, rates[1..])
  }

  function Plans(): seq<Plan> {
    SilverPlans("MO", 3, MissouriRates()) + SilverPlans("WI", 15, [32670, 41074])
  }

  /** 245.20 is the second lowest of the thirteen Missouri rate area 3 rates. */
  lemma MissouriSecondLowest()
    ensures SecondLowest(MissouriRates()) == Defined(24520)
  {
    var rates := MissouriRates();
    forall u | u in rates && u < 24520 ensures u == 23460 { }
    assert 23460 in rates && 24520 in rates;
    SecondLowestDefined(rates, 24520);
  }

  /** Rates [197.30, 197.30, 201.10, 305.40, 306.70, 411.24]: the repeated
      lowest rate counts once, so the answer is 201.10. */
  lemma DuplicateLowestRateCountsOnce()
    ensures SecondLowest([19730, 19730, 20110, 30540, 30670, 41124]) == Defined(20110)
  {
  }

  /** A block of Silver plans of one state and rate area contributes its
      rates, in order, to that area and nothing to any other. */
  lemma {:induction false} SilverRatesOfBlock(state: string, rateArea: int, rates: seq<int>, s: string, ra: int)
    ensures SilverRates(SilverPlans(state, rateArea, rates), s, ra) == if state == s && rateArea == ra then rates else []
  {
    if rates != [] {
      SilverRatesOfBlock(state, rateArea, rates[1..], s, ra);
    }
  }

  lemma SilverRatesOfPlans(s: string, ra: int)
    ensures SilverRates(Plans(), s, ra) ==
      (if s == "MO" && ra == 3 then MissouriRates() else []) + (if s == "WI" && ra == 15 then [32670, 41074] else [])
  {
    SilverRatesAppend(SilverPlans("MO", 3, MissouriRates()), SilverPlans("WI", 15, [32670, 41074]), s, ra);
    SilverRatesOfBlock("MO", 3, MissouriRates(), s, ra);
    SilverRatesOfBlock("WI", 15, [32670, 41074], s, ra);
  }

  lemma MissouriSilverRates()
    ensures SilverRates(Plans(), "MO", 3) == MissouriRates()
  {
    SilverRatesOfPlans("MO", 3);
  }

  lemma WisconsinSilverRates()
    ensures SilverRates(Plans(), "WI", 15) == [32670, 41074]
  {
    SilverRatesOfPlans("WI", 15);
    assert "WI"[0] != "MO"[0];
  }

  lemma WisconsinSecondLowest()
    ensures SecondLowest([32670, 41074]) == Defined(41074)
  {
  }

  /** County 29095 (Jackson, MO, rate area 3): 245.20. */
  lemma MissouriRateFor()
    ensures RateFor("29095", Plans(), Zips()) == Ok(Defined(24520))
  {
    FirstSeenStateWins("29095", Zips(), 0);
    MissouriSilverRates();
    MissouriSecondLowest();
  }

  /** County 55139 (Winnebago, WI, rate area 15) has two Silver plans: the dearer one. */
  lemma WisconsinRateFor()
    ensures RateFor("55139", Plans(), Zips()) == Ok(Defined(41074))
  {
    FirstSeenStateWins("55139", Zips(), 2);
    WisconsinSilverRates();
    WisconsinSecondLowest();
  }

  /** Kentucky rate area 8 has no Silver plan: undefined. */
  lemma KentuckyUndefined()
    ensures RateFor("21013", Plans(), Zips()) == Ok(Undefined)
  {
    FirstSeenStateWins("21013", Zips(), 1);
    SilverRatesOfPlans("KY", 8);
    assert "KY" != "MO" && "KY" != "WI" by { assert "KY"[0] != "MO"[0] && "KY"[0] != "WI"[0]; }
  }

  /** The two-rate-area test's rule stated on the county key: a new row
      puts county 55139 itself in rate area 11 as well, so the result is
      undefined although rate area 15 has enough plans. The test's own
      extra rows carry other county codes; see the next lemma. */
  lemma SecondRateAreaUndefined()
    ensures RateFor("55139", Plans(), Zips() + [Location("54923", "WI", "55139", 11)]) == Ok(Undefined)
  {
    var locs := Zips() + [Location("54923", "WI", "55139", 11)];
    AmbiguousIsUndefined("55139", Plans(), locs, locs[2], locs[3]);
  }

  /** The two-rate-area test's own extra rows for ZIP 54923 carry the
      county codes 55047 (rate area 15) and 55137 (rate area 11). Keyed on
      county, they leave county 55139 unambiguous at 410.74. */
  lemma CountyKeyedTestRowsStayDefined()
    ensures RateFor("55139", Plans(), Zips() + [Location("54923", "WI", "55047", 15), Location("54923", "WI", "55137", 11)])
         == Ok(Defined(41074))
  {
    var locs := Zips() + [Location("54923", "WI", "55047", 15), Location("54923", "WI", "55137", 11)];
    assert "55047" != "55139" && "55137" != "55139" by {
      assert "55047"[2] != "55139"[2] && "55137"[4] != "55139"[4];
    }
    FirstSeenStateWins("55139", locs, 2);
    WisconsinSilverRates();
    WisconsinSecondLowest();
  }

  /** The tie test's plans, placed in Missouri rate area 3 and looked up
      through county 29095: the repeated lowest rate counts once. */
  lemma DuplicateTieThroughMissouri()
    ensures RateFor("29095", SilverPlans("MO", 3, [19730, 19730, 20110, 30540, 30670, 41124]), Zips()) == Ok(Defined(20110))
  {
    FirstSeenStateWins("29095", Zips(), 0);
    SilverRatesOfBlock("MO", 3, [19730, 19730, 20110, 30540, 30670, 41124], "MO", 3);
    DuplicateLowestRateCountsOnce();
  }

  /** A requested code missing from the location table fails the batch. */
  lemma UnknownCodeFailsBatch()
    ensures MapRates(["29095", "21013", "99999"], Plans(), Zips()) == KeyError
  {
    assert Unknown("99999", Zips());
  }
}
