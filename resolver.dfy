/** Rate-area resolution: which (state, rate area) a county code stands for
    (healthplans/slcsp.py, the first half of `slcsp_from_fips`). */
module Resolver {
  import opened Rows

  /** What a code resolves to: no row carries it (the source raises
      `KeyError`), its rows name more than one rate area, or one area. */
  datatype Resolution = NoMatch | Ambiguous | Area(state: string, rateArea: int)

  /** The location rows whose county code is `code`, in table order. */
  function MatchingRows(code: string, locs: seq<Location>): (rows: seq<Location>)
    ensures forall l :: l in rows <==> l in locs && l.countyCode == code
  {
    if locs == [] then []
    else if locs[0].countyCode == code then [locs[0]] + MatchingRows(code, locs[1..])
    else MatchingRows(code, locs[1..])
  }

  predicate AllInRateArea(rows: seq<Location>, rateArea: int) {
    forall l :: l in rows ==> l.rateArea == rateArea
  }

  /** The resolver: no match, ambiguous when the matching rows disagree on
      the rate area, otherwise the first matching row's state and rate
      area. Rows that disagree only on the state are not ambiguous. */
  function Resolve(code: string, locs: seq<Location>): (r: Resolution)
    ensures r == NoMatch <==> forall l :: l in locs ==> l.countyCode != code
    ensures r == Ambiguous <==>
      exists l1, l2 :: l1 in locs && l2 in locs && l1.countyCode == code && l2.countyCode == code &&
                       l1.rateArea != l2.rateArea
    ensures r.Area? ==>
      && (exists l :: l in locs && l.countyCode == code && l.state == r.state)
      && (forall l :: l in locs && l.countyCode == code ==> l.rateArea == r.rateArea)
  {
    var rows := MatchingRows(code, locs);
    if rows == [] then
      NoMatch
    else if !AllInRateArea(rows, rows[0].rateArea) then
      Ambiguous
    else
      Area(rows[0].state, rows[0].rateArea)
  }

  /** The first row that carries `code` heads the matching rows. */
  lemma {:induction false} FirstMatchingRow(code: string, locs: seq<Location>, i: nat)
    requires i < |locs| && locs[i].countyCode == code
    requires forall j :: 0 <= j < i ==> locs[j].countyCode != code
    ensures MatchingRows(code, locs) != [] && MatchingRows(code, locs)[0] == locs[i]
  {
    if i > 0 {
      FirstMatchingRow(code, locs[1..], i - 1);
    }
  }

  /** First-seen state: when all rows of a code share one rate area, the
      code resolves to the state of its FIRST row, whatever states the
      later rows name. */
  lemma FirstSeenStateWins(code: string, locs: seq<Location>, i: nat)
    requires i < |locs| && locs[i].countyCode == code
    requires forall j :: 0 <= j < i ==> locs[j].countyCode != code
    requires forall l :: l in locs && l.countyCode == code ==> l.rateArea == locs[i].rateArea
    ensures Resolve(code, locs) == Area(locs[i].state, locs[i].rateArea)
  {
    FirstMatchingRow(code, locs, i);
  }
}
