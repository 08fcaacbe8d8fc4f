# Second lowest cost Silver plan (SLCSP), modelled in Dafny

This project models the core of `health-plan-stats`: the function
`slcsp_from_fips` and its batch driver `process_rates` in
`healthplans/slcsp.py`. For a county code, the computation:

- resolves the code to a (state, rate area) through the location table;
- selects the Silver plans of that state and rate area;
- reduces their rates to distinct values, sorts them, and answers with
  the second-smallest.

`process_rates` does this for every distinct county code of the location
table.

The files:

- `rows.dfy` (module `Rows`): the location and plan rows. It also holds
  `Distinct`, the first-appearance-order de-duplication that pandas'
  `unique()` performs.
- `resolver.dfy` (module `Resolver`): the rate-area resolver, which gives
  no match, ambiguous, or one (state, rate area).
- `calculator.dfy` (module `Calculator`):
  - Silver plan selection.
  - A reference definition of the second lowest rate: the lowest rate
    strictly above the lowest one.
  - An in-place selection sort on an array, proved sorted and a
    permutation.
  - The proof that "sort the distinct rates, take index 1" agrees with the
    reference definition.
- `slcsp.dfy` (module `Slcsp`):
  - `SlcspFromFips`, a method that follows the source step by step. It
    has early returns, copies the distinct rates into an array, sorts it
    in place and indexes it. It is proved equal to the specification
    function `RateFor`.
  - `MapRates`, the `map` over codes.
  - `ProcessRates`.
  - The lemmas for the per-location rules.
- `examples.dfy` (module `SlcspExamples`): the fixtures of
  `tests/test_slcsp.py` restated as lemmas.

Modelling choices:

- Rates are integers in cents. The source only compares, de-duplicates
  and sorts rates, never adds them, so the order of the values is all
  that matters.
- `NaN` becomes the constructor `Undefined`.
- The `KeyError` for an unknown code becomes the constructor `KeyError`
  of `Result`.
- Codes and states are strings, compared exactly.

Where the code and its documentation disagree, the model follows the code:

- `process_rates` takes two tables and keys its output on `county_code`.
- Its docstring and the tests pass a third table of requested ZIP codes
  and key on `zipcode`.
- The model is keyed on the county code, as written. The test fixtures
  are restated on county codes.
- The two-rate-area test adds rows for ZIP 54923 under the new county
  codes 55047 (rate area 15) and 55137 (rate area 11). Keyed on county,
  those rows leave county 55139 unambiguous, and
  `CountyKeyedTestRowsStayDefined` proves that 55139 still gets 410.74.
  `SecondRateAreaUndefined` shows the test's rule on the county key
  instead: it adds a row that puts county 55139 itself in rate area 11.

One consequence of the code as written: every code that `process_rates`
looks up comes from the location table itself. So, for a location table
without missing county codes, the batch never raises `KeyError`, and
`ProcessRates` proves this for the model's tables, whose codes are always
present. The rule that an unknown code fails the whole batch is stated
and proved on `MapRates`, the `map` over an arbitrary list of codes.

## Model

| member | source | states |
|---|---|---|
| `Rows.Distinct` | healthplans/slcsp.py:28 | the distinct values hold exactly the values of the input, with no repeats and no more entries than the input |
| `Rows.DistinctInFirstAppearanceOrder` | healthplans/slcsp.py:51 | `unique()` lists values in the order of their first appearance in the column; since the code column of `ProcessRates` is `Distinct` of the county codes, this is the output order of `process_rates` |
| `Resolver.MatchingRows` | healthplans/slcsp.py:15-18 | the selected rows are exactly the location rows whose county code equals the requested code |
| `Resolver.Resolve` | healthplans/slcsp.py:15-25 | no match exactly when no row carries the code; ambiguous exactly when two rows of the code name different rate areas; otherwise the code's rows all share the returned rate area and one of them names the returned state |
| `Resolver.FirstMatchingRow` | healthplans/slcsp.py:18-19 | the first location row that carries the code heads the selected rows (`iloc[0]`) |
| `Resolver.FirstSeenStateWins` | healthplans/slcsp.py:23-25 | when the code's rows share one rate area, the code resolves to the first row's state, whatever states later rows name; spanning states is not an error |
| `Calculator.SilverRates` | healthplans/slcsp.py:26-27 | a rate is selected exactly when some plan with equal state, equal rate area and metal level "Silver" has it |
| `Calculator.SilverRatesAppend` | healthplans/slcsp.py:26-27 | selection keeps table order and distributes over concatenated plan tables |
| `Calculator.SilverRatesIgnoreOtherPlans` | healthplans/slcsp.py:26-27 | replacing an unselected plan by another unselected plan leaves the selected rates unchanged |
| `Calculator.SecondLowestDefined` | healthplans/slcsp.py:28-33 | the result is `Defined(v)` exactly when `v` is one of the rates and exactly one distinct rate is smaller than `v` |
| `Calculator.SecondLowestUndefined` | healthplans/slcsp.py:28-32 | the result is `Undefined` exactly when there are fewer than two distinct rates (none, or all equal) |
| `Calculator.SecondLowestOfSameValues` | healthplans/slcsp.py:28 | the result depends only on the set of rates: order and repetition do not matter |
| `Calculator.MinIndexFrom` | healthplans/slcsp.py:29 | returns the index of a smallest element of the unsorted suffix |
| `Calculator.SortAscending` | healthplans/slcsp.py:29 | after the in-place sort the array is ascending and a permutation of what it held |
| `Calculator.SortedDistinctSecond` | healthplans/slcsp.py:28-33 | for any ascending permutation of the distinct rates, fewer than two entries means `Undefined` and otherwise index 1 is the second lowest rate |
| `Slcsp.SlcspFromFips` | healthplans/slcsp.py:14-33 | the step-by-step computation (early returns, distinct rates sorted in an array, index 1) returns exactly `RateFor` of its inputs |
| `Slcsp.RateForKeyError` | healthplans/slcsp.py:15-17 | the computation fails with `KeyError` exactly when no location row carries the code |
| `Slcsp.AmbiguousIsUndefined` | healthplans/slcsp.py:19-22 | two rows of the code in different rate areas make the result `Undefined`, whatever the plans are |
| `Slcsp.FirstRowStateDecides` | healthplans/slcsp.py:23-27 | with one rate area, the result is the second lowest Silver rate of the first row's state and that rate area |
| `Slcsp.OtherPlansIgnored` | healthplans/slcsp.py:26-27 | changing a plan outside the resolved state, rate area and Silver level into another such plan leaves the result unchanged |
| `Slcsp.RateForDefined` | healthplans/slcsp.py:26-33 | for a resolved code the result is `Defined(v)` exactly when `v` is the rate of a selected plan and exactly one distinct selected rate is below it |
| `Slcsp.RateForUndefined` | healthplans/slcsp.py:26-32 | for a resolved code the result is `Undefined` exactly when the selected plans have fewer than two distinct rates |
| `Slcsp.MapRates` | healthplans/slcsp.py:55 | fails exactly when some code has no location row; otherwise one entry per code, in order, each holding that code's result |
| `Slcsp.MapRatesKeepsCodes` | healthplans/slcsp.py:55-57 | a successful map's code column is the list of codes it was given |
| `Slcsp.ProcessRates` | healthplans/slcsp.py:51-57 | never fails (the model's codes cannot be missing); its code column is the distinct county codes, without repeats, covering every location row's code and no other; each entry holds that code's result |
| `SlcspExamples.MissouriRateFor` | tests/test_slcsp.py:22-64 | county 29095 (MO, rate area 3) with the thirteen Missouri plans gives 245.20 |
| `SlcspExamples.WisconsinRateFor` | tests/test_slcsp.py:46-56 | county 55139 (WI, rate area 15) with plans at 326.70 and 410.74 gives 410.74 |
| `SlcspExamples.KentuckyUndefined` | tests/test_slcsp.py:22-57 | county 21013 (KY, rate area 8) has no Silver plan, so the result is undefined |
| `SlcspExamples.SecondRateAreaUndefined` | tests/test_slcsp.py:66-75 | a second row putting county 55139 itself in rate area 11 makes the result undefined (the test's rule moved from the ZIP onto the county code) |
| `SlcspExamples.CountyKeyedTestRowsStayDefined` | tests/test_slcsp.py:66-75 | keyed on county as the code is written, the test's extra rows for ZIP 54923 (counties 55047 and 55137) leave county 55139 at 410.74 |
| `SlcspExamples.DuplicateTieThroughMissouri` | tests/test_slcsp.py:84-100 | the tie plans run through county 29095 (MO, rate area 3) give 201.10 |
| `Slcsp.PlanOrderIrrelevant` | healthplans/slcsp.py:26-28 | two plans tables that are permutations of each other give the same result for every code |
| `SlcspExamples.UnknownCodeFailsBatch` | tests/test_slcsp.py:77-82 | a batch that contains the unknown code 99999 fails with `KeyError` |
| `SlcspExamples.DuplicateLowestRateCountsOnce` | tests/test_slcsp.py:84-100 | rates 197.30, 197.30, 201.10, 305.40, 306.70, 411.24 give 201.10: the repeated lowest rate counts once |
| `SlcspExamples.MissouriSecondLowest` | tests/test_slcsp.py:43-45 | 245.20 is the second lowest distinct value of the thirteen Missouri rates |

## Left out

- Logging: the `logging.info` calls, which report ambiguity, spanning
  states, too few rates and batch size, are side effects with no bearing
  on results.
- The run-time estimate `.008 * len(all_fips)`: it is floating-point
  arithmetic that only feeds a log line.
- Floating-point rates and `NaN`: rates are whole cents and "undefined"
  is a constructor. Two float rates that differ only below a cent are
  not modelled.
- Unused columns: the `name` column of the location table and the
  `plan_id` column of the plans table are not read by the computation.
- The result as a pandas `DataFrame` with columns `fips` and `rate`: it
  is a sequence of `Entry(code, rate)` values.
- `process_plan_rates.py`: CSV reading, two-decimal output formatting and
  printing are I/O glue, not part of this model.
- The requested-ZIP-code table: the docstring and tests pass it to
  `process_rates`, but the code as written neither takes it nor reads it.
- `tests/test_script.py`: an end-to-end comparison against sample files
  that are not part of this model.
- A whole-batch fixture example: the three per-county results are proved
  one by one, but not as one equation over `ProcessRates`.
- Missing values in `county_code`, `state` and `rate_area`: pandas reads
  a blank cell as `NaN`, which never compares equal to anything, and the
  model's string and integer columns cannot be missing. In the source a
  blank county code is still listed by `unique()` but matches no row, so
  it raises `KeyError` and fails the whole batch. A blank rate area makes
  its code ambiguous even with a single row. A blank state selects no
  plans.
- ProcessRates: `ensures r.Ok?` holds for tables without missing county
  codes only; see the previous line.
- Idempotence (running twice gives the same table): this holds
  because every member here is a deterministic function or method, so no
  separate lemma states it.
