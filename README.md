# Dangerous-incident bubble chart: the aggregation core in Dafny

The program loads four motorsport tables (circuits, races, statuses, results),
builds one summary per circuit and draws the summaries as bubbles. A summary
holds the circuit's race count, the number of its results that ended with one
of twelve fixed "dangerous" status codes (overall and per code), and the
frequency, which is incidents per race. Two buttons sort the shared summary
array in place, by count or by frequency. Each summary then gets a cell in a
ten-column grid according to its rank. A drop-down lists each country once;
choosing one turns that country's bubbles red.

This project models that logic:

- `tables.dfy`, module `Tables`: the table rows as records. Identifier columns are canonical integers.
- `sequences.dfy`, module `Sequences`: `filter`, `some`, and `[...new Set(xs)]` as functions, with their counting and ordering lemmas.
- `aggregation.dfy`, module `Aggregation`: the per-circuit join (`Summarize`, `Aggregate`).
  - It is checked against a reference definition stated directly over the tables: the set of result-row indices that a circuit's incidents come from.
- `ranking.dfy`, module `Ranking`: the two comparators and the stable in-place insertion sort of the `array<Summary>`.
  - The sort is proved to permute the array, to order it and to leave an ordered array untouched.
  - Also here: the rank-to-cell arithmetic.
- `countries.dfy`, module `CountryFilter`: the country list, the options of the drop-down and the red/steel-blue fill.

Frequency is kept exact. `Frequency` is `Ratio(count, races)` when the circuit
has a race. With no races it is `NaN` (0/0). `Infinity` is kept for a positive
count over no race; `FrequencyCases` proves that this never happens. The sort
compares frequencies by cross-multiplication. This agrees with
`b.frequency - a.frequency <= 0`, the only thing the sort asks of the
comparator, including ECMAScript's rule that a NaN comparison result counts
as zero. The agreement holds for every pairing of NaN, Infinity and finite
values.

The join at script.js:12 compares circuit ids with strict equality on the CSV
strings. The join at script.js:17 compares with loose equality. Taking every
id to be written as a canonical decimal string, both comparisons are id
equality, and the model holds ids as integers. Other spellings of an id are
listed under "## Left out".

## Model

| member | source | states |
|---|---|---|
| Sequences.Filter | script.js:12 | the filtered rows all satisfy the predicate, every input row that satisfies it is kept, nothing else appears, and the output is no longer than the input |
| Sequences.FilterCount | script.js:16-18 | `filter(p).length` equals the number of row indices whose row satisfies `p`, so each row is counted once |
| Sequences.FilterConcat | script.js:16-18 | filtering a concatenation is the concatenation of the filtered parts, in order |
| Sequences.Dedup | script.js:199 | the de-duplicated list has no repeated value, contains every input value and only input values |
| Sequences.DedupKeepsFirstOccurrenceOrder | script.js:199 | de-duplicated values appear in the order of their first occurrence in the input |
| Aggregation.DangerousStatusIdsDistinct | script.js:9 | the dangerous codes are twelve distinct codes, between 3 and 139 |
| Aggregation.Matches | script.js:17 | a result passes the filter iff its status is the given code and some race of the circuit carries its race id |
| Aggregation.TotalCount | script.js:21 | the sum of the breakdown is at least each entry, and it is zero iff every entry is zero |
| Aggregation.Quotient | script.js:23 | `count / races` is the exact ratio iff there is a race; it is NaN exactly for 0/0 |
| Aggregation.CircuitRaces | script.js:12 | a race is among the circuit's races iff it is a race row with that circuit id |
| Aggregation.HasRace | script.js:17 | `circuitRaces.some(...)` holds iff one of the circuit's races carries the result's race id |
| Aggregation.StatusCount | script.js:16-18 | a per-status count never exceeds the number of results |
| Aggregation.Situations | script.js:14-19 | the breakdown has one entry per status code, carrying that code, in the given order |
| Aggregation.Summarize | script.js:11-36 | a summary carries the circuit's name, country and coordinates, the twelve dangerous codes in their fixed order, the total as the sum of the breakdown, and the frequency as count over race count |
| Aggregation.Aggregate | script.js:11-37 | one summary per input circuit, in input order, each with that circuit's name and country |
| Aggregation.StatusCountIsJoin | script.js:16-18 | the count for a status is the number of result rows with that status whose race id is the race id of some race row of the circuit |
| Aggregation.SituationIsJoin | script.js:14-19 | each breakdown entry of a summary equals the join count for its dangerous code |
| Aggregation.TotalOverIds | script.js:21 | summing per-status counts over distinct codes counts each joined result whose status is among them exactly once |
| Aggregation.TotalCountIsJoin | script.js:21 | a summary's total is the number of results attached to the circuit whose status is one of the twelve dangerous codes |
| Aggregation.TotalCountBounded | script.js:21 | the total never exceeds the number of results attached to the circuit's races |
| Aggregation.AbsentStatusCountsZero | script.js:14-19 | a dangerous code carried by no result of the circuit's races has count zero |
| Aggregation.TotalRacesIsRaceCount | script.js:22 | `totalrace` is the number of race rows with the circuit's id |
| Aggregation.FrequencyCases | script.js:22-23 | without races the count is 0 and the frequency NaN; with races the frequency is the exact ratio count/totalrace; Infinity never arises |
| Aggregation.ZeroRaceCircuit | script.js:12-19 | a circuit without races has a zero count for every dangerous code |
| Aggregation.NonDangerousResultIgnored | script.js:14-21 | inserting a result with a non-dangerous status anywhere in the results leaves every summary unchanged |
| Aggregation.NonDangerousResultIgnoredByAggregate | script.js:11-37 | the same for the whole aggregation output |
| Aggregation.DuplicateRaceRowCountsOnce | script.js:17 | repeating one of the circuit's race rows raises `totalrace` by one and changes no incident count |
| Ranking.FrequencyAtLeast | script.js:112-113 | true iff `g - f <= 0` or the difference is NaN, for every pairing of NaN, Infinity and Ratio: NaN on either side gives true, Infinity first gives true, a Ratio before Infinity gives false, and two ratios over races are compared by their real difference |
| Ranking.CrossMultiplicationIsDifference | script.js:112 | for positive denominators, `c*b <= a*d` holds iff the real difference `c/d - a/b` is at most zero |
| Ranking.Precedes | script.js:112-120 | the sort may keep x ahead of y iff the comparator result is at most zero: `y.count - x.count <= 0` by count; by frequency, for summaries with races, `y.count/y.totalrace - x.count/x.totalrace <= 0` |
| Ranking.PrecedesTotal | script.js:112 | for either comparator, any two summaries can be placed one way round |
| Ranking.PrecedesTransitive | script.js:120 | the comparator is transitive on comparable summaries: all of them by count; by frequency, those whose frequency is Infinity or a ratio over at least one race. This excludes NaN and also a ratio over zero races, which the aggregation never builds |
| Ranking.CrossMultiplicationTransitive | script.js:112 | comparing quotients by cross-multiplication is transitive for positive denominators |
| Ranking.SummaryFrequencyOrder | script.js:112 | on aggregated summaries, the frequency comparator is consistent exactly for circuits with a race, and there it compares count1*races2 with count2*races1 |
| Ranking.GridCell | script.js:112-113 | rank r goes to x = (r % 10)*80 + 40 in [40, 760] and y = (r / 10)*80 + 40 >= 40 |
| Ranking.GridCellRoundTrip | script.js:120-121 | the rank is recovered from its cell |
| Ranking.GridCellInjective | script.js:120-121 | distinct ranks give distinct cells |
| Ranking.GridCellRows | script.js:113 | with n bubbles every cell lies in the first (n-1)/10 + 1 rows |
| Ranking.SortDescending | script.js:112 | the array after the sort is a permutation of the array before; it is non-increasing under the comparator when every element is comparable; an already ordered array is unchanged |
| Ranking.OrderByCount | script.js:118-124 | the data array is permuted and non-increasing in count; repeating the sort changes nothing; rank r gets cell `GridCell(r)` |
| Ranking.OrderByFrequency | script.js:110-116 | the data array is permuted; it is non-increasing in frequency when no frequency is NaN; repeating the sort on an ordered array changes nothing; rank r gets cell `GridCell(r)` |
| CountryFilter.Countries | script.js:199 | `data.map(d => d.country)` keeps length and position |
| CountryFilter.UniqueCountries | script.js:199 | the country list has no duplicates and contains exactly the countries of the summaries |
| CountryFilter.UniqueCountriesInFirstAppearanceOrder | script.js:199 | the countries are listed in the order they first appear in the data |
| CountryFilter.FilterOptions | script.js:207-216 | the options are the empty "All countries" value followed by the unique countries |
| CountryFilter.BubbleFill | script.js:204 | a bubble is red exactly when its country is the selected value; the empty "All countries" value leaves every bubble with a non-empty country steel blue |
| CountryFilter.SomeBubbleRedIffListed | script.js:204 | choosing a value turns some bubble red iff that value is one of the listed countries |
| CountryFilter.FilterOptionsHighlight | script.js:204-216 | every country option turns at least one bubble red; the "All countries" option turns none red iff no circuit has an empty country |

## Left out

- Loading the four CSV files and the `Promise.all` barrier (script.js:2-7) are file I/O and asynchrony. The tables are given as parameters.
- The status table and the label lookup `statusData.find(...)` (script.js:130, script.js:189) only produce display text. The status table is not modelled.
- `radius = Math.sqrt(frequency * 200)` (script.js:32) is floating point and is not modelled.
- Floating-point rounding is not modelled. Frequencies are exact ratios, so rounding of the quotient and of `b.frequency - a.frequency` is absent.
- The force simulation is an external library and is not modelled: `d3.forceSimulation`, `ticked`, the drag handlers and `alphaTarget`/`restart` (script.js:52-108, script.js:114-115, script.js:122-123). The cells returned by the two order methods are the targets handed to `forceX`/`forceY`.
- SVG construction, the `alert` detail text and the pie chart with its legend (script.js:44-80, script.js:127-192) are presentation only.
- `console.log` (script.js:39) is output only.
- Ids are canonical integers. Loose equality between a CSV string and a number (script.js:17) also matches spellings such as "03" or " 3"; this is not modelled. Strict equality on the id strings (script.js:12) would tell "03" from "3"; this is not modelled either.
- SortDescending: does not state that equal elements keep their relative order, although ECMAScript's `Array.prototype.sort` is stable. The insertion sort is stable, but proving it needs original positions tracked through every swap.
- OrderByFrequency: states no order when some frequency is NaN. With a NaN the comparator is not a consistent order, and ECMAScript then leaves the resulting order implementation-defined. Only the permutation is promised in that case.
- OrderByCount: sorts once, where the source sorts again inside every `forceX`/`forceY` accessor call (script.js:120-121). The contract covers the repeats by proving that sorting an ordered array changes nothing.
- OrderByFrequency: sorts once instead of once per accessor call (script.js:112-113). The repeats are covered in the same way, but only for an array already in order, so not when a NaN makes the order implementation-defined.
- The model gives the values the `forceX`/`forceY` accessors return for each rank (`cells[r] == GridCell(r)`). It does not model how d3 stores them per node index. d3 calls the accessor for each index of the very array the first call sorts, so the target stored for index 0 is computed for the element that was first before the sort.
- The source finds a rank with `indexOf(d)` by object identity. In the model the rank is the summary's position in the sorted array.
- Re-running the aggregation on the same input always gives the same output, because every member of the aggregation is a mathematical function. No lemma states this.
- The starting steel-blue fill and reading the selected value from the DOM (`this.value`, script.js:203) are not modelled. The selected value is a parameter.
