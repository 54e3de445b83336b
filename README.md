# U.S. flight-delay map: data pipeline and edge segmentation

This project models the non-rendering core of the flight-delay map in `docs/script.js`:

- the flight filter stages of `processData`: the selected day, the half-hour window, and the optional origin, destination and carrier selectors (the value `"all"` switches a selector off);
- attaching each flight to its origin and destination rows of the reference airport table, through a map keyed by IATA code, and dropping flights whose airports are unknown;
- keeping the delay rows of the selected (bucket, day) pair and setting each kept row's `outgoing` metric from the arrival/departure toggle and the count/sum toggle;
- `time_distance_min` on packed `HHMM` clock readings, and the simulated clock that a half-hour bucket stands for;
- `generateSegments`, which pins the existing nodes and turns every flight edge into a chain of control points, segments and one path for edge bundling;
- `isContinental`, the basemap's state filter.

The records that the source changes in place are classes (`Records.Node`, `Records.Flight`, `Records.DelayRow`). Their CSV columns are `const`, because nothing changes them after loading. Only `source`/`target` on a flight, `outgoing` on a delay row, and `x`/`y`/`fx`/`fy` on a node are mutable. The force layout moves `x`/`y`; that layout is not modelled, so nothing in the model writes them. A JavaScript `undefined` reference is `null`. An absent `airport` code is `Option.None`. Each `filter` chain is a function over sequences of these objects. Each `forEach` loop is a method with a loop that updates the objects.

One observation follows from the proofs. The window test uses `hourData*50` for an even bucket and `hourData*50-20` for an odd one. For every bucket `hourData >= 0`, both give the same clock reading that `w_drawAirplanes` computes: bucket `h` is `h/2` hours and 0 or 30 minutes (`Airplanes.WindowTimeIsCurrentTime`). So the window keeps exactly the flights that have departed by the bucket's clock reading and have not yet arrived. For such a flight with well-formed times (the end-of-day stamp 2400 included), `0 <= PAST_MIN <= TOTAL_MIN`, so the plane's progress ratio lies in [0, 1] whenever departure and arrival differ. When they are equal, `TOTAL_MIN` is 0 and the ratio is `0/0` (`Airplanes.ProgressInRange`).

## Model

| member | source | states |
|---|---|---|
| `Seqs.Filter` | docs/script.js:71 | `Array.prototype.filter`: the result is no longer than its input and holds only input elements that satisfy the predicate |
| `Seqs.FilterSpec` | docs/script.js:71-93 | a filter keeps an order-preserving subsequence that holds exactly the elements satisfying the predicate, each as often as in the input |
| `Seqs.SubsequenceTrans` | docs/script.js:71-108 | composing filter stages still yields an order-preserving subsequence of the original list |
| `Seqs.NoRepeatsAppend` | docs/script.js:427-476 | two lists without repeats and without a common element concatenate without repeats; this is how the control points of successive edges stay distinct |
| `Seqs.SubsequenceMembers` | docs/script.js:71-108 | a subsequence never adds records and is never longer |
| `FlightFilter.WindowTime` | docs/script.js:72-77 | for a bucket `h >= 0` the window time is the reading with hour `h/2` and minute 0 (even `h`) or 30 (odd `h`) |
| `FlightFilter.InWindow` | docs/script.js:72-77 | a flight in the window departs no later than it arrives; on readings, the two packed comparisons say that the minutes from departure to the window time and from the window time to arrival are both non-negative |
| `FlightFilter.ByDate` | docs/script.js:71 | keeps, in order, exactly the flights whose `FL_DATE` equals the selected day |
| `FlightFilter.ByWindow` | docs/script.js:72-77 | keeps, in order, exactly the flights with `ARR_TIME >= t` and `DEP_TIME <= t`, where `t` is `hourData*50` for an even bucket and `hourData*50-20` for an odd one |
| `FlightFilter.BySelector` | docs/script.js:84-93 | the sentinel `"all"` returns the list unchanged; any other selector keeps, in order, exactly the flights whose column equals it |
| `FlightFilter.SelectFlights` | docs/script.js:71-93 | the five stages in sequence keep a subsequence holding exactly the flights that meet every criterion (`Selected`) |
| `Resolve.Iata` | docs/script.js:79 | the code map holds every reference row's code; each entry is a row of the table carrying that code |
| `Resolve.IataLastWins` | docs/script.js:79 | when a code occurs more than once, the map holds its last row |
| `Resolve.Lookup` | docs/script.js:98-99 | `iata.get(code)` is defined exactly when the code is a key, and is then that key's entry |
| `Resolve.ResolveEndpoints` | docs/script.js:97-102 | every flight of the list gets `source = iata.get(ORIGIN)` and `target = iata.get(DEST)`; null means undefined |
| `Resolve.DropUnresolved` | docs/script.js:106-108 | the intended final filter: an order-preserving subsequence holding exactly the flights whose two endpoints are attached and known to the map |
| `Resolve.Throws` | docs/script.js:108 | after `iata.get` set both endpoints from a map whose entries carry their own codes, the written callback throws exactly when the ORIGIN or the DEST code is unknown |
| `Resolve.DropUnresolvedAsWritten` | docs/script.js:108 | the filter as written throws exactly when some flight has an undefined source, or a known source and an undefined target; when it does not throw, it agrees with the intended filter |
| `Resolve.UnknownCodeThrows` | docs/script.js:97-108 | a flight whose ORIGIN or DEST code is missing from the reference table makes the written filter throw; the intended filter drops just that flight |
| `Resolve.AsWrittenWhenAllResolved` | docs/script.js:97-108 | when every code is known, both filters keep every flight |
| `Metrics.TableMetric` | docs/script.js:112-124 | the 2x2 table: the arrival toggle off gives an arrival aggregate, and the sum toggle on gives a sum aggregate |
| `Metrics.ChosenMetric` | docs/script.js:112-124 | on the toggle values `"0"` (count) and `"1"` (sum) the if/else chain picks the aggregate of the 2x2 table; any other count/sum value falls through to `depsum` |
| `Metrics.TableIsBijection` | docs/script.js:112-124 | each of the four aggregates is chosen by exactly one toggle combination |
| `Metrics.ByBucket` | docs/script.js:111 | keeps, in order, exactly the delay rows with `time == hourData` and `year == yearData` |
| `Metrics.AssignOutgoing` | docs/script.js:112-124 | every row gets `outgoing` equal to the stored value of the chosen aggregate |
| `Pipeline.ProcessData` | docs/script.js:54-124 | the kept flights are an order-preserving subsequence of the input holding exactly the flights that meet the criteria and whose two codes are in the reference table; each is attached to the map's rows for its `ORIGIN` and `DEST`, which are rows of the table; every flight that meets the criteria, kept or dropped, has `source = iata.get(ORIGIN)` and `target = iata.get(DEST)`; flights that fail the criteria keep their old endpoints; the kept delay rows are the bucket filter's result, each with the chosen `outgoing`; other rows keep theirs |
| `Clock.TruncDivMod` | docs/script.js:595-598 | `parseInt(t/100)` and `t%100` divide with a remainder of the dividend's sign, smaller in size than 100 |
| `Clock.TimeDistance` | docs/script.js:594-600 | for non-negative readings, `time_distance_min(a, b) = ((b/100)*60 + b%100) - ((a/100)*60 + a%100)` with Euclidean `/` and `%` |
| `Clock.DistanceIsDifference` | docs/script.js:594-600 | the distance is the difference of the two readings' minutes since midnight |
| `Clock.DistanceToSelf` | docs/script.js:594-600 | `d(a, a) = 0` |
| `Clock.DistanceAdditive` | docs/script.js:594-600 | `d(a, b) + d(b, c) = d(a, c)` |
| `Clock.DistanceAntisymmetric` | docs/script.js:594-600 | `d(a, b) = -d(b, a)` |
| `Clock.MinutesOfDayBounds` | docs/script.js:594-600 | a well-formed reading lies within one day |
| `Clock.DistanceMonotone` | docs/script.js:594-600 | for readings (non-negative, minute below 60, any hour), `a <= b` implies `d(a, b) >= 0` |
| `Clock.DistanceZeroIff` | docs/script.js:594-600 | two readings are zero minutes apart exactly when they are equal |
| `Clock.DistanceSignIsOrder` | docs/script.js:594-600 | for readings, `a <= b` exactly when `d(a, b) >= 0` |
| `Airplanes.CurrentTime` | docs/script.js:565 | for a bucket `h >= 0`, `current_time` is the reading with hour `h/2` and minute 0 or 30 |
| `Airplanes.CurrentTimeIsHalfHour` | docs/script.js:565 | for buckets 0..47 the clock value is a well-formed reading with hour `hourData/2` and minute 0 or 30, i.e. `30*hourData` minutes after midnight |
| `Airplanes.WindowTimeIsCurrentTime` | docs/script.js:72-77 | the window filter's even/odd threshold equals the clock value of the same bucket |
| `Airplanes.Progress` | docs/script.js:575-576 | `PAST_MIN` is the minutes since midnight of the clock minus those of departure; `TOTAL_MIN` is those of arrival minus those of departure |
| `Airplanes.ProgressInRange` | docs/script.js:575-577 | for a flight that passed the window test whose times are readings (2400 included), `0 <= PAST_MIN <= TOTAL_MIN`; `TOTAL_MIN = 0` exactly when departure equals arrival; progress is 0 at departure and complete at arrival |
| `Segments.LinksAlong` | docs/script.js:448-474 | a chain of `n >= 1` nodes has `n-1` segments, segment `j` joining nodes `j` and `j+1` |
| `Segments.ChainIsConnected` | docs/script.js:460-474 | each segment of a chain starts where the previous one ends |
| `Segments.LinksAlongSnoc` | docs/script.js:458-474 | appending a node to a chain appends one segment from the old last node |
| `Segments.LerpEnds` | docs/script.js:435-441 | the scales map step 0 to the source coordinate and step `total+1` to the target coordinate |
| `Segments.SegmentCounts` | docs/script.js:427-477 | paths of `total+2` nodes contribute `Σ total` control points and `Σ (total+1)` segments |
| `Segments.LinksAreAdjacent` | docs/script.js:460-474 | every segment joins two consecutive nodes of one path, never two non-adjacent ones |
| `Segments.SegmentLink` | docs/script.js:443-476 | one edge: the path runs `d.source`, `total` fresh, pairwise distinct, unpinned control points at fractions `j/(total+1)` of the straight line, then `d.target`; its control points, segments and path are appended to the bundle |
| `Segments.ExtendBundle` | docs/script.js:427-476 | one turn of the edge loop: the new path is appended after the earlier ones, every earlier path still runs between its edge's endpoints through its control points at the same positions, and only the new path's inner nodes are new objects, distinct from each other and from every earlier control point |
| `Segments.Pin` | docs/script.js:421-425 | every existing node gets `fx == x` and `fy == y`, with its position unchanged |
| `Segments.Subdivide` | docs/script.js:427-477 | after the loop over the edges, the bundle's nodes are the pinned nodes followed by the control points, its links are exactly the paths' segments, and there is one path per edge, in edge order; the control points are fresh and no two are the same object |
| `Segments.GenerateSegments` | docs/script.js:413-480 | the pinned existing nodes occupy the first positions of `bundle.nodes`, in their order; `bundle.nodes` has `Σ total` more entries than `nodes`; `bundle.links` has `Σ (total+1)` entries; there are as many paths as links; path `i` has `total_i + 2` nodes and runs from `links[i].source` to `links[i].target`; the control points are fresh and pairwise distinct |
| `Geography.IsContinental` | docs/script.js:484-487 | among state codes, all but Alaska (2) and Hawaii (15) are kept; every code from 60 on (the territories) is dropped |
| `Geography.ContinentalOnly` | docs/script.js:158 | the basemap filter keeps, in order, exactly the continental ids |
| `Records.Flight.constructor` | docs/script.js:509-514 | a loaded flight has its columns and no endpoints attached |
| `Records.DelayRow.constructor` | docs/script.js:491-508 | a loaded delay row has its aggregates and `outgoing` 0 |
| `Records.Node.Control` | docs/script.js:452-455 | a control point is a new `{x, y}` object: no airport code, the given position, not pinned |
| `Records.Node.Airport` | docs/script.js:522-529 | a reference airport has its code and projected position and is not pinned |

## Left out

- Rendering is not modelled: `drawMap`, `drawPoints`, `drawAirports` (legend, Voronoi, tooltips), `w_drawFlights`, the drawing of `w_drawAirplanes`, and the show/hide branches at the end of `processData`. These are D3/DOM side effects.
- The `d3.forceSimulation` layout in `drawFlights` is not modelled. It is a foreign library running floating-point physics in asynchronous tick callbacks. The model stops at the bundle it is given, with the pinned `fx`/`fy`.
- The Albers projection is not modelled; it is a foreign call. Positions are given as `real` coordinates.
- The `parseInt`/`parseFloat` conversions in `typeAirport`, `typeFlight`, `typeAllairport` and `typeCompanys` are not modelled. Loaded columns are already integers or strings. `NaN` from malformed text is not represented.
- The per-edge inner node count `Math.round(scales.segments(distance(...)))` is not computed. `distance` uses `sqrt` and the scale rounds a float. The count is passed in as `totals[i]`.
- Segments.GenerateSegments: requires `totals[i] >= 1`. The scale maps a non-negative distance onto `[1, 10]` or beyond, so the rounded count is always at least 1. With 0 the source would push a last link from `null`.
- Segments.SegmentLink: control point coordinates are exact reals. IEEE rounding of the d3 scale is not modelled.
- Aircraft position and heading (`Math.atan`, the float ratio `PAST_MIN/TOTAL_MIN`, the `NaN` position when `TOTAL_MIN` is 0) are not modelled. Only the integer inputs `PAST_MIN` and `TOTAL_MIN` are (`Airplanes.Progress`), together with when `TOTAL_MIN` is zero.
- Clock.TimeDistance: `parseInt(t/100)` is modelled as truncation toward zero. JavaScript's float division and its string form of numbers of magnitude 1e21 and above are not modelled.
- Metrics.ChosenMetric: `arrivalShow` is a boolean and `isDelayCount` a string. The chain at lines 112-124 compares them with loose `==`, which would also accept the number 0 for `'0'` or the number 1 for `true`; values of other types are not represented.
- FlightFilter.ByDate and Metrics.ByBucket: `FL_DATE == yearData` (line 71) and `time == hourData`, `year == yearData` (line 111) use loose `==`. The model compares integers, so a UI value given as a string such as `"3"` is not represented.
- Geography.IsContinental: `parseInt(state.id)` at line 485 is not modelled. Ids arrive as integers, so the text `"01"` reading as 1, and a `NaN` id that every comparison drops, are not represented.
- The unpacking of the `values` array and the unused `airplaneCompany` are not modelled.
- Data loading (`d3.json`, the CSV URLs) is not modelled; it is I/O.

## Findings

| source | as written | input that shows it | evidently intended | confidence | as-written member | corrected member |
|---|---|---|---|---|---|---|
| docs/script.js:108 | `flights.filter(link => iata.has(link.source.airport) && iata.has(link.target.airport))` reads `.airport` of `iata.get(code)`, which is `undefined` for an unknown code, so it throws a `TypeError` | a flight that passes the criteria and whose `ORIGIN` (or `DEST`) code has no row in the reference airport table | drop that flight and keep the rest, as the comment on line 106 says | not executed; follows from JavaScript property access on `undefined` | `Resolve.DropUnresolvedAsWritten`, with `Resolve.UnknownCodeThrows` | `Resolve.DropUnresolved`, used by `Pipeline.ProcessData` |

The comment on line 106 says the final filter is meant to drop flights that are not between known airports. The model follows the code, records the discrepancy above, and builds the pipeline on the corrected filter.

The metric choice at lines 112-124 is an if/else chain whose final `else` catches every count/sum value other than `"0"`, not only `"1"`. That fall-through is modelled as written (`Metrics.ChosenMetric`).
