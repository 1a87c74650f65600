# Astrological time map: aspect events, transit merge, lane layout

This project models the computational core of an astrology desktop
application's "time map". The time map is a timeline of the aspects that
progressed and transiting bodies form over a window of months. The model is
written in Dafny and covers these parts:

- `calculate_aspects` (module `Aspects`). It scans every pair of bodies of a
  chart and reports each of seven aspect kinds whose angle the pair's folded
  separation is within the orb of. Each report is the string
  `"<body1> <aspect> <body2>"`.
- The split of a day's progressed aspects into a lunar tier and an "other
  progressions" tier (module `Tiers`).
- The per-tier sweep of `_process_aspect_events` (module `Sweep`). It walks the
  window's days in order and opens a record on the first day an aspect name
  appears. Each day the name is present adds one orb reading. On the first day
  the name is missing, the sweep emits an event whose exact date is its
  smallest-orb reading.
- The transit merge and the whole event pipeline (module `Merge`). All passes
  of one transit become a single event: earliest start, latest end, one sorted
  exact date per pass, and the exact date and longitude of the globally most
  exact reading. Progression events pass through unmerged.
- `_perform_layout` (module `Lanes`). It stably sorts by start day and packs
  boxes into lanes first-fit.
- `_get_house_for_position` (module `Houses`), together with a corrected lookup
  for charts whose cusp wrap is not between houses 12 and 1 (see Findings).
- `_get_glyph_label` (module `Glyphs`). It builds transit and progression
  labels from the font's glyph table.

Some notes on how the model represents the source:

- Days are integers: offsets from the view's start date. The sweep runs over
  days -1 through `months * 30`.
- Aspect records, longitudes and x-coordinates are inputs.
- `Option` (module `Wrappers`) stands for Python's `None`.
- `HouseResult` has three cases:
  - `House(n)` stands for the string `str(n)`;
  - `NotAvailable` stands for `"N/A"`;
  - `IndexError` stands for the exception that a short cusp list raises.

A same-chart aspect names its two bodies in the chart's key order, the
order in which `calculate_aspects` meets them (`Aspects.TwoBodyOrder`).

## Model

| member | source | states |
|---|---|---|
| Aspects.Separation | astro_engine.py:37-39 | for two longitudes in [0, 360) the folded separation is min(\|a-b\|, 360-\|a-b\|) and lies in [0, 180] |
| Aspects.SeparationSymmetric | astro_engine.py:37-39 | the separation does not depend on the order of the two bodies |
| Aspects.CalculateAspects | astro_engine.py:23-44 | the output has one string per scan match, and a string is reported exactly when it is the label of some pair i < j and kind whose separation is within the orb of the kind's angle |
| Aspects.CalculateAspectsLoop | astro_engine.py:23-44 | the nested loops, appending to a list, produce exactly the functional scan's output |
| Aspects.ScanComplete | astro_engine.py:31-43 | a (pair, kind) candidate is reported if and only if i < j, both are bodies of the chart, and the separation is within the orb of the kind's angle, boundary included |
| Aspects.ScanOrdered | astro_engine.py:31-43 | reports come in pair-major, kind-minor order, strictly ascending, so no candidate is reported twice |
| Aspects.OutputBound | astro_engine.py:31-43 | a chart of n bodies yields at most 7 * n(n-1)/2 reports |
| Aspects.NegativeOrbReportsNothing | astro_engine.py:41 | a negative orb reports nothing |
| Aspects.BothAdjacentKindsReported | astro_engine.py:27-43 | there is no deduplication: with an orb of at least 15, a separation midway between two adjacent kinds is reported under both |
| Aspects.TwoBodyOrder | astro_engine.py:25-43 | the body earlier in key order is named first: swapping a two-body chart's order reports the same kinds with the two names exchanged |
| Tiers.LunarProgAspects | timeline_grid_widget.py:100 | the lunar tier holds exactly the aspects whose first body is the Moon and second is not |
| Tiers.OtherProgAspects | timeline_grid_widget.py:101 | the other tier holds exactly the aspects with no Moon |
| Tiers.TiersPartition | timeline_grid_widget.py:100-101 | the two tiers and the aspects whose second body is the Moon split the day's list exactly, duplicates included |
| Tiers.TiersDisjoint | timeline_grid_widget.py:100-101 | no aspect is in both tiers; one with the Moon second is in neither |
| TimeMap.ArgMin | timeline_grid_widget.py:138 | `min(..., key=orb)`: the chosen reading's orb is at most every other reading's and strictly below every earlier one's (first minimum) |
| TimeMap.Sort | timeline_grid_widget.py:171 | the sorted dates are in non-decreasing order and are a permutation of the input |
| Sweep.NameIndexSpec | timeline_grid_widget.py:123 | the day's name index holds exactly the day's names, each mapped to an aspect of that name from the list |
| Sweep.NameIndexLastWins | timeline_grid_widget.py:123 | when a name occurs twice in a day's list, the later aspect wins |
| Sweep.FirstNamesSpec | timeline_grid_widget.py:123-125 | the day's names are visited once each, in order of first appearance |
| Sweep.OpenNewTracked | timeline_grid_widget.py:125-127 | after opening, a name is tracked exactly when it was tracked before or is present today |
| Sweep.OpenNewDistinct | timeline_grid_widget.py:125-127 | opening never tracks a name twice |
| Sweep.StepPhases | timeline_grid_widget.py:125-146 | one day is the open loop, the feed loop and the closing loop, in that order |
| Sweep.KeepSpec | timeline_grid_widget.py:134-136 | exactly the records whose name is present today stay tracked, and tracked names stay distinct |
| Sweep.CloseSpec | timeline_grid_widget.py:134-146 | the events of a day are exactly the records absent today that have readings, each finished on that day |
| Sweep.AdvanceKeeps | timeline_grid_widget.py:125-136 | after a day, the tracked records are the present records, each with today's reading appended |
| Sweep.AdvanceCloses | timeline_grid_widget.py:134-146 | a day's events are exactly the absent, non-empty records; each ends that day and carries the swept tier |
| Sweep.StepEnds | timeline_grid_widget.py:134-146 | every event a day closes ends on that day and belongs to the swept tier |
| Sweep.SweepTier | timeline_grid_widget.py:117-146 | every event of a tier's sweep carries that tier and starts and closes inside the window; two events of one name are separate runs, the earlier closing before the later one starts, so no run is emitted twice |
| Sweep.SweepEventsWellFormed | timeline_grid_widget.py:117-146 | every emitted event has start < end ≤ the last window day; the name is present on every day from start to end-1, absent on end, and absent the day before start; there is one reading per day in date order; the data is the first day's; the exact date is the first smallest-orb reading's day, within [start, end) |
| Sweep.RunEnds | timeline_grid_widget.py:119-146 | after k days every emitted event has closed before day k |
| Sweep.EventsInCloseOrder | timeline_grid_widget.py:134-146 | events are emitted in order of the day they close on |
| Sweep.EventsGrow | timeline_grid_widget.py:119-146 | events emitted by an earlier day stay, in place, at the front of the list after any later day |
| Sweep.ClosedRunEmitted | timeline_grid_widget.py:119-146 | completeness and uniqueness: a run of a name that starts in the window and ends before its last day is emitted with exactly that start and end, and at exactly one position of the output |
| Sweep.OpenAtEndNotEmitted | timeline_grid_widget.py:119-146 | there is no flush after the loop: a run still present on the window's last day is never emitted |
| Merge.FiltersAppend | timeline_grid_widget.py:148-149 | both tier filters distribute over concatenation |
| Merge.SplitByTier | timeline_grid_widget.py:148-149 | filtering the three tiers' concatenated events gives back the two progression tiers in order, and the transit passes |
| Merge.FindName | timeline_grid_widget.py:154 | a found entry carries the name; when none is found, no entry does |
| Merge.MinStartSpec | timeline_grid_widget.py:159 | the merged start is at most every pass's start and equals one of them |
| Merge.MaxEndSpec | timeline_grid_widget.py:160 | the merged end is at least every pass's end and equals one of them |
| Merge.PassNamesSpec | timeline_grid_widget.py:151-155 | the merge table's key order lists each pass name once, exactly the names that have passes |
| Merge.ExpectedSnoc | timeline_grid_widget.py:158-162 | absorbing one more pass into a name's widened entry gives the widened entry of all its passes |
| Merge.MergeAllSpec | timeline_grid_widget.py:151-162 | the table has one entry per name, in order of first pass, and each entry is the name's first pass widened over all its passes: min start, max end, every exact date in pass order, all readings in pass order |
| Merge.FinalizeAllFrom | timeline_grid_widget.py:164-172 | every output event is the finalization of a table entry that has readings |
| Merge.FinalizeAllHas | timeline_grid_widget.py:164-172 | every table entry with readings is finalized into the output |
| Merge.MergeTransits | timeline_grid_widget.py:151-172 | after the merge there is at most one transit event per name |
| Merge.MergedTransit | timeline_grid_widget.py:151-172 | a merged event keeps its first pass's name, data and tier; its start is the min and its end the max over its passes; its exact dates are sorted, one per pass, and are a permutation of the passes' exact dates; its readings are all the passes' readings; its exact date and position come from the global first smallest-orb reading |
| Merge.MergedSpanCovers | timeline_grid_widget.py:159-161 | each pass of a name lies inside the merged span, and its exact date is among the merged exact dates |
| Merge.MergedCount | timeline_grid_widget.py:164-172 | when every pass has readings, each pass name yields exactly one merged event |
| Merge.BuildDay | timeline_grid_widget.py:100-107 | a cached day's lunar and other tiers hold exactly the tiered aspects; its transit list and positions are as given |
| Merge.TierSnaps | timeline_grid_widget.py:119-129 | there is one snapshot per window day, from day -1 on; a day missing from the cache has no aspects; a cached day's snapshot holds exactly the swept tier's list for that day and that day's transit positions |
| Merge.TierEventsOfTier | timeline_grid_widget.py:117-146 | every event of a tier's sweep carries that tier |
| Merge.ProcessEvents | timeline_grid_widget.py:111-174 | an empty cache yields no events; otherwise the result is the lunar tier's events, then the other tier's, unchanged and in sweep order, followed by the merged transit passes |
| Merge.EventsInWindow | timeline_grid_widget.py:114-146 | every final event, merged or not, satisfies -1 ≤ start < end ≤ months * 30 |
| Lanes.GridBox | timeline_grid_widget.py:205-209 | a grid box is 170 wide and centred on the exact date's x |
| Lanes.LineBox | timeline_grid_widget.py:202-214 | a line box ends at its end date's x and is widened on the left by the label's advance plus 15 |
| Lanes.BoxesWellFormed | timeline_grid_widget.py:202-214 | grid boxes never run backwards, and neither does a line box whose dates are in order and whose label advance is not negative |
| Lanes.SortByStartSpec | timeline_grid_widget.py:198 | the sort is stable: the output is ordered by start day, and for every start day it lists exactly that day's input events in input order (so it is a permutation) |
| Lanes.FirstFit | timeline_grid_widget.py:216-222 | the chosen lane is the lowest one whose recorded end is at most the box's left edge; every lower lane ends after it; it is the lane count when no lane fits |
| Lanes.PackInv | timeline_grid_widget.py:216-227 | every box has a lane below the lane count, which is at most the number of boxes; every lane holds a box; and a lane's recorded end is at least the right edge of each of its boxes |
| Lanes.SameLaneDisjoint | timeline_grid_widget.py:216-227 | of two well-formed boxes in the same lane, the earlier-placed one ends at or before the later one begins |
| Lanes.FirstFitLowest | timeline_grid_widget.py:216-227 | each box takes the lowest lane free at its left edge given the boxes before it, and opens a new lane only when every lane is busy |
| Lanes.LaneCount | timeline_grid_widget.py:216-227 | lane < number of lanes ≤ number of boxes, and every lane is used |
| Lanes.Layout | timeline_grid_widget.py:190-232 | the layout has one entry per input event, stably sorted by start and a permutation of the input, and each entry is drawn at `yStart + lane * laneHeight` |
| Lanes.LayoutSpec | timeline_grid_widget.py:199-230 | for boxes that do not run backwards, lanes are below the event count and same-lane boxes do not overlap |
| Houses.SlotsSpec | timeline_grid_widget.py:398-402 | on a full cusp list the written scan answers house i+1 exactly for the first slot i whose consecutive-cusps test holds; otherwise it answers 12 exactly when the twelfth-house test holds, and "N/A" otherwise; it never raises |
| Houses.HouseAsWrittenSpec | timeline_grid_widget.py:396-403 | the same for `_get_house_for_position` with a position: first matching slot, else the twelfth-house test, never an error |
| Houses.HouseAsWritten | timeline_grid_widget.py:396-403 | no cusps, or no position, give "N/A"; a full cusp list never raises; a short one never gives "N/A"; a house found is between 1 and 12 |
| Houses.ShortCuspsRaise | timeline_grid_widget.py:398-401 | a list of one to eleven cusps never yields "N/A": it answers an early house below the list's length or raises IndexError |
| Houses.CuspOpensHouseAsWritten | timeline_grid_widget.py:396-403 | with cusps ascending within one turn, the written lookup puts each cusp's own longitude in the house that cusp opens |
| Houses.FirstArc | timeline_grid_widget.py:398-402 | the corrected scan answers the first house whose arc holds the position, and "N/A" exactly when no arc does |
| Houses.ArcsCover | timeline_grid_widget.py:396-403 | for cusps going once round the circle, every position in [0, 360) lies on some house's arc |
| Houses.ArcsDisjoint | timeline_grid_widget.py:396-403 | for such cusps no position lies on two arcs |
| Houses.HouseOf | timeline_grid_widget.py:396-403 | the corrected lookup: "N/A" without data, the IndexError exactly for one to eleven cusps, otherwise the first house whose arc holds the position, and "N/A" exactly when no arc does |
| Houses.HouseOfSpec | timeline_grid_widget.py:396-403 | for such cusps the corrected lookup always answers a house, and it answers house i+1 exactly when the position is on that house's arc |
| Houses.CuspOpensHouse | timeline_grid_widget.py:396-403 | for such cusps a cusp's own longitude is in the house it opens, wherever the wrap through 0 degrees falls |
| Houses.AgreeOnAscending | timeline_grid_widget.py:396-403 | on full lists whose only downward step is from cusp 12 to cusp 1, the corrected and the written lookups agree for every position |
| Houses.WrappedHouseAsWritten | timeline_grid_widget.py:398-402 | on a chart whose wrap falls in house 6, three positions on house 6's arc are reported as house 12 |
| Houses.WrappedHouseCorrected | timeline_grid_widget.py:398-402 | the corrected lookup reports those positions as house 6 |
| Glyphs.Get | timeline_grid_widget.py:178-181 | `dict.get`: a listed name gives its glyph, an unlisted one the default |
| Glyphs.NameOf | timeline_grid_widget.py:17-28 | the reverse lookup finds an entry with that glyph, or reports that none has it |
| Glyphs.GlyphMapBijective | timeline_grid_widget.py:17-28 | the glyph table lists no name and no glyph twice, and neither `?` nor a blank is a glyph |
| Glyphs.GlyphRoundTrip | timeline_grid_widget.py:17-28 | looking a listed name up and the glyph back gives the name again |
| Glyphs.UnknownName | timeline_grid_widget.py:178-180 | a name is drawn as `?` exactly when the table lacks it, and `?` names nothing |
| Glyphs.ProgressedIsTableGlyph | timeline_grid_widget.py:181 | the progressed marker is the table's `(P)` glyph U+E530, never the fallback `P` |
| Glyphs.AspectGlyphs | timeline_grid_widget.py:24-25 | of the seven kinds `calculate_aspects` reports, exactly Semi-Sextile and Inconjunct have no glyph and are drawn as `?` |
| Glyphs.ParseRender | timeline_grid_widget.py:183-188 | label rendering and parsing are inverse in both directions |
| Glyphs.GlyphLabel | timeline_grid_widget.py:176-188 | a transit label has 5 characters and a progression label 7, and parsing a label gives back its three glyphs and its kind |
| Glyphs.LabelRoundTrip | timeline_grid_widget.py:176-188 | a label built from names the table knows decodes to exactly those names and the label's kind |
| Glyphs.UnknownLabel | timeline_grid_widget.py:176-188 | a label built with an unknown name does not decode |

## Left out

- Ephemeris calls: `get_planet_position` and `calculate_natal_chart` (astro_engine.py:4-21) call into the Swiss Ephemeris. Longitudes and house cusps are inputs.
- The `__main__` demo in astro_engine.py prints, and is not modelled.
- Position computation in `_calculate_daily_aspects` (timeline_grid_widget.py:93-98) is not modelled. It calls functions that astro_engine.py does not define: `calculate_secondary_progressions`, `find_cross_aspects` and `PLANETS`. A day's aspect lists are inputs, and `Merge.BuildDay` models the tier split and the cached record.
- calculate_aspects returns strings, but the widget reads aspect records with `name`, `p1`, `p2`, `aspect` and `orb` keys. The model keeps both as written: `Aspects.CalculateAspects` returns strings, and the sweep takes `Aspect` records as input.
- The transiting body's longitude at a reading is written `day_data['transit_pos'][p1][0]`, which indexes a float. It is modelled as a lookup in the day's position map. A missing body gives `None` instead of the source's exception.
- Dates are day offsets from the view's start, not `datetime` values, so the `strftime` keys are not modelled.
- Sweep.CloseSpec: same-day events close in tracking order (the order their records were opened). The source iterates a set difference, whose order is set by string hashes and is not specified. Only the relative order of events that close on the same day is affected.
- `progressed_pos` is stored in the cache but never read by the core, so it is not modelled.
- The merge mutates the first pass's record in place. It is modelled as a new value, since nothing reads the old record afterwards.
- Pixel geometry is not modelled: `_date_to_x`, the font's `horizontalAdvance` and all painting and Qt code. The layout takes each event's x-interval as integers: `Lanes.GridBox` and `Lanes.LineBox` for the two box shapes.
- `_get_natal_house_for_planet` (timeline_grid_widget.py:405-408) is only a caller of the house lookup, and is not modelled.
- Houses.HouseOf: the corrected lookup raises on any list of one to eleven cusps. The written lookup may still answer an early house on such a list before raising (`Houses.ShortCuspsRaise`).

## Findings

| source | as written | input that shows it | evidently intended | confidence | as-written member | corrected member |
|---|---|---|---|---|---|---|
| timeline_grid_widget.py:398-402 | Houses 1-11 are found only by `cusps[i] <= p < cusps[i+1]`, and only house 12 may wrap through 0 degrees. | cusps 200, 230, 260, 290, 320, 350, 20, 50, 80, 110, 140, 170 with positions 355, 350 or 10 | house 6, whose arc runs from 350 through 0 to 20 | not executed; follows from the code on this input | Houses.WrappedHouseAsWritten | Houses.WrappedHouseCorrected |

House cusps start at the Ascendant, which can be any longitude, so the wrap through 0 degrees falls in whichever house contains 0 degrees Aries. The written lookup then answers house 12 for every position on that house's arc. `Houses.HouseOf` lets every arc wrap. `Houses.HouseOfSpec`, `Houses.ArcsCover`, `Houses.ArcsDisjoint` and `Houses.CuspOpensHouse` prove that it places every position in exactly the house whose arc holds it. `Houses.AgreeOnAscending` proves that it matches the written lookup on charts whose wrap is between cusp 12 and cusp 1.
