# Earthquake city map: marker interaction and correlation

This project models the interactive core of the earthquake map. The map
shows earthquake markers, from the USGS feed, and city markers on one map.
Hovering selects the first marker under the mouse. Clicking a quake hides
everything except the quake and the cities inside its threat circle. Those
cities get an extra cross when the quake is an ocean quake. Clicking a city
hides everything except the city and the quakes whose threat circle reaches
it. A click that hits nothing restores the full view.

Outside the mouse handlers, the map does four things:

- It decides whether each quake is on land, by first-match containment over
  the country outlines, and records the country's name.
- It prints a per-country tally with an ocean count.
- It prints the largest quakes in magnitude order.
- For a clicked city, it computes the number of threatening quakes, their
  average magnitude and the most recent one.

The model is split by the program's own files:

- `common_marker.dfy` (module `CommonMarker`): a location, and the flags
  every marker shares.
- `earthquake_marker.dfy` (module `EarthquakeMarker`): the quake record and
  its query logic. This covers `compareTo`, `getAgeInt`, the colour bucket,
  the "recent" cross test and `threatCircle`.
- `city_marker.dfy` (module `CityMarker`): the city record, the
  `oceanMarkerSelected` flag and its setter, the getters, and the title
  label.
- `magnitude_sort.dfy` (module `MagnitudeSort`): the order that
  `Collections.sort` produces with `compareTo`. It holds a stable insertion
  sort, specified as a function and implemented in place on an array.
- `correlation.dfy` (module `Correlation`): the pure decisions the
  handlers' loops make. These are the threat relations, the first hit of a
  scan, the first containing country, and the tally and aggregate
  definitions.
- `earthquake_city_map.dfy` (module `QuakeMap`): the class
  `EarthquakeCityMap`. Its marker data are fixed sequences, and the flags
  its handlers write in place are arrays parallel to them. `lastSelected`
  and `lastClicked` are optional positions in those arrays. The class also
  holds the handlers and the setup-time computations as methods with loop
  invariants.

The class invariant `Valid()` carries the interaction properties. Every
flag is determined by `lastSelected` and `lastClicked`:

- Exactly the `lastSelected` marker is selected.
- Exactly the `lastClicked` marker is clicked.
- A marker is hidden exactly when the clicked marker does not relate to it.
- A city carries the ocean cross exactly when a clicked ocean quake's circle
  reaches it.

`mouseMoved` and `mouseClicked` preserve it. `isLastClickedCityMarker` is
the predicate `IsLastClickedCityMarker`, and the record getters
(`getCity`, `getCountry`, `getTitle`, `getMagnitude`, `getDepth`) are the
record fields.

## Model

| member | source | states |
|---|---|---|
| EarthquakeMarker.CompareTo | src/main/java/finalModule/EarthquakeMarker.java:41-44 | compareTo is negative iff this magnitude is larger, zero iff equal, positive iff smaller |
| EarthquakeMarker.CompareToIsTotalPreorder | src/main/java/finalModule/EarthquakeMarker.java:41-44 | compareTo is sign-antisymmetric, reflexive and transitive, as a sort comparator must be |
| EarthquakeMarker.AgeCode | src/main/java/finalModule/EarthquakeMarker.java:118-129 | the code is in 1..4; it is 1 iff the lower-cased age contains "hour", 2 iff it contains "day" but not "hour", 3 iff "week" but neither earlier word |
| EarthquakeMarker.ContainsIffOccurs | src/main/java/finalModule/EarthquakeMarker.java:120 | the substring test used by getAgeInt holds iff the word occurs at some position |
| EarthquakeMarker.MissingLetterNotContained | src/main/java/finalModule/EarthquakeMarker.java:120-124 | a word with a letter the text lacks is not contained in it |
| EarthquakeMarker.AgeCodePastHour | src/main/java/finalModule/EarthquakeMarker.java:118-121 | the feed label "Past Hour" gets code 1 |
| EarthquakeMarker.AgeCodePastDay | src/main/java/finalModule/EarthquakeMarker.java:118-123 | "Past Day" gets code 2 |
| EarthquakeMarker.AgeCodePastWeek | src/main/java/finalModule/EarthquakeMarker.java:118-125 | "Past Week" gets code 3 |
| EarthquakeMarker.AgeCodePastMonth | src/main/java/finalModule/EarthquakeMarker.java:118-128 | "Past Month" gets code 4 |
| EarthquakeMarker.AgeCodeHourWins | src/main/java/finalModule/EarthquakeMarker.java:118-121 | "hour" takes precedence over "day", and case is ignored: "1 Day 2 HOURS" gets code 1 |
| EarthquakeMarker.CrossImpliesRecentAgeCode | src/main/java/finalModule/EarthquakeMarker.java:51-52 | a quake drawn with the cross has age code 1 or 2 |
| EarthquakeMarker.CrossStricterThanAgeCode | src/main/java/finalModule/EarthquakeMarker.java:51-52 | the cross test is exact and case-sensitive: age "past hour" gets code 1 but no cross |
| EarthquakeMarker.ColorBucket | src/main/java/finalModule/EarthquakeMarker.java:89-99 | shallow iff depth < 70, intermediate iff 70 <= depth < 300, deep iff depth >= 300 |
| EarthquakeMarker.ColorBucketMonotone | src/main/java/finalModule/EarthquakeMarker.java:89-99 | a deeper quake never gets a shallower bucket |
| EarthquakeMarker.ThreatCircleDependsOnMagnitude | src/main/java/finalModule/EarthquakeMarker.java:83-87 | quakes of equal magnitude have equal threat circles |
| EarthquakeMarker.ThreatCircleIncreasing | src/main/java/finalModule/EarthquakeMarker.java:83-87 | with an increasing power function, a stronger quake has a strictly larger circle |
| CityMarker.NewCityState | src/main/java/markers/CityMarker.java:21-30 | a new city marker has oceanMarkerSelected false, so no cross, and no other flag set |
| CityMarker.SetOceanMarkerSelected | src/main/java/markers/CityMarker.java:70-72 | the setter sets the flag to b, so the cross is drawn iff b, and changes no other flag |
| CityMarker.TitleLabelSplits | src/main/java/markers/CityMarker.java:44 | for a comma-free name, the label's first comma ends the name and the country follows ", " |
| CityMarker.TitleLabelInjective | src/main/java/markers/CityMarker.java:44 | two comma-free cities with the same label have the same name and country |
| MagnitudeSort.InsertSorted | src/main/java/map/EarthquakeCityMap.java:108 | inserting into a magnitude-descending list keeps it descending |
| MagnitudeSort.InsertPermutes | src/main/java/map/EarthquakeCityMap.java:108 | inserting adds exactly the one element |
| MagnitudeSort.InsertStable | src/main/java/map/EarthquakeCityMap.java:108 | the inserted quake goes after every quake of the same magnitude |
| MagnitudeSort.SortDescProperties | src/main/java/map/EarthquakeCityMap.java:108 | the sorted list is non-increasing in magnitude, a permutation of the input, and keeps equal magnitudes in input order |
| MagnitudeSort.SortDescSorted | src/main/java/map/EarthquakeCityMap.java:108 | the stable sort of any list is non-increasing in magnitude |
| MagnitudeSort.SortDescPermutes | src/main/java/map/EarthquakeCityMap.java:108 | the stable sort of any list holds the same quakes, each as often |
| MagnitudeSort.SortDescStable | src/main/java/map/EarthquakeCityMap.java:108 | for every magnitude, the quakes of that magnitude keep their input order |
| MagnitudeSort.InsertPosition | src/main/java/map/EarthquakeCityMap.java:108 | in a sorted list, the gap after the last element not ordered after x is exactly where Insert puts x |
| MagnitudeSort.SortStep | src/main/java/map/EarthquakeCityMap.java:108 | filling that gap with the next input element gives the stable sort of the one-longer prefix |
| MagnitudeSort.ShiftGreater | src/main/java/map/EarthquakeCityMap.java:108 | the shifting loop moves right by one exactly the suffix of the prefix ordered after x, and stops after the last element that is not |
| MagnitudeSort.InsertNext | src/main/java/map/EarthquakeCityMap.java:108 | one in-place insertion step places a[i] in the prefix right after the last element compareTo does not order after it, leaving the rest |
| MagnitudeSort.SortByMagnitude | src/main/java/map/EarthquakeCityMap.java:108 | the in-place sort leaves exactly the stable descending order of the input |
| Correlation.ThreatRelationSymmetric | src/main/java/map/EarthquakeCityMap.java:167-182 | the quake-side and city-side tests agree whenever the distance is symmetric |
| Correlation.NearbyQuakes | src/main/java/map/EarthquakeCityMap.java:337-347 | every collected entry is a position in the quake list |
| Correlation.NearbyQuakesSpec | src/main/java/map/EarthquakeCityMap.java:337-347 | a quake is collected iff its circle reaches the city, and the collection is strictly increasing, so it has no repeats and keeps list order |
| Correlation.FirstIndex | src/main/java/map/EarthquakeCityMap.java:127-135 | the result is a hit with no hit before it, or none when no marker is hit |
| Correlation.FirstHit | src/main/java/map/EarthquakeCityMap.java:116-159 | the chosen marker is a hit; a chosen city means no quake is hit; none means nothing is hit |
| Correlation.FirstCountry | src/main/java/map/EarthquakeCityMap.java:269-276 | the result contains the location and no earlier country does, or no country contains it |
| Correlation.AttributionIdempotent | src/main/java/map/EarthquakeCityMap.java:300-315 | attributing a feature twice leaves the same properties as once |
| Correlation.TallySumIsAttributed | src/main/java/map/EarthquakeCityMap.java:278-298 | with distinct country names, the printed counts sum to the land quakes attributed to a listed country |
| Correlation.OceanFigureCountsOceanQuakes | src/main/java/map/EarthquakeCityMap.java:278-298 | the "OCEAN QUAKES" figure equals the number of ocean quakes when names are distinct and every land quake names a listed country |
| Correlation.SumMagnitudesBounds | src/main/java/map/EarthquakeCityMap.java:357-368 | the summed magnitude lies between count times the least and count times the greatest magnitude |
| Correlation.MostRecentUnique | src/main/java/map/EarthquakeCityMap.java:362-367 | only one position is the first quake of minimal age code |
| Correlation.MostRecentSnoc | src/main/java/map/EarthquakeCityMap.java:362-367 | one more quake becomes the most recent exactly when its age code is strictly smaller than the current winner's |
| Correlation.MostRecentIndex | src/main/java/map/EarthquakeCityMap.java:362-367 | the position has the minimal age code and every earlier quake has a larger one |
| QuakeMap.EarthquakeCityMap.constructor | src/main/java/map/EarthquakeCityMap.java:74-89 | new markers: nothing selected or clicked, all visible, no ocean cross, and the invariant holds |
| QuakeMap.EarthquakeCityMap.SetSelected | src/main/java/map/EarthquakeCityMap.java:119-130 | writes the selected flag of the one marker and nothing else |
| QuakeMap.EarthquakeCityMap.SetClicked | src/main/java/map/EarthquakeCityMap.java:140-154 | writes the clicked flag of the one marker and nothing else |
| QuakeMap.EarthquakeCityMap.SetHidden | src/main/java/map/EarthquakeCityMap.java:155 | writes the hidden flag of the one marker and nothing else |
| QuakeMap.EarthquakeCityMap.MouseMoved | src/main/java/map/EarthquakeCityMap.java:116-125 | the selection becomes the first hit, quakes before cities; only that marker is selected; clicked, hidden and ocean flags are unchanged |
| QuakeMap.EarthquakeCityMap.SelectMarkerIfHover | src/main/java/map/EarthquakeCityMap.java:127-135 | with nothing selected, the first hit of the list becomes the only selected marker; otherwise nothing changes |
| QuakeMap.EarthquakeCityMap.MouseClicked | src/main/java/map/EarthquakeCityMap.java:137-146 | the clicked marker becomes the first hit, quakes before cities, so re-clicking a marker keeps it clicked; the invariant fixes the cascade; selection is unchanged; a miss with nothing clicked changes no flag |
| QuakeMap.EarthquakeCityMap.ClearClick | src/main/java/map/EarthquakeCityMap.java:138-142 | undoing a click leaves nothing clicked, every marker visible and no ocean cross, with selection untouched |
| QuakeMap.EarthquakeCityMap.SetMarkerAsClicked | src/main/java/map/EarthquakeCityMap.java:148-159 | with nothing clicked, the first hit of the list is clicked with its cascade, and later hits do nothing |
| QuakeMap.EarthquakeCityMap.ClickMarker | src/main/java/map/EarthquakeCityMap.java:150-157 | from the unclicked state, hiding, revealing the marker and the cascade leave exactly the flags the invariant demands for it |
| QuakeMap.EarthquakeCityMap.CheckIfMarkerIsCityOrEarthQuake | src/main/java/map/EarthquakeCityMap.java:161-187 | a quake reveals exactly the cities in its circle and sets their ocean flag when it is an ocean quake; a city is marked clicked and reveals exactly the quakes whose circle reaches it |
| QuakeMap.EarthquakeCityMap.UnhideMarkers | src/main/java/map/EarthquakeCityMap.java:189-198 | every marker becomes visible and every ocean flag false, with nothing else changed |
| QuakeMap.EarthquakeCityMap.HideMarkers | src/main/java/map/EarthquakeCityMap.java:200-209 | every marker becomes hidden, with nothing else changed |
| QuakeMap.EarthquakeCityMap.AtMostOneSelected | src/main/java/map/EarthquakeCityMap.java:116-135 | under the invariant no two markers are selected |
| QuakeMap.EarthquakeCityMap.AtMostOneClicked | src/main/java/map/EarthquakeCityMap.java:137-159 | under the invariant no two markers are clicked |
| QuakeMap.EarthquakeCityMap.IsInCountry | src/main/java/map/EarthquakeCityMap.java:300-315 | true iff the polygon, or one polygon of a multi-polygon country, contains the point; on true "country" is set to the name, on false the properties are untouched |
| QuakeMap.EarthquakeCityMap.IsLand | src/main/java/map/EarthquakeCityMap.java:269-276 | true iff some country contains the point; the first such country names it; otherwise the feature is untouched |
| QuakeMap.EarthquakeCityMap.PrintQuakes | src/main/java/map/EarthquakeCityMap.java:278-298 | the printed lines are the per-country tally; the ocean figure is the total minus their counts |
| QuakeMap.EarthquakeCityMap.TopTitles | src/main/java/map/EarthquakeCityMap.java:103-114 | copying, sorting and reading off count titles gives the titles of the first count quakes of the stable descending order |
| QuakeMap.EarthquakeCityMap.SortAndPrint | src/main/java/map/EarthquakeCityMap.java:103-114 | prints min(numToPrint + 1, size) titles (none if that is negative), of the largest quakes in order |
| QuakeMap.EarthquakeCityMap.SortAndPrintTop | src/main/java/map/EarthquakeCityMap.java:109-111 | the corrected ranking: min(numToPrint, size) titles, of the largest quakes in order |
| QuakeMap.PrintedCount | src/main/java/map/EarthquakeCityMap.java:109-111 | the corrected count is at most the list size and at most numToPrint, and equals one of them |
| QuakeMap.PrintsOneMoreThanAsked | src/main/java/map/EarthquakeCityMap.java:111 | whenever fewer quakes are asked for than exist, the code as written prints numToPrint + 1 titles, the corrected count is numToPrint |
| QuakeMap.PrintsTwentyOneOfTwentyFive | src/main/java/map/EarthquakeCityMap.java:111 | setup's call with 20 on 25 quakes prints 21 titles |
| QuakeMap.TopRankedDominate | src/main/java/map/EarthquakeCityMap.java:103-114 | no quake left out is larger than a printed one; the printed quakes come from the list; ties keep feed order |
| QuakeMap.EarthquakeCityMap.GetAllNearbyQuakes | src/main/java/map/EarthquakeCityMap.java:337-347 | returns the positions of the threatening quakes in order, and unhides exactly those |
| QuakeMap.EarthquakeCityMap.DrawClickedCityInfo | src/main/java/map/EarthquakeCityMap.java:353-377 | info is shown iff a city is clicked and some quake threatens it; it holds their count, average magnitude, the title of the first quake of minimal age code and the city label; under the invariant no flag changes |
| QuakeMap.EarthquakeCityMap.NearbyAlreadyShown | src/main/java/map/EarthquakeCityMap.java:337-347 | with a city clicked, unhiding the quakes that threaten it changes no flag under the invariant |
| QuakeMap.SummarizeNearby | src/main/java/map/EarthquakeCityMap.java:355-372 | the shown figures are the count, the mean magnitude, the most recent quake's title and the city's label |
| QuakeMap.TotalMagnitude | src/main/java/map/EarthquakeCityMap.java:357-361 | the running total is the sum of the magnitudes |
| QuakeMap.MostRecent | src/main/java/map/EarthquakeCityMap.java:362-367 | the loop settles on the first quake of minimal age code, since only a strictly smaller code replaces the current one |

## Left out

- Rendering is not modelled: `draw`, `addKey`, `showCityInfo`, the drawing parts of `drawMarker` and `showTitle`, and `GraphicsUtils`. Only the decisions they draw from are modelled: the depth bucket, the two crosses and the title label.
- Setup and I/O are not modelled: the tile provider, GeoJSON loading and the HTTP feed. The class constructor takes the already parsed and classified quakes, cities and country outlines. `IsLand` models the classification step on its own.
- Console output is not modelled. The methods return the lines that would be printed instead.
- The mouse hit test `isInside(map, mouseX, mouseY)` is a parameter of each event. Polygon containment `isInsideByLocation` is a parameter of the map. Both are Unfolding library code.
- `getDistanceTo`, in the unseen `CommonMarker`, is an opaque distance function on locations. The unseen `CommonMarker`, `LandQuakeMarker` and `OceanQuakeMarker` are not part of this model. Their setters are plain field writes, and the two quake classes are a land/ocean tag.
- EarthquakeMarker.ThreatCircle: `Math.pow(1.8, 2m - 5)` is an opaque function. The result is computed over the reals, not in float and double arithmetic.
- Magnitudes, depths and distances are reals. Float parsing, NaN, and the -0.0 case of `Float.compare` are not modelled.
- QuakeMap.EarthquakeCityMap.DrawClickedCityInfo: the average is the exact quotient. It is not rounded to float and not rounded to two decimals by `DecimalFormat`.
- EarthquakeMarker.AgeCode: `toLowerCase` lower-cases only the ASCII letters. Locale-dependent and non-ASCII case mapping is not modelled.
- QuakeMap.EarthquakeCityMap.SortAndPrint: `numToPrint + 1` is unbounded. Java's `int` addition would wrap at `Integer.MAX_VALUE`, which the map never passes.
- MagnitudeSort.SortByMagnitude: `Collections.sort` is a merge sort, modelled here by an insertion sort. A stable sort by a given comparator has only one possible result, so the order is the same. The running time is not.
- Markers are positions in parallel arrays rather than shared objects. The casts between marker classes always succeed because each array holds one kind. Only the aliasing that `lastSelected`/`lastClicked` create is modelled, as positions.
- Country markers are not in any click path's frame, so no click hides or unhides them.
- The radius and population properties are not modelled. They only affect drawing.

## Findings

| source | as written | input that shows it | evidently intended | confidence | as-written member | corrected member |
|---|---|---|---|---|---|---|
| src/main/java/map/EarthquakeCityMap.java:111 | the print loop runs to `Math.min(numToPrint + 1, size)` | `sortAndPrint(20)`, the call setup makes, on a feed of 25 quakes prints 21 titles under the header "The top 20 Earthquakes" | `min(numToPrint, size)` titles | high, not executed | QuakeMap.PrintsOneMoreThanAsked | QuakeMap.EarthquakeCityMap.SortAndPrintTop |
