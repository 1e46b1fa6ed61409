/**
 * The pure decisions behind EarthquakeCityMap's loops: which quake's threat
 * circle reaches which city, which marker a hit test selects, which country
 * contains a location, and the per-city and per-country aggregates.
 */
module Correlation {
  import opened Wrappers
  import opened CommonMarker
  import opened EarthquakeMarker
  import opened CityMarker

  // ---------------------------------------------------------------------
  // Threat circles

  /**
   * The geometry the map does not compute itself: `distance(a, b)` is
   * getDistanceTo, the great-circle distance in kilometres measured from
   * the marker at `a`, and `pow18(e)` is Math.pow(1.8, e).
   */
  datatype Geometry = Geometry(distance: (Location, Location) -> real, pow18: real -> real)

  /** The test made when quake `q` is clicked: the distance from the quake
      to the city is within the quake's threat circle. */
  predicate CityInThreatCircle(geo: Geometry, q: Quake, c: City) {
    geo.distance(q.location, c.location) <= ThreatCircle(q, geo.pow18)
  }

  /** The test made from the city's side (a city click, and the nearby
      quakes of a clicked city): the distance from the city to the quake is
      within the quake's own threat circle. */
  predicate QuakeThreatensCity(geo: Geometry, c: City, q: Quake) {
    geo.distance(c.location, q.location) <= ThreatCircle(q, geo.pow18)
  }

  /** Both sides use the quake's circle, so the relation is symmetric as
      soon as the distance is. */
  lemma ThreatRelationSymmetric(geo: Geometry, q: Quake, c: City)
    requires geo.distance(q.location, c.location) == geo.distance(c.location, q.location)
    ensures CityInThreatCircle(geo, q, c) <==> QuakeThreatensCity(geo, c, q)
  {
  }

  /**
   * getAllNearbyQuakes: the indices, in list order, of the quakes whose
   * threat circle reaches city `c`.
   */
  function NearbyQuakes(geo: Geometry, c: City, quakes: seq<Quake>): (r: seq<nat>)
    ensures forall k :: 0 <= k < |r| ==> r[k] < |quakes|
  {
    if quakes == [] then []
    else
      var last := |quakes| - 1;
      NearbyQuakes(geo, c, quakes[..last])
        + (if QuakeThreatensCity(geo, c, quakes[last]) then [last] else [])
  }

  /** The nearby quakes are exactly the threatening ones, each once, in
      list order. */
  lemma {:induction false} NearbyQuakesSpec(geo: Geometry, c: City, quakes: seq<Quake>)
    ensures forall i :: 0 <= i < |quakes| ==> (i in NearbyQuakes(geo, c, quakes) <==> QuakeThreatensCity(geo, c, quakes[i]))
    ensures forall k, l :: 0 <= k < l < |NearbyQuakes(geo, c, quakes)| ==>
      NearbyQuakes(geo, c, quakes)[k] < NearbyQuakes(geo, c, quakes)[l]
  {
    if quakes != [] {
      var last := |quakes| - 1;
      NearbyQuakesSpec(geo, c, quakes[..last]);
      forall i | 0 <= i < last
        ensures quakes[..last][i] == quakes[i]
      {
      }
    }
  }

  /** Scanning one more quake appends its index when it threatens `c`. */
  lemma NearbyQuakesSnoc(geo: Geometry, c: City, quakes: seq<Quake>, i: nat)
    requires i < |quakes|
    ensures NearbyQuakes(geo, c, quakes[..i + 1])
         == NearbyQuakes(geo, c, quakes[..i]) + (if QuakeThreatensCity(geo, c, quakes[i]) then [i] else [])
  {
    assert quakes[..i + 1][..i] == quakes[..i];
  }

  /** The quakes at the given indices, in that order. */
  function Select(quakes: seq<Quake>, indices: seq<nat>): (r: seq<Quake>)
    requires forall k :: 0 <= k < |indices| ==> indices[k] < |quakes|
    ensures |r| == |indices|
    ensures forall k :: 0 <= k < |r| ==> r[k] == quakes[indices[k]]
  {
    seq(|indices|, k requires 0 <= k < |indices| => quakes[indices[k]])
  }

  // ---------------------------------------------------------------------
  // Hit tests

  /** The two marker lists the event handlers scan, quakes first. */
  datatype MarkerList = QuakeList | CityList

  /** A marker of the arena: a list and a position in it. */
  datatype MarkerRef = MarkerRef(list: MarkerList, index: nat)

  /**
   * The position of the first marker of `list` at or after `from` and
   * before `n` whose hit test holds: the marker a scan that stops at the
   * first hit picks.
   */
  function FirstIndex(list: MarkerList, n: nat, isInside: MarkerRef -> bool, from: nat): (r: Option<nat>)
    requires from <= n
    decreases n - from
    ensures r.Some? ==> from <= r.value < n && isInside(MarkerRef(list, r.value))
    ensures r.Some? ==> forall k :: from <= k < r.value ==> !isInside(MarkerRef(list, k))
    ensures r.None? ==> forall k :: from <= k < n ==> !isInside(MarkerRef(list, k))
  {
    if from == n then None
    else if isInside(MarkerRef(list, from)) then Some(from)
    else FirstIndex(list, n, isInside, from + 1)
  }

  /** Scanning one more marker: the earlier hit stays, otherwise the new
      marker is the hit if its test holds. */
  lemma FirstIndexExtend(list: MarkerList, n: nat, isInside: MarkerRef -> bool)
    ensures FirstIndex(list, n + 1, isInside, 0)
         == if FirstIndex(list, n, isInside, 0).Some? then FirstIndex(list, n, isInside, 0)
            else if isInside(MarkerRef(list, n)) then Some(n)
            else None
  {
    var before, after := FirstIndex(list, n, isInside, 0), FirstIndex(list, n + 1, isInside, 0);
    if before.Some? && after.Some? {
      assert !(after.value < before.value);
      assert !(before.value < after.value);
    }
  }

  /** A hit with no hit before it is the first hit. */
  lemma FirstIndexIs(list: MarkerList, n: nat, isInside: MarkerRef -> bool, i: nat)
    requires i < n && isInside(MarkerRef(list, i))
    requires forall k :: 0 <= k < i ==> !isInside(MarkerRef(list, k))
    ensures FirstIndex(list, n, isInside, 0) == Some(i)
  {
    var r := FirstIndex(list, n, isInside, 0);
    assert r.Some?;
    assert !(r.value < i);
  }

  /** The first hit of `list` as a marker reference. */
  function FirstRef(list: MarkerList, n: nat, isInside: MarkerRef -> bool): Option<MarkerRef> {
    match FirstIndex(list, n, isInside, 0)
    case Some(i) => Some(MarkerRef(list, i))
    case None => None
  }

  /**
   * The marker that mouseMoved selects and mouseClicked clicks: the first
   * hit among the quakes, else the first hit among the cities, else none.
   */
  function FirstHit(quakeCount: nat, cityCount: nat, isInside: MarkerRef -> bool): (r: Option<MarkerRef>)
    ensures r.Some? ==> isInside(r.value)
    ensures r.Some? && r.value.list == QuakeList ==>
      r.value.index < quakeCount && forall i :: 0 <= i < r.value.index ==> !isInside(MarkerRef(QuakeList, i))
    ensures r.Some? && r.value.list == CityList ==>
      r.value.index < cityCount
      && (forall i :: 0 <= i < quakeCount ==> !isInside(MarkerRef(QuakeList, i)))
      && (forall j :: 0 <= j < r.value.index ==> !isInside(MarkerRef(CityList, j)))
    ensures r.None? ==>
      (forall i :: 0 <= i < quakeCount ==> !isInside(MarkerRef(QuakeList, i)))
      && (forall j :: 0 <= j < cityCount ==> !isInside(MarkerRef(CityList, j)))
  {
    var quakeHit := FirstRef(QuakeList, quakeCount, isInside);
    if quakeHit.Some? then quakeHit else FirstRef(CityList, cityCount, isInside)
  }

  // ---------------------------------------------------------------------
  // Country attribution

  /** One polygon of a country's outline; containment is the library's
      isInsideByLocation. */
  datatype Polygon = Polygon(outline: seq<Location>)

  /** A country marker: a single polygon, or a MultiMarker of several. */
  datatype CountryMarker =
    | SimpleCountry(name: string, shape: Polygon)
    | MultiCountry(name: string, parts: seq<Polygon>)

  /** isInCountry's test: the location lies in the polygon, or for a
      MultiMarker in one of its polygons. */
  predicate InCountry(country: CountryMarker, loc: Location, isInsideByLocation: (Polygon, Location) -> bool) {
    match country
    case SimpleCountry(_, shape) => isInsideByLocation(shape, loc)
    case MultiCountry(_, parts) => exists k :: 0 <= k < |parts| && isInsideByLocation(parts[k], loc)
  }

  /** isLand: the position of the first country containing `loc`, if any. */
  function FirstCountry(countries: seq<CountryMarker>, loc: Location,
                        isInsideByLocation: (Polygon, Location) -> bool): (r: Option<nat>)
    ensures r.Some? ==> r.value < |countries| && InCountry(countries[r.value], loc, isInsideByLocation)
    ensures r.Some? ==> forall k :: 0 <= k < r.value ==> !InCountry(countries[k], loc, isInsideByLocation)
    ensures r.None? ==> forall k :: 0 <= k < |countries| ==> !InCountry(countries[k], loc, isInsideByLocation)
  {
    if countries == [] then None
    else if InCountry(countries[0], loc, isInsideByLocation) then Some(0)
    else match FirstCountry(countries[1..], loc, isInsideByLocation)
      case Some(k) => Some(k + 1)
      case None => None
  }

  /** A containing country with none before it is the first one. */
  lemma FirstCountryIs(countries: seq<CountryMarker>, loc: Location,
                       isInsideByLocation: (Polygon, Location) -> bool, c: nat)
    requires c < |countries| && InCountry(countries[c], loc, isInsideByLocation)
    requires forall k :: 0 <= k < c ==> !InCountry(countries[k], loc, isInsideByLocation)
    ensures FirstCountry(countries, loc, isInsideByLocation) == Some(c)
  {
    var r := FirstCountry(countries, loc, isInsideByLocation);
    assert r.Some?;
    assert !(r.value < c);
  }

  /** The property table isLand leaves behind: the first containing
      country's name under "country", or the table unchanged. */
  function AttributedProperties(properties: map<string, string>, countries: seq<CountryMarker>, loc: Location,
                                isInsideByLocation: (Polygon, Location) -> bool): map<string, string>
  {
    match FirstCountry(countries, loc, isInsideByLocation)
    case Some(k) => properties["country" := countries[k].name]
    case None => properties
  }

  /** Attribution is idempotent: running it on its own output changes
      nothing more. */
  lemma AttributionIdempotent(properties: map<string, string>, countries: seq<CountryMarker>, loc: Location,
                              isInsideByLocation: (Polygon, Location) -> bool)
    ensures var once := AttributedProperties(properties, countries, loc, isInsideByLocation);
            AttributedProperties(once, countries, loc, isInsideByLocation) == once
  {
  }

  // ---------------------------------------------------------------------
  // Per-country tally (printQuakes)

  /** The land quakes whose "country" property is `name`. */
  function LandCount(name: string, quakes: seq<Quake>): nat {
    if quakes == [] then 0
    else
      var last := quakes[|quakes| - 1];
      LandCount(name, quakes[..|quakes| - 1])
        + (if IsOnLand(last) && last.country == Some(name) then 1 else 0)
  }

  /** One printed line of printQuakes: a country and its quake count. */
  datatype CountryCount = CountryCount(name: string, count: nat)

  /** The lines printQuakes prints, in country order: the countries with at
      least one land quake. */
  function CountryTally(countries: seq<CountryMarker>, quakes: seq<Quake>): seq<CountryCount> {
    if countries == [] then []
    else
      var last := countries[|countries| - 1];
      var n := LandCount(last.name, quakes);
      CountryTally(countries[..|countries| - 1], quakes) + (if n > 0 then [CountryCount(last.name, n)] else [])
  }

  function TallySum(tally: seq<CountryCount>): nat {
    if tally == [] then 0 else TallySum(tally[..|tally| - 1]) + tally[|tally| - 1].count
  }

  lemma {:induction false} TallySumConcat(a: seq<CountryCount>, b: seq<CountryCount>)
    ensures TallySum(a + b) == TallySum(a) + TallySum(b)
  {
    if b == [] {
      assert a + b == a;
    } else {
      assert (a + b)[..|a + b| - 1] == a + b[..|b| - 1];
      TallySumConcat(a, b[..|b| - 1]);
    }
  }

  /** The names of the countries. */
  function Names(countries: seq<CountryMarker>): set<string> {
    set k | 0 <= k < |countries| :: countries[k].name
  }

  /** The land quakes attributed to one of `names`. */
  function AttributedCount(names: set<string>, quakes: seq<Quake>): nat {
    if quakes == [] then 0
    else
      var last := quakes[|quakes| - 1];
      AttributedCount(names, quakes[..|quakes| - 1])
        + (if IsOnLand(last) && last.country.Some? && last.country.value in names then 1 else 0)
  }

  /** The ocean quakes. */
  function OceanCount(quakes: seq<Quake>): nat {
    if quakes == [] then 0
    else OceanCount(quakes[..|quakes| - 1]) + (if IsOnLand(quakes[|quakes| - 1]) then 0 else 1)
  }

  lemma {:induction false} AttributedCountAdd(names: set<string>, name: string, quakes: seq<Quake>)
    requires name !in names
    ensures AttributedCount(names + {name}, quakes) == AttributedCount(names, quakes) + LandCount(name, quakes)
  {
    if quakes != [] {
      AttributedCountAdd(names, name, quakes[..|quakes| - 1]);
    }
  }

  /**
   * With distinct country names, the counts printQuakes subtracts from the
   * total add up to the land quakes attributed to a listed country.
   */
  lemma {:induction false} TallySumIsAttributed(countries: seq<CountryMarker>, quakes: seq<Quake>)
    requires forall k, l :: 0 <= k < l < |countries| ==> countries[k].name != countries[l].name
    ensures TallySum(CountryTally(countries, quakes)) == AttributedCount(Names(countries), quakes)
  {
    if countries == [] {
      assert Names(countries) == {};
      AttributedNone(quakes);
    } else {
      var init, last := countries[..|countries| - 1], countries[|countries| - 1];
      assert countries == init + [last];
      TallySumIsAttributed(init, quakes);
      TallySumSnoc(init, last, quakes);
      NamesSnoc(init, last);
      AttributedCountAdd(Names(init), last.name, quakes);
    }
  }

  /** The tally of one more country adds that country's count. */
  lemma TallySumSnoc(init: seq<CountryMarker>, last: CountryMarker, quakes: seq<Quake>)
    ensures TallySum(CountryTally(init + [last], quakes))
         == TallySum(CountryTally(init, quakes)) + LandCount(last.name, quakes)
  {
    var n := LandCount(last.name, quakes);
    assert (init + [last])[..|init|] == init;
    TallySumConcat(CountryTally(init, quakes), if n > 0 then [CountryCount(last.name, n)] else []);
    assert TallySum([CountryCount(last.name, n)]) == n by {
      assert [CountryCount(last.name, n)][..0] == [];
    }
  }

  lemma NamesSnoc(init: seq<CountryMarker>, last: CountryMarker)
    requires forall k, l :: 0 <= k < l < |init| + 1 ==> (init + [last])[k].name != (init + [last])[l].name
    ensures Names(init + [last]) == Names(init) + {last.name}
    ensures last.name !in Names(init)
  {
    var countries := init + [last];
    assert countries[|init|] == last;
    assert last.name in Names(countries);
    forall x | x in Names(countries) ensures x in Names(init) + {last.name} {
      var k :| 0 <= k < |countries| && countries[k].name == x;
      if k < |init| { assert init[k] == countries[k]; }
    }
    forall x | x in Names(init) ensures x in Names(countries) {
      var k :| 0 <= k < |init| && init[k].name == x;
      assert countries[k] == init[k];
    }
    forall k | 0 <= k < |init|
      ensures init[k].name != last.name
    {
      assert countries[k] == init[k] && countries[|init|] == last;
    }
  }

  lemma {:induction false} AttributedNone(quakes: seq<Quake>)
    ensures AttributedCount({}, quakes) == 0
  {
    if quakes != [] {
      AttributedNone(quakes[..|quakes| - 1]);
    }
  }

  lemma {:induction false} AllAttributedMeansOcean(names: set<string>, quakes: seq<Quake>)
    requires forall i :: 0 <= i < |quakes| && IsOnLand(quakes[i]) ==>
      quakes[i].country.Some? && quakes[i].country.value in names
    ensures |quakes| - AttributedCount(names, quakes) == OceanCount(quakes)
  {
    if quakes != [] {
      AllAttributedMeansOcean(names, quakes[..|quakes| - 1]);
    }
  }

  /**
   * printQuakes's "OCEAN QUAKES" figure, the total minus the printed
   * counts, is the number of ocean quakes when the country names are
   * distinct and every land quake names one of the countries.
   */
  lemma OceanFigureCountsOceanQuakes(countries: seq<CountryMarker>, quakes: seq<Quake>)
    requires forall k, l :: 0 <= k < l < |countries| ==> countries[k].name != countries[l].name
    requires forall i :: 0 <= i < |quakes| && IsOnLand(quakes[i]) ==>
      quakes[i].country.Some? && quakes[i].country.value in Names(countries)
    ensures |quakes| - TallySum(CountryTally(countries, quakes)) == OceanCount(quakes)
  {
    TallySumIsAttributed(countries, quakes);
    AllAttributedMeansOcean(Names(countries), quakes);
  }

  // ---------------------------------------------------------------------
  // Per-city aggregate (drawClickedCityInfo)

  /** The summed magnitudes. */
  function SumMagnitudes(qs: seq<Quake>): real {
    if qs == [] then 0.0 else SumMagnitudes(qs[..|qs| - 1]) + qs[|qs| - 1].magnitude
  }

  /** The sum lies between |qs| times the smallest and |qs| times the
      largest magnitude, so the average lies between the two. */
  lemma {:induction false} SumMagnitudesBounds(qs: seq<Quake>, lo: real, hi: real)
    requires forall k :: 0 <= k < |qs| ==> lo <= qs[k].magnitude <= hi
    ensures (|qs| as real) * lo <= SumMagnitudes(qs) <= (|qs| as real) * hi
  {
    if qs != [] {
      SumMagnitudesBounds(qs[..|qs| - 1], lo, hi);
      assert (|qs| as real) * lo == ((|qs| - 1) as real) * lo + lo;
      assert (|qs| as real) * hi == ((|qs| - 1) as real) * hi + hi;
    }
  }

  /** `m` is the quake the "most recent" loop settles on: one with the
      smallest age code, and the first such one. */
  ghost predicate IsMostRecent(qs: seq<Quake>, m: nat) {
    && m < |qs|
    && (forall k :: 0 <= k < |qs| ==> AgeCode(qs[m].age) <= AgeCode(qs[k].age))
    && (forall k :: 0 <= k < m ==> AgeCode(qs[k].age) > AgeCode(qs[m].age))
  }

  /** There is only one such quake. */
  lemma MostRecentUnique(qs: seq<Quake>, m1: nat, m2: nat)
    requires IsMostRecent(qs, m1) && IsMostRecent(qs, m2)
    ensures m1 == m2
  {
    assert AgeCode(qs[m1].age) <= AgeCode(qs[m2].age);
    assert AgeCode(qs[m2].age) <= AgeCode(qs[m1].age);
  }

  /** Extending the list by one quake: the new quake is the most recent
      exactly when its code is strictly smaller than the earlier winner's. */
  lemma MostRecentSnoc(qs: seq<Quake>, m: nat)
    requires |qs| > 1 && IsMostRecent(qs[..|qs| - 1], m)
    ensures IsMostRecent(qs,
      if AgeCode(qs[|qs| - 1].age) < AgeCode(qs[m].age) then |qs| - 1 else m)
  {
    var init := qs[..|qs| - 1];
    assert forall k :: 0 <= k < |init| ==> init[k] == qs[k];
    var best := AgeCode(qs[m].age);
    assert forall k :: 0 <= k < |init| ==> best <= AgeCode(qs[k].age);
  }

  /** The most recent quake of a non-empty list. */
  function MostRecentIndex(qs: seq<Quake>): (m: nat)
    requires |qs| > 0
    ensures IsMostRecent(qs, m)
  {
    if |qs| == 1 then 0
    else
      var m' := MostRecentIndex(qs[..|qs| - 1]);
      MostRecentSnoc(qs, m');
      if AgeCode(qs[|qs| - 1].age) < AgeCode(qs[m'].age) then |qs| - 1 else m'
  }
}
