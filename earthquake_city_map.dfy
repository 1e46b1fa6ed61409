/**
 * EarthquakeCityMap: the map's marker store and its event handlers. The
 * per-marker data the handlers only read are sequences fixed at
 * construction; the flags they write in place are arrays indexed like those
 * sequences, and the selected and clicked markers are positions in them.
 */
module QuakeMap {
  import opened Wrappers
  import opened CommonMarker
  import opened EarthquakeMarker
  import opened CityMarker
  import opened MagnitudeSort
  import opened Correlation

  /** A parsed earthquake feature before its marker is built: its location
      and the property table that country attribution writes into. */
  class PointFeature {
    const location: Location
    var properties: map<string, string>

    constructor (location: Location, properties: map<string, string>)
      ensures this.location == location && this.properties == properties
    {
      this.location := location;
      this.properties := properties;
    }
  }

  /** What drawClickedCityInfo hands to showCityInfo. */
  datatype CityInfo = CityInfo(numQuakes: nat, avgMagnitude: real, mostRecentTitle: string, cityInfo: string)

  class EarthquakeCityMap {
    const quakes: seq<Quake>
    const cities: seq<City>
    const countryMarkers: seq<CountryMarker>
    const geo: Geometry
    const isInsideByLocation: (Polygon, Location) -> bool
    const quakeMarkers: array<MarkerState>
    const cityMarkers: array<CityState>
    var lastSelected: Option<MarkerRef>
    var lastClicked: Option<MarkerRef>

    /** The flag arrays run parallel to the marker data. */
    predicate Sized() {
      quakeMarkers.Length == |quakes| && cityMarkers.Length == |cities|
    }

    /** The length of one marker list. */
    function Count(list: MarkerList): nat {
      match list
      case QuakeList => |quakes|
      case CityList => |cities|
    }

    predicate InArena(r: MarkerRef) {
      r.index < Count(r.list)
    }

    predicate OptInArena(o: Option<MarkerRef>) {
      o.Some? ==> InArena(o.value)
    }

    /** Whether quake `i` is visible while `clicked` is the clicked marker:
        all are without a click; a clicked quake shows only itself; a
        clicked city shows the quakes whose circle reaches it. */
    predicate QuakeShown(clicked: Option<MarkerRef>, i: nat)
      requires OptInArena(clicked) && i < |quakes|
    {
      match clicked
      case None => true
      case Some(r) =>
        match r.list
        case QuakeList => i == r.index
        case CityList => QuakeThreatensCity(geo, cities[r.index], quakes[i])
    }

    /** Whether city `j` is visible: all are without a click; a clicked
        quake shows the cities in its threat circle; a clicked city shows
        only itself. */
    predicate CityShown(clicked: Option<MarkerRef>, j: nat)
      requires OptInArena(clicked) && j < |cities|
    {
      match clicked
      case None => true
      case Some(r) =>
        match r.list
        case QuakeList => CityInThreatCircle(geo, quakes[r.index], cities[j])
        case CityList => j == r.index
    }

    /** Whether city `j` carries the ocean cross: a clicked ocean quake's
        threat circle reaches it. */
    predicate OceanCross(clicked: Option<MarkerRef>, j: nat)
      requires OptInArena(clicked) && j < |cities|
    {
      && clicked.Some?
      && clicked.value.list == QuakeList
      && !IsOnLand(quakes[clicked.value.index])
      && CityInThreatCircle(geo, quakes[clicked.value.index], cities[j])
    }

    /** Exactly the marker `sel` is selected. */
    ghost predicate SelectionMatches(sel: Option<MarkerRef>)
      requires Sized()
      reads quakeMarkers, cityMarkers
    {
      && (forall i :: 0 <= i < |quakes| ==> quakeMarkers[i].selected == (sel == Some(MarkerRef(QuakeList, i))))
      && (forall j :: 0 <= j < |cities| ==> cityMarkers[j].selected == (sel == Some(MarkerRef(CityList, j))))
    }

    /** Exactly the marker `clicked` is clicked, the hidden markers are the
        ones it does not relate to, and the ocean crosses are the ones it
        causes. */
    ghost predicate FlagsMatch(clicked: Option<MarkerRef>)
      requires Sized() && OptInArena(clicked)
      reads quakeMarkers, cityMarkers
    {
      && (forall i :: 0 <= i < |quakes| ==>
            && quakeMarkers[i].clicked == (clicked == Some(MarkerRef(QuakeList, i)))
            && quakeMarkers[i].hidden == !QuakeShown(clicked, i))
      && (forall j :: 0 <= j < |cities| ==>
            && cityMarkers[j].clicked == (clicked == Some(MarkerRef(CityList, j)))
            && cityMarkers[j].hidden == !CityShown(clicked, j)
            && cityMarkers[j].oceanMarkerSelected == OceanCross(clicked, j))
    }

    /** The map's invariant: every flag is determined by lastSelected and
        lastClicked. */
    ghost predicate Valid()
      reads this, quakeMarkers, cityMarkers
    {
      && Sized()
      && OptInArena(lastSelected)
      && OptInArena(lastClicked)
      && SelectionMatches(lastSelected)
      && FlagsMatch(lastClicked)
    }

    /** The markers as setup leaves them: nothing selected, nothing
        clicked, everything visible. */
    constructor (quakes: seq<Quake>, cities: seq<City>, countryMarkers: seq<CountryMarker>,
                 geo: Geometry, isInsideByLocation: (Polygon, Location) -> bool)
      ensures Valid()
      ensures this.quakes == quakes && this.cities == cities && this.countryMarkers == countryMarkers
      ensures this.geo == geo && this.isInsideByLocation == isInsideByLocation
      ensures lastSelected == None && lastClicked == None
      ensures fresh(quakeMarkers) && fresh(cityMarkers)
    {
      this.quakes := quakes;
      this.cities := cities;
      this.countryMarkers := countryMarkers;
      this.geo := geo;
      this.isInsideByLocation := isInsideByLocation;
      quakeMarkers := new MarkerState[|quakes|](_ => InitialState);
      cityMarkers := new CityState[|cities|](_ => NewCityState());
      lastSelected := None;
      lastClicked := None;
    }

    // -------------------------------------------------------------------
    // Plain setters

    /** setSelected(b) on marker `r`. */
    method SetSelected(r: MarkerRef, b: bool)
      requires Sized() && InArena(r)
      modifies quakeMarkers, cityMarkers
      ensures forall i :: 0 <= i < |quakes| ==>
        quakeMarkers[i] == if r == MarkerRef(QuakeList, i) then old(quakeMarkers[i]).(selected := b) else old(quakeMarkers[i])
      ensures forall j :: 0 <= j < |cities| ==>
        cityMarkers[j] == if r == MarkerRef(CityList, j) then old(cityMarkers[j]).(selected := b) else old(cityMarkers[j])
    {
      if r.list == QuakeList {
        quakeMarkers[r.index] := quakeMarkers[r.index].(selected := b);
      } else {
        cityMarkers[r.index] := cityMarkers[r.index].(selected := b);
      }
    }

    /** setClicked(b) on marker `r`. */
    method SetClicked(r: MarkerRef, b: bool)
      requires Sized() && InArena(r)
      modifies quakeMarkers, cityMarkers
      ensures forall i :: 0 <= i < |quakes| ==>
        quakeMarkers[i] == if r == MarkerRef(QuakeList, i) then old(quakeMarkers[i]).(clicked := b) else old(quakeMarkers[i])
      ensures forall j :: 0 <= j < |cities| ==>
        cityMarkers[j] == if r == MarkerRef(CityList, j) then old(cityMarkers[j]).(clicked := b) else old(cityMarkers[j])
    {
      if r.list == QuakeList {
        quakeMarkers[r.index] := quakeMarkers[r.index].(clicked := b);
      } else {
        cityMarkers[r.index] := cityMarkers[r.index].(clicked := b);
      }
    }

    /** setHidden(b) on marker `r`. */
    method SetHidden(r: MarkerRef, b: bool)
      requires Sized() && InArena(r)
      modifies quakeMarkers, cityMarkers
      ensures forall i :: 0 <= i < |quakes| ==>
        quakeMarkers[i] == if r == MarkerRef(QuakeList, i) then old(quakeMarkers[i]).(hidden := b) else old(quakeMarkers[i])
      ensures forall j :: 0 <= j < |cities| ==>
        cityMarkers[j] == if r == MarkerRef(CityList, j) then old(cityMarkers[j]).(hidden := b) else old(cityMarkers[j])
    {
      if r.list == QuakeList {
        quakeMarkers[r.index] := quakeMarkers[r.index].(hidden := b);
      } else {
        cityMarkers[r.index] := cityMarkers[r.index].(hidden := b);
      }
    }

    // -------------------------------------------------------------------
    // Hover

    /** mouseMoved: the old selection is cleared and the first hit, quakes
        before cities, becomes the only selected marker. */
    method MouseMoved(isInside: MarkerRef -> bool)
      requires Valid()
      modifies this, quakeMarkers, cityMarkers
      ensures Valid()
      ensures lastSelected == FirstHit(|quakes|, |cities|, isInside)
      ensures lastClicked == old(lastClicked)
      ensures forall i :: 0 <= i < |quakes| ==>
        quakeMarkers[i].(selected := false) == old(quakeMarkers[i]).(selected := false)
      ensures forall j :: 0 <= j < |cities| ==>
        cityMarkers[j].(selected := false) == old(cityMarkers[j]).(selected := false)
    {
      if lastSelected != None {
        SetSelected(lastSelected.value, false);
        lastSelected := None;
      }
      SelectMarkerIfHover(QuakeList, isInside);
      SelectMarkerIfHover(CityList, isInside);
      ClickFlagsKept();
    }

    /** selectMarkerIfHover: when nothing is selected yet, the first hit of
        `list` becomes selected and the scan stops. */
    method SelectMarkerIfHover(list: MarkerList, isInside: MarkerRef -> bool)
      requires Sized() && OptInArena(lastSelected) && SelectionMatches(lastSelected)
      modifies this`lastSelected, quakeMarkers, cityMarkers
      ensures OptInArena(lastSelected) && SelectionMatches(lastSelected)
      ensures lastSelected == if old(lastSelected).Some? then old(lastSelected) else FirstRef(list, Count(list), isInside)
      ensures forall i :: 0 <= i < |quakes| ==>
        quakeMarkers[i].(selected := false) == old(quakeMarkers[i]).(selected := false)
      ensures forall j :: 0 <= j < |cities| ==>
        cityMarkers[j].(selected := false) == old(cityMarkers[j]).(selected := false)
    {
      var n := Count(list);
      var i := 0;
      while i < n
        invariant 0 <= i <= n
        invariant lastSelected == old(lastSelected)
        invariant quakeMarkers[..] == old(quakeMarkers[..]) && cityMarkers[..] == old(cityMarkers[..])
        invariant lastSelected.None? ==> forall k :: 0 <= k < i ==> !isInside(MarkerRef(list, k))
      {
        if isInside(MarkerRef(list, i)) && lastSelected == None {
          FirstIndexIs(list, n, isInside, i);
          SetSelected(MarkerRef(list, i), true);
          lastSelected := Some(MarkerRef(list, i));
          break;
        }
        i := i + 1;
      }
    }

    // -------------------------------------------------------------------
    // Click

    /** mouseClicked: the previous click is undone, then the first hit,
        quakes before cities, becomes the clicked marker with its cascade.
        Selection is untouched. */
    method MouseClicked(isInside: MarkerRef -> bool)
      requires Valid()
      modifies this, quakeMarkers, cityMarkers
      ensures Valid()
      ensures lastClicked == FirstHit(|quakes|, |cities|, isInside)
      ensures lastSelected == old(lastSelected)
      ensures forall i :: 0 <= i < |quakes| ==> quakeMarkers[i].selected == old(quakeMarkers[i].selected)
      ensures forall j :: 0 <= j < |cities| ==> cityMarkers[j].selected == old(cityMarkers[j].selected)
      ensures old(lastClicked) == None && lastClicked == None ==>
        quakeMarkers[..] == old(quakeMarkers[..]) && cityMarkers[..] == old(cityMarkers[..])
    {
      if lastClicked != None {
        ClearClick();
      }
      SetMarkerAsClicked(QuakeList, isInside);
      SetMarkerAsClicked(CityList, isInside);
      SelectionKept();
    }

    /** The first branch of mouseClicked: the clicked marker is unclicked,
        forgotten, and every marker shown again with no ocean cross. */
    method ClearClick()
      requires Sized() && OptInArena(lastClicked) && FlagsMatch(lastClicked)
      modifies this`lastClicked, quakeMarkers, cityMarkers
      ensures lastClicked == None && FlagsMatch(None)
      ensures forall i :: 0 <= i < |quakes| ==> quakeMarkers[i].selected == old(quakeMarkers[i].selected)
      ensures forall j :: 0 <= j < |cities| ==> cityMarkers[j].selected == old(cityMarkers[j].selected)
    {
      if lastClicked != None {
        SetClicked(lastClicked.value, false);
      }
      lastClicked := None;
      UnhideMarkers();
    }

    /** setMarkerAsClicked: when nothing is clicked yet, the first hit of
        `list` is clicked; the scan runs on but later hits find a marker
        already clicked. */
    method SetMarkerAsClicked(list: MarkerList, isInside: MarkerRef -> bool)
      requires Sized() && OptInArena(lastClicked) && FlagsMatch(lastClicked)
      modifies this`lastClicked, quakeMarkers, cityMarkers
      ensures OptInArena(lastClicked) && FlagsMatch(lastClicked)
      ensures lastClicked == if old(lastClicked).Some? then old(lastClicked) else FirstRef(list, Count(list), isInside)
      ensures forall i :: 0 <= i < |quakes| ==> quakeMarkers[i].selected == old(quakeMarkers[i].selected)
      ensures forall j :: 0 <= j < |cities| ==> cityMarkers[j].selected == old(cityMarkers[j].selected)
    {
      var n := Count(list);
      var i := 0;
      while i < n
        invariant 0 <= i <= n
        invariant OptInArena(lastClicked) && FlagsMatch(lastClicked)
        invariant lastClicked == if old(lastClicked).Some? then old(lastClicked) else FirstRef(list, i, isInside)
        invariant forall k :: 0 <= k < |quakes| ==> quakeMarkers[k].selected == old(quakeMarkers[k].selected)
        invariant forall k :: 0 <= k < |cities| ==> cityMarkers[k].selected == old(cityMarkers[k].selected)
      {
        FirstIndexExtend(list, i, isInside);
        if isInside(MarkerRef(list, i)) && lastClicked == None {
          ClickMarker(MarkerRef(list, i));
        }
        i := i + 1;
      }
    }

    /** The hit branch of setMarkerAsClicked: hide everything, record and
        reveal the marker, then reveal what it relates to. */
    method ClickMarker(marker: MarkerRef)
      requires Sized() && InArena(marker) && FlagsMatch(None)
      modifies this`lastClicked, quakeMarkers, cityMarkers
      ensures lastClicked == Some(marker) && FlagsMatch(lastClicked)
      ensures forall i :: 0 <= i < |quakes| ==> quakeMarkers[i].selected == old(quakeMarkers[i].selected)
      ensures forall j :: 0 <= j < |cities| ==> cityMarkers[j].selected == old(cityMarkers[j].selected)
    {
      HideMarkers();
      lastClicked := Some(marker);
      SetClicked(marker, true);
      SetHidden(marker, false);
      CheckIfMarkerIsCityOrEarthQuake(marker);
    }

    /** checkIfMarkerIsCityOrEarthQuake: a clicked quake reveals the cities
        in its threat circle and, if it is an ocean quake, puts the cross
        on them; a clicked city is marked clicked and reveals the quakes
        whose circle reaches it. */
    method CheckIfMarkerIsCityOrEarthQuake(marker: MarkerRef)
      requires Sized() && InArena(marker)
      modifies quakeMarkers, cityMarkers
      ensures marker.list == QuakeList ==>
        && (forall i :: 0 <= i < |quakes| ==> quakeMarkers[i] == old(quakeMarkers[i]))
        && (forall j :: 0 <= j < |cities| ==>
              cityMarkers[j] == if CityInThreatCircle(geo, quakes[marker.index], cities[j])
                 then old(cityMarkers[j]).(hidden := false,
                        oceanMarkerSelected := old(cityMarkers[j]).oceanMarkerSelected || !IsOnLand(quakes[marker.index]))
                 else old(cityMarkers[j]))
      ensures marker.list == CityList ==>
        && (forall i :: 0 <= i < |quakes| ==>
              quakeMarkers[i] == if QuakeThreatensCity(geo, cities[marker.index], quakes[i])
                 then old(quakeMarkers[i]).(hidden := false)
                 else old(quakeMarkers[i]))
        && (forall j :: 0 <= j < |cities| ==>
              cityMarkers[j] == if j == marker.index then old(cityMarkers[j]).(clicked := true) else old(cityMarkers[j]))
    {
      if marker.list == QuakeList {
        var quake := quakes[marker.index];
        var j := 0;
        while j < cityMarkers.Length
          invariant 0 <= j <= cityMarkers.Length
          invariant quakeMarkers[..] == old(quakeMarkers[..])
          invariant forall k :: j <= k < |cities| ==> cityMarkers[k] == old(cityMarkers[k])
          invariant forall k :: 0 <= k < j ==>
              cityMarkers[k] == if CityInThreatCircle(geo, quake, cities[k])
                 then old(cityMarkers[k]).(hidden := false,
                        oceanMarkerSelected := old(cityMarkers[k]).oceanMarkerSelected || !IsOnLand(quake))
                 else old(cityMarkers[k])
        {
          if geo.distance(quake.location, cities[j].location) <= ThreatCircle(quake, geo.pow18) {
            cityMarkers[j] := cityMarkers[j].(hidden := false);
            if !IsOnLand(quake) {
              cityMarkers[j] := SetOceanMarkerSelected(cityMarkers[j], true);
            }
          }
          j := j + 1;
        }
      } else {
        var city := cities[marker.index];
        cityMarkers[marker.index] := cityMarkers[marker.index].(clicked := true);
        var i := 0;
        while i < quakeMarkers.Length
          invariant 0 <= i <= quakeMarkers.Length
          invariant forall k :: 0 <= k < |cities| ==>
              cityMarkers[k] == if k == marker.index then old(cityMarkers[k]).(clicked := true) else old(cityMarkers[k])
          invariant forall k :: i <= k < |quakes| ==> quakeMarkers[k] == old(quakeMarkers[k])
          invariant forall k :: 0 <= k < i ==>
              quakeMarkers[k] == if QuakeThreatensCity(geo, city, quakes[k])
                 then old(quakeMarkers[k]).(hidden := false)
                 else old(quakeMarkers[k])
        {
          if geo.distance(city.location, quakes[i].location) <= ThreatCircle(quakes[i], geo.pow18) {
            quakeMarkers[i] := quakeMarkers[i].(hidden := false);
          }
          i := i + 1;
        }
      }
    }

    /** unhideMarkers: every marker visible, every ocean cross off. */
    method UnhideMarkers()
      requires Sized()
      modifies quakeMarkers, cityMarkers
      ensures forall i :: 0 <= i < |quakes| ==> quakeMarkers[i] == old(quakeMarkers[i]).(hidden := false)
      ensures forall j :: 0 <= j < |cities| ==>
        cityMarkers[j] == old(cityMarkers[j]).(hidden := false, oceanMarkerSelected := false)
    {
      var i := 0;
      while i < quakeMarkers.Length
        invariant 0 <= i <= quakeMarkers.Length
        invariant cityMarkers[..] == old(cityMarkers[..])
        invariant forall k :: 0 <= k < i ==> quakeMarkers[k] == old(quakeMarkers[k]).(hidden := false)
        invariant forall k :: i <= k < |quakes| ==> quakeMarkers[k] == old(quakeMarkers[k])
      {
        quakeMarkers[i] := quakeMarkers[i].(hidden := false);
        i := i + 1;
      }
      var j := 0;
      while j < cityMarkers.Length
        invariant 0 <= j <= cityMarkers.Length
        invariant forall k :: 0 <= k < |quakes| ==> quakeMarkers[k] == old(quakeMarkers[k]).(hidden := false)
        invariant forall k :: 0 <= k < j ==>
          cityMarkers[k] == old(cityMarkers[k]).(hidden := false, oceanMarkerSelected := false)
        invariant forall k :: j <= k < |cities| ==> cityMarkers[k] == old(cityMarkers[k])
      {
        cityMarkers[j] := cityMarkers[j].(hidden := false);
        cityMarkers[j] := SetOceanMarkerSelected(cityMarkers[j], false);
        j := j + 1;
      }
    }

    /** hideMarkers: every marker hidden, nothing else changed. */
    method HideMarkers()
      requires Sized()
      modifies quakeMarkers, cityMarkers
      ensures forall i :: 0 <= i < |quakes| ==> quakeMarkers[i] == old(quakeMarkers[i]).(hidden := true)
      ensures forall j :: 0 <= j < |cities| ==> cityMarkers[j] == old(cityMarkers[j]).(hidden := true)
    {
      var i := 0;
      while i < quakeMarkers.Length
        invariant 0 <= i <= quakeMarkers.Length
        invariant cityMarkers[..] == old(cityMarkers[..])
        invariant forall k :: 0 <= k < i ==> quakeMarkers[k] == old(quakeMarkers[k]).(hidden := true)
        invariant forall k :: i <= k < |quakes| ==> quakeMarkers[k] == old(quakeMarkers[k])
      {
        quakeMarkers[i] := quakeMarkers[i].(hidden := true);
        i := i + 1;
      }
      var j := 0;
      while j < cityMarkers.Length
        invariant 0 <= j <= cityMarkers.Length
        invariant forall k :: 0 <= k < |quakes| ==> quakeMarkers[k] == old(quakeMarkers[k]).(hidden := true)
        invariant forall k :: 0 <= k < j ==> cityMarkers[k] == old(cityMarkers[k]).(hidden := true)
        invariant forall k :: j <= k < |cities| ==> cityMarkers[k] == old(cityMarkers[k])
      {
        cityMarkers[j] := cityMarkers[j].(hidden := true);
        j := j + 1;
      }
    }

    // -------------------------------------------------------------------
    // What the invariant promises

    /** At most one marker, quake or city, is selected. */
    lemma AtMostOneSelected()
      requires Valid()
      ensures forall i1, i2 :: 0 <= i1 < i2 < |quakes| ==> !(quakeMarkers[i1].selected && quakeMarkers[i2].selected)
      ensures forall j1, j2 :: 0 <= j1 < j2 < |cities| ==> !(cityMarkers[j1].selected && cityMarkers[j2].selected)
      ensures forall i, j :: 0 <= i < |quakes| && 0 <= j < |cities| ==> !(quakeMarkers[i].selected && cityMarkers[j].selected)
    {
    }

    /** At most one marker, quake or city, is clicked. */
    lemma AtMostOneClicked()
      requires Valid()
      ensures forall i1, i2 :: 0 <= i1 < i2 < |quakes| ==> !(quakeMarkers[i1].clicked && quakeMarkers[i2].clicked)
      ensures forall j1, j2 :: 0 <= j1 < j2 < |cities| ==> !(cityMarkers[j1].clicked && cityMarkers[j2].clicked)
      ensures forall i, j :: 0 <= i < |quakes| && 0 <= j < |cities| ==> !(quakeMarkers[i].clicked && cityMarkers[j].clicked)
    {
    }

    /** isLastClickedCityMarker. */
    predicate IsLastClickedCityMarker()
      reads this
    {
      lastClicked.Some? && lastClicked.value.list == CityList
    }

    // -------------------------------------------------------------------
    // Land attribution

    /** isInCountry: whether the feature lies in the country (for a
        MultiMarker, in one of its polygons, tried in order); on success the
        country's name is written under "country". */
    method IsInCountry(earthquake: PointFeature, country: CountryMarker) returns (inside: bool)
      modifies earthquake
      ensures inside == InCountry(country, earthquake.location, isInsideByLocation)
      ensures earthquake.properties
        == if inside then old(earthquake.properties)["country" := country.name] else old(earthquake.properties)
    {
      inside := false;
      var checkLoc := earthquake.location;
      match country
      case MultiCountry(name, parts) =>
        var k := 0;
        while k < |parts|
          invariant 0 <= k <= |parts|
          invariant forall t :: 0 <= t < k ==> !isInsideByLocation(parts[t], checkLoc)
          invariant earthquake.properties == old(earthquake.properties)
        {
          if isInsideByLocation(parts[k], checkLoc) {
            earthquake.properties := earthquake.properties["country" := name];
            return true;
          }
          k := k + 1;
        }
      case SimpleCountry(name, shape) =>
        if isInsideByLocation(shape, checkLoc) {
          earthquake.properties := earthquake.properties["country" := name];
          return true;
        }
    }

    /** isLand: whether some country contains the feature; the first one in
        list order names it. */
    method IsLand(earthquake: PointFeature) returns (land: bool)
      modifies earthquake
      ensures land == FirstCountry(countryMarkers, earthquake.location, isInsideByLocation).Some?
      ensures earthquake.properties
        == AttributedProperties(old(earthquake.properties), countryMarkers, earthquake.location, isInsideByLocation)
    {
      var c := 0;
      while c < |countryMarkers|
        invariant 0 <= c <= |countryMarkers|
        invariant forall t :: 0 <= t < c ==> !InCountry(countryMarkers[t], earthquake.location, isInsideByLocation)
        invariant earthquake.properties == old(earthquake.properties)
      {
        var inside := IsInCountry(earthquake, countryMarkers[c]);
        if inside {
          FirstCountryIs(countryMarkers, earthquake.location, isInsideByLocation, c);
          return true;
        }
        c := c + 1;
      }
      return false;
    }

    // -------------------------------------------------------------------
    // Per-country tally

    /** printQuakes: the printed lines, one per country with land quakes,
        and the "OCEAN QUAKES" figure, the total minus the printed counts. */
    method PrintQuakes() returns (lines: seq<CountryCount>, oceanQuakes: int)
      ensures lines == CountryTally(countryMarkers, quakes)
      ensures oceanQuakes == |quakes| - TallySum(lines)
    {
      oceanQuakes := |quakes|;
      lines := [];
      var c := 0;
      while c < |countryMarkers|
        invariant 0 <= c <= |countryMarkers|
        invariant lines == CountryTally(countryMarkers[..c], quakes)
        invariant oceanQuakes == |quakes| - TallySum(lines)
      {
        var countryName := countryMarkers[c].name;
        var numQuakes := 0;
        var k := 0;
        while k < |quakes|
          invariant 0 <= k <= |quakes|
          invariant numQuakes == LandCount(countryName, quakes[..k])
        {
          if IsOnLand(quakes[k]) {
            if quakes[k].country == Some(countryName) {
              numQuakes := numQuakes + 1;
            }
          }
          assert quakes[..k + 1][..k] == quakes[..k];
          k := k + 1;
        }
        assert quakes[..|quakes|] == quakes;
        if numQuakes > 0 {
          oceanQuakes := oceanQuakes - numQuakes;
          assert (lines + [CountryCount(countryName, numQuakes)])[..|lines|] == lines;
          lines := lines + [CountryCount(countryName, numQuakes)];
        }
        assert countryMarkers[..c + 1][..c] == countryMarkers[..c];
        c := c + 1;
      }
      assert countryMarkers[..|countryMarkers|] == countryMarkers;
    }

    // -------------------------------------------------------------------
    // Ranking

    /** The titles of the first `count` quakes in compareTo order. */
    method TopTitles(count: nat) returns (titles: seq<string>)
      requires count <= |quakes|
      ensures titles == Titles(SortDesc(quakes)[..count])
    {
      var ranked := new Quake[|quakes|](k requires 0 <= k < |quakes| => quakes[k]);
      assert ranked[..] == quakes;
      SortByMagnitude(ranked);
      ghost var sorted := ranked[..];
      titles := [];
      var index := 0;
      while index < count
        invariant 0 <= index <= count
        invariant titles == Titles(sorted[..index])
      {
        assert sorted[..index + 1][..index] == sorted[..index];
        titles := titles + [ranked[index].title];
        index := index + 1;
      }
    }

    /** sortAndPrint as written: it prints min(numToPrint + 1, size)
        titles, one more than asked for. */
    method SortAndPrint(numToPrint: int) returns (titles: seq<string>)
      ensures |titles| == PrintedCountAsWritten(numToPrint, |quakes|)
      ensures titles == Titles(SortDesc(quakes)[..|titles|])
    {
      titles := TopTitles(PrintedCountAsWritten(numToPrint, |quakes|));
    }

    /** sortAndPrint as intended: the titles of the numToPrint largest
        quakes, or of all of them when there are fewer. */
    method SortAndPrintTop(numToPrint: int) returns (titles: seq<string>)
      ensures |titles| == PrintedCount(numToPrint, |quakes|)
      ensures titles == Titles(SortDesc(quakes)[..|titles|])
    {
      titles := TopTitles(PrintedCount(numToPrint, |quakes|));
    }

    // -------------------------------------------------------------------
    // Per-city aggregate

    /** getAllNearbyQuakes: the quakes whose threat circle reaches city `c`,
        in list order, each of them unhidden. */
    method GetAllNearbyQuakes(c: nat) returns (nearby: seq<nat>)
      requires Sized() && c < |cities|
      modifies quakeMarkers
      ensures nearby == NearbyQuakes(geo, cities[c], quakes)
      ensures quakeMarkers[..] == Unhidden(old(quakeMarkers[..]), NearbyQuakes(geo, cities[c], quakes))
    {
      var city := cities[c];
      ghost var flags := quakeMarkers[..];
      nearby := [];
      var i := 0;
      while i < quakeMarkers.Length
        invariant 0 <= i <= quakeMarkers.Length
        invariant nearby == NearbyQuakes(geo, city, quakes[..i])
        invariant quakeMarkers[..] == Unhidden(flags, nearby)
      {
        NearbyQuakesSnoc(geo, city, quakes, i);
        if geo.distance(city.location, quakes[i].location) <= ThreatCircle(quakes[i], geo.pow18) {
          UnhiddenSnoc(flags, nearby, i);
          quakeMarkers[i] := quakeMarkers[i].(hidden := false);
          nearby := nearby + [i];
        } else {
          assert nearby == NearbyQuakes(geo, city, quakes[..i + 1]);
        }
        i := i + 1;
      }
      assert quakes[..|quakes|] == quakes;
    }

    /** drawClickedCityInfo, without the drawing: when a city is clicked and
        some quake threatens it, the count, the average magnitude, the most
        recent quake's title and the city's label. Under the invariant the
        unhiding it does finds those quakes visible already. */
    method DrawClickedCityInfo() returns (info: Option<CityInfo>)
      requires Valid()
      modifies quakeMarkers
      ensures Valid()
      ensures quakeMarkers[..] == old(quakeMarkers[..])
      ensures info.Some? <==>
        IsLastClickedCityMarker() && |NearbyQuakes(geo, cities[lastClicked.value.index], quakes)| > 0
      ensures info.Some? ==>
        var city := cities[lastClicked.value.index];
        var near := Select(quakes, NearbyQuakes(geo, city, quakes));
        info.value == CityInfo(|near|, SumMagnitudes(near) / (|near| as real),
                               near[MostRecentIndex(near)].title, TitleLabel(city))
    {
      info := None;
      if IsLastClickedCityMarker() {
        var c := lastClicked.value.index;
        ghost var flags := quakeMarkers[..];
        NearbyAlreadyShown(c);
        var nearby := GetAllNearbyQuakes(c);
        assert quakeMarkers[..] == flags;
        FlagsKept();
        if |nearby| > 0 {
          var summary := SummarizeNearby(cities[c], Select(quakes, nearby));
          info := Some(summary);
        }
      }
    }

    /** A step that changes only selection flags keeps the click, hidden
        and cross flags matching the click. */
    twostate lemma ClickFlagsKept()
      requires Sized() && OptInArena(lastClicked) && lastClicked == old(lastClicked)
      requires old(FlagsMatch(lastClicked))
      requires forall i :: 0 <= i < |quakes| ==>
        quakeMarkers[i].(selected := false) == old(quakeMarkers[i]).(selected := false)
      requires forall j :: 0 <= j < |cities| ==>
        cityMarkers[j].(selected := false) == old(cityMarkers[j]).(selected := false)
      ensures FlagsMatch(lastClicked)
    {
      forall i | 0 <= i < |quakes|
        ensures quakeMarkers[i].clicked == old(quakeMarkers[i].clicked)
        ensures quakeMarkers[i].hidden == old(quakeMarkers[i].hidden)
      {
        assert quakeMarkers[i].(selected := false).clicked == quakeMarkers[i].clicked;
      }
      forall j | 0 <= j < |cities|
        ensures cityMarkers[j].clicked == old(cityMarkers[j].clicked)
        ensures cityMarkers[j].hidden == old(cityMarkers[j].hidden)
        ensures cityMarkers[j].oceanMarkerSelected == old(cityMarkers[j].oceanMarkerSelected)
      {
        assert cityMarkers[j].(selected := false).clicked == cityMarkers[j].clicked;
      }
    }

    /** A step that leaves every selection flag as it was keeps the
        selection matching. */
    twostate lemma SelectionKept()
      requires Sized() && lastSelected == old(lastSelected)
      requires old(SelectionMatches(lastSelected))
      requires forall i :: 0 <= i < |quakes| ==> quakeMarkers[i].selected == old(quakeMarkers[i].selected)
      requires forall j :: 0 <= j < |cities| ==> cityMarkers[j].selected == old(cityMarkers[j].selected)
      ensures SelectionMatches(lastSelected)
    {
    }

    /** The invariant survives a step that leaves every flag as it was. */
    twostate lemma FlagsKept()
      requires old(Valid())
      requires unchanged(this, cityMarkers)
      requires quakeMarkers[..] == old(quakeMarkers[..])
      ensures Valid()
    {
      assert forall i :: 0 <= i < quakeMarkers.Length ==> quakeMarkers[i] == old(quakeMarkers[i]);
    }

    /** Under the invariant, with city `c` clicked, every quake that
        threatens it is visible, so unhiding them changes no flag. */
    lemma NearbyAlreadyShown(c: nat)
      requires Valid() && lastClicked == Some(MarkerRef(CityList, c))
      ensures Unhidden(quakeMarkers[..], NearbyQuakes(geo, cities[c], quakes)) == quakeMarkers[..]
    {
      var flags := quakeMarkers[..];
      NearbyQuakesSpec(geo, cities[c], quakes);
      forall i | 0 <= i < |quakes| && i in NearbyQuakes(geo, cities[c], quakes)
        ensures flags[i].(hidden := false) == flags[i]
      {
        assert QuakeShown(lastClicked, i);
      }
    }
  }

  /** The figures drawClickedCityInfo shows for a city and the non-empty
      list of quakes threatening it: the count, the average magnitude, the
      most recent quake's title and the city's label. */
  method SummarizeNearby(city: City, near: seq<Quake>) returns (info: CityInfo)
    requires |near| > 0
    ensures info == CityInfo(|near|, SumMagnitudes(near) / (|near| as real),
                             near[MostRecentIndex(near)].title, TitleLabel(city))
  {
    var totalMag := TotalMagnitude(near);
    var mostRecent := MostRecent(near);
    MostRecentUnique(near, mostRecent, MostRecentIndex(near));
    info := CityInfo(|near|, totalMag / (|near| as real), near[mostRecent].title, TitleLabel(city));
  }

  /** The flags after unhiding the markers at `indices`. */
  function Unhidden(flags: seq<MarkerState>, indices: seq<nat>): (r: seq<MarkerState>)
    ensures |r| == |flags|
    ensures forall i :: 0 <= i < |flags| ==>
      r[i] == if i in indices then flags[i].(hidden := false) else flags[i]
  {
    seq(|flags|, i requires 0 <= i < |flags| => if i in indices then flags[i].(hidden := false) else flags[i])
  }

  lemma UnhiddenSnoc(flags: seq<MarkerState>, indices: seq<nat>, i: nat)
    requires i < |flags| && i !in indices
    ensures Unhidden(flags, indices + [i]) == Unhidden(flags, indices)[i := flags[i].(hidden := false)]
  {
  }

  /** The titles of a list of quakes. */
  function Titles(qs: seq<Quake>): (r: seq<string>)
    ensures |r| == |qs|
  {
    if qs == [] then [] else Titles(qs[..|qs| - 1]) + [qs[|qs| - 1].title]
  }

  /** The loop bound of sortAndPrint as written, Math.min(numToPrint + 1,
      size), with no iteration when it is negative. */
  function PrintedCountAsWritten(numToPrint: int, size: nat): nat {
    var bound := if numToPrint + 1 < size then numToPrint + 1 else size;
    if bound < 0 then 0 else bound
  }

  /** The number of titles "the top numToPrint earthquakes" calls for. */
  function PrintedCount(numToPrint: int, size: nat): (n: nat)
    ensures n <= size
    ensures n <= numToPrint || numToPrint < 0
    ensures n == size || n == numToPrint || (numToPrint < 0 && n == 0)
  {
    if numToPrint < 0 then 0 else if numToPrint < size then numToPrint else size
  }

  /** As written, whenever fewer quakes are asked for than there are, one
      title too many is printed. */
  lemma PrintsOneMoreThanAsked(numToPrint: int, size: nat)
    requires 0 <= numToPrint < size
    ensures PrintedCountAsWritten(numToPrint, size) == numToPrint + 1
    ensures PrintedCount(numToPrint, size) == numToPrint
  {
  }

  /** The map's own call, sortAndPrint(20), on a week's feed of 25 quakes
      prints 21 titles. */
  lemma PrintsTwentyOneOfTwentyFive()
    ensures PrintedCountAsWritten(20, 25) == 21
  {
  }

  /** The printed quakes are the largest: none left out has a larger
      magnitude than one printed, and the printed ones come in
      non-increasing order with ties in feed order. */
  lemma {:induction false} TopRankedDominate(quakes: seq<Quake>, count: nat, m: real)
    requires count <= |quakes|
    ensures forall k, l :: 0 <= k < count <= l < |quakes| ==>
      SortDesc(quakes)[k].magnitude >= SortDesc(quakes)[l].magnitude
    ensures multiset(SortDesc(quakes)[..count]) <= multiset(quakes)
    ensures WithMagnitude(SortDesc(quakes), m) == WithMagnitude(quakes, m)
  {
    SortDescProperties(quakes, m);
    var s := SortDesc(quakes);
    assert s == s[..count] + s[count..];
    assert multiset(s) == multiset(s[..count]) + multiset(s[count..]);
  }

  /** The running total of magnitudes. */
  method TotalMagnitude(qs: seq<Quake>) returns (total: real)
    ensures total == SumMagnitudes(qs)
  {
    total := 0.0;
    var k := 0;
    while k < |qs|
      invariant 0 <= k <= |qs|
      invariant total == SumMagnitudes(qs[..k])
    {
      assert qs[..k + 1][..k] == qs[..k];
      total := total + qs[k].magnitude;
      k := k + 1;
    }
    assert qs[..|qs|] == qs;
  }

  /** The "most recent" loop: starting from the first quake, a quake
      replaces the current one only with a strictly smaller age code. */
  method MostRecent(qs: seq<Quake>) returns (mostRecent: nat)
    requires |qs| > 0
    ensures IsMostRecent(qs, mostRecent)
  {
    mostRecent := 0;
    var k := 0;
    while k < |qs|
      invariant 0 <= k <= |qs|
      invariant mostRecent <= k && mostRecent < |qs|
      invariant forall t :: 0 <= t < k ==> AgeCode(qs[mostRecent].age) <= AgeCode(qs[t].age)
      invariant forall t :: 0 <= t < mostRecent ==> AgeCode(qs[t].age) > AgeCode(qs[mostRecent].age)
    {
      if AgeCode(qs[k].age) < AgeCode(qs[mostRecent].age) {
        mostRecent := k;
      }
      k := k + 1;
    }
  }
}
