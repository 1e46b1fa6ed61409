/**
 * A city marker: its parsed properties, its flags (the shared marker flags
 * plus oceanMarkerSelected), and the decisions its drawing code makes.
 */
module CityMarker {
  import opened CommonMarker

  /** The properties of a city feature that the map reads. */
  datatype City = City(location: Location, name: string, country: string, population: real)

  /** getCity() and getCountry() are the "name" and "country" properties. */
  function GetCity(c: City): string { c.name }
  function GetCountry(c: City): string { c.country }

  /** The mutable flags of a city marker. */
  datatype CityState = CityState(selected: bool, clicked: bool, hidden: bool, oceanMarkerSelected: bool)

  /** A newly constructed city marker: no flag set, in particular
      oceanMarkerSelected starts false. */
  function NewCityState(): (s: CityState)
    ensures !s.oceanMarkerSelected && !ShowsOceanCross(s)
    ensures !s.selected && !s.clicked && !s.hidden
  {
    CityState(false, false, false, false)
  }

  /** setOceanMarkerSelected(b): writes the flag and nothing else. */
  function SetOceanMarkerSelected(s: CityState, b: bool): (r: CityState)
    ensures r.oceanMarkerSelected == b && ShowsOceanCross(r) == b
    ensures r.selected == s.selected && r.clicked == s.clicked && r.hidden == s.hidden
  {
    s.(oceanMarkerSelected := b)
  }

  /** drawMarker overlays the cross exactly when an ocean quake that
      threatens the city is selected. */
  predicate ShowsOceanCross(s: CityState) {
    s.oceanMarkerSelected
  }

  /** showTitle: the label "name, country". */
  function TitleLabel(c: City): string {
    GetCity(c) + ", " + GetCountry(c)
  }

  /** The position of the first comma in `s`, or |s| if there is none. */
  function FirstComma(s: string): (k: nat)
    ensures k <= |s|
    ensures forall i :: 0 <= i < k ==> s[i] != ','
    ensures k < |s| ==> s[k] == ','
  {
    if s == [] then 0
    else if s[0] == ',' then 0
    else 1 + FirstComma(s[1..])
  }

  /** When the city name has no comma, the label's first comma ends the
      name, and the country follows after ", ". */
  lemma {:induction false} TitleLabelSplits(c: City)
    requires ',' !in c.name
    ensures FirstComma(TitleLabel(c)) == |c.name|
    ensures TitleLabel(c)[..|c.name|] == c.name
    ensures TitleLabel(c)[|c.name| + 2..] == c.country
  {
    var text := TitleLabel(c);
    assert text[|c.name|] == ',';
  }

  /** Hence two comma-free cities with the same label have the same name
      and country. */
  lemma TitleLabelInjective(c1: City, c2: City)
    requires ',' !in c1.name && ',' !in c2.name
    requires TitleLabel(c1) == TitleLabel(c2)
    ensures c1.name == c2.name && c1.country == c2.country
  {
    TitleLabelSplits(c1);
    TitleLabelSplits(c2);
  }
}
