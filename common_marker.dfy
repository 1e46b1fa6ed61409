/**
 * What every marker on the map shares (the unseen CommonMarker and the
 * Unfolding library's AbstractMarker): a location and the interaction flags
 * that the map's event handlers write through plain setters.
 */
module CommonMarker {

  /** A latitude/longitude pair; the great-circle distance between two of
      them is an opaque collaborator of the map. */
  datatype Location = Location(lat: real, lon: real)

  /** The mutable flags of a marker: setSelected, setClicked and setHidden
      are plain writes of these fields. */
  datatype MarkerState = MarkerState(selected: bool, clicked: bool, hidden: bool)

  /** A freshly constructed marker: not selected, not clicked, visible. */
  const InitialState: MarkerState := MarkerState(false, false, false)
}
