/** The rows of the four loaded tables, reduced to the columns the
    aggregation reads. Identifier columns are held as canonical integers,
    so the joins below compare identifiers by value. */
module Tables {

  /** A row of circuits.csv. The coordinates are carried through untouched. */
  datatype Circuit = Circuit(circuitId: int, name: string, country: string, lat: string, lng: string)

  /** A row of races.csv: one race and the circuit that hosted it. */
  datatype Race = Race(raceId: int, circuitId: int)

  /** A row of results.csv: one entrant's result, the race it belongs to and
      the status code it ended with. */
  datatype Result = Result(raceId: int, statusId: int)
}
