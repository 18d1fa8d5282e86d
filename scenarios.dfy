/**
 * A worked instance of the count and join contracts: a log of two flights,
 * JFK to LAX and back, with both airports in the lookup table. Coordinates
 * are written as reals here.
 */
module Scenarios {
  import opened Optional
  import opened FlightLog
  import opened Joiner
  import Aggregator
  import Lookup

  /** Two flights, JFK to LAX and back. */
  function RoundTripLog(): seq<Row> {
    [Row("2023-05-01", "AA1", "JFK", "LAX"), Row("2023-05-08", "AA2", "LAX", "JFK")]
  }

  /** Both airports of the round trip, located. */
  function TwoAirports(): map<string, (real, real)> {
    map["JFK" := (-73.8, 40.6), "LAX" := (-118.4, 33.9)]
  }

  /** Which codes occur in the round trip, in either role. */
  lemma RoundTripOccurs(role: Role, code: string)
    ensures Occurs(RoundTripLog(), role, code) <==> code == "JFK" || code == "LAX"
  {
    var rows := RoundTripLog();
    if code == "JFK" {
      assert Field(rows[if role == From then 0 else 1], role) == code;
    } else if code == "LAX" {
      assert Field(rows[if role == From then 1 else 0], role) == code;
    }
  }

  /** Each airport is left once and reached once: both count tables are {JFK: 1, LAX: 1}. */
  lemma RoundTripCounts(role: Role, t: map<string, nat>)
    requires Aggregator.IsCountTable(RoundTripLog(), role, t)
    ensures t == map["JFK" := 1, "LAX" := 1]
  {
    var rows := RoundTripLog();
    var expected: map<string, nat> := map["JFK" := 1, "LAX" := 1];
    forall code ensures code in expected <==> Occurs(rows, role, code) {
      RoundTripOccurs(role, code);
    }
    assert rows[..1] == [rows[0]] && rows[..1][..0] == [];
    assert Occurrences(rows, role, "JFK") == 1 && Occurrences(rows, role, "LAX") == 1;
    Aggregator.CountTablesAgree(rows, role, t, expected);
  }

  /** The four entries listed for the round trip, From before To within each row. */
  function RoundTripEntries(): seq<Entry<real>> {
    [Entry(From, "JFK", -73.8, 40.6, 1), Entry(To, "LAX", -118.4, 33.9, 1),
     Entry(From, "LAX", -118.4, 33.9, 1), Entry(To, "JFK", -73.8, 40.6, 1)]
  }

  /** Each listed entry is located and counted. */
  lemma RoundTripEntriesLocated()
    ensures Located(RoundTripLog(), TwoAirports(), RoundTripEntries())
    ensures Counted(RoundTripLog(), RoundTripEntries())
  {
    RoundTripOccurs(From, "JFK");
    RoundTripOccurs(From, "LAX");
    RoundTripOccurs(To, "JFK");
    RoundTripOccurs(To, "LAX");
    var rows := RoundTripLog();
    assert rows[..1] == [rows[0]] && rows[..1][..0] == [];
  }

  /** JFK and LAX first turn up in row 0 in the role they hold there, and in row 1 in the other role. */
  lemma RoundTripFirstRows()
    ensures Occurs(RoundTripLog(), From, "JFK") && FirstRow(RoundTripLog(), From, "JFK") == 0
    ensures Occurs(RoundTripLog(), To, "LAX") && FirstRow(RoundTripLog(), To, "LAX") == 0
    ensures Occurs(RoundTripLog(), From, "LAX") && FirstRow(RoundTripLog(), From, "LAX") == 1
    ensures Occurs(RoundTripLog(), To, "JFK") && FirstRow(RoundTripLog(), To, "JFK") == 1
  {
    RoundTripOccurs(From, "JFK");
    RoundTripOccurs(To, "LAX");
    RoundTripOccurs(From, "LAX");
    RoundTripOccurs(To, "JFK");
  }

  /** The `k`-th listed entry sits in scan slot `k`. */
  lemma RoundTripSlot(k: nat)
    requires k < |RoundTripEntries()|
    ensures Occurs(RoundTripLog(), RoundTripEntries()[k].location, RoundTripEntries()[k].iata)
    ensures Slot(RoundTripLog(), RoundTripEntries()[k]) == k
  {
    RoundTripFirstRows();
  }

  /** The listed entries sit in scan slots 0, 1, 2 and 3. */
  lemma RoundTripEntriesOrdered()
    requires Located(RoundTripLog(), TwoAirports(), RoundTripEntries())
    ensures InScanOrder(RoundTripLog(), RoundTripEntries())
  {
    var rows, entries := RoundTripLog(), RoundTripEntries();
    forall j, k | 0 <= j < k < |entries| ensures Slot(rows, entries[j]) < Slot(rows, entries[k]) {
      RoundTripSlot(j);
      RoundTripSlot(k);
    }
  }

  /** Every side of every flight has its entry in the list. */
  lemma RoundTripEntriesComplete()
    ensures Complete(RoundTripLog(), TwoAirports(), RoundTripEntries())
  {
    var rows, expected := RoundTripLog(), RoundTripEntries();
    forall i, role | 0 <= i < |rows| && Field(rows[i], role) in TwoAirports()
      ensures Emitted(expected, role, Field(rows[i], role))
    {
      var k := if i == 0 then (if role == From then 0 else 1) else (if role == From then 2 else 3);
      assert expected[k].location == role && expected[k].iata == Field(rows[i], role);
    }
  }

  /** The combined output for the round trip is exactly the four listed entries. */
  lemma RoundTripJoin(out: seq<Entry<real>>)
    requires Joined(RoundTripLog(), TwoAirports(), out) && Counted(RoundTripLog(), out)
    ensures out == [Entry(From, "JFK", -73.8, 40.6, 1), Entry(To, "LAX", -118.4, 33.9, 1),
                    Entry(From, "LAX", -118.4, 33.9, 1), Entry(To, "JFK", -73.8, 40.6, 1)]
  {
    RoundTripEntriesLocated();
    RoundTripEntriesOrdered();
    RoundTripEntriesComplete();
    JoinDetermined(RoundTripLog(), TwoAirports(), out, RoundTripEntries());
  }

  /** An airport whose longitude reads "unknown" is kept, with the default longitude, rather than rejected. */
  method UnknownLongitude<F>(parse: string -> Option<F>, zero: F, lat: string) returns (mapping: map<string, (F, F)>)
    requires parse("unknown") == None
    ensures "JFK" in mapping && mapping["JFK"].0 == zero
    ensures "JFK" in mapping && mapping["JFK"].1 == Lookup.Coordinate(Some(lat), parse, zero)
    ensures mapping.Keys == {"JFK"}
  {
    var doc := Lookup.Array([Lookup.Airport(Some("JFK"), Some("unknown"), Some(lat))]);
    mapping := Lookup.LoadIataLonLat(doc, parse, zero);
    assert Lookup.LastBefore(doc.airports, 0, 1);
    assert Lookup.Code(doc.airports[0]) == "JFK";
  }
}
