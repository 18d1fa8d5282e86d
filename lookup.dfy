/**
 * The airport lookup table: from the parsed airports document to a map from
 * IATA code to a (longitude, latitude) pair. Coordinates are of an opaque
 * type `F`; the text-to-number parse is the partial function `parse` and the
 * value used when a coordinate is missing or unparseable is `zero`.
 */
module Lookup {
  import opened Optional

  /**
   * One element of the airports array, as far as the loader reads it: each
   * field is the string the element holds under that key, or None when the
   * key is absent, holds a non-string, or the element is not an object.
   */
  datatype Airport = Airport(iata: Option<string>, lon: Option<string>, lat: Option<string>)

  /** The parsed JSON document; only a top-level array is read. */
  datatype Document = Array(airports: seq<Airport>) | NotArray

  /** The key an airport is stored under: its code, or "" when it has none. */
  function Code(a: Airport): string {
    a.iata.GetOr("")
  }

  /** A coordinate field: its parsed value, or `zero` when it is missing or does not parse. */
  function Coordinate<F>(field: Option<string>, parse: string -> Option<F>, zero: F): F {
    match field
    case None => zero
    case Some(text) => parse(text).GetOr(zero)
  }

  /** The (longitude, latitude) pair stored for an airport. */
  function Coords<F>(a: Airport, parse: string -> Option<F>, zero: F): (F, F) {
    (Coordinate(a.lon, parse, zero), Coordinate(a.lat, parse, zero))
  }

  /** No airport after index `i` and before index `n` has the same code as airport `i`. */
  ghost predicate LastBefore(airports: seq<Airport>, i: nat, n: nat)
    requires i < n <= |airports|
  {
    forall j :: i < j < n ==> Code(airports[j]) != Code(airports[i])
  }

  /** `mapping` is the table built from the first `n` airports: their codes as keys, each with its last airport's coordinates. */
  ghost predicate TableOf<F>(airports: seq<Airport>, n: nat, mapping: map<string, (F, F)>, parse: string -> Option<F>, zero: F)
    requires n <= |airports|
  {
    && (forall code :: code in mapping <==> exists i :: 0 <= i < n && Code(airports[i]) == code)
    && (forall i :: 0 <= i < n && LastBefore(airports, i, n) ==>
          Code(airports[i]) in mapping && mapping[Code(airports[i])] == Coords(airports[i], parse, zero))
  }

  /** Inserting airport `n` under its code adds exactly that code to the keys of the first `n` airports. */
  lemma InsertKeys<F>(airports: seq<Airport>, n: nat, mapping: map<string, (F, F)>, mapping': map<string, (F, F)>)
    requires n < |airports| && mapping'.Keys == mapping.Keys + {Code(airports[n])}
    requires forall code :: code in mapping <==> exists i :: 0 <= i < n && Code(airports[i]) == code
    ensures forall code :: code in mapping' <==> exists i :: 0 <= i < n + 1 && Code(airports[i]) == code
  {
    forall code | code in mapping'
      ensures exists i :: 0 <= i < n + 1 && Code(airports[i]) == code
    {
      if code != Code(airports[n]) {
        var i :| 0 <= i < n && Code(airports[i]) == code;
        assert 0 <= i < n + 1;
      }
    }
  }

  /** After inserting airport `n`, each of the first `n + 1` airports that is last with its code has its coordinates stored. */
  lemma InsertValues<F>(airports: seq<Airport>, n: nat, mapping: map<string, (F, F)>, parse: string -> Option<F>, zero: F)
    requires n < |airports|
    requires forall i :: 0 <= i < n && LastBefore(airports, i, n) ==>
      Code(airports[i]) in mapping && mapping[Code(airports[i])] == Coords(airports[i], parse, zero)
    ensures var mapping' := mapping[Code(airports[n]) := Coords(airports[n], parse, zero)];
      forall i :: 0 <= i < n + 1 && LastBefore(airports, i, n + 1) ==>
        Code(airports[i]) in mapping' && mapping'[Code(airports[i])] == Coords(airports[i], parse, zero)
  {
    var mapping' := mapping[Code(airports[n]) := Coords(airports[n], parse, zero)];
    forall i | 0 <= i < n && LastBefore(airports, i, n + 1)
      ensures Code(airports[i]) in mapping' && mapping'[Code(airports[i])] == Coords(airports[i], parse, zero)
    {
      assert LastBefore(airports, i, n);
      assert Code(airports[n]) != Code(airports[i]);
    }
  }

  /** Inserting airport `n` under its code extends the table of the first `n` airports to the first `n + 1`. */
  lemma InsertStep<F>(airports: seq<Airport>, n: nat, mapping: map<string, (F, F)>, parse: string -> Option<F>, zero: F)
    requires n < |airports| && TableOf(airports, n, mapping, parse, zero)
    ensures TableOf(airports, n + 1, mapping[Code(airports[n]) := Coords(airports[n], parse, zero)], parse, zero)
  {
    var mapping' := mapping[Code(airports[n]) := Coords(airports[n], parse, zero)];
    assert mapping'.Keys == mapping.Keys + {Code(airports[n])};
    InsertKeys(airports, n, mapping, mapping');
    InsertValues(airports, n, mapping, parse, zero);
  }

  /**
   * Builds the lookup table by inserting every airport in order, so that a
   * later airport with the same code replaces an earlier one.
   */
  method LoadIataLonLat<F>(doc: Document, parse: string -> Option<F>, zero: F) returns (mapping: map<string, (F, F)>)
    ensures doc.NotArray? ==> mapping == map[]
    ensures doc.Array? ==>
      forall code :: code in mapping <==> exists i :: 0 <= i < |doc.airports| && Code(doc.airports[i]) == code
    ensures doc.Array? ==>
      forall i :: 0 <= i < |doc.airports| && LastBefore(doc.airports, i, |doc.airports|) ==>
        Code(doc.airports[i]) in mapping && mapping[Code(doc.airports[i])] == Coords(doc.airports[i], parse, zero)
  {
    mapping := map[];
    if doc.Array? {
      var airports := doc.airports;
      for n := 0 to |airports|
        invariant TableOf(airports, n, mapping, parse, zero)
      {
        var airport := airports[n];
        var iata := airport.iata.GetOr("");
        var lon := Coordinate(airport.lon, parse, zero);
        var lat := Coordinate(airport.lat, parse, zero);
        InsertStep(airports, n, mapping, parse, zero);
        mapping := mapping[iata := (lon, lat)];
      }
    }
  }
}
