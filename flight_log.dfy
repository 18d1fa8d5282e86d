/** Option, as used for the source's optional lookups and optional JSON fields. */
module Optional {

  datatype Option<+T> = None | Some(value: T) {

    /** The wrapped value, or `default` when there is none (Rust's `unwrap_or`). */
    function GetOr(default: T): T {
      match this
      case Some(v) => v
      case None => default
    }
  }

  /** A map lookup that may miss (Rust's `HashMap::get`). */
  function Get<K, V>(m: map<K, V>, k: K): Option<V> {
    if k in m then Some(m[k]) else None
  }
}

/**
 * The flight logbook as the server holds it in memory: an ordered sequence of
 * rows, read-only once loaded, and the two ways of reading a code off a row
 * (as the origin or as the destination of the flight).
 */
module FlightLog {

  /** One logbook row. The CSV may carry further columns; they are ignored. */
  datatype Row = Row(date: string, flight: string, from: string, to: string)

  /** The side of a flight a code is taken from. In the JSON output these are the labels "From" and "To". */
  datatype Role = From | To

  /** The code a row holds in the given role. */
  function Field(row: Row, role: Role): string {
    match role
    case From => row.from
    case To => row.to
  }

  /** Some row among the first `n` holds `code` in `role`. */
  ghost predicate SeenBefore(rows: seq<Row>, role: Role, code: string, n: nat)
    requires n <= |rows|
  {
    exists j :: 0 <= j < n && Field(rows[j], role) == code
  }

  /** Some row of the log holds `code` in `role`. */
  ghost predicate Occurs(rows: seq<Row>, role: Role, code: string) {
    SeenBefore(rows, role, code, |rows|)
  }

  /** The number of rows that hold `code` in `role`: the reference count the tallies are checked against. */
  function Occurrences(rows: seq<Row>, role: Role, code: string): nat {
    if rows == [] then 0
    else
      Occurrences(rows[..|rows| - 1], role, code) + (if Field(rows[|rows| - 1], role) == code then 1 else 0)
  }

  /** Extending a prefix by one row adds that row's contribution to every count. */
  lemma OccurrencesStep(rows: seq<Row>, role: Role, i: nat)
    requires i < |rows|
    ensures forall code :: Occurrences(rows[..i + 1], role, code)
                        == Occurrences(rows[..i], role, code) + (if Field(rows[i], role) == code then 1 else 0)
  {
    assert rows[..i + 1][..i] == rows[..i];
  }

  /** Extending a prefix by one row adds exactly that row's code to those seen. */
  lemma SeenBeforeStep(rows: seq<Row>, role: Role, i: nat)
    requires i < |rows|
    ensures forall code :: SeenBefore(rows, role, code, i + 1) <==> SeenBefore(rows, role, code, i) || Field(rows[i], role) == code
  {
    forall code
      ensures SeenBefore(rows, role, code, i + 1) <==> SeenBefore(rows, role, code, i) || Field(rows[i], role) == code
    {
      if SeenBefore(rows, role, code, i + 1) && Field(rows[i], role) != code {
        var j :| 0 <= j < i + 1 && Field(rows[j], role) == code;
        assert j < i;
      }
    }
  }

  /** A code is counted at least once exactly when some row holds it. */
  lemma {:induction false} OccurrencesPositive(rows: seq<Row>, role: Role, code: string)
    ensures Occurrences(rows, role, code) > 0 <==> Occurs(rows, role, code)
  {
    if rows != [] {
      var init := rows[..|rows| - 1];
      OccurrencesPositive(init, role, code);
      if Occurs(init, role, code) {
        var j :| 0 <= j < |init| && Field(init[j], role) == code;
        assert Field(rows[j], role) == code;
      }
      if Occurs(rows, role, code) && Field(rows[|rows| - 1], role) != code {
        var j :| 0 <= j < |rows| && Field(rows[j], role) == code;
        assert init[j] == rows[j];
      }
    }
  }

  /** The index of the first row, at or after `start`, that holds `code` in `role`. */
  function FirstFrom(rows: seq<Row>, role: Role, code: string, start: nat): (i: nat)
    requires start <= |rows| && Occurs(rows, role, code) && !SeenBefore(rows, role, code, start)
    ensures start <= i < |rows| && Field(rows[i], role) == code
    ensures !SeenBefore(rows, role, code, i)
    decreases |rows| - start
  {
    if Field(rows[start], role) == code then start
    else FirstFrom(rows, role, code, start + 1)
  }

  /** The index of the first row that holds `code` in `role`. */
  function FirstRow(rows: seq<Row>, role: Role, code: string): (i: nat)
    requires Occurs(rows, role, code)
    ensures i < |rows| && Field(rows[i], role) == code
    ensures forall j :: 0 <= j < i ==> Field(rows[j], role) != code
  {
    FirstFrom(rows, role, code, 0)
  }
}
