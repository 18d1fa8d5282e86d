/**
 * Frequency counts of airport codes over the flight log: the tables behind
 * the `/count_iata_from` and `/count_iata_to` endpoints, built in one pass
 * over the rows.
 */
module Aggregator {
  import opened Optional
  import opened FlightLog

  /** `t` maps exactly the codes that occur in `role` to how many rows hold them. */
  ghost predicate IsCountTable(rows: seq<Row>, role: Role, t: map<string, nat>) {
    && (forall code :: code in t <==> Occurs(rows, role, code))
    && (forall code :: code in t ==> t[code] == Occurrences(rows, role, code))
  }

  /** The sum of all values of a map. */
  ghost function MapSum<K>(m: map<K, nat>): nat
    decreases |m|
  {
    if m == map[] then 0
    else
      var k :| k in m;
      assert (m - {k}).Keys < m.Keys;
      m[k] + MapSum(m - {k})
  }

  /** Any key may be taken out first when summing. */
  lemma {:induction false} MapSumRemove<K>(m: map<K, nat>, k: K)
    requires k in m
    ensures MapSum(m) == m[k] + MapSum(m - {k})
    decreases |m|
  {
    var k' :| k' in m && MapSum(m) == m[k'] + MapSum(m - {k'});
    if k' != k {
      assert (m - {k'}).Keys < m.Keys;
      assert (m - {k}).Keys < m.Keys;
      MapSumRemove(m - {k'}, k);
      MapSumRemove(m - {k}, k');
      assert m - {k'} - {k} == m - {k} - {k'};
    }
  }

  /** The value a table gives a code, 0 when the code is absent (`get(..).cloned().unwrap_or(0)`). */
  function CountFor(t: map<string, nat>, code: string): nat {
    Get(t, code).GetOr(0)
  }

  /** Looking up a row's own code in a count table gives that code's number of rows, at least 1. */
  lemma CountForRow(rows: seq<Row>, role: Role, t: map<string, nat>, i: nat)
    requires i < |rows| && IsCountTable(rows, role, t)
    ensures 1 <= CountFor(t, Field(rows[i], role)) == Occurrences(rows, role, Field(rows[i], role))
  {
    var code := Field(rows[i], role);
    assert Occurs(rows, role, code) by {
      assert Field(rows[i], role) == code;
    }
    OccurrencesPositive(rows, role, code);
  }

  /** Bumping one entry of a table (`*entry(code).or_insert(0) += 1`) raises the sum by one. */
  lemma MapSumIncrement(t: map<string, nat>, code: string)
    ensures MapSum(t[code := CountFor(t, code) + 1]) == MapSum(t) + 1
  {
    var t' := t[code := CountFor(t, code) + 1];
    MapSumRemove(t', code);
    assert t' - {code} == t - {code};
    if code in t {
      MapSumRemove(t, code);
    } else {
      assert t - {code} == t;
    }
  }

  /**
   * One pass over the rows, incrementing the counter of the code each row
   * holds in `role`; the shared loop of `count_iata_from` and `count_iata_to`.
   */
  method CountBy(rows: seq<Row>, role: Role) returns (counts: map<string, nat>)
    ensures IsCountTable(rows, role, counts)
    ensures forall code :: code in counts ==> counts[code] >= 1
    ensures MapSum(counts) == |rows|
  {
    counts := map[];
    for i := 0 to |rows|
      invariant forall code :: code in counts <==> SeenBefore(rows, role, code, i)
      invariant forall code :: CountFor(counts, code) == Occurrences(rows[..i], role, code)
      invariant forall code :: code in counts ==> counts[code] >= 1
      invariant MapSum(counts) == i
    {
      var code := Field(rows[i], role);
      OccurrencesStep(rows, role, i);
      SeenBeforeStep(rows, role, i);
      MapSumIncrement(counts, code);
      var counts' := counts[code := CountFor(counts, code) + 1];
      forall c ensures CountFor(counts', c) == Occurrences(rows[..i + 1], role, c) {
        assert CountFor(counts', c) == CountFor(counts, c) + (if c == code then 1 else 0);
      }
      counts := counts';
    }
    assert rows[..|rows|] == rows;
  }

  /** Departure counts: how many rows leave from each code. */
  method CountIataFrom(rows: seq<Row>) returns (counts: map<string, nat>)
    ensures IsCountTable(rows, From, counts)
    ensures forall code :: code in counts ==> counts[code] >= 1
    ensures MapSum(counts) == |rows|
  {
    counts := CountBy(rows, From);
  }

  /** Arrival counts: how many rows arrive at each code. */
  method CountIataTo(rows: seq<Row>) returns (counts: map<string, nat>)
    ensures IsCountTable(rows, To, counts)
    ensures forall code :: code in counts ==> counts[code] >= 1
    ensures MapSum(counts) == |rows|
  {
    counts := CountBy(rows, To);
  }

  /** A count table is determined by the rows: counting twice gives the same table. */
  lemma CountTablesAgree(rows: seq<Row>, role: Role, t1: map<string, nat>, t2: map<string, nat>)
    requires IsCountTable(rows, role, t1) && IsCountTable(rows, role, t2)
    ensures t1 == t2
  {
  }
}
