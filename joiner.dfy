/**
 * The `/combined_data` join: every code a flight leaves from or arrives at,
 * once per role, with its coordinates from the lookup table and its count
 * from the matching count table, in the order the codes first turn up while
 * scanning the log.
 */
module Joiner {
  import opened Optional
  import opened FlightLog
  import Aggregator

  /** One element of the combined output (a CombinedMapping); `location` is the role, serialised "From" or "To". */
  datatype Entry<F> = Entry(location: Role, iata: string, lon: F, lat: F, count: nat)

  /**
   * Where an entry belongs in the scan: row by row, the "From" side of a row
   * before its "To" side, each entry at the first row that holds its code in
   * its role.
   */
  function Slot<F>(rows: seq<Row>, e: Entry<F>): nat
    requires Occurs(rows, e.location, e.iata)
  {
    2 * FirstRow(rows, e.location, e.iata) + (if e.location == From then 0 else 1)
  }

  /** Some entry of `out` carries `code` in `role`. */
  ghost predicate Emitted<F>(out: seq<Entry<F>>, role: Role, code: string) {
    exists k :: 0 <= k < |out| && out[k].location == role && out[k].iata == code
  }

  /** Every entry stands for a mapped code some row holds in the entry's role, with that code's coordinates. */
  ghost predicate Located<F>(rows: seq<Row>, mapping: map<string, (F, F)>, out: seq<Entry<F>>) {
    forall k :: 0 <= k < |out| ==>
      && out[k].iata in mapping
      && (out[k].lon, out[k].lat) == mapping[out[k].iata]
      && Occurs(rows, out[k].location, out[k].iata)
  }

  /** Entries appear in strictly increasing scan slots. */
  ghost predicate InScanOrder<F>(rows: seq<Row>, out: seq<Entry<F>>)
    requires forall k :: 0 <= k < |out| ==> Occurs(rows, out[k].location, out[k].iata)
  {
    forall j, k :: 0 <= j < k < |out| ==> Slot(rows, out[j]) < Slot(rows, out[k])
  }

  /** Every mapped code a row holds is emitted in that role. */
  ghost predicate Complete<F>(rows: seq<Row>, mapping: map<string, (F, F)>, out: seq<Entry<F>>) {
    forall i, role :: 0 <= i < |rows| && Field(rows[i], role) in mapping ==> Emitted(out, role, Field(rows[i], role))
  }

  /** `out` is the join of `rows` with `mapping`, leaving the counts aside. */
  ghost predicate Joined<F>(rows: seq<Row>, mapping: map<string, (F, F)>, out: seq<Entry<F>>) {
    && Located(rows, mapping, out)
    && InScanOrder(rows, out)
    && Complete(rows, mapping, out)
  }

  /** Each entry carries the number of rows that hold its code in its role. */
  ghost predicate Counted<F>(rows: seq<Row>, out: seq<Entry<F>>) {
    forall k :: 0 <= k < |out| ==> out[k].count == Occurrences(rows, out[k].location, out[k].iata)
  }

  /**
   * Emits an entry for `iata` in role `location` unless the code has no
   * coordinates or was already emitted in this role; `added` is the role's
   * set of emitted codes, `out` the output so far.
   */
  method ProcessLocation<F>(iata: string, lonLat: Option<(F, F)>, count: nat, added: set<string>,
                            out: seq<Entry<F>>, location: Role)
    returns (added': set<string>, out': seq<Entry<F>>)
    ensures lonLat.None? || iata in added ==> added' == added && out' == out
    ensures lonLat.Some? && iata !in added ==>
      && added' == added + {iata}
      && out' == out + [Entry(location, iata, lonLat.value.0, lonLat.value.1, count)]
  {
    added', out' := added, out;
    if lonLat.Some? {
      var (lon, lat) := lonLat.value;
      if iata !in added' {
        added' := added' + {iata};
        out' := out' + [Entry(location, iata, lon, lat, count)];
      }
    }
  }

  /** The other role. */
  function Other(role: Role): Role {
    if role == From then To else From
  }

  /**
   * Loop state for one role: `added` holds exactly the mapped codes met in
   * that role in the first `n` rows, and exactly the codes emitted in that role.
   */
  ghost predicate Tracks<F>(rows: seq<Row>, mapping: map<string, (F, F)>, role: Role, added: set<string>,
                            out: seq<Entry<F>>, n: nat)
    requires n <= |rows|
  {
    && (forall c :: c in added <==> c in mapping && SeenBefore(rows, role, c, n))
    && (forall c :: c in added <==> Emitted(out, role, c))
  }

  /** Loop state for the output: located, counted, in scan order and all before scan slot `bound`. */
  ghost predicate WellPlaced<F>(rows: seq<Row>, mapping: map<string, (F, F)>, out: seq<Entry<F>>, bound: nat) {
    && Located(rows, mapping, out)
    && (forall k :: 0 <= k < |out| ==> 1 <= out[k].count == Occurrences(rows, out[k].location, out[k].iata))
    && (forall k :: 0 <= k < |out| ==> Slot(rows, out[k]) < bound)
    && InScanOrder(rows, out)
  }

  /** The codes emitted after appending one entry: those before, plus the entry's own. */
  lemma EmittedAppend<F>(out: seq<Entry<F>>, e: Entry<F>)
    ensures forall role, c :: Emitted(out + [e], role, c) <==> Emitted(out, role, c) || (e.location == role && e.iata == c)
  {
    forall role, c ensures Emitted(out + [e], role, c) <==> Emitted(out, role, c) || (e.location == role && e.iata == c) {
      var out' := out + [e];
      if Emitted(out', role, c) && !(e.location == role && e.iata == c) {
        var k :| 0 <= k < |out'| && out'[k].location == role && out'[k].iata == c;
        assert out[k] == out'[k];
      }
      if Emitted(out, role, c) {
        var k :| 0 <= k < |out| && out[k].location == role && out[k].iata == c;
        assert out'[k] == out[k];
      }
      if e.location == role && e.iata == c {
        assert out'[|out|] == e;
      }
    }
  }

  /** Appending a located, counted entry in the next free scan slot keeps the output well placed. */
  lemma AppendInNextSlot<F>(rows: seq<Row>, mapping: map<string, (F, F)>, out: seq<Entry<F>>, bound: nat, e: Entry<F>)
    requires WellPlaced(rows, mapping, out, bound)
    requires e.iata in mapping && (e.lon, e.lat) == mapping[e.iata] && Occurs(rows, e.location, e.iata)
    requires 1 <= e.count == Occurrences(rows, e.location, e.iata)
    requires Slot(rows, e) == bound
    ensures WellPlaced(rows, mapping, out + [e], bound + 1)
  {
  }

  /**
   * Row `i`'s code in `role` is mapped and new to the role: ProcessLocation
   * adds it to the role's set and appends its entry in the next scan slot.
   */
  lemma EmitStep<F>(rows: seq<Row>, mapping: map<string, (F, F)>, role: Role, i: nat, count: nat,
                    added: set<string>, other: set<string>, nOther: nat, out: seq<Entry<F>>)
    requires i < |rows| && nOther == (if role == From then i else i + 1) && nOther <= |rows|
    requires Tracks(rows, mapping, role, added, out, i)
    requires Tracks(rows, mapping, Other(role), other, out, nOther)
    requires WellPlaced(rows, mapping, out, i + nOther)
    requires count == Occurrences(rows, role, Field(rows[i], role))
    requires Field(rows[i], role) in mapping && Field(rows[i], role) !in added
    ensures var code := Field(rows[i], role);
      var out' := out + [Entry(role, code, mapping[code].0, mapping[code].1, count)];
      && Tracks(rows, mapping, role, added + {code}, out', i + 1)
      && Tracks(rows, mapping, Other(role), other, out', nOther)
      && WellPlaced(rows, mapping, out', i + nOther + 1)
  {
    var code := Field(rows[i], role);
    var e := Entry(role, code, mapping[code].0, mapping[code].1, count);
    SeenBeforeStep(rows, role, i);
    assert Occurs(rows, role, code) by {
      assert Field(rows[i], role) == code;
    }
    assert FirstRow(rows, role, code) == i;
    OccurrencesPositive(rows, role, code);
    EmittedAppend(out, e);
    AppendInNextSlot(rows, mapping, out, i + nOther, e);
  }

  /**
   * Row `i`'s code in `role` is unmapped or already emitted in the role:
   * ProcessLocation changes nothing, and the role has seen one more row.
   */
  lemma SkipStep<F>(rows: seq<Row>, mapping: map<string, (F, F)>, role: Role, i: nat,
                    added: set<string>, out: seq<Entry<F>>, bound: nat)
    requires i < |rows|
    requires Tracks(rows, mapping, role, added, out, i)
    requires WellPlaced(rows, mapping, out, bound)
    requires Field(rows[i], role) !in mapping || Field(rows[i], role) in added
    ensures Tracks(rows, mapping, role, added, out, i + 1)
    ensures WellPlaced(rows, mapping, out, bound + 1)
  {
    SeenBeforeStep(rows, role, i);
  }

  /**
   * Offering row `i`'s code in `role` to ProcessLocation keeps the loop state:
   * the role has seen one more row, the other role's state is untouched, and
   * the output stays in scan order with one more slot used.
   */
  lemma ProcessStep<F>(rows: seq<Row>, mapping: map<string, (F, F)>, role: Role, i: nat, count: nat,
                       lonLat: Option<(F, F)>, added: set<string>, other: set<string>, nOther: nat,
                       out: seq<Entry<F>>, added': set<string>, out': seq<Entry<F>>)
    requires i < |rows| && nOther == (if role == From then i else i + 1) && nOther <= |rows|
    requires Tracks(rows, mapping, role, added, out, i)
    requires Tracks(rows, mapping, Other(role), other, out, nOther)
    requires WellPlaced(rows, mapping, out, i + nOther)
    requires count == Occurrences(rows, role, Field(rows[i], role))
    requires lonLat == Get(mapping, Field(rows[i], role))
    requires lonLat.None? || Field(rows[i], role) in added ==> added' == added && out' == out
    requires lonLat.Some? && Field(rows[i], role) !in added ==>
      && added' == added + {Field(rows[i], role)}
      && out' == out + [Entry(role, Field(rows[i], role), lonLat.value.0, lonLat.value.1, count)]
    ensures Tracks(rows, mapping, role, added', out', i + 1)
    ensures Tracks(rows, mapping, Other(role), other, out', nOther)
    ensures WellPlaced(rows, mapping, out', i + nOther + 1)
  {
    var code := Field(rows[i], role);
    if code in mapping && code !in added {
      EmitStep(rows, mapping, role, i, count, added, other, nOther, out);
    } else {
      SkipStep(rows, mapping, role, i, added, out, i + nOther);
    }
  }

  /** Once every row is scanned, the per-role sets make the well-placed output the complete, counted join. */
  lemma ScanDone<F>(rows: seq<Row>, mapping: map<string, (F, F)>, addedFrom: set<string>, addedTo: set<string>,
                    out: seq<Entry<F>>, bound: nat)
    requires Tracks(rows, mapping, From, addedFrom, out, |rows|)
    requires Tracks(rows, mapping, To, addedTo, out, |rows|)
    requires WellPlaced(rows, mapping, out, bound)
    ensures Joined(rows, mapping, out)
    ensures Counted(rows, out)
    ensures forall k :: 0 <= k < |out| ==> out[k].count >= 1
  {
    forall i, role | 0 <= i < |rows| && Field(rows[i], role) in mapping
      ensures Emitted(out, role, Field(rows[i], role))
    {
      assert SeenBefore(rows, role, Field(rows[i], role), |rows|);
      if role == From {
        assert Field(rows[i], role) in addedFrom;
      } else {
        assert Field(rows[i], role) in addedTo;
      }
    }
  }

  /**
   * One iteration of the scan: offers row `i`'s origin and then its
   * destination to ProcessLocation, each with its count from the matching
   * table, and moves the loop state on by one row.
   */
  method ScanRow<F>(rows: seq<Row>, mapping: map<string, (F, F)>, fromCounts: map<string, nat>,
                    toCounts: map<string, nat>, i: nat, addedFrom: set<string>, addedTo: set<string>,
                    out: seq<Entry<F>>)
    returns (addedFrom': set<string>, addedTo': set<string>, out': seq<Entry<F>>)
    requires i < |rows|
    requires Aggregator.IsCountTable(rows, From, fromCounts) && Aggregator.IsCountTable(rows, To, toCounts)
    requires Tracks(rows, mapping, From, addedFrom, out, i) && Tracks(rows, mapping, To, addedTo, out, i)
    requires WellPlaced(rows, mapping, out, 2 * i)
    ensures Tracks(rows, mapping, From, addedFrom', out', i + 1) && Tracks(rows, mapping, To, addedTo', out', i + 1)
    ensures WellPlaced(rows, mapping, out', 2 * i + 2)
  {
    var row := rows[i];
    Aggregator.CountForRow(rows, From, fromCounts, i);
    Aggregator.CountForRow(rows, To, toCounts, i);
    var fromCount := Aggregator.CountFor(fromCounts, row.from);
    var toCount := Aggregator.CountFor(toCounts, row.to);
    var out1;
    addedFrom', out1 := ProcessLocation(row.from, Get(mapping, row.from), fromCount, addedFrom, out, From);
    ProcessStep(rows, mapping, From, i, fromCount, Get(mapping, row.from), addedFrom, addedTo, i, out, addedFrom', out1);
    addedTo', out' := ProcessLocation(row.to, Get(mapping, row.to), toCount, addedTo, out1, To);
    ProcessStep(rows, mapping, To, i, toCount, Get(mapping, row.to), addedTo, addedFrom', i + 1, out1, addedTo', out');
  }

  /**
   * The combined dataset: counts both roles, then scans the rows, offering
   * each row's origin and then its destination to ProcessLocation with a
   * separate set of emitted codes per role.
   */
  method CombinedData<F>(rows: seq<Row>, mapping: map<string, (F, F)>) returns (out: seq<Entry<F>>)
    ensures Joined(rows, mapping, out)
    ensures Counted(rows, out)
    ensures forall k :: 0 <= k < |out| ==> out[k].count >= 1
  {
    var fromCounts := Aggregator.CountIataFrom(rows);
    var toCounts := Aggregator.CountIataTo(rows);
    out := [];
    var addedFrom: set<string> := {};
    var addedTo: set<string> := {};
    for i := 0 to |rows|
      invariant Tracks(rows, mapping, From, addedFrom, out, i)
      invariant Tracks(rows, mapping, To, addedTo, out, i)
      invariant WellPlaced(rows, mapping, out, 2 * i)
    {
      addedFrom, addedTo, out := ScanRow(rows, mapping, fromCounts, toCounts, i, addedFrom, addedTo, out);
    }
    ScanDone(rows, mapping, addedFrom, addedTo, out, 2 * |rows|);
  }

  /** No two entries share a role and a code, although a code may be emitted once per role. */
  lemma JoinedHasNoDuplicates<F>(rows: seq<Row>, mapping: map<string, (F, F)>, out: seq<Entry<F>>)
    requires Joined(rows, mapping, out)
    ensures forall j, k :: 0 <= j < k < |out| ==> out[j].location != out[k].location || out[j].iata != out[k].iata
  {
  }

  /** A mapped code that some flight leaves from and some flight arrives at is emitted twice: once per role. */
  lemma CodeEmittedPerRole<F>(rows: seq<Row>, mapping: map<string, (F, F)>, out: seq<Entry<F>>, code: string)
    requires Joined(rows, mapping, out)
    requires code in mapping && Occurs(rows, From, code) && Occurs(rows, To, code)
    ensures exists j, k ::
              && 0 <= j < |out| && 0 <= k < |out| && j != k
              && out[j] == Entry(From, code, mapping[code].0, mapping[code].1, out[j].count)
              && out[k] == Entry(To, code, mapping[code].0, mapping[code].1, out[k].count)
  {
  }

  /** Two entries in the same scan slot carry the same role and code. */
  lemma SlotDeterminesTag<F>(rows: seq<Row>, e1: Entry<F>, e2: Entry<F>)
    requires Occurs(rows, e1.location, e1.iata) && Occurs(rows, e2.location, e2.iata)
    requires Slot(rows, e1) == Slot(rows, e2)
    ensures e1.location == e2.location && e1.iata == e2.iata
  {
  }

  /** Dropping the first entry keeps an output located, counted and in scan order. */
  lemma DropFirst<F>(rows: seq<Row>, mapping: map<string, (F, F)>, a: seq<Entry<F>>)
    requires a != [] && Located(rows, mapping, a) && InScanOrder(rows, a) && Counted(rows, a)
    ensures Located(rows, mapping, a[1..]) && InScanOrder(rows, a[1..]) && Counted(rows, a[1..])
  {
  }

  /** The first entry of an output in scan order is not repeated after it, in the same role. */
  lemma FirstNotRepeated<F>(rows: seq<Row>, mapping: map<string, (F, F)>, a: seq<Entry<F>>)
    requires a != [] && Located(rows, mapping, a) && InScanOrder(rows, a)
    ensures forall role, c :: Emitted(a, role, c) <==> Emitted(a[1..], role, c) || (a[0].location == role && a[0].iata == c)
    ensures !Emitted(a[1..], a[0].location, a[0].iata)
  {
  }

  /** Of two outputs in scan order with the same (role, code) pairs, the first entries agree. */
  lemma SameFirstEntry<F>(rows: seq<Row>, mapping: map<string, (F, F)>, a: seq<Entry<F>>, b: seq<Entry<F>>)
    requires a != [] && b != []
    requires Located(rows, mapping, a) && InScanOrder(rows, a) && Counted(rows, a)
    requires Located(rows, mapping, b) && InScanOrder(rows, b) && Counted(rows, b)
    requires forall role, c :: Emitted(a, role, c) <==> Emitted(b, role, c)
    ensures a[0] == b[0]
  {
    assert Emitted(a, a[0].location, a[0].iata);
    var k :| 0 <= k < |b| && b[k].location == a[0].location && b[k].iata == a[0].iata;
    assert Emitted(b, b[0].location, b[0].iata);
    var j :| 0 <= j < |a| && a[j].location == b[0].location && a[j].iata == b[0].iata;
    assert Slot(rows, a[0]) <= Slot(rows, a[j]) == Slot(rows, b[0]) <= Slot(rows, b[k]) == Slot(rows, a[0]);
    SlotDeterminesTag(rows, a[0], b[0]);
  }

  /**
   * Two outputs that are located, counted and in scan order, and that carry
   * the same (role, code) pairs, are the same sequence.
   */
  lemma {:induction false} SameTagsSameOutput<F>(rows: seq<Row>, mapping: map<string, (F, F)>,
                                                a: seq<Entry<F>>, b: seq<Entry<F>>)
    requires Located(rows, mapping, a) && InScanOrder(rows, a) && Counted(rows, a)
    requires Located(rows, mapping, b) && InScanOrder(rows, b) && Counted(rows, b)
    requires forall role, c :: Emitted(a, role, c) <==> Emitted(b, role, c)
    ensures a == b
    decreases |a| + |b|
  {
    if a == [] {
      if b != [] {
        assert Emitted(b, b[0].location, b[0].iata);
      }
    } else if b == [] {
      assert Emitted(a, a[0].location, a[0].iata);
    } else {
      SameFirstEntry(rows, mapping, a, b);
      FirstNotRepeated(rows, mapping, a);
      FirstNotRepeated(rows, mapping, b);
      DropFirst(rows, mapping, a);
      DropFirst(rows, mapping, b);
      SameTagsSameOutput(rows, mapping, a[1..], b[1..]);
      assert a == [a[0]] + a[1..] && b == [b[0]] + b[1..];
    }
  }

  /** The join is fully determined: any two located, counted, ordered and complete outputs are equal. */
  lemma JoinDetermined<F>(rows: seq<Row>, mapping: map<string, (F, F)>, a: seq<Entry<F>>, b: seq<Entry<F>>)
    requires Joined(rows, mapping, a) && Counted(rows, a)
    requires Joined(rows, mapping, b) && Counted(rows, b)
    ensures a == b
  {
    forall role, c ensures Emitted(a, role, c) <==> Emitted(b, role, c) {
      if Emitted(a, role, c) {
        var k :| 0 <= k < |a| && a[k].location == role && a[k].iata == c;
        var i :| 0 <= i < |rows| && Field(rows[i], role) == c;
      }
      if Emitted(b, role, c) {
        var k :| 0 <= k < |b| && b[k].location == role && b[k].iata == c;
        var i :| 0 <= i < |rows| && Field(rows[i], role) == c;
      }
    }
    SameTagsSameOutput(rows, mapping, a, b);
  }
}
