# Plot Pilot: flight-log aggregation and join, in Dafny

Plot Pilot is a small web service. It keeps a pilot's flight logbook in memory
as a sequence of CSV rows (`date`, `flight`, `from`, `to`). It serves three
derived views:

- `/count_iata_from`: how many flights leave from each airport code;
- `/count_iata_to`: how many flights arrive at each airport code;
- `/combined_data`: at most one entry per role ("From" or "To") and airport
  code. A code gets an entry only if the airports table lists it, and only in
  the roles in which some flight holds it. Each entry carries the code's
  coordinates from that table and its count in that role.

This project models that aggregation-and-join pipeline as imperative Dafny. The
source loops become methods with loop invariants, proved against reference
definitions:

- `flight_log.dfy`: module `Optional` (Rust's `Option`, `unwrap_or` and
  `HashMap::get`) and module `FlightLog`. `FlightLog` holds the rows, the two
  roles, and `Occurrences`, which counts the rows holding a code in a role. It
  also holds `FirstRow`, the first row holding a code in a role.
- `aggregator.dfy`: module `Aggregator`, the one-pass frequency count. Its
  specification is `IsCountTable`: the keys are exactly the codes that occur,
  and each value is that code's `Occurrences`. `MapSum` gives the sum of a
  table's values.
- `lookup.dfy`: module `Lookup`, which builds the airports table from the
  parsed JSON document. Coordinates have an opaque type `F`. The text-to-number
  parse is a partial function parameter, and the fallback value is a parameter
  `zero`.
- `joiner.dfy`: module `Joiner`. `ProcessLocation` is the per-role
  deduplicating emit. `CombinedData` is the row loop. `Joined` is the
  specification of the output:
  - every entry is a mapped code with that code's coordinates;
  - every mapped code that a row holds in a role is emitted in that role;
  - entries are strictly ordered by their scan slot, which is
    2 × (first row holding the code in that role), plus 1 for "To".
- `scenarios.dfy`: module `Scenarios`, with the JFK→LAX→JFK round trip and an
  airport whose longitude reads "unknown", stated as lemmas and a method.

Three behaviours of the loader are easy to miss:

- A missing or unparseable coordinate falls back to the default on its own.
  The longitude and the latitude are defaulted independently, not as a pair.
- An airport without an `iata` string is stored under the empty code `""`.
- A JSON document whose top level is not an array gives an empty table, not an
  error.

## Model

| member | source | states |
|---|---|---|
| `Aggregator.CountBy` | src/main.rs:32-36 | The table built by one pass over the rows has as keys exactly the codes some row holds in the role. Each value is the number of such rows, and is at least 1. The values sum to the number of rows. |
| `Aggregator.CountIataFrom` | src/main.rs:29-38 | The departure table maps each origin code to the number of rows leaving from it (each at least 1). Its values sum to the number of rows. |
| `Aggregator.CountIataTo` | src/main.rs:40-49 | The arrival table maps each destination code to the number of rows arriving at it (each at least 1). Its values sum to the number of rows. |
| `Aggregator.CountTablesAgree` | src/main.rs:29-49 | A count table is determined by the rows, so counting twice over the unchanged log gives identical tables. |
| `Aggregator.MapSumIncrement` | src/main.rs:35 | The `entry(code).or_insert(0) += 1` update raises the sum of the table's values by exactly one. |
| `FlightLog.OccurrencesPositive` | src/main.rs:34-35 | A code has a positive count exactly when some row holds it, so no stored count is 0 and no occurring code is missing. |
| `Lookup.LoadIataLonLat` | src/main.rs:64-88 | A non-array document gives an empty table. Otherwise the keys are exactly the airports' codes, with a missing code read as `""`. Each code maps to the coordinates of the last airport carrying it, with a missing or unparseable coordinate replaced by the default. |
| `Joiner.ProcessLocation` | src/main.rs:90-110 | With no coordinates, or with the code already in the role's set, the set and the output are unchanged. Otherwise the code is added to the set and exactly one entry (role, code, coordinates, count) is appended. |
| `Joiner.ProcessStep` | src/main.rs:123-146 | One offer of a row's code keeps the loop state. The role's set stays equal to the mapped codes met so far in that role, and to the codes emitted in that role. The other role is untouched. The output stays located, counted and in scan order. |
| `Joiner.ScanRow` | src/main.rs:123-146 | One pass of the row loop, offering the row's origin and then its destination, keeps both roles' sets equal to the mapped codes met so far in that role. The output stays located, counted and in scan order, with every entry before the next row's slots. |
| `Joiner.CombinedData` | src/main.rs:112-149 | Every entry is a mapped code that some row holds in the entry's role, carrying that code's mapped coordinates. Every mapped code a row holds is emitted in that role. Entries follow first-occurrence scan order, From before To within a row. Each count equals the number of rows with that code in that role and is at least 1, so the `unwrap_or(0)` default is never taken. |
| `Joiner.JoinedHasNoDuplicates` | src/main.rs:119-146 | No two entries of the join share both role and code. |
| `Joiner.CodeEmittedPerRole` | src/main.rs:120-121 | A mapped code that occurs both as an origin and as a destination is emitted twice: once as From and once as To, because the sets are kept per role. |
| `Joiner.JoinDetermined` | src/main.rs:123-146 | The join's properties fix the output completely: two located, counted, ordered and complete outputs for the same rows and table are equal. |
| `Scenarios.RoundTripCounts` | src/main.rs:29-49 | For the flights JFK→LAX and LAX→JFK, both count tables are {JFK: 1, LAX: 1}. |
| `Scenarios.RoundTripJoin` | src/main.rs:112-149 | For that round trip with both airports located, the combined output has four entries in this order: From JFK, To LAX, From LAX, To JFK, each with count 1. |
| `Scenarios.UnknownLongitude` | src/main.rs:75-78 | An airport whose longitude text does not parse is kept, with the default longitude and its own latitude, instead of being rejected. It is the only key of the table. |

## Left out

- HTTP routing, the shared `State`, JSON response wrapping and `async`: these are framework glue. The model's operations take the rows as an input sequence and return values.
- `get_file` and the static `FileServer`: file serving. Any containment of request paths under `data/` rests on the web framework's path guard, which is not part of this model.
- Loading the logbook CSV at startup (the file open and the `csv` deserialisation, including the abort on a malformed row): I/O and a library parser. The rows are an input.
- Reading `data/airports.json` and parsing it as JSON: I/O and a library parser. `Lookup.LoadIataLonLat` starts from the parsed document. Each airport's fields are given as the strings they hold, or None when absent or not strings.
- Parsing coordinate text as `f64`: floating point. It is the function parameter `parse`, and coordinates are an opaque type.
- The `unwrap()` on a failed airports load: a failed load aborts the request through the framework. `Joiner.CombinedData` receives the already-loaded table as a parameter, so the load and the join are not composed in one method.
- `IataCityMapping` and `static/script.js`: an unused struct and browser map-drawing code.
- `Joiner.Entry`: `location` is the two-valued `Role`, which serialises as "From" or "To". `process_location` accepts any string as the label, but it is only ever called with these two.
- `Aggregator.CountBy`: counts are unbounded naturals, not `usize`. A count can never exceed the number of rows held in memory, so wrap-around cannot occur.
- Hash iteration order: tables are Dafny maps and sets. The order of keys in the JSON objects is not modelled, and the source gives no meaning to it.
