# ARSO exporter core, modelled in Dafny

The ARSO exporter scrapes the observation page of the Slovenian Environment
Agency (ARSO) and publishes each station's temperature and relative humidity
as two Prometheus gauge families, `arso_temperature` and
`arso_relative_humidity`. Both families are labelled by `city`. This project
models the refresh cycle in `src/arso.rs` and proves what it does:

- `parse_datetime` reads the report time.
- `parse_city` turns one observation row into a `City { name, temperature: i32, relative_humidity: u32 }`.
- `arso_retrieve` walks the rows in order and writes both gauges for each city.

Files:

- `rust_num.dfy`, module `RustNum`: Rust's `str::parse::<i32>()` and
  `str::parse::<u32>()`. The parser follows Rust's `from_str_radix`: it strips
  one sign, then multiplies and adds digit by digit, with each step checked for
  overflow. It is proved equal to a plain grammar: an optional `+` (or `-` for
  `i32`), then one or more ASCII digits, whose value must fit the type. It is
  also proved to read back the plain decimal text of a number, and to fail
  exactly when that number is out of range.
- `arso.dfy`, module `Arso`:
  - the error kinds and their display text;
  - the abstract document;
  - `ParseDatetime` and `ParseCity`;
  - the gauge state and the cycle as functions (`Sweep`, `Cycle`), with lemmas about them;
  - the class `Gauges`, which holds the two gauge families as two
    `map<string, i64>` fields. Its method `Retrieve` is the update loop, proved
    equal to `Cycle`.

The HTML engine is abstracted. A `Document` holds two things: the inner HTML
(`inner_html()`) of its `th.meteoSI-header` cells, and its rows matching
`table.meteoSI-table > tbody > tr`, both in document order. A `Row` maps a
cell class (`meteoSI-th`, `t`, `rh`) to the inner HTML of that row's `td`
cells of that class. `Row.First` is `select(..).next()`. These strings are
taken as they are: nested tags and entities stay in them, so a cell
`<td class="t"><b>5</b></td>` reads as the sentinel, and a station named
`A & B` is labelled `A &amp; B`. The page fetch is an
input: either `FetchFailed(reason)`, which the source turns into
`ArsoError::ConnectionError`, or the fetched `Document`.

A `parse_city` row has three outcomes, and `Outcome` keeps them apart:

- `Ok(City)`;
- `Err(ParseError("Temperature field not found"))` when the row has no `td.t` cell;
- `Panic(site)` when an `unwrap()` meets a missing cell. The name cell is
  unwrapped first (line 78), so a row without a name panics even when it also
  lacks `td.t`. The humidity cell is unwrapped only after the temperature
  check (line 90).

A cell whose inner HTML is not a numeral of the grammar above (for `i32` or
`u32`), or whose value does not fit the type, reads as the sentinel: `-50` for
temperature, `0` for humidity.

Facts about the code that the model keeps:

- there are two gauges, temperature and relative humidity, each an integer; a cell that does not parse is written as `-50` (temperature) or `0` (humidity);
- `arso_retrieve` takes no list of cities at `src/arso.rs:126`, although `src/main.rs:59` passes `&settings.cities`, so every row is written;
- a cycle that fails on a row keeps the gauges it already wrote.

## Model

| member | source | states |
|---|---|---|
| `RustNum.ParseI32` | src/arso.rs:84-86 | `parse::<i32>` succeeds exactly on an optional `+`/`-` followed by one or more ASCII digits whose value lies in `[-2^31, 2^31-1]`, and returns that value |
| `RustNum.ParseU32` | src/arso.rs:91-93 | `parse::<u32>` succeeds exactly on an optional `+` followed by one or more ASCII digits whose value is at most `2^32-1`; any `-` fails |
| `RustNum.AccumulateMeaning` | src/arso.rs:85 | the overflow-checked digit-by-digit accumulation returns the positional value of the digits when they are all digits and the value is in range, and fails otherwise, even when only an intermediate step overflows |
| `RustNum.FromStrMeaning` | src/arso.rs:85 | sign handling on top of the accumulation: a lone sign or an empty text fails, and `-` is a sign only for signed types |
| `RustNum.ParseI32RoundTrip` | src/arso.rs:84-86 | the plain decimal text of any integer (`-` only when negative, no leading zeros) parses back to that integer when it fits in `i32`, and fails otherwise |
| `RustNum.ParseU32RoundTrip` | src/arso.rs:91-93 | the plain decimal text of any natural number parses back to it when it fits in `u32`, and fails otherwise |
| `Arso.Describe` | src/arso.rs:15-21 | a connection error displays as `Connection error: ` plus its reason, a parse error as `Parsing error: ` plus its reason |
| `Arso.DescribeInjective` | src/arso.rs:15-21 | two errors with the same display text are the same error |
| `Arso.ParseDatetime` | src/arso.rs:52-62 | returns the inner HTML of the first header cell, and `ParseError("Datetime not found")` exactly when there is none; it never panics |
| `Arso.ParseCity` | src/arso.rs:64-111 | panics exactly when the name cell is missing, or when the temperature cell is present and the humidity cell is missing; returns `ParseError("Temperature field not found")` exactly when the name is present and the temperature cell is missing; otherwise returns the first name text, the `i32` reading of the first `td.t` text or `-50`, and the `u32` reading of the first `td.rh` text or `0` |
| `Arso.SentinelReadings` | src/arso.rs:84-93 | `"-"`, `""` and `"12.3"` do not parse as `i32`, `"+7"` and `"-07"` do, and `"-5"` does not parse as `u32` |
| `Arso.GaugeState.Record` | src/arso.rs:141-142 | after writing a city, both gauges for its name hold its temperature and humidity, widened to `i64` without loss, and every other label is unchanged |
| `Arso.ParsedPrefix` | src/arso.rs:138-139 | counts the leading rows that parse: all rows before it parse, and the row at it (if any) does not |
| `Arso.RecordAllUntouched` | src/arso.rs:138-143 | writing a list of cities leaves a label that none of them names unchanged |
| `Arso.RecordAllLastWins` | src/arso.rs:138-143 | after writing a list of cities, a name's label holds the readings of the last city with that name |
| `Arso.RecordAllOverrides` | src/arso.rs:138-143 | a label that some written city names ends with the same readings, whatever the gauges held before |
| `Arso.RecordAllTwice` | src/arso.rs:138-143 | writing the same cities twice gives the same gauges as writing them once |
| `Arso.SweepAppliesPrefix` | src/arso.rs:137-145 | the row loop writes exactly the cities of the rows before the first failing row and returns that row's error or panic; with no failing row it writes them all and returns `Ok` |
| `Arso.CycleAbortsUnchanged` | src/arso.rs:130-135 | a failed fetch returns its connection error, and a page without a header cell returns `ParseError("Datetime not found")`; both leave the gauges unchanged |
| `Arso.CycleSucceeded` | src/arso.rs:126-146 | an `Ok` cycle had a fetched page with a report time, parsed every row, and left the gauges equal to every row's city written in document order |
| `Arso.CycleLastRowWins` | src/arso.rs:137-143 | after an `Ok` cycle, the label of row j holds row j's parsed temperature and humidity when no later row has the same name |
| `Arso.CycleKeepsUnnamed` | src/arso.rs:137-143 | after an `Ok` cycle, a label that no row names holds what it held before |
| `Arso.CycleFailedAtRow` | src/arso.rs:138-142 | when the rows fail, the first row that does not parse is at index k; its error or panic is returned; the gauges hold what rows 0..k-1 wrote; row k and later rows write nothing, and nothing is rolled back |
| `Arso.CycleIdempotent` | src/arso.rs:126-146 | running the cycle again on the same fetch result returns the same result and leaves the gauges as the first run left them |
| `Arso.Gauges.constructor` | src/arso.rs:113-124 | both gauge families are registered with no series |
| `Arso.Gauges.Retrieve` | src/arso.rs:126-146 | the new gauge contents and the returned status are those of `Cycle` applied to the old contents and the fetch result; `Cycle` models `arso_retrieve` after the fetch (src/arso.rs:130-145), `Sweep` its row loop (src/arso.rs:137-143), and `RecordAll` the gauge writes of that loop for a list of cities (src/arso.rs:141-142) |

## Left out

- `arso_get_document` (`src/arso.rs:42-50`) and the conversion of `reqwest` errors (`src/arso.rs:29-33`): these are network I/O. The fetch result is an input to `Retrieve` instead.
- HTML parsing and CSS selector matching (`Html::parse_document`, `Selector::parse`, `select`, `inner_html`): this is a foreign library. The model starts from the abstract `Document` and `Row` described above. The selectors are constants, so their `unwrap()` never fails. The `SelectorErrorKind` conversion (`src/arso.rs:23-27`) is never reached and is not modelled.
- `arso_get_metrics` and the Prometheus registry and text encoder (`src/arso.rs:147-159`): these are a wrapper over the library. The model exposes the gauge contents as two maps instead of exposition text.
- All of `src/main.rs`: configuration loading, the HTTP routes and server, and the ten-minute interval task. These are scheduling, I/O and concurrency. The model does not cover the metrics endpoint reading the gauges while a cycle writes them.
- A panic here is a returned `Panic` outcome. In the program it unwinds and ends the background task that runs the cycles, so no later cycle runs. The model covers one cycle and stops there.
- Gauge values are `i64`, as in `IntGaugeVec`. The commented-out fields and `println!` logging are not modelled.
- The literal examples for out-of-range text, such as `"2147483648"`, are not stated one by one. `RustNum.ParseI32RoundTrip` and `RustNum.ParseU32RoundTrip` cover every out-of-range number in decimal.
