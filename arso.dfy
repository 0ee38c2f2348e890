/** The scraping core of the ARSO exporter: the observation page is read row by
    row into `City` records, and each record is written into two labelled gauge
    families, temperature and relative humidity, keyed by the station's name.
    The HTML engine is abstracted: a document is the inner HTML (`inner_html()`)
    of its `th.meteoSI-header` cells plus its observation rows, and a row maps a
    cell class to the inner HTML of its `td` cells of that class, in document
    order. These strings are opaque: nested tags and entities stay in them. */
module Arso {
  import opened RustNum

  // ---------------------------------------------------------------------------
  // Errors and outcomes

  datatype ArsoError = ConnectionError(reason: string) | ParseError(reason: string)

  const CONNECTION_PREFIX: string := "Connection error: "
  const PARSE_PREFIX: string := "Parsing error: "
  const DATETIME_NOT_FOUND: string := "Datetime not found"
  const TEMPERATURE_NOT_FOUND: string := "Temperature field not found"

  /** The error's display text: its kind, then its reason. */
  function Describe(e: ArsoError): (text: string)
    ensures e.ConnectionError? ==> text == CONNECTION_PREFIX + e.reason
    ensures e.ParseError? ==> text == PARSE_PREFIX + e.reason
  {
    match e
    case ConnectionError(reason) => CONNECTION_PREFIX + reason
    case ParseError(reason) => PARSE_PREFIX + reason
  }

  /** Two different errors never print the same text. */
  lemma DescribeInjective(e1: ArsoError, e2: ArsoError)
    requires Describe(e1) == Describe(e2)
    ensures e1 == e2
  {
    var t := Describe(e1);
    assert t[0] == (if e1.ConnectionError? then 'C' else 'P');
    assert t[0] == (if e2.ConnectionError? then 'C' else 'P');
    var k := if e1.ConnectionError? then |CONNECTION_PREFIX| else |PARSE_PREFIX|;
    assert e1.reason == t[k..] == e2.reason;
  }

  /** Which `unwrap()` in `parse_city` met a missing cell. */
  datatype UnwrapSite = NameCell | HumidityCell

  /** A `Result<T, ArsoError>`, or a panic that unwound instead of returning. */
  datatype Outcome<+T> = Ok(value: T) | Err(error: ArsoError) | Panic(site: UnwrapSite)

  /** The same failure, carried out of a function with another result type. */
  function Abandon<T>(o: Outcome<T>): (r: Outcome<()>)
    requires !o.Ok?
    ensures o.Err? ==> r == Err(o.error)
    ensures o.Panic? ==> r == Panic(o.site)
  {
    match o
    case Err(e) => Err(e)
    case Panic(s) => Panic(s)
  }

  // ---------------------------------------------------------------------------
  // The document

  const NAME_CLASS: string := "meteoSI-th"
  const TEMPERATURE_CLASS: string := "t"
  const HUMIDITY_CLASS: string := "rh"

  const TEMPERATURE_SENTINEL: i32 := -50
  const HUMIDITY_SENTINEL: u32 := 0

  datatype Row = Row(cells: map<string, seq<string>>) {
    /** `select(td.<cls>).next()`: the first cell of that class, if any. */
    function First(cls: string): Option<string> {
      if cls in cells && cells[cls] != [] then Some(cells[cls][0]) else None
    }
  }

  datatype Document = Document(headers: seq<string>, rows: seq<Row>)

  /** What the fetch of the page produced. */
  datatype Fetch = FetchFailed(reason: string) | Fetched(doc: Document)

  datatype City = City(name: string, temperature: i32, relativeHumidity: u32)

  // ---------------------------------------------------------------------------
  // Extraction

  /** The report time: the inner HTML of the first header cell. */
  function ParseDatetime(doc: Document): (r: Outcome<string>)
    ensures !r.Panic?
    ensures r.Ok? <==> doc.headers != []
    ensures r.Ok? ==> r.value == doc.headers[0]
    ensures r.Err? ==> r.error == ParseError(DATETIME_NOT_FOUND)
  {
    if doc.headers == [] then Err(ParseError(DATETIME_NOT_FOUND)) else Ok(doc.headers[0])
  }

  /** What a cell's text reads as under `parse::<i32>().unwrap_or(sentinel)`,
      stated by the numeral grammar rather than by the parser. */
  ghost function I32Reading(text: string, sentinel: int): int {
    if IsNumeral(text, true) && I32_MIN <= NumeralValue(text, true) <= I32_MAX
    then NumeralValue(text, true) else sentinel
  }

  /** The same for `parse::<u32>().unwrap_or(sentinel)`. */
  ghost function U32Reading(text: string, sentinel: int): int {
    if IsNumeral(text, false) && NumeralValue(text, false) <= U32_MAX
    then NumeralValue(text, false) else sentinel
  }

  /** One observation row to one `City`. The name cell is unwrapped first, so a
      row without it panics whatever else it lacks; a missing temperature cell
      is the one `ParseError`; a missing humidity cell panics after that. */
  function ParseCity(row: Row): (r: Outcome<City>)
    ensures r.Panic? <==> row.First(NAME_CLASS).None?
                          || (row.First(TEMPERATURE_CLASS).Some? && row.First(HUMIDITY_CLASS).None?)
    ensures r.Panic? ==> r.site == if row.First(NAME_CLASS).None? then NameCell else HumidityCell
    ensures r.Err? <==> row.First(NAME_CLASS).Some? && row.First(TEMPERATURE_CLASS).None?
    ensures r.Err? ==> r.error == ParseError(TEMPERATURE_NOT_FOUND)
    ensures r.Ok? ==> && r.value.name == row.First(NAME_CLASS).value
                      && r.value.temperature == I32Reading(row.First(TEMPERATURE_CLASS).value, TEMPERATURE_SENTINEL)
                      && r.value.relativeHumidity == U32Reading(row.First(HUMIDITY_CLASS).value, HUMIDITY_SENTINEL)
  {
    match row.First(NAME_CLASS)
    case None => Panic(NameCell)
    case Some(name) =>
      match row.First(TEMPERATURE_CLASS)
      case None => Err(ParseError(TEMPERATURE_NOT_FOUND))
      case Some(t) =>
        var temperature := ParseI32(t).GetOr(TEMPERATURE_SENTINEL);
        match row.First(HUMIDITY_CLASS)
        case None => Panic(HumidityCell)
        case Some(h) => Ok(City(name, temperature, ParseU32(h).GetOr(HUMIDITY_SENTINEL)))
  }

  /** Cell texts that fall back to the sentinel (a dash, a decimal fraction,
      an empty cell, a negative humidity) and texts that are read as numbers
      (a leading `+`, a leading zero). Out-of-range numbers are covered by
      `ParseI32RoundTrip` and `ParseU32RoundTrip`. */
  lemma SentinelReadings()
    ensures ParseI32("-") == None && ParseI32("") == None && ParseI32("12.3") == None
    ensures ParseI32("+7") == Some(7) && ParseI32("-07") == Some(-7)
    ensures ParseU32("-5") == None
  {
    assert !IsNumeral("12.3", true) by { assert !IsDigit("12.3"[2]); }
    assert "+7"[1..] == "7";
    assert "-07"[1..] == "07";
    assert !IsNumeral("-5", false) by { assert !IsDigit("-5"[0]); }
  }

  // ---------------------------------------------------------------------------
  // The gauges and one refresh cycle

  /** What the two gauge families hold for one label. */
  datatype Series = Series(temperature: Option<int>, relativeHumidity: Option<int>)

  /** The series a city's record publishes. */
  function Measured(c: City): Series {
    Series(Some(c.temperature), Some(c.relativeHumidity))
  }

  /** The contents of the two `IntGaugeVec`s, label to value. */
  datatype GaugeState = GaugeState(temperature: map<string, i64>, relativeHumidity: map<string, i64>) {
    function At(key: string): Series {
      Series(if key in temperature then Some(temperature[key]) else None,
             if key in relativeHumidity then Some(relativeHumidity[key]) else None)
    }

    /** Both gauges labelled with the city's name set to its readings; the
        `i32` and `u32` readings widen to `i64` without loss. */
    function Record(c: City): (g: GaugeState)
      ensures g.At(c.name) == Measured(c)
      ensures forall key :: key != c.name ==> g.At(key) == At(key)
    {
      GaugeState(temperature[c.name := c.temperature as i64],
                 relativeHumidity[c.name := c.relativeHumidity as i64])
    }
  }

  /** The cities written in order, each over the ones before. */
  function RecordAll(g: GaugeState, cities: seq<City>): GaugeState
    decreases |cities|
  {
    if cities == [] then g else RecordAll(g.Record(cities[0]), cities[1..])
  }

  /** The loop over the rows: each row is parsed and recorded, and the first row
      that does not parse ends the loop with its error; what was recorded stays. */
  function Sweep(g: GaugeState, rows: seq<Row>): (GaugeState, Outcome<()>)
    decreases |rows|
  {
    if rows == [] then (g, Ok(()))
    else
      var c := ParseCity(rows[0]);
      if c.Ok? then Sweep(g.Record(c.value), rows[1..]) else (g, Abandon(c))
  }

  /** One call of `arso_retrieve`: the new gauges and what it returns. */
  function Cycle(g: GaugeState, fetched: Fetch): (GaugeState, Outcome<()>) {
    match fetched
    case FetchFailed(reason) => (g, Err(ConnectionError(reason)))
    case Fetched(doc) =>
      var dt := ParseDatetime(doc);
      if !dt.Ok? then (g, Abandon(dt)) else Sweep(g, doc.rows)
  }

  /** How many leading rows parse to a city. */
  function ParsedPrefix(rows: seq<Row>): (k: nat)
    ensures k <= |rows|
    ensures forall j :: 0 <= j < k ==> ParseCity(rows[j]).Ok?
    ensures k < |rows| ==> !ParseCity(rows[k]).Ok?
    decreases |rows|
  {
    if rows == [] || !ParseCity(rows[0]).Ok? then 0 else 1 + ParsedPrefix(rows[1..])
  }

  function Cities(rows: seq<Row>): seq<City>
    requires forall j :: 0 <= j < |rows| ==> ParseCity(rows[j]).Ok?
  {
    seq(|rows|, j requires 0 <= j < |rows| => ParseCity(rows[j]).value)
  }

  /** A key no city names keeps what it held before. */
  lemma {:induction false} RecordAllUntouched(g: GaugeState, cities: seq<City>, key: string)
    requires forall j :: 0 <= j < |cities| ==> cities[j].name != key
    ensures RecordAll(g, cities).At(key) == g.At(key)
    decreases |cities|
  {
    if cities != [] {
      var rest := cities[1..];
      assert forall j :: 0 <= j < |rest| ==> rest[j] == cities[j + 1];
      RecordAllUntouched(g.Record(cities[0]), rest, key);
    }
  }

  /** The city written last under a name is what its key holds afterwards. */
  lemma {:induction false} RecordAllLastWins(g: GaugeState, cities: seq<City>, j: nat)
    requires j < |cities|
    requires forall j' :: j < j' < |cities| ==> cities[j'].name != cities[j].name
    ensures RecordAll(g, cities).At(cities[j].name) == Measured(cities[j])
    decreases |cities|
  {
    var rest := cities[1..];
    assert forall i :: 0 <= i < |rest| ==> rest[i] == cities[i + 1];
    if j == 0 {
      RecordAllUntouched(g.Record(cities[0]), rest, cities[0].name);
    } else {
      RecordAllLastWins(g.Record(cities[0]), rest, j - 1);
    }
  }

  /** A label some city names ends up the same whatever the gauges held before. */
  lemma {:induction false} RecordAllOverrides(g1: GaugeState, g2: GaugeState, cities: seq<City>, key: string)
    requires exists j :: 0 <= j < |cities| && cities[j].name == key
    ensures RecordAll(g1, cities).At(key) == RecordAll(g2, cities).At(key)
    decreases |cities|
  {
    var rest := cities[1..];
    if cities[0].name == key && !exists j :: 0 <= j < |rest| && rest[j].name == key {
      RecordAllUntouched(g1.Record(cities[0]), rest, key);
      RecordAllUntouched(g2.Record(cities[0]), rest, key);
    } else {
      assert exists j :: 0 <= j < |rest| && rest[j].name == key by {
        if cities[0].name != key {
          var j :| 0 <= j < |cities| && cities[j].name == key;
          assert rest[j - 1] == cities[j];
        }
      }
      RecordAllOverrides(g1.Record(cities[0]), g2.Record(cities[0]), rest, key);
    }
  }

  /** Gauge states that agree on every label are the same state. */
  lemma SameReadings(g1: GaugeState, g2: GaugeState)
    requires forall key :: g1.At(key) == g2.At(key)
    ensures g1 == g2
  {
    assert g1.temperature.Keys == g2.temperature.Keys by {
      forall key ensures key in g1.temperature <==> key in g2.temperature {
        assert g1.At(key).temperature == g2.At(key).temperature;
      }
    }
    assert g1.relativeHumidity.Keys == g2.relativeHumidity.Keys by {
      forall key ensures key in g1.relativeHumidity <==> key in g2.relativeHumidity {
        assert g1.At(key).relativeHumidity == g2.At(key).relativeHumidity;
      }
    }
    forall key | key in g1.temperature ensures g1.temperature[key] == g2.temperature[key] {
      assert g1.At(key).temperature == g2.At(key).temperature;
    }
    forall key | key in g1.relativeHumidity
      ensures g1.relativeHumidity[key] == g2.relativeHumidity[key]
    {
      assert g1.At(key).relativeHumidity == g2.At(key).relativeHumidity;
    }
  }

  /** Writing the same cities a second time changes nothing. */
  lemma RecordAllTwice(g: GaugeState, cities: seq<City>)
    ensures RecordAll(RecordAll(g, cities), cities) == RecordAll(g, cities)
  {
    var once := RecordAll(g, cities);
    forall key ensures RecordAll(once, cities).At(key) == once.At(key) {
      if exists j :: 0 <= j < |cities| && cities[j].name == key {
        RecordAllOverrides(once, g, cities, key);
      } else {
        RecordAllUntouched(once, cities, key);
      }
    }
    SameReadings(RecordAll(once, cities), once);
  }

  /** The loop writes exactly the rows before the first one that fails to
      parse, and returns that row's failure; nothing written is rolled back. */
  lemma {:induction false} SweepAppliesPrefix(g: GaugeState, rows: seq<Row>)
    ensures var k := ParsedPrefix(rows);
            Sweep(g, rows) == (RecordAll(g, Cities(rows[..k])),
                               if k == |rows| then Ok(()) else Abandon(ParseCity(rows[k])))
    decreases |rows|
  {
    if rows != [] && ParseCity(rows[0]).Ok? {
      var c := ParseCity(rows[0]).value;
      var rest := rows[1..];
      SweepAppliesPrefix(g.Record(c), rest);
      var k := ParsedPrefix(rows);
      assert Cities(rows[..k]) == [c] + Cities(rest[..k - 1]);
      if k < |rows| {
        assert rows[k] == rest[k - 1];
      }
    }
  }

  /** A failed fetch, or a page without its report time, returns the error
      before any gauge is written. */
  lemma CycleAbortsUnchanged(g: GaugeState, fetched: Fetch)
    requires fetched.FetchFailed? || fetched.doc.headers == []
    ensures Cycle(g, fetched).0 == g
    ensures Cycle(g, fetched).1 == if fetched.FetchFailed? then Err(ConnectionError(fetched.reason))
                                   else Err(ParseError(DATETIME_NOT_FOUND))
  {
  }

  /** A cycle that returns `Ok` fetched a page with a report time, parsed
      every row, and wrote every row's city in document order. */
  lemma CycleSucceeded(g: GaugeState, fetched: Fetch)
    requires Cycle(g, fetched).1.Ok?
    ensures fetched.Fetched? && fetched.doc.headers != []
    ensures ParsedPrefix(fetched.doc.rows) == |fetched.doc.rows|
    ensures Cycle(g, fetched).0 == RecordAll(g, Cities(fetched.doc.rows))
  {
    var rows := fetched.doc.rows;
    SweepAppliesPrefix(g, rows);
    assert rows[..|rows|] == rows;
  }

  /** After a successful cycle, the key of row j holds row j's readings when
      no later row carries the same name: the last row of a name wins. */
  lemma CycleLastRowWins(g: GaugeState, doc: Document, j: nat)
    requires Cycle(g, Fetched(doc)).1.Ok?
    requires j < |doc.rows|
    requires forall j' :: j < j' < |doc.rows| ==> doc.rows[j'].First(NAME_CLASS) != doc.rows[j].First(NAME_CLASS)
    ensures ParseCity(doc.rows[j]).Ok?
    ensures Cycle(g, Fetched(doc)).0.At(doc.rows[j].First(NAME_CLASS).value)
            == Measured(ParseCity(doc.rows[j]).value)
  {
    CycleSucceeded(g, Fetched(doc));
    var cities := Cities(doc.rows);
    forall j' | j < j' < |cities| ensures cities[j'].name != cities[j].name {
      assert cities[j'] == ParseCity(doc.rows[j']).value;
    }
    RecordAllLastWins(g, cities, j);
  }

  /** After a successful cycle, a key that no row names holds what it held
      before: stations missing from the page keep their last values. */
  lemma CycleKeepsUnnamed(g: GaugeState, doc: Document, key: string)
    requires Cycle(g, Fetched(doc)).1.Ok?
    requires forall j :: 0 <= j < |doc.rows| ==> doc.rows[j].First(NAME_CLASS) != Some(key)
    ensures Cycle(g, Fetched(doc)).0.At(key) == g.At(key)
  {
    CycleSucceeded(g, Fetched(doc));
    var cities := Cities(doc.rows);
    forall j | 0 <= j < |cities| ensures cities[j].name != key {
      assert cities[j] == ParseCity(doc.rows[j]).value;
    }
    RecordAllUntouched(g, cities, key);
  }

  /** A cycle that fails on row k returns that row's error or panic, and the
      gauges hold what rows 0..k-1 wrote; row k and later rows write nothing. */
  lemma CycleFailedAtRow(g: GaugeState, fetched: Fetch)
    requires fetched.Fetched? && fetched.doc.headers != []
    requires !Cycle(g, fetched).1.Ok?
    ensures var rows := fetched.doc.rows;
            var k := ParsedPrefix(rows);
            && k < |rows|
            && Cycle(g, fetched).1 == Abandon(ParseCity(rows[k]))
            && Cycle(g, fetched).0 == RecordAll(g, Cities(rows[..k]))
  {
    SweepAppliesPrefix(g, fetched.doc.rows);
  }

  /** Running a cycle again over the same page leaves the gauges as the first
      run left them and returns the same result. */
  lemma CycleIdempotent(g: GaugeState, fetched: Fetch)
    ensures Cycle(Cycle(g, fetched).0, fetched) == Cycle(g, fetched)
  {
    if fetched.Fetched? && fetched.doc.headers != [] {
      var rows := fetched.doc.rows;
      var k := ParsedPrefix(rows);
      SweepAppliesPrefix(g, rows);
      SweepAppliesPrefix(Cycle(g, fetched).0, rows);
      RecordAllTwice(g, Cities(rows[..k]));
    }
  }

  /** The two registered gauge families, `arso_temperature` and
      `arso_relative_humidity`, both labelled by city. */
  class Gauges {
    var temperature: map<string, i64>
    var relativeHumidity: map<string, i64>

    function State(): GaugeState
      reads this
    {
      GaugeState(temperature, relativeHumidity)
    }

    /** Registration: both families start without any series. */
    constructor ()
      ensures State() == GaugeState(map[], map[])
    {
      temperature := map[];
      relativeHumidity := map[];
    }

    /** `arso_retrieve`: check the page's report time, then parse the rows in
        order, writing both gauges for each, until a row fails. */
    method Retrieve(fetched: Fetch) returns (status: Outcome<()>)
      modifies this
      ensures (State(), status) == Cycle(old(State()), fetched)
    {
      if fetched.FetchFailed? {
        return Err(ConnectionError(fetched.reason));
      }
      var doc := fetched.doc;
      var dt := ParseDatetime(doc);
      if !dt.Ok? {
        return Abandon(dt);
      }
      var nodes := doc.rows;
      var i := 0;
      while i < |nodes|
        invariant 0 <= i <= |nodes|
        invariant Sweep(old(State()), nodes) == Sweep(State(), nodes[i..])
      {
        assert nodes[i..][1..] == nodes[i + 1..];
        var city := ParseCity(nodes[i]);
        if !city.Ok? {
          return Abandon(city);
        }
        temperature := temperature[city.value.name := city.value.temperature as i64];
        relativeHumidity := relativeHumidity[city.value.name := city.value.relativeHumidity as i64];
        i := i + 1;
      }
      status := Ok(());
    }
  }
}
