/**
 * The service's operations over the two tables: the reference date (the
 * latest measurement date minus 365 days), the busiest station, the JSON
 * lists of the precipitation, stations and temperature-observation routes,
 * the temperature summary of the start/end routes, and the station-analysis
 * report.  Queries are evaluated by the functions of Tables; each route's
 * loop that turns result rows into dictionaries is a method.
 */
module App {
  import opened Wrappers
  import Lex
  import Dates
  import opened Tables

  /** What the operations raise instead of returning a value. */
  datatype Error =
    | EmptyDataset    // no measurement row: `first()` gives None, or `[0]` of an empty result
    | MalformedDate   // strptime rejects the latest stored date
    | DateOutOfRange  // OverflowError: 365 days earlier falls before year 1
    | NullAverage     // round(None, 2): the busiest station has no temperature reading

  /** The JSON values the routes return. */
  datatype Json =
    | JNull
    | JString(s: string)
    | JInt(n: int)
    | JReal(x: real)
    | JObject(fields: map<string, Json>)

  /** A SQL NULL becomes JSON null. */
  function IntOrNull(v: Option<int>): Json
  {
    if v.Some? then JInt(v.value) else JNull
  }

  function RealOrNull(v: Option<real>): Json
  {
    if v.Some? then JReal(v.value) else JNull
  }

  // ---------------------------------------------------------------------------
  // date_prev_year

  /** `b` is a well-formed date exactly k days after the well-formed date `a`. */
  predicate DaysApart(a: string, b: string, k: int)
  {
    Dates.Parse(a).Some? && Dates.Parse(b).Some?
    && Dates.ToOrdinal(Dates.Parse(b).value) - Dates.ToOrdinal(Dates.Parse(a).value) == k
  }

  /**
   * Parse a YYYY-MM-DD date, step back 365 days, and format the result:
   * the date arithmetic of date_prev_year.
   */
  function YearBefore(latest: string): (r: Result<string, Error>)
    ensures r == Err(MalformedDate) <==> Dates.Parse(latest).None?
    ensures r == Err(DateOutOfRange) <==>
              Dates.Parse(latest).Some? && Dates.ToOrdinal(Dates.Parse(latest).value) <= 365
    ensures r.Err? ==> r.error == MalformedDate || r.error == DateOutOfRange
    ensures r.Ok? ==> DaysApart(r.value, latest, 365)
    ensures r.Ok? ==> Lex.Lt(r.value, latest)
  {
    match Dates.Parse(latest)
    case None => Err(MalformedDate)
    case Some(d) =>
      Dates.OrdinalRange(d);
      match Dates.AddDays(d, -365)
      case None => Err(DateOutOfRange)
      case Some(p) =>
        Dates.ParseFormat(p);
        Dates.FormatParse(latest);
        Dates.FormatOrder(p, d);
        Ok(Dates.Format(p))
  }

  /**
   * The reference date of the "last 12 months" routes: the latest
   * measurement date minus 365 days.
   */
  function DatePrevYear(ms: seq<Measurement>): (r: Result<string, Error>)
    ensures r == Err(EmptyDataset) <==> |ms| == 0
    ensures r == Err(MalformedDate) <==> |ms| > 0 && Dates.Parse(LatestDate(ms).value).None?
    ensures r == Err(DateOutOfRange) <==>
              |ms| > 0 && Dates.Parse(LatestDate(ms).value).Some?
              && Dates.ToOrdinal(Dates.Parse(LatestDate(ms).value).value) <= 365
    ensures r.Err? ==> r.error != NullAverage
    ensures r.Ok? ==> DaysApart(r.value, LatestDate(ms).value, 365)
  {
    match LatestDate(ms)
    case None => Err(EmptyDataset)
    case Some(latest) => YearBefore(latest)
  }

  /**
   * YearBefore on the text of date d is the text of date p, when p is 365
   * days before d.
   */
  lemma YearBeforeIs(s: string, t: string, d: Dates.Date, p: Dates.Date)
    requires Dates.Valid(d) && Dates.Valid(p) && Dates.ToOrdinal(p) == Dates.ToOrdinal(d) - 365
    requires s == Dates.Format(d) && t == Dates.Format(p)
    ensures YearBefore(s) == Ok(t)
  {
    Dates.ParseFormat(d);
    Dates.ParseFormat(p);
    var r := YearBefore(s);
    Dates.OrdinalRange(p);
    Dates.OrdinalInjective(Dates.Parse(r.value).value, p);
    Dates.FormatParse(r.value);
  }

  lemma Text2017()
    ensures Dates.Format(Dates.Date(2017, 8, 23)) == "2017-08-23"
    ensures Dates.Format(Dates.Date(2016, 8, 23)) == "2016-08-23"
  {
  }

  /** Over a year without 29 February, 365 days back is the same day of the previous year. */
  lemma Example2017()
    ensures YearBefore("2017-08-23") == Ok("2016-08-23")
  {
    Text2017();
    YearBeforeIs("2017-08-23", "2016-08-23", Dates.Date(2017, 8, 23), Dates.Date(2016, 8, 23));
  }

  lemma Text2016()
    ensures Dates.Format(Dates.Date(2016, 8, 23)) == "2016-08-23"
    ensures Dates.Format(Dates.Date(2015, 8, 24)) == "2015-08-24"
  {
  }

  /** Stepping back over 29 February 2016 lands one day later in the month. */
  lemma Example2016()
    ensures YearBefore("2016-08-23") == Ok("2015-08-24")
  {
    Text2016();
    YearBeforeIs("2016-08-23", "2015-08-24", Dates.Date(2016, 8, 23), Dates.Date(2015, 8, 24));
  }

  lemma TextLeapDay()
    ensures Dates.Format(Dates.Date(2024, 2, 29)) == "2024-02-29"
    ensures Dates.Format(Dates.Date(2023, 3, 1)) == "2023-03-01"
  {
  }

  /** From a leap day, 365 days back is 1 March of the previous year. */
  lemma ExampleLeapDay()
    ensures YearBefore("2024-02-29") == Ok("2023-03-01")
  {
    TextLeapDay();
    YearBeforeIs("2024-02-29", "2023-03-01", Dates.Date(2024, 2, 29), Dates.Date(2023, 3, 1));
  }

  lemma TextNoSuchDay()
    ensures Dates.Pad(2017, 4) + (['-'] + (Dates.Pad(2, 2) + (['-'] + Dates.Pad(30, 2)))) == "2017-02-30"
  {
  }

  /** A day that does not exist is rejected, as strptime rejects it. */
  lemma ExampleNoSuchDay()
    ensures YearBefore("2017-02-30") == Err(MalformedDate)
  {
    TextNoSuchDay();
    Dates.ParseFields("2017-02-30", 2017, 2, 30);
    assert !Dates.Valid(Dates.Date(2017, 2, 30));
  }

  /** 365 days before the 365th day of year 1 would precede year 1. */
  lemma ExampleOverflow()
    ensures YearBefore("0001-12-31") == Err(DateOutOfRange)
  {
    var d := Dates.Date(1, 12, 31);
    assert Dates.Format(d) == "0001-12-31";
    Dates.ParseFormat(d);
    assert Dates.ToOrdinal(d) == 365;
  }

  /**
   * Every well-formed measurement date lies at most 365 days after the
   * reference date, so `date >= reference` selects the final 366 days of data.
   */
  lemma WindowSpan(ms: seq<Measurement>, m: Measurement)
    requires DatePrevYear(ms).Ok? && m in ms && Dates.Parse(m.date).Some?
    ensures Dates.ToOrdinal(Dates.Parse(m.date).value)
            <= Dates.ToOrdinal(Dates.Parse(DatePrevYear(ms).value).value) + 365
  {
    var latest := LatestDate(ms).value;
    Dates.FormatParse(m.date);
    Dates.FormatParse(latest);
    Dates.FormatOrder(Dates.Parse(m.date).value, Dates.Parse(latest).value);
  }

  /**
   * For well-formed dates, the `date >= reference` filter is the
   * chronological comparison it stands for.
   */
  lemma DateFilterIsChronological(reference: string, date: string)
    requires Dates.Parse(reference).Some? && Dates.Parse(date).Some?
    ensures Lex.Le(reference, date) <==>
            Dates.ToOrdinal(Dates.Parse(reference).value) <= Dates.ToOrdinal(Dates.Parse(date).value)
  {
    Dates.FormatParse(reference);
    Dates.FormatParse(date);
    Dates.FormatOrder(Dates.Parse(reference).value, Dates.Parse(date).value);
  }

  // ---------------------------------------------------------------------------
  // most_active_station

  /** The number of measurement rows of station s. */
  function Observations(ms: seq<Measurement>, s: string): nat
  {
    Count(StationColumn(ms), s)
  }

  /**
   * The station with the most measurement rows; which of several equally
   * busy stations is returned is not promised.
   */
  function MostActiveStation(ms: seq<Measurement>): (r: Result<string, Error>)
    ensures r.Err? <==> |ms| == 0
    ensures r.Err? ==> r.error == EmptyDataset
    ensures r.Ok? ==> exists m :: m in ms && m.station == r.value
    ensures r.Ok? ==> forall m :: m in ms ==> Observations(ms, m.station) <= Observations(ms, r.value)
  {
    var ranking := Ranking(StationColumn(ms));
    if |ms| == 0 then Err(EmptyDataset)
    else
      assert ms[0].station in StationColumn(ms);
      InStationColumn(ms, ranking[0].key);
      forall m | m in ms
        ensures Observations(ms, m.station) <= Observations(ms, ranking[0].key)
      {
        InStationColumn(ms, m.station);
        var i :| 0 <= i < |ranking| && ranking[i].key == m.station;
      }
      Ok(ranking[0].key)
  }

  // ---------------------------------------------------------------------------
  // The loops that turn result rows into dictionaries

  /** A dictionary with exactly the keys `date` and `prcp`, holding the row's values. */
  predicate IsPrcpEntry(e: map<string, Json>, m: Measurement)
  {
    e.Keys == {"date", "prcp"} && e["date"] == JString(m.date) && e["prcp"] == RealOrNull(m.prcp)
  }

  /** A dictionary with exactly the keys `date` and `tobs`, holding the row's values. */
  predicate IsTobsEntry(e: map<string, Json>, m: Measurement)
  {
    e.Keys == {"date", "tobs"} && e["date"] == JString(m.date) && e["tobs"] == IntOrNull(m.tobs)
  }

  /** A dictionary with exactly the keys `station_id`, `name` and `observation_count`. */
  predicate IsRosterEntry(e: map<string, Json>, row: RosterRow)
  {
    e.Keys == {"station_id", "name", "observation_count"}
    && e["station_id"] == JString(row.station) && e["name"] == JString(row.name)
    && e["observation_count"] == JInt(row.count)
  }

  /** One `{date, prcp}` dictionary per row, in row order. */
  method PrcpList(rows: seq<Measurement>) returns (list: seq<map<string, Json>>)
    ensures |list| == |rows|
    ensures forall i :: 0 <= i < |rows| ==> IsPrcpEntry(list[i], rows[i])
  {
    list := [];
    for i := 0 to |rows|
      invariant |list| == i
      invariant forall j :: 0 <= j < i ==> IsPrcpEntry(list[j], rows[j])
    {
      var entry: map<string, Json> := map[];
      entry := entry["date" := JString(rows[i].date)];
      entry := entry["prcp" := RealOrNull(rows[i].prcp)];
      list := list + [entry];
    }
  }

  /** One `{date, tobs}` dictionary per row, in row order. */
  method TobsList(rows: seq<Measurement>) returns (list: seq<map<string, Json>>)
    ensures |list| == |rows|
    ensures forall i :: 0 <= i < |rows| ==> IsTobsEntry(list[i], rows[i])
  {
    list := [];
    for i := 0 to |rows|
      invariant |list| == i
      invariant forall j :: 0 <= j < i ==> IsTobsEntry(list[j], rows[j])
    {
      var entry: map<string, Json> := map[];
      entry := entry["date" := JString(rows[i].date)];
      entry := entry["tobs" := IntOrNull(rows[i].tobs)];
      list := list + [entry];
    }
  }

  /** One `{station_id, name, observation_count}` dictionary per roster row, in roster order. */
  method RosterList(rows: seq<RosterRow>) returns (list: seq<map<string, Json>>)
    ensures |list| == |rows|
    ensures forall i :: 0 <= i < |rows| ==> IsRosterEntry(list[i], rows[i])
  {
    list := [];
    for i := 0 to |rows|
      invariant |list| == i
      invariant forall j :: 0 <= j < i ==> IsRosterEntry(list[j], rows[j])
    {
      list := list + [map["station_id" := JString(rows[i].station), "name" := JString(rows[i].name),
                          "observation_count" := JInt(rows[i].count)]];
    }
  }

  // ---------------------------------------------------------------------------
  // Routes

  /** The filter of the "last 12 months" queries, optionally for one station. */
  function SinceReference(station: Option<string>, reference: string): Where
  {
    Where(station, Some(reference), None)
  }

  /**
   * /api/v1.0/precipitation: a `{date, prcp}` dictionary for every row dated
   * on or after the reference date, in table order.
   */
  method Precipitation(ms: seq<Measurement>) returns (r: Result<seq<map<string, Json>>, Error>)
    ensures DatePrevYear(ms).Err? ==> r == Err(DatePrevYear(ms).error)
    ensures DatePrevYear(ms).Ok? ==> r.Ok?
    ensures r.Ok? ==>
              var rows := Select(ms, SinceReference(None, DatePrevYear(ms).value));
              |r.value| == |rows| && forall i :: 0 <= i < |rows| ==> IsPrcpEntry(r.value[i], rows[i])
    ensures r.Ok? ==>
              var rows := Select(ms, SinceReference(None, DatePrevYear(ms).value));
              forall i :: 0 <= i < |rows| ==> Lex.Le(DatePrevYear(ms).value, rows[i].date)
  {
    var reference := DatePrevYear(ms);
    if reference.Err? {
      return Err(reference.error);
    }
    var rows := Select(ms, SinceReference(None, reference.value));
    var list := PrcpList(rows);
    SelectedRows(ms, SinceReference(None, reference.value));
    return Ok(list);
  }

  /** The dataset's station ids, in table order: numpy's ravel of one-column rows. */
  function StationIds(sts: seq<Station>): (ids: seq<string>)
    ensures |ids| == |sts|
    ensures forall i :: 0 <= i < |sts| ==> ids[i] == sts[i].id
  {
    var rows := seq(|sts|, i requires 0 <= i < |sts| => [sts[i].id]);
    RavelSingletons(rows);
    Ravel(rows)
  }

  /** With unique ids, the station list names every station exactly once. */
  lemma StationIdsOnce(sts: seq<Station>)
    requires UniqueIds(sts)
    ensures forall i, j :: 0 <= i < j < |StationIds(sts)| ==> StationIds(sts)[i] != StationIds(sts)[j]
    ensures forall st :: st in sts ==> st.id in StationIds(sts)
  {
    var ids := StationIds(sts);
    forall st | st in sts ensures st.id in ids {
      var i :| 0 <= i < |sts| && sts[i] == st;
      assert ids[i] == st.id;
    }
  }

  /**
   * /api/v1.0/tobs: a `{date, tobs}` dictionary for every row of the busiest
   * station dated on or after the reference date, in table order.
   */
  method Tobs(ms: seq<Measurement>) returns (r: Result<seq<map<string, Json>>, Error>)
    ensures |ms| == 0 ==> r == Err(EmptyDataset)
    ensures |ms| > 0 && DatePrevYear(ms).Err? ==> r == Err(DatePrevYear(ms).error)
    ensures |ms| > 0 && DatePrevYear(ms).Ok? ==> r.Ok?
    ensures r.Ok? ==>
              var rows := Select(ms, SinceReference(Some(MostActiveStation(ms).value), DatePrevYear(ms).value));
              |r.value| == |rows| && forall i :: 0 <= i < |rows| ==> IsTobsEntry(r.value[i], rows[i])
    ensures r.Ok? ==>
              var rows := Select(ms, SinceReference(Some(MostActiveStation(ms).value), DatePrevYear(ms).value));
              forall i :: 0 <= i < |rows| ==>
                rows[i].station == MostActiveStation(ms).value && Lex.Le(DatePrevYear(ms).value, rows[i].date)
  {
    var active := MostActiveStation(ms);
    if active.Err? {
      return Err(active.error);
    }
    var reference := DatePrevYear(ms);
    if reference.Err? {
      return Err(reference.error);
    }
    var rows := Select(ms, SinceReference(Some(active.value), reference.value));
    var list := TobsList(rows);
    SelectedRows(ms, SinceReference(Some(active.value), reference.value));
    return Ok(list);
  }

  /** A row inside the [start, end] window of the summary routes; no end means no upper bound. */
  predicate InWindow(m: Measurement, start: string, end: Option<string>)
  {
    Matches(Where(None, Some(start), end), m)
  }

  /**
   * /api/v1.0/<start> and /api/v1.0/<start>/<end>: `[min, avg, max]` of the
   * temperatures of the rows in the window, each null when the window holds
   * no temperature.  start and end are compared as strings, unvalidated.
   */
  function CalTemp(ms: seq<Measurement>, start: string, end: Option<string>): (r: seq<Json>)
    ensures |r| == 3
    ensures r[0] == JNull <==> forall m :: m in ms && InWindow(m, start, end) ==> m.tobs.None?
    ensures r[1] == JNull <==> r[0] == JNull
    ensures r[2] == JNull <==> r[0] == JNull
    ensures r[0] != JNull ==>
              r[0].JInt? && exists m :: m in ms && InWindow(m, start, end) && m.tobs == Some(r[0].n)
    ensures r[0] != JNull ==>
              forall m :: m in ms && InWindow(m, start, end) && m.tobs.Some? ==> r[0].n <= m.tobs.value
    ensures r[2] != JNull ==>
              r[2].JInt? && exists m :: m in ms && InWindow(m, start, end) && m.tobs == Some(r[2].n)
    ensures r[2] != JNull ==>
              forall m :: m in ms && InWindow(m, start, end) && m.tobs.Some? ==> m.tobs.value <= r[2].n
    ensures r[0] != JNull ==> r[1].JReal? && (r[0].n as real) <= r[1].x <= (r[2].n as real)
  {
    var rows := Select(ms, Where(None, Some(start), end));
    var stats := Aggregate(rows);
    var row := [IntOrNull(stats.min), RealOrNull(stats.avg), IntOrNull(stats.max)];
    assert Ravel([row]) == row + Ravel([row][1..]);
    assert [row][1..] == [];
    Ravel([row])
  }

  /** A start after the end selects nothing: the summary is three nulls, not an error. */
  lemma CalTempEmptyRange(ms: seq<Measurement>, start: string, end: string)
    requires Lex.Lt(end, start)
    ensures CalTemp(ms, start, Some(end)) == [JNull, JNull, JNull]
  {
    EmptyRange(ms, Where(None, Some(start), Some(end)));
  }

  // ---------------------------------------------------------------------------
  // station_analysis

  /** The report of /api/v1.0/station-analysis, without its histogram image. */
  datatype Analysis = Analysis(
    stationCount: nat,
    stationsByActivity: seq<map<string, Json>>,
    mostActive: map<string, Json>,
    sample: seq<map<string, Json>>)

  function StatsObject(s: Stats): Json
  {
    JObject(map["min" := IntOrNull(s.min), "avg" := RealOrNull(s.avg), "max" := IntOrNull(s.max)])
  }

  function Smaller(a: int, b: int): int
  {
    if a <= b then a else b
  }

  /**
   * The most-active-station block: id, name and count of the roster row, and
   * the temperature statistics of all that station's rows.
   */
  predicate IsMostActiveBlock(b: map<string, Json>, row: RosterRow, stats: Stats)
  {
    b.Keys == {"id", "name", "observation_count", "temperature_stats"}
    && b["id"] == JString(row.station) && b["name"] == JString(row.name)
    && b["observation_count"] == JInt(row.count) && b["temperature_stats"] == StatsObject(stats)
  }

  /** The most-active-station dictionary of a roster row and its statistics. */
  function MostActiveBlock(row: RosterRow, stats: Stats): (b: map<string, Json>)
    ensures IsMostActiveBlock(b, row, stats)
  {
    map["id" := JString(row.station), "name" := JString(row.name),
        "observation_count" := JInt(row.count), "temperature_stats" := StatsObject(stats)]
  }

  /** The rows of station s, at any date. */
  function OfStation(s: string): Where
  {
    Where(Some(s), None, None)
  }

  /**
   * Report a lists every roster row in order, describes the first roster row
   * with the given statistics, and samples the first (at most) five tobs rows.
   */
  predicate Reports(a: Analysis, stationObs: seq<RosterRow>, tempStats: Stats, tobsData: seq<Measurement>)
    requires |stationObs| > 0
  {
    && |a.stationsByActivity| == |stationObs|
    && (forall i :: 0 <= i < |stationObs| ==> IsRosterEntry(a.stationsByActivity[i], stationObs[i]))
    && IsMostActiveBlock(a.mostActive, stationObs[0], tempStats)
    && |a.sample| == Smaller(5, |tobsData|)
    && (forall i :: 0 <= i < |a.sample| ==> IsTobsEntry(a.sample[i], tobsData[i]))
  }

  /**
   * Assembles the report from its parts: the roster as a list of
   * dictionaries, the block of its first row, and the first five tobs rows.
   */
  method Report(stationCount: nat, stationObs: seq<RosterRow>, tempStats: Stats, tobsData: seq<Measurement>)
    returns (a: Analysis)
    requires |stationObs| > 0
    ensures a.stationCount == stationCount
    ensures Reports(a, stationObs, tempStats, tobsData)
  {
    var stationList := RosterList(stationObs);
    var block := MostActiveBlock(stationObs[0], tempStats);
    var head := tobsData[..Smaller(5, |tobsData|)];
    var sample := TobsList(head);
    assert forall i :: 0 <= i < |sample| ==> head[i] == tobsData[i];
    a := Analysis(stationCount, stationList, block, sample);
  }

  /**
   * The station analysis: the station count, the roster of stations by
   * activity, the busiest station (roster element 0) with its temperature
   * statistics, and the first five of its `{date, tobs}` rows dated on or
   * after the reference date.
   */
  method StationAnalysis(ms: seq<Measurement>, sts: seq<Station>) returns (r: Result<Analysis, Error>)
    ensures |Roster(ms, sts)| == 0 ==> r == Err(EmptyDataset)
    ensures |Roster(ms, sts)| > 0 && DatePrevYear(ms).Err? ==> r == Err(DatePrevYear(ms).error)
    ensures |Roster(ms, sts)| > 0 && DatePrevYear(ms).Ok? ==>
              (r.Err? <==> Aggregate(Select(ms, OfStation(Roster(ms, sts)[0].station))).avg.None?)
              && (r.Err? ==> r.error == NullAverage)
    ensures r.Ok? ==> |Roster(ms, sts)| > 0 && DatePrevYear(ms).Ok? && r.value.stationCount == |sts|
    ensures r.Ok? ==>
              Reports(r.value, Roster(ms, sts), Aggregate(Select(ms, OfStation(Roster(ms, sts)[0].station))),
                      Select(ms, SinceReference(Some(Roster(ms, sts)[0].station), DatePrevYear(ms).value)))
  {
    var stationCount := |sts|;
    var stationObs := Roster(ms, sts);
    if |stationObs| == 0 {
      return Err(EmptyDataset);
    }
    var mostActive := stationObs[0].station;
    var tempStats := Aggregate(Select(ms, OfStation(mostActive)));
    var reference := DatePrevYear(ms);
    if reference.Err? {
      return Err(reference.error);
    }
    if tempStats.avg.None? {
      return Err(NullAverage);
    }
    var tobsData := Select(ms, SinceReference(Some(mostActive), reference.value));
    var report := Report(stationCount, stationObs, tempStats, tobsData);
    return Ok(report);
  }

  /**
   * With unique station ids and a station row for every measured station,
   * the roster's first row is a busiest station: it has as many measurements
   * as the station most_active_station picks, and at least as many as any.
   */
  lemma RosterHeadIsBusiest(ms: seq<Measurement>, sts: seq<Station>)
    requires |ms| > 0 && UniqueIds(sts)
    requires forall m :: m in ms ==> exists st :: st in sts && st.id == m.station
    ensures |Roster(ms, sts)| > 0
    ensures Roster(ms, sts)[0].count == Observations(ms, Roster(ms, sts)[0].station)
    ensures Roster(ms, sts)[0].count == Observations(ms, MostActiveStation(ms).value)
  {
    var busiest := MostActiveStation(ms).value;
    var m :| m in ms && m.station == busiest;
    var st :| st in sts && st.id == m.station;
    RosterCovers(ms, sts, m, st);
    var r := Roster(ms, sts);
    var k :| 0 <= k < |r| && StationsOf(r)[k] == busiest;
    RosterCounts(ms, sts, 0);
    RosterCounts(ms, sts, k);
    var m0 :| m0 in ms && m0.station == r[0].station;
    assert Observations(ms, r[0].station) <= Observations(ms, busiest);
    assert r[k].count <= r[0].count;
  }
}
