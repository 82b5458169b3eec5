/**
 * The MERRA-2 historical sweep: for each year of the 1991-2020 climate
 * period, build the daily file's URL, fetch it and read one value at the
 * grid cell nearest to the query, convert it to display units and collect it.
 *
 * The network fetch together with the NetCDF nearest-cell lookup is the
 * parameter `archive`: given the session, the URL, the dataset field and the
 * coordinates it returns the raw value or the error that the fetch raised.
 */
module DataFetcher {
  import opened Wrappers
  import opened Strings
  import Auth

  const OpendapBaseUrl: string := "https://goldsmr4.gesdisc.eosdis.nasa.gov/data/MERRA2/M2T1NXSLV.5.12.4"
  const ClimateStartYear: int := 1991
  const ClimateEndYear: int := 2020

  /** A unit conversion `x -> scale * x + offset`. */
  datatype Conversion = Affine(scale: real, offset: real)

  function Convert(c: Conversion, x: real): real
  {
    c.scale * x + c.offset
  }

  /** A registry entry: the dataset field to read and its conversion to display units. */
  datatype VariableInfo = VariableInfo(name: string, conversion: Conversion)

  /** The closed registry of supported variables. */
  const VariableMap: map<string, VariableInfo> := map[
    "max_temp_c" := VariableInfo("T2MMAX", Affine(1.0, -273.15)),       // Kelvin to Celsius
    "min_temp_c" := VariableInfo("T2MMIN", Affine(1.0, -273.15)),       // Kelvin to Celsius
    "precipitation_mm" := VariableInfo("PRECTOTCORR", Affine(86400.0, 0.0)), // kg/m^2/s to mm/day
    "wind_speed_kph" := VariableInfo("WSC", Affine(3.6, 0.0)),          // m/s to km/h
    "dust_ug_m3" := VariableInfo("DUSMASS", Affine(1000000000.0, 0.0))  // kg/m^3 to ug/m^3
  ]

  /** The conversion back from display units to the dataset's units. */
  function Unconvert(c: Conversion, y: real): real
    requires c.scale != 0.0
  {
    (y - c.offset) / c.scale
  }

  /**
   * Every registered conversion is strictly increasing and invertible, so
   * converting preserves the order of raw values and loses nothing.
   */
  lemma ConversionsIncreasing(variable: string, x: real, y: real)
    requires variable in VariableMap
    ensures VariableMap[variable].conversion.scale > 0.0
    ensures x < y ==> Convert(VariableMap[variable].conversion, x) < Convert(VariableMap[variable].conversion, y)
    ensures Unconvert(VariableMap[variable].conversion, Convert(VariableMap[variable].conversion, x)) == x
  {
    var c := VariableMap[variable].conversion;
    assert c.scale > 0.0;
    if x < y {
      assert c.scale * (y - x) > 0.0;
    }
    assert (c.scale * x + c.offset - c.offset) / c.scale == x;
  }

  // ---- the calendar: `datetime.date(year, month, day)` ----

  predicate IsLeapYear(year: int)
  {
    year % 4 == 0 && (year % 100 != 0 || year % 400 == 0)
  }

  function DaysInMonth(year: int, month: int): (n: int)
    requires 1 <= month <= 12
    ensures 28 <= n <= 31
    ensures month == 2 ==> (n == 29 <==> IsLeapYear(year))
  {
    if month == 2 then (if IsLeapYear(year) then 29 else 28)
    else if month in {4, 6, 9, 11} then 30
    else 31
  }

  /** The dates `datetime.date` accepts; every other triple raises ValueError. */
  predicate ValidDate(year: int, month: int, day: int)
  {
    1 <= year <= 9999 && 1 <= month <= 12 && 1 <= day <= DaysInMonth(year, month)
  }

  /** February 29th exists exactly in leap years; days up to the 28th exist in every month. */
  lemma ValidDateFacts(year: int, month: int, day: int)
    requires 1 <= year <= 9999
    ensures ValidDate(year, 2, 29) <==> IsLeapYear(year)
    ensures 1 <= month <= 12 && 1 <= day <= 28 ==> ValidDate(year, month, day)
    ensures day > 31 || day < 1 || month < 1 || month > 12 ==> !ValidDate(year, month, day)
  {
  }

  // ---- the file URL ----

  /** The MERRA-2 revision stream of a year. */
  function StreamFor(year: int): (s: string)
    ensures s in {"100", "200", "300", "400"}
    ensures s == "100" <==> year <= 1991
    ensures s == "200" <==> 1992 <= year <= 2000
    ensures s == "300" <==> 2001 <= year <= 2010
    ensures s == "400" <==> 2011 <= year
  {
    if year <= 1991 then "100"
    else if year <= 2000 then "200"
    else if year <= 2010 then "300"
    else "400"
  }

  /** Within the climate period the stream changes only after 1991, 2000 and 2010. */
  lemma StreamChangePoints(year: int)
    requires ClimateStartYear <= year < ClimateEndYear
    ensures StreamFor(year) != StreamFor(year + 1) <==> year in {1991, 2000, 2010}
  {
  }

  /** The daily collection file for a date: the base URL, then `/YYYY/MM/`, then the file name. */
  function FileUrl(year: nat, month: nat, day: nat): string
  {
    OpendapBaseUrl + FilePath(year, month, day)
  }

  function FilePath(year: nat, month: nat, day: nat): string
  {
    Directory(year, month) + FileName(year, month, day)
  }

  /** `/YYYY/MM/`. */
  function Directory(year: nat, month: nat): string
  {
    "/" + NatToString(year) + "/" + Pad2(month) + "/"
  }

  function FileName(year: nat, month: nat, day: nat): string
  {
    Collection(year) + DateStamp(year, month, day) + ".nc4"
  }

  /** `MERRA2_<stream>.tavg1_2d_slv_Nx.` */
  function Collection(year: nat): string
  {
    "MERRA2_" + StreamFor(year) + ".tavg1_2d_slv_Nx."
  }

  /** `YYYYMMDD`. */
  function DateStamp(year: nat, month: nat, day: nat): string
  {
    NatToString(year) + Pad2(month) + Pad2(day)
  }

  /** For a four-digit year and two-digit month and day the stamp is eight digits that parse back to the date. */
  lemma DateStampParses(year: nat, month: nat, day: nat)
    requires 1000 <= year <= 9999 && month < 100 && day < 100
    ensures var t := DateStamp(year, month, day);
      && |t| == 8 && AllDigits(t)
      && ParseNat(t[..4]) == year && ParseNat(t[4..6]) == month && ParseNat(t[6..]) == day
  {
    NatToStringLength(year);
    ParseNatToString(year);
    var y, mm, dd := NatToString(year), Pad2(month), Pad2(day);
    var t := DateStamp(year, month, day);
    assert t[..4] == y && t[4..6] == mm && t[6..] == dd;
  }

  /** The URL ends with the date stamp followed by ".nc4". */
  lemma FileUrlDate(year: nat, month: nat, day: nat)
    ensures EndsWith(FileUrl(year, month, day), DateStamp(year, month, day) + ".nc4")
  {
    EndsWithNested(OpendapBaseUrl, Directory(year, month), Collection(year), DateStamp(year, month, day), ".nc4");
  }

  /** Distinct dates (four-digit year, month and day below 100) never share a URL. */
  lemma FileUrlInjective(y1: nat, m1: nat, d1: nat, y2: nat, m2: nat, d2: nat)
    requires 1000 <= y1 <= 9999 && m1 < 100 && d1 < 100
    requires 1000 <= y2 <= 9999 && m2 < 100 && d2 < 100
    requires FileUrl(y1, m1, d1) == FileUrl(y2, m2, d2)
    ensures y1 == y2 && m1 == m2 && d1 == d2
  {
    var t1, t2 := DateStamp(y1, m1, d1), DateStamp(y2, m2, d2);
    FileUrlDate(y1, m1, d1);
    FileUrlDate(y2, m2, d2);
    DateStampParses(y1, m1, d1);
    DateStampParses(y2, m2, d2);
    SameEnding(FileUrl(y1, m1, d1), t1 + ".nc4", t2 + ".nc4");
    CancelSuffix(t1, t2, ".nc4");
  }

  // ---- one year ----

  /** What fetching a file and reading its field gives: a raw value, an HTTP error status, or another error. */
  datatype Extraction = Value(raw: real) | HttpError(status: int) | Failed(reason: string)

  /** The fetch-and-extract step for (session, url, field, latitude, longitude). */
  type Archive = (Auth.Session, string, string, real, real) -> Extraction

  /** A query: location, calendar date and variable name. */
  datatype Query = Query(latitude: real, longitude: real, month: int, day: int, variable: string)

  /** How one year of the sweep ends: a converted value is appended, or the year is skipped for one of four reasons. */
  datatype YearOutcome =
    | Appended(value: real)
    | InvalidDate              // `datetime.date` raised ValueError
    | NotFound                 // HTTP 404
    | HttpFailure(status: int) // any other HTTP error
    | Unexpected(reason: string)

  function YearResult(q: Query, info: VariableInfo, session: Auth.Session, archive: Archive, year: int): YearOutcome
  {
    if !ValidDate(year, q.month, q.day) then InvalidDate
    else match archive(session, FileUrl(year, q.month, q.day), info.name, q.latitude, q.longitude)
      case Value(raw) => Appended(Convert(info.conversion, raw))
      case HttpError(status) => if status == 404 then NotFound else HttpFailure(status)
      case Failed(reason) => Unexpected(reason)
  }

  /** The outcome of every year of a sweep. */
  type Outcomes = int -> YearOutcome

  /** The outcomes of the sweep for one query, session and archive. */
  function SweepOutcomes(q: Query, info: VariableInfo, session: Auth.Session, archive: Archive): Outcomes
  {
    year => YearResult(q, info, session, archive, year)
  }

  /** The values collected from the years `ClimateStartYear .. year - 1`, in year order. */
  function Collected(outcomes: Outcomes, year: int): seq<real>
    decreases year - ClimateStartYear
  {
    if year <= ClimateStartYear then []
    else
      var before := Collected(outcomes, year - 1);
      match outcomes(year - 1)
      case Appended(v) => before + [v]
      case _ => before
  }

  /** The years among `ClimateStartYear .. year - 1` that contributed a value, in order. */
  function SucceededYears(outcomes: Outcomes, year: int): seq<int>
    decreases year - ClimateStartYear
  {
    if year <= ClimateStartYear then []
    else
      var before := SucceededYears(outcomes, year - 1);
      if outcomes(year - 1).Appended? then before + [year - 1] else before
  }

  /** How many of the years `ClimateStartYear .. year - 1` were skipped. */
  function SkippedCount(outcomes: Outcomes, year: int): nat
    decreases year - ClimateStartYear
  {
    if year <= ClimateStartYear then 0
    else
      var before := SkippedCount(outcomes, year - 1);
      if outcomes(year - 1).Appended? then before else before + 1
  }

  /**
   * Where each collected value comes from: the i-th value is the value of
   * the i-th successful year, those years increase strictly and lie in the
   * swept range, and every year is either collected or skipped.
   */
  lemma {:induction false} CollectedProvenance(outcomes: Outcomes, year: int)
    requires ClimateStartYear <= year
    ensures var vs, ys := Collected(outcomes, year), SucceededYears(outcomes, year);
      && |vs| == |ys|
      && |vs| + SkippedCount(outcomes, year) == year - ClimateStartYear
      && (forall i :: 0 <= i < |ys| ==> ClimateStartYear <= ys[i] < year)
      && (forall i, j :: 0 <= i < j < |ys| ==> ys[i] < ys[j])
      && (forall i :: 0 <= i < |ys| ==> outcomes(ys[i]) == Appended(vs[i]))
    decreases year - ClimateStartYear
  {
    if year > ClimateStartYear {
      CollectedProvenance(outcomes, year - 1);
    }
  }

  /**
   * Every collected value comes from a year of the period whose date exists:
   * it is the variable's conversion of the raw value the archive returned for
   * that year's file, and the values follow the years in increasing order.
   */
  lemma SweepValuesConverted(q: Query, info: VariableInfo, session: Auth.Session, archive: Archive)
    ensures var outcomes := SweepOutcomes(q, info, session, archive);
      var vs, ys := Collected(outcomes, ClimateEndYear + 1), SucceededYears(outcomes, ClimateEndYear + 1);
      && |vs| == |ys|
      && (forall i, j :: 0 <= i < j < |ys| ==> ys[i] < ys[j])
      && forall i :: 0 <= i < |ys| ==>
        && ClimateStartYear <= ys[i] <= ClimateEndYear
        && ValidDate(ys[i], q.month, q.day)
        && var extraction := archive(session, FileUrl(ys[i], q.month, q.day), info.name, q.latitude, q.longitude);
           extraction.Value? && vs[i] == Convert(info.conversion, extraction.raw)
  {
    var outcomes := SweepOutcomes(q, info, session, archive);
    CollectedProvenance(outcomes, ClimateEndYear + 1);
    var vs, ys := Collected(outcomes, ClimateEndYear + 1), SucceededYears(outcomes, ClimateEndYear + 1);
    forall i | 0 <= i < |ys|
      ensures ValidDate(ys[i], q.month, q.day)
      ensures var extraction := archive(session, FileUrl(ys[i], q.month, q.day), info.name, q.latitude, q.longitude);
        extraction.Value? && vs[i] == Convert(info.conversion, extraction.raw)
    {
      assert YearResult(q, info, session, archive, ys[i]) == Appended(vs[i]);
    }
  }

  /** The values `get_nasa_data` returns once its session exists. */
  function HistoricalValues(q: Query, info: VariableInfo, session: Auth.Session, archive: Archive): seq<real>
  {
    Collected(SweepOutcomes(q, info, session, archive), ClimateEndYear + 1)
  }

  /** `get_nasa_data` as a whole: unknown variables give [], a credential failure propagates. */
  function NasaData(q: Query, env: Auth.Env, home: string, files: Auth.Files, archive: Archive)
    : Result<seq<real>, Auth.AuthError>
  {
    if q.variable !in VariableMap then Ok([])
    else match Auth.SessionCredentials(env, home, files)
      case Failure(e) => Failure(e)
      case Ok(c) => Ok(HistoricalValues(q, VariableMap[q.variable], Auth.Session(c, 10), archive))
  }

  /**
   * The sweep returns at most one value per year of the 30-year period:
   * exactly 30 minus the number of skipped years, each the converted value of
   * a year of the period, in increasing year order.
   */
  lemma SweepLength(q: Query, info: VariableInfo, session: Auth.Session, archive: Archive)
    ensures var outcomes := SweepOutcomes(q, info, session, archive);
      && |HistoricalValues(q, info, session, archive)| == 30 - SkippedCount(outcomes, ClimateEndYear + 1)
      && |HistoricalValues(q, info, session, archive)| <= 30
  {
    CollectedProvenance(SweepOutcomes(q, info, session, archive), ClimateEndYear + 1);
  }

  /** When no year is skipped, every year contributes, in year order. */
  lemma {:induction false} AllYearsCollected(outcomes: Outcomes, year: int)
    requires ClimateStartYear <= year
    requires forall y :: ClimateStartYear <= y < year ==> outcomes(y).Appended?
    ensures |Collected(outcomes, year)| == year - ClimateStartYear
    ensures forall i :: 0 <= i < year - ClimateStartYear ==>
              Collected(outcomes, year)[i] == outcomes(ClimateStartYear + i).value
    decreases year - ClimateStartYear
  {
    if year > ClimateStartYear {
      AllYearsCollected(outcomes, year - 1);
    }
  }

  /**
   * When the date exists in every year and every file yields the same raw
   * value, the sweep returns that value, converted, once for each of the 30 years.
   */
  lemma ConstantArchive(q: Query, info: VariableInfo, session: Auth.Session, archive: Archive, raw: real)
    requires forall y :: ClimateStartYear <= y <= ClimateEndYear ==> ValidDate(y, q.month, q.day)
    requires forall s, url, field, lat, lon :: archive(s, url, field, lat, lon) == Value(raw)
    ensures var vs := HistoricalValues(q, info, session, archive);
      |vs| == 30 && forall i :: 0 <= i < 30 ==> vs[i] == Convert(info.conversion, raw)
  {
    var outcomes := SweepOutcomes(q, info, session, archive);
    assert forall y :: ClimateStartYear <= y < ClimateEndYear + 1 ==> outcomes(y) == Appended(Convert(info.conversion, raw));
    AllYearsCollected(outcomes, ClimateEndYear + 1);
  }

  /** For February 29th only leap years contribute values. */
  lemma Feb29OnlyLeapYears(q: Query, info: VariableInfo, session: Auth.Session, archive: Archive)
    requires q.month == 2 && q.day == 29
    ensures var ys := SucceededYears(SweepOutcomes(q, info, session, archive), ClimateEndYear + 1);
      forall i :: 0 <= i < |ys| ==> IsLeapYear(ys[i])
  {
    var outcomes := SweepOutcomes(q, info, session, archive);
    CollectedProvenance(outcomes, ClimateEndYear + 1);
    var ys := SucceededYears(outcomes, ClimateEndYear + 1);
    forall i | 0 <= i < |ys| ensures IsLeapYear(ys[i]) {
      assert outcomes(ys[i]).Appended?;
      assert ValidDate(ys[i], 2, 29);
    }
  }

  /**
   * `get_nasa_data`: check the variable, create the authenticated session,
   * then visit 1991..2020 in order and append one converted value for every
   * year whose date is valid and whose file could be read.
   */
  method GetNasaData(q: Query, env: Auth.Env, home: string, files: Auth.Files, archive: Archive)
    returns (r: Result<seq<real>, Auth.AuthError>)
    ensures r == NasaData(q, env, home, files, archive)
    ensures q.variable !in VariableMap ==> r == Ok([])
    ensures r.Ok? ==> |r.value| <= ClimateEndYear - ClimateStartYear + 1
  {
    if q.variable !in VariableMap {
      return Ok([]);
    }
    var info := VariableMap[q.variable];
    var sessionOrError := Auth.CreateAuthenticatedSession(env, home, files);
    if sessionOrError.Failure? {
      return Failure(sessionOrError.error);
    }
    var session := sessionOrError.value;
    var historicalValues: seq<real> := [];
    ghost var outcomes := SweepOutcomes(q, info, session, archive);
    for year := ClimateStartYear to ClimateEndYear + 1
      invariant historicalValues == Collected(outcomes, year)
    {
      ghost var outcome := YearResult(q, info, session, archive, year);
      assert outcomes(year) == outcome;
      assert Collected(outcomes, year + 1)
        == historicalValues + (if outcome.Appended? then [outcome.value] else []);
      if !ValidDate(year, q.month, q.day) {
        continue;
      }
      var url := FileUrl(year, q.month, q.day);
      match archive(session, url, info.name, q.latitude, q.longitude)
      case Value(dataPoint) =>
        var convertedValue := Convert(info.conversion, dataPoint);
        assert outcome == Appended(convertedValue);
        historicalValues := historicalValues + [convertedValue];
      case HttpError(status) =>
        if status == 404 {
          continue;
        }
      case Failed(_) =>
        continue;
    }
    SweepLength(q, info, session, archive);
    r := Ok(historicalValues);
  }
}
