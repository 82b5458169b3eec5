/**
 * The `/analyze` operation: for each requested variable, fetch its 30-year
 * sample and summarise it as mean, population standard deviation and one
 * probability -- an empirical event frequency for precipitation, a normal
 * upper-tail probability for everything else.
 *
 * Sample values are reals. The square root and the normal survival function
 * come from numerical libraries and are parameters (`Numerics`); the lemmas
 * that need them state what they assume of them (`SoundSqrt`, `SoundSf`).
 */
module Analysis {
  import opened Wrappers
  import opened Strings
  import Auth
  import DataFetcher

  // ---- requests ----

  datatype AnalysisRequest =
    AnalysisRequest(latitude: real, longitude: real, month: int, day: int, variables: seq<string>)

  /** The fields request validation rejects: month must satisfy 0 < month < 13, day 0 < day < 32. */
  function InvalidFields(month: int, day: int): (bad: seq<string>)
    ensures bad == [] <==> 1 <= month <= 12 && 1 <= day <= 31
    ensures "month" in bad <==> !(1 <= month <= 12)
    ensures "day" in bad <==> !(1 <= day <= 31)
  {
    (if 0 < month < 13 then [] else ["month"]) + (if 0 < day < 32 then [] else ["day"])
  }

  /** Building a request from its fields: accepted exactly when month and day are in range. */
  function ValidateRequest(latitude: real, longitude: real, month: int, day: int, variables: seq<string>)
    : (r: Result<AnalysisRequest, seq<string>>)
    ensures r.Ok? <==> 1 <= month <= 12 && 1 <= day <= 31
    ensures r.Ok? ==> r.value == AnalysisRequest(latitude, longitude, month, day, variables)
    ensures r.Failure? ==> r.error != [] && forall f :: f in r.error ==> f in {"month", "day"}
  {
    var bad := InvalidFields(month, day);
    if bad == [] then Ok(AnalysisRequest(latitude, longitude, month, day, variables)) else Failure(bad)
  }

  // ---- the variable table ----

  datatype VariableDetail = VariableDetail(unit: string, threshold: real)

  const VariableDetails: map<string, VariableDetail> := map[
    "max_temp_c" := VariableDetail("\U{00B0}C", 32.0),
    "min_temp_c" := VariableDetail("\U{00B0}C", 0.0),
    "precipitation_mm" := VariableDetail("mm", 1.0),
    "wind_speed_kph" := VariableDetail("kph", 40.0),
    "dust_ug_m3" := VariableDetail("\U{00B5}g/m\U{00B3}", 150.0)
  ]

  /** The analysis table and the fetcher's registry know the same five variables. */
  lemma TablesAgree()
    ensures VariableDetails.Keys == DataFetcher.VariableMap.Keys
  {
  }

  /** Variables whose likelihood is an event frequency: those whose name contains "precipitation". */
  predicate IsEventVariable(variable: string)
  {
    Contains(variable, "precipitation")
  }

  /** Of the five known variables only precipitation is counted as events. */
  lemma EventVariables(variable: string)
    requires variable in VariableDetails
    ensures IsEventVariable(variable) <==> variable == "precipitation_mm"
  {
    assert Contains("precipitation_mm", "precipitation") by {
      assert "precipitation_mm"[..13] == "precipitation";
    }
    if variable == "wind_speed_kph" {
      assert "wind_speed_kph"[..13][0] != "precipitation"[0];
      assert "wind_speed_kph"[1..][..13][0] != "precipitation"[0];
    }
  }

  // ---- statistics ----

  function Sum(s: seq<real>): real
  {
    if s == [] then 0.0 else Sum(s[..|s| - 1]) + s[|s| - 1]
  }

  /** `np.mean`: the arithmetic mean. */
  function Mean(s: seq<real>): real
    requires |s| > 0
  {
    Sum(s) / (|s| as real)
  }

  function Square(d: real): real
  {
    d * d
  }

  /** The sum of squared deviations of the values from `m`. */
  function SquaredDeviations(s: seq<real>, m: real): real
  {
    if s == [] then 0.0 else SquaredDeviations(s[..|s| - 1], m) + Square(s[|s| - 1] - m)
  }

  /** The population variance (`np.std` squares to it). */
  function Variance(s: seq<real>): real
    requires |s| > 0
  {
    SquaredDeviations(s, Mean(s)) / (|s| as real)
  }

  /** The square root and the normal survival function `norm.sf(x, loc, scale)`. */
  datatype Numerics = Numerics(sqrt: real -> real, normSf: (real, real, real) -> real)

  ghost predicate SoundSqrt(n: Numerics)
  {
    forall v :: v >= 0.0 ==> n.sqrt(v) >= 0.0 && Square(n.sqrt(v)) == v
  }

  ghost predicate SoundSf(n: Numerics)
  {
    forall x, loc, scale :: scale > 0.0 ==> 0.0 <= n.normSf(x, loc, scale) <= 1.0
  }

  /** `np.std`: the population standard deviation. */
  function StdDev(s: seq<real>, n: Numerics): real
    requires |s| > 0
  {
    n.sqrt(Variance(s))
  }

  /** The number of values strictly above the threshold. */
  function CountAbove(s: seq<real>, threshold: real): (k: nat)
    ensures k <= |s|
  {
    if s == [] then 0
    else CountAbove(s[..|s| - 1], threshold) + (if s[|s| - 1] > threshold then 1 else 0)
  }

  /** The empirical event probability: the share of values strictly above the threshold. */
  function EventProbability(s: seq<real>, threshold: real): real
    requires |s| > 0
  {
    CountAbove(s, threshold) as real / |s| as real
  }

  /** The scale given to the normal tail: the standard deviation, replaced by 0.01 when it is not positive. */
  function Scale(stdDev: real): (r: real)
    ensures r > 0.0
    ensures stdDev > 0.0 ==> r == stdDev
  {
    if stdDev > 0.0 then stdDev else 0.01
  }

  // ---- results ----

  /** Exactly one of the two probabilities is meant to be present. */
  datatype ThresholdAnalysis = ThresholdAnalysis(probabilityExceeding: Option<real>, probabilityOfEvent: Option<real>)

  datatype VariableResult = VariableResult(
    variable: string, unit: string, mean: real, stdDev: real,
    likelihood: ThresholdAnalysis, rawDataPoints: nat)

  const Metadata: map<string, string> := map[
    "data_source" := "NASA MERRA-2 M2T1NXSLV.5.12.4 via GES DISC OPe_NDAP",
    "climate_period" := "1991-2020"
  ]

  datatype AnalysisResponse = AnalysisResponse(query: AnalysisRequest, results: seq<VariableResult>, metadata: map<string, string>)

  /** The probability part of a result: event frequency for event variables, normal tail otherwise. */
  function Likelihood(variable: string, threshold: real, data: seq<real>, n: Numerics): (r: ThresholdAnalysis)
    requires |data| > 0
    ensures r.probabilityOfEvent.Some? != r.probabilityExceeding.Some?
    ensures r.probabilityOfEvent.Some? <==> IsEventVariable(variable)
  {
    if IsEventVariable(variable) then
      ThresholdAnalysis(None, Some(EventProbability(data, threshold)))
    else
      ThresholdAnalysis(Some(n.normSf(threshold, Mean(data), Scale(StdDev(data, n)))), None)
  }

  /** The result entry for one variable with a non-empty sample. */
  function AnalyzeSample(variable: string, detail: VariableDetail, data: seq<real>, n: Numerics): (r: VariableResult)
    requires |data| > 0
    ensures r.variable == variable && r.unit == detail.unit && r.rawDataPoints == |data|
  {
    VariableResult(variable, detail.unit, Mean(data), StdDev(data, n),
                   Likelihood(variable, detail.threshold, data, n), |data|)
  }

  // ---- lemmas on the statistics ----

  lemma {:induction false} CountAboveExtremes(s: seq<real>, threshold: real)
    ensures (forall i :: 0 <= i < |s| ==> s[i] <= threshold) ==> CountAbove(s, threshold) == 0
    ensures (forall i :: 0 <= i < |s| ==> s[i] > threshold) ==> CountAbove(s, threshold) == |s|
  {
    if s != [] {
      CountAboveExtremes(s[..|s| - 1], threshold);
    }
  }

  /**
   * The event probability is a probability; it is 0 when no value exceeds
   * the threshold and 1 when every value does.
   */
  lemma EventProbabilityBounds(s: seq<real>, threshold: real)
    requires |s| > 0
    ensures 0.0 <= EventProbability(s, threshold) <= 1.0
    ensures (forall i :: 0 <= i < |s| ==> s[i] <= threshold) ==> EventProbability(s, threshold) == 0.0
    ensures (forall i :: 0 <= i < |s| ==> s[i] > threshold) ==> EventProbability(s, threshold) == 1.0
  {
    CountAboveExtremes(s, threshold);
    var k, n := CountAbove(s, threshold) as real, |s| as real;
    QuotientBounds(k, n, 0.0, 1.0);
  }

  lemma {:induction false} SumBounds(s: seq<real>, lo: real, hi: real)
    requires forall i :: 0 <= i < |s| ==> lo <= s[i] <= hi
    ensures (|s| as real) * lo <= Sum(s) <= (|s| as real) * hi
  {
    if s != [] {
      var init := s[..|s| - 1];
      SumBounds(init, lo, hi);
      assert (|s| as real) * lo == (|init| as real) * lo + lo;
      assert (|s| as real) * hi == (|init| as real) * hi + hi;
    }
  }

  /** The mean lies between any lower and upper bound of the sample, so between its minimum and maximum. */
  lemma MeanBounds(s: seq<real>, lo: real, hi: real)
    requires |s| > 0
    requires forall i :: 0 <= i < |s| ==> lo <= s[i] <= hi
    ensures lo <= Mean(s) <= hi
  {
    SumBounds(s, lo, hi);
    QuotientBounds(Sum(s), |s| as real, lo, hi);
  }

  /** Dividing by a positive count keeps the per-item bounds of a total. */
  lemma QuotientBounds(total: real, n: real, lo: real, hi: real)
    requires n > 0.0 && n * lo <= total <= n * hi
    ensures lo <= total / n <= hi
  {
    assert total / n - lo == (total - n * lo) / n;
    assert hi - total / n == (n * hi - total) / n;
  }

  /** A non-zero real has a positive square. */
  lemma SquarePositive(d: real)
    requires d != 0.0
    ensures Square(d) > 0.0
  {
    if d > 0.0 {
      calc { Square(d); == d * d; > 0.0; }
    } else {
      calc { Square(d); == d * d; == (-d) * (-d); > 0.0; }
    }
  }

  /** Squared deviations are non-negative, and zero exactly when every value equals the centre. */
  lemma {:induction false} SquaredDeviationsZero(s: seq<real>, m: real)
    ensures SquaredDeviations(s, m) >= 0.0
    ensures SquaredDeviations(s, m) == 0.0 <==> forall i :: 0 <= i < |s| ==> s[i] == m
  {
    if s != [] {
      var init, x := s[..|s| - 1], s[|s| - 1];
      SquaredDeviationsZero(init, m);
      assert forall i :: 0 <= i < |init| ==> s[i] == init[i];
      if x == m {
        assert Square(x - m) == 0.0 by { assert x - m == 0.0; }
        assert (forall i :: 0 <= i < |s| ==> s[i] == m) <==> (forall i :: 0 <= i < |init| ==> init[i] == m);
      } else {
        SquarePositive(x - m);
        assert !(forall i :: 0 <= i < |s| ==> s[i] == m) by {
          assert s[|s| - 1] != m;
        }
      }
    }
  }

  /**
   * With a true square root the standard deviation is non-negative and is
   * zero exactly for a constant sample, where the scale 0.01 replaces it.
   */
  lemma StdDevZeroIffConstant(s: seq<real>, n: Numerics)
    requires |s| > 0 && SoundSqrt(n)
    ensures StdDev(s, n) >= 0.0
    ensures StdDev(s, n) == 0.0 <==> forall i :: 0 <= i < |s| ==> s[i] == Mean(s)
    ensures (forall i :: 0 <= i < |s| ==> s[i] == Mean(s)) ==> Scale(StdDev(s, n)) == 0.01
  {
    var sd := SquaredDeviations(s, Mean(s));
    SquaredDeviationsZero(s, Mean(s));
    var v := Variance(s);
    QuotientBounds(sd, |s| as real, 0.0, sd);
    assert v == 0.0 <==> sd == 0.0 by {
      if v == 0.0 {
        assert sd == v * (|s| as real);
      }
    }
    var r := n.sqrt(v);
    assert r >= 0.0 && Square(r) == v;
    if r != 0.0 {
      SquarePositive(r);
    } else {
      assert Square(r) == 0.0;
    }
  }

  /** Every reported probability lies in [0, 1] when the normal tail does. */
  lemma LikelihoodInUnitInterval(variable: string, threshold: real, data: seq<real>, n: Numerics)
    requires |data| > 0 && SoundSf(n)
    ensures var l := Likelihood(variable, threshold, data, n);
      && (l.probabilityOfEvent.Some? ==> 0.0 <= l.probabilityOfEvent.value <= 1.0)
      && (l.probabilityExceeding.Some? ==> 0.0 <= l.probabilityExceeding.value <= 1.0)
  {
    EventProbabilityBounds(data, threshold);
  }

  // ---- the request loop ----

  /** Everything outside the engine: environment, home directory, files, the archive and the numerics. */
  datatype Externals = Externals(
    env: Auth.Env, home: string, files: Auth.Files, archive: DataFetcher.Archive, numerics: Numerics)

  /** What one requested variable contributes: an entry, nothing, or the failure that aborts the request. */
  type Entry = Result<Option<VariableResult>, Auth.AuthError>

  function QueryFor(request: AnalysisRequest, variable: string): DataFetcher.Query
  {
    DataFetcher.Query(request.latitude, request.longitude, request.month, request.day, variable)
  }

  function EntryFor(request: AnalysisRequest, variable: string, ext: Externals): Entry
  {
    if variable !in VariableDetails then Ok(None)
    else match DataFetcher.NasaData(QueryFor(request, variable), ext.env, ext.home, ext.files, ext.archive)
      case Failure(e) => Failure(e)
      case Ok(data) =>
        if data == [] then Ok(None) else Ok(Some(AnalyzeSample(variable, VariableDetails[variable], data, ext.numerics)))
  }

  function Entries(request: AnalysisRequest, ext: Externals): seq<Entry>
  {
    seq(|request.variables|, j requires 0 <= j < |request.variables| => EntryFor(request, request.variables[j], ext))
  }

  /** The result list built from the entries in order; the first failure aborts. */
  function Gather(entries: seq<Entry>): Result<seq<VariableResult>, Auth.AuthError>
  {
    if entries == [] then Ok([])
    else match Gather(entries[..|entries| - 1])
      case Failure(e) => Failure(e)
      case Ok(rs) =>
        match entries[|entries| - 1]
        case Failure(e) => Failure(e)
        case Ok(None) => Ok(rs)
        case Ok(Some(r)) => Ok(rs + [r])
  }

  /** The positions of the entries that produced a result, in order. */
  function ProducingPositions(entries: seq<Entry>): seq<nat>
  {
    if entries == [] then []
    else
      var before := ProducingPositions(entries[..|entries| - 1]);
      var last := entries[|entries| - 1];
      if last.Ok? && last.value.Some? then before + [|entries| - 1] else before
  }

  /**
   * The result list follows the request: the request fails exactly when some
   * entry fails; otherwise the i-th result is the entry of the i-th producing
   * position, positions increase strictly (request order, at most one result
   * per requested variable), and every producing entry is reported.
   */
  lemma {:induction false} GatherProvenance(entries: seq<Entry>)
    ensures Gather(entries).Failure? <==> exists j :: 0 <= j < |entries| && entries[j].Failure?
    ensures Gather(entries).Ok? ==>
      var rs, ps := Gather(entries).value, ProducingPositions(entries);
      && |rs| == |ps| <= |entries|
      && (forall i :: 0 <= i < |ps| ==> ps[i] < |entries| && entries[ps[i]] == Ok(Some(rs[i])))
      && (forall i, j :: 0 <= i < j < |ps| ==> ps[i] < ps[j])
      && (forall j :: 0 <= j < |entries| && entries[j].Ok? && entries[j].value.Some? ==> j in ps)
  {
    if entries != [] {
      var init := entries[..|entries| - 1];
      GatherProvenance(init);
      assert forall j :: 0 <= j < |init| ==> init[j] == entries[j];
      if Gather(init).Failure? {
        var j :| 0 <= j < |init| && init[j].Failure?;
        assert entries[j].Failure?;
      }
    }
  }

  /** Once a prefix of the entries fails, every longer prefix fails with the same error. */
  lemma {:induction false} GatherFailureSticks(entries: seq<Entry>, k: nat, n: nat)
    requires k <= n <= |entries| && Gather(entries[..k]).Failure?
    ensures Gather(entries[..n]) == Gather(entries[..k])
    decreases n - k
  {
    if n > k {
      GatherFailureSticks(entries, k, n - 1);
      assert entries[..n][..n - 1] == entries[..n - 1];
    }
  }

  /** Extending the prefix by one entry extends the gathered list by what that entry holds. */
  lemma GatherStep(entries: seq<Entry>, i: nat)
    requires i < |entries|
    ensures Gather(entries[..i + 1]) ==
      match Gather(entries[..i])
      case Failure(e) => Failure(e)
      case Ok(rs) =>
        match entries[i]
        case Failure(e) => Failure(e)
        case Ok(None) => Ok(rs)
        case Ok(Some(r)) => Ok(rs + [r])
  {
    assert entries[..i + 1][..i] == entries[..i];
  }

  /** The response the operation produces, or the failure that aborts it. */
  function Analyze(request: AnalysisRequest, ext: Externals): Result<AnalysisResponse, Auth.AuthError>
  {
    match Gather(Entries(request, ext))
    case Failure(e) => Failure(e)
    case Ok(rs) => Ok(AnalysisResponse(request, rs, Metadata))
  }

  /** What one entry holds: a summary of a known variable over 1 to 30 values, labelled with its unit. */
  lemma EntryShape(request: AnalysisRequest, variable: string, ext: Externals)
    ensures EntryFor(request, variable, ext).Failure? <==>
      variable in VariableDetails && Auth.SessionCredentials(ext.env, ext.home, ext.files).Failure?
    ensures EntryFor(request, variable, ext) == Ok(None) <==>
      variable !in VariableDetails
      || (Auth.SessionCredentials(ext.env, ext.home, ext.files).Ok? &&
          DataFetcher.NasaData(QueryFor(request, variable), ext.env, ext.home, ext.files, ext.archive) == Ok([]))
    ensures var e := EntryFor(request, variable, ext);
      e.Ok? && e.value.Some? ==>
        && e.value.value.variable == variable
        && variable in VariableDetails
        && e.value.value.unit == VariableDetails[variable].unit
        && 1 <= e.value.value.rawDataPoints <= 30
        && (e.value.value.likelihood.probabilityOfEvent.Some? <==> variable == "precipitation_mm")
        && (e.value.value.likelihood.probabilityExceeding.Some? <==> variable != "precipitation_mm")
  {
    TablesAgree();
    var e := EntryFor(request, variable, ext);
    if e.Ok? && e.value.Some? {
      var c := Auth.SessionCredentials(ext.env, ext.home, ext.files).value;
      DataFetcher.SweepLength(QueryFor(request, variable), DataFetcher.VariableMap[variable], Auth.Session(c, 10), ext.archive);
      EventVariables(variable);
    }
  }

  /**
   * The request fails exactly when it names a known variable and credential
   * resolution fails: no source yields credentials, or an existing netrc
   * candidate cannot be read.
   */
  lemma AnalyzeFailure(request: AnalysisRequest, ext: Externals)
    ensures Analyze(request, ext).Failure? <==>
      (exists j :: 0 <= j < |request.variables| && request.variables[j] in VariableDetails)
      && Auth.SessionCredentials(ext.env, ext.home, ext.files).Failure?
  {
    var es := Entries(request, ext);
    GatherProvenance(es);
    forall j | 0 <= j < |es|
      ensures es[j].Failure? <==>
        request.variables[j] in VariableDetails && Auth.SessionCredentials(ext.env, ext.home, ext.files).Failure?
    {
      EntryShape(request, request.variables[j], ext);
    }
  }

  /**
   * A successful response has at most one result per requested variable,
   * and each result summarises a known, requested variable over 1 to 30
   * values, labelled with that variable's unit.
   */
  lemma AnalyzeResults(request: AnalysisRequest, ext: Externals)
    requires Analyze(request, ext).Ok?
    ensures var rs := Analyze(request, ext).value.results;
      && |rs| <= |request.variables|
      && forall i :: 0 <= i < |rs| ==>
        && rs[i].variable in request.variables
        && rs[i].variable in VariableDetails
        && rs[i].unit == VariableDetails[rs[i].variable].unit
        && 1 <= rs[i].rawDataPoints <= 30
  {
    var es := Entries(request, ext);
    GatherProvenance(es);
    var rs, ps := Gather(es).value, ProducingPositions(es);
    forall i | 0 <= i < |rs|
      ensures rs[i].variable in request.variables && rs[i].variable in VariableDetails
      ensures rs[i].unit == VariableDetails[rs[i].variable].unit && 1 <= rs[i].rawDataPoints <= 30
    {
      EntryShape(request, request.variables[ps[i]], ext);
    }
  }

  /**
   * A location where it never rains: with credentials available and every
   * file yielding zero precipitation on a date that exists in every year of the period, the
   * response holds one precipitation entry over all 30 years, with mean 0,
   * standard deviation 0 and event probability 0.
   */
  lemma DryLocation(request: AnalysisRequest, ext: Externals)
    requires request.variables == ["precipitation_mm"]
    requires forall y :: DataFetcher.ClimateStartYear <= y <= DataFetcher.ClimateEndYear ==> DataFetcher.ValidDate(y, request.month, request.day)
    requires Auth.SessionCredentials(ext.env, ext.home, ext.files).Ok?
    requires SoundSqrt(ext.numerics)
    requires forall session, url, field, lat, lon :: ext.archive(session, url, field, lat, lon) == DataFetcher.Value(0.0)
    ensures Analyze(request, ext) == Ok(AnalysisResponse(request,
      [VariableResult("precipitation_mm", "mm", 0.0, 0.0, ThresholdAnalysis(None, Some(0.0)), 30)], Metadata))
  {
    DryResults(request, ext);
  }

  /** The result list of the dry location. */
  lemma DryResults(request: AnalysisRequest, ext: Externals)
    requires request.variables == ["precipitation_mm"]
    requires forall y :: DataFetcher.ClimateStartYear <= y <= DataFetcher.ClimateEndYear ==> DataFetcher.ValidDate(y, request.month, request.day)
    requires Auth.SessionCredentials(ext.env, ext.home, ext.files).Ok?
    requires SoundSqrt(ext.numerics)
    requires forall session, url, field, lat, lon :: ext.archive(session, url, field, lat, lon) == DataFetcher.Value(0.0)
    ensures Gather(Entries(request, ext))
      == Ok([VariableResult("precipitation_mm", "mm", 0.0, 0.0, ThresholdAnalysis(None, Some(0.0)), 30)])
  {
    var result := VariableResult("precipitation_mm", "mm", 0.0, 0.0, ThresholdAnalysis(None, Some(0.0)), 30);
    DryEntry(request, ext);
    var es := Entries(request, ext);
    assert es == [Ok(Some(result))];
    assert es[..|es| - 1] == [];
    assert Gather(es[..|es| - 1]) == Ok([]);
    assert [] + [result] == [result];
  }

  /** The precipitation entry of the dry location. */
  lemma DryEntry(request: AnalysisRequest, ext: Externals)
    requires forall y :: DataFetcher.ClimateStartYear <= y <= DataFetcher.ClimateEndYear ==> DataFetcher.ValidDate(y, request.month, request.day)
    requires Auth.SessionCredentials(ext.env, ext.home, ext.files).Ok?
    requires SoundSqrt(ext.numerics)
    requires forall session, url, field, lat, lon :: ext.archive(session, url, field, lat, lon) == DataFetcher.Value(0.0)
    ensures EntryFor(request, "precipitation_mm", ext)
      == Ok(Some(VariableResult("precipitation_mm", "mm", 0.0, 0.0, ThresholdAnalysis(None, Some(0.0)), 30)))
  {
    var variable := "precipitation_mm";
    var c := Auth.SessionCredentials(ext.env, ext.home, ext.files).value;
    var q := QueryFor(request, variable);
    var info := DataFetcher.VariableMap[variable];
    assert DataFetcher.Convert(info.conversion, 0.0) == 0.0;
    DataFetcher.ConstantArchive(q, info, Auth.Session(c, 10), ext.archive, 0.0);
    var data := DataFetcher.HistoricalValues(q, info, Auth.Session(c, 10), ext.archive);
    assert DataFetcher.NasaData(q, ext.env, ext.home, ext.files, ext.archive) == Ok(data);
    ZeroSample(data, ext.numerics);
  }

  /** A precipitation sample of 30 zeros summarises to mean 0, deviation 0 and event probability 0. */
  lemma ZeroSample(data: seq<real>, n: Numerics)
    requires |data| == 30 && forall i :: 0 <= i < 30 ==> data[i] == 0.0
    requires SoundSqrt(n)
    ensures AnalyzeSample("precipitation_mm", VariableDetails["precipitation_mm"], data, n)
      == VariableResult("precipitation_mm", "mm", 0.0, 0.0, ThresholdAnalysis(None, Some(0.0)), 30)
  {
    MeanBounds(data, 0.0, 0.0);
    StdDevZeroIffConstant(data, n);
    EventProbabilityBounds(data, 1.0);
    EventVariables("precipitation_mm");
  }

  /**
   * `analyze_weather_likelihood`: walk the requested variables in order,
   * skip unknown ones and ones with an empty sample, and append one summary
   * per remaining variable. A credential failure inside the fetch aborts the
   * whole request.
   */
  method AnalyzeWeatherLikelihood(request: AnalysisRequest, ext: Externals)
    returns (r: Result<AnalysisResponse, Auth.AuthError>)
    ensures r == Analyze(request, ext)
    ensures r.Ok? ==> r.value.query == request && |r.value.results| <= |request.variables|
  {
    var allResults: seq<VariableResult> := [];
    ghost var entries := Entries(request, ext);
    for i := 0 to |request.variables|
      invariant Gather(entries[..i]) == Ok(allResults)
    {
      var variable := request.variables[i];
      GatherStep(entries, i);
      if variable !in VariableDetails {
        continue;
      }
      var historicalData := DataFetcher.GetNasaData(QueryFor(request, variable), ext.env, ext.home, ext.files, ext.archive);
      if historicalData.Failure? {
        GatherFailureSticks(entries, i + 1, |entries|);
        assert entries[..|entries|] == entries;
        return Failure(historicalData.error);
      }
      var data := historicalData.value;
      if data == [] {
        continue;
      }
      var meanVal := Mean(data);
      var stdDevVal := StdDev(data, ext.numerics);
      var threshold := VariableDetails[variable].threshold;
      var likelihoodResults: ThresholdAnalysis;
      if Contains(variable, "precipitation") {
        var eventCount := CountAbove(data, threshold);
        likelihoodResults := ThresholdAnalysis(None, Some(eventCount as real / |data| as real));
      } else {
        var prob := ext.numerics.normSf(threshold, meanVal, if stdDevVal > 0.0 then stdDevVal else 0.01);
        likelihoodResults := ThresholdAnalysis(Some(prob), None);
      }
      var result := VariableResult(variable, VariableDetails[variable].unit, meanVal, stdDevVal,
                                   likelihoodResults, |data|);
      assert result == AnalyzeSample(variable, VariableDetails[variable], data, ext.numerics);
      allResults := allResults + [result];
    }
    assert entries[..|entries|] == entries;
    GatherProvenance(entries);
    r := Ok(AnalysisResponse(request, allResults, Metadata));
  }
}
