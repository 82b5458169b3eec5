# Weather-likelihood engine of the TerraClime Planner backend

This project models the three pieces of the backend that turn a query into a
likelihood report:

- **Credential resolution.** The Earthdata (URS) authentication helper
  (`backend/nasa_auth.py`) reads the username and password from explicit
  arguments, then from environment-variable aliases, then from netrc files.
  It builds a deduplicated, order-preserving list of candidate netrc paths,
  searches them in order, and fails with a message naming every path it
  searched. The rule that decides when a response is answered with a login
  exchange is modelled too, as is the creation of the authenticated session.
- **The historical sweep.** `get_nasa_data` (`backend/nasa_data_fetcher.py`)
  maps a variable through the closed five-entry registry to a MERRA-2 field
  and an affine unit conversion. It then visits the years 1991..2020 in order.
  For each year it:
  - checks the calendar date;
  - picks the revision stream;
  - builds the daily file URL;
  - appends the converted value read from that file.

  An invalid date, an HTTP 404, another HTTP error or any other error skips
  only that year.
- **The analysis.** `analyze_weather_likelihood` (`backend/main.py`) walks the
  requested variables. It skips unknown ones and ones whose sample is empty.
  For every other variable it reports:
  - the mean and the population standard deviation;
  - exactly one probability: the share of values strictly above the
    variable's threshold for precipitation, and a normal upper-tail
    probability for everything else.

  The normal tail uses the standard deviation as its scale, replaced by 0.01
  when it is not positive.

The modules follow the source files:

| file | module | source |
|---|---|---|
| `wrappers.dfy` | `Wrappers` | `Option` and `Result` |
| `strings.dfy` | `Strings` | Python's `in` on strings, `str.join`, `str(n)` and `f"{n:02d}"` |
| `nasa_auth.dfy` | `Auth` | `backend/nasa_auth.py` |
| `nasa_data_fetcher.dfy` | `DataFetcher` | `backend/nasa_data_fetcher.py` |
| `main.dfy` | `Analysis` | `backend/main.py` |

Every operation that changes state in the source is an imperative method,
proved against a specification function:

- the `NasaAuth` constructor runs the `seen`-set loop and is proved to
  produce `Dedup` of the raw candidates;
- `FindCreds` runs the candidate loop with early returns;
- `GetNasaData` runs the year loop and is proved against `NasaData`;
- `AnalyzeWeatherLikelihood` runs the request loop and is proved against
  `Analyze`.

The lemmas are stated about those functions.

The outside world is passed in as parameters:

- the environment is a map;
- the home directory is a string;
- the files are a map from existing path to what reading them as a netrc
  file gives;
- the fetch of a file together with its nearest-cell read is the function
  `archive`, which returns a raw value, an HTTP error status or another
  failure;
- the square root and `norm.sf` are the function values in `Numerics`.
  Lemmas that rely on them assume `SoundSqrt` (a true square root) or
  `SoundSf` (a tail probability in [0, 1]).

A few behaviours of the code are worth stating outright:

- The fetcher reads one value per daily file, at the grid cell nearest to the
  query. It does no max/min/sum/vector-magnitude aggregation over the hours
  of the day, and neither does the model.
- An unknown variable yields `[]` from `get_nasa_data` and is skipped by
  `analyze_weather_likelihood`. It is never an error.
- A credential failure raised by `get_nasa_data` aborts the whole analysis.
  The model returns it as `Failure`.

## Model

| member | source | states |
|---|---|---|
| Strings.Pad2 | backend/nasa_data_fetcher.py:48 | `f"{n:02d}"` yields digits only, at least two of them and exactly two below 100, and they parse back to `n` |
| Auth.OrChainFirstTruthy | backend/nasa_auth.py:14-15 | an `a or b or c` chain yields its first truthy operand, or its last operand when none is truthy, and is truthy iff some operand is |
| Auth.EnvUsernamePriority | backend/nasa_auth.py:14 | the environment username is the value of the first alias, in the order EARTHDATA_, NASA_EARTHDATA_, URS_, that is set and non-empty |
| Auth.EnvPasswordPriority | backend/nasa_auth.py:15 | the same priority order for the password aliases |
| Auth.EnvUsernameAbsent | backend/nasa_auth.py:14 | when no username alias is set to a non-empty value, the environment gives no usable username |
| Auth.ExplicitArgumentWins | backend/nasa_auth.py:16-17 | username and password are resolved independently: for each, a non-empty explicit argument wins over the environment, otherwise the environment value is used |
| Auth.ExpandUser | backend/nasa_auth.py:20-23 | a path that does not start with `~` is left unchanged |
| Auth.PathJoin | backend/nasa_auth.py:25-26 | the joined path ends with the file name |
| Auth.RawCandidates | backend/nasa_auth.py:19-26 | raw candidates are `$NETRC` (expanded, only when set and non-empty), then home/_netrc, then home/.netrc, so there are 3 or 2 of them |
| Auth.DedupMembers | backend/nasa_auth.py:28-34 | the deduplicated list holds exactly the non-empty raw candidates |
| Auth.DedupDistinct | backend/nasa_auth.py:28-34 | the deduplicated list has no repeated entry and no empty entry |
| Auth.DedupFirstOccurrenceOrder | backend/nasa_auth.py:28-34 | the deduplicated list keeps the order in which paths first occur among the raw candidates |
| Auth.CandidatesCount | backend/nasa_auth.py:19-34 | whatever `$NETRC` holds, 2 or 3 candidate paths remain after deduplication |
| Auth.NasaAuth.constructor | backend/nasa_auth.py:12-34 | username and password are the explicit argument `or` the environment value; the `seen`-set loop leaves exactly `Dedup` of the raw candidates |
| Auth.SearchNetrcFirstMatch | backend/nasa_auth.py:44-53 | the netrc search is a first-match search: the outcome is that of the first candidate that is not skipped (missing file, parse error, no usable URS entry), and the search skips iff every candidate does |
| Auth.ResolvedCredsNonEmpty | backend/nasa_auth.py:39-51 | resolved credentials never have an empty username or password, whichever source supplied them |
| Auth.NotFoundMessageNamesPaths | backend/nasa_auth.py:55-64 | the failure message contains every searched path, or "(none)" when there was none |
| Auth.NasaAuth.FindCreds | backend/nasa_auth.py:36-64 | the loop computes the resolution function: both fields set returns them without touching any file; otherwise the first usable netrc entry, an uncaught read error, or the not-found failure naming the candidates; credentials returned are non-empty |
| Auth.NasaAuth.HandleRedirect | backend/nasa_auth.py:66-90 | a response that is not a redirect whose Location contains urs.earthdata.nasa.gov is returned unchanged; otherwise a credential failure propagates, or the login response is returned with the redirect appended to its history |
| Auth.CreateAuthenticatedSession | backend/nasa_auth.py:97-110 | the session carries the credentials resolved without explicit arguments and a redirect limit of 10; a resolution failure propagates |
| DataFetcher.ConversionsIncreasing | backend/nasa_data_fetcher.py:15-21 | every registered conversion has a positive scale, is strictly increasing and is inverted by the reverse conversion |
| DataFetcher.DaysInMonth | backend/nasa_data_fetcher.py:47 | every month has 28 to 31 days, and February has 29 exactly in leap years |
| DataFetcher.ValidDateFacts | backend/nasa_data_fetcher.py:47 | February 29 exists exactly in leap years; days 1..28 exist in every month; a month or day out of range is never a date |
| DataFetcher.StreamFor | backend/nasa_data_fetcher.py:50-55 | the stream is "100" iff year <= 1991, "200" iff 1992..2000, "300" iff 2001..2010, "400" iff year >= 2011 |
| DataFetcher.StreamChangePoints | backend/nasa_data_fetcher.py:50-55 | within the climate period the stream changes only after 1991, 2000 and 2010 |
| DataFetcher.DateStampParses | backend/nasa_data_fetcher.py:56-59 | for a four-digit year and month and day below 100, the date part of the file name is eight digits that parse back to year, month and day |
| DataFetcher.FileUrlDate | backend/nasa_data_fetcher.py:56-59 | the file URL ends with the date stamp followed by ".nc4" |
| DataFetcher.FileUrlInjective | backend/nasa_data_fetcher.py:56-59 | distinct dates never share a file URL |
| DataFetcher.CollectedProvenance | backend/nasa_data_fetcher.py:45-94 | the i-th collected value is the value of the i-th successful year; those years increase strictly within the swept range; collected plus skipped years make up the whole range |
| DataFetcher.SweepValuesConverted | backend/nasa_data_fetcher.py:45-75 | every collected value belongs to a year of 1991..2020 whose date exists, and is the variable's conversion of the raw value read from that year's file, in year order |
| DataFetcher.SweepLength | backend/nasa_data_fetcher.py:22-23 | the sweep returns 30 values minus one per skipped year, so at most 30 |
| DataFetcher.AllYearsCollected | backend/nasa_data_fetcher.py:45-75 | when no year is skipped every year contributes its value, in year order |
| DataFetcher.ConstantArchive | backend/nasa_data_fetcher.py:45-75 | on a date that exists in every year of 1991..2020, an archive that always yields the same raw value gives 30 copies of its conversion |
| DataFetcher.Feb29OnlyLeapYears | backend/nasa_data_fetcher.py:85-86 | for February 29 only leap years contribute values |
| DataFetcher.GetNasaData | backend/nasa_data_fetcher.py:25-97 | the year loop computes the sweep function: an unknown variable gives the empty list, a credential failure propagates, and otherwise the values collected over 1991..2020, at most 30 of them |
| Analysis.InvalidFields | backend/main.py:19-20 | the fields rejected are exactly those out of range: month outside 1..12, day outside 1..31 |
| Analysis.ValidateRequest | backend/main.py:16-21 | a request is built iff 1 <= month <= 12 and 1 <= day <= 31, carrying the given fields; otherwise the rejected fields are reported |
| Analysis.TablesAgree | backend/main.py:46-52 | the analysis table and the fetcher's registry know the same five variables |
| Analysis.EventVariables | backend/main.py:75 | among the known variables only precipitation_mm is counted as events |
| Analysis.CountAbove | backend/main.py:76 | the event count never exceeds the sample size |
| Analysis.CountAboveExtremes | backend/main.py:76 | the event count is 0 when no value exceeds the threshold and the sample size when every value does |
| Analysis.EventProbabilityBounds | backend/main.py:75-77 | the event probability lies in [0, 1]; it is 0 when every value is at most the threshold and 1 when every value exceeds it |
| Analysis.Scale | backend/main.py:79 | the scale given to the normal tail is always positive, and equals the standard deviation when that is positive |
| Analysis.Likelihood | backend/main.py:73-80 | exactly one of probability_of_event and probability_exceeding is set, and probability_of_event is set iff the variable name contains "precipitation" |
| Analysis.LikelihoodInUnitInterval | backend/main.py:73-80 | every reported probability lies in [0, 1] when the normal tail does |
| Analysis.MeanBounds | backend/main.py:70 | the mean lies between any lower and upper bound of the sample, so between its minimum and maximum |
| Analysis.SquaredDeviationsZero | backend/main.py:71 | squared deviations are non-negative, and zero exactly when every value equals the centre |
| Analysis.StdDevZeroIffConstant | backend/main.py:71-79 | with a true square root the standard deviation is non-negative and is zero exactly for a constant sample, where the scale 0.01 replaces it |
| Analysis.AnalyzeSample | backend/main.py:82-89 | a result carries the variable's name and unit, and raw_data_points equals the sample length |
| Analysis.ZeroSample | backend/main.py:70-89 | 30 zero precipitation values summarise to mean 0, deviation 0 and event probability 0 |
| Analysis.GatherProvenance | backend/main.py:54-90 | the request fails iff some variable's entry fails; otherwise the results are the producing entries, in request order, at most one per requested variable, and none is dropped |
| Analysis.GatherFailureSticks | backend/main.py:59-65 | once a variable's fetch fails, no later variable changes the outcome |
| Analysis.EntryShape | backend/main.py:54-89 | a variable contributes a failure iff it is known and credential resolution fails (no source yields credentials, or an existing netrc candidate cannot be read); it contributes nothing iff it is unknown or its sample is empty; a result names a known variable with its unit, 1 to 30 points and the right single probability |
| Analysis.AnalyzeFailure | backend/main.py:54-65 | the analysis fails iff some requested variable is known and credential resolution fails: no source yields credentials, or an existing netrc candidate cannot be read |
| Analysis.AnalyzeResults | backend/main.py:54-92 | a response has at most one result per requested variable, each for a known and requested variable with its unit and 1 to 30 points |
| Analysis.DryLocation | backend/main.py:44-92 | for a request naming only precipitation_mm, with credentials available and a true square root, where every file yields zero precipitation on a date that exists in every year of 1991..2020, the response is one precipitation entry over 30 points with mean 0, deviation 0 and event probability 0 |
| Analysis.AnalyzeWeatherLikelihood | backend/main.py:44-92 | the request loop computes the analysis function: the response echoes the request and has at most one result per requested variable, and a credential failure aborts it |

## Left out

- Floating point: sample values are mathematical reals. IEEE rounding, and
  the `round(..., 2)` applied to mean and standard deviation for display, are
  not modelled.
- Analysis.AnalyzeSample: its mean and standard deviation are the unrounded
  values, because two-decimal rounding is presentation.
- `np.sqrt` and `scipy.stats.norm.sf` are parameters (`Numerics`). Only what
  `SoundSqrt` and `SoundSf` assume of them is used, so the value of the
  normal tail itself is not computed.
- The `lru_cache` on `get_nasa_data`: the model's functions are
  deterministic, so equal arguments give equal results; eviction and thread
  safety are not modelled.
- The HTTP GET with its 30-second timeout, `raise_for_status`, the temporary
  file and the `xarray` nearest-cell read: together they are the `archive`
  parameter.
- The log lines the sweep prints.
- Auth.NasaAuth.HandleRedirect: the form POST to the login page (its cookies
  and keyword arguments) is the `login` parameter, and only how its response
  is used is modelled.
- `NasaAuth.__call__`, which installs the redirect hook on a request, and the
  `requests.Session` object itself: the session is modelled as its
  credentials and redirect limit.
- Auth.ExpandUser: covers `~` and `~/...` on POSIX. `~user` forms and
  Windows paths are not modelled.
- The `errors` list that `find_creds` builds from caught netrc errors is never
  surfaced by the source. The loop keeps appending to it, but no contract
  mentions it.
- The netrc file format itself: parsing is abstracted as the `NetrcFile`
  outcome of each existing path.
