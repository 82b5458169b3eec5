/**
 * Earthdata (URS) credential resolution and the login-redirect rule of the
 * backend's authentication helper.
 *
 * The process environment, the home directory and the files on disk are
 * parameters: `Env` maps each set environment variable to its value, and
 * `Files` maps each existing path to what reading it as a netrc file gives.
 */
module Auth {
  import opened Wrappers
  import opened Strings

  type Env = map<string, string>

  /** The host whose netrc entry holds the Earthdata login. */
  const UrsHost: string := "urs.earthdata.nasa.gov"

  /** Status codes that `requests` treats as redirects. */
  const RedirectStatuses: set<int> := {301, 302, 303, 307, 308}

  /** `os.getenv(key)`: the value, or None when the variable is unset. */
  function GetEnv(env: Env, key: string): Option<string>
  {
    if key in env then Some(env[key]) else None
  }

  /** Python truthiness of a `str | None`: set and non-empty. */
  predicate Truthy(v: Option<string>)
  {
    v.Some? && v.value != ""
  }

  /** Python's `a or b` on two `str | None` values. */
  function Or(a: Option<string>, b: Option<string>): Option<string>
  {
    if Truthy(a) then a else b
  }

  /** A chain `v0 or v1 or ... or vn`, evaluated left to right as Python does. */
  function OrChain(vals: seq<Option<string>>): Option<string>
    requires |vals| >= 1
  {
    if |vals| == 1 then vals[0] else Or(OrChain(vals[..|vals| - 1]), vals[|vals| - 1])
  }

  /** `os.getenv` of each name, in order. */
  function GetEnvAll(env: Env, names: seq<string>): (r: seq<Option<string>>)
    ensures |r| == |names|
    ensures forall i :: 0 <= i < |names| ==> r[i] == GetEnv(env, names[i])
  {
    if names == [] then [] else [GetEnv(env, names[0])] + GetEnvAll(env, names[1..])
  }

  /** An `or` chain yields its first truthy operand, or its last operand when none is truthy. */
  lemma {:induction false} OrChainFirstTruthy(vals: seq<Option<string>>)
    requires |vals| >= 1
    ensures forall k :: 0 <= k < |vals| && Truthy(vals[k]) && (forall j :: 0 <= j < k ==> !Truthy(vals[j]))
              ==> OrChain(vals) == vals[k]
    ensures (forall j :: 0 <= j < |vals| ==> !Truthy(vals[j])) ==> OrChain(vals) == vals[|vals| - 1]
    ensures Truthy(OrChain(vals)) <==> exists j :: 0 <= j < |vals| && Truthy(vals[j])
  {
    if |vals| > 1 {
      var init := vals[..|vals| - 1];
      OrChainFirstTruthy(init);
      assert forall j :: 0 <= j < |init| ==> init[j] == vals[j];
      if exists j :: 0 <= j < |vals| && Truthy(vals[j]) {
        var j :| 0 <= j < |vals| && Truthy(vals[j]);
        if j < |init| {
          assert Truthy(init[j]);
        }
      }
    }
  }

  const UsernameAliases: seq<string> := ["EARTHDATA_USERNAME", "NASA_EARTHDATA_USERNAME", "URS_USERNAME"]
  const PasswordAliases: seq<string> := ["EARTHDATA_PASSWORD", "NASA_EARTHDATA_PASSWORD", "URS_PASSWORD"]

  /** The environment's username: the first non-empty alias, in the order above. */
  function EnvUsername(env: Env): Option<string>
  {
    OrChain(GetEnvAll(env, UsernameAliases))
  }

  /** The environment's password: the first non-empty alias, in the order above. */
  function EnvPassword(env: Env): Option<string>
  {
    OrChain(GetEnvAll(env, PasswordAliases))
  }

  /**
   * The environment lookup is a priority order over the aliases: the result
   * is the first alias that is set to a non-empty value, and it is unset or
   * empty only when every alias is.
   */
  lemma EnvUsernamePriority(env: Env, k: nat)
    requires k < |UsernameAliases|
    requires Truthy(GetEnv(env, UsernameAliases[k]))
    requires forall j :: 0 <= j < k ==> !Truthy(GetEnv(env, UsernameAliases[j]))
    ensures EnvUsername(env) == Some(env[UsernameAliases[k]])
  {
    OrChainFirstTruthy(GetEnvAll(env, UsernameAliases));
  }

  lemma EnvPasswordPriority(env: Env, k: nat)
    requires k < |PasswordAliases|
    requires Truthy(GetEnv(env, PasswordAliases[k]))
    requires forall j :: 0 <= j < k ==> !Truthy(GetEnv(env, PasswordAliases[j]))
    ensures EnvPassword(env) == Some(env[PasswordAliases[k]])
  {
    OrChainFirstTruthy(GetEnvAll(env, PasswordAliases));
  }

  /** Without any non-empty alias the environment gives no usable username. */
  lemma EnvUsernameAbsent(env: Env)
    requires forall j :: 0 <= j < |UsernameAliases| ==> !Truthy(GetEnv(env, UsernameAliases[j]))
    ensures !Truthy(EnvUsername(env))
  {
    OrChainFirstTruthy(GetEnvAll(env, UsernameAliases));
  }

  /**
   * `username or env_user` and `password or env_pass`, each field on its own:
   * a non-empty explicit argument wins, otherwise the environment value is used.
   */
  lemma ExplicitArgumentWins(username: Option<string>, password: Option<string>, env: Env)
    ensures Truthy(username) ==> Or(username, EnvUsername(env)) == username
    ensures !Truthy(username) ==> Or(username, EnvUsername(env)) == EnvUsername(env)
    ensures Truthy(password) ==> Or(password, EnvPassword(env)) == password
    ensures !Truthy(password) ==> Or(password, EnvPassword(env)) == EnvPassword(env)
  {
  }

  /** `os.path.expanduser` on POSIX for the current user's `~` and `~/...` forms. */
  function ExpandUser(path: string, home: string): (r: string)
    ensures |path| == 0 || path[0] != '~' ==> r == path
  {
    if |path| >= 1 && path[0] == '~' && (|path| == 1 || path[1] == '/') then
      var joined := StripTrailingSlashes(home) + path[1..];
      if joined == "" then "/" else joined
    else path
  }

  function StripTrailingSlashes(s: string): (r: string)
    ensures |r| <= |s| && r == s[..|r|]
    ensures r == [] || r[|r| - 1] != '/'
  {
    if |s| > 0 && s[|s| - 1] == '/' then StripTrailingSlashes(s[..|s| - 1]) else s
  }

  /** `os.path.join(dir, name)` on POSIX, for a relative `name`. */
  function PathJoin(dir: string, name: string): (r: string)
    ensures |r| >= |name| && r[|r| - |name|..] == name
  {
    if dir == [] || dir[|dir| - 1] == '/' then dir + name else dir + "/" + name
  }

  /** The raw netrc candidates, in order: `$NETRC` when set, then `~/_netrc`, then `~/.netrc`. */
  function RawCandidates(env: Env, home: string): (r: seq<string>)
    ensures |r| == (if Truthy(GetEnv(env, "NETRC")) then 3 else 2)
    ensures r[|r| - 2] == PathJoin(home, "_netrc") && r[|r| - 1] == PathJoin(home, ".netrc")
    ensures |r| == 3 ==> r[0] == ExpandUser(env["NETRC"], home)
  {
    (if Truthy(GetEnv(env, "NETRC")) then [ExpandUser(env["NETRC"], home)] else [])
      + [PathJoin(home, "_netrc"), PathJoin(home, ".netrc")]
  }

  /**
   * Order-preserving deduplication that also drops empty strings: the
   * specification of the `seen`-set loop.
   */
  function Dedup(s: seq<string>): seq<string>
  {
    if s == [] then []
    else
      var d := Dedup(s[..|s| - 1]);
      var p := s[|s| - 1];
      if p != "" && p !in d then d + [p] else d
  }

  /** The index of the first occurrence of `x` in `s`. */
  function FirstIndex(s: seq<string>, x: string): (i: nat)
    requires x in s
    ensures i < |s| && s[i] == x && forall j :: 0 <= j < i ==> s[j] != x
  {
    if s[0] == x then 0 else 1 + FirstIndex(s[1..], x)
  }

  /** The deduplicated list holds exactly the non-empty raw candidates. */
  lemma {:induction false} DedupMembers(s: seq<string>)
    ensures forall x :: x in Dedup(s) <==> x in s && x != ""
  {
    if s != [] {
      DedupMembers(s[..|s| - 1]);
      assert s == s[..|s| - 1] + [s[|s| - 1]];
    }
  }

  /** The deduplicated list has no repeated entry and no empty entry. */
  lemma {:induction false} DedupDistinct(s: seq<string>)
    ensures forall i, j :: 0 <= i < j < |Dedup(s)| ==> Dedup(s)[i] != Dedup(s)[j]
    ensures forall i :: 0 <= i < |Dedup(s)| ==> Dedup(s)[i] != ""
  {
    if s != [] {
      DedupDistinct(s[..|s| - 1]);
    }
  }

  /** The deduplicated list keeps the order in which paths first occur. */
  lemma {:induction false} DedupFirstOccurrenceOrder(s: seq<string>)
    ensures forall x :: x in Dedup(s) ==> x in s
    ensures forall i, j :: 0 <= i < j < |Dedup(s)| ==>
              FirstIndex(s, Dedup(s)[i]) < FirstIndex(s, Dedup(s)[j])
  {
    DedupMembers(s);
    if s != [] {
      var init := s[..|s| - 1];
      DedupMembers(init);
      DedupFirstOccurrenceOrder(init);
      var d, ds := Dedup(init), Dedup(s);
      forall i, j | 0 <= i < j < |ds| ensures FirstIndex(s, ds[i]) < FirstIndex(s, ds[j]) {
        FirstIndexPrefix(init, s, ds[i]);
        if j < |d| {
          FirstIndexPrefix(init, s, ds[j]);
        }
      }
    }
  }

  lemma {:induction false} FirstIndexPrefix(init: seq<string>, s: seq<string>, x: string)
    requires |init| <= |s| && s[..|init|] == init && x in init
    ensures x in s && FirstIndex(s, x) == FirstIndex(init, x)
  {
    assert init[FirstIndex(init, x)] == s[FirstIndex(init, x)];
    if s[0] != x {
      FirstIndexPrefix(init[1..], s[1..], x);
    }
  }

  /** Whatever `$NETRC` holds, the deduplicated candidate list has two or three entries. */
  lemma CandidatesCount(env: Env, home: string)
    ensures 2 <= |Dedup(RawCandidates(env, home))| <= 3
  {
    var raw := RawCandidates(env, home);
    var d := Dedup(raw);
    var a, b := PathJoin(home, "_netrc"), PathJoin(home, ".netrc");
    DedupMembers(raw);
    DedupDistinct(raw);
    assert a != b by {
      assert a[|a| - 6] == '_' && b[|b| - 6] == '.';
    }
    assert a != "" && b != "";
    assert a in raw && b in raw;
    assert a in d && b in d;
    var i :| 0 <= i < |d| && d[i] == a;
    var j :| 0 <= j < |d| && d[j] == b;
    assert i != j;
    assert |d| <= |raw| by { DedupLength(raw); }
  }

  lemma {:induction false} DedupLength(s: seq<string>)
    ensures |Dedup(s)| <= |s|
  {
    if s != [] {
      DedupLength(s[..|s| - 1]);
    }
  }

  // ---- netrc files ----

  datatype Credentials = Credentials(username: string, password: string)

  /** A netrc `(login, account, password)` entry. */
  datatype Authenticator = Authenticator(login: string, account: string, password: string)

  /**
   * What reading one existing path as a netrc file gives: a parsed file (its
   * machines, with a `default` entry stored under the key "default"), an
   * error that `find_creds` catches (a parse error, a key or type error, the
   * file vanishing), or an error it does not catch (any other OS error).
   */
  datatype NetrcFile =
    | Parsed(hosts: map<string, Authenticator>)
    | Malformed(reason: string)
    | Unreadable(reason: string)

  /** Existing paths; a path not in the map does not exist. */
  type Files = map<string, NetrcFile>

  /** `netrc.authenticators(host)`: the host's entry, else the default entry, else None. */
  function Authenticators(hosts: map<string, Authenticator>, host: string): Option<Authenticator>
  {
    if host in hosts then Some(hosts[host])
    else if "default" in hosts then Some(hosts["default"])
    else None
  }

  /** What trying one candidate path leads to. */
  datatype Probe = Skip | Hit(creds: Credentials) | Fatal(reason: string)

  function ProbeCandidate(path: string, files: Files): Probe
  {
    if path !in files then Skip
    else match files[path]
      case Unreadable(e) => Fatal(e)
      case Malformed(_) => Skip
      case Parsed(hosts) =>
        match Authenticators(hosts, UrsHost)
        case Some(a) => if a.login != "" && a.password != "" then Hit(Credentials(a.login, a.password)) else Skip
        case None => Skip
  }

  /** The search over the candidate list: the first candidate that does not skip decides. */
  function SearchNetrc(cands: seq<string>, files: Files): (p: Probe)
  {
    if cands == [] then Skip
    else
      var p := ProbeCandidate(cands[0], files);
      if p.Skip? then SearchNetrc(cands[1..], files) else p
  }

  /**
   * The search is a first-match search: it returns a candidate's outcome
   * exactly when every earlier candidate was skipped, and skips as a whole
   * exactly when every candidate does.
   */
  lemma {:induction false} SearchNetrcFirstMatch(cands: seq<string>, files: Files)
    ensures SearchNetrc(cands, files).Skip? <==>
              forall j :: 0 <= j < |cands| ==> ProbeCandidate(cands[j], files).Skip?
    ensures !SearchNetrc(cands, files).Skip? ==>
              exists k :: 0 <= k < |cands| && SearchNetrc(cands, files) == ProbeCandidate(cands[k], files)
                && forall j :: 0 <= j < k ==> ProbeCandidate(cands[j], files).Skip?
  {
    if cands != [] {
      SearchNetrcFirstMatch(cands[1..], files);
      if ProbeCandidate(cands[0], files).Skip? {
        if !SearchNetrc(cands, files).Skip? {
          var k :| 0 <= k < |cands[1..]| && SearchNetrc(cands[1..], files) == ProbeCandidate(cands[1..][k], files)
                && forall j :: 0 <= j < k ==> ProbeCandidate(cands[1..][j], files).Skip?;
          assert forall j :: 0 <= j < k + 1 ==> ProbeCandidate(cands[j], files).Skip? by {
            forall j | 0 <= j < k + 1 ensures ProbeCandidate(cands[j], files).Skip? {
              if j > 0 { assert cands[j] == cands[1..][j - 1]; }
            }
          }
        } else {
          forall j | 0 <= j < |cands| ensures ProbeCandidate(cands[j], files).Skip? {
            if j > 0 { assert cands[j] == cands[1..][j - 1]; }
          }
        }
      }
    }
  }

  datatype AuthError =
    | CredentialsNotFound(searched: seq<string>)  // the `Exception` raised when nothing yields credentials
    | ReadError(message: string)                  // an OS error that escapes the netrc loop

  /** The fixed text around the list of searched paths in the failure message. */
  const MessageHead: string := "Could not find URS credentials. Searched NETRC locations: "
  const MessageTail: string :=
    ". Provide credentials via environment variables EARTHDATA_USERNAME/EARTHDATA_PASSWORD "
    + "(or NASA_EARTHDATA_USERNAME/NASA_EARTHDATA_PASSWORD), "
    + "set NETRC to the path of your .netrc/_netrc file, or create a _netrc/.netrc in your home directory with:\n"
    + "machine urs.earthdata.nasa.gov login YOUR_USERNAME password YOUR_PASSWORD"

  /** The searched paths as the message lists them: comma-separated, or "(none)". */
  function Searched(cands: seq<string>): string
  {
    if cands != [] then Join(cands, ", ") else "(none)"
  }

  /** The text of the failure raised when no source yields credentials. */
  function NotFoundMessage(cands: seq<string>): string
  {
    MessageHead + Searched(cands) + MessageTail
  }

  /** The text the raised exception carries. */
  function Message(e: AuthError): string
  {
    match e
    case CredentialsNotFound(searched) => NotFoundMessage(searched)
    case ReadError(message) => message
  }

  /** The failure message names every path searched, or "(none)" when there was none. */
  lemma NotFoundMessageNamesPaths(cands: seq<string>)
    ensures forall k :: 0 <= k < |cands| ==> Contains(NotFoundMessage(cands), cands[k])
    ensures cands == [] ==> Contains(NotFoundMessage(cands), "(none)")
  {
    if cands == [] {
      ContainsInfix(MessageHead, "(none)", MessageTail);
    } else {
      forall k | 0 <= k < |cands| ensures Contains(NotFoundMessage(cands), cands[k]) {
        JoinContainsEach(cands, ", ", k);
        ContainsWithin(MessageHead, Join(cands, ", "), MessageTail, cands[k]);
      }
    }
  }

  /** The outcome `find_creds` has for the given fields and files. */
  function ResolveCreds(username: Option<string>, password: Option<string>, cands: seq<string>, files: Files)
    : Result<Credentials, AuthError>
  {
    if Truthy(username) && Truthy(password) then Ok(Credentials(username.value, password.value))
    else match SearchNetrc(cands, files)
      case Hit(c) => Ok(c)
      case Fatal(e) => Failure(ReadError(e))
      case Skip => Failure(CredentialsNotFound(cands))
  }

  /** The credentials `create_authenticated_session` puts on its session. */
  function SessionCredentials(env: Env, home: string, files: Files): Result<Credentials, AuthError>
  {
    ResolveCreds(EnvUsername(env), EnvPassword(env), Dedup(RawCandidates(env, home)), files)
  }

  /** Resolved credentials are never empty, whichever source supplied them. */
  lemma {:induction false} ResolvedCredsNonEmpty(username: Option<string>, password: Option<string>,
                                                 cands: seq<string>, files: Files)
    ensures ResolveCreds(username, password, cands, files).Ok? ==>
              ResolveCreds(username, password, cands, files).value.username != "" &&
              ResolveCreds(username, password, cands, files).value.password != ""
  {
    SearchHitNonEmpty(cands, files);
  }

  lemma {:induction false} SearchHitNonEmpty(cands: seq<string>, files: Files)
    ensures SearchNetrc(cands, files).Hit? ==>
              SearchNetrc(cands, files).creds.username != "" && SearchNetrc(cands, files).creds.password != ""
  {
    if cands != [] {
      SearchHitNonEmpty(cands[1..], files);
    }
  }

  // ---- redirects ----

  /** The parts of an HTTP response the redirect rule looks at. */
  datatype Response = Response(status: int, location: Option<string>, history: seq<Response>)

  /** `requests`' `is_redirect`: a Location header and a redirect status. */
  predicate IsRedirect(r: Response)
  {
    r.location.Some? && r.status in RedirectStatuses
  }

  /** The response is replaced by a login exchange exactly when it redirects to the URS host. */
  predicate RedirectsToLogin(r: Response)
  {
    IsRedirect(r) && Contains(r.location.value, UrsHost)
  }

  /** The authentication helper: resolved username and password fields and the netrc candidate paths. */
  class NasaAuth {
    var username: Option<string>
    var password: Option<string>
    var netrcCandidates: seq<string>

    constructor (username: Option<string>, password: Option<string>, env: Env, home: string)
      ensures this.username == Or(username, EnvUsername(env))
      ensures this.password == Or(password, EnvPassword(env))
      ensures netrcCandidates == Dedup(RawCandidates(env, home))
    {
      this.username := Or(username, EnvUsername(env));
      this.password := Or(password, EnvPassword(env));
      var candidates := RawCandidates(env, home);
      var seen: set<string> := {};
      var kept: seq<string> := [];
      for i := 0 to |candidates|
        invariant kept == Dedup(candidates[..i])
        invariant seen == set p | p in kept
      {
        var p := candidates[i];
        assert candidates[..i + 1][..i] == candidates[..i];
        if p != "" && p !in seen {
          kept := kept + [p];
          seen := seen + {p};
        }
      }
      assert candidates[..|candidates|] == candidates;
      this.netrcCandidates := kept;
    }

    /**
     * `find_creds`: explicit or environment credentials when both are set,
     * otherwise the first netrc candidate that yields a non-empty login and
     * password, otherwise a failure naming every path searched.
     */
    method FindCreds(files: Files) returns (r: Result<Credentials, AuthError>)
      ensures r == ResolveCreds(username, password, netrcCandidates, files)
      ensures Truthy(username) && Truthy(password) ==> r == Ok(Credentials(username.value, password.value))
      ensures r.Ok? ==> r.value.username != "" && r.value.password != ""
    {
      ResolvedCredsNonEmpty(username, password, netrcCandidates, files);
      if Truthy(username) && Truthy(password) {
        return Ok(Credentials(username.value, password.value));
      }
      var errors: seq<string> := [];
      var i := 0;
      while i < |netrcCandidates|
        invariant 0 <= i <= |netrcCandidates|
        invariant SearchNetrc(netrcCandidates, files) == SearchNetrc(netrcCandidates[i..], files)
      {
        var candidate := netrcCandidates[i];
        assert netrcCandidates[i..][1..] == netrcCandidates[i + 1..];
        if candidate in files {
          match files[candidate]
          case Unreadable(e) =>
            return Failure(ReadError(e));
          case Malformed(e) =>
            errors := errors + [candidate + ": " + e];
          case Parsed(hosts) =>
            var auth := Authenticators(hosts, UrsHost);
            if auth.Some? && auth.value.login != "" && auth.value.password != "" {
              return Ok(Credentials(auth.value.login, auth.value.password));
            }
        }
        i := i + 1;
      }
      r := Failure(CredentialsNotFound(netrcCandidates));
    }

    /**
     * `handle_redirect`: a redirect to the URS host is answered by posting
     * the resolved credentials to the redirect target (`login` stands for
     * that POST); the login response is returned with the redirect appended
     * to its history. Every other response is returned unchanged.
     */
    method HandleRedirect(r: Response, files: Files, login: (string, Credentials) -> Response)
      returns (out: Result<Response, AuthError>)
      ensures !RedirectsToLogin(r) ==> out == Ok(r)
      ensures RedirectsToLogin(r) ==>
                match ResolveCreds(username, password, netrcCandidates, files)
                case Failure(e) => out == Failure(e)
                case Ok(c) =>
                  var resp := login(r.location.value, c);
                  out == Ok(resp.(history := resp.history + [r]))
    {
      if IsRedirect(r) && Contains(r.location.value, UrsHost) {
        var redirectUrl := r.location.value;
        var creds := FindCreds(files);
        match creds
        case Failure(e) =>
          return Failure(e);
        case Ok(c) =>
          var authResp := login(redirectUrl, c);
          return Ok(authResp.(history := authResp.history + [r]));
      }
      return Ok(r);
    }
  }

  /** A requests session configured for URS: Basic credentials and a redirect limit. */
  datatype Session = Session(auth: Credentials, maxRedirects: nat)

  /**
   * `create_authenticated_session`: resolve credentials with no explicit
   * arguments and attach them as HTTP Basic auth; a resolution failure
   * propagates.
   */
  method CreateAuthenticatedSession(env: Env, home: string, files: Files)
    returns (r: Result<Session, AuthError>)
    ensures SessionCredentials(env, home, files).Failure? ==>
              r == Failure(SessionCredentials(env, home, files).error)
    ensures SessionCredentials(env, home, files).Ok? ==>
              r == Ok(Session(SessionCredentials(env, home, files).value, 10))
  {
    var helper := new NasaAuth(None, None, env, home);
    var creds := helper.FindCreds(files);
    match creds
    case Failure(e) =>
      return Failure(e);
    case Ok(c) =>
      return Ok(Session(c, 10));
  }
}
