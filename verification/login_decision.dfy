/**
 * The login decision of the `types` command, as values: which credentials it
 * forwards to the login command, in which order, and whether it logs in at
 * all. `TypesCommand.TypesCommand.TypesValidation` computes the same thing
 * step by step on the command's state.
 */
module LoginDecision {
  import opened Wrappers

  /** Python truthiness of an optional text value: present and not empty. */
  predicate Given(v: Option<string>)
  {
    v.Some? && v.value != ""
  }

  /** `v` if it is truthy, `None` otherwise. */
  function Keep(v: Option<string>): (r: Option<string>)
    ensures Given(r) <==> r.Some?
    ensures r.Some? ==> r == v
    ensures Given(v) ==> r.Some?
  {
    if Given(v) then v else None
  }

  /** The command line options of `types` after parsing. */
  datatype Options = Options(
    url: Option<string>,
    user: Option<string>,
    password: Option<string>,
    includelogs: bool,
    path: Option<string>,
    fulltypes: bool,
    encode: bool)

  /** What the stored configuration answers for url, username and password. */
  datatype Config = Config(url: Option<string>, username: Option<string>, password: Option<string>)

  /** The credentials forwarded to the login command (as `ChosenCredentials` builds them, each present one is non-empty). */
  datatype Credentials = Credentials(url: Option<string>, user: Option<string>, password: Option<string>)

  /** A login command invocation in typed form. */
  datatype LoginRequest = LoginRequest(creds: Credentials, includelogs: bool, path: Option<string>)

  const LocalLoginMessage: string := "Local login initiated...\n"

  /** Whether url, user or password was given explicitly (and is truthy). */
  predicate AnyExplicit(o: Options)
  {
    Given(o.url) || Given(o.user) || Given(o.password)
  }

  /**
   * Explicit values win over the configuration, all or nothing: as soon as one
   * of url, user, password is given, only the given ones are forwarded.
   */
  function ChosenCredentials(o: Options, c: Config): Credentials
  {
    if AnyExplicit(o) then Credentials(Keep(o.url), Keep(o.user), Keep(o.password))
    else Credentials(Keep(c.url), Keep(c.username), Keep(c.password))
  }

  /**
   * The decision: `None` keeps the current client and makes no login call;
   * `Some(req)` calls the login command once, with `Args(req)`.
   */
  function Decide(clientExists: bool, o: Options, c: Config): Option<LoginRequest>
  {
    if clientExists then None
    else Some(LoginRequest(ChosenCredentials(o, c), o.includelogs, Keep(o.path)))
  }

  /** `[flag, value]` for a present value, nothing otherwise. */
  function Flagged(flag: string, v: Option<string>): seq<string>
  {
    if v.Some? then [flag, v.value] else []
  }

  /** The credential part of the login argument list: url, `-u user`, `-p password`. */
  function CredentialArgs(cr: Credentials): seq<string>
  {
    (if cr.url.Some? then [cr.url.value] else []) + Flagged("-u", cr.user) + Flagged("-p", cr.password)
  }

  /** The full login argument list: credentials, then `--includelogs`, then `--path p`. */
  function Args(req: LoginRequest): seq<string>
  {
    CredentialArgs(req.creds) + (if req.includelogs then ["--includelogs"] else []) + Flagged("--path", req.path)
  }

  /** Whether the "local login" notice is written: login runs with no credentials. */
  predicate LocalLogin(clientExists: bool, o: Options, c: Config)
  {
    !clientExists && CredentialArgs(ChosenCredentials(o, c)) == []
  }

  /** The login calls a decision makes: one call with `Args(req)`, or none. */
  function Calls(d: Option<LoginRequest>): (r: seq<seq<string>>)
    ensures |r| <= 1
  {
    match d
    case None => []
    case Some(req) => [Args(req)]
  }

  /** What the decision writes to standard output. */
  function Notice(clientExists: bool, o: Options, c: Config): seq<string>
  {
    if LocalLogin(clientExists, o, c) then [LocalLoginMessage] else []
  }

  predicate IsMarker(s: string)
  {
    s == "-u" || s == "-p" || s == "--includelogs" || s == "--path"
  }

  /** Takes `flag value` off the front of `args` when it is there. */
  function TakeFlagged(flag: string, args: seq<string>): (r: (Option<string>, seq<string>))
    ensures |r.1| <= |args|
  {
    if |args| >= 2 && args[0] == flag then (Some(args[1]), args[2..]) else (None, args)
  }

  /** Takes a positional url off the front of `args` when it is there. */
  function TakeUrl(args: seq<string>): (r: (Option<string>, seq<string>))
  {
    if args != [] && !IsMarker(args[0]) then (Some(args[0]), args[1..]) else (None, args)
  }

  /** Takes `--includelogs` off the front of `args` when it is there. */
  function TakeLogs(args: seq<string>): (r: (bool, seq<string>))
  {
    if args != [] && args[0] == "--includelogs" then (true, args[1..]) else (false, args)
  }

  /**
   * Reads a login argument list laid out as `Args` lays it out: an optional
   * positional url, then `-u`, `-p`, `--includelogs`, `--path` in that order.
   * `None` when something is left over.
   */
  function ParseArgs(args: seq<string>): (r: Option<LoginRequest>)
  {
    var url := TakeUrl(args);
    var user := TakeFlagged("-u", url.1);
    var password := TakeFlagged("-p", user.1);
    var logs := TakeLogs(password.1);
    var path := TakeFlagged("--path", logs.1);
    if path.1 == [] then Some(LoginRequest(Credentials(url.0, user.0, password.0), logs.0, path.0)) else None
  }

  /** A url that the login command cannot mistake for one of the markers. */
  predicate UrlReadable(req: LoginRequest)
  {
    req.creds.url.Some? ==> !IsMarker(req.creds.url.value)
  }

  lemma TakeFlaggedFront(flag: string, v: Option<string>, rest: seq<string>)
    requires v.None? ==> rest == [] || rest[0] != flag
    ensures TakeFlagged(flag, Flagged(flag, v) + rest) == (v, rest)
  {
    if v.Some? {
      assert Flagged(flag, v) + rest == [flag, v.value] + rest;
      assert ([flag, v.value] + rest)[2..] == rest;
    } else {
      assert Flagged(flag, v) + rest == rest;
    }
  }

  /** The markers after the credentials read back as the includelogs flag and the path. */
  lemma MarkersRoundTrip(includelogs: bool, path: Option<string>)
    ensures var logs := TakeLogs((if includelogs then ["--includelogs"] else []) + Flagged("--path", path));
            logs == (includelogs, Flagged("--path", path)) && TakeFlagged("--path", logs.1) == (path, [])
  {
    var tail := Flagged("--path", path);
    if includelogs {
      assert (["--includelogs"] + tail)[1..] == tail;
    } else {
      assert [] + tail == tail;
    }
    TakeFlaggedFront("--path", path, []);
    assert tail + [] == tail;
  }

  /** What follows the url in `Args` starts with a marker, if anything. */
  lemma AfterUrlStartsWithMarker(req: LoginRequest)
    ensures var r1 := Flagged("-u", req.creds.user) + Flagged("-p", req.creds.password)
                      + ((if req.includelogs then ["--includelogs"] else []) + Flagged("--path", req.path));
            r1 == [] || IsMarker(r1[0])
  {
  }

  /**
   * The login argument list loses nothing: reading it back gives the request
   * it was built from, so every forwarded value sits at its own place.
   */
  lemma ArgsRoundTrip(req: LoginRequest)
    requires UrlReadable(req)
    ensures ParseArgs(Args(req)) == Some(req)
  {
    var cr := req.creds;
    var r3 := (if req.includelogs then ["--includelogs"] else []) + Flagged("--path", req.path);
    var r2 := Flagged("-p", cr.password) + r3;
    var r1 := Flagged("-u", cr.user) + r2;
    var args := (if cr.url.Some? then [cr.url.value] else []) + r1;
    assert Args(req) == args;
    AfterUrlStartsWithMarker(req);
    if cr.url.Some? {
      assert args[1..] == r1;
    } else {
      assert args == r1;
    }
    assert TakeUrl(args) == (cr.url, r1);
    TakeFlaggedFront("-u", cr.user, r2);
    TakeFlaggedFront("-p", cr.password, r3);
    MarkersRoundTrip(req.includelogs, req.path);
  }

  /**
   * Login happens exactly when the client lookup failed, and then once: an
   * existing client means no call and no notice, whatever `--includelogs` and
   * `--path` say.
   */
  lemma LoginIffNoClient(clientExists: bool, o: Options, c: Config)
    ensures |Calls(Decide(clientExists, o, c))| == if clientExists then 0 else 1
    ensures clientExists ==> !LocalLogin(clientExists, o, c)
  {
  }

  /**
   * With any explicit url, user or password, the configuration plays no part,
   * and exactly the explicit values are forwarded.
   */
  lemma ExplicitOverridesConfig(o: Options, c1: Config, c2: Config)
    requires AnyExplicit(o)
    ensures Decide(false, o, c1) == Decide(false, o, c2)
    ensures ChosenCredentials(o, c1) == Credentials(Keep(o.url), Keep(o.user), Keep(o.password))
    ensures forall s :: s in CredentialArgs(ChosenCredentials(o, c1)) ==>
              s == "-u" || s == "-p" || Some(s) == o.url || Some(s) == o.user || Some(s) == o.password
  {
  }

  /**
   * End to end: when the lookup fails and something is explicit, the login
   * command reads back exactly the explicit values, the includelogs flag and
   * the path, whatever the configuration holds.
   */
  lemma ExplicitLoginReadsBack(o: Options, c: Config)
    requires AnyExplicit(o)
    requires Given(o.url) ==> !IsMarker(o.url.value)
    ensures Decide(false, o, c).Some?
    ensures ParseArgs(Args(Decide(false, o, c).value))
         == Some(LoginRequest(Credentials(Keep(o.url), Keep(o.user), Keep(o.password)), o.includelogs, Keep(o.path)))
  {
    ArgsRoundTrip(Decide(false, o, c).value);
  }

  /**
   * With nothing explicit and the lookup failed, the login command reads back
   * exactly the configured values that are set, the includelogs flag and the path.
   */
  lemma ConfigFallback(o: Options, c: Config)
    requires !AnyExplicit(o)
    requires Given(c.url) ==> !IsMarker(c.url.value)
    ensures Decide(false, o, c).Some?
    ensures ParseArgs(Args(Decide(false, o, c).value))
         == Some(LoginRequest(Credentials(Keep(c.url), Keep(c.username), Keep(c.password)), o.includelogs, Keep(o.path)))
  {
    ArgsRoundTrip(Decide(false, o, c).value);
  }

  /**
   * The local login notice appears exactly when the lookup failed and neither
   * the options nor the configuration name a url, user or password.
   */
  lemma LocalLoginIff(clientExists: bool, o: Options, c: Config)
    ensures LocalLogin(clientExists, o, c)
        <==> !clientExists && !AnyExplicit(o) && !Given(c.url) && !Given(c.username) && !Given(c.password)
  {
  }
}
