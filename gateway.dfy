/**
 * The just-in-time activation gateway of stacks/webhook-receiver: an HTTP
 * handler that scales a Docker Swarm service to one replica on request.
 * `/start/<alias>` is open to anyone, `/github/<alias>` requires a GitHub
 * webhook signature unless no secret is configured, GET `/health` reports
 * liveness and OPTIONS answers CORS preflight requests.
 *
 * A request is decided by a pure function of the configuration, the HMAC
 * oracle, the subprocess oracle and the request; the result records the reply
 * and every `docker` command the handler ran.
 */
module Gateway {
  import opened Wrappers
  import opened PyText
  import opened Http

  /** The deployment-time inputs: `WEBHOOK_SECRET` and `SERVICE_MAP`. */
  datatype Config = Config(secret: string, serviceMap: map<string, string>)

  /** `os.environ.get('WEBHOOK_SECRET', '')`: an unset variable means no secret. */
  function SecretFrom(env: Option<string>): (secret: string)
    ensures secret == "" <==> env.None? || env == Some("")
  {
    env.GetOr("")
  }

  /**
   * The alias table the file means to define: its literal lists mealie, minio
   * and forgejo, and two stray entries name vaultwarden.
   */
  const IntendedServiceMap: map<string, string> :=
    map["mealie" := "mealie_mealie", "minio" := "minio_minio", "forgejo" := "forgejo_forgejo",
        "vaultwarden" := "vaultwarden_vaultwarden"]

  const StartPrefix := "/start/"
  const GithubPrefix := "/github/"

  const AllowOrigin: Header := ("Access-Control-Allow-Origin", "*")
  const AllowMethods: Header := ("Access-Control-Allow-Methods", "POST, GET, OPTIONS")

  /**
   * `verify_signature`: with no secret every request passes; otherwise a
   * missing or empty signature header fails, and a present one must equal the
   * signature of the payload.  A non-ASCII header value makes
   * `hmac.compare_digest` raise TypeError.
   */
  function VerifySignature(hmac: HexHmac, secret: string, headers: seq<Header>, payload: Bytes): (r: Result<bool>)
    ensures r.Err? ==> secret != "" && !IsAscii(GetHeader(headers, SignatureHeader).GetOr(""))
  {
    if secret == "" then Ok(true)
    else
      var signature := GetHeader(headers, SignatureHeader).GetOr("");
      if signature == "" then Ok(false)
      else CompareDigest(signature, GitHubSignature(hmac, secret, payload))
  }

  /** The argument vector of `docker service scale <name>=<replicas>`. */
  function ScaleCommand(name: string, replicas: nat): seq<string> {
    ["docker", "service", "scale", name + "=" + NatToString(replicas)]
  }

  /**
   * `scale_service(name, 1)` followed by `start_service`'s mapping of its
   * outcome: success exactly when docker exited with status 0; a non-zero
   * status and an exception both count as failure.
   */
  function StartService(run: Runner, name: string): (r: (bool, string))
    ensures r.0 <==> Succeeded(run(ScaleCommand(name, 1)))
    ensures r.1 == "Service started" || r.1 == "Scale failed"
    ensures r.0 <==> r.1 == "Service started"
  {
    if Succeeded(run(ScaleCommand(name, 1))) then (true, "Service started") else (false, "Scale failed")
  }

  /** `SERVICE_MAP.get(alias, alias)` */
  function Resolve(serviceMap: map<string, string>, alias: string): (name: string)
    ensures alias in serviceMap ==> name == serviceMap[alias]
    ensures alias !in serviceMap ==> name == alias
  {
    if alias in serviceMap then serviceMap[alias] else alias
  }

  /**
   * `path.split(prefix)[1].strip('/')` for a path that begins with `prefix`:
   * the text after the prefix up to the next occurrence of the prefix, with
   * slashes removed from both ends.
   */
  function RouteAlias(path: string, prefix: string): (alias: string)
    requires prefix != [] && StartsWith(path, prefix)
    ensures FreeEnds(alias, '/')
  {
    StripChar(SecondPieceOf(path, prefix), '/')
  }

  /** The JSON status word for an outcome. */
  function StatusWord(ok: bool): string {
    if ok then "success" else "error"
  }

  /** `do_POST`: the path of the request target, then the route it selects. */
  function DoPost(cfg: Config, hmac: HexHmac, run: Runner, req: Request): (h: Handled)
    ensures |h.commands| <= 1
  {
    match UrlPath(req.target)
    case Err(e) => Handled(Dropped(e), [])
    case Ok(path) => Route(cfg, hmac, run, req, path)
  }

  /**
   * The branches of `do_POST` on the parsed path: a path with neither prefix is
   * 404; the only command ever run scales the service its alias resolves to;
   * on a `/github/` path nothing runs unless the signature passes.
   */
  function Route(cfg: Config, hmac: HexHmac, run: Runner, req: Request, path: string): (h: Handled)
    ensures |h.commands| <= 1
    ensures !StartsWith(path, StartPrefix) && !StartsWith(path, GithubPrefix)
            ==> h == Handled(Reply(404, [AllowOrigin], NoBody), [])
    ensures StartsWith(path, StartPrefix) && h.commands != []
            ==> h.commands == [ScaleCommand(Resolve(cfg.serviceMap, RouteAlias(path, StartPrefix)), 1)]
    ensures !StartsWith(path, StartPrefix) && StartsWith(path, GithubPrefix) && h.commands != []
            ==> VerifySignature(hmac, cfg.secret, req.headers, req.body) == Ok(true)
                && h.commands == [ScaleCommand(Resolve(cfg.serviceMap, RouteAlias(path, GithubPrefix)), 1)]
  {
    if StartsWith(path, StartPrefix) then
      var alias := RouteAlias(path, StartPrefix);
      if alias == "" then Handled(Reply(400, [AllowOrigin], NoBody), [])
      else
        var name := Resolve(cfg.serviceMap, alias);
        var (ok, message) := StartService(run, name);
        Handled(Reply(if ok then 200 else 500, [JsonType, AllowOrigin],
                      Json([("status", StatusWord(ok)), ("service", name), ("message", message)])),
                [ScaleCommand(name, 1)])
    else if StartsWith(path, GithubPrefix) then
      match VerifySignature(hmac, cfg.secret, req.headers, req.body)
      case Err(e) => Handled(Dropped(e), [])
      case Ok(valid) =>
        if !valid then Handled(Reply(403, [], NoBody), [])
        else
          var name := Resolve(cfg.serviceMap, RouteAlias(path, GithubPrefix));
          var (ok, _) := StartService(run, name);
          Handled(Reply(if ok then 200 else 500, [JsonType], Json([("status", StatusWord(ok))])),
                  [ScaleCommand(name, 1)])
    else
      Handled(Reply(404, [AllowOrigin], NoBody), [])
  }

  /** `do_GET`, which compares the raw request target, query and all. */
  function DoGet(req: Request): (r: Reply)
    ensures r.Reply? && (r.status == 200 || r.status == 404)
  {
    if req.target == "/health" then Reply(200, [JsonType, AllowOrigin], Json([("status", "ok")]))
    else Reply(404, [], NoBody)
  }

  /** `do_OPTIONS` */
  function DoOptions(): Reply {
    Reply(200, [AllowOrigin, AllowMethods], NoBody)
  }

  /**
   * `BaseHTTPRequestHandler` calls `do_<method>`; a method without one is
   * answered 501 by `send_error`, which writes no error page for HEAD.
   */
  function Handle(cfg: Config, hmac: HexHmac, run: Runner, req: Request): (h: Handled)
    ensures |h.commands| <= 1
    ensures req.verb != "POST" ==> h.commands == []
  {
    match req.verb
    case "POST" => DoPost(cfg, hmac, run, req)
    case "GET" => Handled(DoGet(req), [])
    case "OPTIONS" => Handled(DoOptions(), [])
    case _ => Handled(Reply(501, [], if req.verb == "HEAD" then NoBody else ErrorPage), [])
  }

  // ----- signature policy -----

  /** With no secret configured, every payload and every header value passes. */
  lemma EmptySecretFailsOpen(hmac: HexHmac, headers: seq<Header>, payload: Bytes)
    ensures VerifySignature(hmac, "", headers, payload) == Ok(true)
  {
  }

  /** With a secret, a missing or empty signature header fails closed. */
  lemma MissingSignatureFails(hmac: HexHmac, secret: string, headers: seq<Header>, payload: Bytes)
    requires secret != ""
    requires GetHeader(headers, SignatureHeader).None? || GetHeader(headers, SignatureHeader) == Some("")
    ensures VerifySignature(hmac, secret, headers, payload) == Ok(false)
  {
  }

  /**
   * With a secret and a signature header, the request passes exactly when the
   * header is the signature of this very payload under this secret.
   */
  lemma SignatureAcceptedIff(hmac: HexHmac, secret: string, headers: seq<Header>, payload: Bytes, signature: string)
    requires secret != "" && GetHeader(headers, SignatureHeader) == Some(signature)
    ensures VerifySignature(hmac, secret, headers, payload) == Ok(true)
            <==> signature == GitHubSignature(hmac, secret, payload)
  {
  }

  /** A request signed by a sender who knows the secret is accepted. */
  lemma OwnSignatureAccepted(hmac: HexHmac, secret: string, headers: seq<Header>, payload: Bytes)
    requires GetHeader(headers, SignatureHeader) == Some(GitHubSignature(hmac, secret, payload))
    ensures VerifySignature(hmac, secret, headers, payload) == Ok(true)
  {
  }

  // ----- routing -----

  /**
   * A `/github/` POST whose signature does not pass gets 403 or no reply at all,
   * and runs nothing: the outcome does not depend on the subprocess, on the
   * alias table or on anything after the prefix (`target'` is any other
   * `/github/` target).
   */
  lemma AuthFailureShortCircuits(cfg: Config, hmac: HexHmac, run: Runner, req: Request, path: string,
                                 serviceMap': map<string, string>, run': Runner, target': string, path': string)
    requires UrlPath(req.target) == Ok(path) && UrlPath(target') == Ok(path')
    requires !StartsWith(path, StartPrefix) && StartsWith(path, GithubPrefix)
    requires !StartsWith(path', StartPrefix) && StartsWith(path', GithubPrefix)
    requires VerifySignature(hmac, cfg.secret, req.headers, req.body) != Ok(true)
    ensures DoPost(cfg, hmac, run, req).commands == []
    ensures DoPost(cfg, hmac, run, req).reply == Reply(403, [], NoBody)
            || DoPost(cfg, hmac, run, req).reply.Dropped?
    ensures DoPost(cfg, hmac, run, req) == DoPost(Config(cfg.secret, serviceMap'), hmac, run', req.(target := target'))
  {
    var cfg' := Config(cfg.secret, serviceMap');
    var req' := req.(target := target');
    RouteRefusesUnsigned(cfg, cfg', hmac, run, run', req, req', path, path');
    assert DoPost(cfg, hmac, run, req) == Route(cfg, hmac, run, req, path);
    assert DoPost(cfg', hmac, run', req') == Route(cfg', hmac, run', req', path');
  }

  /**
   * On a `/github/` path a refused signature decides the outcome, whatever the
   * table, the subprocess and the rest of the path.
   */
  lemma RouteRefusesUnsigned(cfg: Config, cfg': Config, hmac: HexHmac, run: Runner, run': Runner,
                             req: Request, req': Request, path: string, path': string)
    requires cfg'.secret == cfg.secret && req'.headers == req.headers && req'.body == req.body
    requires !StartsWith(path, StartPrefix) && StartsWith(path, GithubPrefix)
    requires !StartsWith(path', StartPrefix) && StartsWith(path', GithubPrefix)
    requires VerifySignature(hmac, cfg.secret, req.headers, req.body) != Ok(true)
    ensures Route(cfg, hmac, run, req, path).commands == []
    ensures Route(cfg, hmac, run, req, path).reply == Reply(403, [], NoBody)
            || Route(cfg, hmac, run, req, path).reply.Dropped?
    ensures Route(cfg, hmac, run, req, path) == Route(cfg', hmac, run', req', path')
  {
  }

  /**
   * A `/github/` POST whose signature passes scales the resolved service to one
   * replica exactly once, and succeeds exactly when that scale did.
   */
  lemma AcceptedGithubScalesOnce(cfg: Config, hmac: HexHmac, run: Runner, req: Request, path: string)
    requires UrlPath(req.target) == Ok(path)
    requires !StartsWith(path, StartPrefix) && StartsWith(path, GithubPrefix)
    requires VerifySignature(hmac, cfg.secret, req.headers, req.body) == Ok(true)
    ensures var name := Resolve(cfg.serviceMap, RouteAlias(path, GithubPrefix));
      && DoPost(cfg, hmac, run, req).commands == [ScaleCommand(name, 1)]
      && DoPost(cfg, hmac, run, req).reply.Reply?
      && (DoPost(cfg, hmac, run, req).reply.status == 200 <==> Succeeded(run(ScaleCommand(name, 1))))
      && (DoPost(cfg, hmac, run, req).reply.status != 200 ==> DoPost(cfg, hmac, run, req).reply.status == 500)
    ensures var ok := Succeeded(run(ScaleCommand(Resolve(cfg.serviceMap, RouteAlias(path, GithubPrefix)), 1)));
      DoPost(cfg, hmac, run, req).reply
        == Reply(if ok then 200 else 500, [JsonType], Json([("status", if ok then "success" else "error")]))
  {
  }

  /**
   * A `/start/` POST with a non-empty alias scales the resolved service whatever
   * the headers and the secret, and reports the name and the outcome.
   */
  lemma StartRouteIsOpen(cfg: Config, hmac: HexHmac, run: Runner, req: Request, path: string)
    requires UrlPath(req.target) == Ok(path) && StartsWith(path, StartPrefix)
    requires RouteAlias(path, StartPrefix) != ""
    ensures var name := Resolve(cfg.serviceMap, RouteAlias(path, StartPrefix));
      var ok := Succeeded(run(ScaleCommand(name, 1)));
      && DoPost(cfg, hmac, run, req).commands == [ScaleCommand(name, 1)]
      && DoPost(cfg, hmac, run, req).reply
         == Reply(if ok then 200 else 500, [JsonType, AllowOrigin],
                  Json([("status", if ok then "success" else "error"), ("service", name),
                        ("message", if ok then "Service started" else "Scale failed")]))
  {
  }

  /**
   * A `/start/` POST is refused with 400, running nothing, exactly when the text
   * after the prefix (up to any repetition of it) is made of slashes only.
   */
  lemma EmptyStartAliasRejected(cfg: Config, hmac: HexHmac, run: Runner, req: Request, path: string)
    requires UrlPath(req.target) == Ok(path) && StartsWith(path, StartPrefix)
    ensures |Split(path, StartPrefix)| >= 2
    ensures DoPost(cfg, hmac, run, req) == Handled(Reply(400, [AllowOrigin], NoBody), [])
            <==> forall k :: 0 <= k < |Split(path, StartPrefix)[1]| ==> Split(path, StartPrefix)[1][k] == '/'
  {
    SplitHasSecond(path, StartPrefix);
    RouteRejectsEmptyStart(cfg, hmac, run, req, path);
    assert DoPost(cfg, hmac, run, req) == Route(cfg, hmac, run, req, path);
  }

  /** The `/start/` route answers 400 exactly for an alias that strips to nothing. */
  lemma RouteRejectsEmptyStart(cfg: Config, hmac: HexHmac, run: Runner, req: Request, path: string)
    requires StartsWith(path, StartPrefix)
    ensures Route(cfg, hmac, run, req, path) == Handled(Reply(400, [AllowOrigin], NoBody), [])
            <==> RouteAlias(path, StartPrefix) == ""
  {
  }

  /** The `/github/` route has no such check: an empty alias is handed to docker as it is. */
  lemma EmptyGithubAliasScaled(cfg: Config, hmac: HexHmac, run: Runner, req: Request)
    requires UrlPath(req.target) == Ok(GithubPrefix) && "" !in cfg.serviceMap
    requires VerifySignature(hmac, cfg.secret, req.headers, req.body) == Ok(true)
    ensures DoPost(cfg, hmac, run, req).commands == [ScaleCommand("", 1)]
  {
    GithubRoot(GithubPrefix);
    AcceptedGithubScalesOnce(cfg, hmac, run, req, GithubPrefix);
  }

  /** `/github/` is a `/github/` path, no `/start/` path, and names the empty alias. */
  lemma GithubRoot(path: string)
    requires path == GithubPrefix
    ensures !StartsWith(path, StartPrefix) && StartsWith(path, GithubPrefix)
    ensures RouteAlias(path, GithubPrefix) == ""
  {
    assert path[1] != StartPrefix[1];
    assert path + "" == path;
    RouteAliasOfPlainAlias(path, "");
  }

  /**
   * A POST whose absolute-form target brackets a host that is no IP address,
   * such as `http://[abc]/start/minio`, gets no reply and runs nothing:
   * `urlparse` raises ValueError before any route is chosen.  (A target that
   * begins with `//` never gets here: http.server collapses the leading
   * slashes before `do_POST` runs.)
   */
  lemma UnbracketableHostDropped(cfg: Config, hmac: HexHmac, run: Runner, req: Request,
                                 scheme: string, host: string, path: string)
    requires req.verb == "POST" && scheme != ""
    requires req.target == scheme + ":" + ("//[" + host + "]" + path)
    requires forall k :: 0 <= k < |scheme| ==> IsAsciiLetter(scheme[k])
    requires forall k :: 0 <= k < |req.target| ==> req.target[k] > ' '
    requires forall k :: 0 <= k < |host| ==> host[k] != ':' && host[k] != '@' && host[k] != '[' && host[k] != ']' && !IsDelimiter(host[k])
    requires host == [] || host[0] != 'v'
    requires path == [] || IsDelimiter(path[0])
    ensures Handle(cfg, hmac, run, req) == Handled(Dropped("ValueError"), [])
  {
    assert req.target == (if scheme == "" then "" else scheme + ":") + ("//[" + host + "]" + path);
    UnbracketableHostRefused(req.target, scheme, host, path);
  }

  /** So POST `http://[abc]/start/minio` scales nothing, although its path is a `/start/` path. */
  lemma BracketedAbcDropped(cfg: Config, hmac: HexHmac, run: Runner, req: Request)
    requires req.verb == "POST" && req.target == "http://[abc]/start/minio"
    ensures Handle(cfg, hmac, run, req).commands == []
  {
    var scheme, host, path := AbcTargetParts(req.target);
    UnbracketableHostDropped(cfg, hmac, run, req, scheme, host, path);
  }

  /** A POST whose path has neither prefix gets 404 and runs nothing. */
  lemma UnknownRouteNotFound(cfg: Config, hmac: HexHmac, run: Runner, req: Request, path: string)
    requires UrlPath(req.target) == Ok(path)
    requires !StartsWith(path, StartPrefix) && !StartsWith(path, GithubPrefix)
    ensures DoPost(cfg, hmac, run, req) == Handled(Reply(404, [AllowOrigin], NoBody), [])
  {
  }

  /**
   * An alias without slashes after a prefix that begins with one comes back out
   * of the path unchanged.
   */
  lemma RouteAliasOfPlainAlias(prefix: string, alias: string)
    requires prefix != [] && prefix[0] == '/' && '/' !in alias
    ensures RouteAlias(prefix + alias, prefix) == alias
  {
    var path := prefix + alias;
    assert StartsWith(path, prefix);
    assert path[|prefix|..] == alias;
    SplitAfterSeparator(path, prefix);
    SplitNoLead(alias, prefix);
    assert Split(path, prefix)[1] == alias;
    StripCharKeeps(alias, '/');
  }

  /**
   * End to end: POST `/start/<alias>` for a plain alias (no slash, query,
   * fragment, parameters, space or control character) starts the service the
   * table maps it to, or the alias itself, with no signature at all.
   */
  lemma OpenStartActivates(cfg: Config, hmac: HexHmac, run: Runner, alias: string, headers: seq<Header>, body: Bytes)
    requires alias != []
    requires forall k :: 0 <= k < |alias| ==>
      alias[k] > ' ' && alias[k] != '/' && alias[k] != '?' && alias[k] != '#' && alias[k] != ';'
    ensures Handle(cfg, hmac, run, Request("POST", StartPrefix + alias, headers, body)).commands
            == [ScaleCommand(Resolve(cfg.serviceMap, alias), 1)]
  {
    var target := StartPrefix + alias;
    forall k | 0 <= k < |target|
      ensures target[k] > ' ' && target[k] != '?' && target[k] != '#' && target[k] != ';'
    {
      if k >= |StartPrefix| {
        assert target[k] == alias[k - |StartPrefix|];
      }
    }
    assert target[1] == 's';
    UrlPathOfPlainPath(target);
    RouteAliasOfPlainAlias(StartPrefix, alias);
    assert StartsWith(target, StartPrefix);
  }

  /** GET answers 200 with `{"status": "ok"}` exactly for the target `/health`, and 404 otherwise. */
  lemma HealthIff(cfg: Config, hmac: HexHmac, run: Runner, req: Request)
    requires req.verb == "GET"
    ensures Handle(cfg, hmac, run, req).reply.status == 200 <==> req.target == "/health"
    ensures req.target == "/health"
            ==> Handle(cfg, hmac, run, req) == Handled(Reply(200, [JsonType, AllowOrigin], Json([("status", "ok")])), [])
    ensures req.target != "/health" ==> Handle(cfg, hmac, run, req) == Handled(Reply(404, [], NoBody), [])
  {
  }

  /** OPTIONS always answers 200 with the CORS headers and runs nothing. */
  lemma OptionsAllowsCors(cfg: Config, hmac: HexHmac, run: Runner, req: Request)
    requires req.verb == "OPTIONS"
    ensures Handle(cfg, hmac, run, req) == Handled(Reply(200, [AllowOrigin, AllowMethods], NoBody), [])
  {
  }

  // ----- alias table -----

  /** No value of the table is itself an alias. */
  predicate ResolvesToTarget(serviceMap: map<string, string>) {
    forall a :: a in serviceMap ==> serviceMap[a] !in serviceMap
  }

  /** For such a table, resolving a resolved name changes nothing. */
  lemma ResolveIdempotent(serviceMap: map<string, string>, alias: string)
    requires ResolvesToTarget(serviceMap)
    ensures Resolve(serviceMap, Resolve(serviceMap, alias)) == Resolve(serviceMap, alias)
  {
  }

  /** The intended table is one: each alias names a `<stack>_<service>` name, which is no alias. */
  lemma IntendedMapResolvesToTarget()
    ensures ResolvesToTarget(IntendedServiceMap)
  {
  }

  /**
   * With `WEBHOOK_SECRET` unset, or set to the empty string, no request is ever
   * answered 403, whatever its method, target, headers or body.
   */
  lemma UnsetSecretNeverForbids(env: Option<string>, serviceMap: map<string, string>, hmac: HexHmac, run: Runner, req: Request)
    requires env.None? || env == Some("")
    ensures var h := Handle(Config(SecretFrom(env), serviceMap), hmac, run, req);
      !(h.reply.Reply? && h.reply.status == 403)
  {
    var cfg := Config(SecretFrom(env), serviceMap);
    if req.verb == "POST" {
      match UrlPath(req.target)
      case Err(_) =>
      case Ok(path) =>
        RouteWithoutSecret(cfg, hmac, run, req, path);
    }
  }

  /** No route answers 403 when no secret is configured. */
  lemma RouteWithoutSecret(cfg: Config, hmac: HexHmac, run: Runner, req: Request, path: string)
    requires cfg.secret == ""
    ensures var h := Route(cfg, hmac, run, req, path);
      !(h.reply.Reply? && h.reply.status == 403)
  {
    EmptySecretFailsOpen(hmac, req.headers, req.body);
  }

  /** HEAD has no handler either: 501 with no body, since `send_error` writes none for HEAD. */
  lemma HeadUnsupported(cfg: Config, hmac: HexHmac, run: Runner, req: Request)
    requires req.verb == "HEAD"
    ensures Handle(cfg, hmac, run, req) == Handled(Reply(501, [], NoBody), [])
  {
  }
}
