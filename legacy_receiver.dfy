/**
 * The first-generation webhook receiver of scripts/webhook-receiver.py: every
 * POST must carry a valid GitHub signature before any routing happens; three
 * exact paths start a service through `/opt/bin/jit-services.sh`, and on
 * `/github/forgejo` only push, pull_request and release events do.
 */
module LegacyReceiver {
  import opened Wrappers
  import opened PyText
  import opened Http

  /** `os.environ.get('WEBHOOK_SECRET', 'change-me-in-production')` */
  const DefaultSecret := "change-me-in-production"

  function SecretFrom(env: Option<string>): (secret: string)
    ensures env.None? ==> secret != ""
  {
    env.GetOr(DefaultSecret)
  }

  const JitScript := "/opt/bin/jit-services.sh"
  const EventHeader := "X-GitHub-Event"

  /** The GitHub events that wake Forgejo up. */
  const StartEvents: seq<string> := ["push", "pull_request", "release"]

  /**
   * `verify_signature(payload, signature)`: a missing or empty signature fails;
   * a present one must equal the signature of the payload.  There is no case
   * for an empty secret.
   */
  function VerifySignature(hmac: HexHmac, secret: string, signature: Option<string>, payload: Bytes): (r: Result<bool>)
    ensures r.Err? ==> signature.Some? && !IsAscii(signature.value)
    ensures r == Ok(true) ==> signature == Some(GitHubSignature(hmac, secret, payload))
  {
    match signature
    case None => Ok(false)
    case Some(s) =>
      if s == "" then Ok(false) else CompareDigest(GitHubSignature(hmac, secret, payload), s)
  }

  /** The argument vector of `jit-services.sh start <name>`. */
  function StartCommand(name: string): seq<string> {
    [JitScript, "start", name]
  }

  /** `start_service`: true exactly when the script exited with status 0; a failure and an exception are both false. */
  function StartService(run: Runner, name: string): (ok: bool)
    ensures ok <==> run(StartCommand(name)).Exited? && run(StartCommand(name)).code == 0
  {
    Succeeded(run(StartCommand(name)))
  }

  /**
   * Start `name`; on success answer 200 with `{"status": <tag>}`, on failure
   * answer 500 with no body.
   */
  function Activate(run: Runner, name: string, tag: string): (h: Handled)
    ensures h.commands == [StartCommand(name)]
    ensures h.reply.Reply? && (h.reply.status == 200 <==> StartService(run, name))
    ensures h.reply == if StartService(run, name) then Reply(200, [JsonType], Json([("status", tag)]))
                       else Reply(500, [], NoBody)
  {
    if StartService(run, name) then Handled(Reply(200, [JsonType], Json([("status", tag)])), [StartCommand(name)])
    else Handled(Reply(500, [], NoBody), [StartCommand(name)])
  }

  /** The three commands the receiver can run. */
  const KnownStarts := {StartCommand("forgejo_forgejo"), StartCommand("minio_minio"), StartCommand("mealie_mealie")}

  /** `do_POST`: signature first, then exact routes.  The only commands it runs start one of the three services. */
  function DoPost(secret: string, hmac: HexHmac, run: Runner, req: Request): (h: Handled)
    ensures |h.commands| <= 1
    ensures h.commands != [] ==> h.commands[0] in KnownStarts
  {
    match UrlPath(req.target)
    case Err(e) => Handled(Dropped(e), [])
    case Ok(path) =>
      match VerifySignature(hmac, secret, GetHeader(req.headers, SignatureHeader), req.body)
      case Err(e) => Handled(Dropped(e), [])
      case Ok(valid) =>
        if !valid then Handled(Reply(403, [], NoBody), [])
        else if path == "/github/forgejo" then
          match GetHeader(req.headers, EventHeader)
          case Some(event) =>
            if event in StartEvents then Activate(run, "forgejo_forgejo", "service_started")
            else Handled(Reply(200, [], NoBody), [])
          case None => Handled(Reply(200, [], NoBody), [])
        else if path == "/start/minio" then Activate(run, "minio_minio", "minio_started")
        else if path == "/start/mealie" then Activate(run, "mealie_mealie", "mealie_started")
        else Handled(Reply(404, [], NoBody), [])
  }

  /** `do_GET`, on the raw request target. */
  function DoGet(req: Request): (r: Reply)
    ensures r.Reply? && (r.status == 200 || r.status == 404)
  {
    if req.target == "/health" then Reply(200, [JsonType], Json([("status", "ok")]))
    else Reply(404, [], NoBody)
  }

  /**
   * The handler has no `do_OPTIONS`: only POST and GET are served, anything
   * else gets 501 from `send_error`, with no error page for HEAD.
   */
  function Handle(secret: string, hmac: HexHmac, run: Runner, req: Request): (h: Handled)
    ensures |h.commands| <= 1
    ensures req.verb != "POST" ==> h.commands == []
  {
    match req.verb
    case "POST" => DoPost(secret, hmac, run, req)
    case "GET" => Handled(DoGet(req), [])
    case _ => Handled(Reply(501, [], if req.verb == "HEAD" then NoBody else ErrorPage), [])
  }

  // ----- signature policy -----

  /** Without a signature header, or with an empty one, nothing passes, whatever the secret. */
  lemma MissingSignatureFails(hmac: HexHmac, secret: string, signature: Option<string>, payload: Bytes)
    requires signature.None? || signature == Some("")
    ensures VerifySignature(hmac, secret, signature, payload) == Ok(false)
  {
  }

  /** A present signature passes exactly when it is the signature of this payload under this secret. */
  lemma SignatureAcceptedIff(hmac: HexHmac, secret: string, signature: string, payload: Bytes)
    requires signature != ""
    ensures VerifySignature(hmac, secret, Some(signature), payload) == Ok(true)
            <==> signature == GitHubSignature(hmac, secret, payload)
  {
  }

  /** With the variable unset the secret is the placeholder, so the empty secret never arises by default. */
  lemma DefaultSecretIsSet()
    ensures SecretFrom(None) == DefaultSecret && DefaultSecret != ""
  {
  }

  // ----- routing -----

  /**
   * A POST whose signature does not pass gets 403 or no reply at all and starts
   * nothing, on every path: the reply does not depend on the path once it parses.
   */
  lemma SignatureCheckedFirst(secret: string, hmac: HexHmac, run: Runner, req: Request, target': string)
    requires UrlPath(req.target).Ok? && UrlPath(target').Ok?
    requires VerifySignature(hmac, secret, GetHeader(req.headers, SignatureHeader), req.body) != Ok(true)
    ensures DoPost(secret, hmac, run, req).commands == []
    ensures DoPost(secret, hmac, run, req).reply == Reply(403, [], NoBody)
            || DoPost(secret, hmac, run, req).reply.Dropped?
    ensures DoPost(secret, hmac, run, req) == DoPost(secret, hmac, run, req.(target := target'))
  {
  }

  /**
   * On `/github/forgejo` a signed push, pull_request or release event starts
   * `forgejo_forgejo` once: 200 with a body on success, 500 on failure.
   */
  lemma ForgejoEventStarts(secret: string, hmac: HexHmac, run: Runner, req: Request, event: string)
    requires UrlPath(req.target) == Ok("/github/forgejo")
    requires VerifySignature(hmac, secret, GetHeader(req.headers, SignatureHeader), req.body) == Ok(true)
    requires GetHeader(req.headers, EventHeader) == Some(event) && event in StartEvents
    ensures DoPost(secret, hmac, run, req).commands == [StartCommand("forgejo_forgejo")]
    ensures DoPost(secret, hmac, run, req).reply
            == if StartService(run, "forgejo_forgejo")
               then Reply(200, [JsonType], Json([("status", "service_started")]))
               else Reply(500, [], NoBody)
  {
  }

  /** On `/github/forgejo` any other event, or none, is acknowledged with 200 and starts nothing. */
  lemma OtherEventIgnored(secret: string, hmac: HexHmac, run: Runner, req: Request)
    requires UrlPath(req.target) == Ok("/github/forgejo")
    requires VerifySignature(hmac, secret, GetHeader(req.headers, SignatureHeader), req.body) == Ok(true)
    requires GetHeader(req.headers, EventHeader).None? || GetHeader(req.headers, EventHeader).value !in StartEvents
    ensures DoPost(secret, hmac, run, req) == Handled(Reply(200, [], NoBody), [])
  {
  }

  /** The events that start Forgejo are exactly push, pull_request and release. */
  lemma StartEventsExactly(event: string)
    ensures event in StartEvents <==> event == "push" || event == "pull_request" || event == "release"
  {
  }

  /**
   * A signed POST starts a service exactly on the three known paths, each with
   * its own fixed service; any other path is 404 and starts nothing.
   */
  lemma ExactRoutes(secret: string, hmac: HexHmac, run: Runner, req: Request, path: string)
    requires UrlPath(req.target) == Ok(path)
    requires VerifySignature(hmac, secret, GetHeader(req.headers, SignatureHeader), req.body) == Ok(true)
    ensures path == "/start/minio" ==> DoPost(secret, hmac, run, req) == Activate(run, "minio_minio", "minio_started")
    ensures path == "/start/mealie" ==> DoPost(secret, hmac, run, req) == Activate(run, "mealie_mealie", "mealie_started")
    ensures path !in {"/github/forgejo", "/start/minio", "/start/mealie"}
            ==> DoPost(secret, hmac, run, req) == Handled(Reply(404, [], NoBody), [])
  {
  }

  /** GET answers 200 with `{"status": "ok"}` exactly for the target `/health`, and 404 otherwise. */
  lemma HealthIff(secret: string, hmac: HexHmac, run: Runner, req: Request)
    requires req.verb == "GET"
    ensures Handle(secret, hmac, run, req).reply.status == 200 <==> req.target == "/health"
    ensures req.target == "/health"
            ==> Handle(secret, hmac, run, req) == Handled(Reply(200, [JsonType], Json([("status", "ok")])), [])
    ensures req.target != "/health" ==> Handle(secret, hmac, run, req) == Handled(Reply(404, [], NoBody), [])
  {
  }

  /** There is no CORS preflight: OPTIONS gets 501 and starts nothing. */
  lemma OptionsUnsupported(secret: string, hmac: HexHmac, run: Runner, req: Request)
    requires req.verb == "OPTIONS"
    ensures Handle(secret, hmac, run, req) == Handled(Reply(501, [], ErrorPage), [])
  {
  }

  /** HEAD has no handler either: 501 with no body, since `send_error` writes none for HEAD. */
  lemma HeadUnsupported(secret: string, hmac: HexHmac, run: Runner, req: Request)
    requires req.verb == "HEAD"
    ensures Handle(secret, hmac, run, req) == Handled(Reply(501, [], NoBody), [])
  {
  }

  /**
   * POST `http://[abc]/start/minio` gets no reply and starts nothing: `urlparse`
   * raises ValueError before the signature is looked at.
   */
  lemma BracketedAbcDropped(secret: string, hmac: HexHmac, run: Runner, req: Request)
    requires req.verb == "POST" && req.target == "http://[abc]/start/minio"
    ensures Handle(secret, hmac, run, req) == Handled(Dropped("ValueError"), [])
  {
    AbcTargetRefused(req.target);
  }
}
