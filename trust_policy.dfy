/**
 * Where the two receivers' trust policies part ways.  The gateway leaves
 * `/start/` open and authenticates nothing when no secret is set; the older
 * receiver demands a signature on every POST.  On a properly signed push to
 * `/github/forgejo` both wake Forgejo up.
 */
module TrustPolicy {
  import opened Wrappers
  import opened PyText
  import opened Http
  import Gateway
  import LegacyReceiver

  /** A target of this shape parses to itself. */
  lemma PlainTarget(prefix: string, alias: string)
    requires |prefix| >= 2 && prefix[0] == '/' && prefix[1] != '/'
    requires forall k :: 0 <= k < |prefix| ==> 'a' <= prefix[k] <= 'z' || prefix[k] == '/'
    requires forall k :: 0 <= k < |alias| ==> 'a' <= alias[k] <= 'z'
    ensures UrlPath(prefix + alias) == Ok(prefix + alias)
  {
    var target := prefix + alias;
    forall k | 0 <= k < |target|
      ensures target[k] > ' ' && target[k] != '?' && target[k] != '#' && target[k] != ';'
    {
      if k >= |prefix| {
        assert target[k] == alias[k - |prefix|];
      } else {
        assert target[k] == prefix[k];
      }
    }
    assert target[1] == prefix[1];
    UrlPathOfPlainPath(target);
  }

  /**
   * An unsigned POST to `/start/minio`: the gateway scales `minio_minio`, the
   * older receiver refuses it with 403 and starts nothing.
   */
  lemma OpenStartOnlyInGateway(cfg: Gateway.Config, hmac: HexHmac, run: Runner, req: Request, secret: string)
    requires req.verb == "POST" && req.target == "/start/minio"
    requires GetHeader(req.headers, SignatureHeader).None?
    requires cfg.serviceMap == Gateway.IntendedServiceMap
    ensures Gateway.Handle(cfg, hmac, run, req).commands == [Gateway.ScaleCommand("minio_minio", 1)]
    ensures LegacyReceiver.Handle(secret, hmac, run, req) == Handled(Reply(403, [], NoBody), [])
  {
    StartMinioParses(req.target);
    Gateway.StartRouteIsOpen(cfg, hmac, run, req, req.target);
  }

  /**
   * With an empty secret, a `/github/forgejo` POST with no signature at all
   * reaches docker in the gateway and is refused with 403 by the older receiver.
   */
  lemma EmptySecretOnlyOpensGateway(hmac: HexHmac, run: Runner, req: Request)
    requires req.verb == "POST" && req.target == "/github/forgejo"
    requires GetHeader(req.headers, SignatureHeader).None?
    ensures Gateway.Handle(Gateway.Config("", Gateway.IntendedServiceMap), hmac, run, req).commands
            == [Gateway.ScaleCommand("forgejo_forgejo", 1)]
    ensures LegacyReceiver.Handle("", hmac, run, req) == Handled(Reply(403, [], NoBody), [])
  {
    GithubForgejoParses(req.target);
    Gateway.EmptySecretFailsOpen(hmac, req.headers, req.body);
    GatewayScalesForgejo("", hmac, run, req, req.target);
    LegacyRefusesUnsigned("", hmac, run, req);
  }

  /** Once its signature check passes, the gateway scales Forgejo on `/github/forgejo`. */
  lemma GatewayScalesForgejo(secret: string, hmac: HexHmac, run: Runner, req: Request, path: string)
    requires req.verb == "POST" && UrlPath(req.target) == Ok(path)
    requires !StartsWith(path, Gateway.StartPrefix) && StartsWith(path, Gateway.GithubPrefix)
    requires Gateway.RouteAlias(path, Gateway.GithubPrefix) == "forgejo"
    requires Gateway.VerifySignature(hmac, secret, req.headers, req.body) == Ok(true)
    ensures Gateway.Handle(Gateway.Config(secret, Gateway.IntendedServiceMap), hmac, run, req).commands
            == [Gateway.ScaleCommand("forgejo_forgejo", 1)]
  {
    var cfg := Gateway.Config(secret, Gateway.IntendedServiceMap);
    GatewayPostsForgejo(cfg, hmac, run, req, path);
    assert Gateway.Handle(cfg, hmac, run, req) == Gateway.DoPost(cfg, hmac, run, req);
  }

  lemma GatewayPostsForgejo(cfg: Gateway.Config, hmac: HexHmac, run: Runner, req: Request, path: string)
    requires cfg.serviceMap == Gateway.IntendedServiceMap && UrlPath(req.target) == Ok(path)
    requires !StartsWith(path, Gateway.StartPrefix) && StartsWith(path, Gateway.GithubPrefix)
    requires Gateway.RouteAlias(path, Gateway.GithubPrefix) == "forgejo"
    requires Gateway.VerifySignature(hmac, cfg.secret, req.headers, req.body) == Ok(true)
    ensures Gateway.DoPost(cfg, hmac, run, req).commands == [Gateway.ScaleCommand("forgejo_forgejo", 1)]
  {
    Gateway.AcceptedGithubScalesOnce(cfg, hmac, run, req, path);
    ResolveForgejo(Gateway.RouteAlias(path, Gateway.GithubPrefix));
  }

  /** The intended table sends `forgejo` to `forgejo_forgejo`. */
  lemma ResolveForgejo(alias: string)
    requires alias == "forgejo"
    ensures Gateway.Resolve(Gateway.IntendedServiceMap, alias) == "forgejo_forgejo"
  {
  }

  /** The older receiver refuses a POST without a signature with 403, on any path that parses. */
  lemma LegacyRefusesUnsigned(secret: string, hmac: HexHmac, run: Runner, req: Request)
    requires req.verb == "POST" && UrlPath(req.target).Ok?
    requires GetHeader(req.headers, SignatureHeader).None?
    ensures LegacyReceiver.Handle(secret, hmac, run, req) == Handled(Reply(403, [], NoBody), [])
  {
    LegacyReceiver.MissingSignatureFails(hmac, secret, GetHeader(req.headers, SignatureHeader), req.body);
  }

  /**
   * A push to `/github/forgejo` signed with the shared secret starts Forgejo in
   * both receivers: a scale to one replica in the gateway, the start script in
   * the older one.
   */
  lemma SignedPushStartsForgejoInBoth(secret: string, hmac: HexHmac, run: Runner, req: Request)
    requires req.verb == "POST" && req.target == "/github/forgejo"
    requires GetHeader(req.headers, SignatureHeader) == Some(GitHubSignature(hmac, secret, req.body))
    requires GetHeader(req.headers, LegacyReceiver.EventHeader) == Some("push")
    ensures Gateway.Handle(Gateway.Config(secret, Gateway.IntendedServiceMap), hmac, run, req).commands
            == [Gateway.ScaleCommand("forgejo_forgejo", 1)]
    ensures LegacyReceiver.Handle(secret, hmac, run, req).commands
            == [LegacyReceiver.StartCommand("forgejo_forgejo")]
  {
    GithubForgejoParses(req.target);
    Gateway.OwnSignatureAccepted(hmac, secret, req.headers, req.body);
    GatewayScalesForgejo(secret, hmac, run, req, req.target);
    LegacyReceiver.SignatureAcceptedIff(hmac, secret, GitHubSignature(hmac, secret, req.body), req.body);
    LegacyReceiver.ForgejoEventStarts(secret, hmac, run, req, "push");
  }

  /** `/github/forgejo` parses to itself, is no `/start/` path, and names the alias `forgejo`. */
  lemma GithubForgejoParses(path: string)
    requires path == "/github/forgejo"
    ensures UrlPath(path) == Ok(path)
    ensures !StartsWith(path, Gateway.StartPrefix) && StartsWith(path, Gateway.GithubPrefix)
    ensures Gateway.RouteAlias(path, Gateway.GithubPrefix) == "forgejo"
  {
    GithubForgejoSpelling(path);
    PlainTarget(Gateway.GithubPrefix, "forgejo");
    Gateway.RouteAliasOfPlainAlias(Gateway.GithubPrefix, "forgejo");
  }

  lemma GithubForgejoSpelling(path: string)
    requires path == "/github/forgejo"
    ensures path == Gateway.GithubPrefix + "forgejo"
    ensures !StartsWith(path, Gateway.StartPrefix)
  {
    assert path[1] != Gateway.StartPrefix[1];
  }

  /** `/start/minio` parses to itself and names the alias `minio`. */
  lemma StartMinioParses(path: string)
    requires path == "/start/minio"
    ensures UrlPath(path) == Ok(path) && StartsWith(path, Gateway.StartPrefix)
    ensures Gateway.RouteAlias(path, Gateway.StartPrefix) == "minio"
  {
    assert path == Gateway.StartPrefix + "minio";
    PlainTarget(Gateway.StartPrefix, "minio");
    Gateway.RouteAliasOfPlainAlias(Gateway.StartPrefix, "minio");
  }
}
