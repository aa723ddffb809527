# Just-in-time service activation and the Swarm exporter, in Dafny

This project models three small Python HTTP handlers from a Docker Swarm
home-lab. Services there are kept at zero replicas until something asks for
them ("just-in-time activation").

- **Gateway** (`stacks/webhook-receiver/webhook-receiver.py`) is the current
  activation gateway.
  - POST `/start/<alias>` is open to anyone.
  - POST `/github/<alias>` needs a GitHub `X-Hub-Signature-256` signature,
    unless `WEBHOOK_SECRET` is empty.
  - Either route resolves the alias through `SERVICE_MAP` and runs
    `docker service scale <name>=1`.
  - GET `/health` reports liveness.
  - OPTIONS answers CORS preflight requests.
- **LegacyReceiver** (`scripts/webhook-receiver.py`) is the first-generation
  receiver.
  - Every POST must be signed; the secret defaults to a placeholder.
  - Only three exact paths start a service, through `/opt/bin/jit-services.sh start <name>`.
  - On `/github/forgejo`, only push, pull_request and release events start
    anything. Any other event is acknowledged with 200.
- **SwarmExporter** (`stacks/monitoring/swarm-exporter.py`) is a Prometheus
  exporter.
  - On GET it runs `docker node ls` and `docker service ls`.
  - It turns each output line into `swarm_node_info` samples and into samples
    of the running and desired replica gauges.
  - It answers with the exposition text.
- **TrustPolicy** compares the two receivers.
  - The gateway's `/start/` route is open, and an empty secret disables its
    authentication entirely.
  - The older receiver refuses both of those requests with 403.
  - A properly signed push to `/github/forgejo` starts Forgejo in both.

Shared modules:

- **PyText** models the Python `str` operations the handlers use. These are
  `startswith`, `split(sep)`, `split()`, `"sep".join`, `strip()` and
  `strip(chars)`.
- **Http** models the parts of Python's standard library the handlers rely on:
  - the request as `BaseHTTPRequestHandler` hands it over;
  - case-insensitive `headers.get`;
  - `hmac.compare_digest` on `str`;
  - the path that `urllib.parse.urlparse` extracts (CPython 3.12.9 and later:
    leading C0/space stripping, tab/CR/LF removal, scheme and authority
    detection, fragment, query, and `;` parameters);
  - the check `urlsplit` makes on an authority with brackets
    (`_check_bracketed_netloc`): only the host and port after the last '@'
    count, nothing may come before the '[', only a ':' port may follow the ']',
    and the host between them must pass `_check_bracketed_host`. **IpAddress**
    models which strings `ipaddress` accepts as IPv4 and IPv6 addresses, and
    the IPvFuture pattern;
  - the subprocess as an oracle.

A request is decided by a pure function of four things: the configuration,
an HMAC oracle (`HexHmac`), a subprocess oracle (`Runner`) and the request.
The result is a `Handled` record of two parts:

- `reply` is either a status, headers and body, or `Dropped` when an exception
  escapes the handler and the client gets no response.
- `commands` lists every argument vector given to the subprocess, in order.

The exporter's handler is written as it is in the source. `Scrape` is a
method that builds the line list with two loops. It is proved equal to
`Scraped`, a line-by-line specification built on `Samples`. The properties
of the exposition are proved about `Samples`.

The model follows the code as written, including these behaviours of it:

- **The desired-replica value** is `r[1]` of `p[1].split("/")`: the text
  between the first and the second '/', not everything after the first '/'.
  A second word without '/' raises IndexError, as does a line with one word.
- **A non-empty node line of whitespace only** raises IndexError on `p[0]`.
  The handler then sends no reply.
- **The alias table.** Lines 9-10 and 12-13 of the gateway file are
  indented dictionary entries outside any literal, so the file as written does
  not parse. The model takes `SERVICE_MAP` as a configuration parameter.
  `Gateway.IntendedServiceMap` is the table the file evidently means: its
  literal plus the stray `vaultwarden` entry.
- **The `except` branch of the gateway's `start_service` cannot be reached.**
  `scale_service` catches every exception itself, so a failed scale is always
  `(False, "Scale failed")`.
- **GET `/health`** in both receivers compares the raw request target, not
  the parsed path, so `/health?x=1` is 404.
- **The older receiver has no `do_OPTIONS`.** OPTIONS gets 501 there, not a
  CORS preflight answer.
- **The gateway's `/github/` route has no empty-alias check.** With an
  accepted signature, `/github/` hands an empty service name to docker.
- **A non-ASCII signature header makes `hmac.compare_digest` raise
  TypeError.** The request is dropped and nothing starts.
- **A POST target whose authority brackets a host that is no IP address**,
  such as `http://[abc]/start/minio`, makes `urlparse` raise ValueError in
  both receivers. So does text before the '[' (`http://x[::1]/start/minio`)
  or after the ']' other than a port (`http://[::1]x/start/minio`). The
  request is dropped and nothing starts, although its path would name a route.
  User information before the brackets is not checked:
  `http://[a@[::1]/start/minio` is accepted, with the path `/start/minio`.
- **A method without a handler gets 501 from `send_error`.** For HEAD,
  `send_error` writes no error page.

## Model

| member | source | states |
|---|---|---|
| `Gateway.VerifySignature` | stacks/webhook-receiver/webhook-receiver.py:32-39 | verification can only raise when a secret is set and the signature header is non-ASCII |
| `Gateway.StartService` | stacks/webhook-receiver/webhook-receiver.py:17-47 | success exactly when `docker service scale <name>=1` exits 0; the message is "Service started" on success and "Scale failed" on failure |
| `Gateway.Resolve` | stacks/webhook-receiver/webhook-receiver.py:69 | a mapped alias gives its table entry; an unknown alias passes through unchanged |
| `Gateway.RouteAlias` | stacks/webhook-receiver/webhook-receiver.py:63 | the alias taken from the path never begins or ends with '/' |
| `Gateway.DoPost` | stacks/webhook-receiver/webhook-receiver.py:60-95 | a POST runs at most one docker command |
| `Gateway.Route` | stacks/webhook-receiver/webhook-receiver.py:62-95 | at most one docker command; a path with neither prefix is 404 with no command; the only command is the scale of the service the path's alias resolves to, and on a `/github/` path it runs only when the signature passed |
| `Gateway.SecretFrom` | stacks/webhook-receiver/webhook-receiver.py:7 | the secret is empty exactly when `WEBHOOK_SECRET` is unset or empty |
| `Gateway.ScaleCommand` | stacks/webhook-receiver/webhook-receiver.py:20 | the argument vector of `docker service scale <name>=<n>`; `AcceptedGithubScalesOnce`, `StartRouteIsOpen` and `OpenStartActivates` state when it is run, once, with `n` = 1 |
| `Gateway.DoOptions` | stacks/webhook-receiver/webhook-receiver.py:97-101 | the preflight reply; `OptionsAllowsCors` states it is 200 with the allow-origin and allow-methods headers and runs nothing |
| `Gateway.DoGet` | stacks/webhook-receiver/webhook-receiver.py:49-58 | GET always replies, with 200 or 404 |
| `Gateway.Handle` | stacks/webhook-receiver/webhook-receiver.py:49-101 | at most one command per request, and none for any method but POST |
| `Gateway.EmptySecretFailsOpen` | stacks/webhook-receiver/webhook-receiver.py:33-34 | with an empty secret every payload and header set passes |
| `Gateway.MissingSignatureFails` | stacks/webhook-receiver/webhook-receiver.py:35-37 | with a secret, a missing or empty signature header fails |
| `Gateway.SignatureAcceptedIff` | stacks/webhook-receiver/webhook-receiver.py:38-39 | with a secret and a signature header, acceptance holds iff the header is the signature of this payload under this secret |
| `Gateway.OwnSignatureAccepted` | stacks/webhook-receiver/webhook-receiver.py:38-39 | a correctly signed payload is accepted, whatever the secret |
| `Gateway.AuthFailureShortCircuits` | stacks/webhook-receiver/webhook-receiver.py:78-84 | a `/github/` POST that fails verification gets 403 (or is dropped), runs nothing, and its outcome does not depend on the alias table or the subprocess |
| `Gateway.AcceptedGithubScalesOnce` | stacks/webhook-receiver/webhook-receiver.py:85-91 | an accepted `/github/` POST scales the resolved service once; the reply is 200 with `{"status": "success"}` iff the scale succeeded, else 500 with `{"status": "error"}`, with only the JSON content type and no allow-origin header |
| `Gateway.StartRouteIsOpen` | stacks/webhook-receiver/webhook-receiver.py:62-77 | a `/start/` POST with a non-empty alias scales the resolved service whatever the headers and secret; reply names status, service and message |
| `Gateway.EmptyStartAliasRejected` | stacks/webhook-receiver/webhook-receiver.py:63-68 | a `/start/` POST gets 400 and runs nothing iff the piece after the prefix is slashes only |
| `Gateway.RouteRejectsEmptyStart` | stacks/webhook-receiver/webhook-receiver.py:63-68 | the `/start/` route answers 400 exactly when the alias strips to nothing |
| `Gateway.EmptyGithubAliasScaled` | stacks/webhook-receiver/webhook-receiver.py:85-87 | an accepted POST to `/github/` itself hands an empty service name to docker |
| `Gateway.UnknownRouteNotFound` | stacks/webhook-receiver/webhook-receiver.py:92-95 | a POST path with neither prefix gets 404 and runs nothing |
| `Gateway.RouteAliasOfPlainAlias` | stacks/webhook-receiver/webhook-receiver.py:63 | a slash-free alias after the prefix comes back out unchanged |
| `Gateway.OpenStartActivates` | stacks/webhook-receiver/webhook-receiver.py:60-77 | end to end: POST `/start/<alias>` without any signature scales the service the alias resolves to |
| `Gateway.HealthIff` | stacks/webhook-receiver/webhook-receiver.py:49-58 | GET is 200 with the JSON content type, the allow-origin header and `{"status": "ok"}` iff the target is exactly `/health`, otherwise a bare 404; no command either way |
| `Gateway.OptionsAllowsCors` | stacks/webhook-receiver/webhook-receiver.py:97-101 | OPTIONS is 200 with the allow-origin and allow-methods headers, and runs nothing |
| `Gateway.ResolveIdempotent` | stacks/webhook-receiver/webhook-receiver.py:69 | for a table whose values are not aliases, resolving twice equals resolving once |
| `Gateway.IntendedMapResolvesToTarget` | stacks/webhook-receiver/webhook-receiver.py:11-13 | no value of the intended alias table is itself an alias |
| `Gateway.UnsetSecretNeverForbids` | stacks/webhook-receiver/webhook-receiver.py:7-39 | with `WEBHOOK_SECRET` unset or empty, no request of any method, target, headers or body is answered 403 |
| `Gateway.RouteRefusesUnsigned` | stacks/webhook-receiver/webhook-receiver.py:78-84 | on a `/github/` path, a refused signature gives 403 or a dropped request with no command, the same under any alias table and subprocess |
| `Gateway.UnbracketableHostDropped` | stacks/webhook-receiver/webhook-receiver.py:60-61 | a POST whose authority brackets a host with no ':', no '@' and no leading 'v' is dropped with ValueError and runs nothing |
| `Gateway.BracketedAbcDropped` | stacks/webhook-receiver/webhook-receiver.py:60-61 | POST `http://[abc]/start/minio` runs no command |
| `LegacyReceiver.BracketedAbcDropped` | scripts/webhook-receiver.py:66-67 | POST `http://[abc]/start/minio` is dropped with ValueError and starts nothing |
| `Gateway.HeadUnsupported` | stacks/webhook-receiver/webhook-receiver.py:48-101 | HEAD gets 501 with no body and runs nothing |
| `LegacyReceiver.SecretFrom` | scripts/webhook-receiver.py:17 | with the variable unset the secret is non-empty |
| `LegacyReceiver.VerifySignature` | scripts/webhook-receiver.py:32-43 | raising needs a non-ASCII signature; acceptance implies the signature is that of the payload |
| `LegacyReceiver.StartCommand` | scripts/webhook-receiver.py:48-50 | the argument vector of `/opt/bin/jit-services.sh start <name>`; `Activate` states it is run exactly once per activation, and `DoPost` that it is the only command |
| `LegacyReceiver.StartService` | scripts/webhook-receiver.py:45-63 | true iff the start script exited with status 0 |
| `LegacyReceiver.Activate` | scripts/webhook-receiver.py:88-95 | runs the start command once; on success 200 with `{"status": <tag>}` and the JSON content type, on failure 500 with no body |
| `LegacyReceiver.DoPost` | scripts/webhook-receiver.py:65-124 | at most one command, and only a start of forgejo, minio or mealie |
| `LegacyReceiver.DoGet` | scripts/webhook-receiver.py:126-135 | GET always replies, with 200 or 404 |
| `LegacyReceiver.Handle` | scripts/webhook-receiver.py:65-135 | at most one command per request, none for any method but POST |
| `LegacyReceiver.MissingSignatureFails` | scripts/webhook-receiver.py:34-35 | a missing or empty signature fails, whatever the secret |
| `LegacyReceiver.SignatureAcceptedIff` | scripts/webhook-receiver.py:37-43 | a present signature passes iff it is the signature of this payload under this secret |
| `LegacyReceiver.DefaultSecretIsSet` | scripts/webhook-receiver.py:17 | the unset variable yields the non-empty placeholder secret |
| `LegacyReceiver.SignatureCheckedFirst` | scripts/webhook-receiver.py:73-79 | a POST that fails verification gets 403 (or is dropped) and runs nothing, whatever its path |
| `LegacyReceiver.ForgejoEventStarts` | scripts/webhook-receiver.py:82-95 | a signed push, pull_request or release on `/github/forgejo` starts `forgejo_forgejo` once; 200 with body on success, 500 otherwise |
| `LegacyReceiver.OtherEventIgnored` | scripts/webhook-receiver.py:96-98 | any other event, or none, on `/github/forgejo` gets a bare 200 and runs nothing |
| `LegacyReceiver.StartEventsExactly` | scripts/webhook-receiver.py:87 | the starting events are exactly push, pull_request and release |
| `LegacyReceiver.ExactRoutes` | scripts/webhook-receiver.py:100-124 | a signed POST to `/start/minio` or `/start/mealie` starts that service; any other unknown path is 404 and runs nothing |
| `LegacyReceiver.HealthIff` | scripts/webhook-receiver.py:126-135 | GET is 200 with only the JSON content type and `{"status": "ok"}` iff the target is exactly `/health`, otherwise a bare 404; no command either way |
| `LegacyReceiver.OptionsUnsupported` | scripts/webhook-receiver.py:30-139 | OPTIONS gets 501 and runs nothing |
| `LegacyReceiver.HeadUnsupported` | scripts/webhook-receiver.py:30-139 | HEAD gets 501 with no body and runs nothing |
| `TrustPolicy.OpenStartOnlyInGateway` | stacks/webhook-receiver/webhook-receiver.py:62-77 | an unsigned POST `/start/minio` scales `minio_minio` in the gateway and gets 403 with no command in the older receiver |
| `TrustPolicy.EmptySecretOnlyOpensGateway` | stacks/webhook-receiver/webhook-receiver.py:33-34 | with an empty secret, an unsigned `/github/forgejo` POST scales Forgejo in the gateway and is refused in the older receiver |
| `TrustPolicy.SignedPushStartsForgejoInBoth` | scripts/webhook-receiver.py:82-95 | a push signed with the shared secret starts Forgejo in both receivers |
| `TrustPolicy.GatewayScalesForgejo` | stacks/webhook-receiver/webhook-receiver.py:78-91 | once the signature check passes, `/github/forgejo` scales `forgejo_forgejo` in the gateway |
| `TrustPolicy.LegacyRefusesUnsigned` | scripts/webhook-receiver.py:73-79 | the older receiver answers an unsigned POST with 403 and runs nothing, on any path that parses |
| `SwarmExporter.OutputLines` | stacks/monitoring/swarm-exporter.py:8 | there is at least one line and no line holds a newline |
| `SwarmExporter.NodeRows` | stacks/monitoring/swarm-exporter.py:9-12 | a node line that parses gives exactly one sample |
| `SwarmExporter.ServiceRows` | stacks/monitoring/swarm-exporter.py:15-20 | a service line that parses gives exactly two samples |
| `SwarmExporter.Samples` | stacks/monitoring/swarm-exporter.py:8-20 | the lines one loop appends, or its first exception; `NodeSamplesInOrder`, `ServiceSamplesInOrder`, `SamplesFailIff` and `SamplesRaiseIndexError` state what it yields |
| `SwarmExporter.Render` | stacks/monitoring/swarm-exporter.py:21 | `"\n".join(lines) + "\n"`; `RenderSplits` states that it splits back into the lines |
| `SwarmExporter.Exposition` | stacks/monitoring/swarm-exporter.py:6-21 | the exposition text from the two commands' output; `ExpositionLines` and `ExpositionBegins` state its layout |
| `SwarmExporter.Scraped` | stacks/monitoring/swarm-exporter.py:5-25 | the handler's outcome; `ScrapedReply` states its reply and commands, and `Scrape` is proved equal to it |
| `SwarmExporter.Scrape` | stacks/monitoring/swarm-exporter.py:5-25 | the handler's reply and commands equal the line-by-line specification `Scraped` |
| `SwarmExporter.AppendSamples` | stacks/monitoring/swarm-exporter.py:8-12 | the loop appends exactly `Samples` of its lines, or stops with the first line's exception |
| `SwarmExporter.NonEmpty` | stacks/monitoring/swarm-exporter.py:9 | the kept lines are non-empty lines of the input, no more of them than there were |
| `SwarmExporter.NonEmptyCounts` | stacks/monitoring/swarm-exporter.py:9 | the kept lines are every non-empty line, each as often as it occurs in the input |
| `SwarmExporter.NonEmptyAppend` | stacks/monitoring/swarm-exporter.py:8-9 | skipping empty lines in a concatenation skips them in each part, in order |
| `SwarmExporter.SamplesFailIff` | stacks/monitoring/swarm-exporter.py:8-20 | a loop raises iff some non-empty line raises |
| `SwarmExporter.NodeSamplesInOrder` | stacks/monitoring/swarm-exporter.py:8-12 | a finished node loop yields one sample per non-empty line, in input order |
| `SwarmExporter.ServiceSamplesInOrder` | stacks/monitoring/swarm-exporter.py:15-20 | a finished service loop yields running then desired for each non-empty line, in input order |
| `SwarmExporter.SamplesRaiseIndexError` | stacks/monitoring/swarm-exporter.py:10-18 | the only exception a line can raise is IndexError |
| `SwarmExporter.NodeLineFields` | stacks/monitoring/swarm-exporter.py:10-12 | the hostname is the first word; the role is manager iff the line has a second word |
| `SwarmExporter.NodeLineFails` | stacks/monitoring/swarm-exporter.py:10-12 | a node line raises iff it is whitespace only |
| `SwarmExporter.ServiceLineFails` | stacks/monitoring/swarm-exporter.py:17-20 | a service line raises exactly when it has fewer than two words or its second word has no '/' |
| `SwarmExporter.ServiceLineFields` | stacks/monitoring/swarm-exporter.py:17-20 | running is the text before the first '/' of the second word, desired the text from there to the next '/' or the end |
| `SwarmExporter.RowsLackNewline` | stacks/monitoring/swarm-exporter.py:10-20 | no sample line holds a newline |
| `SwarmExporter.ExpositionLines` | stacks/monitoring/swarm-exporter.py:13-21 | the text ends with a newline and splits back into header, node samples, separator and service headers, service samples, in that order |
| `SwarmExporter.ExpositionBegins` | stacks/monitoring/swarm-exporter.py:6 | the text begins with the HELP and TYPE lines of `swarm_node_info` |
| `SwarmExporter.ScrapedReply` | stacks/monitoring/swarm-exporter.py:7-25 | when both commands run: 200 with the exposition text and both commands, or dropped with IndexError |
| `SwarmExporter.RenderSplits` | stacks/monitoring/swarm-exporter.py:21 | newline-free lines joined with newlines and a final newline split back into those lines |
| `Http.CompareDigest` | stacks/webhook-receiver/webhook-receiver.py:39 | no exception iff both strings are ASCII, and then true iff they are equal |
| `Http.GitHubSignature` | stacks/webhook-receiver/webhook-receiver.py:38 | the expected signature is 71 ASCII characters |
| `Http.GetHeader` | stacks/webhook-receiver/webhook-receiver.py:35 | None iff no header has the name, ignoring case |
| `Http.GetHeaderFirst` | scripts/webhook-receiver.py:74 | the value found is the first header whose name matches |
| `Http.GetHeaderIgnoresCase` | scripts/webhook-receiver.py:84 | lookup does not depend on how the caller cases the name |
| `Http.UrlPath` | stacks/webhook-receiver/webhook-receiver.py:61 | `urlparse(target).path`, or the ValueError `urlsplit` raises; `UrlPathDropsQueryAndFragment`, `UrlPathOfPlainPath`, `UrlPathOfAuthority` and `UnbracketableHostRefused` state its results |
| `Http.UrlPathOfAuthority` | stacks/webhook-receiver/webhook-receiver.py:61 | for an optional scheme, `//authority` and a path, ValueError exactly when the authority is refused, and otherwise the path part of what follows the authority |
| `Http.HostAndPort` | stacks/webhook-receiver/webhook-receiver.py:61 | the text after the last '@' (`rpartition('@')[2]`) holds no '@', and is the whole authority when it has none |
| `Http.NetlocHostname` | stacks/webhook-receiver/webhook-receiver.py:61 | the host name `_check_bracketed_netloc` passes on, or none when text comes before the '[' or a non-port after the ']'; `HostnameOfBracketed`, `HostnameAfterText` and `HostnameAfterUserInfo` state its cases |
| `Http.HostnameOfBracketed` | stacks/webhook-receiver/webhook-receiver.py:61 | `[host]port` names `host` exactly when the port is empty or begins with ':' |
| `Http.HostnameAfterText` | stacks/webhook-receiver/webhook-receiver.py:61 | text before the first '[' leaves no host name |
| `Http.HostnameAfterUserInfo` | stacks/webhook-receiver/webhook-receiver.py:61 | `user@[host]` names `host`: only the text after the last '@' is checked |
| `Http.HostAndPortAfterAt` | stacks/webhook-receiver/webhook-receiver.py:61 | the host and port of `user@rest` is `rest` when `rest` has no '@' |
| `Http.TextBeforeBracketRefused` | stacks/webhook-receiver/webhook-receiver.py:61 | a target whose host and port has text before its '[' raises ValueError |
| `Http.TextBeforeLoopbackRefused` | stacks/webhook-receiver/webhook-receiver.py:61 | `http://x[::1]/start/minio` raises ValueError |
| `Http.TextAfterBracketRefused` | stacks/webhook-receiver/webhook-receiver.py:61 | a target whose ']' is followed by something other than a ':' port raises ValueError |
| `Http.TextAfterLoopbackRefused` | stacks/webhook-receiver/webhook-receiver.py:61 | `http://[::1]x/start/minio` raises ValueError |
| `Http.UserInfoBeforeBracketAccepted` | stacks/webhook-receiver/webhook-receiver.py:61 | `user@[host]` with an acceptable host is accepted, and the path is that of what follows the authority |
| `Http.AuthorityAfterUserInfo` | stacks/webhook-receiver/webhook-receiver.py:61 | `user@[host]` with an acceptable host passes the authority check |
| `Http.UserInfoLoopbackAccepted` | stacks/webhook-receiver/webhook-receiver.py:61 | `http://[a@[::1]/start/minio` has the path `/start/minio` |
| `Http.AbcTargetRefused` | stacks/webhook-receiver/webhook-receiver.py:61 | `http://[abc]/start/minio` raises ValueError |
| `Http.UrlPathDropsQueryAndFragment` | stacks/webhook-receiver/webhook-receiver.py:61 | a parsed path holds neither '?' nor '#' |
| `Http.UrlPathOfPlainPath` | scripts/webhook-receiver.py:67 | an origin-form target without query, fragment, parameters or control characters is its own path |
| `Http.DelimiterIndex` | stacks/webhook-receiver/webhook-receiver.py:61 | the authority ends at the first '/', '?' or '#', or at the end when there is none |
| `Http.UnbracketableHostRefused` | stacks/webhook-receiver/webhook-receiver.py:61 | `scheme://[host]path` or `//[host]path` with a host that has no ':', no '@' and no leading 'v' raises ValueError |
| `Http.SchemeOfAbsolute` | scripts/webhook-receiver.py:67 | a scheme of letters before ':' is split off, lower-cased, leaving the rest, whatever it is |
| `Http.AuthorityOf` | scripts/webhook-receiver.py:67 | the authority of `//authority path` is that authority, and the path is what follows, when the authority has no delimiter and the path begins with one |
| `Http.AuthorityOfBracketed` | scripts/webhook-receiver.py:67 | the authority of `//[host]path` is `[host]` when the host has no delimiter and the path begins with one |
| `Http.BracketedNetlocOf` | scripts/webhook-receiver.py:67 | `[host]` with no '@' or bracket in the host passes `_check_bracketed_netloc` exactly when the host passes `_check_bracketed_host` |
| `IpAddress.IsBracketedHost` | stacks/webhook-receiver/webhook-receiver.py:61 | which bracketed hosts `urlsplit` accepts: IPvFuture after a 'v', otherwise an IPv6 address that is not an IPv4 one; `NoColonRefused`, `IPv4Refused` and `LoopbackAccepted` state cases of it |
| `IpAddress.NoColonRefused` | stacks/webhook-receiver/webhook-receiver.py:61 | a bracketed host with no ':' and no leading 'v' is neither an IPv6 address nor IPvFuture |
| `IpAddress.IPv4Refused` | stacks/webhook-receiver/webhook-receiver.py:61 | an IPv4 address is refused in brackets |
| `IpAddress.LoopbackAccepted` | stacks/webhook-receiver/webhook-receiver.py:61 | the IPv6 loopback address `::1` is accepted in brackets |
| `PyText.Split` | stacks/monitoring/swarm-exporter.py:8 | `str.split(sep)` gives at least one piece; `JoinSplit`, `SplitJoinOneChar` and `SplitPiecesAvoidSeparator` state it is the inverse of `join` |
| `PyText.Words` | stacks/monitoring/swarm-exporter.py:10 | `str.split()`: every word is non-empty and holds no whitespace; `WordsEmpty` and `TwoWords` state how many words it gives |
| `PyText.JoinSplit` | stacks/monitoring/swarm-exporter.py:8 | joining the pieces of a split with the separator gives back the string |
| `PyText.SplitJoinOneChar` | stacks/monitoring/swarm-exporter.py:21 | splitting a join of separator-free pieces gives back the pieces |
| `PyText.SplitPiecesAvoidSeparator` | stacks/monitoring/swarm-exporter.py:18 | no piece of a split contains the separator |
| `PyText.Partition` | stacks/webhook-receiver/webhook-receiver.py:61 | `str.partition(c)`: the part before has no `c`, and the parts with `c` between them make up the string; without `c`, the string and an empty part |
| `PyText.PartitionAt` | stacks/webhook-receiver/webhook-receiver.py:61 | partitioning `x + c + rest`, when `x` has no `c`, gives `x` and `rest` |
| `PyText.SplitInTwoIff` | stacks/monitoring/swarm-exporter.py:18 | splitting at one character gives two or more pieces exactly when it occurs |
| `PyText.Strip` | stacks/webhook-receiver/webhook-receiver.py:63 | the result neither begins nor ends with a stripped character, is empty iff everything was, and is a contiguous part of the input |
| `PyText.WordsEmpty` | stacks/monitoring/swarm-exporter.py:10 | `split()` gives no words iff the string is whitespace only |
| `PyText.TwoWords` | stacks/monitoring/swarm-exporter.py:11 | `split()` gives at least two words iff two non-space runs are separated by whitespace |

## Left out

- The HTTP server itself is left out: the socket, request-line parsing,
  `Content-Length` handling and `rfile.read`. The request arrives with its
  body already read. Two consequences follow. An invalid `Content-Length`
  (which makes `int()` raise) is not modelled. Neither is http.server's
  collapsing of a leading `//` in the path.
- Logging is left out: it does not change any reply.
- Subprocess internals are left out: timeouts (30 s and 120 s), the text
  decoding of output and the exit-status semantics. They are folded into the
  `Runner` oracle, whose result is an exit record or an exception.
- HMAC-SHA256 and the UTF-8 encoding of the secret are an uninterpreted
  `HexHmac` oracle. The constant-time behaviour of `compare_digest` is a
  timing property and is not modelled; only its result and its TypeError are.
- Reply bodies are modelled as ordered JSON members or plain text, not as
  exact bytes. `json.dumps` spacing is not modelled.
- Headers that `send_response` adds itself (`Server`, `Date`) are not
  modelled. Neither are the exact headers and HTML of `send_error`'s 501 page.
- `JIT_SERVICES` (line 8 of the gateway file) is defined but never read, so
  it is not modelled.
- The gateway file does not parse as written (lines 9-10 and 12-13). Its alias
  table is therefore a parameter of `Gateway.Config`, and
  `Gateway.IntendedServiceMap` is the table the file means.
- The unreachable `except` branch of the gateway's `start_service` (lines
  46-47) has no model counterpart.
- Thread-per-request concurrency and repeated requests are left out. Each
  request is one pure function call.
- `urlsplit`'s NFKC check of a non-ASCII authority (`_checknetloc`) is not
  modelled: it needs Unicode normalisation. It can only turn a path into a
  ValueError for a target with a non-ASCII authority. The bracket balance and
  the bracketed-host check are modelled.
- Http.UrlPath: follows `urlsplit` from CPython 3.12.9 on (and distributions
  that backport its CVE-2025-0938 fix), which checks a bracketed authority
  with `_check_bracketed_netloc`. CPython 3.12.0 to 3.12.8 checked only the text
  between the first '[' and the next ']'. Under those versions
  `http://x[::1]/start/minio` and `http://[::1]x/start/minio` are accepted and
  `http://[a@[::1]/start/minio` is refused, the opposite of what this model
  states. The receivers run on whatever `python3` is installed.
- Of `ipaddress`, only which strings are accepted is modelled, not the
  address values; an IPv4 suffix of an IPv6 address stands for two hextets.
- The exporter's `Content-Type` header is modelled. Its `log_message`
  override, the start-up print and the port binding are not.
- Gateway.DoPost: its own contract states only the bound on commands; each route's full reply is stated by the routing lemmas beside it.
- Gateway.Route: its own contract states the 404, which command can run and when; each route's full reply (status, headers, JSON body) is stated by the routing lemmas beside it.
- LegacyReceiver.DoPost: its own contract states the bound on commands and the three services it may start; each route's full reply is stated by the routing lemmas beside it.
