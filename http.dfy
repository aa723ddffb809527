/**
 * What the two webhook receivers share with Python's standard library: the
 * request as `BaseHTTPRequestHandler` hands it over (method, request target,
 * headers, the body bytes read), the reply as a record instead of writes to the
 * socket, the subprocess as an oracle, `hmac.compare_digest`, and the path that
 * `urllib.parse.urlparse` extracts from a request target (CPython 3.12.9 and
 * later, where `urlsplit` checks a bracketed authority with `_check_bracketed_netloc`).
 */
module Http {
  import opened Wrappers
  import opened PyText
  import opened IpAddress

  newtype byte = x: int | 0 <= x < 256
  type Bytes = seq<byte>

  /** A header line as the server parsed it: name and value. */
  type Header = (string, string)

  /** The header that carries a GitHub webhook signature. */
  const SignatureHeader := "X-Hub-Signature-256"

  /** The content type both receivers send with a JSON body. */
  const JsonType: Header := ("Content-Type", "application/json")

  /** One inbound request: `verb` is the HTTP method; `body` is the bytes the handler reads from the socket. */
  datatype Request = Request(verb: string, target: string, headers: seq<Header>, body: Bytes)

  /** A JSON object as an ordered list of string members, plain text, an error page, or no body at all. */
  datatype Body =
    | NoBody
    | Json(members: seq<(string, string)>)
    | Text(content: string)
    | ErrorPage  // the HTML page `send_error` generates

  /**
   * What the client sees: a status line with the headers the handler sets and a
   * body, or nothing because an exception escaped the handler and the server
   * closed the connection.
   */
  datatype Reply =
    | Reply(status: int, headers: seq<Header>, body: Body)
    | Dropped(exception: string)

  /** How a subprocess ended: with an exit status, or with an exception (a timeout, a missing program). */
  datatype Exec =
    | Exited(code: int, stdout: string, stderr: string)
    | Raised(exception: string)

  /** The subprocess oracle: what running the given argument vector yields. */
  type Runner = seq<string> -> Exec

  /** `result.returncode == 0` */
  predicate Succeeded(e: Exec) {
    e.Exited? && e.code == 0
  }

  /** The reply to one request, with every argument vector that was given to the subprocess oracle, in order. */
  datatype Handled = Handled(reply: Reply, commands: seq<seq<string>>)

  /** Lower-case hexadecimal digits, as `hexdigest()` returns them. */
  predicate IsLowerHex(s: string) {
    forall k :: 0 <= k < |s| ==> ('0' <= s[k] <= '9' || 'a' <= s[k] <= 'f')
  }

  /** The 64-digit value of `hmac.new(key, msg, hashlib.sha256).hexdigest()`. */
  type HexDigest = s: string | |s| == 64 && IsLowerHex(s)
    witness seq(64, k => '0')

  /**
   * HMAC-SHA256 of a payload keyed with the UTF-8 encoding of the secret,
   * taken as given: the hash and the encoding are not part of this model.
   */
  type HexHmac = (string, Bytes) -> HexDigest

  predicate IsAscii(s: string) {
    forall k :: 0 <= k < |s| ==> s[k] < '\U{80}'
  }

  /**
   * `hmac.compare_digest(a, b)` on two `str` values: equality, except that
   * CPython raises TypeError when either holds a non-ASCII character.
   */
  function CompareDigest(a: string, b: string): (r: Result<bool>)
    ensures r.Ok? <==> IsAscii(a) && IsAscii(b)
    ensures r.Ok? ==> (r.value <==> a == b)
  {
    if IsAscii(a) && IsAscii(b) then Ok(a == b) else Err("TypeError")
  }

  /** The value a GitHub webhook carries in `X-Hub-Signature-256`: "sha256=" and the hex HMAC of the body. */
  function GitHubSignature(hmac: HexHmac, secret: string, payload: Bytes): (r: string)
    ensures IsAscii(r) && |r| == 71
  {
    var d := hmac(secret, payload);
    assert forall k :: 0 <= k < |d| ==> d[k] < '\U{80}';
    "sha256=" + d
  }

  /** ASCII lower-casing of one character. */
  function LowerChar(c: char): char {
    if 'A' <= c <= 'Z' then (c as int + 32) as char else c
  }

  function LowerAscii(s: string): (r: string)
    ensures |r| == |s| && forall k :: 0 <= k < |s| ==> r[k] == LowerChar(s[k])
  {
    seq(|s|, k requires 0 <= k < |s| => LowerChar(s[k]))
  }

  /** Header names compare without regard to case. */
  predicate SameName(a: string, b: string) {
    LowerAscii(a) == LowerAscii(b)
  }

  /**
   * `self.headers.get(name)`: the value of the first header whose name equals
   * `name` ignoring case, or None when there is none.
   */
  function GetHeader(headers: seq<Header>, name: string): (r: Option<string>)
    ensures r.None? <==> forall k :: 0 <= k < |headers| ==> !SameName(headers[k].0, name)
    decreases |headers|
  {
    if headers == [] then None
    else if SameName(headers[0].0, name) then Some(headers[0].1)
    else
      var r := GetHeader(headers[1..], name);
      assert forall k :: 1 <= k < |headers| ==> headers[k] == headers[1..][k - 1];
      r
  }

  /** The value found is that of the first matching header. */
  lemma {:induction false} GetHeaderFirst(headers: seq<Header>, name: string, k: nat)
    requires k < |headers| && SameName(headers[k].0, name)
    requires forall m :: 0 <= m < k ==> !SameName(headers[m].0, name)
    ensures GetHeader(headers, name) == Some(headers[k].1)
    decreases k
  {
    if k > 0 {
      GetHeaderFirst(headers[1..], name, k - 1);
    }
  }

  /** Lookup does not depend on the case in which the caller spells the name. */
  lemma {:induction false} GetHeaderIgnoresCase(headers: seq<Header>, a: string, b: string)
    requires SameName(a, b)
    ensures GetHeader(headers, a) == GetHeader(headers, b)
    decreases |headers|
  {
    if headers != [] {
      GetHeaderIgnoresCase(headers[1..], a, b);
    }
  }

  /** `str(n)` for a non-negative integer. */
  function NatToString(n: nat): (r: string)
    ensures r != [] && forall k :: 0 <= k < |r| ==> '0' <= r[k] <= '9'
  {
    if n < 10 then ["0123456789"[n]]
    else NatToString(n / 10) + ["0123456789"[n % 10]]
  }

  // ----- urllib.parse.urlparse(target).path -----

  /** C0 control characters and space, which `urlsplit` strips from the front. */
  predicate IsC0OrSpace(c: char) {
    c <= ' '
  }

  /** `urlsplit` deletes every tab, carriage return and line feed. */
  function RemoveUnsafe(s: string): (r: string)
    ensures forall k :: 0 <= k < |r| ==> r[k] != '\t' && r[k] != '\r' && r[k] != '\n'
  {
    if s == [] then []
    else (if s[0] in "\t\r\n" then [] else [s[0]]) + RemoveUnsafe(s[1..])
  }

  predicate IsAsciiLetter(c: char) {
    'a' <= c <= 'z' || 'A' <= c <= 'Z'
  }

  /** The characters `urllib.parse.scheme_chars` admits. */
  predicate IsSchemeChar(c: char) {
    IsAsciiLetter(c) || '0' <= c <= '9' || c == '+' || c == '-' || c == '.'
  }

  /** The schemes in `urllib.parse.uses_params`, the empty one included. */
  const UsesParams: set<string> := {"", "ftp", "hdl", "prospero", "http", "imap", "https", "shttp",
    "rtsp", "rtsps", "rtspu", "sip", "sips", "mms", "sftp", "tel"}

  /** The scheme step of `urlsplit`: the lower-cased scheme and the rest, or no scheme. */
  function SplitScheme(url: string): (string, string) {
    match Find(url, ":")
    case None => ("", url)
    case Some(i) =>
      if i > 0 && IsAsciiLetter(url[0]) && forall k :: 0 <= k < i ==> IsSchemeChar(url[k])
      then (LowerAscii(url[..i]), url[i + 1..])
      else ("", url)
  }

  /** The characters that end a URL's authority. */
  predicate IsDelimiter(c: char) {
    c == '/' || c == '?' || c == '#'
  }

  /** Index of the first '/', '?' or '#' in `s`, or `|s|` when there is none. */
  function DelimiterIndex(s: string): (n: nat)
    ensures n <= |s|
    ensures forall k :: 0 <= k < n ==> s[k] != '/' && s[k] != '?' && s[k] != '#'
    ensures n < |s| ==> s[n] == '/' || s[n] == '?' || s[n] == '#'
  {
    if s == [] || s[0] in "/?#" then 0 else 1 + DelimiterIndex(s[1..])
  }

  /** Index of the last occurrence of `c` in `s`. */
  function LastIndexOf(s: string, c: char): (r: Option<nat>)
    ensures r.Some? ==> r.value < |s| && s[r.value] == c && c !in s[r.value + 1..]
    ensures r.None? ==> c !in s
  {
    if s == [] then None
    else if s[|s| - 1] == c then Some(|s| - 1)
    else LastIndexOf(s[..|s| - 1], c)
  }

  /** The path part of `_splitparams(url)`: cut at the first ';' after the last '/'. */
  function PathBeforeParams(url: string): (r: string)
    ensures StartsWith(url, r)
  {
    match LastIndexOf(url, '/')
    case Some(j) =>
      (match Find(url[j..], ";")
       case Some(i) => url[..j + i]
       case None => url)
    case None =>
      (match Find(url, ";")
       case Some(i) => url[..i]
       case None => url)
  }

  /** `netloc.rpartition('@')[2]`: the host and port, after the last '@' if there is one. */
  function HostAndPort(netloc: string): (r: string)
    ensures '@' !in r
    ensures '@' !in netloc ==> r == netloc
  {
    match LastIndexOf(netloc, '@')
    case Some(j) => netloc[j + 1..]
    case None => netloc
  }

  /**
   * The host name that `_check_bracketed_netloc` hands to `_check_bracketed_host`:
   * in the host and port, the text between a '[' and the next ']', or, with no
   * '[' there, the text before the first ':'.  None when text comes before the
   * '[' or something other than a ':' port comes after the ']'.
   */
  function NetlocHostname(netloc: string): Option<string> {
    var hostAndPort := HostAndPort(netloc);
    var parts := Partition(hostAndPort, '[');
    if '[' !in hostAndPort then Some(Partition(hostAndPort, ':').0)
    else
      var inner := Partition(parts.1, ']');
      if parts.0 == [] && (inner.1 == [] || inner.1[0] == ':') then Some(inner.0) else None
  }

  /** `_check_bracketed_netloc` accepts the authority. */
  predicate BracketedNetlocOk(netloc: string) {
    NetlocHostname(netloc).Some? && IsBracketedHost(NetlocHostname(netloc).value)
  }

  /**
   * `_splitnetloc(url, 2)` when `url` begins with "//": the authority up to the
   * first '/', '?' or '#', and the rest; no authority otherwise.
   */
  function SplitAuthority(url: string): (string, string) {
    if StartsWith(url, "//") then (url[2..2 + DelimiterIndex(url[2..])], url[2 + DelimiterIndex(url[2..])..])
    else ("", url)
  }

  /**
   * `urlsplit` accepts the authority: '[' and ']' come together, and when they
   * are there the authority passes `_check_bracketed_netloc`.
   */
  predicate ValidAuthority(authority: string) {
    && ('[' in authority <==> ']' in authority)
    && ('[' in authority ==> BracketedNetlocOk(authority))
  }

  /**
   * `urlparse(target).path`, or the ValueError that `urlsplit` raises for an
   * authority with an unbalanced '[' or ']', with text around its brackets other
   * than user information before them and a port after them, or with a bracketed
   * host that is neither an IPv6 address nor an IPvFuture literal.
   */
  function UrlPath(target: string): Result<string> {
    var url := RemoveUnsafe(TrimLeft(target, IsC0OrSpace));
    var (scheme, rest) := SplitScheme(url);
    var (authority, rest') := SplitAuthority(rest);
    if !ValidAuthority(authority) then Err("ValueError")
    else Ok(PathPart(scheme, rest'))
  }

  /** What is left of a URL's path and everything after it once the fragment, the query and any parameters are cut off. */
  function PathPart(scheme: string, rest: string): string {
    var withoutQuery := Split(Split(rest, "#")[0], "?")[0];
    if scheme in UsesParams && ';' in withoutQuery then PathBeforeParams(withoutQuery) else withoutQuery
  }

  /** A character that is absent gives no one-character occurrence. */
  lemma FindAbsent(s: string, c: char)
    requires c !in s
    ensures Find(s, [c]).None?
  {
    if Find(s, [c]).Some? {
      OccursOneChar(s, c, Find(s, [c]).value);
    }
  }

  /** A path never keeps a query string or a fragment. */
  lemma UrlPathDropsQueryAndFragment(target: string)
    requires UrlPath(target).Ok?
    ensures '?' !in UrlPath(target).value && '#' !in UrlPath(target).value
  {
    var url := RemoveUnsafe(TrimLeft(target, IsC0OrSpace));
    var (scheme, rest) := SplitScheme(url);
    var rest' := SplitAuthority(rest).1;
    assert UrlPath(target).value == PathPart(scheme, rest');
    PathPartDropsQueryAndFragment(scheme, rest');
  }

  lemma PathPartDropsQueryAndFragment(scheme: string, rest: string)
    ensures '?' !in PathPart(scheme, rest) && '#' !in PathPart(scheme, rest)
  {
    var noFragment := Split(rest, "#")[0];
    var noQuery := Split(noFragment, "?")[0];
    FirstPiece(rest, "#");
    FirstPiece(noFragment, "?");
    NoCharInPiece(noFragment, '#');
    NoCharInPiece(noQuery, '?');
    assert StartsWith(noFragment, noQuery);
    NoCharInPrefix(noFragment, noQuery, '#');
    var path := PathPart(scheme, rest);
    assert path == noQuery || path == PathBeforeParams(noQuery);
    NoCharInPrefix(noQuery, path, '#');
    NoCharInPrefix(noQuery, path, '?');
  }

  /** A string in which `[c]` does not occur does not contain `c`. */
  lemma NoCharInPiece(s: string, c: char)
    requires Find(s, [c]).None?
    ensures c !in s
  {
    if c in s {
      var k :| 0 <= k < |s| && s[k] == c;
      OccursOneChar(s, c, k);
    }
  }

  /** A prefix has no character its string lacks. */
  lemma NoCharInPrefix(s: string, p: string, c: char)
    requires StartsWith(s, p) && c !in s
    ensures c !in p
  {
  }

  /**
   * For a request target in origin form with no query, fragment or parameters
   * (it begins with one '/', holds no '?', '#' or ';' and no control character
   * or space), the path is the target itself.
   */
  lemma UrlPathOfPlainPath(target: string)
    requires |target| >= 1 && target[0] == '/' && !StartsWith(target, "//")
    requires forall k :: 0 <= k < |target| ==> target[k] > ' ' && target[k] != '?' && target[k] != '#' && target[k] != ';'
    ensures UrlPath(target) == Ok(target)
  {
    assert !IsC0OrSpace(target[0]);
    assert TrimLeft(target, IsC0OrSpace) == target;
    RemoveUnsafeKeeps(target);
    SchemelessUrl(target);
    assert '#' !in target && '?' !in target && ';' !in target;
    UrlPathOfSchemeless(target, target);
  }

  /** A URL that begins with a slash has no scheme. */
  lemma SchemelessUrl(url: string)
    requires |url| >= 1 && url[0] == '/'
    ensures SplitScheme(url) == ("", url)
  {
  }

  /** The path of a target that cleans up to a schemeless, authority-less URL without '?', '#' or ';' is that URL. */
  lemma UrlPathOfSchemeless(target: string, url: string)
    requires RemoveUnsafe(TrimLeft(target, IsC0OrSpace)) == url
    requires SplitScheme(url) == ("", url) && !StartsWith(url, "//")
    requires '#' !in url && '?' !in url && ';' !in url
    ensures UrlPath(target) == Ok(url)
  {
    assert SplitAuthority(url) == ("", url);
    PathPartOfPlain("", url);
    UrlPathAccepts(target, url, "", url, "", url);
  }

  /** A URL without '#', '?' or ';' is its own path part, whatever the scheme. */
  lemma PathPartOfPlain(scheme: string, url: string)
    requires '#' !in url && '?' !in url && ';' !in url
    ensures PathPart(scheme, url) == url
  {
    SplitAbsent(url, '#');
    assert Split(url, "#")[0] == url;
    SplitAbsent(url, '?');
    assert Split(Split(url, "#")[0], "?")[0] == url;
  }

  /** The steps of `urlsplit`, taken one at a time, give the path of an accepted authority. */
  lemma UrlPathAccepts(target: string, url: string, scheme: string, rest: string, authority: string, rest': string)
    requires RemoveUnsafe(TrimLeft(target, IsC0OrSpace)) == url
    requires SplitScheme(url) == (scheme, rest) && SplitAuthority(rest) == (authority, rest')
    requires ValidAuthority(authority)
    ensures UrlPath(target) == Ok(PathPart(scheme, rest'))
  {
  }

  /**
   * A target whose authority brackets a host with no ':', no '@' and no leading
   * 'v', such as `http://[abc]/start/minio` or `//[abc]/x`, makes `urlsplit`
   * raise ValueError: the bracketed host is neither an IPv6 address nor IPvFuture.
   */
  lemma UnbracketableHostRefused(target: string, scheme: string, host: string, path: string)
    requires target == (if scheme == "" then "" else scheme + ":") + ("//[" + host + "]" + path)
    requires forall k :: 0 <= k < |scheme| ==> IsAsciiLetter(scheme[k])
    requires forall k :: 0 <= k < |target| ==> target[k] > ' '
    requires forall k :: 0 <= k < |host| ==> host[k] != ':' && host[k] != '@' && host[k] != '[' && host[k] != ']' && !IsDelimiter(host[k])
    requires host == [] || host[0] != 'v'
    requires path == [] || IsDelimiter(path[0])
    ensures UrlPath(target) == Err("ValueError")
  {
    var rest := "//[" + host + "]" + path;
    var authority := "[" + host + "]";
    CleanTarget(target);
    SchemeRest(target, scheme, rest);
    AuthorityOfBracketed(rest, host, path);
    BracketedAuthorityRefused(host);
    UrlPathRefusesAuthority(target, target, rest, authority);
  }

  /** So `http://[abc]/start/minio` makes `urlsplit` raise ValueError. */
  lemma AbcTargetRefused(target: string)
    requires target == "http://[abc]/start/minio"
    ensures UrlPath(target) == Err("ValueError")
  {
    var scheme, host, path := AbcTargetParts(target);
    UnbracketableHostRefused(target, scheme, host, path);
  }

  /** `http://[abc]/start/minio` takes the shape that `urlsplit` refuses. */
  lemma AbcTargetParts(target: string) returns (scheme: string, host: string, path: string)
    requires target == "http://[abc]/start/minio"
    ensures scheme != ""
    ensures target == (if scheme == "" then "" else scheme + ":") + ("//[" + host + "]" + path)
    ensures forall k :: 0 <= k < |scheme| ==> IsAsciiLetter(scheme[k])
    ensures forall k :: 0 <= k < |target| ==> target[k] > ' '
    ensures forall k :: 0 <= k < |host| ==> host[k] != ':' && host[k] != '@' && host[k] != '[' && host[k] != ']' && !IsDelimiter(host[k])
    ensures host == [] || host[0] != 'v'
    ensures path == [] || IsDelimiter(path[0])
  {
    scheme, host, path := "http", "abc", "/start/minio";
    assert target == scheme + ":" + ("//[" + host + "]" + path);
  }

  /** An authority `[host]` whose host has no ':', no '@', no bracket and no leading 'v' is refused. */
  lemma BracketedAuthorityRefused(host: string)
    requires ':' !in host && '@' !in host && '[' !in host && ']' !in host
    requires host == [] || host[0] != 'v'
    ensures !ValidAuthority("[" + host + "]")
  {
    var authority := "[" + host + "]";
    assert authority[0] == '[';
    BracketedNetlocOf(host);
    IpAddress.NoColonRefused(host);
  }

  /**
   * The steps of `urlsplit` on an optional scheme of letters, then `//authority`
   * and a path: ValueError when the authority is refused, and otherwise the path
   * part of what follows the authority.
   */
  lemma UrlPathOfAuthority(target: string, scheme: string, authority: string, path: string)
    requires target == (if scheme == "" then "" else scheme + ":") + ("//" + authority + path)
    requires forall k :: 0 <= k < |scheme| ==> IsAsciiLetter(scheme[k])
    requires forall k :: 0 <= k < |target| ==> target[k] > ' '
    requires forall k :: 0 <= k < |authority| ==> !IsDelimiter(authority[k])
    requires path == [] || IsDelimiter(path[0])
    ensures UrlPath(target) == if ValidAuthority(authority) then Ok(PathPart(LowerAscii(scheme), path)) else Err("ValueError")
  {
    var rest := "//" + authority + path;
    CleanTarget(target);
    SchemeRest(target, scheme, rest);
    AuthorityOf(rest, authority, path);
    if ValidAuthority(authority) {
      UrlPathAccepts(target, target, LowerAscii(scheme), rest, authority, path);
    } else {
      UrlPathRefusesAuthority(target, target, rest, authority);
    }
  }

  /** Text before the '[' of the host and port makes `urlsplit` raise ValueError. */
  lemma TextBeforeBracketRefused(target: string, scheme: string, text: string, rest: string, path: string)
    requires target == (if scheme == "" then "" else scheme + ":") + ("//" + (text + ['['] + rest) + path)
    requires forall k :: 0 <= k < |scheme| ==> IsAsciiLetter(scheme[k])
    requires forall k :: 0 <= k < |target| ==> target[k] > ' '
    requires forall k :: 0 <= k < |text + ['['] + rest| ==> !IsDelimiter((text + ['['] + rest)[k])
    requires path == [] || IsDelimiter(path[0])
    requires text != [] && '[' !in text && '@' !in text && '@' !in rest
    ensures UrlPath(target) == Err("ValueError")
  {
    var authority := text + ['['] + rest;
    UrlPathOfAuthority(target, scheme, authority, path);
    HostnameAfterText(text, rest);
    assert authority[|text|] == '[';
  }

  /** So POST `http://x[::1]/start/minio` is refused. */
  lemma TextBeforeLoopbackRefused(target: string)
    requires target == "http://x[::1]/start/minio"
    ensures UrlPath(target) == Err("ValueError")
  {
    var scheme, text, rest, path := TextBeforeBracketParts(target);
    TextBeforeBracketRefused(target, scheme, text, rest, path);
  }

  lemma TextBeforeBracketParts(target: string) returns (scheme: string, text: string, rest: string, path: string)
    requires target == "http://x[::1]/start/minio"
    ensures target == (if scheme == "" then "" else scheme + ":") + ("//" + (text + ['['] + rest) + path)
    ensures forall k :: 0 <= k < |scheme| ==> IsAsciiLetter(scheme[k])
    ensures forall k :: 0 <= k < |target| ==> target[k] > ' '
    ensures forall k :: 0 <= k < |text + ['['] + rest| ==> !IsDelimiter((text + ['['] + rest)[k])
    ensures path == [] || IsDelimiter(path[0])
    ensures text != [] && '[' !in text && '@' !in text && '@' !in rest
  {
    scheme, text, rest, path := "http", "x", "::1]", "/start/minio";
    assert text + ['['] + rest == "x[::1]";
  }

  /** Text after the ']' that is not a ':' port makes `urlsplit` raise ValueError. */
  lemma TextAfterBracketRefused(target: string, scheme: string, host: string, port: string, path: string)
    requires target == (if scheme == "" then "" else scheme + ":") + ("//" + ("[" + host + "]" + port) + path)
    requires forall k :: 0 <= k < |scheme| ==> IsAsciiLetter(scheme[k])
    requires forall k :: 0 <= k < |target| ==> target[k] > ' '
    requires forall k :: 0 <= k < |"[" + host + "]" + port| ==> !IsDelimiter(("[" + host + "]" + port)[k])
    requires path == [] || IsDelimiter(path[0])
    requires '@' !in host && '@' !in port && '[' !in host && ']' !in host
    requires port != [] && port[0] != ':'
    ensures UrlPath(target) == Err("ValueError")
  {
    var authority := "[" + host + "]" + port;
    UrlPathOfAuthority(target, scheme, authority, path);
    HostnameOfBracketed(host, port);
    assert authority[0] == '[';
  }

  /** So POST `http://[::1]x/start/minio` is refused. */
  lemma TextAfterLoopbackRefused(target: string)
    requires target == "http://[::1]x/start/minio"
    ensures UrlPath(target) == Err("ValueError")
  {
    var scheme, host, port, path := TextAfterBracketParts(target);
    TextAfterBracketRefused(target, scheme, host, port, path);
  }

  lemma TextAfterBracketParts(target: string) returns (scheme: string, host: string, port: string, path: string)
    requires target == "http://[::1]x/start/minio"
    ensures target == (if scheme == "" then "" else scheme + ":") + ("//" + ("[" + host + "]" + port) + path)
    ensures forall k :: 0 <= k < |scheme| ==> IsAsciiLetter(scheme[k])
    ensures forall k :: 0 <= k < |target| ==> target[k] > ' '
    ensures forall k :: 0 <= k < |"[" + host + "]" + port| ==> !IsDelimiter(("[" + host + "]" + port)[k])
    ensures path == [] || IsDelimiter(path[0])
    ensures '@' !in host && '@' !in port && '[' !in host && ']' !in host
    ensures port != [] && port[0] != ':'
  {
    scheme, host, port, path := "http", "::1", "x", "/start/minio";
    assert "[" + host + "]" + port == "[::1]x";
  }

  /**
   * Only the text after the last '@' is checked: user information before a
   * bracketed host that passes `_check_bracketed_host` is accepted.
   */
  lemma UserInfoBeforeBracketAccepted(target: string, scheme: string, user: string, host: string, path: string)
    requires target == (if scheme == "" then "" else scheme + ":") + ("//" + (user + ['@'] + ("[" + host + "]")) + path)
    requires forall k :: 0 <= k < |scheme| ==> IsAsciiLetter(scheme[k])
    requires forall k :: 0 <= k < |target| ==> target[k] > ' '
    requires forall k :: 0 <= k < |user + ['@'] + ("[" + host + "]")| ==> !IsDelimiter((user + ['@'] + ("[" + host + "]"))[k])
    requires path == [] || IsDelimiter(path[0])
    requires '@' !in host && '[' !in host && ']' !in host && IsBracketedHost(host)
    ensures UrlPath(target) == Ok(PathPart(LowerAscii(scheme), path))
  {
    var authority := user + ['@'] + ("[" + host + "]");
    UrlPathOfAuthority(target, scheme, authority, path);
    AuthorityAfterUserInfo(user, host);
  }

  /** User information, an '@' and a bracketed host that passes `_check_bracketed_host` make an accepted authority. */
  lemma AuthorityAfterUserInfo(user: string, host: string)
    requires '@' !in host && '[' !in host && ']' !in host && IsBracketedHost(host)
    ensures ValidAuthority(user + ['@'] + ("[" + host + "]"))
  {
    var authority := user + ['@'] + ("[" + host + "]");
    HostnameAfterUserInfo(user, host);
    assert authority[|authority| - 1] == ']' && authority[|user| + 1] == '[';
  }

  /** So POST `http://[a@[::1]/start/minio` is accepted, with the path `/start/minio`. */
  lemma UserInfoLoopbackAccepted(target: string)
    requires target == "http://[a@[::1]/start/minio"
    ensures UrlPath(target) == Ok("/start/minio")
  {
    var scheme, user, host, path := UserInfoParts(target);
    IpAddress.LoopbackAccepted(host);
    UserInfoBeforeBracketAccepted(target, scheme, user, host, path);
    PathPartOfPlain(LowerAscii(scheme), path);
  }

  lemma UserInfoParts(target: string) returns (scheme: string, user: string, host: string, path: string)
    requires target == "http://[a@[::1]/start/minio"
    ensures target == (if scheme == "" then "" else scheme + ":") + ("//" + (user + ['@'] + ("[" + host + "]")) + path)
    ensures forall k :: 0 <= k < |scheme| ==> IsAsciiLetter(scheme[k])
    ensures forall k :: 0 <= k < |target| ==> target[k] > ' '
    ensures forall k :: 0 <= k < |user + ['@'] + ("[" + host + "]")| ==> !IsDelimiter((user + ['@'] + ("[" + host + "]"))[k])
    ensures path == "/start/minio" && '#' !in path && '?' !in path && ';' !in path
    ensures user == "[a" && host == "::1"
  {
    scheme, user, host, path := "http", "[a", "::1", "/start/minio";
    assert user + ['@'] + ("[" + host + "]") == "[a@[::1]";
  }

  /** A target without control characters or spaces is left as it is by the clean-up steps of `urlsplit`. */
  lemma CleanTarget(target: string)
    requires forall k :: 0 <= k < |target| ==> target[k] > ' '
    ensures RemoveUnsafe(TrimLeft(target, IsC0OrSpace)) == target
  {
    if target != [] {
      assert !IsC0OrSpace(target[0]);
    }
    assert TrimLeft(target, IsC0OrSpace) == target;
    RemoveUnsafeKeeps(target);
  }

  /** `urlsplit` raises ValueError when the authority after the scheme is refused. */
  lemma UrlPathRefusesAuthority(target: string, url: string, rest: string, authority: string)
    requires RemoveUnsafe(TrimLeft(target, IsC0OrSpace)) == url
    requires SplitScheme(url).1 == rest && SplitAuthority(rest).0 == authority
    requires !ValidAuthority(authority)
    ensures UrlPath(target) == Err("ValueError")
  {
  }

  /** What follows an optional scheme of letters and its ':' is the rest when the rest begins with '/'. */
  lemma SchemeRest(url: string, scheme: string, rest: string)
    requires url == (if scheme == "" then "" else scheme + ":") + rest
    requires forall k :: 0 <= k < |scheme| ==> IsAsciiLetter(scheme[k])
    requires rest != [] && rest[0] == '/'
    ensures SplitScheme(url) == (LowerAscii(scheme), rest)
  {
    if scheme == "" {
      assert url == rest;
      SchemelessUrl(url);
    } else {
      assert url == scheme + ":" + rest;
      SchemeOfAbsolute(scheme, rest);
    }
  }

  /** A scheme of letters followed by ':' is split off there, whatever follows. */
  lemma SchemeOfAbsolute(scheme: string, rest: string)
    requires scheme != [] && forall k :: 0 <= k < |scheme| ==> IsAsciiLetter(scheme[k])
    ensures SplitScheme(scheme + ":" + rest) == (LowerAscii(scheme), rest)
  {
    var url := scheme + ":" + rest;
    OccursOneChar(url, ':', |scheme|);
    forall k | 0 <= k < |scheme|
      ensures !OccursAt(url, ":", k)
    {
      OccursOneChar(url, ':', k);
    }
    assert Find(url, ":") == Some(|scheme|);
    assert url[..|scheme|] == scheme && url[|scheme| + 1..] == rest;
  }

  /** The authority of `//authority path` is that authority when it holds no delimiter and the path begins with one. */
  lemma AuthorityOf(rest: string, authority: string, path: string)
    requires rest == "//" + authority + path
    requires forall k :: 0 <= k < |authority| ==> !IsDelimiter(authority[k])
    requires path == [] || IsDelimiter(path[0])
    ensures SplitAuthority(rest) == (authority, path)
  {
    assert StartsWith(rest, "//");
    var tail := rest[2..];
    assert tail == authority + path;
    var n := DelimiterIndex(tail);
    assert forall k :: 0 <= k < |authority| ==> !IsDelimiter(tail[k]);
    if path != [] {
      assert tail[|authority|] == path[0];
    }
    assert n == |authority|;
    assert rest[2..2 + n] == authority && rest[2 + n..] == path;
  }

  /** The authority of `//[host]path` is `[host]` when the host holds no delimiter and the path begins with one. */
  lemma AuthorityOfBracketed(rest: string, host: string, path: string)
    requires rest == "//[" + host + "]" + path
    requires forall k :: 0 <= k < |host| ==> !IsDelimiter(host[k])
    requires path == [] || IsDelimiter(path[0])
    ensures SplitAuthority(rest).0 == "[" + host + "]"
  {
    assert StartsWith(rest, "//");
    var tail := rest[2..];
    assert tail == "[" + host + "]" + path;
    var n := DelimiterIndex(tail);
    assert forall k :: 0 <= k < |host| + 2 ==> !IsDelimiter(tail[k]);
    if path != [] {
      assert tail[|host| + 2] == path[0];
    }
    assert n == |host| + 2;
    assert rest[2..2 + n] == "[" + host + "]";
  }

  /** The host and port of `userinfo@rest`, when `rest` has no '@', is `rest`. */
  lemma HostAndPortAfterAt(user: string, rest: string)
    requires '@' !in rest
    ensures HostAndPort(user + ['@'] + rest) == rest
  {
    var netloc := user + ['@'] + rest;
    assert netloc[|user|] == '@';
    var j := LastIndexOf(netloc, '@').value;
    assert j == |user|;
    assert netloc[|user| + 1..] == rest;
  }

  /** With no '@' and no '[' , `[host]port` names `host` when the port is empty or starts with ':', and nothing otherwise. */
  lemma HostnameOfBracketed(host: string, port: string)
    requires '@' !in host && '@' !in port && '[' !in host && ']' !in host
    ensures NetlocHostname("[" + host + "]" + port) == if port == [] || port[0] == ':' then Some(host) else None
  {
    var netloc := "[" + host + "]" + port;
    assert '@' !in netloc;
    assert netloc[0] == '[';
    assert netloc == [] + ['['] + (host + [']'] + port);
    PartitionAt([], '[', host + [']'] + port);
    PartitionAt(host, ']', port);
  }

  /** With no '@' and text before the first '[', no host name is handed on. */
  lemma HostnameAfterText(text: string, rest: string)
    requires text != [] && '[' !in text && '@' !in text && '@' !in rest
    ensures NetlocHostname(text + ['['] + rest) == None
  {
    var netloc := text + ['['] + rest;
    assert '@' !in netloc;
    assert netloc[|text|] == '[';
    PartitionAt(text, '[', rest);
  }

  /** After user information, `[host]` names `host`: only the text after the last '@' counts. */
  lemma HostnameAfterUserInfo(user: string, host: string)
    requires '@' !in host && '[' !in host && ']' !in host
    ensures NetlocHostname(user + ['@'] + ("[" + host + "]")) == Some(host)
  {
    HostAndPortAfterAt(user, "[" + host + "]");
    HostnameOfBracketed(host, []);
    assert "[" + host + "]" + [] == "[" + host + "]";
  }

  /** `[host]`, with no '@' and no bracket in the host, passes `_check_bracketed_netloc` exactly when the host passes `_check_bracketed_host`. */
  lemma BracketedNetlocOf(host: string)
    requires '@' !in host && '[' !in host && ']' !in host
    ensures BracketedNetlocOk("[" + host + "]") <==> IsBracketedHost(host)
  {
    HostnameOfBracketed(host, []);
    assert "[" + host + "]" + [] == "[" + host + "]";
  }

  /** Splitting on a character that does not occur gives the whole string as the only piece. */
  lemma SplitAbsent(s: string, c: char)
    requires c !in s
    ensures Split(s, [c]) == [s]
  {
    FindAbsent(s, c);
  }

  /** Without tabs, carriage returns or line feeds there is nothing to remove. */
  lemma {:induction false} RemoveUnsafeKeeps(s: string)
    requires forall k :: 0 <= k < |s| ==> s[k] > ' '
    ensures RemoveUnsafe(s) == s
  {
    if s != [] {
      RemoveUnsafeKeeps(s[1..]);
      assert s == [s[0]] + s[1..];
    }
  }
}
