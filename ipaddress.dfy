/**
 * The part of Python's `ipaddress` module that `urllib.parse` consults when a
 * URL's authority holds a bracketed host (CPython 3.12.9 and later): which strings
 * `IPv4Address` and `IPv6Address` accept, and the IPvFuture pattern that
 * `_check_bracketed_host` applies to hosts beginning with 'v'.
 */
module IpAddress {
  import opened Wrappers
  import opened PyText

  predicate IsDecimalDigit(c: char) {
    '0' <= c <= '9'
  }

  /** The characters of `IPv6Address._HEX_DIGITS`. */
  predicate IsHexDigit(c: char) {
    '0' <= c <= '9' || 'a' <= c <= 'f' || 'A' <= c <= 'F'
  }

  /** `int(s, 10)` for a string of decimal digits. */
  function DecimalValue(s: string): nat
    requires forall k :: 0 <= k < |s| ==> IsDecimalDigit(s[k])
  {
    if s == [] then 0
    else
      assert IsDecimalDigit(s[|s| - 1]);
      10 * DecimalValue(s[..|s| - 1]) + (s[|s| - 1] as int - '0' as int)
  }

  /**
   * `IPv4Address._parse_octet` accepts `s`: one to three ASCII digits, no
   * leading zero unless the octet is "0", and a value of at most 255.
   */
  predicate IsOctet(s: string) {
    && s != []
    && (forall k :: 0 <= k < |s| ==> IsDecimalDigit(s[k]))
    && |s| <= 3
    && (|s| == 1 || s[0] != '0')
    && DecimalValue(s) <= 255
  }

  /** `IPv4Address(s)` succeeds: four octets separated by dots. */
  predicate IsIPv4Literal(s: string) {
    var octets := Split(s, ".");
    s != "" && |octets| == 4 && forall j :: 0 <= j < 4 ==> IsOctet(octets[j])
  }

  /** `IPv6Address._parse_hextet` accepts `s`: one to four hexadecimal digits (`int('', 16)` raises). */
  predicate IsHextet(s: string) {
    s != [] && |s| <= 4 && forall k :: 0 <= k < |s| ==> IsHexDigit(s[k])
  }

  /**
   * `IPv6Address._split_scope_id`: the address before the first '%', or None
   * when the zone after it is empty or holds another '%'.
   */
  function WithoutScope(s: string): (r: Option<string>)
    ensures r.Some? ==> StartsWith(s, r.value)
  {
    match Find(s, "%")
    case None => Some(s)
    case Some(i) =>
      if s[i + 1..] == "" || '%' in s[i + 1..] then None else Some(s[..i])
  }

  /** The `skip_index` loop: the first index in `[from, |parts| - 1)` that holds an empty part. */
  function EmptyInterior(parts: seq<string>, from: nat): (r: Option<nat>)
    ensures r.Some? ==> from <= r.value < |parts| - 1 && parts[r.value] == ""
    ensures r.None? ==> forall i :: from <= i < |parts| - 1 ==> parts[i] != ""
    decreases |parts| - from
  {
    if from + 1 >= |parts| then None
    else if parts[from] == "" then Some(from)
    else EmptyInterior(parts, from + 1)
  }

  /** Every part with an index in `[lo, hi)` is a hextet. */
  predicate HextetsIn(parts: seq<string>, lo: int, hi: int)
    requires 0 <= lo <= hi <= |parts|
  {
    forall i :: lo <= i < hi ==> IsHextet(parts[i])
  }

  /**
   * The checks `IPv6Address._ip_int_from_string` makes once an IPv4 suffix is
   * converted: at most nine parts and at most one "::".  With a "::", a leading
   * (trailing) empty part must belong to it, at least one hextet must be left
   * for it to stand for, and the parts before and after it are hextets.
   * Without one, there are eight hextets.
   */
  predicate IsHextetLayout(parts: seq<string>) {
    var n := |parts|;
    var skip := EmptyInterior(parts, 1);
    if n > 9 then false
    else if skip.None? then
      n == 8 && parts[0] != "" && parts[n - 1] != "" && HextetsIn(parts, 0, n)
    else
      var k := skip.value;
      var partsHi := if parts[0] == "" then k - 1 else k;
      var partsLo := if parts[n - 1] == "" then n - k - 2 else n - k - 1;
      && EmptyInterior(parts, k + 1).None?
      && (parts[0] == "" ==> partsHi == 0)
      && (parts[n - 1] == "" ==> partsLo == 0)
      && 8 - (partsHi + partsLo) >= 1
      && HextetsIn(parts, 0, partsHi) && HextetsIn(parts, n - partsLo, n)
  }

  /**
   * `IPv6Address(s)` succeeds.  A last part holding a '.' must be an IPv4
   * address and stands for two hextets; "0" stands in for each, as only their
   * number and their validity matter here.
   */
  predicate IsIPv6Literal(s: string) {
    match WithoutScope(s)
    case None => false
    case Some(address) =>
      var parts := Split(address, ":");
      && address != ""
      && |parts| >= 3
      && var last := parts[|parts| - 1];
         if '.' in last then IsIPv4Literal(last) && IsHextetLayout(parts[..|parts| - 1] + ["0", "0"])
         else IsHextetLayout(parts)
  }

  /** The number of hexadecimal digits `s` begins with. */
  function HexRun(s: string): (n: nat)
    ensures n <= |s| && (forall k :: 0 <= k < n ==> IsHexDigit(s[k])) && (n < |s| ==> !IsHexDigit(s[n]))
  {
    if s == [] || !IsHexDigit(s[0]) then 0 else 1 + HexRun(s[1..])
  }

  /** `re.match(r"\Av[a-fA-F0-9]+\..+\Z", s)` */
  predicate IsIPvFuture(s: string) {
    && |s| >= 1 && s[0] == 'v'
    && var k := 1 + HexRun(s[1..]);
       k >= 2 && k + 1 < |s| && s[k] == '.' && '\n' !in s[k + 1..]
  }

  /**
   * `_check_bracketed_host(s)` returns without raising: an IPvFuture literal
   * when `s` begins with 'v', otherwise an IPv6 address (`ip_address` tries
   * IPv4 first, and an IPv4 address in brackets is refused).
   */
  predicate IsBracketedHost(s: string) {
    if |s| >= 1 && s[0] == 'v' then IsIPvFuture(s)
    else !IsIPv4Literal(s) && IsIPv6Literal(s)
  }

  // ----- what the bracketed-host check admits -----

  /** A host with no ':' and no leading 'v' is refused: an IPv6 address has at least three parts. */
  lemma NoColonRefused(s: string)
    requires ':' !in s && (s == [] || s[0] != 'v')
    ensures !IsBracketedHost(s)
  {
    match WithoutScope(s)
    case None =>
    case Some(address) =>
      assert ':' !in address by {
        assert StartsWith(s, address);
        forall k | 0 <= k < |address| ensures address[k] != ':' {
          assert address[k] == s[k];
        }
      }
      SplitNoLead(address, ":");
  }

  /** An IPv4 address is refused in brackets. */
  lemma IPv4Refused(s: string)
    requires IsIPv4Literal(s)
    ensures !IsBracketedHost(s)
  {
    var first := Split(s, ".")[0];
    FirstPiece(s, ".");
    assert IsOctet(first);
    assert s[0] == first[0];
  }

  /** The loopback address `::1` is accepted. */
  lemma LoopbackAccepted(s: string)
    requires s == "::1"
    ensures IsBracketedHost(s)
  {
    SplitNoLead(s, ".");
    FindNoLead(s, "%");
    var parts := LoopbackParts(s);
    LoopbackLayout(parts);
    SplitNoLead(parts[2], ".");
  }

  lemma LoopbackParts(s: string) returns (parts: seq<string>)
    requires s == "::1"
    ensures Split(s, ":") == parts && parts == ["", "", "1"]
  {
    parts := ["", "", "1"];
    SplitAfterSeparator(s, ":");
    SplitAfterSeparator(s[1..], ":");
    SplitNoLead(s[2..], ":");
  }

  lemma LoopbackLayout(parts: seq<string>)
    requires parts == ["", "", "1"]
    ensures IsHextetLayout(parts)
  {
    assert EmptyInterior(parts, 1) == Some(1);
    assert EmptyInterior(parts, 2).None?;
    assert IsHextet(parts[2]);
  }
}
