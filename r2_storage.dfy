/**
 * Object-storage helpers of the translation worker: the SSRF guard on source URLs,
 * the three-step download fallback, and the public URL of an uploaded artifact.
 * The network, the S3 client and the configuration are parameters.
 */
module R2Storage {
  import opened Wrappers
  import opened Py
  import opened Exceptions

  // ================================================================ IPv4 addresses

  /** An IPv4 network given by its network address and prefix length. */
  datatype Network = Network(base: bv32, prefixLen: nat)

  /** The netmask of a prefix length: `prefixLen` leading one bits. */
  function Mask(prefixLen: nat): bv32
    requires prefixLen <= 32
  {
    if prefixLen == 0 then 0 else 0xFFFF_FFFF << (32 - prefixLen) as bv5
  }

  /** `ip in network`: the address agrees with the network address on the prefix. */
  predicate InNetwork(ip: bv32, net: Network)
    requires net.prefixLen <= 32
  {
    ip & Mask(net.prefixLen) == net.base & Mask(net.prefixLen)
  }

  /** The dotted quad `a.b.c.d` as a 32-bit value (`int.from_bytes(..., 'big')`). */
  function Quad(a: nat, b: nat, c: nat, d: nat): bv32
    requires a < 256 && b < 256 && c < 256 && d < 256
  {
    (a as bv32 << 24) | (b as bv32 << 16) | (c as bv32 << 8) | d as bv32
  }

  /** `INTERNAL_IP_RANGES`: private, loopback, link-local (cloud metadata),
      multicast and reserved IPv4 space. */
  const InternalRanges: seq<Network> := [
    Network(Quad(10, 0, 0, 0), 8),
    Network(Quad(172, 16, 0, 0), 12),
    Network(Quad(192, 168, 0, 0), 16),
    Network(Quad(127, 0, 0, 0), 8),
    Network(Quad(169, 254, 0, 0), 16),
    Network(Quad(224, 0, 0, 0), 4),
    Network(Quad(240, 0, 0, 0), 4)
  ]

  predicate WellFormedRanges(ranges: seq<Network>) {
    forall k :: 0 <= k < |ranges| ==> ranges[k].prefixLen <= 32
  }

  /** The loop of `_is_internal_ip`: does some range, scanned in order, contain `ip`? */
  function AnyRangeContains(ranges: seq<Network>, ip: bv32): (r: bool)
    requires WellFormedRanges(ranges)
    ensures r <==> exists k :: 0 <= k < |ranges| && InNetwork(ip, ranges[k])
  {
    if ranges == [] then false
    else if InNetwork(ip, ranges[0]) then true
    else
      assert forall k :: 1 <= k < |ranges| ==> ranges[k] == ranges[1..][k - 1];
      AnyRangeContains(ranges[1..], ip)
  }

  predicate IsInternalAddress(ip: bv32) {
    AnyRangeContains(InternalRanges, ip)
  }

  /** One octet of `IPv4Address`'s strict parser: 1-3 ASCII digits, no leading zero,
      at most 255. */
  function ParseOctet(t: string): (r: Option<nat>)
    ensures r.Some? ==> r.value < 256
  {
    if t == [] then None
    else if !(forall i :: 0 <= i < |t| ==> IsDigit(t[i])) then None
    else if |t| > 3 then None
    else if t != "0" && t[0] == '0' then None
    else if DecimalValue(t) > 255 then None
    else Some(DecimalValue(t))
  }

  /** The IPv4 half of `ipaddress.ip_address(s)`: exactly four dot-separated octets.
      Only the canonical spelling of an address is accepted. */
  function ParseIPv4(s: string): (r: Option<bv32>)
    ensures r.Some? ==> exists a, b, c, d :: a < 256 && b < 256 && c < 256 && d < 256
                          && s == FormatQuad(a, b, c, d) && r.value == Quad(a, b, c, d)
  {
    var parts := Split(s, '.');
    if |parts| != 4 then None
    else match (ParseOctet(parts[0]), ParseOctet(parts[1]), ParseOctet(parts[2]), ParseOctet(parts[3]))
      case (Some(a), Some(b), Some(c), Some(d)) =>
        OctetCanonical(parts[0], a); OctetCanonical(parts[1], b);
        OctetCanonical(parts[2], c); OctetCanonical(parts[3], d);
        JoinFour(parts);
        assert s == FormatQuad(a, b, c, d);
        Some(Quad(a, b, c, d))
      case _ => None
  }

  /** An octet the parser accepts is spelled as `str` spells its value. */
  lemma {:induction false} OctetCanonical(t: string, v: nat)
    requires ParseOctet(t) == Some(v)
    ensures t == NatToString(v)
  {
    NumeralCanonical(t);
  }

  lemma {:induction false} JoinFour(parts: seq<string>)
    requires |parts| == 4
    ensures Join(parts, '.') == parts[0] + "." + parts[1] + "." + parts[2] + "." + parts[3]
  {
    assert parts[1..][1..] == parts[2..];
    assert parts[2..][1..] == parts[3..];
    var tail2 := parts[2] + "." + parts[3];
    assert Join(parts[2..], '.') == tail2;
    var tail1 := parts[1] + "." + tail2;
    assert Join(parts[1..], '.') == tail1;
    assert parts[0] + "." + tail1 == parts[0] + "." + parts[1] + "." + parts[2] + "." + parts[3];
  }

  /** `str(IPv4Address(...))`: the canonical dotted-quad spelling. */
  function FormatQuad(a: nat, b: nat, c: nat, d: nat): string {
    NatToString(a) + "." + NatToString(b) + "." + NatToString(c) + "." + NatToString(d)
  }

  /** `_is_internal_ip(ip_str)`. A string that is not an IPv4 address is never internal:
      an IPv6 address is never inside an IPv4 network, and an unparseable string
      makes the parser raise, which the function turns into `False`. */
  function IsInternalIp(ipStr: string): (r: bool)
    ensures r ==> exists a, b, c, d :: a < 256 && b < 256 && c < 256 && d < 256
                    && ipStr == FormatQuad(a, b, c, d) && IsInternalAddress(Quad(a, b, c, d))
  {
    match ParseIPv4(ipStr)
    case Some(ip) => IsInternalAddress(ip)
    case None => false
  }

  lemma {:induction false} OctetRoundTrip(n: nat)
    requires n < 256
    ensures ParseOctet(NatToString(n)) == Some(n)
    ensures '.' !in NatToString(n)
  {
    assert !IsDigit('.');
  }

  lemma {:induction false} SplitQuad(a: nat, b: nat, c: nat, d: nat)
    requires a < 256 && b < 256 && c < 256 && d < 256
    ensures Split(FormatQuad(a, b, c, d), '.') == [NatToString(a), NatToString(b), NatToString(c), NatToString(d)]
  {
    OctetRoundTrip(a); OctetRoundTrip(b); OctetRoundTrip(c); OctetRoundTrip(d);
    SplitFour(NatToString(a), NatToString(b), NatToString(c), NatToString(d));
  }

  lemma {:induction false} SplitFour(sa: string, sb: string, sc: string, sd: string)
    requires '.' !in sa && '.' !in sb && '.' !in sc && '.' !in sd
    ensures Split(sa + "." + sb + "." + sc + "." + sd, '.') == [sa, sb, sc, sd]
  {
    var tail2 := sc + ['.'] + sd;
    var tail1 := sb + ['.'] + tail2;
    assert sa + "." + sb + "." + sc + "." + sd == sa + ['.'] + tail1;
    SplitPrefix(sc, sd, '.');
    SplitPrefix(sb, tail2, '.');
    SplitPrefix(sa, tail1, '.');
  }

  /** Parsing the canonical spelling of an address gives the address back. */
  lemma {:induction false} ParseFormatRoundTrip(a: nat, b: nat, c: nat, d: nat)
    requires a < 256 && b < 256 && c < 256 && d < 256
    ensures ParseIPv4(FormatQuad(a, b, c, d)) == Some(Quad(a, b, c, d))
  {
    SplitQuad(a, b, c, d);
    OctetRoundTrip(a); OctetRoundTrip(b); OctetRoundTrip(c); OctetRoundTrip(d);
  }

  /** The canonical spelling of an address is flagged exactly when the address is
      in one of the internal ranges. */
  lemma {:induction false} InternalQuadSpelling(a: nat, b: nat, c: nat, d: nat)
    requires a < 256 && b < 256 && c < 256 && d < 256
    ensures IsInternalIp(FormatQuad(a, b, c, d)) <==> IsInternalAddress(Quad(a, b, c, d))
  {
    ParseFormatRoundTrip(a, b, c, d);
  }

  // ================================================================ URL host names

  /** What `urlparse(url).hostname` gives: a host, none, or a `ValueError`. */
  datatype HostLookup = Host(name: string) | NoHost | InvalidUrl

  predicate IsSchemeChar(c: char) {
    IsAsciiAlpha(c) || IsDigit(c) || c == '+' || c == '-' || c == '.'
  }

  predicate IsNetlocEnd(c: char) { c == '/' || c == '?' || c == '#' }

  predicate IsColon(c: char) { c == ':' }

  /** `urlsplit`'s scheme split: a leading run of scheme characters that starts with
      an ASCII letter and ends at the first ':' is removed with that ':'. */
  function AfterScheme(url: string): string {
    var i := FindFirst(url, IsColon);
    if 0 < i < |url| && IsAsciiAlpha(url[0]) && forall j :: 0 <= j < i ==> IsSchemeChar(url[j])
    then url[i + 1..]
    else url
  }

  /** `SplitResult.hostname` from a network location: drop user info, take the
      bracketed part or the part before ':', lower-case it up to any '%' zone. */
  function HostOfNetloc(netloc: string): Option<string> {
    var hostinfo := RPartition(netloc, '@').tail;
    var bracket := Partition(hostinfo, '[');
    var hostname := if bracket.found then Partition(bracket.tail, ']').head
                    else Partition(hostinfo, ':').head;
    if hostname == [] then None
    else
      var zone := Partition(hostname, '%');
      Some(Lower(zone.head) + (if zone.found then "%" else "") + zone.tail)
  }

  /** `_splitnetloc(url, 2)`: what follows "//" up to the first '/', '?' or '#'. */
  function Netloc(rest: string): string
    requires StartsWith(rest, "//")
  {
    rest[2..2 + FindFirst(rest[2..], IsNetlocEnd)]
  }

  /** `urlparse(url).hostname`, including the `ValueError` raised for a network
      location with an unbalanced '[' or ']'. */
  function UrlHostname(url: string): (r: HostLookup)
    ensures r.Host? ==> r.name != [] && forall i :: 0 <= i < |r.name| ==> HostChar(r.name[i])
  {
    var cleaned := RemoveAll(LStrip(url, IsC0OrSpace), IsUnsafeUrlChar);
    var rest := AfterScheme(cleaned);
    if !StartsWith(rest, "//") then NoHost
    else
      var netloc := Netloc(rest);
      if ('[' in netloc) != (']' in netloc) then InvalidUrl
      else match HostOfNetloc(netloc)
        case Some(h) =>
          NetlocHostChars(cleaned);
          HostOfNetlocChars(netloc);
          Host(h)
        case None => NoHost
  }

  /** A character a host name can hold: no user-info separator, nothing that ends
      the network location, nothing `urlsplit` deletes. */
  predicate HostChar(c: char) {
    c != '@' && !IsNetlocEnd(c) && !IsUnsafeUrlChar(c)
  }

  /** Every character of the network location of a cleaned URL, '@' aside, can be
      part of a host name. */
  lemma {:induction false} NetlocHostChars(cleaned: string)
    requires forall i :: 0 <= i < |cleaned| ==> !IsUnsafeUrlChar(cleaned[i])
    requires StartsWith(AfterScheme(cleaned), "//")
    ensures forall c :: c in Netloc(AfterScheme(cleaned)) ==> c == '@' || HostChar(c)
  {
    var rest := AfterScheme(cleaned);
    assert forall i :: 0 <= i < |rest| ==> rest[i] in cleaned;
    var netloc := Netloc(rest);
    forall c | c in netloc ensures c == '@' || HostChar(c) {
      var k :| 0 <= k < |netloc| && netloc[k] == c;
      assert c == rest[2..][k] && c == rest[2 + k];
    }
  }

  /** The host taken from a network location holds only host-name characters. */
  lemma {:induction false} HostOfNetlocChars(netloc: string)
    requires forall c :: c in netloc ==> c == '@' || HostChar(c)
    ensures HostOfNetloc(netloc).Some? ==>
              forall i :: 0 <= i < |HostOfNetloc(netloc).value| ==> HostChar(HostOfNetloc(netloc).value[i])
  {
    var hostinfo := RPartition(netloc, '@').tail;
    assert HostChars(hostinfo);
    var bracket := Partition(hostinfo, '[');
    PartitionHostChars(hostinfo, '[');
    PartitionHostChars(bracket.tail, ']');
    PartitionHostChars(hostinfo, ':');
    var hostname := if bracket.found then Partition(bracket.tail, ']').head
                    else Partition(hostinfo, ':').head;
    if hostname != [] {
      var zone := Partition(hostname, '%');
      PartitionHostChars(hostname, '%');
      LowerHostChars(zone.head);
      var h := Lower(zone.head) + (if zone.found then "%" else "") + zone.tail;
      assert HostChars(h);
      assert h == HostOfNetloc(netloc).value;
    }
  }

  predicate HostChars(s: string) {
    forall c :: c in s ==> HostChar(c)
  }

  lemma {:induction false} PartitionHostChars(s: string, sep: char)
    requires HostChars(s)
    ensures HostChars(Partition(s, sep).head) && HostChars(Partition(s, sep).tail)
  {
  }

  lemma {:induction false} LowerHostChars(s: string)
    requires HostChars(s)
    ensures HostChars(Lower(s))
  {
    forall c | c in Lower(s) ensures HostChar(c) {
      var i :| 0 <= i < |s| && Lower(s)[i] == c;
      assert s[i] in s;
    }
  }

  /** A host name with none of the characters that `urlsplit` treats specially. */
  predicate PlainHost(h: string) {
    h != [] && forall i :: 0 <= i < |h| ==> PlainHostChar(h[i])
  }

  predicate PlainHostChar(c: char) {
    c !in "@[]:%/?#" && !IsUnsafeUrlChar(c)
  }

  /** What may follow the host: nothing, or a path, query or fragment. */
  predicate UrlTail(rest: string) {
    rest == [] || IsNetlocEnd(rest[0])
  }

  /** A network location with nothing `urlsplit` deletes and nothing that ends it. */
  predicate NetlocChars(h: string) {
    forall i :: 0 <= i < |h| ==> !IsUnsafeUrlChar(h[i]) && !IsNetlocEnd(h[i])
  }

  lemma {:induction false} PlainHostIsNetloc(h: string)
    requires PlainHost(h)
    ensures NetlocChars(h)
  {
    forall i | 0 <= i < |h| ensures !IsUnsafeUrlChar(h[i]) && !IsNetlocEnd(h[i]) {
      assert PlainHostChar(h[i]);
    }
  }

  /** The part of a plain URL up to the end of its host has nothing to strip or delete. */
  lemma {:induction false} PlainHeadIsClean(scheme: string, h: string)
    requires scheme == "http" || scheme == "https"
    requires NetlocChars(h)
    ensures !IsC0OrSpace((scheme + "://" + h)[0])
    ensures RemoveAll(scheme + "://" + h, IsUnsafeUrlChar) == scheme + "://" + h
  {
    var head := scheme + "://" + h;
    forall i | 0 <= i < |head| ensures !IsUnsafeUrlChar(head[i]) {
      if i >= |scheme| + 3 {
        assert head[i] == h[i - |scheme| - 3];
      }
    }
  }

  /** Deleting tab, CR and LF keeps a URL tail a URL tail. */
  lemma {:induction false} CleanTail(rest: string)
    requires UrlTail(rest)
    ensures UrlTail(RemoveAll(rest, IsUnsafeUrlChar))
  {
    if rest != [] {
      assert RemoveAll(rest, IsUnsafeUrlChar) == [rest[0]] + RemoveAll(rest[1..], IsUnsafeUrlChar);
    }
  }

  /** Cleaning leaves a plain URL as it is, up to control characters after the host. */
  lemma {:induction false} CleanPlainUrl(scheme: string, h: string, rest: string)
    requires scheme == "http" || scheme == "https"
    requires NetlocChars(h) && UrlTail(rest)
    ensures RemoveAll(LStrip(scheme + "://" + h + rest, IsC0OrSpace), IsUnsafeUrlChar)
            == scheme + "://" + (h + RemoveAll(rest, IsUnsafeUrlChar))
    ensures UrlTail(RemoveAll(rest, IsUnsafeUrlChar))
  {
    var head := scheme + "://" + h;
    var rest' := RemoveAll(rest, IsUnsafeUrlChar);
    PlainHeadIsClean(scheme, h);
    CleanTail(rest);
    assert (head + rest)[0] == head[0];
    assert LStrip(head + rest, IsC0OrSpace) == head + rest;
    RemoveAllAppend(head, rest, IsUnsafeUrlChar);
    assert head + rest' == scheme + "://" + (h + rest');
  }

  lemma {:induction false} SchemeSplit(scheme: string, x: string)
    requires scheme == "http" || scheme == "https"
    ensures AfterScheme(scheme + "://" + x) == "//" + x
  {
    var url := scheme + "://" + x;
    var i := FindFirst(url, IsColon);
    assert IsColon(url[|scheme|]);
    assert i == |scheme|;
    assert url[i + 1..] == "//" + x;
  }

  lemma {:induction false} NetlocOfPlainHost(h: string, rest: string)
    requires NetlocChars(h) && UrlTail(rest)
    ensures Netloc("//" + (h + rest)) == h
  {
    assert StartsWith("//" + (h + rest), "//");
    var after := h + rest;
    assert ("//" + (h + rest))[2..] == after;
    var n := FindFirst(after, IsNetlocEnd);
    forall j | 0 <= j < |h| ensures !IsNetlocEnd(after[j]) {
      assert after[j] == h[j];
    }
    if |h| < |after| { assert after[|h|] == rest[0]; }
    assert n == |h|;
    assert after[..n] == h;
  }

  lemma {:induction false} HostOfPlainNetloc(h: string)
    requires PlainHost(h)
    ensures HostOfNetloc(h) == Some(Lower(h))
    ensures ('[' in h) == (']' in h)
  {
    assert forall i :: 0 <= i < |h| ==> PlainHostChar(h[i]);
    assert '@' !in h && '[' !in h && ']' !in h && ':' !in h && '%' !in h;
    assert Lower(h) + [] + [] == Lower(h);
  }

  /** `http://host/...` and `https://host/...` name `host`, lower-cased. */
  lemma {:induction false} PlainUrlHost(scheme: string, h: string, rest: string)
    requires scheme == "http" || scheme == "https"
    requires PlainHost(h) && UrlTail(rest)
    ensures UrlHostname(scheme + "://" + h + rest) == Host(Lower(h))
  {
    PlainHostIsNetloc(h);
    CleanPlainUrl(scheme, h, rest);
    var rest' := RemoveAll(rest, IsUnsafeUrlChar);
    var cleaned := RemoveAll(LStrip(scheme + "://" + h + rest, IsC0OrSpace), IsUnsafeUrlChar);
    SchemeSplit(scheme, h + rest');
    var after := AfterScheme(cleaned);
    assert after == "//" + (h + rest');
    assert StartsWith(after, "//");
    NetlocOfPlainHost(h, rest');
    assert Netloc(after) == h;
    HostOfPlainNetloc(h);
  }

  // ================================================================ _validate_url

  /** The configured allow-list: `[d.strip().lower() for d in allowed.split(",")]`. */
  function AllowList(allowedDomains: string): seq<string> {
    var parts := Split(allowedDomains, ',');
    seq(|parts|, k requires 0 <= k < |parts| => Lower(Strip(parts[k])))
  }

  /** Whether the allow-list names `host` once it is lower-cased. */
  predicate Listed(host: string, allowedDomains: string) {
    Lower(host) in AllowList(allowedDomains)
  }

  /** `_validate_url(url)` with `R2_ALLOWED_DOMAINS` as a parameter. Only the literal
      host name is inspected: nothing is resolved through DNS. */
  function ValidateUrl(url: string, allowedDomains: string): (ok: bool)
    ensures !StartsWith(url, "http") ==> ok
    ensures ok && StartsWith(url, "http") ==>
              UrlHostname(url).Host? && !IsInternalIp(UrlHostname(url).name)
    ensures ok && StartsWith(url, "http") && allowedDomains != [] ==>
      Listed(UrlHostname(url).name, allowedDomains)
    ensures (StartsWith(url, "http") && UrlHostname(url).Host? && !IsInternalIp(UrlHostname(url).name)
             && (allowedDomains == [] || Listed(UrlHostname(url).name, allowedDomains))) ==> ok
  {
    if !StartsWith(url, "http") then true
    else match UrlHostname(url)
      case InvalidUrl => false
      case NoHost => false
      case Host(h) =>
        if IsInternalIp(h) then false
        else if allowedDomains != [] && !Listed(h, allowedDomains) then false
        else true
  }

  /** A string of digits and dots is a plain host name that lower-casing leaves alone. */
  lemma {:induction false} DottedDigitsArePlain(s: string)
    requires s != [] && forall i :: 0 <= i < |s| ==> IsDigit(s[i]) || s[i] == '.'
    ensures PlainHost(s) && Lower(s) == s
  {
    forall i | 0 <= i < |s| ensures PlainHostChar(s[i]) && Lower(s)[i] == s[i] {
      assert IsDigit(s[i]) || s[i] == '.';
    }
  }

  lemma {:induction false} FormatQuadIsPlain(a: nat, b: nat, c: nat, d: nat)
    ensures PlainHost(FormatQuad(a, b, c, d)) && Lower(FormatQuad(a, b, c, d)) == FormatQuad(a, b, c, d)
  {
    var sa, sb, sc, sd := NatToString(a), NatToString(b), NatToString(c), NatToString(d);
    var h := sa + "." + sb + "." + sc + "." + sd;
    assert h == FormatQuad(a, b, c, d);
    forall i | 0 <= i < |h| ensures IsDigit(h[i]) || h[i] == '.' {
      var j := i;
      if j < |sa| { assert h[i] == sa[j]; } else { j := j - |sa|;
      if j < 1 { } else { j := j - 1;
      if j < |sb| { assert h[i] == sb[j]; } else { j := j - |sb|;
      if j < 1 { } else { j := j - 1;
      if j < |sc| { assert h[i] == sc[j]; } else { j := j - |sc|;
      if j < 1 { } else { j := j - 1;
      assert h[i] == sd[j]; }}}}}}
    }
    DottedDigitsArePlain(h);
  }

  /** A URL whose host is the literal spelling of an internal address is refused,
      whatever the allow-list says. */
  lemma {:induction false} InternalLiteralRejected(scheme: string, a: nat, b: nat, c: nat, d: nat, rest: string, allowedDomains: string)
    requires scheme == "http" || scheme == "https"
    requires a < 256 && b < 256 && c < 256 && d < 256
    requires IsInternalAddress(Quad(a, b, c, d)) && UrlTail(rest)
    ensures !ValidateUrl(scheme + "://" + FormatQuad(a, b, c, d) + rest, allowedDomains)
  {
    var h := FormatQuad(a, b, c, d);
    FormatQuadIsPlain(a, b, c, d);
    PlainHttpUrl(scheme, h, rest);
    ParseFormatRoundTrip(a, b, c, d);
    HostRejected(scheme + "://" + h + rest, h, allowedDomains);
  }

  /** A plain http(s) URL over a lower-case host is an http URL naming that host. */
  lemma {:induction false} PlainHttpUrl(scheme: string, h: string, rest: string)
    requires scheme == "http" || scheme == "https"
    requires PlainHost(h) && Lower(h) == h && UrlTail(rest)
    ensures StartsWith(scheme + "://" + h + rest, "http")
    ensures UrlHostname(scheme + "://" + h + rest) == Host(h)
  {
    PlainUrlHost(scheme, h, rest);
    HttpSchemePrefix(scheme, h, rest);
  }

  lemma {:induction false} HostRejected(url: string, h: string, allowedDomains: string)
    requires StartsWith(url, "http") && UrlHostname(url) == Host(h) && IsInternalIp(h)
    ensures !ValidateUrl(url, allowedDomains)
  {
  }

  lemma {:induction false} HttpSchemePrefix(scheme: string, h: string, rest: string)
    requires scheme == "http" || scheme == "https"
    ensures StartsWith(scheme + "://" + h + rest, "http")
  {
    assert (scheme + "://" + h + rest)[..4] == scheme[..4];
  }

  lemma {:induction false} SmallNumerals()
    ensures NatToString(0) == "0" && NatToString(1) == "1" && NatToString(5) == "5"
    ensures NatToString(10) == "10"
    ensures NatToString(127) == "127"
    ensures NatToString(169) == "169" && NatToString(254) == "254"
  {
    assert NatToString(1) == "1";
    assert NatToString(12) == NatToString(1) + "2";
    assert NatToString(16) == NatToString(1) + "6";
    assert NatToString(25) == NatToString(2) + "5";
    assert NatToString(10) == NatToString(1) + "0";
  }

  lemma {:induction false} LoopbackSpelling()
    ensures "http" + "://" + FormatQuad(127, 0, 0, 1) + "/paper.pdf" == "http://127.0.0.1/paper.pdf"
  {
    SmallNumerals();
    var q := FormatQuad(127, 0, 0, 1);
    assert q == "127.0.0.1";
    assert "http" + "://" == "http://";
    assert "http://" + "127.0.0.1" == "http://127.0.0.1";
    assert "http://127.0.0.1" + "/paper.pdf" == "http://127.0.0.1/paper.pdf";
  }

  lemma {:induction false} PrivateSpelling()
    ensures "http" + "://" + FormatQuad(10, 0, 0, 5) + "/paper.pdf" == "http://10.0.0.5/paper.pdf"
  {
    SmallNumerals();
    var q := FormatQuad(10, 0, 0, 5);
    assert q == "10.0.0.5";
    assert "http" + "://" == "http://";
    assert "http://" + "10.0.0.5" == "http://10.0.0.5";
    assert "http://10.0.0.5" + "/paper.pdf" == "http://10.0.0.5/paper.pdf";
  }

  lemma {:induction false} LoopbackIsInternal()
    ensures IsInternalAddress(Quad(127, 0, 0, 1))
  {
    assert InNetwork(Quad(127, 0, 0, 1), InternalRanges[3]);
  }

  lemma {:induction false} PrivateIsInternal()
    ensures IsInternalAddress(Quad(10, 0, 0, 5))
  {
    assert InNetwork(Quad(10, 0, 0, 5), InternalRanges[0]);
  }

  /** The loopback address is refused. */
  lemma {:induction false} LoopbackRejected(allowedDomains: string)
    ensures !ValidateUrl("http://127.0.0.1/paper.pdf", allowedDomains)
  {
    LoopbackSpelling();
    LoopbackIsInternal();
    InternalLiteralRejected("http", 127, 0, 0, 1, "/paper.pdf", allowedDomains);
  }

  /** A private-network address is refused. */
  lemma {:induction false} PrivateAddressRejected(allowedDomains: string)
    ensures !ValidateUrl("http://10.0.0.5/paper.pdf", allowedDomains)
  {
    PrivateSpelling();
    PrivateIsInternal();
    InternalLiteralRejected("http", 10, 0, 0, 5, "/paper.pdf", allowedDomains);
  }

  lemma {:induction false} MetadataSpelling()
    ensures "http" + "://" + FormatQuad(169, 254, 169, 254) + "/latest/meta-data" == "http://169.254.169.254/latest/meta-data"
  {
    MetadataQuad();
    var q := FormatQuad(169, 254, 169, 254);
    assert q == "169.254.169.254";
    assert "http" + "://" == "http://";
    assert "http://" + "169.254.169.254" == "http://169.254.169.254";
    assert "http://169.254.169.254" + "/latest/meta-data" == "http://169.254.169.254/latest/meta-data";
  }

  lemma {:induction false} MetadataQuad()
    ensures FormatQuad(169, 254, 169, 254) == "169.254.169.254"
  {
    SmallNumerals();
    assert NatToString(169) + "." + NatToString(254) == "169.254";
  }

  lemma {:induction false} MetadataIsLinkLocal()
    ensures IsInternalAddress(Quad(169, 254, 169, 254))
  {
    assert InNetwork(Quad(169, 254, 169, 254), InternalRanges[4]);
  }

  /** The cloud metadata endpoint is refused. */
  lemma {:induction false} MetadataEndpointRejected(allowedDomains: string)
    ensures !ValidateUrl("http://169.254.169.254/latest/meta-data", allowedDomains)
  {
    MetadataSpelling();
    MetadataIsLinkLocal();
    InternalLiteralRejected("http", 169, 254, 169, 254, "/latest/meta-data", allowedDomains);
  }

  /** A plain host that is not an internal literal passes when no allow-list is set
      or when the allow-list names it. */
  lemma {:induction false} PublicHostAccepted(scheme: string, h: string, rest: string, allowedDomains: string)
    requires scheme == "http" || scheme == "https"
    requires PlainHost(h) && UrlTail(rest) && !IsInternalIp(Lower(h))
    requires allowedDomains == [] || Listed(Lower(h), allowedDomains)
    ensures ValidateUrl(scheme + "://" + h + rest, allowedDomains)
  {
    PlainUrlHost(scheme, h, rest);
  }

  /** With an allow-list configured, a host it does not name is refused. */
  lemma {:induction false} UnlistedHostRejected(scheme: string, h: string, rest: string, allowedDomains: string)
    requires scheme == "http" || scheme == "https"
    requires PlainHost(h) && UrlTail(rest)
    requires allowedDomains != [] && !Listed(Lower(h), allowedDomains)
    ensures !ValidateUrl(scheme + "://" + h + rest, allowedDomains)
  {
    PlainUrlHost(scheme, h, rest);
    HttpSchemePrefix(scheme, h, rest);
    HostUnlisted(scheme + "://" + h + rest, Lower(h), allowedDomains);
  }

  lemma {:induction false} HostUnlisted(url: string, h: string, allowedDomains: string)
    requires StartsWith(url, "http") && UrlHostname(url) == Host(h)
    requires allowedDomains != [] && !Listed(h, allowedDomains)
    ensures !ValidateUrl(url, allowedDomains)
  {
  }

  /** `localhost` is a name, not an address: with no allow-list it passes, since
      nothing is resolved. */
  lemma {:induction false} LocalhostAccepted(rest: string)
    requires UrlTail(rest)
    ensures ValidateUrl("http://localhost" + rest, "")
  {
    DotlessHostNotInternal("localhost");
    LocalhostUrlHost(rest);
    HostAccepted("http://localhost" + rest, "localhost");
  }

  lemma {:induction false} LocalhostUrlHost(rest: string)
    requires UrlTail(rest)
    ensures StartsWith("http://localhost" + rest, "http")
    ensures UrlHostname("http://localhost" + rest) == Host("localhost")
  {
    var h := "localhost";
    forall i | 0 <= i < |h| ensures PlainHostChar(h[i]) && Lower(h)[i] == h[i] {
      assert 'a' <= h[i] <= 'z';
    }
    assert "http" + "://" + h + rest == "http://localhost" + rest;
    PlainHttpUrl("http", h, rest);
  }

  lemma {:induction false} HostAccepted(url: string, h: string)
    requires StartsWith(url, "http") && UrlHostname(url) == Host(h) && !IsInternalIp(h)
    ensures ValidateUrl(url, "")
  {
  }

  /** A character allowed between the brackets of an IPv6 literal host. */
  predicate BracketedHostChar(c: char) {
    c !in "@[]%/?#" && !IsUnsafeUrlChar(c)
  }

  lemma {:induction false} PartitionAtFront(s: string, c: char)
    requires s != [] && s[0] == c
    ensures Partition(s, c) == Parts([], true, s[1..])
  {
    var p := Partition(s, c);
    assert p.head == [];
    assert s == [c] + p.tail;
  }

  lemma {:induction false} PartitionAtEnd(h: string, c: char)
    requires c !in h
    ensures Partition(h + [c], c) == Parts(h, true, [])
  {
    var s := h + [c];
    var p := Partition(s, c);
    assert s[|h|] == c;
    assert s == p.head + [c] + p.tail;
    assert |p.head| == |h|;
    assert p.head == s[..|h|] == h;
  }

  lemma {:induction false} HostOfBracketedNetloc(h: string)
    requires h != [] && forall i :: 0 <= i < |h| ==> BracketedHostChar(h[i])
    ensures HostOfNetloc("[" + h + "]") == Some(Lower(h))
    ensures NetlocChars("[" + h + "]")
    ensures ('[' in "[" + h + "]") && (']' in "[" + h + "]")
  {
    var b := "[" + h + "]";
    BracketedChars(h);
    BracketedHostname(h);
    var hostname := Partition(Partition(RPartition(b, '@').tail, '[').tail, ']').head;
    assert hostname == h;
    var zone := Partition(h, '%');
    assert zone == Parts(h, false, []);
    assert Lower(zone.head) + "" + zone.tail == Lower(h);
    assert b[0] == '[' && b[|b| - 1] == ']';
  }

  /** The host name `urlsplit` cuts out of `[h]`, before lower-casing. */
  lemma {:induction false} BracketedHostname(h: string)
    requires ']' !in h && '@' !in "[" + h + "]"
    ensures var bracket := Partition(RPartition("[" + h + "]", '@').tail, '[');
      bracket.found && Partition(bracket.tail, ']').head == h
  {
    var b := "[" + h + "]";
    assert RPartition(b, '@').tail == b;
    PartitionAtFront(b, '[');
    assert b[1..] == h + "]";
    PartitionAtEnd(h, ']');
  }

  /** The characters of a bracketed host that the netloc parsing looks at. */
  lemma {:induction false} BracketedChars(h: string)
    requires h != [] && forall i :: 0 <= i < |h| ==> BracketedHostChar(h[i])
    ensures ']' !in h && '%' !in h && '@' !in "[" + h + "]"
    ensures NetlocChars("[" + h + "]")
    ensures "[" + h + "]" != [] && ("[" + h + "]")[0] == '['
  {
    var b := "[" + h + "]";
    forall i | 0 <= i < |h| ensures h[i] != ']' && h[i] != '%' { assert BracketedHostChar(h[i]); }
    forall i | 0 <= i < |b| ensures b[i] != '@' && !IsUnsafeUrlChar(b[i]) && !IsNetlocEnd(b[i]) {
      if 0 < i < |b| - 1 { assert b[i] == h[i - 1] && BracketedHostChar(h[i - 1]); }
    }
  }

  /** `http://[h]/...`: an IPv6-style literal names `h`, lower-cased. */
  lemma {:induction false} BracketedUrlHost(scheme: string, h: string, rest: string)
    requires scheme == "http" || scheme == "https"
    requires h != [] && forall i :: 0 <= i < |h| ==> BracketedHostChar(h[i])
    requires UrlTail(rest)
    ensures UrlHostname(scheme + "://" + ("[" + h + "]") + rest) == Host(Lower(h))
  {
    var b := "[" + h + "]";
    HostOfBracketedNetloc(h);
    CleanPlainUrl(scheme, b, rest);
    var rest' := RemoveAll(rest, IsUnsafeUrlChar);
    SchemeSplit(scheme, b + rest');
    NetlocOfPlainHost(b, rest');
  }

  /** The IPv6 loopback literal is not flagged: it is never inside an IPv4 range. */
  lemma {:induction false} Ipv6LoopbackAccepted(rest: string)
    requires UrlTail(rest)
    ensures ValidateUrl("http://[::1]" + rest, "")
  {
    DotlessHostNotInternal("::1");
    Ipv6LoopbackUrlHost(rest);
    HostAccepted("http://[::1]" + rest, "::1");
  }

  lemma {:induction false} Ipv6LoopbackUrlHost(rest: string)
    requires UrlTail(rest)
    ensures StartsWith("http://[::1]" + rest, "http")
    ensures UrlHostname("http://[::1]" + rest) == Host("::1")
  {
    Ipv6LoopbackChars();
    Ipv6LoopbackSpelling(rest);
    BracketedUrlHost("http", "::1", rest);
  }

  lemma {:induction false} Ipv6LoopbackChars()
    ensures forall i :: 0 <= i < |"::1"| ==> BracketedHostChar("::1"[i])
    ensures Lower("::1") == "::1"
  {
    var h := "::1";
    forall i | 0 <= i < |h| ensures BracketedHostChar(h[i]) && Lower(h)[i] == h[i] { }
  }

  lemma {:induction false} Ipv6LoopbackSpelling(rest: string)
    ensures "http" + "://" + ("[" + "::1" + "]") + rest == "http://[::1]" + rest
    ensures StartsWith("http://[::1]" + rest, "http")
  {
    assert "http" + "://" + ("[" + "::1" + "]") == "http://[::1]";
    assert ("http://[::1]" + rest)[..4] == "http";
  }

  /** A string without a dot is never an IPv4 literal, so never internal: in
      particular IPv6 literals such as `::1` are not flagged. */
  lemma {:induction false} DotlessHostNotInternal(h: string)
    requires '.' !in h
    ensures !IsInternalIp(h)
  {
    assert Split(h, '.') == [h];
  }

  // ================================================================ download_pdf

  /** The deployment settings `download_pdf` and `upload_pdf` read: `R2_PUBLIC_URL`,
      `R2_ACCESS_KEY_ID` and `R2_ALLOWED_DOMAINS` (an empty string when unset). */
  datatype StorageConfig = StorageConfig(publicUrl: string, accessKeyId: string, allowedDomains: string)

  /** An HTTP response as far as the code looks at it. */
  datatype Response = Response(status: int, content: seq<byte>)

  /** `httpx.get(url, follow_redirects=True)`: the final response after any
      redirects, or `None` when the call raised. */
  type HttpGet = string -> Option<Response>

  /** `s3.get_object(...)["Body"].read()` for a key: the body, or `None` when it raised. */
  type S3Get = string -> Option<seq<byte>>

  /** One way of fetching the file. */
  datatype Attempt = Fetch(url: string) | GetObject(key: string)

  /** The object key derived from a file reference: `file_url.lstrip("/")`. */
  function R2Key(fileUrl: string): (key: string)
    ensures key == [] || key[0] != '/'
    ensures fileUrl == [] || fileUrl[0] != '/' ==> key == fileUrl
  {
    LStrip(fileUrl, IsSlash)
  }

  /** `f"{base.rstrip('/')}/{key}"`, the public URL of an object: the base up to its
      trailing slashes, exactly one '/', then the key. */
  function PublicObjectUrl(base: string, key: string): (url: string)
    ensures |url| > |key| && url[|url| - |key|..] == key && url[|url| - |key| - 1] == '/'
    ensures var n := |url| - |key| - 1;
      && n <= |base| && url[..n] == base[..n] && (n == 0 || base[n - 1] != '/')
      && forall i :: n <= i < |base| ==> base[i] == '/'
  {
    var b := RStrip(base, IsSlash);
    var url := b + "/" + key;
    assert url[..|b|] == b && url[|b| + 1..] == key;
    url
  }

  /** An HTTP attempt counts only when it answers 200 with a non-empty body. */
  function Accepted(r: Option<Response>): (body: Option<seq<byte>>)
    ensures body.Some? <==> r.Some? && r.value.status == 200 && |r.value.content| > 0
    ensures body.Some? ==> body.value == r.value.content
  {
    if r.Some? && r.value.status == 200 && |r.value.content| > 0 then Some(r.value.content) else None
  }

  /** `download_pdf(file_url)`: validate an http reference, then try the URL itself,
      the public URL of the key and the S3 API, returning the first body obtained. */
  function DownloadPdf(config: StorageConfig, fileUrl: string, get: HttpGet, getObject: S3Get): (r: Result<seq<byte>, Error>)
    ensures r.Err? ==> r.error.StorageError?
  {
    if StartsWith(fileUrl, "http") && !ValidateUrl(fileUrl, config.allowedDomains) then
      Err(StorageError("URL 安全验证失败: " + fileUrl))
    else
      var direct := if StartsWith(fileUrl, "http") then Accepted(get(fileUrl)) else None;
      if direct.Some? then Ok(direct.value)
      else
        var key := R2Key(fileUrl);
        var viaPublic := if config.publicUrl != [] && key != [] then Accepted(get(PublicObjectUrl(config.publicUrl, key))) else None;
        if viaPublic.Some? then Ok(viaPublic.value)
        else
          var viaS3 := if config.accessKeyId != [] && key != [] then getObject(key) else None;
          if viaS3.Some? then Ok(viaS3.value)
          else Err(StorageError("Cannot download PDF from: " + fileUrl))
  }

  /** The attempts `download_pdf` makes for a reference that passed validation,
      in order: the URL itself (http references only), the public URL of the key
      (when a base is configured and the key is not empty), the S3 API (when an
      access key is configured and the key is not empty). */
  function PlannedAttempts(config: StorageConfig, fileUrl: string): (plan: seq<Attempt>)
    ensures |plan| <= 3
    ensures StartsWith(fileUrl, "http") ==> plan != [] && plan[0] == Fetch(fileUrl)
    ensures R2Key(fileUrl) == [] ==> forall k :: 0 <= k < |plan| ==> plan[k] == Fetch(fileUrl)
  {
    var key := R2Key(fileUrl);
    (if StartsWith(fileUrl, "http") then [Fetch(fileUrl)] else [])
    + (if config.publicUrl != [] && key != [] then [Fetch(PublicObjectUrl(config.publicUrl, key))] else [])
    + (if config.accessKeyId != [] && key != [] then [GetObject(key)] else [])
  }

  /** The outcome of one attempt. */
  function Perform(a: Attempt, get: HttpGet, getObject: S3Get): Option<seq<byte>> {
    match a
    case Fetch(url) => Accepted(get(url))
    case GetObject(key) => getObject(key)
  }

  /** The first attempt of a plan that yields a body. */
  function FirstSuccess(plan: seq<Attempt>, get: HttpGet, getObject: S3Get): (r: Option<seq<byte>>)
    ensures r.Some? <==> exists k :: 0 <= k < |plan| && Perform(plan[k], get, getObject).Some?
    ensures r.Some? ==> exists k :: 0 <= k < |plan| && Perform(plan[k], get, getObject) == r &&
                                    (forall j :: 0 <= j < k ==> Perform(plan[j], get, getObject).None?)
  {
    if plan == [] then None
    else if Perform(plan[0], get, getObject).Some? then Perform(plan[0], get, getObject)
    else
      var r := FirstSuccess(plan[1..], get, getObject);
      assert forall k :: 1 <= k < |plan| ==> plan[k] == plan[1..][k - 1];
      r
  }

  lemma {:induction false} FirstSuccessAppend(p: seq<Attempt>, q: seq<Attempt>, get: HttpGet, getObject: S3Get)
    ensures FirstSuccess(p + q, get, getObject)
            == if FirstSuccess(p, get, getObject).Some? then FirstSuccess(p, get, getObject) else FirstSuccess(q, get, getObject)
  {
    if p == [] {
      assert p + q == q;
    } else {
      assert (p + q)[0] == p[0];
      assert (p + q)[1..] == p[1..] + q;
      FirstSuccessAppend(p[1..], q, get, getObject);
    }
  }

  /** `download_pdf` is the first-success-wins walk over its planned attempts,
      guarded by URL validation for http references. */
  lemma {:induction false} DownloadFollowsPlan(config: StorageConfig, fileUrl: string, get: HttpGet, getObject: S3Get)
    ensures DownloadPdf(config, fileUrl, get, getObject) ==
      if StartsWith(fileUrl, "http") && !ValidateUrl(fileUrl, config.allowedDomains) then
        Err(StorageError("URL 安全验证失败: " + fileUrl))
      else match FirstSuccess(PlannedAttempts(config, fileUrl), get, getObject)
        case Some(body) => Ok(body)
        case None => Err(StorageError("Cannot download PDF from: " + fileUrl))
  {
    var key := R2Key(fileUrl);
    var p1 := if StartsWith(fileUrl, "http") then [Fetch(fileUrl)] else [];
    var p2 := if config.publicUrl != [] && key != [] then [Fetch(PublicObjectUrl(config.publicUrl, key))] else [];
    var p3 := if config.accessKeyId != [] && key != [] then [GetObject(key)] else [];
    FirstSuccessAppend(p1 + p2, p3, get, getObject);
    FirstSuccessAppend(p1, p2, get, getObject);
    assert FirstSuccess(p3, get, getObject) == (if p3 == [] then None else Perform(p3[0], get, getObject));
    assert FirstSuccess(p2, get, getObject) == (if p2 == [] then None else Perform(p2[0], get, getObject));
    assert FirstSuccess(p1, get, getObject) == (if p1 == [] then None else Perform(p1[0], get, getObject));
  }

  /** An http reference that fails validation is refused before any request is
      made: the outcome is the same whatever the network and the bucket hold. */
  lemma {:induction false} RejectedUrlHasNoFallback(config: StorageConfig, fileUrl: string,
                                                   get: HttpGet, getObject: S3Get, get': HttpGet, getObject': S3Get)
    requires StartsWith(fileUrl, "http") && !ValidateUrl(fileUrl, config.allowedDomains)
    ensures DownloadPdf(config, fileUrl, get, getObject) == Err(StorageError("URL 安全验证失败: " + fileUrl))
    ensures DownloadPdf(config, fileUrl, get, getObject) == DownloadPdf(config, fileUrl, get', getObject')
  {
  }

  /** A validated http URL whose own fetch fails is retried as an object key: the
      whole URL, appended to the public base. */
  lemma {:induction false} FailedHttpUrlBecomesKey(config: StorageConfig, fileUrl: string)
    requires StartsWith(fileUrl, "http") && config.publicUrl != []
    ensures |PlannedAttempts(config, fileUrl)| >= 2
    ensures PlannedAttempts(config, fileUrl)[1] == Fetch(RStrip(config.publicUrl, IsSlash) + "/" + fileUrl)
  {
    assert fileUrl[0] == 'h';
  }

  /** Only the S3 attempt can return an empty body. */
  lemma {:induction false} EmptyBodyOnlyFromS3(config: StorageConfig, fileUrl: string, get: HttpGet, getObject: S3Get)
    requires DownloadPdf(config, fileUrl, get, getObject) == Ok([])
    ensures config.accessKeyId != [] && R2Key(fileUrl) != [] && getObject(R2Key(fileUrl)) == Some([])
  {
  }

  /** A reference made only of slashes (or empty) and not an http URL has no key
      and no URL: the download fails without a request. */
  lemma {:induction false} NoKeyNoDownload(config: StorageConfig, fileUrl: string, get: HttpGet, getObject: S3Get)
    requires !StartsWith(fileUrl, "http") && R2Key(fileUrl) == []
    ensures DownloadPdf(config, fileUrl, get, getObject) == Err(StorageError("Cannot download PDF from: " + fileUrl))
  {
  }

  // ================================================================ upload_pdf

  /** What `s3.put_object` did: stored, or raised with a message. */
  datatype PutOutcome = Stored | PutFailed(reason: string)

  /** `upload_pdf(pdf_bytes, key)`: the public URL of the stored object, or the key
      itself when no public base is configured. */
  function UploadPdf(config: StorageConfig, key: string, put: PutOutcome): (r: Result<string, Error>)
    ensures put.PutFailed? <==> r.Err?
    ensures r.Err? ==> r.error == StorageError("Failed to upload to R2: " + put.reason)
    ensures r.Ok? && config.publicUrl == [] ==> r.value == key
  {
    match put
    case PutFailed(reason) => Err(StorageError("Failed to upload to R2: " + reason))
    case Stored => Ok(if config.publicUrl != [] then PublicObjectUrl(config.publicUrl, key) else key)
  }

  /** The key can be read back from the URL `upload_pdf` returns: it is what
      follows the public base and one '/'. */
  lemma {:induction false} UploadUrlNamesKey(config: StorageConfig, key: string)
    requires config.publicUrl != []
    ensures var base := RStrip(config.publicUrl, IsSlash);
            var url := UploadPdf(config, key, Stored).value;
            StartsWith(url, base + "/") && url[|base| + 1..] == key
  {
    var base := RStrip(config.publicUrl, IsSlash);
    var url := base + "/" + key;
    assert url[..|base| + 1] == base + "/";
    assert url[|base| + 1..] == key;
  }

  /** A key stored by `upload_pdf` (one that does not start with '/' or "http") is
      fetched by `download_pdf` first from the very URL the upload reported. */
  lemma {:induction false} UploadedKeyIsDownloadedFromItsUrl(config: StorageConfig, key: string)
    requires config.publicUrl != [] && key != [] && key[0] != '/' && !StartsWith(key, "http")
    ensures PlannedAttempts(config, key) != []
    ensures PlannedAttempts(config, key)[0] == Fetch(UploadPdf(config, key, Stored).value)
  {
  }
}
