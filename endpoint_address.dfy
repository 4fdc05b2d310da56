/** The address and port of a CoAP peer (pycolo/coap/EndpointAddress.py), an
    immutable value. Host-name resolution is outside the model: the URI
    constructor receives its outcome as a parameter. */
module Endpoint {
  import opened Wrappers
  import opened Text

  /** The default CoAP port (section 6.1 of RFC 7252). */
  const DEFAULT_PORT: int := 5683

  /** A resolved IP address: its literal text (`getHostAddress()`) and whether
      it is an IPv6 address. */
  datatype InetAddress = InetAddress(hostAddress: string, ipv6: bool)

  /** The parts of a URI the constructor reads; `port` is -1 when the URI has none. */
  datatype Uri = Uri(host: string, port: int)

  datatype EndpointAddress = EndpointAddress(address: Option<InetAddress>, port: int)

  /** `EndpointAddress(address)`: the given address on the default port. */
  function FromAddress(a: InetAddress): (e: EndpointAddress)
    ensures GetAddress(e) == Some(a) && GetPort(e) == DEFAULT_PORT
  {
    EndpointAddress(Some(a), DEFAULT_PORT)
  }

  /** `EndpointAddress(address, port)`: both kept unchanged. */
  function FromAddressAndPort(a: InetAddress, port: int): (e: EndpointAddress)
    ensures GetAddress(e) == Some(a) && GetPort(e) == port
  {
    EndpointAddress(Some(a), port)
  }

  /** `EndpointAddress(uri)`: `resolved` is what looking up `uri.host` gave;
      a failed lookup (None) is logged and leaves the address absent. The
      URI's port is used unless it is -1. */
  function FromUri(uri: Uri, resolved: Option<InetAddress>): (e: EndpointAddress)
    ensures GetAddress(e) == resolved
    ensures uri.port != -1 ==> GetPort(e) == uri.port
    ensures uri.port == -1 ==> GetPort(e) == DEFAULT_PORT
  {
    var port := if uri.port != -1 then uri.port else DEFAULT_PORT;
    EndpointAddress(resolved, port)
  }

  function GetAddress(e: EndpointAddress): Option<InetAddress>
  {
    e.address
  }

  function GetPort(e: EndpointAddress): int
  {
    e.port
  }

  /** The index of the last `c` in `s`. */
  function LastIndexOf(s: string, c: char): (r: Option<nat>)
    ensures r.None? <==> c !in s
    ensures r.Some? ==> r.value < |s| && s[r.value] == c && c !in s[r.value + 1..]
  {
    if s == [] then None
    else if s[|s| - 1] == c then Some(|s| - 1)
    else
      var r := LastIndexOf(s[..|s| - 1], c);
      assert s == s[..|s| - 1] + [s[|s| - 1]];
      r
  }

  /** The port written after the last colon of a rendering. */
  function PortOf(s: string): Option<int>
  {
    match LastIndexOf(s, ':')
    case None => None
    case Some(i) =>
      var t := s[i + 1..];
      if |t| >= 1 && (IsDigits(t) || (t[0] == '-' && IsDigits(t[1..]))) then Some(ParseInt(t)) else None
  }

  /** The host between the brackets of a rendering "[host]:port". */
  function BracketedHost(s: string): Option<string>
  {
    match LastIndexOf(s, ':')
    case None => None
    case Some(i) =>
      if i >= 2 && s[0] == '[' && s[i - 1] == ']' then Some(s[1..i - 1]) else None
  }

  /** The text before the last colon of a rendering "host:port". */
  function PlainHost(s: string): Option<string>
  {
    match LastIndexOf(s, ':')
    case None => None
    case Some(i) => Some(s[..i])
  }

  lemma {:induction false} LastIndexOfSuffix(p: string, t: string, c: char)
    requires c !in t
    ensures LastIndexOf(p + [c] + t, c) == Some(|p|)
    decreases |t|
  {
    var s := p + [c] + t;
    if t != [] {
      assert s[..|s| - 1] == p + [c] + t[..|t| - 1];
      LastIndexOfSuffix(p, t[..|t| - 1], c);
    }
  }

  /** `toString()`: "[host]:port" for an IPv6 address (section 3.2.2 of
      RFC 3986), "host:port" otherwise; an absent address raises (None).
      The port, and an IPv6 host, can be read back from the text. */
  function ToString(e: EndpointAddress): (r: Option<string>)
    ensures r.None? <==> e.address.None?
    ensures r.Some? ==> PortOf(r.value) == Some(e.port)
    ensures r.Some? && e.address.value.ipv6 ==> BracketedHost(r.value) == Some(e.address.value.hostAddress)
    ensures r.Some? && !e.address.value.ipv6 ==> PlainHost(r.value) == Some(e.address.value.hostAddress)
  {
    match e.address
    case None => None
    case Some(a) =>
      var host := if a.ipv6 then "[" + a.hostAddress + "]" else a.hostAddress;
      var digits := IntToDecimal(e.port);
      var s := host + ":" + digits;
      LastIndexOfSuffix(host, digits, ':');
      assert s[|host| + 1..] == digits;
      ParseIntToDecimal(e.port);
      assert a.ipv6 ==> s[1..|host| - 1] == a.hostAddress;
      assert s[..|host|] == host;
      Some(s)
  }
}
