/**
 * What the portal servlet helpers read from a request and from the
 * per-tenant configuration that `APIUtil` hands back.
 */
module Servlet {
  import opened Wrappers
  import opened JavaStrings

  /** The tenant every request falls back to. */
  const SuperTenant: string := "carbon.super"

  /** Name of the request parameter that selects a tenant. */
  const TenantParameter: string := "tenant"

  /** Name of the request header that selects a tenant. */
  const TenantHeader: string := "X-WSO2-Tenant"

  /**
   * An `HttpServletRequest`, reduced to its query parameters and headers;
   * a name absent from a map is one for which the request answers `null`.
   */
  datatype Request = Request(parameters: map<string, string>, headers: map<string, string>)

  /** `request.getParameter(name)`. */
  function Parameter(request: Request, name: string): Option<string>
  {
    Get(request.parameters, name)
  }

  /** `request.getHeader(name)`. */
  function Header(request: Request, name: string): Option<string>
  {
    Get(request.headers, name)
  }

  /** `map.get(key)` on a Java map whose absent keys answer `null`. */
  function Get(m: map<string, string>, key: string): (r: Option<string>)
    ensures r.Some? <==> key in m
    ensures r.Some? ==> r.value == m[key]
  {
    if key in m then Some(m[key]) else None
  }

  /**
   * A tenant's custom-domain mapping (`login`, `logout`, `customUrl`, ...);
   * a key absent from the map is one whose entry is `null`.
   */
  type DomainMapping = map<string, string>

  /**
   * The login or logout callback of a tenant: none without a mapping, the
   * mapping's own entry for `key` when it has one, and otherwise the
   * tenant's custom URL over https followed by `suffix` (a missing
   * `customUrl` is rendered as "null", as Java's `+` renders it).
   */
  function CallBack(mapping: Option<DomainMapping>, key: string, suffix: string): (r: Option<string>)
    ensures r.None? <==> mapping.None?
    ensures mapping.Some? && key in mapping.value ==> r == Some(mapping.value[key])
    ensures mapping.Some? && key !in mapping.value ==>
              r == Some("https://" + ConcatOperand(Get(mapping.value, "customUrl")) + suffix)
    ensures mapping.Some? && key !in mapping.value && "customUrl" !in mapping.value ==>
              r == Some("https://null" + suffix)
  {
    match mapping
    case None => None
    case Some(m) =>
      if key in m then Some(m[key])
      else
        assert "https://" + "null" + suffix == "https://null" + suffix;
        Some("https://" + ConcatOperand(Get(m, "customUrl")) + suffix)
  }

  /**
   * The loopback origin `"https://" + host + ":" + port`: it reads back as
   * the scheme, the host, a colon and Java's decimal rendering of the port,
   * which is canonical (digits, a minus sign exactly for a negative port, no
   * leading zero) and reads back as the port.
   */
  function LoopbackOrigin(host: string, port: int): (r: string)
    ensures |r| > 9 + |host|
    ensures r[..8] == "https://"
    ensures r[8..8 + |host|] == host
    ensures r[8 + |host|] == ':'
    ensures r[9 + |host|..] == IntToString(port)
    ensures CanonicalInt(r[9 + |host|..])
    ensures r[9 + |host|] == '-' <==> port < 0
    ensures ParseInt(r[9 + |host|..]) == port
  {
    var portText := IntToString(port);
    OriginParts(host, portText);
    IntToStringRoundTrip(port);
    "https://" + host + ":" + portText
  }

  /** Where the scheme, the host, the colon and the port text sit in an origin. */
  lemma OriginParts(host: string, portText: string)
    ensures var r := "https://" + host + ":" + portText;
      && |r| == 9 + |host| + |portText|
      && r[..8] == "https://"
      && r[8..8 + |host|] == host
      && r[8 + |host|] == ':'
      && r[9 + |host|..] == portText
  {
    var r := "https://" + host + ":" + portText;
    assert r == "https://" + (host + (":" + portText));
    assert r[8..] == host + (":" + portText);
    assert r[8..][..|host|] == host;
    assert r[8..][|host|..] == ":" + portText;
    assert r[9 + |host|..] == r[8..][|host|..][1..];
  }
}
