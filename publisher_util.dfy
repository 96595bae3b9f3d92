/**
 * The publisher portal's servlet helpers (`org.wso2.carbon.apimgt.ui.publisher.Util`).
 * Unlike the developer portal's copy, these dereference their arguments
 * without `null` checks; the inputs for which Java would throw
 * `NullPointerException` or `ClassCastException` are excluded by
 * preconditions, and a `null` request cannot be passed at all.
 */
module PublisherUtil {
  import opened Wrappers
  import opened JavaStrings
  import opened JsonValue
  import opened Servlet

  /**
   * `readJsonObj(json, path)` with `path` already split at its dots: the
   * value under the path, or `null` when a key on the way or the final key
   * is missing. Every value met before the last segment must be a map.
   */
  method ReadJsonObj(json: JsonMap, path: seq<string>) returns (r: Json)
    requires |path| > 0
    requires Walk(json, Prefix(path)).Found? || Walk(json, Prefix(path)).Missing?
    ensures r == Lookup(json, path)
    ensures Walk(json, Prefix(path)).Missing? ==> r == JNull
    ensures Walk(json, Prefix(path)).Found? ==>
              r == (if Last(path) in Walk(json, Prefix(path)).m then Walk(json, Prefix(path)).m[Last(path)] else JNull)
  {
    var n := |path| - 1;
    var nested := json;
    var i := 0;
    while i < n
      invariant 0 <= i <= n
      invariant Walk(json, Prefix(path)) == Walk(nested, path[i..n])
    {
      var key := path[i];
      assert path[i..n][0] == key && path[i..n][1..] == path[i + 1..n];
      if key !in nested {
        return JNull;
      }
      assert nested[key].JObject?;  // neither null nor another kind of value
      nested := nested[key].fields;
      i := i + 1;
    }
    var last := path[n];
    if last !in nested {
      return JNull;
    }
    r := nested[last];
  }

  /**
   * `getLoopbackOrigin(host)`: https, the host and the management transport
   * port; a `null` host is rendered as "null".
   */
  function GetLoopbackOrigin(host: Option<string>, port: int): (r: string)
    ensures host.Some? ==> r == LoopbackOrigin(host.value, port)
    ensures host.None? ==> r == LoopbackOrigin("null", port)
  {
    LoopbackOrigin(ConcatOperand(host), port)
  }

  /**
   * `getTenantDomain(request)`: the `tenant` parameter, failing that the
   * `X-WSO2-Tenant` header, failing that the super tenant.
   */
  function GetTenantDomain(request: Request): (r: string)
    ensures TenantParameter in request.parameters ==> r == request.parameters[TenantParameter]
    ensures TenantParameter !in request.parameters && TenantHeader in request.headers ==>
              r == request.headers[TenantHeader]
    ensures TenantParameter !in request.parameters && TenantHeader !in request.headers ==> r == SuperTenant
  {
    match Parameter(request, TenantParameter)
    case Some(t) => t
    case None =>
      match Header(request, TenantHeader)
      case Some(t) => t
      case None => SuperTenant
  }

  /**
   * `getTenantBasePublisherContext(request, context)`: the tenant's
   * publisher context, unless `APIUtil` has none for it or answers a single
   * blank, in which case the fallback `context`.
   */
  function GetTenantBasePublisherContext(request: Request, context: Option<string>,
                                         publisherContextOf: string -> Option<string>): (r: Option<string>)
    ensures var t := publisherContextOf(GetTenantDomain(request));
              t.None? || t.value == " " ==> r == context
    ensures var t := publisherContextOf(GetTenantDomain(request));
              t.Some? && t.value != " " ==> r == t
  {
    var tenantContext := publisherContextOf(GetTenantDomain(request));
    if tenantContext.Some? && tenantContext.value != " " then tenantContext else context
  }

  /**
   * `getTenantBasedLoginCallBack(request, loginSuffix)`, with the publisher
   * domain mapping of each tenant given by `publisherMappingOf`.
   */
  function GetTenantBasedLoginCallBack(request: Request, loginSuffix: string,
                                       publisherMappingOf: string -> Option<DomainMapping>): (r: Option<string>)
    ensures r.None? <==> publisherMappingOf(GetTenantDomain(request)).None?
    ensures r == CallBack(publisherMappingOf(GetTenantDomain(request)), "login", loginSuffix)
  {
    CallBack(publisherMappingOf(GetTenantDomain(request)), "login", loginSuffix)
  }

  /** `getTenantBasedLogoutCallBack(request, logoutSuffix)`, as the login one with `logout`. */
  function GetTenantBasedLogoutCallBack(request: Request, logoutSuffix: string,
                                        publisherMappingOf: string -> Option<DomainMapping>): (r: Option<string>)
    ensures r.None? <==> publisherMappingOf(GetTenantDomain(request)).None?
    ensures r == CallBack(publisherMappingOf(GetTenantDomain(request)), "logout", logoutSuffix)
  {
    CallBack(publisherMappingOf(GetTenantDomain(request)), "logout", logoutSuffix)
  }

  /**
   * `getServiceProviderTenantDomain(request)`: the request's tenant when
   * per-tenant service providers are enabled for it, else the super tenant.
   */
  function GetServiceProviderTenantDomain(request: Request, perTenantSpEnabled: string -> bool): (r: string)
    ensures perTenantSpEnabled(GetTenantDomain(request)) ==> r == GetTenantDomain(request)
    ensures !perTenantSpEnabled(GetTenantDomain(request)) ==> r == SuperTenant
  {
    var tenantDomain := GetTenantDomain(request);
    if perTenantSpEnabled(tenantDomain) then tenantDomain else SuperTenant
  }

  /**
   * `getAppContextForServerUrl(context, proxyContext)`: the context itself
   * (`null` included) when there is no proxy context; otherwise the context
   * with every occurrence of the proxy context deleted. A `null` context
   * with a proxy context makes Java throw, which the precondition rules out.
   */
  function GetAppContextForServerUrl(context: Option<string>, proxyContext: Option<string>): (r: Option<string>)
    requires context.None? ==> proxyContext.None? || proxyContext.value == ""
    ensures proxyContext.None? || proxyContext.value == "" ==> r == context
    ensures proxyContext.Some? && proxyContext.value != "" ==>
              r == Some(Replace(context.value, proxyContext.value, ""))
    ensures r.Some? ==> |r.value| <= |context.value|
    ensures proxyContext.Some? && proxyContext.value != "" && !OccursIn(proxyContext.value, context.value) ==>
              r == context
  {
    if proxyContext.None? || proxyContext.value == "" then context
    else
      RemoveShortens(context.value, proxyContext.value);
      Some(Replace(context.value, proxyContext.value, ""))
  }
}
