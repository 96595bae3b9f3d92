/**
 * The developer portal's servlet helpers (`org.wso2.carbon.apimgt.ui.devportal.Util`).
 * This copy guards against `null` inputs where the publisher and admin
 * copies do not. Values the Java code asks `APIUtil` for (the transport
 * port, tenant contexts, domain mappings, the per-tenant service provider
 * switch) are parameters here.
 */
module DevportalUtil {
  import opened Wrappers
  import opened JavaStrings
  import opened JsonValue
  import opened Servlet

  /**
   * `readJsonObj(json, path)` with `path` already split at its dots. A
   * `null` map, a `null` path and the empty path (whose split is the one
   * empty segment) all give `null`; so does a walk that meets a missing key
   * or a JSON `null` before the last segment. A walk through a value that
   * is neither a map nor `null` makes Java throw `ClassCastException`,
   * which the precondition rules out.
   */
  method ReadJsonObj(json: Option<JsonMap>, path: Option<seq<string>>) returns (r: Json)
    requires json.Some? && path.Some? && path.value != [""] ==>
               |path.value| > 0 && !Walk(json.value, Prefix(path.value)).NotAMap?
    ensures json.None? || path.None? || path.value == [""] ==> r == JNull
    ensures json.Some? && path.Some? && path.value != [""] ==> r == Lookup(json.value, path.value)
  {
    if json.None? {
      return JNull;
    }
    if path.None? || path.value == [""] {
      return JNull;
    }
    var segments := path.value;
    var n := |segments| - 1;
    var nested := json.value;
    var i := 0;
    while i < n
      invariant 0 <= i <= n
      invariant Walk(json.value, Prefix(segments)) == Walk(nested, segments[i..n])
    {
      var key := segments[i];
      assert segments[i..n][0] == key && segments[i..n][1..] == segments[i + 1..n];
      if key !in nested {
        return JNull;
      }
      var next := nested[key];
      if next.JNull? {
        return JNull;
      }
      assert next.JObject?;  // the cast to Map succeeds
      nested := next.fields;
      i := i + 1;
    }
    var last := segments[n];
    if last !in nested {
      return JNull;
    }
    r := nested[last];
  }

  /**
   * `getLoopbackOrigin(host)`: no origin for a `null` or empty host;
   * otherwise https, the host and the management transport port.
   */
  function GetLoopbackOrigin(host: Option<string>, port: int): (r: Option<string>)
    ensures r.None? <==> host.None? || host.value == ""
    ensures r.Some? ==> r.value == LoopbackOrigin(host.value, port)
  {
    if host.None? || host.value == "" then None else Some(LoopbackOrigin(host.value, port))
  }

  /**
   * `getTenantDomain(request)`: the `tenant` parameter, failing that the
   * `X-WSO2-Tenant` header, failing that the super tenant; a `null` request
   * gives the super tenant.
   */
  function GetTenantDomain(request: Option<Request>): (r: string)
    ensures request.None? ==> r == SuperTenant
    ensures request.Some? && TenantParameter in request.value.parameters ==>
              r == request.value.parameters[TenantParameter]
    ensures request.Some? && TenantParameter !in request.value.parameters && TenantHeader in request.value.headers ==>
              r == request.value.headers[TenantHeader]
    ensures request.Some? && TenantParameter !in request.value.parameters && TenantHeader !in request.value.headers ==>
              r == SuperTenant
  {
    match request
    case None => SuperTenant
    case Some(req) =>
      match Parameter(req, TenantParameter)
      case Some(t) => t
      case None =>
        match Header(req, TenantHeader)
        case Some(t) => t
        case None => SuperTenant
  }

  /**
   * `getTenantBaseStoreContext(request, context)`: the tenant's developer
   * portal context when `APIUtil` knows one, else `context`.
   */
  function GetTenantBaseStoreContext(request: Option<Request>, context: Option<string>,
                                     devPortalContextOf: string -> Option<string>): (r: Option<string>)
    ensures devPortalContextOf(GetTenantDomain(request)).None? ==> r == context
    ensures devPortalContextOf(GetTenantDomain(request)).Some? ==> r == devPortalContextOf(GetTenantDomain(request))
  {
    var tenantContext := devPortalContextOf(GetTenantDomain(request));
    if tenantContext.None? then context else tenantContext
  }

  /**
   * `getTenantBasedLoginCallBack(request, loginSuffix)`, with the store
   * domain mapping of each tenant given by `storeMappingOf`.
   */
  function GetTenantBasedLoginCallBack(request: Option<Request>, loginSuffix: string,
                                       storeMappingOf: string -> Option<DomainMapping>): (r: Option<string>)
    ensures r.None? <==> storeMappingOf(GetTenantDomain(request)).None?
    ensures r == CallBack(storeMappingOf(GetTenantDomain(request)), "login", loginSuffix)
  {
    CallBack(storeMappingOf(GetTenantDomain(request)), "login", loginSuffix)
  }

  /** `getTenantBasedLogoutCallBack(request, logoutSuffix)`, as the login one with `logout`. */
  function GetTenantBasedLogoutCallBack(request: Option<Request>, logoutSuffix: string,
                                        storeMappingOf: string -> Option<DomainMapping>): (r: Option<string>)
    ensures r.None? <==> storeMappingOf(GetTenantDomain(request)).None?
    ensures r == CallBack(storeMappingOf(GetTenantDomain(request)), "logout", logoutSuffix)
  {
    CallBack(storeMappingOf(GetTenantDomain(request)), "logout", logoutSuffix)
  }

  /** `getCustomUrlEnabledDomain(request)`: the `X-WSO2-Tenant` header, `null` for a `null` request. */
  function GetCustomUrlEnabledDomain(request: Option<Request>): (r: Option<string>)
    ensures request.None? ==> r.None?
    ensures request.Some? ==> (r.Some? <==> TenantHeader in request.value.headers)
    ensures r.Some? ==> r.value == request.value.headers[TenantHeader]
  {
    match request
    case None => None
    case Some(req) => Header(req, TenantHeader)
  }

  /** `getTenantBasedCustomUrl(request)`: https and the mapping's `customUrl`; none without a mapping. */
  function GetTenantBasedCustomUrl(request: Option<Request>,
                                   storeMappingOf: string -> Option<DomainMapping>): (r: Option<string>)
    ensures r.None? <==> storeMappingOf(GetTenantDomain(request)).None?
    ensures r.Some? ==> r.value == "https://" + ConcatOperand(Get(storeMappingOf(GetTenantDomain(request)).value, "customUrl"))
  {
    match storeMappingOf(GetTenantDomain(request))
    case None => None
    case Some(m) => Some("https://" + ConcatOperand(Get(m, "customUrl")))
  }

  /**
   * `getServiceProviderTenantDomain(request)`: the request's tenant when
   * per-tenant service providers are enabled for it, else the super tenant.
   */
  function GetServiceProviderTenantDomain(request: Option<Request>, perTenantSpEnabled: string -> bool): (r: string)
    ensures perTenantSpEnabled(GetTenantDomain(request)) ==> r == GetTenantDomain(request)
    ensures !perTenantSpEnabled(GetTenantDomain(request)) ==> r == SuperTenant
  {
    var tenantDomain := GetTenantDomain(request);
    if perTenantSpEnabled(tenantDomain) then tenantDomain else SuperTenant
  }

  /**
   * `getAppContextForServerUrl(context, proxyContext)`: "" for a `null`
   * context; the context itself when there is no proxy context; otherwise
   * the context with every occurrence of the proxy context deleted.
   */
  function GetAppContextForServerUrl(context: Option<string>, proxyContext: Option<string>): (r: string)
    ensures context.None? ==> r == ""
    ensures context.Some? && (proxyContext.None? || proxyContext.value == "") ==> r == context.value
    ensures context.Some? && proxyContext.Some? && proxyContext.value != "" ==>
              r == Replace(context.value, proxyContext.value, "")
    ensures context.Some? && |r| == |context.value| ==> r == context.value
    ensures context.Some? && proxyContext.Some? && proxyContext.value != "" && !OccursIn(proxyContext.value, context.value) ==>
              r == context.value
  {
    match context
    case None => ""
    case Some(c) =>
      if proxyContext.None? || proxyContext.value == "" then c
      else
        RemoveShortens(c, proxyContext.value);
        Replace(c, proxyContext.value, "")
  }
}
