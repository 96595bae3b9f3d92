/**
 * Where the three portal copies of `Util` behave alike, and where the
 * developer portal's `null` guards make it differ.
 */
module PortalsAgree {
  import opened Wrappers
  import opened JsonValue
  import opened Servlet
  import DevportalUtil
  import PublisherUtil
  import AdminUtil

  /** On every actual request the two tenant resolutions agree. */
  lemma TenantDomainAgrees(request: Request)
    ensures PublisherUtil.GetTenantDomain(request) == DevportalUtil.GetTenantDomain(Some(request))
  {
  }

  /**
   * On a non-`null` context the three app-context computations agree; on a
   * `null` one without a proxy context the developer portal answers "" where
   * the other two answer `null`.
   */
  lemma AppContextAgrees(context: Option<string>, proxyContext: Option<string>)
    requires context.None? ==> proxyContext.None? || proxyContext.value == ""
    ensures context.Some? ==>
              && PublisherUtil.GetAppContextForServerUrl(context, proxyContext)
                   == Some(DevportalUtil.GetAppContextForServerUrl(context, proxyContext))
              && AdminUtil.GetAppContextForServerUrl(context, proxyContext)
                   == PublisherUtil.GetAppContextForServerUrl(context, proxyContext)
    ensures context.None? ==>
              && DevportalUtil.GetAppContextForServerUrl(context, proxyContext) == ""
              && AdminUtil.GetAppContextForServerUrl(context, proxyContext).None?
  {
  }

  /**
   * On a non-empty host the admin and developer portal origins agree; on a
   * `null` host the admin portal builds "https://null:<port>" where the
   * developer portal gives no origin.
   */
  lemma LoopbackOriginAgrees(host: Option<string>, port: int)
    ensures host.Some? && host.value != "" ==>
              DevportalUtil.GetLoopbackOrigin(host, port) == Some(AdminUtil.GetLoopbackOrigin(host, port))
    ensures host.None? ==>
              && DevportalUtil.GetLoopbackOrigin(host, port).None?
              && AdminUtil.GetLoopbackOrigin(host, port) == LoopbackOrigin("null", port)
  {
  }
}
