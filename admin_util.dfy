/**
 * The admin portal's servlet helpers (`org.wso2.carbon.apimgt.ui.admin.Util`).
 * Like the publisher's copy, they dereference their arguments without
 * `null` checks; preconditions exclude the inputs on which Java throws.
 */
module AdminUtil {
  import opened Wrappers
  import opened JavaStrings
  import opened JsonValue
  import opened Servlet

  /**
   * `readJsonObj(json, path)` with `path` already split at its dots: the
   * value under the path, or `null` when a key on the way or the final key
   * is missing. A one-segment path reads the top-level map directly.
   */
  method ReadJsonObj(json: JsonMap, path: seq<string>) returns (r: Json)
    requires |path| > 0
    requires Walk(json, Prefix(path)).Found? || Walk(json, Prefix(path)).Missing?
    ensures r == Lookup(json, path)
    ensures |path| == 1 ==> r == (if path[0] in json then json[path[0]] else JNull)
    ensures Walk(json, Prefix(path)).Missing? ==> r == JNull
  {
    var n := |path| - 1;
    var nested := json;
    var i := 0;
    while i < n
      invariant 0 <= i <= n
      invariant Walk(json, Prefix(path)) == Walk(nested, path[i..n])
    {
      var key := path[i];
      assert path[i..n][0] == key && path[i..n][1..] == path[i + 1..n];
      if key !in nested {
        return JNull;
      }
      assert nested[key].JObject?;  // neither null nor another kind of value
      nested := nested[key].fields;
      i := i + 1;
    }
    var last := path[n];
    if last !in nested {
      return JNull;
    }
    r := nested[last];
  }

  /**
   * `getLoopbackOrigin(host)`: https, the host and the management transport
   * port, with no guard on the host; a `null` host is rendered as "null".
   */
  function GetLoopbackOrigin(host: Option<string>, port: int): (r: string)
    ensures host.Some? ==> r == LoopbackOrigin(host.value, port)
    ensures host.None? ==> r == LoopbackOrigin("null", port)
  {
    LoopbackOrigin(ConcatOperand(host), port)
  }

  /**
   * `getAppContextForServerUrl(context, proxyContext)`: the context itself
   * (`null` included) when there is no proxy context; otherwise the context
   * with every occurrence of the proxy context deleted. A `null` context
   * with a proxy context makes Java throw, which the precondition rules out.
   */
  function GetAppContextForServerUrl(context: Option<string>, proxyContext: Option<string>): (r: Option<string>)
    requires context.None? ==> proxyContext.None? || proxyContext.value == ""
    ensures proxyContext.None? || proxyContext.value == "" ==> r == context
    ensures proxyContext.Some? && proxyContext.value != "" ==>
              r == Some(Replace(context.value, proxyContext.value, ""))
    ensures r.Some? ==> |r.value| <= |context.value|
    ensures proxyContext.Some? && proxyContext.value != "" && !OccursIn(proxyContext.value, context.value) ==>
              r == context
  {
    if proxyContext.None? || proxyContext.value == "" then context
    else
      RemoveShortens(context.value, proxyContext.value);
      Some(Replace(context.value, proxyContext.value, ""))
  }
}
