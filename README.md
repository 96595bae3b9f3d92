# Vulnerability reconciliation and portal servlet helpers, in Dafny

This project models two parts of an API-management portal suite.

**Vulnerability reconciliation** (`ApplicationUtils`, module `ApplicationUtils`).
A security analyzer keeps one list of findings for each (portal, branch) pair.
It brings that list up to date against a freshly scanned list.
A finding (`Vulnerability`) is identified by its `id` together with the component it comes `from`.
Its `state` and its other scanner fields take no part in identity.
The model covers:
- the linear existence check;
- ingestion of a scan document: the name is derived from portal and branch, a missing document is an error, and a `null` state becomes `"new"`;
- the in-place append of new findings to the caller's list, which is a `class` holding a `seq`;
- the pruning of findings the scan no longer reports.

Each method is proved against a specification function (`Merged`, `Novel`, `Retained`).
Lemmas then prove properties of those functions:
- the stored list stays a prefix ("first write wins");
- appended findings keep scan order, and each identity is appended at most once;
- merging twice is merging once;
- pruning is an order-preserving filter;
- after a merge-then-prune cycle, the identities held are exactly those of the scan.

**Portal servlet helpers** (the three `Util` classes of the admin, publisher and developer portals).
Each copy is modelled in its own module, because the copies differ.
`readJsonObj` walks a dotted path through nested JSON maps in a loop.
Each copy's loop is proved against one recursive walk (`JsonValue.Walk`).
The developer portal's copy returns `null` for `null` inputs and for a `null` met on the way.
The publisher and admin copies would throw on those inputs, so preconditions exclude them.
The other helpers are modelled as functions:
- tenant resolution (parameter, then header, then `carbon.super`);
- proxy-context removal, which models Java's `String.replace`;
- the loopback origin;
- the login and logout callbacks;
- the service-provider tenant.

Values the Java code obtains from `APIUtil` are parameters, passed as values or as functions of the tenant domain.
These are the transport port, the tenant contexts, the domain mappings and the per-tenant service-provider switch.

Java `null` is `Option.None`.
An exception thrown to the caller is `Result.Failure`, or a precondition where the exception is a runtime crash.
Java's `+` renders a `null` operand as `"null"`, and the model keeps this (`JavaStrings.ConcatOperand`):
- a domain mapping without `customUrl` gives `"https://null" + suffix`;
- the admin portal's unguarded `getLoopbackOrigin` gives `"https://null:<port>"` for a `null` host.

Two facts about the code shape the model:
- A scan document that is not valid JSON, or that lacks a `vulnerabilities` key, is not a reported error. Invalid JSON parses to `null`, and `keySet()` then throws (ApplicationUtils.java:122). A missing key makes the lookup at ApplicationUtils.java:128 give `null`, and `iterator()` then throws at :129. Either way a runtime exception follows. This path is left out.
- The document name is not unambiguous. Portal `acme_dev` on `main` and portal `acme` on branch `dev` read the same `acme_dev.json` (`DocumentNameCollision`). It is unambiguous only for portal names without `_` (`DocumentNameInjective`).

## Model

| member | source | states |
|---|---|---|
| `ApplicationUtils.CheckExistenceOfVulnerability` | security/security-backend/src/main/java/com/securityanalyzer/backend/util/ApplicationUtils.java:75-83 | the scan answers true exactly when some list element has both the probe's `id` and its `from`, i.e. when the probe's identity is among the list's identities |
| `ApplicationUtils.KeysAt` | security/security-backend/src/main/java/com/securityanalyzer/backend/util/ApplicationUtils.java:77-82 | an identity is in the list's identity set exactly when some element carries it |
| `ApplicationUtils.WithDefaultState` | security/security-backend/src/main/java/com/securityanalyzer/backend/util/ApplicationUtils.java:136-138 | a `null` state becomes `"new"`, a non-null state is kept, and `id`, `from` and the other fields are untouched |
| `ApplicationUtils.GetVulnerabilityListFromJson` | security/security-backend/src/main/java/com/securityanalyzer/backend/util/ApplicationUtils.java:87-147 | a missing scan document is a `FileNotFound` failure naming the document; otherwise one finding per array element, in array order, each the element with its state defaulted, so every finding has a state |
| `ApplicationUtils.DefaultStateKeepsKeys` | security/security-backend/src/main/java/com/securityanalyzer/backend/util/ApplicationUtils.java:128-141 | ingestion keeps exactly the identity set of the scanned array |
| `ApplicationUtils.DocumentName` | security/security-backend/src/main/java/com/securityanalyzer/backend/util/ApplicationUtils.java:97-101 | the name starts with the portal and ends with `.json`; on `main` nothing lies between them; on any other branch an `_` and the branch lie between them |
| `ApplicationUtils.DocumentNameExamples` | security/security-backend/src/main/java/com/securityanalyzer/backend/util/ApplicationUtils.java:97-101 | `acme` on `main` reads `acme.json`; `acme` on `dev` reads `acme_dev.json` |
| `ApplicationUtils.DocumentNameInjective` | security/security-backend/src/main/java/com/securityanalyzer/backend/util/ApplicationUtils.java:97-101 | for portal names without `_`, equal document names mean equal portals and equal branches |
| `ApplicationUtils.NoUnderscoreAt` | security/security-backend/src/main/java/com/securityanalyzer/backend/util/ApplicationUtils.java:97-101 | for portal names without `_`, a main-branch document (`<portal>.json`) never has the name of another branch's document (`<portal>_<branch>.json`) |
| `ApplicationUtils.DocumentNameCollision` | security/security-backend/src/main/java/com/securityanalyzer/backend/util/ApplicationUtils.java:97-101 | `acme_dev` on `main` and `acme` on `dev` read the same document, so the restriction above is needed |
| `ApplicationUtils.AddNewlyIdentifiedVulnerabilities` | security/security-backend/src/main/java/com/securityanalyzer/backend/util/ApplicationUtils.java:152-162 | the caller's list becomes its old contents followed by the new scanned findings (`Novel`), which is `Merged(old, scanned)`; its identities become the old ones plus the scanned ones |
| `ApplicationUtils.MergedKeys` | security/security-backend/src/main/java/com/securityanalyzer/backend/util/ApplicationUtils.java:154-160 | after the merge every scanned identity is present and no other identity is added |
| `ApplicationUtils.MergedIsBasePlusNovel` | security/security-backend/src/main/java/com/securityanalyzer/backend/util/ApplicationUtils.java:152-162 | the old list is an untouched prefix of the result (first write wins), followed by exactly the scanned findings whose identity is neither stored nor earlier in the scan |
| `ApplicationUtils.NovelKeys` | security/security-backend/src/main/java/com/securityanalyzer/backend/util/ApplicationUtils.java:154-160 | the appended findings carry exactly the scanned identities that were not stored |
| `ApplicationUtils.NovelFromFresh` | security/security-backend/src/main/java/com/securityanalyzer/backend/util/ApplicationUtils.java:154-160 | the appended findings are a subsequence of the scan (scan order), and no identity is appended twice even when the scan repeats it |
| `ApplicationUtils.MergedNothingNew` | security/security-backend/src/main/java/com/securityanalyzer/backend/util/ApplicationUtils.java:154-160 | a scan whose identities are all stored leaves the list unchanged |
| `ApplicationUtils.MergedIdempotent` | security/security-backend/src/main/java/com/securityanalyzer/backend/util/ApplicationUtils.java:152-162 | merging the same scan twice gives the same list as merging it once |
| `ApplicationUtils.MergedKeepsDistinct` | security/security-backend/src/main/java/com/securityanalyzer/backend/util/ApplicationUtils.java:152-162 | a stored list without repeated identities has none after the merge |
| `ApplicationUtils.FirstWriteWinsExample` | security/security-backend/src/main/java/com/securityanalyzer/backend/util/ApplicationUtils.java:152-162 | a stored finding re-reported with another state is not overwritten |
| `ApplicationUtils.RemoveFalsePositives` | security/security-backend/src/main/java/com/securityanalyzer/backend/util/ApplicationUtils.java:166-180 | returns a new list that is a subsequence of the stored list and holds exactly the stored findings whose identity the scan reports; both arguments are values, so neither changes |
| `ApplicationUtils.RetainedIsSubsequence` | security/security-backend/src/main/java/com/securityanalyzer/backend/util/ApplicationUtils.java:169-177 | pruning keeps stored findings in their order |
| `ApplicationUtils.RetainedMembers` | security/security-backend/src/main/java/com/securityanalyzer/backend/util/ApplicationUtils.java:169-177 | a finding survives pruning exactly when it was stored and its identity is still reported |
| `ApplicationUtils.RetainedKeys` | security/security-backend/src/main/java/com/securityanalyzer/backend/util/ApplicationUtils.java:169-177 | the identities left are the intersection of the stored and scanned identities |
| `ApplicationUtils.RetainedAllReported` | security/security-backend/src/main/java/com/securityanalyzer/backend/util/ApplicationUtils.java:169-177 | a list all of whose findings are still reported is kept whole |
| `ApplicationUtils.CycleConverges` | security/security-backend/src/main/java/com/securityanalyzer/backend/util/ApplicationUtils.java:149-180 | add-new then prune with the same scan gives the stored findings still reported (unchanged, in order) followed by the new ones; its identity set equals the scan's; every stored finding still reported survives with its original fields |
| `ApplicationUtils.CycleExample` | security/security-backend/src/main/java/com/securityanalyzer/backend/util/ApplicationUtils.java:149-180 | stored `[a, b]`, scanned `[b', c]` with `b'` a re-report of `b`: the cycle yields `[b, c]` |
| `JsonValue.WalkAppend` | portals/devportal/src/main/java/org/wso2/carbon/apimgt/ui/devportal/Util.java:89-103 | walking `p + q` is walking `p` and then walking `q` from the map reached |
| `JsonValue.DeadEndIsFinal` | portals/devportal/src/main/java/org/wso2/carbon/apimgt/ui/devportal/Util.java:91-103 | once a walk meets a missing key or a `null`, every longer path reads `null` |
| `JsonValue.LookupNest` | portals/devportal/src/main/java/org/wso2/carbon/apimgt/ui/devportal/Util.java:105-111 | reading a path out of the nested object built for it gives back the stored value, and the walk meets only maps |
| `DevportalUtil.ReadJsonObj` | portals/devportal/src/main/java/org/wso2/carbon/apimgt/ui/devportal/Util.java:76-112 | `null` for a `null` map, a `null` path or the empty path; otherwise the value under the final key of the map reached, `null` when a non-final key is missing or `null` or the final key is absent; a non-map mid-path (a `ClassCastException`) is excluded |
| `DevportalUtil.GetLoopbackOrigin` | portals/devportal/src/main/java/org/wso2/carbon/apimgt/ui/devportal/Util.java:121-135 | no origin exactly for a `null` or empty host; otherwise exactly `Servlet.LoopbackOrigin` of the host and the port |
| `DevportalUtil.GetTenantDomain` | portals/devportal/src/main/java/org/wso2/carbon/apimgt/ui/devportal/Util.java:247-266 | a `null` request gives `carbon.super`; the `tenant` parameter beats the `X-WSO2-Tenant` header, which is used only without the parameter; `carbon.super` when both are absent |
| `DevportalUtil.GetTenantBaseStoreContext` | portals/devportal/src/main/java/org/wso2/carbon/apimgt/ui/devportal/Util.java:159-176 | the tenant's developer-portal context when one exists, else the given context |
| `DevportalUtil.GetTenantBasedLoginCallBack` | portals/devportal/src/main/java/org/wso2/carbon/apimgt/ui/devportal/Util.java:178-204 | none exactly when the resolved tenant has no store mapping; otherwise the `login` callback rule of `Servlet.CallBack` |
| `DevportalUtil.GetTenantBasedLogoutCallBack` | portals/devportal/src/main/java/org/wso2/carbon/apimgt/ui/devportal/Util.java:206-232 | as the login callback, with the `logout` entry |
| `DevportalUtil.GetCustomUrlEnabledDomain` | portals/devportal/src/main/java/org/wso2/carbon/apimgt/ui/devportal/Util.java:268-278 | `null` for a `null` request; otherwise the `X-WSO2-Tenant` header, `null` when absent |
| `DevportalUtil.GetTenantBasedCustomUrl` | portals/devportal/src/main/java/org/wso2/carbon/apimgt/ui/devportal/Util.java:280-298 | none exactly without a store mapping; otherwise `https://` and the mapping's `customUrl` (`null` rendered as "null") |
| `DevportalUtil.GetServiceProviderTenantDomain` | portals/devportal/src/main/java/org/wso2/carbon/apimgt/ui/devportal/Util.java:300-317 | the request's tenant when per-tenant service providers are enabled for it, `carbon.super` otherwise |
| `DevportalUtil.GetAppContextForServerUrl` | portals/devportal/src/main/java/org/wso2/carbon/apimgt/ui/devportal/Util.java:348-365 | `""` for a `null` context; the context unchanged for a `null` or empty proxy context; otherwise every occurrence of the proxy context removed, which leaves the context unchanged exactly when the proxy context does not occur in it |
| `PublisherUtil.ReadJsonObj` | portals/publisher/src/main/java/org/wso2/carbon/apimgt/ui/publisher/Util.java:75-98 | `null` when a non-final key is missing; otherwise the value under the final key of the map reached, `null` when absent; a `null` or non-map mid-path value (where Java throws) is excluded |
| `PublisherUtil.GetLoopbackOrigin` | portals/publisher/src/main/java/org/wso2/carbon/apimgt/ui/publisher/Util.java:107-115 | the origin of the host and port with no host guard; a `null` host is rendered as "null" |
| `PublisherUtil.GetTenantDomain` | portals/publisher/src/main/java/org/wso2/carbon/apimgt/ui/publisher/Util.java:225-239 | the `tenant` parameter, failing that the `X-WSO2-Tenant` header, failing that `carbon.super` |
| `PublisherUtil.GetTenantBasePublisherContext` | portals/publisher/src/main/java/org/wso2/carbon/apimgt/ui/publisher/Util.java:143-156 | the tenant context unless it is `null` or exactly `" "`, in which case the fallback context |
| `PublisherUtil.GetTenantBasedLoginCallBack` | portals/publisher/src/main/java/org/wso2/carbon/apimgt/ui/publisher/Util.java:158-181 | none exactly when the resolved tenant has no publisher mapping; otherwise the `login` callback rule of `Servlet.CallBack` |
| `PublisherUtil.GetTenantBasedLogoutCallBack` | portals/publisher/src/main/java/org/wso2/carbon/apimgt/ui/publisher/Util.java:183-206 | as the login callback, with the `logout` entry |
| `PublisherUtil.GetServiceProviderTenantDomain` | portals/publisher/src/main/java/org/wso2/carbon/apimgt/ui/publisher/Util.java:241-254 | the tenant domain when per-tenant service providers are enabled for it, `carbon.super` otherwise |
| `PublisherUtil.GetAppContextForServerUrl` | portals/publisher/src/main/java/org/wso2/carbon/apimgt/ui/publisher/Util.java:286-295 | the context (`null` included) for a `null` or empty proxy context; otherwise every occurrence removed, never longer, unchanged when the proxy context does not occur; a `null` context with a proxy context (a `NullPointerException`) is excluded |
| `AdminUtil.ReadJsonObj` | portals/admin/src/main/java/org/wso2/carbon/apimgt/ui/admin/Util.java:64-88 | `null` when a non-final key is missing; otherwise the value under the final key, `null` when absent; a one-segment path reads the top-level map directly |
| `AdminUtil.GetLoopbackOrigin` | portals/admin/src/main/java/org/wso2/carbon/apimgt/ui/admin/Util.java:97-104 | exactly `https://` + host + `:` + port, with no host guard; a `null` host is rendered as "null" |
| `AdminUtil.GetAppContextForServerUrl` | portals/admin/src/main/java/org/wso2/carbon/apimgt/ui/admin/Util.java:137-147 | the context unchanged for a `null` or empty proxy context; otherwise every occurrence of the proxy context removed |
| `Servlet.CallBack` | portals/publisher/src/main/java/org/wso2/carbon/apimgt/ui/publisher/Util.java:162-180 | none without a mapping; the mapping's own entry when present; otherwise `https://` + `customUrl` + suffix, with a missing `customUrl` rendered as "null" |
| `Servlet.LoopbackOrigin` | portals/admin/src/main/java/org/wso2/carbon/apimgt/ui/admin/Util.java:98-99 | the origin is `https://`, then the host, then `:`, then Java's decimal rendering of the port, which is canonical (digits, a minus sign exactly for a negative port, no leading zero) and reads back as the port |
| `JavaStrings.ReplaceAbsent` | portals/admin/src/main/java/org/wso2/carbon/apimgt/ui/admin/Util.java:139-140 | replacing a string that does not occur leaves the text unchanged |
| `JavaStrings.ReplaceLeftToRight` | portals/admin/src/main/java/org/wso2/carbon/apimgt/ui/admin/Util.java:139-140 | the scan is left to right and non-overlapping: replacing `aa` by `b` in `aaa` gives `ba` |
| `JavaStrings.RemoveShortens` | portals/admin/src/main/java/org/wso2/carbon/apimgt/ui/admin/Util.java:139-140 | removing occurrences never lengthens; the length is kept exactly when there is no occurrence, and then the text is unchanged |
| `JavaStrings.StripLeading` | portals/devportal/src/main/java/org/wso2/carbon/apimgt/ui/devportal/Util.java:331-347 | a context made of the proxy path followed by text that does not contain it comes back as that text (`/apim/devportal` with proxy `/apim` gives `/devportal`) |
| `JavaStrings.NatToStringRoundTrip` | portals/devportal/src/main/java/org/wso2/carbon/apimgt/ui/devportal/Util.java:129-130 | the decimal rendering of a natural number is all digits, has no leading zero unless it is `0`, and reads back as the number |
| `JavaStrings.IntToStringRoundTrip` | portals/devportal/src/main/java/org/wso2/carbon/apimgt/ui/devportal/Util.java:129-130 | the rendering of an `int` port is canonical, starts with `-` exactly for a negative value, and reads back as the port |
| `PortalsAgree.TenantDomainAgrees` | portals/publisher/src/main/java/org/wso2/carbon/apimgt/ui/publisher/Util.java:225-239 | on every non-null request the publisher and developer-portal tenant resolutions agree |
| `PortalsAgree.AppContextAgrees` | portals/admin/src/main/java/org/wso2/carbon/apimgt/ui/admin/Util.java:137-147 | on a non-null context the three portals compute the same app context; on a `null` one the developer portal answers `""` and the admin portal `null` |
| `PortalsAgree.LoopbackOriginAgrees` | portals/admin/src/main/java/org/wso2/carbon/apimgt/ui/admin/Util.java:97-104 | admin and developer portal origins agree on non-empty hosts; for a `null` host admin builds `https://null:<port>` where the developer portal gives none |

## Left out

- `serializeList` / `deSerializeList` (ApplicationUtils.java:25-70): Java object serialization of the whole store to a file. This is I/O with a library-defined byte format. A missing store file makes `deSerializeList` log a warning that the application may be running for the first time, and return `null`. Other read errors are only logged, and `table` stays `null`.
- File reading and JSON decoding in `getVulnerabilityListFromJSON`: the model receives each present document's decoded `vulnerabilities` array (the `documents` map). An `IOException` other than a missing file is swallowed and leaves `text` `null`; that path is not modelled, nor are unparsable documents or a missing `vulnerabilities` key (runtime exceptions in the code). Gson's decoding of each element into a `Vulnerability` is not modelled. Gson drops JSON members that the class does not declare, so `extra` stands only for the class's other declared fields, not for arbitrary scanner fields.
- `ApplicationUtils.CheckExistenceOfVulnerability`: a `Vulnerability` whose `id` or `from` is `null` is not representable. In Java a `null` probe `id` throws once the list is non-empty. A `null` probe `from` throws only when an element with an equal `id` is met, because the `id` test comes first and `&&` short-circuits. A `null` on a list element never matches.
- `readJsonFile` in all three portals: file I/O and Gson decoding.
- `getIDPOrigin`, `getIDPCheckSessionEndpoint`, `isPerTenantServiceProviderEnabled` and `isEnableEmailUserName`: direct calls into `APIUtil` and `CarbonUtils`. The service-provider switch is a function parameter of `GetServiceProviderTenantDomain`.
- `String.split("\\.")`: every `ReadJsonObj` takes the path already split, as a non-empty sequence of segments. Java drops trailing empty segments, and a path made only of dots throws; neither is modelled. The developer portal's empty-path guard is the split `[""]`, the only split of the empty string.
- `PublisherUtil.ReadJsonObj`, `AdminUtil.ReadJsonObj`: a `null` map, a `null` path, a `null` or non-map value before the last segment make Java throw; preconditions exclude these instead of modelling the exceptions.
- `DevportalUtil.ReadJsonObj`: a non-map, non-null value before the last segment makes Java throw `ClassCastException`; a precondition excludes it.
- `PublisherUtil.GetTenantDomain` and the publisher helpers built on it take a `Request`, not an `Option<Request>`: a `null` request throws `NullPointerException` in Java.
- `PublisherUtil.GetAppContextForServerUrl`, `AdminUtil.GetAppContextForServerUrl`: a `null` context with a non-empty proxy context throws in Java; a precondition excludes it.
- Header lookup is exact on the name; the servlet container's case-insensitive header names are not modelled.
- Domain mapping entries are strings. A non-string `login` or `logout` entry would make the Java cast throw. A `customUrl` is never cast: it is concatenated, so Java renders any value through `String.valueOf`, and only string values are modelled. A `null` callback suffix is not representable.
- The transport port is an unbounded `int`; the rendering agrees with Java's for every 32-bit value.
- Aliasing in `AddNewlyIdentifiedVulnerabilities`: the scanned list is a value. If a caller passed the same `ArrayList` twice, every scanned finding would already be present and nothing would be appended, which the value model also gives.
- Failures of the foreign calls are not modelled. `APIUtil` can throw `APIManagementException` or `RegistryException`, which propagate out of `getTenantBaseStoreContext`, the login and logout callbacks, `getTenantBasedCustomUrl`, `getTenantBasePublisherContext` and `getServiceProviderTenantDomain`. The parameters standing for those calls always answer.
- Logging everywhere.
