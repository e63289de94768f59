/** The parts of an `http::Uri` ulverify reads or builds. */
module Uris {
  import opened Wrappers
  import Text

  datatype Authority = Authority(userinfo: Option<string>, host: string, port: Option<u16>)

  datatype Uri = Uri(scheme: Option<string>, authority: Option<Authority>, path: string, query: Option<string>)

  const HttpsScheme: string := "https"

  /** `uri.host()` is defined only when the URI has an authority. */
  predicate HasHost(uri: Uri)
  {
    uri.authority.Some?
  }

  function Host(uri: Uri): string
    requires HasHost(uri)
  {
    uri.authority.value.host
  }

  /** The document location on the same host: `https://<host><documentPath>`.
      This is the shared shape of `well_known_aasa_from_url`, `root_aasa_from_url`
      and `assetlinks_json_from_url`; each unwraps `uri.host()`, so a URI without
      a host is outside their domain. */
  function DocumentUri(uri: Uri, documentPath: string): (r: Uri)
    requires HasHost(uri)
    ensures r.scheme == Some(HttpsScheme)
    ensures HasHost(r) && Host(r) == Host(uri)
    ensures r.authority.value.port.None? && r.authority.value.userinfo.None?
    ensures r.path == documentPath && r.query.None?
  {
    Uri(Some(HttpsScheme), Some(Authority(None, Host(uri), None)), documentPath, None)
  }

  /** The document location depends on the input only through its host:
      scheme, user information, port, path and query of the input are all dropped. */
  lemma DocumentUriDependsOnlyOnHost(u: Uri, v: Uri, documentPath: string)
    requires HasHost(u) && HasHost(v) && Host(u) == Host(v)
    ensures DocumentUri(u, documentPath) == DocumentUri(v, documentPath)
  {
  }

  /** `Display` for a URI: `scheme://userinfo@host:port/path?query`. */
  function ToString(uri: Uri): string
  {
    (if uri.scheme.Some? then uri.scheme.value + ":" else "")
    + (if uri.authority.Some? then "//" + AuthorityToString(uri.authority.value) else "")
    + uri.path
    + (if uri.query.Some? then "?" + uri.query.value else "")
  }

  function AuthorityToString(a: Authority): string
  {
    (if a.userinfo.Some? then a.userinfo.value + "@" else "")
    + a.host
    + (if a.port.Some? then ":" + Text.Decimal(a.port.value) else "")
  }

  /** The rendered document location is the https URL of the host and path alone. */
  lemma DocumentUriRendering(u: Uri, documentPath: string)
    requires HasHost(u)
    ensures ToString(DocumentUri(u, documentPath)) == "https://" + Host(u) + documentPath
  {
  }
}
