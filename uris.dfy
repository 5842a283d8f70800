/**
 * System.Uri, reduced to the parts the updater reads. Parsing itself
 * (Uri.TryCreate with UriKind.Absolute) is a parameter of the model: a
 * parser maps a string to the Uri it denotes, or to None when TryCreate
 * fails.
 */
module Uris {
  import opened Common

  /** A parsed absolute URI: Scheme, Host, AbsolutePath and ToString(). */
  datatype Uri = Uri(scheme: string, host: string, absolutePath: string, text: string)

  /** Uri.TryCreate(s, UriKind.Absolute, out uri). */
  type UriParser = string -> Option<Uri>

  const UriSchemeHttp := "http"
  const UriSchemeHttps := "https"
  const GitHubHost := "github.com"
}
