/** `url_normalize` of index.js over the record Node's `url.parse` produces
    and `url.format` consumes. Both library calls are parameters of
    `NormalizeText`; the decision itself is on the record. */
module Url {
  import opened Wrappers
  import opened Text

  /** The fields of a parsed URL that `url_normalize` reads or sets; `None` is
      a missing (null or undefined) field. */
  datatype UrlRecord = UrlRecord(
    protocol: Option<string>, slashes: Option<bool>, auth: Option<string>,
    hostname: Option<string>, port: Option<string>, pathname: Option<string>,
    search: Option<string>, hash: Option<string>)

  predicate IsWebProtocol(p: Option<string>) {
    p == Some("http:") || p == Some("https:")
  }

  /** A present, non-empty field (JavaScript truthiness of a string). */
  predicate Truthy(f: Option<string>) {
    f.Some? && f.value != ""
  }

  /** `url_normalize` on the parsed record: only http and https URLs with a
      host; protocol and host lower-cased, credentials, fragment and the
      slashes flag dropped, an empty path made `/`, port and query kept. */
  function Normalize(u: UrlRecord): (r: Option<UrlRecord>)
    ensures r.None? <==> !IsWebProtocol(u.protocol) || !Truthy(u.hostname)
    ensures r.Some? ==>
      && r.value.protocol == u.protocol
      && r.value.hostname == Some(Lower(u.hostname.value))
      && Truthy(r.value.hostname) && IsLower(r.value.hostname.value)
      && r.value.slashes.None? && r.value.auth.None? && r.value.hash.None?
      && r.value.port == u.port && r.value.search == u.search
      && Truthy(r.value.pathname)
      && (Truthy(u.pathname) ==> r.value.pathname == u.pathname)
      && (!Truthy(u.pathname) ==> r.value.pathname == Some("/"))
  {
    if !IsWebProtocol(u.protocol) || !Truthy(u.hostname) then None
    else
      LowerOfLower(u.protocol.value);
      LowerIsLower(u.hostname.value);
      Some(UrlRecord(
        Some(Lower(u.protocol.value)), None, None, Some(Lower(u.hostname.value)),
        u.port, if Truthy(u.pathname) then u.pathname else Some("/"), u.search, None))
  }

  /** At the record level `url_normalize` is idempotent. */
  lemma NormalizeIdempotent(u: UrlRecord)
    requires Normalize(u).Some?
    ensures Normalize(Normalize(u).value) == Normalize(u)
  {
    var r := Normalize(u).value;
    LowerIsLower(u.hostname.value);
    LowerOfLower(r.hostname.value);
  }

  /** `url_normalize(text)`: parse the text, normalise the record, format it. */
  function NormalizeText(s: string, parse: string -> UrlRecord, format: UrlRecord -> string): (r: Option<string>)
    ensures r.Some? <==> Normalize(parse(s)).Some?
  {
    match Normalize(parse(s))
    case None => None
    case Some(n) => Some(format(n))
  }
}
