/** The two values one request/response exchange works on (handler.go:18-31).
    Header maps hold at most one value per name: on a duplicate the later
    line wins. */
module Messages {
  import opened Strings

  datatype Request = Request(
    httpMethod: string,
    url: string,
    version: string,
    headers: map<string, string>,
    body: string)

  datatype Response = Response(
    status: int,
    version: string,
    headers: map<string, string>,
    body: string)

  /** Neither the version nor any header name or value of a response holds a
      line break, so each field is one line on the wire. */
  predicate Printable(r: Response)
  {
    && NoCrlf(r.version)
    && forall name | name in r.headers :: NoCrlf(name) && NoCrlf(r.headers[name])
  }
}
