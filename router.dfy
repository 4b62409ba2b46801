/** route (handler.go:127-171): an ordered chain of URL tests that picks the
    response to a parsed request, or 400 for a request that did not parse. */
module Router {
  import opened Wrappers
  import opened Strings
  import opened Messages
  import opened Builders
  import opened Files

  /** The Accept-Encoding value of a request, "" when it has none. */
  function AcceptEncoding(req: Request): string
  {
    if "Accept-Encoding" in req.headers then req.headers["Accept-Encoding"] else ""
  }

  /** The URL tests of the routing table are mutually exclusive: the second
      character already tells the paths apart. */
  lemma TargetsDistinct(url: string)
    ensures HasPrefix(url, "/echo/") ==> url != "/" && url != "/user-agent" && !HasPrefix(url, "/files/")
    ensures HasPrefix(url, "/files/") ==> url != "/" && url != "/user-agent" && !HasPrefix(url, "/echo/")
  {
    if HasPrefix(url, "/echo/") {
      assert url[1] == "/echo/"[1] == 'e';
      assert "/user-agent"[1] == 'u' && "/files/"[1] == 'f';
    }
    if HasPrefix(url, "/files/") {
      assert url[1] == "/files/"[1] == 'f';
      assert "/user-agent"[1] == 'u' && "/echo/"[1] == 'e';
    }
  }

  /** Whether one of the routes handles the request: the root, an echo, the
      user agent, or a GET or POST under /files/. */
  predicate HasRoute(req: Request)
  {
    || req.url == "/"
    || HasPrefix(req.url, "/echo/")
    || req.url == "/user-agent"
    || (HasPrefix(req.url, "/files/") && (req.httpMethod == "GET" || req.httpMethod == "POST"))
  }

  /** The routing table, case by case in the order the source tests them.
      Every parsed request is answered in its own protocol version; only a
      POST under /files/ whose file opens changes the directory. */
  function Route(store: FileStore, gzip: Compressor, req: Option<Request>): (h: Handled)
    ensures req.None? ==>
      h.response.status == 400 && h.response.version == "HTTP/1.1"
      && h.response.headers == map[] && h.response.body == "" && h.store == store
    ensures req.Some? ==> h.response.version == req.value.version
    ensures h.response.status == 200 || h.response.status == 201
         || h.response.status == 400 || h.response.status == 404
    ensures req.Some? && req.value.url == "/" ==>
      h.response.status == 200 && h.response.headers == map[] && h.response.body == ""
    ensures req.Some? && HasPrefix(req.value.url, "/echo/") ==>
      h == Handled(ResponseWithBody(200, req.value.version, TrimPrefix(req.value.url, "/echo/"),
                                    "text/plain", AcceptEncoding(req.value), gzip), store)
    ensures req.Some? && HasPrefix(req.value.url, "/echo/") ==>
      && h.response.status == 200
      && "Content-Type" in h.response.headers
      && h.response.headers["Content-Type"] == "text/plain"
      && ("Content-Encoding" !in h.response.headers ==> "/echo/" + h.response.body == req.value.url)
      && (!WantsGzip(AcceptEncoding(req.value)) ==> "Content-Encoding" !in h.response.headers)
    ensures req.Some? && req.value.url == "/user-agent" ==>
      && (h.response.status == 400 <==> "User-Agent" !in req.value.headers)
      && ("User-Agent" !in req.value.headers ==>
            h == Handled(BuildResponse(400, req.value.version), store))
      && ("User-Agent" in req.value.headers ==>
            && h == Handled(ResponseWithBody(200, req.value.version, req.value.headers["User-Agent"],
                                             "text/plain", AcceptEncoding(req.value), gzip), store)
            && h.response.status == 200
            && "Content-Type" in h.response.headers
            && h.response.headers["Content-Type"] == "text/plain"
            && ("Content-Encoding" !in h.response.headers ==>
                  h.response.body == req.value.headers["User-Agent"])
            && (!WantsGzip(AcceptEncoding(req.value)) ==> "Content-Encoding" !in h.response.headers))
    ensures req.Some? && HasPrefix(req.value.url, "/files/") && req.value.httpMethod == "GET" ==>
      h.response == HandleGetFile(store, TrimPrefix(req.value.url, "/files/"), req.value.version,
                                  AcceptEncoding(req.value), gzip)
    ensures req.Some? && HasPrefix(req.value.url, "/files/") && req.value.httpMethod == "POST" ==>
      h == HandlePostFile(store, TrimPrefix(req.value.url, "/files/"), req.value.body,
                          req.value.version)
    ensures req.Some? && !HasRoute(req.value) ==>
      h.response.status == 404 && h.response.headers == map[] && h.response.body == ""
    ensures req.Some? ==>
      (h.response.status == 404 <==>
         || !HasRoute(req.value)
         || (&& HasPrefix(req.value.url, "/files/") && req.value.httpMethod == "GET"
             && TrimPrefix(req.value.url, "/files/") !in store.statFails
             && TrimPrefix(req.value.url, "/files/") !in store.files))
    ensures "Content-Length" in h.response.headers ==>
      h.response.headers["Content-Length"] == Decimal(|h.response.body|)
    ensures (req.Some? ==> NoCrlf(req.value.version)) ==> Printable(h.response)
    ensures h.store != store ==>
      && req.Some? && HasPrefix(req.value.url, "/files/") && req.value.httpMethod == "POST"
      && var name := TrimPrefix(req.value.url, "/files/");
         && name !in store.openFails
         && (h.response.status == 201 ==> h.store == store.(files := store.files[name := req.value.body]))
         && (h.response.status == 400 ==>
               h.store == store.(files := store.files[name := Written(req.value.body, store.writeStops[name])]))
  {
    NoCrlfWithoutCr("HTTP/1.1");
    NoCrlfWithoutCr("text/plain");
    NoCrlfWithoutCr("application/octet-stream");
    match req
    case None => Handled(BuildResponse(400, "HTTP/1.1"), store)
    case Some(q) =>
      TargetsDistinct(q.url);
      if q.url == "/" then
        Handled(BuildResponse(200, q.version), store)
      else if HasPrefix(q.url, "/echo/") then
        var echo := TrimPrefix(q.url, "/echo/");
        Handled(ResponseWithBody(200, q.version, echo, "text/plain", AcceptEncoding(q), gzip), store)
      else if q.url == "/user-agent" then
        if "User-Agent" !in q.headers then
          Handled(BuildResponse(400, q.version), store)
        else
          Handled(ResponseWithBody(200, q.version, q.headers["User-Agent"], "text/plain",
                                   AcceptEncoding(q), gzip), store)
      else if HasPrefix(q.url, "/files/") && q.httpMethod == "GET" then
        Handled(HandleGetFile(store, TrimPrefix(q.url, "/files/"), q.version, AcceptEncoding(q), gzip),
                store)
      else if HasPrefix(q.url, "/files/") && q.httpMethod == "POST" then
        HandlePostFile(store, TrimPrefix(q.url, "/files/"), q.body, q.version)
      else
        Handled(BuildResponse(404, q.version), store)
  }

  /** Two requests in a row: a POST of a body under /files/NAME, then a GET of
      the same URL without gzip, answer 201 and then 200 with that body. */
  lemma PostThenGetRoute(store: FileStore, gzip: Compressor, post: Request, get: Request)
    requires HasPrefix(post.url, "/files/") && post.httpMethod == "POST"
    requires get.url == post.url && get.httpMethod == "GET"
    requires !WantsGzip(AcceptEncoding(get))
    requires var name := TrimPrefix(post.url, "/files/");
      WriteSucceeds(store, name) && name !in store.statFails && name !in store.readFails
    ensures var first := Route(store, gzip, Some(post));
      var second := Route(first.store, gzip, Some(get));
      first.response.status == 201 && second.response.status == 200
      && second.response.body == post.body
  {
    var name := TrimPrefix(post.url, "/files/");
    PostThenGet(store, name, post.body, post.version, AcceptEncoding(get), gzip);
    TargetsDistinct(post.url);
  }
}
