/** handleGetFile and handlePostFile (handler.go:216-250) over an abstract
    file directory. */
module Files {
  import opened Wrappers
  import opened Strings
  import opened Messages
  import opened Builders

  /** The served directory: the contents of each file by name; the names for
      which os.Stat fails for a reason other than absence; those for which
      os.ReadFile fails; those for which os.WriteFile cannot open the file, so
      that it stays untouched; and, for each name whose file does open (and is
      created or truncated) but whose write or close then fails, the number of
      octets that reach the file before the failure. */
  datatype FileStore = FileStore(
    files: map<string, string>,
    statFails: set<string>,
    readFails: set<string>,
    openFails: set<string>,
    writeStops: map<string, nat>)

  /** os.WriteFile returns no error: the file opens and every octet is
      written and the file closed. */
  predicate WriteSucceeds(store: FileStore, fileName: string)
  {
    fileName !in store.openFails && fileName !in store.writeStops
  }

  /** What a file holds after os.WriteFile truncated it and then wrote `body`
      until it stopped after `n` octets: the first `n` octets of the body, or
      all of it when only closing failed. */
  function Written(body: string, n: nat): (w: string)
    ensures |w| <= |body| && w == body[..|w|]
    ensures |w| == if n < |body| then n else |body|
  {
    if n < |body| then body[..n] else body
  }

  /** A response together with the directory after producing it. */
  datatype Handled = Handled(response: Response, store: FileStore)

  /** handleGetFile: 404 for an absent file, 400 for a stat or read error,
      otherwise 200 with the file's contents as application/octet-stream
      (compressed when the client asks for gzip and compression succeeds).
      The error responses carry no fields and no body. */
  function HandleGetFile(store: FileStore, fileName: string, version: string,
                         acceptEncoding: string, gzip: Compressor): (r: Response)
    ensures r.version == version
    ensures r.status == 404 <==> fileName !in store.statFails && fileName !in store.files
    ensures r.status == 400 <==>
      fileName in store.statFails || (fileName in store.files && fileName in store.readFails)
    ensures r.status == 200 <==>
      fileName in store.files && fileName !in store.statFails && fileName !in store.readFails
    ensures r.status != 200 ==> r.headers == map[] && r.body == ""
    ensures r.status == 200 ==>
      r == ResponseWithBody(200, version, store.files[fileName], "application/octet-stream",
                            acceptEncoding, gzip)
    ensures r.status == 200 ==>
      && "Content-Type" in r.headers
      && r.headers["Content-Type"] == "application/octet-stream"
      && ("Content-Encoding" !in r.headers ==> r.body == store.files[fileName])
      && ("Content-Encoding" in r.headers <==>
            WantsGzip(acceptEncoding) && gzip(store.files[fileName]).Some?)
      && ("Content-Encoding" in r.headers ==>
            r.headers["Content-Encoding"] == "gzip" && r.body == gzip(store.files[fileName]).value)
      && "Content-Length" in r.headers && r.headers["Content-Length"] == Decimal(|r.body|)
  {
    if fileName in store.statFails then BuildResponse(400, version)
    else if fileName !in store.files then BuildResponse(404, version)
    else if fileName in store.readFails then BuildResponse(400, version)
    else ResponseWithBody(200, version, store.files[fileName], "application/octet-stream",
                          acceptEncoding, gzip)
  }

  /** handlePostFile: 201 with the body stored under the name when
      os.WriteFile succeeds, 400 otherwise. A failed open leaves the directory
      unchanged; a write or close that fails after the open leaves the file
      holding the octets written so far. Either way the response has no fields
      and no body. */
  function HandlePostFile(store: FileStore, fileName: string, body: string, version: string)
    : (h: Handled)
    ensures h.response.version == version
    ensures h.response.headers == map[] && h.response.body == ""
    ensures h.response.status == 201 <==> WriteSucceeds(store, fileName)
    ensures h.response.status == 400 <==> !WriteSucceeds(store, fileName)
    ensures h.response.status == 201 ==> h.store == store.(files := store.files[fileName := body])
    ensures fileName in store.openFails ==> h.store == store
    ensures fileName !in store.openFails && fileName in store.writeStops ==>
      h.store == store.(files := store.files[fileName := Written(body, store.writeStops[fileName])])
  {
    if fileName in store.openFails then
      Handled(BuildResponse(400, version), store)
    else if fileName in store.writeStops then
      var partial := Written(body, store.writeStops[fileName]);
      Handled(BuildResponse(400, version), store.(files := store.files[fileName := partial]))
    else
      Handled(BuildResponse(201, version), store.(files := store.files[fileName := body]))
  }

  /** A file written by POST reads back by GET with exactly the posted body,
      unless the response is compressed; it is not compressed when the client
      does not ask for gzip. */
  lemma PostThenGet(store: FileStore, fileName: string, body: string, version: string,
                    acceptEncoding: string, gzip: Compressor)
    requires WriteSucceeds(store, fileName)
    requires fileName !in store.statFails && fileName !in store.readFails
    ensures var r := HandleGetFile(HandlePostFile(store, fileName, body, version).store,
                                   fileName, version, acceptEncoding, gzip);
      && r.status == 200
      && ("Content-Encoding" !in r.headers ==> r.body == body)
      && (!WantsGzip(acceptEncoding) ==>
            r.body == body && r.headers["Content-Length"] == Decimal(|body|))
  {
    var stored := HandlePostFile(store, fileName, body, version).store;
    assert stored.files[fileName] == body;
  }

  /** A POST whose write fails after the file was opened still leaves a file:
      a later GET of the name answers 200, not 404, and without gzip its body
      is the part of the posted body written before the failure, a prefix of
      it. */
  lemma FailedPostThenGet(store: FileStore, fileName: string, body: string, version: string,
                          acceptEncoding: string, gzip: Compressor)
    requires fileName !in store.openFails && fileName in store.writeStops
    requires fileName !in store.statFails && fileName !in store.readFails
    ensures var h := HandlePostFile(store, fileName, body, version);
      var r := HandleGetFile(h.store, fileName, version, acceptEncoding, gzip);
      && h.response.status == 400
      && r.status == 200
      && (!WantsGzip(acceptEncoding) ==>
            && |r.body| <= |body| && r.body == body[..|r.body|]
            && (store.writeStops[fileName] < |body| ==> |r.body| == store.writeStops[fileName]))
  {
    var stored := HandlePostFile(store, fileName, body, version).store;
    assert stored.files[fileName] == Written(body, store.writeStops[fileName]);
  }
}
