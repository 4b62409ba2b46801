/** buildResponse and buildResponseWithBody (handler.go:173-214): the two ways
    a response value is made. gzip compression is a parameter: a function that
    gives the compressed body, or None when the gzip writer reports an error. */
module Builders {
  import opened Wrappers
  import opened Strings
  import opened Messages

  /** compress/gzip applied to a whole body; None when writing or closing the
      gzip writer fails. */
  type Compressor = string -> Option<string>

  /** buildResponse: a response with no header fields and an empty body. */
  function BuildResponse(status: int, version: string): Response
  {
    Response(status, version, map[], "")
  }

  /** Whether an Accept-Encoding value asks for gzip: a case-insensitive
      substring test, so "x-gzip" and "gzip;q=0" ask for it too. */
  predicate WantsGzip(acceptEncoding: string)
  {
    acceptEncoding != "" && Contains(ToLower(acceptEncoding), "gzip")
  }

  /** Asking for gzip is naming it, in any mix of cases, anywhere in the
      Accept-Encoding value. */
  lemma WantsGzipIgnoringCase(acceptEncoding: string)
    ensures WantsGzip(acceptEncoding) <==> exists k: nat :: HoldsIgnoringCase(acceptEncoding, k, "gzip")
  {
    ContainsIgnoringCase(acceptEncoding, "gzip");
  }

  /** The field names and the one fixed value the builder writes hold no
      line break. */
  lemma FixedFieldsNoCrlf()
    ensures NoCrlf("Content-Type") && NoCrlf("Content-Length") && NoCrlf("Content-Encoding")
    ensures NoCrlf("gzip")
  {
    NoCrlfWithoutCr("Content-Type");
    NoCrlfWithoutCr("Content-Length");
    NoCrlfWithoutCr("Content-Encoding");
    NoCrlfWithoutCr("gzip");
  }

  /** The response buildResponseWithBody makes. Content-Type is always set and
      Content-Length always gives the length of the body actually sent. The
      body is compressed, and Content-Encoding set to gzip, exactly when the
      client asks for gzip and compression succeeds; otherwise the body goes
      out unchanged. No other field is set. */
  function ResponseWithBody(status: int, version: string, body: string, contentType: string,
                            acceptEncoding: string, gzip: Compressor): (r: Response)
    ensures r.status == status && r.version == version
    ensures "Content-Type" in r.headers && r.headers["Content-Type"] == contentType
    ensures "Content-Length" in r.headers && r.headers["Content-Length"] == Decimal(|r.body|)
    ensures "Content-Encoding" in r.headers <==> WantsGzip(acceptEncoding) && gzip(body).Some?
    ensures "Content-Encoding" in r.headers ==>
      r.headers["Content-Encoding"] == "gzip" && r.body == gzip(body).value
    ensures "Content-Encoding" !in r.headers ==> r.body == body
    ensures forall name | name in r.headers ::
      name == "Content-Type" || name == "Content-Length" || name == "Content-Encoding"
    ensures NoCrlf(version) && NoCrlf(contentType) ==> Printable(r)
  {
    FixedFieldsNoCrlf();
    var compressed := if WantsGzip(acceptEncoding) then gzip(body) else None;
    var finalBody := if compressed.Some? then compressed.value else body;
    var fields := map["Content-Type" := contentType];
    var fields := if compressed.Some? then fields["Content-Encoding" := "gzip"] else fields;
    DigitsNoCrlf(Decimal(|finalBody|));
    Response(status, version, fields["Content-Length" := Decimal(|finalBody|)], finalBody)
  }

  /** buildResponseWithBody itself, filling its header map step by step. */
  method BuildResponseWithBody(status: int, version: string, body: string, contentType: string,
                               acceptEncoding: string, gzip: Compressor) returns (r: Response)
    ensures r == ResponseWithBody(status, version, body, contentType, acceptEncoding, gzip)
  {
    var headers: map<string, string> := map[];
    headers := headers["Content-Type" := contentType];
    var finalBody := body;
    if acceptEncoding != "" && Contains(ToLower(acceptEncoding), "gzip") {
      var compressed := gzip(body);
      if compressed.Some? {
        finalBody := compressed.value;
        headers := headers["Content-Encoding" := "gzip"];
      }
    }
    headers := headers["Content-Length" := Decimal(|finalBody|)];
    r := Response(status, version, headers, finalBody);
  }
}
