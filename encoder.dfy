/** Encode and getStatusText (handler.go:252-285): a response to the octets
    written on the connection. Go ranges over a map in an unspecified order,
    so the order of the header lines is a parameter: any enumeration of the
    header names. */
module Encoder {
  import opened Wrappers
  import opened Strings
  import opened Messages
  import opened Builders

  /** getStatusText: the reason phrase of the four statuses the server uses,
      and the empty phrase for any other. */
  function StatusText(status: int): (text: string)
    ensures text == "OK" <==> status == 200
    ensures text == "Created" <==> status == 201
    ensures text == "Bad Request" <==> status == 400
    ensures text == "Not Found" <==> status == 404
    ensures text == "" <==> status != 200 && status != 201 && status != 400 && status != 404
  {
    if status == 200 then "OK"
    else if status == 201 then "Created"
    else if status == 400 then "Bad Request"
    else if status == 404 then "Not Found"
    else ""
  }

  /** The status line, without its terminator: version, decimal status and
      reason phrase, separated by single spaces. */
  function StatusLine(r: Response): string
  {
    r.version + " " + FormatInt(r.status) + " " + StatusText(r.status)
  }

  /** A header line, without its terminator. */
  function FieldLine(name: string, value: string): string
  {
    name + ": " + value
  }

  /** The header lines of the names in `order`, each followed by CRLF. */
  function HeaderBlock(h: map<string, string>, order: seq<string>): string
    requires forall i :: 0 <= i < |order| ==> order[i] in h
  {
    if order == [] then ""
    else FieldLine(order[0], h[order[0]]) + CRLF + HeaderBlock(h, order[1..])
  }

  /** The octets Encode produces when the map yields its names in `order`. */
  function Wire(r: Response, order: seq<string>): string
    requires forall i :: 0 <= i < |order| ==> order[i] in r.headers
  {
    StatusLine(r) + CRLF + HeaderBlock(r.headers, order) + CRLF + r.body
  }

  /** `order` lists every name of `keys` exactly once. */
  predicate IsEnumeration(order: seq<string>, keys: set<string>)
  {
    && (forall i, j :: 0 <= i < j < |order| ==> order[i] != order[j])
    && (forall i :: 0 <= i < |order| ==> order[i] in keys)
    && (forall k :: k in keys ==> k in order)
  }

  /** Some order in which a map may be ranged over. */
  method Enumerate(keys: set<string>) returns (order: seq<string>)
    ensures IsEnumeration(order, keys)
  {
    order := [];
    var rest := keys;
    while rest != {}
      invariant rest <= keys
      invariant forall i, j :: 0 <= i < j < |order| ==> order[i] != order[j]
      invariant forall i :: 0 <= i < |order| ==> order[i] in keys && order[i] !in rest
      invariant forall k :: k in keys ==> k in rest || k in order
      decreases rest
    {
      var k :| k in rest;
      order := order + [k];
      rest := rest - {k};
    }
  }

  lemma {:induction false} HeaderBlockSnoc(h: map<string, string>, order: seq<string>, k: string)
    requires forall i :: 0 <= i < |order| ==> order[i] in h
    requires k in h
    ensures HeaderBlock(h, order + [k]) == HeaderBlock(h, order) + FieldLine(k, h[k]) + CRLF
  {
    if order != [] {
      assert (order + [k])[1..] == order[1..] + [k];
      HeaderBlockSnoc(h, order[1..], k);
    }
  }

  /** Encode itself: the status line, then one line per header in the order
      the map yields them, then an empty line and the body verbatim. */
  method Encode(r: Response, order: seq<string>) returns (out: string)
    requires IsEnumeration(order, r.headers.Keys)
    ensures out == Wire(r, order)
  {
    out := [];
    var statusText := StatusText(r.status);
    out := out + (r.version + " " + FormatInt(r.status) + " " + statusText + CRLF);
    var i := 0;
    while i < |order|
      invariant 0 <= i <= |order|
      invariant out == StatusLine(r) + CRLF + HeaderBlock(r.headers, order[..i])
    {
      var k := order[i];
      out := out + (k + ": " + r.headers[k] + CRLF);
      HeaderBlockSnoc(r.headers, order[..i], k);
      assert order[..i + 1] == order[..i] + [k];
      i := i + 1;
    }
    assert order[..i] == order;
    out := out + CRLF;
    out := out + r.body;
  }

  /** A response of buildResponse encodes as its status line and an empty
      line, whatever order is used. */
  lemma BareWire(status: int, version: string, order: seq<string>)
    requires IsEnumeration(order, BuildResponse(status, version).headers.Keys)
    ensures Wire(BuildResponse(status, version), order)
         == version + " " + FormatInt(status) + " " + StatusText(status) + CRLF + CRLF
  {
  }

  lemma StatusLineNoCrlf(r: Response)
    requires NoCrlf(r.version)
    ensures NoCrlf(StatusLine(r))
  {
    var digits := Decimal(if r.status < 0 then -r.status else r.status);
    NoCrlfWithoutCr(digits);
    NoCrlfWithoutCr(FormatInt(r.status));
    NoCrlfWithoutCr(" ");
    var text := StatusText(r.status);
    NoCrlfWithoutCr(text);
    NoCrlfAppend(r.version, " ");
    NoCrlfAppend(r.version + " ", FormatInt(r.status));
    NoCrlfAppend(r.version + " " + FormatInt(r.status), " ");
    NoCrlfAppend(r.version + " " + FormatInt(r.status) + " ", text);
  }

  lemma FieldLineNoCrlf(name: string, value: string)
    requires NoCrlf(name) && NoCrlf(value)
    ensures FieldLine(name, value) != [] && NoCrlf(FieldLine(name, value))
  {
    NoCrlfWithoutCr(": ");
    NoCrlfAppend(name, ": ");
    NoCrlfAppend(name + ": ", value);
  }

  lemma BlankLineFirst(body: string)
    ensures IndexOf(CRLF + ("" + CRLF + body), BlankLine) == Some(0)
  {
    var s := CRLF + ("" + CRLF + body);
    assert s[..4] == BlankLine;
  }

  /** One more header line in front moves the first empty line by its length. */
  lemma HeaderStep(line: string, rest: string, body: string)
    requires line != [] && NoCrlf(line)
    requires IndexOf(CRLF + (rest + CRLF + body), BlankLine) == Some(|rest|)
    ensures IndexOf(CRLF + (line + CRLF + rest + CRLF + body), BlankLine)
         == Some(|line + CRLF + rest|)
  {
    AppendAssoc(line + CRLF, rest, CRLF);
    AppendAssoc(line + CRLF, rest + CRLF, body);
    SkipLineInto(line, rest + CRLF + body, line + CRLF + rest + CRLF + body, |rest|);
  }

  /** After the status line's CRLF, the first empty line is the one that
      follows the header lines. */
  lemma {:induction false} HeaderFraming(h: map<string, string>, order: seq<string>, body: string)
    requires forall i :: 0 <= i < |order| ==> order[i] in h
    requires forall name | name in h :: NoCrlf(name) && NoCrlf(h[name])
    ensures IndexOf(CRLF + (HeaderBlock(h, order) + CRLF + body), BlankLine)
         == Some(|HeaderBlock(h, order)|)
  {
    if order == [] {
      BlankLineFirst(body);
    } else {
      FieldLineNoCrlf(order[0], h[order[0]]);
      HeaderFraming(h, order[1..], body);
      HeaderStep(FieldLine(order[0], h[order[0]]), HeaderBlock(h, order[1..]), body);
    }
  }

  /** The first empty line after a CRLF-free first line. */
  lemma FirstLineFraming(line: string, block: string, body: string)
    requires NoCrlf(line)
    requires IndexOf(CRLF + (block + CRLF + body), BlankLine) == Some(|block|)
    ensures IndexOf(line + CRLF + block + CRLF + body, BlankLine) == Some(|line| + |block|)
  {
    AppendAssoc(line + CRLF, block, CRLF);
    AppendAssoc(line + CRLF, block + CRLF, body);
    SkipFirstLineInto(line, block + CRLF + body, line + CRLF + block + CRLF + body, |block|);
  }

  /** The encoded message frames its body: the first empty line on the wire
      is the one after the header lines, and the octets after it are exactly
      the body, whatever order the header lines come in. */
  lemma WireFraming(r: Response, order: seq<string>)
    requires IsEnumeration(order, r.headers.Keys) && Printable(r)
    ensures |r.body| + 4 <= |Wire(r, order)|
    ensures IndexOf(Wire(r, order), BlankLine) == Some(|Wire(r, order)| - |r.body| - 4)
    ensures Wire(r, order)[|Wire(r, order)| - |r.body|..] == r.body
  {
    StatusLineNoCrlf(r);
    HeaderFraming(r.headers, order, r.body);
    FirstLineFraming(StatusLine(r), HeaderBlock(r.headers, order), r.body);
  }
}
