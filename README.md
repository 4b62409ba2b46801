# HTTP/1.1 connection handler, modelled in Dafny

This project models the request/response engine of a small HTTP/1.1 file
server written in Go (`app/server/handler.go`). Each accepted connection is
served by `HandleConnection`. It reads a buffer from the socket and
`parseRequest` turns it into a request, or nil. `route` then chooses the
response:

- `/` answers 200;
- `/echo/...` echoes the rest of the path back;
- `/user-agent` echoes the User-Agent header back;
- `GET` and `POST` under `/files/...` read and write files;
- a request that did not parse gets 400;
- anything else gets 404.

Responses are built by `buildResponse` or `buildResponseWithBody`. The second
one sets Content-Type and Content-Length and gzip-compresses the body when the
client asks for it. `Encode` turns a response into the octets written back.
The loop stops after a failed read or write, or after answering a request
that asks to close the connection.

Modules, one per concern of the source:

- `Wrappers`: `Option`, Go's nil and "ok" results.
- `Strings`: the parts of Go's `strings` and `strconv` packages the handler
  uses (Index, Split, SplitN with 2, Join, HasPrefix, TrimPrefix, Contains,
  ToLower, Itoa, `%d`). It also holds lemmas about where CRLF and the empty
  line CRLF CRLF occur.
- `Messages`: `HttpRequest` and `HttpResponse` as datatypes.
- `Parser`: `parseRequest`, as a specification function `Parse` and as the
  method `ParseRequest` with the header-scan loop, plus what a parsed request
  holds.
- `Builders`: `buildResponse` and `buildResponseWithBody`.
- `Files`: `handleGetFile` and `handlePostFile` over an abstract file
  directory. The directory records which names fail to stat, which fail to
  read, and which cannot be opened for writing (the file stays untouched).
  For a write or close that fails after the open, it records how many octets
  reached the file.
- `Router`: `route`.
- `Encoder`: `getStatusText` and `Encode`, with the order of the header lines
  as a parameter.
- `Session`: `HandleConnection`. The socket becomes a sequence of read events.
  The method is proved against `Serve`, which is a loop `Loop` run with the
  round as written. The loop's properties are proved once, for any round that
  meets `Decides`.

Behaviour follows the code:

- A request line with three or more space-separated pieces parses; only fewer
  than three give nil.
- A request that does not parse is not answered: handler.go:62 reads the
  headers of the nil request. See "## Findings".

## Model

| member | source | states |
|---|---|---|
| Strings.IndexOf | app/server/handler.go:188 | the position found is an occurrence of the pattern and no earlier position is one; None means it occurs nowhere |
| Strings.Split | app/server/handler.go:89 | at least one piece, and joining the pieces back with the separator gives the input |
| Strings.SplitPieces | app/server/handler.go:89 | no piece holds the separator, so the pieces are the text between its occurrences |
| Strings.Cut | app/server/handler.go:107-108 | two parts exactly when the separator occurs; the input is the first part, the separator, then the second part, and the first part holds no separator (the cut is at the first occurrence) |
| Strings.TrimPrefix | app/server/handler.go:135 | with the prefix present, prefix plus result is the input; otherwise the input is returned unchanged |
| Strings.ToLowerEquals | app/server/handler.go:63 | lowercasing gives a lower-case word exactly when the text spells that word letter by letter in either case |
| Strings.ContainsIgnoringCase | app/server/handler.go:188 | the lowercased text contains a lower-case word exactly when the text holds it, in any mix of cases, at some position |
| Builders.WantsGzipIgnoringCase | app/server/handler.go:188 | gzip is asked for exactly when "gzip", in any mix of cases, occurs anywhere in the Accept-Encoding value (so "x-gzip" and "GZip;q=0" ask for it) |
| Session.WantsCloseIgnoringCase | app/server/handler.go:62-63 | a request asks to close exactly when it has a Connection field whose value is "close" in any mix of cases |
| Strings.Decimal | app/server/handler.go:206 | a non-empty string of digits whose decimal value is the number, with a leading zero only for 0, and exactly "0" for 0 |
| Strings.DecimalUnique | app/server/handler.go:206 | any digit string that reads back as the number and has no redundant leading zero is Decimal's: the numeral strconv.Itoa writes is determined |
| Parser.Parse | app/server/handler.go:87-125 | nil exactly when the request line has fewer than three space-separated pieces; method, target and version are pieces 0, 1 and 2 |
| Parser.ParseRequest | app/server/handler.go:87-125 | the method computes Parse |
| Parser.ScanHeaders | app/server/handler.go:99-111 | the loop stops at the first empty line after the request line, and builds the field map of the lines before it |
| Parser.HeaderEndAt | app/server/handler.go:100-105 | headerEnd is the index of the first empty line after the request line, or 0 when there is none; the scanned lines are those in between |
| Parser.FieldSectionLines | app/server/handler.go:101-105 | the scanned lines are the lines after the request line, none of them empty, and the line after them (if any) is empty |
| Parser.FieldsDomain | app/server/handler.go:107-110 | a name is in the map exactly when some scanned line holds ": " with that name before the first ": " |
| Parser.FieldsLastWins | app/server/handler.go:109 | the value of a name is the rest of the last scanned line that carries it |
| Parser.ParsedHeaders | app/server/handler.go:99-111 | for a parsed buffer: a header name is present exactly when a header line carries it; its value comes from the last such line; lines without ": " add nothing |
| Parser.BodyFraming | app/server/handler.go:113-116 | for any text after the request line: the lines after the first empty one join back to exactly the text after the first CRLF CRLF; with no empty line, the text is empty, ends in CRLF, or has no empty line at all |
| Parser.ParsedBody | app/server/handler.go:113-116 | the body is exactly the suffix after the first CRLF CRLF; with none, it is everything after the request line's CRLF unless that is empty or ends in CRLF (then empty), and empty when there is no CRLF |
| Parser.ParsedRequestLineNoCrlf | app/server/handler.go:89-97 | method, target and version hold no CRLF |
| Parser.MissingVersionIsNil | app/server/handler.go:94-97 | "GET /\r\n\r\n" parses to nil |
| Builders.ResponseWithBody | app/server/handler.go:182-214 | Content-Type is always the given type; Content-Length is the decimal length of the body actually sent; Content-Encoding is set, to gzip, exactly when the client asks for gzip and compression succeeds, and then the body is the compressed one; otherwise the body is unchanged; no other field; printable when version and type are |
| Builders.BuildResponseWithBody | app/server/handler.go:182-214 | the method that fills the header map step by step computes ResponseWithBody |
| Files.HandleGetFile | app/server/handler.go:216-237 | 404 exactly for an absent file without a stat error; 400 exactly for a stat error, or a read error on a present file; 200 exactly otherwise, and then it is buildResponseWithBody of the file's contents as application/octet-stream: Content-Encoding gzip and the compressed contents exactly when gzip is asked for and compression succeeds, the contents unchanged otherwise, and Content-Length the length of the body sent; error responses have no fields and no body |
| Files.HandlePostFile | app/server/handler.go:239-250 | 201 exactly when os.WriteFile succeeds, and then the file holds the body; 400 otherwise: the directory is unchanged when the file cannot be opened, and when writing or closing fails after the open the file holds the octets written before the failure; no fields, no body |
| Files.FailedPostThenGet | app/server/handler.go:216-250 | a POST whose write fails after the open answers 400, yet a later GET of the name answers 200, and without gzip its body is a prefix of the posted body, as long as the number of octets written |
| Files.PostThenGet | app/server/handler.go:216-250 | after a successful POST, a GET of the same name answers 200 with the posted body, and with its length as Content-Length when gzip is not asked for |
| Router.TargetsDistinct | app/server/handler.go:132-155 | the URL tests are mutually exclusive |
| Router.Route | app/server/handler.go:127-171 | nil gets 400 in HTTP/1.1 with no fields and no body; otherwise the request's version is echoed; the status is 200, 201, 400 or 404; the echo route is buildResponseWithBody of the text after "/echo/" as text/plain, and /user-agent is buildResponseWithBody of the User-Agent value, or buildResponse 400 when that field is missing (so uncompressed, with that value as the body, when gzip is not asked for); /files/ GET and POST are the file handlers; 404 exactly for an unrouted request or a GET of an absent file; Content-Length counts the body; printable; only a POST under /files/ that opens its file changes the directory: to the posted body on 201, to the octets written before the failure on 400 |
| Router.PostThenGetRoute | app/server/handler.go:155-167 | POST then GET of the same /files/ URL without gzip answers 201, then 200 with the posted body |
| Encoder.StatusText | app/server/handler.go:272-285 | each of the four reason phrases exactly for its status, and the empty phrase exactly for any other status |
| Encoder.Enumerate | app/server/handler.go:259 | an order that lists every header name exactly once |
| Encoder.HeaderBlockSnoc | app/server/handler.go:259-262 | one more name in the order appends its line and a CRLF |
| Encoder.Encode | app/server/handler.go:252-270 | the output is the status line, CRLF, one "name: value" line plus CRLF per name in the given order, CRLF, and the body |
| Encoder.BareWire | app/server/handler.go:173-180 | a buildResponse response encodes as just its status line and an empty line |
| Encoder.HeaderFraming | app/server/handler.go:259-265 | after the status line's CRLF, the first empty line is the one after all header lines |
| Encoder.WireFraming | app/server/handler.go:252-270 | in any order of the header lines, the first CRLF CRLF of a printable response's encoding is right before the body, and the octets after it are exactly the body |
| Session.Exchange | app/server/handler.go:58-69 | the round panics exactly when parsing gives nil; otherwise it closes exactly when the request's Connection value lowercases to "close", then with Connection: close in the reply; replies are printable and Content-Length counts the body |
| Session.ExchangeRoutes | app/server/handler.go:58-69 | the reply is route's response with the same status, version and body and the same fields apart from Connection; the directory is as route left it |
| Session.ExchangeAsIntended | app/server/handler.go:128-129 | the corrected round always replies; a buffer that does not parse gets 400 Bad Request in HTTP/1.1, no body, no close, directory unchanged; a buffer that parses gets the round as written |
| Session.Answer | app/server/handler.go:58-69 | the method computes the round Exchange |
| Session.Turn | app/server/handler.go:58-71 | the round, and when it replies, the encoding of its response in the enumerated order |
| Session.LoopRound | app/server/handler.go:37-83 | one pass of the loop: a failed deadline or read ends it with nothing written; a panic ends it; a failed write ends it; a close request ends it after that response; otherwise the response is sent and the loop goes on with the new directory |
| Session.HandleConnection | app/server/handler.go:33-85 | the method's ending and final directory are those of Serve, and each written string is the encoding of the matching response Serve sends |
| Session.ExchangeDecides | app/server/handler.go:58-82 | the round as written replies exactly to the buffers that parse, closes exactly on close requests and marks those replies, and replies well formed |
| Session.LoopAnswersReads | app/server/handler.go:44-77 | each response sent answers a successful read, in order, of a buffer the round replies to, whose write succeeded: a failed read writes nothing, one write per read |
| Session.LoopEnding | app/server/handler.go:37-83 | waiting means every event was answered; a close ending follows at least one response; any other ending comes from the event right after the last response: the failed read itself, a failed write, or an unanswered buffer |
| Session.LoopStopsOnClose | app/server/handler.go:62-82 | a response asks to close exactly when it is the last one and the session ended on a close request; such a response carries Connection: close |
| Session.LoopWellFormed | app/server/handler.go:71-73 | every response sent is printable and its Content-Length counts its body |
| Session.WritesReadBack | app/server/handler.go:71-73 | every encoding of a well-formed response reads back: the octets after its first CRLF CRLF are the body, and Content-Length gives their number |
| Session.LoopReadBack | app/server/handler.go:71-73 | every string the loop writes reads back as its response |
| Session.WrittenReadBack | app/server/handler.go:71-73 | every string HandleConnection writes reads back as its response |
| Session.IntendedDecides | app/server/handler.go:128-129 | the corrected round replies to every buffer, closes exactly on close requests, and replies well formed |
| Session.IntendedKeepsServing | app/server/handler.go:37-83 | with the corrected round the session never panics; it ends only on a failed read, a failed write or a close request |
| Session.NilRequestPanics | app/server/handler.go:58-62 | as written, one read of "GET /\r\n\r\n" ends the session with nothing written, whatever follows; the corrected round answers it with 400 and keeps the connection |

## Left out

- The socket, SetReadDeadline, the 30-second timeout and the clock are replaced by a sequence of read events. Each event is a deadline error, a timeout, EOF, a read error, or the data read together with whether the answering write succeeds.
- The 1024-octet read buffer: an event's data is whatever one read returned, and its length is not bounded.
- A partial write to the connection is not distinguished: a write either succeeds or fails.
- `defer conn.Close()` and the logging with fmt are not modelled. They have no effect on what is written.
- The gzip algorithm: compression is a parameter that returns the compressed body, or None when the gzip writer reports an error.
- `filepath.Join` and the file system: files are looked up by the text after "/files/". Paths that resolve outside the directory, or into subdirectories, are not modelled. The model keeps four outcomes: a stat error other than "does not exist", a read error and a failure to open for writing, each as a set of names, and a write or close error after the open, as the number of octets that reached the file. The file mode 0644 is not modelled.
- Go's random map iteration order: Encode takes the order as a parameter. HandleConnection picks any enumeration of the names, which is recorded in a ghost output.
- Strings.ToLower: lowercases ASCII letters only; Unicode case mapping of non-ASCII text is not modelled.
- Builders.BuildResponse has no contract of its own. Its responses are stated by Route, HandleGetFile, HandlePostFile and BareWire.
- The `len(lines) == 0` test of parseRequest can never be true, because Split always returns at least one piece. It is therefore absent.
- An octet is a `char`. A Go string and a []byte are both `string`; `[]byte(s)` and `string(bs)` are the identity.
- `app/main.go` (listening and accepting) is not part of this model.
- The file directory is shared by the goroutines of all connections, with no locking (app/main.go:17-20). The model assumes that only the connection being modelled changes it. Between two rounds of one session, another connection's POST could change the directory; `Loop` does not capture that.
- Session.NilRequestPanics: ends only the modelled session. The process exit that an unrecovered panic causes is not modelled. In the real server that exit also drops every other open connection.
- Strings.Split: its own contract gives only the join. That no piece holds the separator is stated in the separate lemma SplitPieces. As an ensures of the function itself, it made unrelated proofs about string positions run out of resource.

## Findings

| source | as written | input that shows it | evidently intended | confidence | as-written member | corrected member |
|---|---|---|---|---|---|---|
| app/server/handler.go:62 | the Connection header of the request is read without a nil check. When parseRequest gave nil, this dereferences a nil pointer and panics. The goroutine started at app/main.go:19 does not recover, so nothing is written to this connection. The unrecovered panic also ends the whole server process, dropping every other open connection. | one read of "GET /\r\n\r\n" (a request line without a version) | route already answers a nil request with 400 Bad Request in HTTP/1.1 (handler.go:128-129); that answer is written and the connection stays open | not executed | Session.NilRequestPanics | Session.ExchangeAsIntended |
