/** parseRequest (handler.go:87-125): one read buffer to a request, or None
    (Go's nil) when the request line has fewer than three space-separated
    pieces. The buffer is split on CRLF; the header lines run up to the first
    empty line after the request line, and the body is the remaining lines
    joined back with CRLF. */
module Parser {
  import opened Wrappers
  import opened Strings
  import opened Messages

  /** The text before the first CRLF of a buffer, or all of it when there is none. */
  function RequestLine(buf: string): string
  {
    match IndexOf(buf, CRLF)
    case None => buf
    case Some(q) => buf[..q]
  }

  /** The index of the first empty line. */
  function FirstBlank(lines: seq<string>): (r: Option<nat>)
    ensures r.Some? ==> r.value < |lines| && lines[r.value] == ""
    ensures forall k :: 0 <= k < |lines| && (r.None? || k < r.value) ==> lines[k] != ""
  {
    if lines == [] then None
    else if lines[0] == "" then Some(0)
    else Shift(FirstBlank(lines[1..]), 1)
  }

  /** `headerEnd` after the header scan: the index of the first empty line
      after the request line, 0 when there is none. */
  function HeaderEnd(lines: seq<string>): nat
    requires |lines| >= 1
  {
    match FirstBlank(lines[1..])
    case Some(j) => j + 1
    case None => 0
  }

  /** The lines the header scan visits: from the one after the request line up
      to the first empty line, or to the end. */
  function FieldSection(lines: seq<string>): seq<string>
    requires |lines| >= 1
  {
    var e := HeaderEnd(lines);
    lines[1..if e == 0 then |lines| else e]
  }

  /** The body: the lines after `headerEnd`, joined back with CRLF. */
  function BodyOf(lines: seq<string>): string
    requires |lines| >= 1
  {
    var e := HeaderEnd(lines);
    if e + 1 < |lines| then Join(lines[e + 1..], CRLF) else ""
  }

  /** The header map the scan builds: each line holding ": " maps the text
      before its first ": " to the rest of the line; a later line overwrites
      an earlier one with the same name; other lines are skipped. */
  function Fields(lines: seq<string>): map<string, string>
  {
    if lines == [] then map[]
    else
      var m := Fields(lines[..|lines| - 1]);
      match Cut(lines[|lines| - 1], ": ")
      case None => m
      case Some(field) => m[field.0 := field.1]
  }

  /** The specification of parseRequest. */
  function Parse(buf: string): (r: Option<Request>)
    ensures r.None? <==> |Split(RequestLine(buf), " ")| < 3
    ensures r.Some? ==>
      var words := Split(RequestLine(buf), " ");
      r.value.httpMethod == words[0] && r.value.url == words[1] && r.value.version == words[2]
  {
    var lines := Split(buf, CRLF);
    assert lines[0] == RequestLine(buf);
    var words := Split(lines[0], " ");
    if |words| < 3 then None
    else Some(Request(words[0], words[1], words[2], Fields(FieldSection(lines)), BodyOf(lines)))
  }

  /** parseRequest itself (handler.go:87-125). */
  method ParseRequest(bs: string) returns (req: Option<Request>)
    ensures req == Parse(bs)
  {
    var lines := Split(bs, CRLF);
    // Split never returns an empty list, so the len(lines) == 0 test of the
    // source is never true.
    var words := Split(lines[0], " ");
    if |words| < 3 {
      return None;
    }
    var headers, headerEnd := ScanHeaders(lines);
    var body := "";
    if headerEnd + 1 < |lines| {
      body := Join(lines[headerEnd + 1..], CRLF);
    }
    req := Some(Request(words[0], words[1], words[2], headers, body));
  }

  /** The header scan of handler.go:99-111: it stops at the first empty line
      after the request line, and files every line holding ": " under the
      text before it. */
  method ScanHeaders(lines: seq<string>) returns (headers: map<string, string>, headerEnd: nat)
    requires |lines| >= 1
    ensures headerEnd == HeaderEnd(lines)
    ensures headers == Fields(FieldSection(lines))
  {
    headers, headerEnd := map[], 0;
    var i := 1;
    while i < |lines|
      invariant 1 <= i <= |lines|
      invariant headerEnd == 0
      invariant forall k :: 1 <= k < i ==> lines[k] != ""
      invariant headers == Fields(lines[1..i])
    {
      if lines[i] == "" {
        headerEnd := i;
        break;
      }
      ScanStep(lines, i);
      var parts := Cut(lines[i], ": ");
      if parts.Some? {
        headers := headers[parts.value.0 := parts.value.1];
      }
      i := i + 1;
    }
    HeaderEndAt(lines, i);
  }

  /** One more line scanned. */
  lemma ScanStep(lines: seq<string>, i: nat)
    requires 1 <= i < |lines|
    ensures Fields(lines[1..i + 1]) ==
      match Cut(lines[i], ": ")
      case None => Fields(lines[1..i])
      case Some(field) => Fields(lines[1..i])[field.0 := field.1]
  {
    assert lines[1..i + 1][..i - 1] == lines[1..i];
  }

  /** Where the header scan stops: at the first empty line after the request
      line, or at the end. */
  lemma HeaderEndAt(lines: seq<string>, i: nat)
    requires 1 <= i <= |lines|
    requires forall k :: 1 <= k < i ==> lines[k] != ""
    requires i < |lines| ==> lines[i] == ""
    ensures HeaderEnd(lines) == if i < |lines| then i else 0
    ensures FieldSection(lines) == lines[1..i]
  {
    var r := FirstBlank(lines[1..]);
    if i == |lines| {
      assert r.None?;
    } else {
      assert r.Some? && r.value == i - 1 by {
        assert lines[1..][i - 1] == "";
        forall k | 0 <= k < i - 1 ensures lines[1..][k] != "" {
          assert lines[1..][k] == lines[k + 1];
        }
      }
    }
  }

  /** The name of a header line, when it has one. */
  predicate FieldNamed(line: string, name: string)
  {
    Cut(line, ": ").Some? && Cut(line, ": ").value.0 == name
  }

  /** One more scanned line adds its own field, if it has one, to the map. */
  lemma FieldsSnoc(lines: seq<string>, name: string)
    requires lines != []
    ensures name in Fields(lines) <==>
      name in Fields(lines[..|lines| - 1]) || FieldNamed(lines[|lines| - 1], name)
  {
  }

  /** A header name is in the map exactly when some scanned line carries it. */
  lemma {:induction false} FieldsDomain(lines: seq<string>, name: string)
    ensures name in Fields(lines) <==> exists j :: 0 <= j < |lines| && FieldNamed(lines[j], name)
  {
    if lines != [] {
      var init := lines[..|lines| - 1];
      FieldsDomain(init, name);
      FieldsSnoc(lines, name);
      if name in Fields(lines) {
        if FieldNamed(lines[|lines| - 1], name) {
        } else {
          var j :| 0 <= j < |init| && FieldNamed(init[j], name);
          assert FieldNamed(lines[j], name);
        }
      }
      if exists j :: 0 <= j < |lines| && FieldNamed(lines[j], name) {
        var j :| 0 <= j < |lines| && FieldNamed(lines[j], name);
        if j < |init| {
          assert FieldNamed(init[j], name);
        }
      }
    }
  }

  /** Its value is the rest of the LAST line that carries it: a later line
      overwrites an earlier one. */
  lemma {:induction false} FieldsLastWins(lines: seq<string>, name: string, j: nat)
    requires j < |lines| && FieldNamed(lines[j], name)
    requires forall k :: j < k < |lines| ==> !FieldNamed(lines[k], name)
    ensures name in Fields(lines) && Fields(lines)[name] == Cut(lines[j], ": ").value.1
  {
    if j < |lines| - 1 {
      var init := lines[..|lines| - 1];
      assert init[j] == lines[j];
      forall k | j < k < |init| ensures !FieldNamed(init[k], name) {
        assert init[k] == lines[k];
      }
      FieldsLastWins(init, name, j);
    }
  }

  /** The header lines the scan visits are the lines after the request
      line up to, and not including, the first empty one. */
  lemma FieldSectionLines(lines: seq<string>)
    requires |lines| >= 1
    ensures var section := FieldSection(lines);
      && |section| < |lines|
      && (forall k :: 0 <= k < |section| ==> section[k] == lines[k + 1] && section[k] != "")
      && (1 + |section| < |lines| ==> lines[1 + |section|] == "")
  {
    var section := FieldSection(lines);
    forall k | 0 <= k < |section| ensures section[k] == lines[k + 1] && section[k] != "" {
      assert section[k] == lines[1..][k];
    }
  }

  /** Line `j` is the last of `lines` that carries the name. */
  predicate LastNamed(lines: seq<string>, name: string, j: nat)
  {
    && j < |lines| && FieldNamed(lines[j], name)
    && forall k :: j < k < |lines| ==> !FieldNamed(lines[k], name)
  }

  lemma ParsedHeadersAreFields(buf: string)
    requires Parse(buf).Some?
    ensures Parse(buf).value.headers == Fields(FieldSection(Split(buf, CRLF)))
  {
  }

  /** The header map of a parsed request: a name is in it exactly when one of
      the header lines carries it before its first ": ", and its value is the
      rest of the last such line; lines without ": " add nothing. */
  lemma ParsedHeaders(buf: string, name: string)
    requires Parse(buf).Some?
    ensures var section := FieldSection(Split(buf, CRLF));
      var headers := Parse(buf).value.headers;
      && (name in headers <==> exists j :: 0 <= j < |section| && FieldNamed(section[j], name))
      && (forall j: nat :: LastNamed(section, name, j) ==>
            headers[name] == Cut(section[j], ": ").value.1)
  {
    var section := FieldSection(Split(buf, CRLF));
    ParsedHeadersAreFields(buf);
    FieldsDomain(section, name);
    forall j: nat | LastNamed(section, name, j)
      ensures name in Fields(section) && Fields(section)[name] == Cut(section[j], ": ").value.1
    {
      FieldsLastWins(section, name, j);
    }
  }

  /** Split takes the text before the first separator off the front. */
  lemma SplitFirst(s: string, q: nat)
    requires IndexOf(s, CRLF) == Some(q)
    ensures q + 2 <= |s| && s == s[..q] + CRLF + s[q + 2..]
    ensures Split(s, CRLF) == [s[..q]] + Split(s[q + 2..], CRLF)
    ensures NoCrlf(s[..q])
  {
    BeforeFirstHasNone(s, CRLF, q);
    NoCrlfOfIndex(s[..q]);
    Reassemble(s, q, q + 2);
  }

  lemma FirstBlankAfter(a: string, tail: seq<string>)
    ensures FirstBlank([a] + tail) == if a == "" then Some(0) else Shift(FirstBlank(tail), 1)
  {
    assert ([a] + tail)[1..] == tail;
  }

  /** The body rule on the text `t` that follows the request line's CRLF,
      given its lines (Split(t, CRLF)) and the first empty line after that
      CRLF (IndexOf(CRLF + t, BlankLine)): when there is one, the lines after
      the first empty one join back to exactly the text after it; otherwise
      either no line is empty and `t` does not end in CRLF, or only the last
      line is empty and `t` is empty or ends in CRLF. */
  ghost predicate Framed(t: string, lines: seq<string>, blank: Option<nat>)
  {
    match blank
    case Some(p) =>
      && FirstBlank(lines).Some?
      && FirstBlank(lines).value + 1 < |lines|
      && p + 2 <= |t|
      && Join(lines[FirstBlank(lines).value + 1..], CRLF) == t[p + 2..]
    case None =>
      || (FirstBlank(lines).None? && t != "" && !EndsWith(t, CRLF))
      || (|lines| >= 1 && FirstBlank(lines) == Some(|lines| - 1) && (t == "" || EndsWith(t, CRLF)))
  }

  ghost predicate BodyRule(t: string)
  {
    Framed(t, Split(t, CRLF), IndexOf(CRLF + t, BlankLine))
  }

  lemma BodyRuleLastLine(t: string)
    requires IndexOf(t, CRLF).None?
    ensures BodyRule(t)
  {
    NoCrlfOfIndex(t);
    NoBlankLineAfter(t);
    assert Split(t, CRLF) == [t];
    if |t| >= 2 {
      assert t[|t| - 2..] == [t[|t| - 2], t[|t| - 1]];
    }
  }

  lemma BodyRuleBlankFirst(rest: string)
    ensures BodyRule(CRLF + rest)
  {
    var t := CRLF + rest;
    SplitFirst(t, 0);
    assert t[..0] == "" && t[2..] == rest;
    var lines := Split(t, CRLF);
    FirstBlankAfter("", Split(rest, CRLF));
    assert CRLF + t == BlankLine + rest;
    assert (CRLF + t)[..4] == BlankLine;
    assert IndexOf(CRLF + t, BlankLine) == Some(0);
    assert lines[1..] == Split(rest, CRLF);
  }

  /** The body rule carries over a non-empty line put in front. */
  lemma FramedStep(a: string, rest: string, tail: seq<string>, blank: Option<nat>)
    requires a != "" && Framed(rest, tail, blank)
    ensures Framed(a + CRLF + rest, [a] + tail, Shift(blank, |a| + 2))
  {
    var t := a + CRLF + rest;
    var lines := [a] + tail;
    FirstBlankAfter(a, tail);
    EndsWithAfterLine(a, rest);
    match blank
    case Some(p) =>
      var j := FirstBlank(tail).value;
      assert lines[j + 2..] == tail[j + 1..];
      assert t[|a| + 2..] == rest;
      assert t[p + |a| + 4..] == rest[p + 2..];
    case None =>
  }

  /** Split takes a CRLF-free first line off the front. */
  lemma SplitAfterLine(a: string, rest: string)
    requires NoCrlf(a)
    ensures Split(a + CRLF + rest, CRLF) == [a] + Split(rest, CRLF)
  {
    var t := a + CRLF + rest;
    assert OccursAt(t, CRLF, |a|) by { assert t[|a|..|a| + 2] == CRLF; }
    forall k: nat | k < |a| ensures !OccursAt(t, CRLF, k) {
      if k + 1 < |a| {
        assert t[k..k + 2] == [a[k], a[k + 1]];
      } else {
        assert t[k..k + 2] == [a[k], '\r'];
      }
    }
    FirstOccurrence(t, CRLF, |a|);
    assert t[..|a|] == a && t[|a| + 2..] == rest;
    SplitFirst(t, |a|);
  }

  lemma BodyRuleStep(a: string, rest: string)
    requires a != "" && NoCrlf(a) && BodyRule(rest)
    ensures BodyRule(a + CRLF + rest)
  {
    SplitAfterLine(a, rest);
    SkipLineAfterBreak(a, rest);
    FramedStep(a, rest, Split(rest, CRLF), IndexOf(CRLF + rest, BlankLine));
  }

  /** BodyRule holds of every text, by induction on its lines. */
  lemma {:induction false} BodyFraming(t: string)
    ensures BodyRule(t)
    decreases |t|
  {
    match IndexOf(t, CRLF)
    case None =>
      BodyRuleLastLine(t);
    case Some(q) =>
      SplitFirst(t, q);
      var a, rest := t[..q], t[q + 2..];
      if a == "" {
        assert t == CRLF + rest;
        BodyRuleBlankFirst(rest);
      } else {
        BodyFraming(rest);
        BodyRuleStep(a, rest);
      }
  }

  /** BodyOf on the lines of a buffer, from the body rule on the text after
      the request line. */
  lemma BodyOfFramed(line: string, t: string, tail: seq<string>, blank: Option<nat>)
    requires Framed(t, tail, blank) && Join(tail, CRLF) == t && |tail| >= 1
    ensures BodyOf([line] + tail) ==
      match blank
      case Some(p) => t[p + 2..]
      case None => if t == "" || EndsWith(t, CRLF) then "" else t
  {
    var lines := [line] + tail;
    assert lines[1..] == tail;
    match blank
    case Some(p) =>
      var j := FirstBlank(tail).value;
      assert lines[j + 2..] == tail[j + 1..];
    case None =>
  }

  lemma ParsedBodyIsBodyOf(buf: string)
    requires Parse(buf).Some?
    ensures Parse(buf).value.body == BodyOf(Split(buf, CRLF))
  {
  }

  /** A buffer without CRLF has no body. */
  lemma BodyOfSingleLine(buf: string)
    requires IndexOf(buf, CRLF).None?
    ensures BodyOf(Split(buf, CRLF)) == "" && IndexOf(buf, BlankLine).None?
  {
    assert Split(buf, CRLF) == [buf];
    match IndexOf(buf, BlankLine) {
      case None =>
      case Some(p) =>
        BlankLineAt(buf, p);
        assert false;
    }
  }

  /** The lines of a buffer whose request line ends at `q`, read through
      the body rule on the text `t` after that line. */
  lemma BodyOfLines(buf: string, q: nat, t: string)
    requires IndexOf(buf, CRLF) == Some(q) && q + 2 <= |buf| && t == buf[q + 2..]
    ensures BodyOf(Split(buf, CRLF)) ==
      match IndexOf(CRLF + t, BlankLine)
      case Some(p) => t[p + 2..]
      case None => if t == "" || EndsWith(t, CRLF) then "" else t
  {
    SplitFirst(buf, q);
    BodyFraming(t);
    BodyOfFramed(buf[..q], t, Split(t, CRLF), IndexOf(CRLF + t, BlankLine));
  }

  /** Where the first empty line of such a buffer is, and whether it ends in
      CRLF, read from the text after the request line. */
  lemma AfterRequestLine(buf: string, q: nat, t: string)
    requires IndexOf(buf, CRLF) == Some(q) && q + 2 <= |buf| && t == buf[q + 2..]
    ensures IndexOf(buf, BlankLine) == Shift(IndexOf(CRLF + t, BlankLine), q)
    ensures EndsWith(buf, CRLF) <==> t == "" || EndsWith(t, CRLF)
  {
    SplitFirst(buf, q);
    SkipLine(buf[..q], t);
    EndsWithAfterLine(buf[..q], t);
  }

  /** The body of a buffer whose request line ends at `q`. */
  lemma BodyOfMultiLine(buf: string, q: nat)
    requires IndexOf(buf, CRLF) == Some(q)
    ensures IndexOf(buf, BlankLine).Some? ==>
      BodyOf(Split(buf, CRLF)) == buf[IndexOf(buf, BlankLine).value + 4..]
    ensures IndexOf(buf, BlankLine).None? ==>
      BodyOf(Split(buf, CRLF)) == if EndsWith(buf, CRLF) then "" else buf[q + 2..]
  {
    var t, blank := AfterLineFacts(buf, q);
    BodyAfterLine(buf, q, t, BodyOf(Split(buf, CRLF)), blank, IndexOf(buf, BlankLine), EndsWith(buf, CRLF));
  }

  /** Proof helper for BodyOfMultiLine, which it keeps small: it names the text
      `t` after the request line and the first empty line after its CRLF (at
      `blank`, counted in `t`), and restates BodyOfLines and AfterRequestLine
      in those names. */
  lemma AfterLineFacts(buf: string, q: nat) returns (t: string, blank: Option<nat>)
    requires IndexOf(buf, CRLF) == Some(q)
    ensures q + 2 <= |buf| && t == buf[q + 2..]
    ensures blank.Some? ==> blank.value + 2 <= |t|
    ensures BodyOf(Split(buf, CRLF)) ==
      match blank
      case Some(p) => t[p + 2..]
      case None => if t == "" || EndsWith(t, CRLF) then "" else t
    ensures IndexOf(buf, BlankLine) == Shift(blank, q)
    ensures EndsWith(buf, CRLF) <==> t == "" || EndsWith(t, CRLF)
  {
    assert OccursAt(buf, CRLF, q);
    t := buf[q + 2..];
    blank := IndexOf(CRLF + t, BlankLine);
    BodyOfLines(buf, q, t);
    AfterRequestLine(buf, q, t);
  }

  /** Proof helper for BodyOfMultiLine: the position arithmetic that turns the
      body read from the text `t` after the request line into positions of
      the whole buffer. */
  lemma BodyAfterLine(buf: string, q: nat, t: string, body: string, blank: Option<nat>,
                      bufBlank: Option<nat>, bufEnds: bool)
    requires q + 2 <= |buf| && t == buf[q + 2..]
    requires blank.Some? ==> blank.value + 2 <= |t|
    requires body ==
      match blank
      case Some(p) => t[p + 2..]
      case None => if t == "" || EndsWith(t, CRLF) then "" else t
    requires bufBlank == Shift(blank, q)
    requires bufEnds <==> t == "" || EndsWith(t, CRLF)
    ensures bufBlank.Some? ==> bufBlank.value + 4 <= |buf| && body == buf[bufBlank.value + 4..]
    ensures bufBlank.None? ==> body == if bufEnds then "" else buf[q + 2..]
  {
    if blank.Some? {
      assert buf[blank.value + q + 4..] == t[blank.value + 2..];
    }
  }

  /** The body of a parsed request. When the buffer holds CRLF CRLF, it is
      exactly the text after the first occurrence (the request line holds
      none, so that occurrence ends the header section). When it holds none,
      the body is everything after the request line's CRLF, header lines
      included, unless that is empty or ends in CRLF; then it is empty. */
  lemma ParsedBody(buf: string)
    requires Parse(buf).Some?
    ensures IndexOf(buf, BlankLine).Some? ==>
      Parse(buf).value.body == buf[IndexOf(buf, BlankLine).value + 4..]
    ensures IndexOf(buf, BlankLine).None? ==>
      Parse(buf).value.body ==
        match IndexOf(buf, CRLF)
        case None => ""
        case Some(q) => if EndsWith(buf, CRLF) then "" else buf[q + 2..]
  {
    ParsedBodyIsBodyOf(buf);
    match IndexOf(buf, CRLF)
    case None => BodyOfSingleLine(buf);
    case Some(q) => BodyOfMultiLine(buf, q);
  }

  /** The request line holds no line break, so neither do the method, the
      target and the version taken from it. */
  lemma ParsedRequestLineNoCrlf(buf: string)
    requires Parse(buf).Some?
    ensures var req := Parse(buf).value;
      NoCrlf(req.httpMethod) && NoCrlf(req.url) && NoCrlf(req.version)
  {
    match IndexOf(buf, CRLF) {
      case None =>
        NoCrlfOfIndex(buf);
      case Some(q) =>
        BeforeFirstHasNone(buf, CRLF, q);
        NoCrlfOfIndex(buf[..q]);
    }
    JoinedPiecesNoCrlf(Split(RequestLine(buf), " "), " ");
  }

  lemma ExampleRequestLine()
    ensures RequestLine("GET /\r\n\r\n") == "GET /"
  {
    var buf := "GET /\r\n\r\n";
    assert buf[5..7] == CRLF;
    forall j: nat | j < 5 ensures !OccursAt(buf, CRLF, j) {
      assert buf[j] != '\r';
    }
    FirstOccurrence(buf, CRLF, 5);
  }

  lemma ExampleWords()
    ensures |Split("GET /", " ")| == 2
  {
    var line := "GET /";
    assert line[3..4] == " ";
    forall j: nat | j < 3 ensures !OccursAt(line, " ", j) {
      assert line[j] != ' ';
    }
    FirstOccurrence(line, " ", 3);
    assert line[4..] == "/";
    assert IndexOf("/", " ").None? by {
      assert "/"[..1] != " ";
    }
  }

  /** A request line without a version, "GET /", does not parse. */
  lemma MissingVersionIsNil()
    ensures Parse("GET /\r\n\r\n").None?
  {
    ExampleRequestLine();
    ExampleWords();
  }
}
