/** Parsing a received HTTP request (include/tcp_server/tcp_server.h, req_update_structured_views;
    sections 2.1, 3 and 5 of RFC 9112). */
module HttpRequest {
  import opened Prelude
  import opened StaticTypes
  import opened StringUtil

  const MAX_HEADERS: nat := 32

  datatype Header = Header(key: string, value: string)

  datatype Request = Request(verb: string, path: string, version: string, headers: seq<Header>, body: string)

  /** One key and value off the front of a view. */
  datatype Field = Field(key: string, value: string, rest: string)

  function NextField(view: string): (f: Field)
    ensures |f.rest| <= |view| && (f.key != "" ==> |f.rest| < |view|)
  {
    var key := Word(view, ' ');
    var value := UntilNewline(key.rest);
    Field(key.word, value.word, value.rest)
  }

  /** The key loses its last character, the colon. */
  function HeaderOf(f: Field): Header
    requires f.key != ""
  {
    Header(f.key[..|f.key| - 1], f.value)
  }

  /** The header loop on a view: all headers it yields and what it leaves. A non-empty key shortens
      the view, so the loop ends on any input. */
  function HeaderLoop(view: string): (r: (seq<Header>, string))
    ensures |r.1| <= |view|
    decreases |view|
  {
    var f := NextField(view);
    if f.key == "" then ([], f.rest)
    else
      var more := HeaderLoop(AfterNewline(f.rest));
      ([HeaderOf(f)] + more.0, more.1)
  }

  function FirstHeaders(headers: seq<Header>): seq<Header> {
    if |headers| <= MAX_HEADERS then headers else headers[..MAX_HEADERS]
  }

  function Parse(buffer: string): Request {
    var verb := Word(buffer, ' ');
    var path := Word(verb.rest, ' ');
    var version := Word(path.rest, ' ');
    var (headers, rest) := HeaderLoop(AfterNewline(version.rest));
    Request(verb.word, path.word, version.word, FirstHeaders(headers), AfterNewline(rest))
  }

  /** `req_update_structured_views`: the views are taken off the front of the buffer one by one. */
  method UpdateStructuredViews(buffer: string) returns (request: Request)
    ensures request == Parse(buffer)
  {
    var view := new StringView(buffer);
    var verb := view.ExtractWord(' ');
    var path := view.ExtractWord(' ');
    var version := view.ExtractWord(' ');
    var _ := view.ExtractNewline();
    var headers := ParseHeaders(view);
    var _ := view.ExtractNewline();
    request := Request(verb, path, version, headers, view.text);
  }

  /** The header loop; headers past the 32nd do not fit and are dropped. */
  method ParseHeaders(view: StringView) returns (found: seq<Header>)
    modifies view
    ensures found == FirstHeaders(HeaderLoop(old(view.text)).0) && view.text == HeaderLoop(old(view.text)).1
  {
    var headers := new StaticVector<Header>(MAX_HEADERS);
    ghost var all, seen := HeaderLoop(view.text), [];
    var key, value := ExtractField(view);
    ParsingStarts(old(view.text));
    while key != ""
      invariant fresh(headers) && fresh(headers.storage) && headers.Valid() && headers.N == MAX_HEADERS
      invariant headers.Contents() == FirstHeaders(seen)
      invariant Parsing(all, seen, Field(key, value, view.text))
      decreases if key == "" then 0 else 1 + |view.text|
    {
      ghost var f := Field(key, value, view.text);
      AddHeader(headers, Header(key[..|key| - 1], value), seen);
      ParsingContinues(all, seen, f);
      seen := seen + [HeaderOf(f)];
      var _ := view.ExtractNewline();
      key, value := ExtractField(view);
    }
    found := headers.storage[..headers.curSize];
  }

  method AddHeader(headers: StaticVector<Header>, header: Header, ghost seen: seq<Header>)
    requires headers.Valid() && headers.N == MAX_HEADERS && headers.Contents() == FirstHeaders(seen)
    modifies headers`curSize, headers.storage
    ensures headers.Valid() && headers.Contents() == FirstHeaders(seen + [header])
  {
    var _ := headers.Push(header);
  }

  /** `all` is what the loop yields in the end, with `seen` stored and `f` just taken. */
  ghost predicate Parsing(all: (seq<Header>, string), seen: seq<Header>, f: Field) {
    if f.key == "" then all == (seen, f.rest)
    else
      var more := HeaderLoop(AfterNewline(f.rest));
      all == (seen + ([HeaderOf(f)] + more.0), more.1)
  }

  lemma ParsingStarts(view: string)
    ensures Parsing(HeaderLoop(view), [], NextField(view))
  {
    var f := NextField(view);
    if f.key != "" {
      var more := HeaderLoop(AfterNewline(f.rest)).0;
      assert [] + ([HeaderOf(f)] + more) == [HeaderOf(f)] + more;
    }
  }

  lemma ParsingContinues(all: (seq<Header>, string), seen: seq<Header>, f: Field)
    requires f.key != "" && Parsing(all, seen, f)
    ensures Parsing(all, seen + [HeaderOf(f)], NextField(AfterNewline(f.rest)))
  {
    var more := HeaderLoop(AfterNewline(f.rest)).0;
    ConcatAssociative(seen, [HeaderOf(f)], more);
    if NextField(AfterNewline(f.rest)).key == "" {
      assert seen + [HeaderOf(f)] + [] == seen + [HeaderOf(f)];
    }
  }

  method ExtractField(view: StringView) returns (key: string, value: string)
    modifies view
    ensures Field(key, value, view.text) == NextField(old(view.text))
  {
    key := view.ExtractWord(' ');
    value := view.ExtractUntilNewline();
  }

  // ---------------------------------------------------------------- well-formed requests

  ghost predicate IsHeader(h: Header) {
    && IsToken(h.key, ' ')
    && (forall i :: 0 <= i < |h.value| ==> h.value[i] != '\r' && h.value[i] != '\n')
    && (h.value != "" ==> h.value[0] != ' ')
  }

  ghost predicate IsRequest(r: Request) {
    && IsToken(r.verb, ' ') && IsToken(r.path, ' ') && IsToken(r.version, ' ')
    && AreHeaders(r.headers)
  }

  ghost predicate AreHeaders(headers: seq<Header>) {
    headers != [] ==> IsHeader(headers[0]) && AreHeaders(headers[1..])
  }

  function HeaderLine(h: Header): string {
    h.key + ": " + h.value + CRLF
  }

  function HeaderLines(headers: seq<Header>): string {
    if headers == [] then ""
    else (headers[0].key + ": " + headers[0].value + "\r\n") + HeaderLines(headers[1..])
  }

  /** A request message as a client writes it. */
  function Message(r: Request): string {
    r.verb + " " + r.path + " " + r.version + "\r\n" + HeaderLines(r.headers) + "\r\n" + r.body
  }

  lemma OneHeader(h: Header, tail: string)
    requires IsHeader(h)
    ensures NextField(HeaderLine(h) + tail) == Field(h.key + ":", h.value, CRLF + tail)
    ensures AfterNewline(CRLF + tail) == tail
    ensures HeaderOf(Field(h.key + ":", h.value, CRLF + tail)) == h
  {
    var key, line := h.key + ":", h.value + (CRLF + tail);
    assert IsToken(key, ' ') by {
      assert forall i :: 0 <= i < |h.key| ==> key[i] == h.key[i];
    }
    assert HeaderLine(h) + tail == key + (" " + line);
    assert line[0] != ' ';
    WordBeforeDelimiter(key, ' ', line);
    LineIsValue(h.value, CRLF + tail);
    assert (CRLF + tail)[2..] == tail && key[..|h.key|] == h.key;
  }

  lemma LoopTakesHeader(h: Header, tail: string, more: seq<Header>, rest: string)
    requires IsHeader(h) && HeaderLoop(tail) == (more, rest)
    ensures HeaderLoop(HeaderLine(h) + tail) == ([h] + more, rest)
  {
    OneHeader(h, tail);
  }

  lemma LoopEnds(body: string)
    ensures HeaderLoop(CRLF + body) == ([], CRLF + body)
  {
  }

  /** The header section in front of the empty line and the body. */
  function Section(headers: seq<Header>, body: string): string {
    HeaderLines(headers) + (CRLF + body)
  }

  lemma SectionHead(headers: seq<Header>, body: string)
    requires headers != []
    ensures Section(headers, body) == HeaderLine(headers[0]) + Section(headers[1..], body)
  {
  }

  /** The header loop gives back the headers and stops in front of the body's newline. */
  ghost predicate Recovers(headers: seq<Header>, body: string) {
    HeaderLoop(Section(headers, body)) == (headers, CRLF + body)
  }

  lemma RecoversOneMore(headers: seq<Header>, body: string)
    requires headers != [] && IsHeader(headers[0]) && Recovers(headers[1..], body)
    ensures Recovers(headers, body)
  {
    SectionHead(headers, body);
    LoopTakesHeader(headers[0], Section(headers[1..], body), headers[1..], CRLF + body);
    assert [headers[0]] + headers[1..] == headers;
  }

  lemma {:induction false} HeadersAreRecovered(headers: seq<Header>, body: string)
    requires AreHeaders(headers)
    ensures Recovers(headers, body)
  {
    if headers == [] {
      assert Section([], body) == CRLF + body;
      LoopEnds(body);
    } else {
      HeadersAreRecovered(headers[1..], body);
      RecoversOneMore(headers, body);
    }
  }

  lemma WordBeforeNewline(t: string, tail: string)
    requires IsToken(t, ' ')
    ensures Word(t + (CRLF + tail), ' ') == Extracted(t, CRLF + tail)
    ensures AfterNewline(CRLF + tail) == tail
  {
    WordIsToken(t, CRLF + tail, ' ');
    assert (CRLF + tail)[2..] == tail;
  }

  /** A message behind its verb, and behind its path. */
  function AfterVerb(r: Request): string { r.path + ([' '] + AfterPath(r)) }

  function AfterPath(r: Request): string { r.version + (CRLF + Section(r.headers, r.body)) }

  lemma MessageParts(r: Request)
    ensures Message(r) == r.verb + ([' '] + AfterVerb(r))
  {
  }

  lemma RequestLine(r: Request)
    requires IsRequest(r)
    ensures Word(Message(r), ' ') == Extracted(r.verb, AfterVerb(r))
    ensures Word(AfterVerb(r), ' ') == Extracted(r.path, AfterPath(r))
  {
    MessageParts(r);
    assert AfterVerb(r)[0] == r.path[0] && AfterPath(r)[0] == r.version[0];
    WordBeforeDelimiter(r.verb, ' ', AfterVerb(r));
    WordBeforeDelimiter(r.path, ' ', AfterPath(r));
  }

  /** Parsing recovers every well-formed request: the request line, the first 32 headers in order
      and the exact body, whatever bytes the body has. */
  lemma ParseRecovers(r: Request)
    requires IsRequest(r)
    ensures Parse(Message(r)) == r.(headers := if |r.headers| <= 32 then r.headers else r.headers[..32])
  {
    RequestLine(r);
    WordBeforeNewline(r.version, Section(r.headers, r.body));
    HeadersAreRecovered(r.headers, r.body);
    assert (CRLF + r.body)[2..] == r.body;
  }
}
