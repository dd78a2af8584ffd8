/** The incremental request parser as a function on its whole persistent state
    (http_parse.cpp, lines 38-171). The class in HttpConnection.dfy is proved to compute it. */
module HttpMachine {
  import opened CString
  import opened RequestLine

  datatype CheckState = REQUESTLINE | HEADER
  datatype LineStatus = LINE_OK | LINE_BAD | LINE_OPEN
  datatype HttpCode = NO_REQUEST | GET_REQUEST | BAD_REQUEST | FORBIDDEN_REQUEST | INTERNAL_ERROR | CLOSED_REQUEST

  /** What the parser prints. */
  datatype Output = MethodIsGet | RequestUrl(url: string) | RequestHost(host: string) | UnknownHeader

  /** `buf` is the buffer up to read_index. `spans` is a history: every piece of the buffer handed
      to a line handler, with the two NULs that end it, as it was when the handler was called. */
  datatype Parser = Parser(buf: seq<char>, checked: nat, start: nat, state: CheckState,
                           log: seq<Output>, spans: seq<seq<char>>)
  {
    predicate WellFormed() { start <= checked <= |buf| }

    /** The state after `more` has been received behind the buffer. */
    function Received(more: seq<char>): Parser { this.(buf := buf + more) }
  }

  const FRESH := Parser([], 0, 0, REQUESTLINE, [], [])

  // parse_line

  datatype Scan = Scan(status: LineStatus, buf: seq<char>, checked: nat)

  function ScanLine(b: seq<char>, c: nat): (r: Scan)
    requires c <= |b|
    ensures |r.buf| == |b| && c <= r.checked <= |b|
    ensures r.status == LINE_OK ==> c < r.checked && r.buf[r.checked - 1] == NUL
    ensures r.status != LINE_OK ==> r.buf == b
    ensures r.buf[r.checked..] == b[r.checked..]
    decreases |b| - c
  {
    if c == |b| then Scan(LINE_OPEN, b, c)
    else if b[c] == CR then
      if c + 1 == |b| then Scan(LINE_OPEN, b, c)
      else if b[c + 1] == LF then Scan(LINE_OK, b[c := NUL][c + 1 := NUL], c + 2)
      else Scan(LINE_BAD, b, c)
    else if b[c] == LF && c > 1 && b[c - 1] == CR then
      Scan(LINE_OK, b[c - 1 := NUL][c := NUL], c + 1)
    else ScanLine(b, c + 1)
  }

  // parse_requestline

  /** The buffer after the split of the line at `temp` overwrote its blanks. */
  function Blanked(b: seq<char>, temp: nat, t: Tokens): (r: seq<char>)
    requires !t.NoBlank? ==> temp + t.i < |b|
    requires t.BadVersion? || t.BadTarget? || t.Valid? ==> temp + t.j < |b|
    ensures |r| == |b|
  {
    match t
    case NoBlank => b
    case BadMethod(i) => b[temp + i := NUL]
    case NoVersion(i) => b[temp + i := NUL]
    case BadVersion(i, j) => b[temp + i := NUL][temp + j := NUL]
    case BadTarget(i, j) => b[temp + i := NUL][temp + j := NUL]
    case Valid(i, j, _) => b[temp + i := NUL][temp + j := NUL]
  }

  function Printed(t: Tokens): seq<Output> {
    match t
    case NoBlank => []
    case BadMethod(_) => []
    case Valid(_, _, path) => [MethodIsGet, RequestUrl(path)]
    case _ => [MethodIsGet]
  }

  function RequestLineResult(p: Parser, temp: nat): (r: (HttpCode, Parser))
    requires Terminated(p.buf, temp)
    ensures |r.1.buf| == |p.buf| && r.1.checked == p.checked && r.1.start == p.start
    ensures r.0 == NO_REQUEST || r.0 == BAD_REQUEST
    ensures r.1.spans == p.spans && p.log <= r.1.log
  {
    var t := Tokenise(Str(p.buf, temp));
    (if t.Valid? then NO_REQUEST else BAD_REQUEST,
     p.(buf := Blanked(p.buf, temp, t), log := p.log + Printed(t), state := if t.Valid? then HEADER else p.state))
  }

  // parse_headers

  /** The verdict on a header line and what is printed for it. */
  function HeaderMeaning(line: string): (r: (HttpCode, seq<Output>))
    ensures r.0 == NO_REQUEST || r.0 == GET_REQUEST
  {
    if line == "" then (GET_REQUEST, [])
    else if HasPrefixNoCase(line, "Host:") then
      (NO_REQUEST, [RequestHost(line[5 + SpanIn(line[5..], BLANKS)..])])
    else (NO_REQUEST, [UnknownHeader])
  }

  function HeaderResult(p: Parser, temp: nat): (r: (HttpCode, Parser))
    requires Terminated(p.buf, temp)
    ensures r.1.(log := p.log) == p
    ensures r.0 == NO_REQUEST || r.0 == GET_REQUEST
  {
    var (code, out) := HeaderMeaning(Str(p.buf, temp));
    (code, p.(log := p.log + out))
  }

  // parse_content

  /** The line found by `scanned` is taken over: the next one starts where the scan stopped. */
  function Taken(p: Parser, scanned: Scan): (q: Parser)
    requires p.start < scanned.checked <= |scanned.buf|
    ensures q.WellFormed()
  {
    p.(buf := scanned.buf, checked := scanned.checked, start := scanned.checked,
       spans := p.spans + [scanned.buf[p.start..scanned.checked]])
  }

  /** The line that starts at `temp` goes to the handler of the current state. */
  function Dispatch(q: Parser, temp: nat): (r: (HttpCode, Parser))
    requires Terminated(q.buf, temp)
    ensures |r.1.buf| == |q.buf| && r.1.checked == q.checked && r.1.start == q.start
    ensures r.0 == NO_REQUEST || r.0 == BAD_REQUEST || r.0 == GET_REQUEST
  {
    if q.state == REQUESTLINE then RequestLineResult(q, temp) else HeaderResult(q, temp)
  }

  function Content(p: Parser): (r: (HttpCode, Parser))
    requires p.WellFormed()
    ensures r.1.WellFormed() && |r.1.buf| == |p.buf|
    ensures r.0 == NO_REQUEST || r.0 == BAD_REQUEST || r.0 == GET_REQUEST
    decreases |p.buf| - p.checked
  {
    var scanned := ScanLine(p.buf, p.checked);
    if scanned.status == LINE_OK then
      var (code, q) := Dispatch(Taken(p, scanned), p.start);
      if code == NO_REQUEST then Content(q) else (code, q)
    else
      (if scanned.status == LINE_OPEN then NO_REQUEST else BAD_REQUEST, p.(checked := scanned.checked))
  }

  // The receive loop of main

  function Concat(chunks: seq<seq<char>>): seq<char> {
    if chunks == [] then [] else chunks[0] + Concat(chunks[1..])
  }

  /** Feeding chunks one at a time until the first verdict other than NO_REQUEST; the last
      component is what was never read. */
  function Feed(p: Parser, chunks: seq<seq<char>>): (r: (HttpCode, Parser, seq<seq<char>>))
    requires p.WellFormed()
    ensures r.1.WellFormed()
    ensures r.0 == NO_REQUEST || r.0 == BAD_REQUEST || r.0 == GET_REQUEST
    decreases |chunks|
  {
    if chunks == [] then (NO_REQUEST, p, [])
    else
      var (code, q) := Content(p.Received(chunks[0]));
      if code == NO_REQUEST then Feed(q, chunks[1..]) else (code, q, chunks[1..])
  }
}
