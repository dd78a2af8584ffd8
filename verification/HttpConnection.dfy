/** The parser as it runs: one buffer overwritten in place and four indices, kept between calls. */
module HttpConnection {
  import opened Utils
  import opened CString
  import opened RequestLine
  import opened HttpMachine
  import opened HttpChunks
  import opened HttpAcceptance
  import opened HttpInvariant
  import opened HttpRuns

  // What the library calls of parse_requestline see. `b` holds, at q, the suffix of the line that
  // starts at some offset in it.

  ghost predicate Holds(b: seq<char>, q: nat, s: string) {
    Terminated(b, q) && Str(b, q) == s
  }

  /** strspn at the byte behind the blank at i leads to the next word. */
  lemma SpanFinds(b: seq<char>, q: nat, line: string, i: nat)
    requires i < |line| && Holds(b, q, line[i + 1..])
    ensures var n := Strspn(b, q, BLANKS);
            n == BlanksEnd(line, i) - (i + 1) && Holds(b, q + n, line[BlanksEnd(line, i)..])
  {
    SeekShift(line, BLANKS, false, i + 1);
    var n := Strspn(b, q, BLANKS);
    StrDrop(b, q, n);
    assert line[i + 1..][n..] == line[BlanksEnd(line, i)..];
  }

  /** strpbrk at the start of the word at u. */
  lemma PbrkFinds(b: seq<char>, q: nat, line: string, u: nat)
    requires u <= |line| && Holds(b, q, line[u..])
    ensures Strpbrk(b, q, BLANKS) == if WordEnd(line, u) == |line| then None else Some(q + (WordEnd(line, u) - u))
  {
    SeekShift(line, BLANKS, true, u);
  }

  /** A NUL written over the blank at i: the word is cut off, the rest is still there. */
  lemma BlankCut(b: seq<char>, q: nat, line: string, u: nat, i: nat, b': seq<char>)
    requires u <= i < |line| && Holds(b, q, line[u..])
    requires q + (i - u) < |b| && b' == b[q + (i - u) := NUL]
    ensures Holds(b', q, line[u..i]) && Holds(b', q + (i - u) + 1, line[i + 1..])
  {
    StrCut(b, q, i - u);
    assert line[u..][..i - u] == line[u..i] && line[u..][i - u + 1..] == line[i + 1..];
  }

  /** The tests and the strchr that turn the target into the path. */
  lemma PathFound(b: seq<char>, url: nat, target: string)
    requires Holds(b, url, target)
    ensures if Strncaseeq(b, url, "http://") then
              && Terminated(b, url + 7)
              && match Strchr(b, url + 7, '/')
                 case None => PathOf(target) == None
                 case Some(slash) => slash < |b| && b[slash] == '/' && Terminated(b, slash)
                                     && PathOf(target) == Some(Str(b, slash))
            else PathOf(target) == if b[url] == '/' then Some(target) else None
  {
    hide Str, Seek, EqNoCase;
    if Strncaseeq(b, url, "http://") {
      StrDrop(b, url, 7);
      var k := IndexIn(target[7..], {'/'});
      if k < |target[7..]| {
        StrDrop(b, url, 7 + k);
      }
    }
  }

  // The three stages of parse_requestline on the buffer, against the split of `line`.

  /** The method has been cut off and the target starts at url. */
  ghost predicate TargetAt(b: seq<char>, temp: nat, line: string, i: nat, url: nat) {
    && i == WordEnd(line, 0) < |line| && EqNoCase(line[..i], "GET")
    && url == temp + BlanksEnd(line, i)
    && Holds(b, url, line[BlanksEnd(line, i)..])
  }

  /** The target, too, has been cut off, and the version is right. */
  ghost predicate VersionOk(b: seq<char>, temp: nat, line: string, i: nat, url: nat, j: nat) {
    && Terminated(b, url)
    && Tokenise(line) == match PathOf(Str(b, url))
                         case None => BadTarget(i, j)
                         case Some(path) => Tokens.Valid(i, j, path)
  }

  lemma PbrkInside(b: seq<char>, temp: nat, line: string)
    requires Terminated(b, temp) && Str(b, temp) == line
    ensures Holds(b, temp, line)
    ensures match Strpbrk(b, temp, BLANKS)
            case None => Tokenise(line) == NoBlank
            case Some(blank) => temp <= blank < |b|
  {
  }

  lemma MethodStage(b: seq<char>, temp: nat, line: string, blank: nat, b1: seq<char>)
    requires Holds(b, temp, line) && Strpbrk(b, temp, BLANKS) == Some(blank)
    requires temp <= blank < |b| && b1 == b[blank := NUL]
    ensures Terminated(b1, temp) && Terminated(b1, blank + 1)
    ensures if Strcaseeq(b1, temp, "GET")
            then TargetAt(b1, temp, line, blank - temp, blank + 1 + Strspn(b1, blank + 1, BLANKS))
            else Tokenise(line) == BadMethod(blank - temp)
  {
    hide Str, EqNoCase;
    var i := blank - temp;
    assert line[0..] == line;
    BlankCut(b, temp, line, 0, i, b1);
    assert line[0..i] == line[..i];
    SpanFinds(b1, blank + 1, line, i);
  }

  lemma TargetStage(b1: seq<char>, temp: nat, line: string, i: nat, url: nat)
    requires TargetAt(b1, temp, line, i, url)
    ensures Terminated(b1, url)
    ensures match Strpbrk(b1, url, BLANKS)
            case None => Tokenise(line) == NoVersion(i)
            case Some(end) => temp <= url <= end < |b1| && url - temp <= |line|
                              && end - temp == WordEnd(line, url - temp) < |line|
  {
    hide Str, EqNoCase;
    PbrkFinds(b1, url, line, BlanksEnd(line, i));
  }

  lemma TokensFrom(line: string, i: nat, u: nat, j: nat, v: nat)
    requires i == WordEnd(line, 0) < |line| && EqNoCase(line[..i], "GET") && u == BlanksEnd(line, i)
    requires j == WordEnd(line, u) < |line| && v == BlanksEnd(line, j)
    ensures Tokenise(line) ==
            if !EqNoCase(line[v..], "HTTP/1.1") then BadVersion(i, j)
            else match PathOf(line[u..j])
                 case None => BadTarget(i, j)
                 case Some(path) => Tokens.Valid(i, j, path)
  {
    hide EqNoCase, Seek, PathOf;
  }

  lemma VersionStage(b1: seq<char>, temp: nat, line: string, i: nat, url: nat, j: nat, b2: seq<char>)
    requires TargetAt(b1, temp, line, i, url) && temp <= url <= temp + |line| && j == WordEnd(line, url - temp) < |line|
    requires temp + j < |b1| && b2 == b1[temp + j := NUL]
    ensures Terminated(b2, temp + j + 1)
    ensures var version := temp + j + 1 + Strspn(b2, temp + j + 1, BLANKS);
            Terminated(b2, version) &&
            if Strcaseeq(b2, version, "HTTP/1.1") then VersionOk(b2, temp, line, i, url, j)
            else Tokenise(line) == BadVersion(i, j)
  {
    hide Str, EqNoCase, Seek, PathOf, Strspn, Tokenise, HasPrefixNoCase, WordEnd, BlanksEnd, IndexIn, SpanIn;
    BlankCut(b1, url, line, url - temp, j, b2);
    SpanFinds(b2, temp + j + 1, line, j);
    TokensFrom(line, i, url - temp, j, BlanksEnd(line, j));
  }

  /** Where the printed URL starts: behind http:// it is the first slash, if there is one. */
  function UrlStart(b: seq<char>, url: nat): Option<nat>
    requires Terminated(b, url)
  {
    if Strncaseeq(b, url, "http://") then StrDrop(b, url, 7); Strchr(b, url + 7, '/') else Some(url)
  }

  lemma PathStage(b2: seq<char>, temp: nat, line: string, i: nat, url: nat, j: nat)
    requires VersionOk(b2, temp, line, i, url, j)
    ensures Terminated(b2, url)
    ensures match UrlStart(b2, url)
            case None => Tokenise(line) == BadTarget(i, j)
            case Some(start) =>
              && start < |b2| && Terminated(b2, start)
              && Tokenise(line) == if b2[start] == '/' then Tokens.Valid(i, j, Str(b2, start)) else BadTarget(i, j)
  {
    hide Str, Tokenise, PathOf, Strchr;
    PathFound(b2, url, Str(b2, url));
  }

  /** What parse_requestline has written by the time it knows what the line is. */
  lemma NothingBlanked(b: seq<char>, temp: nat)
    ensures Blanked(b, temp, NoBlank) == b
  {
  }

  lemma BlankedOnce(b: seq<char>, temp: nat, i: nat, b1: seq<char>)
    requires temp + i < |b| && b1 == b[temp + i := NUL]
    ensures Blanked(b, temp, BadMethod(i)) == b1 && Blanked(b, temp, NoVersion(i)) == b1
  {
  }

  lemma BlankedTwice(b: seq<char>, temp: nat, i: nat, j: nat, b1: seq<char>, b2: seq<char>, path: string)
    requires temp + i < |b| && b1 == b[temp + i := NUL] && temp + j < |b| && b2 == b1[temp + j := NUL]
    ensures Blanked(b, temp, BadVersion(i, j)) == b2
    ensures Blanked(b, temp, BadTarget(i, j)) == b2
    ensures Blanked(b, temp, Tokens.Valid(i, j, path)) == b2
  {
  }

  /** In the letters of the line: which lines can be accepted and when anything is printed. */
  lemma RequestLineSpelled(p: Parser, temp: nat)
    requires Terminated(p.buf, temp)
    ensures var (line, (code, q)) := (Str(p.buf, temp), RequestLineResult(p, temp));
            (q.log != p.log <==> SpelledGet(line)) && (code == NO_REQUEST ==> SpelledGet(line))
  {
    hide Str, Tokenise;
    MethodExact(Str(p.buf, temp));
  }

  /** The string that the header handler looks at. */
  lemma HeaderStage(b: seq<char>, temp: nat)
    requires Terminated(b, temp)
    ensures temp < |b| && (b[temp] == NUL <==> Str(b, temp) == "")
    ensures if b[temp] == NUL then HeaderMeaning(Str(b, temp)) == (GET_REQUEST, [])
            else if Strncaseeq(b, temp, "Host:") then
              && Terminated(b, temp + 5)
              && var host := temp + 5 + Strspn(b, temp + 5, BLANKS);
                 Terminated(b, host) && HeaderMeaning(Str(b, temp)) == (NO_REQUEST, [RequestHost(Str(b, host))])
            else HeaderMeaning(Str(b, temp)) == (NO_REQUEST, [UnknownHeader])
  {
    hide Seek, EqNoCase;
    if Strncaseeq(b, temp, "Host:") {
      StrDrop(b, temp, 5);
      StrDrop(b, temp, 5 + Strspn(b, temp + 5, BLANKS));
    }
  }

  // The receive loop

  /** Both bytes of a line end are overwritten. */
  function LineCut(b: seq<char>, at: nat): (r: seq<char>)
    requires at + 1 < |b|
    ensures |r| == |b|
  {
    b[at := NUL][at + 1 := NUL]
  }

  lemma ScanStep(b: seq<char>, c: nat)
    requires c <= |b|
    ensures ScanLine(b, c) ==
            if c == |b| then Scan(LINE_OPEN, b, c)
            else if b[c] == CR then
              if c + 1 == |b| then Scan(LINE_OPEN, b, c)
              else if b[c + 1] == LF then Scan(LINE_OK, LineCut(b, c), c + 2)
              else Scan(LINE_BAD, b, c)
            else if b[c] == LF && c > 1 && b[c - 1] == CR then
              Scan(LINE_OK, LineCut(b, c - 1), c + 1)
            else ScanLine(b, c + 1)
  {
  }

  lemma NulEnds(b: seq<char>, temp: nat, at: nat)
    requires temp <= at < |b| && b[at] == NUL
    ensures Terminated(b, temp)
  {
  }

  /** The call that started on p0 still has to do what a call on p would do. */
  ghost predicate Follows(p0: Parser, p: Parser) {
    p0.WellFormed() && p.WellFormed() && Content(p0) == Content(p)
  }

  lemma FollowsItself(p: Parser)
    requires p.WellFormed()
    ensures Follows(p, p)
  {
  }

  lemma LineTurned(p0: Parser, p: Parser, scanned: Scan, code: HttpCode, r: Parser)
    requires Follows(p0, p) && scanned == ScanLine(p.buf, p.checked) && scanned.status == LINE_OK
    requires Terminated(scanned.buf, p.start)
    requires (code, r) == if p.state == REQUESTLINE then RequestLineResult(Taken(p, scanned), p.start)
                          else HeaderResult(Taken(p, scanned), p.start)
    ensures code == NO_REQUEST ==> Follows(p0, r)
    ensures code != NO_REQUEST ==> p0.WellFormed() && Content(p0) == (code, r)
  {
    hide Content, RequestLineResult, HeaderResult;
    ContentTurns(p, scanned, code, r);
  }

  lemma ContentStops(p0: Parser, p: Parser, scanned: Scan)
    requires Follows(p0, p) && scanned == ScanLine(p.buf, p.checked) && scanned.status != LINE_OK
    ensures p0.WellFormed()
    ensures Content(p0)
         == (if scanned.status == LINE_OPEN then NO_REQUEST else BAD_REQUEST, p.(checked := scanned.checked))
  {
  }

  /** Calling parse_content after one more recv is calling it once on everything received. */
  lemma NextCall(all: seq<char>, before: nat, now: nat, q: Parser)
    requires before <= now <= |all|
    requires var r := Content(FRESH.Received(all[..before]));
             r.0 == NO_REQUEST && q == r.1.Received(all[before..now])
    ensures Content(q) == Content(FRESH.Received(all[..now]))
  {
    hide Content;
    ContentResumes(FRESH.Received(all[..before]), all[before..now]);
    ReceivedTwice(FRESH, all[..before], all[before..now]);
    assert all[..before] + all[before..now] == all[..now];
  }

  /** A single call on everything received gives the reading of it. */
  lemma OneCall(all: seq<char>, code: HttpCode, q: Parser)
    requires Content(FRESH.Received(all)) == (code, q)
    ensures (code, q.log) == Interpret(all, REQUESTLINE) && Inv(q, all)
  {
    hide Content, Interpret, Inv;
    NothingReceived(all);
    ContentMeaning(FRESH.Received(all), all);
    assert [] + Interpret(all, REQUESTLINE).1 == Interpret(all, REQUESTLINE).1;
  }

  lemma LastCall(all: seq<char>, now: nat, code: HttpCode, q: Parser)
    requires now <= |all| && (code == NO_REQUEST ==> now == |all|)
    requires Content(FRESH.Received(all[..now])) == (code, q)
    ensures Content(FRESH.Received(all)) == (code, q.Received(all[now..]))
  {
    hide Content;
    if now == |all| {
      assert all[..now] == all && all[now..] == [];
      ReceivedNothing(q);
    } else {
      ContentResumes(FRESH.Received(all[..now]), all[now..]);
      ReceivedTwice(FRESH, all[..now], all[now..]);
      assert all[..now] + all[now..] == all;
    }
  }

  lemma LogKept(q: Parser, more: seq<char>)
    ensures q.Received(more).log == q.log
  {
  }

  lemma RunEnds(all: seq<char>, now: nat, code: HttpCode, q: Parser)
    requires now <= |all| && (code == NO_REQUEST ==> now == |all|)
    requires Content(FRESH.Received(all[..now])) == (code, q)
    ensures (code, q.Received(all[now..])) == Content(FRESH.Received(all))
    ensures (code, q.log) == Interpret(all, REQUESTLINE)
    ensures (code == GET_REQUEST <==> Accepts(all)) && (code == BAD_REQUEST <==> Rejects(all))
    ensures Inv(q, all[..now])
  {
    hide *;
    LogKept(q, all[now..]);
    LastCall(all, now, code, q);
    OneCall(all[..now], code, q);
    OneCall(all, code, q.Received(all[now..]));
    ExactAcceptance(all);
  }

  lemma NothingReceived(rcv: seq<char>)
    ensures Inv(FRESH.Received(rcv), rcv) && StateKnown(FRESH.Received(rcv))
    ensures FRESH.Received(rcv).start == 0 && FRESH.Received(rcv).log == [] && rcv[0..] == rcv
    ensures FRESH.Received(rcv).state == REQUESTLINE
  {
    FreshRests();
    InvReceived(FRESH, [], rcv);
    assert [] + rcv == rcv;
  }

  lemma Within(stream: seq<char>, m: nat, from: nat, to: nat)
    requires from <= to <= m <= |stream|
    ensures stream[..m][from..to] == stream[from..to]
  {
  }

  /** A rendered request that fits the buffer is read as such, whatever of the rest fits. */
  lemma RenderedInTime(stream: seq<char>, capacity: nat, target: string, path: string, headers: seq<seq<char>>,
                       rest: seq<char>)
    requires Clean(target) && TargetHasPath(target, path) && HeaderLines(headers)
    requires stream == Render(target, headers) + rest && |Render(target, headers)| <= capacity
    ensures var all := if |stream| <= capacity then stream else stream[..capacity];
            Interpret(all, REQUESTLINE) == (GET_REQUEST, [MethodIsGet, RequestUrl(path)] + HeaderOutputs(headers))
  {
    hide *;
    var request := Render(target, headers);
    var rest' := if |stream| <= capacity then rest else rest[..capacity - |request|];
    assert (if |stream| <= capacity then stream else stream[..capacity]) == request + rest';
    RenderedReading(target, path, headers, rest');
  }

  lemma RenderedServed(stream: seq<char>, capacity: nat, code: HttpCode, log: seq<Output>)
    requires var all := if |stream| <= capacity then stream else stream[..capacity];
             (code, log) == Interpret(all, REQUESTLINE)
    ensures forall target, path, headers, rest ::
              Clean(target) && TargetHasPath(target, path) && HeaderLines(headers)
              && stream == Render(target, headers) + rest && |Render(target, headers)| <= capacity ==>
              code == GET_REQUEST && log == [MethodIsGet, RequestUrl(path)] + HeaderOutputs(headers)
  {
    hide *;
    forall target, path, headers, rest |
      Clean(target) && TargetHasPath(target, path) && HeaderLines(headers)
      && stream == Render(target, headers) + rest && |Render(target, headers)| <= capacity
      ensures code == GET_REQUEST && log == [MethodIsGet, RequestUrl(path)] + HeaderOutputs(headers)
    {
      RenderedInTime(stream, capacity, target, path, headers, rest);
    }
  }

  class Connection {
    const buffer: array<char>
    var readIndex: nat
    var checkedIndex: nat
    var startLine: nat
    var checkState: CheckState
    var log: seq<Output>
    ghost var spans: seq<seq<char>>
    ghost var work: nat   // iterations of the loop of parse_line so far
    ghost var calls: nat  // calls of parse_content so far

    ghost predicate Valid()
      reads this, buffer
    {
      && startLine <= checkedIndex <= readIndex <= buffer.Length
      && Unused()
      && work <= checkedIndex + calls
    }

    /** What has not been received yet is as memset left it. */
    ghost predicate Unused()
      reads `readIndex, buffer
    {
      forall i :: readIndex <= i < buffer.Length ==> buffer[i] == NUL
    }

    /** The bytes received so far, as the parser has left them. */
    function Bytes(): (b: seq<char>)
      requires readIndex <= buffer.Length
      reads `readIndex, buffer
      ensures |b| == readIndex
    {
      buffer[..readIndex]
    }

    lemma BytesAt(i: nat)
      requires i < readIndex <= buffer.Length
      ensures Bytes()[i] == buffer[i]
    {
    }

    ghost function State(): (p: Parser)
      requires readIndex <= buffer.Length
      reads this, buffer
    {
      Parser(Bytes(), checkedIndex, startLine, checkState, log, spans)
    }

    constructor (bufferSize: nat)
      ensures Valid() && State() == FRESH && buffer.Length == bufferSize && fresh(buffer)
      ensures work == calls == 0
    {
      buffer := new char[bufferSize](_ => NUL);
      readIndex, checkedIndex, startLine := 0, 0, 0;
      checkState, log, spans := REQUESTLINE, [], [];
      work, calls := 0, 0;
    }

    /** Storing a NUL through a pointer into the received bytes. */
    method Terminate(at: nat)
      requires at < readIndex <= buffer.Length
      modifies buffer
      ensures Bytes() == old(Bytes())[at := NUL]
      ensures old(Unused()) ==> Unused()
    {
      buffer[at] := NUL;
    }

    method TerminateTwo(at: nat)
      requires at + 1 < readIndex <= buffer.Length
      modifies buffer
      ensures Bytes() == LineCut(old(Bytes()), at)
      ensures old(Unused()) ==> Unused()
    {
      hide Unused, Bytes;
      Terminate(at);
      Terminate(at + 1);
    }

    method ParseLine() returns (status: LineStatus)
      requires checkedIndex <= readIndex <= buffer.Length
      modifies buffer, `checkedIndex, `work
      ensures Scan(status, Bytes(), checkedIndex) == ScanLine(old(Bytes()), old(checkedIndex))
      ensures old(Unused()) ==> Unused()
      ensures work - old(work) <= checkedIndex - old(checkedIndex) + if status == LINE_OK then 0 else 1
      ensures checkedIndex - old(checkedIndex) <= work - old(work) + 1
    {
      hide Unused, Bytes, ScanLine, LineCut;
      ghost var b := Bytes();
      ghost var c := checkedIndex;
      while checkedIndex < readIndex
        invariant c <= checkedIndex <= readIndex && Bytes() == b
        invariant old(Unused()) ==> Unused()
        invariant ScanLine(b, c) == ScanLine(b, checkedIndex)
        invariant work - old(work) == checkedIndex - c
      {
        work := work + 1;
        BytesAt(checkedIndex);
        var temp := buffer[checkedIndex];
        ScanStep(b, checkedIndex);
        if temp == CR {
          if checkedIndex + 1 == readIndex {
            return LINE_OPEN;
          }
          BytesAt(checkedIndex + 1);
          if buffer[checkedIndex + 1] == LF {
            TerminateTwo(checkedIndex);
            checkedIndex := checkedIndex + 2;
            return LINE_OK;
          }
          return LINE_BAD;
        } else if temp == LF {
          if checkedIndex > 1 {
            BytesAt(checkedIndex - 1);
          }
          if checkedIndex > 1 && buffer[checkedIndex - 1] == CR {
            TerminateTwo(checkedIndex - 1);
            checkedIndex := checkedIndex + 1;
            return LINE_OK;
          }
        }
        checkedIndex := checkedIndex + 1;
      }
      ScanStep(b, checkedIndex);
      return LINE_OPEN;
    }

    /** The split overwrites two blanks in place; the result is that of the pure split of the line. */
    method ParseRequestLine(temp: nat) returns (code: HttpCode)
      requires readIndex <= buffer.Length && Terminated(Bytes(), temp)
      modifies buffer, `checkState, `log
      ensures (code, State()) == RequestLineResult(old(State()), temp)
      ensures var line := Str(old(Bytes()), temp);
              (log != old(log) <==> SpelledGet(line)) && (code == NO_REQUEST ==> SpelledGet(line))
      ensures old(Unused()) ==> Unused()
    {
      hide Terminated, Unused, Bytes, Blanked, UrlStart, Str, Seek, Tokenise, PathOf, Holds, TargetAt;
      hide VersionOk, WordEnd, BlanksEnd, Strpbrk, Strspn, Strchr, Strcaseeq, Strncaseeq, SpelledGet;
      var b := Bytes();
      ghost var line := Str(b, temp);
      ghost var out := log;
      RequestLineSpelled(State(), temp);
      var blank := Strpbrk(b, temp, BLANKS);
      PbrkInside(b, temp, line);
      if blank.None? {
        assert out + [] == out;
        assert Blanked(b, temp, NoBlank) == b by { NothingBlanked(b, temp); }
        return BAD_REQUEST;
      }
      var url := blank.value;
      ghost var i := url - temp;
      Terminate(url);
      var b1 := Bytes();
      MethodStage(b, temp, line, url, b1);
      BlankedOnce(b, temp, i, b1);
      url := url + 1;

      if Strcaseeq(b1, temp, "GET") {
        log := log + [MethodIsGet];
      } else {
        assert out + [] == out;
        return BAD_REQUEST;
      }

      url := url + Strspn(b1, url, BLANKS);
      TargetStage(b1, temp, line, i, url);
      blank := Strpbrk(b1, url, BLANKS);
      if blank.None? {
        return BAD_REQUEST;
      }
      var version := blank.value;
      ghost var j := version - temp;
      Terminate(version);
      var b2 := Bytes();
      VersionStage(b1, temp, line, i, url, j, b2);
      BlankedTwice(b, temp, i, j, b1, b2, "");
      version := version + 1;
      version := version + Strspn(b2, version, BLANKS);
      if !Strcaseeq(b2, version, "HTTP/1.1") {
        return BAD_REQUEST;
      }

      PathStage(b2, temp, line, i, url, j);
      var path := UrlStart(b2, url);
      if path.None? || b2[path.value] != '/' {
        return BAD_REQUEST;
      }
      BlankedTwice(b, temp, i, j, b1, b2, Str(b2, path.value));
      log := log + [RequestUrl(Str(b2, path.value))];
      assert log == out + [MethodIsGet, RequestUrl(Str(b2, path.value))];
      checkState := HEADER;
      return NO_REQUEST;
    }

    method ParseHeaders(temp: nat) returns (code: HttpCode)
      requires readIndex <= buffer.Length && Terminated(Bytes(), temp)
      modifies `log
      ensures (code, State()) == HeaderResult(old(State()), temp)
    {
      hide Str, HeaderMeaning, Strncaseeq, Strspn, Bytes;
      var b := Bytes();
      HeaderStage(b, temp);
      if b[temp] == NUL {
        assert log + [] == log;
        return GET_REQUEST;
      } else if Strncaseeq(b, temp, "Host:") {
        var host := temp + 5;
        host := host + Strspn(b, host, BLANKS);
        log := log + [RequestHost(Str(b, host))];
      } else {
        log := log + [UnknownHeader];
      }
      return NO_REQUEST;
    }

    /** The switch on checkstate. */
    method Handle(temp: nat) returns (code: HttpCode)
      requires readIndex <= buffer.Length && Terminated(Bytes(), temp)
      modifies buffer, `checkState, `log
      ensures (code, State()) == if old(checkState) == REQUESTLINE then RequestLineResult(old(State()), temp)
                                 else HeaderResult(old(State()), temp)
      ensures code == NO_REQUEST || code == BAD_REQUEST || code == GET_REQUEST
      ensures old(Unused()) ==> Unused()
    {
      hide Str, RequestLineResult, HeaderResult, SpelledGet, Bytes, Unused, Terminated;
      match checkState {
        case REQUESTLINE => code := ParseRequestLine(temp);
        case HEADER => code := ParseHeaders(temp);
      }
    }

    /** The line that parse_line has found starts at temp; the next one starts behind it. */
    method TakeLine(ghost p: Parser, ghost scanned: Scan) returns (temp: nat)
      requires startLine < checkedIndex <= readIndex <= buffer.Length
      requires scanned.buf == Bytes() && scanned.checked == checkedIndex
      requires p.(buf := Bytes(), checked := checkedIndex) == State()
      modifies `startLine, `spans
      ensures temp == p.start && State() == Taken(p, scanned) && startLine == checkedIndex
    {
      temp := startLine;
      spans := spans + [Bytes()[startLine..checkedIndex]];
      startLine := checkedIndex;
    }

    method ParseContent() returns (code: HttpCode)
      requires Valid()
      modifies this, buffer
      ensures Valid() && readIndex == old(readIndex)
      ensures (code, State()) == Content(old(State()))
      ensures calls == old(calls) + 1
    {
      hide Taken, RequestLineResult, HeaderResult, ScanLine, Content, Follows, Bytes, Unused, Terminated;
      hide SpelledGet, Str;
      ghost var p0 := State();
      ghost var p := p0;
      FollowsItself(p0);
      calls := calls + 1;
      var status := ParseLine();
      while status == LINE_OK
        invariant readIndex == old(readIndex) && startLine <= checkedIndex <= readIndex <= buffer.Length
        invariant Unused()
        invariant work <= checkedIndex + calls - if status == LINE_OK then 1 else 0
        invariant calls == old(calls) + 1
        invariant Follows(p0, p) && p.WellFormed() && |p.buf| == readIndex
        invariant Scan(status, Bytes(), checkedIndex) == ScanLine(p.buf, p.checked)
        invariant p.(buf := Bytes(), checked := checkedIndex) == State()
        decreases readIndex - p.checked
      {
        ghost var scanned := Scan(status, Bytes(), checkedIndex);
        var temp := TakeLine(p, scanned);
        NulEnds(Bytes(), temp, checkedIndex - 1);
        code := Handle(temp);
        LineTurned(p0, p, scanned, code, State());
        if code == BAD_REQUEST || code == GET_REQUEST {
          return code;
        }
        p := State();
        status := ParseLine();
      }
      ContentStops(p0, p, Scan(status, Bytes(), checkedIndex));
      if status == LINE_OPEN {
        return NO_REQUEST;
      } else {
        return BAD_REQUEST;
      }
    }

    /** One successful recv. */
    method Receive(chunk: seq<char>)
      requires Valid() && readIndex + |chunk| <= buffer.Length
      modifies buffer, `readIndex
      ensures Valid() && State() == old(State()).Received(chunk) && readIndex == old(readIndex) + |chunk|
    {
      ghost var b := Bytes();
      forall i | 0 <= i < |chunk| {
        buffer[readIndex + i] := chunk[i];
      }
      readIndex := readIndex + |chunk|;
      assert Bytes() == b + chunk;
    }

    /** recv: at least one byte and about `arrival` bytes of what has been sent and fits; none when all
        has been read or the buffer is full. */
    method Recv(stream: seq<char>, arrival: nat) returns (dataRead: nat)
      requires Valid() && readIndex <= |stream|
      modifies buffer, `readIndex
      ensures Valid() && readIndex == old(readIndex) + dataRead <= |stream|
      ensures dataRead == 0 <==> old(readIndex) == |stream| || old(readIndex) == buffer.Length
      ensures State() == old(State()).Received(stream[old(readIndex)..readIndex])
      ensures dataRead == 0 ==> State() == old(State())
    {
      ReceivedNothing(State());
      var available := Min(|stream|, buffer.Length) - readIndex;
      dataRead := Min(available, if arrival == 0 then 1 else arrival);
      Receive(stream[readIndex..readIndex + dataRead]);
    }

    /** The receive loop of main. The peer sends `stream` and then closes; the t-th recv returns
        about arrivals(t) bytes: at least one, at most what has been sent and what fits. Whatever
        the arrivals, the verdict, the output and the state are those of one call on the first
        bytes of the stream, as many as fit the buffer; bytes not read by then are untouched. */
    method Serve(stream: seq<char>, arrivals: nat -> nat) returns (code: HttpCode, reply: Option<string>)
      requires Valid() && State() == FRESH && work == calls == 0
      modifies this, buffer
      ensures Valid() && work <= readIndex + calls && calls <= readIndex
      ensures var all := if |stream| <= buffer.Length then stream else stream[..buffer.Length];
              && readIndex <= |all| && (code == NO_REQUEST ==> readIndex == |all|)
              && (code, State().Received(all[readIndex..])) == Content(FRESH.Received(all))
              && (code, log) == Interpret(all, REQUESTLINE)
              && (code == GET_REQUEST <==> Accepts(all)) && (code == BAD_REQUEST <==> Rejects(all))
      ensures Inv(State(), stream[..readIndex])
      ensures forall target, path, headers, rest ::
                Clean(target) && TargetHasPath(target, path) && HeaderLines(headers)
                && stream == Render(target, headers) + rest && |Render(target, headers)| <= buffer.Length ==>
                && code == GET_REQUEST && reply == Some("I get a correct result\n")
                && log == [MethodIsGet, RequestUrl(path)] + HeaderOutputs(headers)
      ensures reply == if code == NO_REQUEST then None
                       else if code == GET_REQUEST then Some("I get a correct result\n")
                       else Some("Something wrong\n")
    {
      hide Content, Interpret, Inv, Accepts, Rejects, Bytes;
      hide Render, Clean, TargetHasPath, HeaderLines, HeaderOutputs;
      var t := 0;
      code := NO_REQUEST;
      reply := None;
      ghost var all := if |stream| <= buffer.Length then stream else stream[..buffer.Length];
      FreshIsIdle();
      assert FRESH.Received(all[..0]) == FRESH;
      while true
        invariant Valid() && calls <= readIndex <= |all| && code == NO_REQUEST && reply == None
        invariant Content(FRESH.Received(all[..readIndex])) == (NO_REQUEST, State())
        decreases |all| - readIndex
      {
        ghost var before := readIndex;
        var dataRead := Recv(stream, arrivals(t));
        t := t + 1;
        if dataRead == 0 {
          break;
        }
        Within(stream, |all|, before, readIndex);
        NextCall(all, before, readIndex, State());
        code := ParseContent();
        if code != NO_REQUEST {
          reply := Some(if code == GET_REQUEST then "I get a correct result\n" else "Something wrong\n");
          break;
        }
      }
      RunEnds(all, readIndex, code, State());
      Within(stream, |all|, 0, readIndex);
      RenderedServed(stream, buffer.Length, code, log);
    }
  }
}
