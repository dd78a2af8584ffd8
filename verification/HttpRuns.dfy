/** Whole runs of the server: every list of chunks, from a fresh connection. */
module HttpRuns {
  import opened CString
  import opened RequestLine
  import opened HttpMachine
  import opened HttpChunks
  import opened HttpAcceptance
  import opened HttpInvariant
  import opened HttpOutputs

  lemma InvReceived(p: Parser, rcv: seq<char>, more: seq<char>)
    requires Inv(p, rcv)
    ensures Inv(p.Received(more), rcv + more)
  {
    assert (rcv + more)[..p.start] == rcv[..p.start];
  }

  /** After reading all but the last `unread` chunks, the parser q has received exactly those. */
  ghost predicate ReadSoFar(rcv: seq<char>, chunks: seq<seq<char>>, code: HttpCode, q: Parser, unread: nat) {
    && unread <= |chunks|
    && Inv(q, rcv + Concat(chunks[..|chunks| - unread]))
    && (code == NO_REQUEST ==> Resting(q, rcv + Concat(chunks[..|chunks| - unread])))
  }

  lemma ReadOneMore(rcv: seq<char>, chunks: seq<seq<char>>, n: nat)
    requires 1 <= n <= |chunks|
    ensures rcv + Concat(chunks[..n]) == (rcv + chunks[0]) + Concat(chunks[1..][..n - 1])
  {
    assert chunks[..n][1..] == chunks[1..][..n - 1];
  }

  /** The invariant holds after every run, for exactly the bytes that were read. */
  lemma {:induction false} FeedKeepsInv(p: Parser, rcv: seq<char>, chunks: seq<seq<char>>)
    requires Resting(p, rcv)
    ensures var (code, q, unread) := Feed(p, chunks); ReadSoFar(rcv, chunks, code, q, |unread|)
    decreases |chunks|
  {
    hide Content, Interpret, NoCRBefore, SameFrom, Conserved;
    if chunks == [] {
      assert rcv + [] == rcv;
    } else {
      var first := p.Received(chunks[0]);
      InvReceived(p, rcv, chunks[0]);
      ContentMeaning(first, rcv + chunks[0]);
      var unread := |Feed(p, chunks).2|;
      if Content(first).0 == NO_REQUEST {
        FeedKeepsInv(Content(first).1, rcv + chunks[0], chunks[1..]);
      } else {
        assert (rcv + chunks[0]) + Concat(chunks[1..][..0]) == rcv + chunks[0];
      }
      ReadOneMore(rcv, chunks, |chunks| - unread);
    }
  }

  lemma FreshRests()
    ensures Resting(FRESH, [])
  {
  }

  /** The verdict of a run and everything it prints are the reading of all the bytes sent. */
  lemma RunMeaning(chunks: seq<seq<char>>)
    ensures var (code, q, unread) := Feed(FRESH, chunks);
            (code, q.log) == Interpret(Concat(chunks), REQUESTLINE)
  {
    var all := Concat(chunks);
    ChunkIndependence(FRESH, chunks);
    FreshRests();
    InvReceived(FRESH, [], all);
    assert [] + all == all && all[0..] == all;
    ContentMeaning(FRESH.Received(all), all);
    assert FRESH.log + Interpret(all, REQUESTLINE).1 == Interpret(all, REQUESTLINE).1;
  }

  /** Exact acceptance under every chunking. */
  lemma RunAccepts(chunks: seq<seq<char>>)
    ensures var code := Feed(FRESH, chunks).0;
            && (code == GET_REQUEST <==> Accepts(Concat(chunks)))
            && (code == BAD_REQUEST <==> Rejects(Concat(chunks)))
            && (code == NO_REQUEST <==> !Accepts(Concat(chunks)) && !Rejects(Concat(chunks)))
  {
    RunMeaning(chunks);
    ExactAcceptance(Concat(chunks));
  }

  /** What a run has printed, whatever its verdict and under every chunking. */
  lemma RunPrints(chunks: seq<seq<char>>, out: seq<Output>)
    ensures var (s, code, log) := (Concat(chunks), Feed(FRESH, chunks).0, Feed(FRESH, chunks).1.log);
            && (code == GET_REQUEST && log == out <==>
                  exists l, path, ls, e, rest :: Request(s, l, path, ls, e, rest) && out == RequestOutputs(path, ls))
            && (code == NO_REQUEST && log == out <==>
                  || (Open(s) && out == [])
                  || exists l, path, ls, tail ::
                       HeadersSoFar(s, l, path, ls, tail) && out == RequestOutputs(path, ls))
            && (code == BAD_REQUEST && log == out <==>
                  || (exists l, c, rest :: StartsWithLine(s, l, c, rest) && c != LF && out == [])
                  || (exists l, rest :: StartsWithLine(s, l, LF, rest) && BadFirst(l, out))
                  || exists l, path, ls, e, c, rest ::
                       HeadersToError(s, l, path, ls, e, c, rest) && out == RequestOutputs(path, ls))
  {
    hide Feed, Request, RequestOutputs, Interpret, Open, HeadersSoFar, StartsWithLine, BadFirst, HeadersToError;
    RunMeaning(chunks);
    AcceptedPrints(Concat(chunks), out);
    OpenPrints(Concat(chunks), out);
    RejectedPrints(Concat(chunks), out);
  }

  /** The bytes of an accepted stream start with GET, each letter in either case, and a blank. */
  lemma AcceptedMethod(chunks: seq<seq<char>>)
    requires Feed(FRESH, chunks).0 == GET_REQUEST
    ensures var s := Concat(chunks);
            && |s| > 3
            && (s[0] == 'G' || s[0] == 'g') && (s[1] == 'E' || s[1] == 'e')
            && (s[2] == 'T' || s[2] == 't') && (s[3] == ' ' || s[3] == '\t')
  {
    hide Feed, IsRequestLine, Tokenise, HeaderLines, Join;
    RunPrints(chunks, Feed(FRESH, chunks).1.log);
    var s := Concat(chunks);
    var l, path, ls, e, rest :| Request(s, l, path, ls, e, rest);
    TokeniseExact(CLine(l), path);
    MethodExact(CLine(l));
    assert forall i :: 0 <= i < |CLine(l)| ==> CLine(l)[i] == l[i] == s[i];
  }

  /** Conservation and frame over a run: the lines handed out and the bytes from start_line on make up
      what was read, bytes from checked_index on are untouched, and no handed line has a CR. */
  lemma RunConserves(chunks: seq<seq<char>>)
    ensures var (_, q, unread) := Feed(FRESH, chunks);
            && |unread| <= |chunks|
            && var rcv := Concat(chunks[..|chunks| - |unread|]);
            && q.start <= q.checked <= |rcv| == |q.buf|
            && Rejoin(q.spans) + rcv[q.start..] == rcv
            && q.buf[q.checked..] == rcv[q.checked..]
            && forall i :: 0 <= i < |q.spans| ==> IsSpan(q.spans[i])
  {
    hide Feed, IsSpan, Rejoin, Inv;
    FreshRests();
    FeedKeepsInv(FRESH, [], chunks);
    var (_, q, unread) := Feed(FRESH, chunks);
    var rcv := Concat(chunks[..|chunks| - |unread|]);
    assert [] + rcv == rcv;
    InvConserves(q, rcv);
  }

  lemma InvConserves(q: Parser, rcv: seq<char>)
    requires Inv(q, rcv)
    ensures q.start <= q.checked <= |rcv| == |q.buf|
    ensures Rejoin(q.spans) + rcv[q.start..] == rcv && q.buf[q.checked..] == rcv[q.checked..]
    ensures forall i :: 0 <= i < |q.spans| ==> IsSpan(q.spans[i])
  {
    hide Rejoin, IsSpan, NoCRBefore;
    assert rcv[..q.start] + rcv[q.start..] == rcv;
  }

  /** Where a run stands when it asks for more. */
  lemma RunResumes(chunks: seq<seq<char>>)
    requires Feed(FRESH, chunks).0 == NO_REQUEST
    ensures var q := Feed(FRESH, chunks).1;
            && |q.buf| == |Concat(chunks)|
            && (q.checked == |q.buf| || (q.checked + 1 == |q.buf| && q.buf[q.checked] == CR))
            && (q.state == REQUESTLINE <==> q.start == 0)
            && forall i :: 0 <= i < q.checked ==> q.buf[i] != CR
  {
    FreshRests();
    FeedKeepsInv(FRESH, [], chunks);
    ChunkIndependence(FRESH, chunks);
    assert chunks[..|chunks|] == chunks;
    assert [] + Concat(chunks) == Concat(chunks);
  }

  // Printing a request and reading it back

  function Render(target: string, headers: seq<seq<char>>): seq<char> {
    "GET " + target + " HTTP/1.1" + CRLF + (Join(headers) + CRLF)
  }

  /** In the characters themselves. */
  lemma RenderLiteral(target: string)
    ensures Render(target, []) == "GET " + target + " HTTP/1.1\r\n\r\n"
  {
    assert CRLF == "\r\n" && Join([]) == [];
    assert "\r\n" + "\r\n" == "\r\n\r\n" && " HTTP/1.1" + "\r\n\r\n" == " HTTP/1.1\r\n\r\n";
  }

  ghost predicate Clean(target: string) {
    NoneIn(target, BLANKS) && NoCR(target) && NUL !in target
  }

  lemma NulFree(line: string)
    requires NUL !in line
    ensures CLine(line) == line
  {
    IndexIs(line, {NUL}, |line|);
  }

  lemma RenderedFirstLine(target: string, path: string)
    requires Clean(target) && TargetHasPath(target, path)
    ensures var line := "GET " + target + " HTTP/1.1";
            NoCR(line) && CLine(line) == line && Tokenise(line) == Valid(3, 4 + |target|, path)
  {
    var line := "GET " + target + " HTTP/1.1";
    assert target != "" by {
      if scheme, authority :| target == scheme + authority + path && path != "" {
      }
    }
    forall i | 0 <= i < |line| ensures line[i] != CR && line[i] != NUL {
      if 4 <= i < 4 + |target| { assert line[i] == target[i - 4]; }
    }
    NulFree(line);
    assert line == "GET" + " " + target + " " + "HTTP/1.1";
    assert Derives(line, "GET", " ", target, " ", "HTTP/1.1", path);
    TokeniseComplete(line, "GET", " ", target, " ", "HTTP/1.1", path);
  }

  lemma RenderedHeaders(headers: seq<seq<char>>, rest: seq<char>)
    requires HeaderLines(headers)
    ensures Interpret(Join(headers) + (CRLF + rest), HEADER) == (GET_REQUEST, HeaderOutputs(headers))
  {
    InterpretHeaders(headers, CRLF + rest);
    assert CRLF + rest == [] + CRLF + rest;
    LineFirst(CRLF + rest, [], LF, rest, HEADER);
    assert HeaderOutputs(headers) + [] == HeaderOutputs(headers);
  }

  lemma RenderSplits(target: string, headers: seq<seq<char>>, rest: seq<char>)
    ensures Render(target, headers) + rest
         == ("GET " + target + " HTTP/1.1") + CRLF + (Join(headers) + (CRLF + rest))
  {
  }

  lemma RenderedReading(target: string, path: string, headers: seq<seq<char>>, rest: seq<char>)
    requires Clean(target) && TargetHasPath(target, path) && HeaderLines(headers)
    ensures Interpret(Render(target, headers) + rest, REQUESTLINE)
         == (GET_REQUEST, [MethodIsGet, RequestUrl(path)] + HeaderOutputs(headers))
  {
    RenderSplits(target, headers, rest);
    RenderedFirstLine(target, path);
    FirstThen("GET " + target + " HTTP/1.1", path, Join(headers) + (CRLF + rest));
    RenderedHeaders(headers, rest);
  }

  lemma FirstThen(line: seq<char>, path: string, tail: seq<char>)
    requires NoCR(line) && CLine(line) == line && Tokenise(line).Valid? && Tokenise(line).path == path
    ensures var (code, out) := Interpret(tail, HEADER);
            Interpret(line + CRLF + tail, REQUESTLINE) == (code, [MethodIsGet, RequestUrl(path)] + out)
  {
    LineFirst(line + CRLF + tail, line, LF, tail, REQUESTLINE);
  }

  /** Round trip: a rendered request is accepted however it is cut into chunks and whatever follows
      it, and what is printed is the target's path and the headers in order. */
  lemma RoundTrip(target: string, path: string, headers: seq<seq<char>>, rest: seq<char>, chunks: seq<seq<char>>)
    requires Clean(target) && TargetHasPath(target, path) && HeaderLines(headers)
    requires Concat(chunks) == Render(target, headers) + rest
    ensures Feed(FRESH, chunks).0 == GET_REQUEST
    ensures Feed(FRESH, chunks).1.log == [MethodIsGet, RequestUrl(path)] + HeaderOutputs(headers)
  {
    RunMeaning(chunks);
    RenderedReading(target, path, headers, rest);
  }

  /** The smallest request, in the characters themselves. */
  lemma SmallestRequest(chunks: seq<seq<char>>)
    requires Concat(chunks) == "GET / HTTP/1.1\r\n\r\n"
    ensures Feed(FRESH, chunks).0 == GET_REQUEST
    ensures Feed(FRESH, chunks).1.log == [MethodIsGet, RequestUrl("/")]
  {
    hide Feed, Render;
    RenderLiteral("/");
    assert "GET " + "/" + " HTTP/1.1\r\n\r\n" == "GET / HTTP/1.1\r\n\r\n";
    assert Render("/", []) + [] == Render("/", []);
    RoundTrip("/", "/", [], [], chunks);
  }
}
