/** What holds in every state the parser reaches: how far it has scanned, that its in-place writes
    lost nothing that is still to be read, and that its verdict is the reading of the bytes received. */
module HttpInvariant {
  import opened CString
  import opened RequestLine
  import opened HttpMachine
  import opened HttpAcceptance

  ghost predicate NoCRBefore(b: seq<char>, n: nat) { forall i :: 0 <= i < n <= |b| ==> b[i] != CR }
  ghost predicate SameFrom(b: seq<char>, rcv: seq<char>, from: nat) {
    |b| == |rcv| && forall i :: from <= i < |b| ==> b[i] == rcv[i]
  }

  /** A line as it was received, from the span that was handed to a handler. */
  function AsReceived(span: seq<char>): seq<char> {
    if |span| < 2 then span else span[..|span| - 2] + CRLF
  }

  function Rejoin(spans: seq<seq<char>>): seq<char> {
    if spans == [] then [] else Rejoin(spans[..|spans| - 1]) + AsReceived(spans[|spans| - 1])
  }

  ghost predicate IsSpan(span: seq<char>) {
    |span| >= 2 && NoCR(span) && span[|span| - 2] == NUL && span[|span| - 1] == NUL
  }

  /** The lines handed out, each followed by CRLF again, are the first n bytes received. */
  ghost predicate Conserved(spans: seq<seq<char>>, rcv: seq<char>, n: nat) {
    && n <= |rcv| && Rejoin(spans) == rcv[..n]
    && forall i :: 0 <= i < |spans| ==> IsSpan(spans[i])
  }

  /** The parser p has received rcv. */
  ghost predicate Inv(p: Parser, rcv: seq<char>) {
    && p.WellFormed()
    && SameFrom(p.buf, rcv, p.start)
    && NoCRBefore(p.buf, p.checked)
    && Conserved(p.spans, rcv, p.start)
  }

  /** The request line is expected exactly as long as no line has been read. */
  ghost predicate StateKnown(p: Parser) {
    (p.state == REQUESTLINE <==> p.start == 0) && (p.state == REQUESTLINE <==> p.spans == [])
  }

  /** Between two calls of parse_content the scan has stopped at the end, or at a CR that is the
      last byte. */
  ghost predicate Resting(p: Parser, rcv: seq<char>) {
    && Inv(p, rcv) && StateKnown(p)
    && (p.checked == |p.buf| || (p.checked + 1 == |p.buf| && p.buf[p.checked] == CR))
  }

  // parse_line

  /** On a reachable buffer parse_line is a search for the first CR: the branch for an LF behind a
      CR is never taken, and a complete line takes at least two bytes. */
  lemma {:induction false} ScanReachable(b: seq<char>, c: nat)
    requires c <= |b| && NoCRBefore(b, c)
    ensures var k := Seek(b, {CR}, true, c);
            ScanLine(b, c) ==
            if k + 1 >= |b| then Scan(LINE_OPEN, b, k)
            else if b[k + 1] == LF then Scan(LINE_OK, b[k := NUL][k + 1 := NUL], k + 2)
            else Scan(LINE_BAD, b, k)
    decreases |b| - c
  {
    if c < |b| && b[c] != CR {
      ScanReachable(b, c + 1);
    }
  }

  /** The CR that the scan finds is the first one received from start_line on. */
  lemma SameFirstCR(p: Parser, rcv: seq<char>)
    requires Inv(p, rcv)
    ensures Seek(p.buf, {CR}, true, p.checked) == Seek(rcv, {CR}, true, p.start)
  {
    SeekIs(rcv, {CR}, true, p.start, Seek(p.buf, {CR}, true, p.checked));
  }

  /** The string at start_line, once parse_line has ended it with NULs, is the received line. */
  lemma LineString(b: seq<char>, start: nat, k: nat, rcv: seq<char>)
    requires start <= k && k + 1 < |b| && SameFrom(b, rcv, start)
    ensures var b' := b[k := NUL][k + 1 := NUL];
            Terminated(b', start) && StrEnd(b', start) <= k && Str(b', start) == CLine(rcv[start..k])
  {
    var b' := b[k := NUL][k + 1 := NUL];
    var line := rcv[start..k];
    var n := IndexIn(line, {NUL});
    assert n < |line| ==> b'[start + n] == line[n];
    forall i | start <= i < start + n ensures b'[i] != NUL { assert b'[i] == line[i - start]; }
    StrIs(b', start, start + n);
    assert b'[start..start + n] == line[..n];
  }

  lemma SpanIsLine(b: seq<char>, rcv: seq<char>, start: nat, k: nat)
    requires start <= k && k + 1 < |b| && NoCRBefore(b, k) && SameFrom(b, rcv, start)
    ensures var span := b[k := NUL][k + 1 := NUL][start..k + 2];
            IsSpan(span) && AsReceived(span) == rcv[start..k] + CRLF
  {
    var span := b[k := NUL][k + 1 := NUL][start..k + 2];
    forall i | 0 <= i < |span| ensures span[i] != CR {
      assert start + i < k ==> span[i] == b[start + i];
    }
    assert span[..|span| - 2] == rcv[start..k];
  }

  lemma ConservedSnoc(spans: seq<seq<char>>, rcv: seq<char>, start: nat, k: nat, span: seq<char>)
    requires Conserved(spans, rcv, start) && start <= k && k + 1 < |rcv| && rcv[k] == CR && rcv[k + 1] == LF
    requires IsSpan(span) && AsReceived(span) == rcv[start..k] + CRLF
    ensures Conserved(spans + [span], rcv, k + 2)
  {
    assert (spans + [span])[..|spans|] == spans;
    assert rcv[..k + 2] == rcv[..start] + (rcv[start..k] + CRLF);
  }

  lemma TakenInv(p: Parser, rcv: seq<char>, k: nat)
    requires Inv(p, rcv) && p.checked <= k && k + 1 < |p.buf|
    requires NoCRBefore(p.buf, k) && p.buf[k] == CR && p.buf[k + 1] == LF
    ensures var s := Scan(LINE_OK, p.buf[k := NUL][k + 1 := NUL], k + 2); Inv(Taken(p, s), rcv)
  {
    SpanIsLine(p.buf, rcv, p.start, k);
    ConservedSnoc(p.spans, rcv, p.start, k, p.buf[k := NUL][k + 1 := NUL][p.start..k + 2]);
  }

  // The handlers

  lemma BlankedInside(b: seq<char>, temp: nat, i: nat)
    requires Terminated(b, temp) && i < |b|
    ensures var r := Blanked(b, temp, Tokenise(Str(b, temp)));
            r[i] == b[i] || (r[i] == NUL && temp <= i < StrEnd(b, temp))
  {
  }

  /** A handler writes only NULs, and only inside the string it was given. */
  lemma DispatchWrites(q: Parser, temp: nat, i: nat)
    requires Terminated(q.buf, temp) && i < |q.buf|
    ensures var b := Dispatch(q, temp).1.buf;
            b[i] == q.buf[i] || (b[i] == NUL && temp <= i < StrEnd(q.buf, temp))
  {
    BlankedInside(q.buf, temp, i);
  }

  lemma DispatchKeepsInv(q: Parser, temp: nat, rcv: seq<char>)
    requires Inv(q, rcv) && Terminated(q.buf, temp) && StrEnd(q.buf, temp) < q.start
    ensures Inv(Dispatch(q, temp).1, rcv)
  {
    forall i | 0 <= i < |q.buf|
      ensures Dispatch(q, temp).1.buf[i] == q.buf[i] || (Dispatch(q, temp).1.buf[i] == NUL && i < q.start)
    {
      DispatchWrites(q, temp, i);
    }
    DispatchSpans(q, temp);
  }

  lemma DispatchSpans(q: Parser, temp: nat)
    requires Terminated(q.buf, temp)
    ensures Dispatch(q, temp).1.spans == q.spans
  {
  }

  /** What a handler makes of its line is what the reading makes of it. */
  lemma DispatchMeaning(q: Parser, temp: nat)
    requires Terminated(q.buf, temp)
    ensures var (code, out) := LineMeaning(Str(q.buf, temp), q.state);
            && Dispatch(q, temp).0 == code && Dispatch(q, temp).1.log == q.log + out
            && (code == NO_REQUEST ==> Dispatch(q, temp).1.state == HEADER)
  {
  }

  // parse_content

  /** One turn of the loop of parse_content whose line ends at k: the line goes to its handler. */
  ghost predicate Turned(p: Parser, rcv: seq<char>, k: nat, code: HttpCode, r: Parser) {
    && p.start <= k && k + 1 < |rcv|
    && Inv(r, rcv) && r.start == k + 2
    && (code, r.log) == (LineMeaning(CLine(rcv[p.start..k]), p.state).0,
                         p.log + LineMeaning(CLine(rcv[p.start..k]), p.state).1)
    && (code == NO_REQUEST ==> r.state == HEADER && r.spans != [])
  }

  lemma LineTurn(p: Parser, rcv: seq<char>, k: nat)
    requires Inv(p, rcv) && p.checked <= k && k + 1 < |p.buf|
    requires NoCRBefore(p.buf, k) && p.buf[k] == CR && p.buf[k + 1] == LF
    ensures var q := Taken(p, Scan(LINE_OK, p.buf[k := NUL][k + 1 := NUL], k + 2));
            Terminated(q.buf, p.start) &&
            Turned(p, rcv, k, Dispatch(q, p.start).0, Dispatch(q, p.start).1)
  {
    var q := Taken(p, Scan(LINE_OK, p.buf[k := NUL][k + 1 := NUL], k + 2));
    TakenInv(p, rcv, k);
    LineString(p.buf, p.start, k, rcv);
    DispatchKeepsInv(q, p.start, rcv);
    DispatchSpans(q, p.start);
    DispatchMeaning(q, p.start);
  }

  /** The reading, one line at a time, by position. */
  lemma InterpretFrom(rcv: seq<char>, from: nat, state: CheckState)
    requires from <= |rcv|
    ensures var k := Seek(rcv, {CR}, true, from);
            Interpret(rcv[from..], state) ==
            if k + 1 >= |rcv| then (NO_REQUEST, [])
            else if rcv[k + 1] != LF then (BAD_REQUEST, [])
            else
              var (code, out) := LineMeaning(CLine(rcv[from..k]), state);
              if code != NO_REQUEST then (code, out)
              else (Interpret(rcv[k + 2..], HEADER).0, out + Interpret(rcv[k + 2..], HEADER).1)
  {
    hide LineMeaning, CLine, Seek;
    var k := Seek(rcv, {CR}, true, from);
    SeekShift(rcv, {CR}, true, from);
    if k + 1 < |rcv| {
      assert rcv[from..][..k - from] == rcv[from..k];
      assert rcv[from..][k + 2 - from..] == rcv[k + 2..];
    }
  }

  /** `code` and q are what one call on p should give: the verdict and the output are the reading of
      the bytes from start_line on, and the state is reachable again. */
  ghost predicate Meant(p: Parser, rcv: seq<char>, code: HttpCode, q: Parser)
    requires p.start <= |rcv|
  {
    && code == Interpret(rcv[p.start..], p.state).0
    && q.log == p.log + Interpret(rcv[p.start..], p.state).1
    && Inv(q, rcv)
    && (code == NO_REQUEST ==> Resting(q, rcv))
  }

  /** No line is complete: nothing but checked_index moves. */
  lemma NoLine(p: Parser, rcv: seq<char>)
    requires Inv(p, rcv) && ScanLine(p.buf, p.checked).status != LINE_OK
    ensures var k := Seek(rcv, {CR}, true, p.start);
            && p.checked <= k <= |rcv| == |p.buf|
            && Content(p) == (if k + 1 >= |rcv| then NO_REQUEST else BAD_REQUEST, p.(checked := k))
            && (k + 1 < |rcv| ==> rcv[k + 1] != LF) && (k < |rcv| ==> p.buf[k] == CR)
  {
    SameFirstCR(p, rcv);
    ScanReachable(p.buf, p.checked);
  }

  lemma NoLineMeant(p: Parser, rcv: seq<char>, k: nat, code: HttpCode, q: Parser)
    requires Inv(p, rcv) && StateKnown(p) && k == Seek(rcv, {CR}, true, p.start)
    requires p.checked <= k <= |rcv| && q == p.(checked := k) && (k < |rcv| ==> p.buf[k] == CR)
    requires code == if k + 1 >= |rcv| then NO_REQUEST else BAD_REQUEST
    requires k + 1 < |rcv| ==> rcv[k + 1] != LF
    ensures Meant(p, rcv, code, q)
  {
    InterpretFrom(rcv, p.start, p.state);
    assert p.log + [] == p.log;
  }

  lemma ContentTurns(p: Parser, scanned: Scan, code: HttpCode, r: Parser)
    requires p.WellFormed() && scanned == ScanLine(p.buf, p.checked) && scanned.status == LINE_OK
    requires Terminated(scanned.buf, p.start) && Dispatch(Taken(p, scanned), p.start) == (code, r)
    ensures r.WellFormed()
    ensures Content(p) == if code == NO_REQUEST then Content(r) else (code, r)
  {
  }

  /** A line is complete: one turn of the loop. */
  lemma OneLine(p: Parser, rcv: seq<char>) returns (k: nat, code: HttpCode, r: Parser)
    requires Inv(p, rcv) && ScanLine(p.buf, p.checked).status == LINE_OK
    ensures k + 1 < |rcv| && k == Seek(rcv, {CR}, true, p.start) && rcv[k + 1] == LF
    ensures Turned(p, rcv, k, code, r) && |r.buf| - r.checked < |p.buf| - p.checked
    ensures Content(p) == if code == NO_REQUEST then Content(r) else (code, r)
  {
    k := Seek(p.buf, {CR}, true, p.checked);
    SameFirstCR(p, rcv);
    ScanReachable(p.buf, p.checked);
    LineTurn(p, rcv, k);
    var scanned := Scan(LINE_OK, p.buf[k := NUL][k + 1 := NUL], k + 2);
    var result := Dispatch(Taken(p, scanned), p.start);
    code, r := result.0, result.1;
    ContentTurns(p, scanned, code, r);
  }

  /** A line was read to r; the rest is meant if it is meant from r on. */
  lemma LineMeant(p: Parser, rcv: seq<char>, k: nat, code: HttpCode, r: Parser, code': HttpCode, q: Parser)
    requires p.start <= k && k + 1 < |rcv| && k == Seek(rcv, {CR}, true, p.start) && rcv[k + 1] == LF
    requires Turned(p, rcv, k, code, r)
    requires code != NO_REQUEST ==> (code', q) == (code, r)
    requires code == NO_REQUEST ==> Meant(r, rcv, code', q)
    ensures Meant(p, rcv, code', q)
  {
    InterpretFrom(rcv, p.start, p.state);
    if code == NO_REQUEST {
      Associate(p.log, LineMeaning(CLine(rcv[p.start..k]), p.state).1, Interpret(rcv[k + 2..], HEADER).1);
    }
  }

  /** One call of parse_content on a reachable state means what it should. */
  lemma {:induction false} ContentMeaning(p: Parser, rcv: seq<char>)
    requires Inv(p, rcv) && StateKnown(p)
    ensures Meant(p, rcv, Content(p).0, Content(p).1)
    decreases |p.buf| - p.checked
  {
    if ScanLine(p.buf, p.checked).status == LINE_OK {
      var k, code, r := OneLine(p, rcv);
      if code == NO_REQUEST {
        ContentMeaning(r, rcv);
      }
      LineMeant(p, rcv, k, code, r, Content(p).0, Content(p).1);
    } else {
      NoLine(p, rcv);
      NoLineMeant(p, rcv, Seek(rcv, {CR}, true, p.start), Content(p).0, Content(p).1);
    }
  }

  lemma Associate<T>(a: seq<T>, b: seq<T>, c: seq<T>)
    ensures (a + b) + c == a + (b + c)
  {
  }
}
