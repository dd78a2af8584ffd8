/** The verdict and the whole parser state do not depend on how the bytes were split into chunks. */
module HttpChunks {
  import opened CString
  import opened RequestLine
  import opened HttpMachine

  /** A scan that ran out of bytes can be resumed where it stopped. */
  lemma {:induction false} ScanResumes(b: seq<char>, c: nat, more: seq<char>)
    requires c <= |b| && ScanLine(b, c).status == LINE_OPEN
    ensures ScanLine(b + more, c) == ScanLine(b + more, ScanLine(b, c).checked)
    decreases |b| - c
  {
    if c < |b| && b[c] != CR {
      ScanResumes(b, c + 1, more);
      assert (b + more)[c] == b[c];
      assert c > 1 ==> (b + more)[c - 1] == b[c - 1];
    }
  }

  /** A scan that found the end of a line, or an error, does not look at what comes later. */
  lemma {:induction false} ScanFrame(b: seq<char>, c: nat, more: seq<char>)
    requires c <= |b| && ScanLine(b, c).status != LINE_OPEN
    ensures var r := ScanLine(b, c); ScanLine(b + more, c) == r.(buf := r.buf + more)
    decreases |b| - c
  {
    assert (b + more)[c] == b[c];
    assert c > 1 ==> (b + more)[c - 1] == b[c - 1];
    if b[c] == CR {
      assert (b + more)[c + 1] == b[c + 1];
      assert (b + more)[c := NUL][c + 1 := NUL] == b[c := NUL][c + 1 := NUL] + more;
    } else if b[c] == LF && c > 1 && b[c - 1] == CR {
      assert (b + more)[c - 1 := NUL][c := NUL] == b[c - 1 := NUL][c := NUL] + more;
    } else {
      ScanFrame(b, c + 1, more);
    }
  }

  lemma StrMore(b: seq<char>, p: nat, more: seq<char>)
    requires Terminated(b, p)
    ensures Terminated(b + more, p) && Str(b + more, p) == Str(b, p)
  {
    StrFrame(b, b + more, p);
  }

  lemma BlankedMore(b: seq<char>, temp: nat, t: Tokens, more: seq<char>)
    requires !t.NoBlank? ==> temp + t.i < |b|
    requires t.BadVersion? || t.BadTarget? || t.Valid? ==> temp + t.j < |b|
    ensures Blanked(b + more, temp, t) == Blanked(b, temp, t) + more
  {
    if !t.NoBlank? {
      assert (b + more)[temp + t.i := NUL] == b[temp + t.i := NUL] + more;
    }
  }

  /** Handling a line ignores the bytes received behind it. */
  lemma DispatchFrame(q: Parser, temp: nat, more: seq<char>)
    requires Terminated(q.buf, temp)
    ensures Terminated(q.buf + more, temp)
    ensures Dispatch(q.Received(more), temp) == (Dispatch(q, temp).0, Dispatch(q, temp).1.Received(more))
  {
    StrMore(q.buf, temp, more);
    BlankedMore(q.buf, temp, Tokenise(Str(q.buf, temp)), more);
  }

  lemma TakenFrame(p: Parser, s: Scan, more: seq<char>)
    requires p.start < s.checked <= |s.buf|
    ensures Taken(p.Received(more), s.(buf := s.buf + more)) == Taken(p, s).Received(more)
  {
    assert (s.buf + more)[p.start..s.checked] == s.buf[p.start..s.checked];
  }

  /** One call of parse_content with more bytes in the buffer is a call without them, followed, if
      that one wanted more, by a second call with them. */
  lemma {:induction false} ContentResumes(p: Parser, more: seq<char>)
    requires p.WellFormed()
    ensures var (code, q) := Content(p);
            Content(p.Received(more)) ==
            if code == NO_REQUEST then Content(q.Received(more)) else (code, q.Received(more))
    decreases |p.buf| - p.checked
  {
    var s := ScanLine(p.buf, p.checked);
    if s.status == LINE_OPEN {
      ScanResumes(p.buf, p.checked, more);
      SameScan(p.Received(more), s.checked);
    } else {
      ScanFrame(p.buf, p.checked, more);
      if s.status == LINE_OK {
        TakenFrame(p, s, more);
        assert s.buf[s.checked - 1] == NUL;
        DispatchFrame(Taken(p, s), p.start, more);
        var (code, q) := Dispatch(Taken(p, s), p.start);
        if code == NO_REQUEST {
          ContentResumes(q, more);
        }
      }
    }
  }

  /** Only the outcome of the next scan matters to parse_content, not where that scan starts. */
  lemma SameScan(p: Parser, c: nat)
    requires p.WellFormed() && p.checked <= c <= |p.buf|
    requires ScanLine(p.buf, p.checked) == ScanLine(p.buf, c)
    ensures Content(p) == Content(p.(checked := c))
  {
    var s := ScanLine(p.buf, c);
    if s.status == LINE_OK {
      assert Taken(p, s) == Taken(p.(checked := c), s);
    }
  }

  /** A parser with nothing left to do until more bytes arrive. */
  ghost predicate Idle(p: Parser) {
    p.WellFormed() && Content(p) == (NO_REQUEST, p)
  }

  lemma ReceivedNothing(p: Parser)
    ensures p.Received([]) == p
  {
    assert p.buf + [] == p.buf;
  }

  lemma NoRequestIsIdle(p: Parser)
    requires p.WellFormed() && Content(p).0 == NO_REQUEST
    ensures Idle(Content(p).1)
  {
    ContentResumes(p, []);
    ReceivedNothing(p);
    ReceivedNothing(Content(p).1);
  }

  lemma ReceivedTwice(p: Parser, a: seq<char>, b: seq<char>)
    ensures p.Received(a).Received(b) == p.Received(a + b)
  {
    assert (p.buf + a) + b == p.buf + (a + b);
  }

  /** Chunk independence: for every list of chunks, feeding them one at a time until the first
      verdict gives the verdict and the state of a single call on all the bytes; the bytes that were
      not read by then are the only difference. */
  lemma {:induction false} ChunkIndependence(p: Parser, chunks: seq<seq<char>>)
    requires Idle(p)
    ensures var (code, q, unread) := Feed(p, chunks);
            && Content(p.Received(Concat(chunks))) == (code, q.Received(Concat(unread)))
            && (code == NO_REQUEST ==> unread == [] && Idle(q))
    decreases |chunks|
  {
    if chunks == [] {
      ReceivedNothing(p);
    } else {
      var first := p.Received(chunks[0]);
      var rest := Concat(chunks[1..]);
      ContentResumes(first, rest);
      ReceivedTwice(p, chunks[0], rest);
      if Content(first).0 == NO_REQUEST {
        NoRequestIsIdle(first);
        ChunkIndependence(Content(first).1, chunks[1..]);
      }
    }
  }

  lemma FreshIsIdle()
    ensures Idle(FRESH)
  {
  }

  /** Two ways of cutting the same bytes agree; while no verdict is reached they agree on everything
      that persists between calls. */
  lemma SplitsAgree(chunks: seq<seq<char>>, chunks': seq<seq<char>>)
    requires Concat(chunks) == Concat(chunks')
    ensures var (code, q, unread) := Feed(FRESH, chunks);
            var (code', q', unread') := Feed(FRESH, chunks');
            && code == code'
            && q.Received(Concat(unread)) == q'.Received(Concat(unread'))
            && (code == NO_REQUEST ==> q == q')
  {
    ChunkIndependence(FRESH, chunks);
    ChunkIndependence(FRESH, chunks');
    ReceivedNothing(Feed(FRESH, chunks).1);
    ReceivedNothing(Feed(FRESH, chunks').1);
  }
}
