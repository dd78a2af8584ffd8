/** What the parser accepts, as a reading of the received bytes alone: no buffer, no indices, no NULs
    written. The machine is proved to compute this reading, and the reading to be the grammar. */
module HttpAcceptance {
  import opened CString
  import opened RequestLine
  import opened HttpMachine

  const CRLF: seq<char> := [CR, LF]

  ghost predicate NoCR(s: seq<char>) { forall i :: 0 <= i < |s| ==> s[i] != CR }

  /** A line as the handlers see it: a C string, cut at its first NUL. */
  function CLine(line: seq<char>): (s: string)
    ensures |s| <= |line| && NUL !in s
  {
    line[..IndexIn(line, {NUL})]
  }

  function Interpret(s: seq<char>, state: CheckState): (r: (HttpCode, seq<Output>))
    ensures r.0 == NO_REQUEST || r.0 == BAD_REQUEST || r.0 == GET_REQUEST
    decreases |s|
  {
    var k := IndexIn(s, {CR});
    if k + 1 >= |s| then (NO_REQUEST, [])
    else if s[k + 1] != LF then (BAD_REQUEST, [])
    else
      var (code, out) := LineMeaning(CLine(s[..k]), state);
      if code != NO_REQUEST then (code, out)
      else
        var (code', out') := Interpret(s[k + 2..], HEADER);
        (code', out + out')
  }

  /** The verdict on one line and what is printed for it. */
  function LineMeaning(line: string, state: CheckState): (r: (HttpCode, seq<Output>))
    ensures r.0 == NO_REQUEST || r.0 == BAD_REQUEST || r.0 == GET_REQUEST
  {
    match state
    case REQUESTLINE =>
      var t := Tokenise(line);
      (if t.Valid? then NO_REQUEST else BAD_REQUEST, Printed(t))
    case HEADER => HeaderMeaning(line)
  }

  /** The line starts with the word GET, in any case, and a blank. */
  ghost predicate GetLine(line: string, m: string, rest: string) {
    line == m + rest && EqNoCase(m, "GET") && rest != "" && rest[0] in BLANKS
  }

  lemma GetLineIs(line: string, m: string, rest: string)
    requires GetLine(line, m, rest)
    ensures WordEnd(line, 0) == |m| < |line| && line[..|m|] == m
  {
    EqNoCaseNoBlank(m, "GET");
    assert forall i :: 0 <= i < |m| ==> m[i] in m;
    SeekIs(line, BLANKS, true, 0, |m|);
  }

  /** The word GET is spelled in one of eight ways, and a space or a tab follows. */
  lemma GetSpelled(line: string)
    ensures (exists m, rest :: GetLine(line, m, rest)) <==>
            && |line| > 3
            && (line[0] == 'G' || line[0] == 'g') && (line[1] == 'E' || line[1] == 'e')
            && (line[2] == 'T' || line[2] == 't') && (line[3] == ' ' || line[3] == '\t')
  {
    if m, rest :| GetLine(line, m, rest) {
      EqNoCaseExact(m, "GET");
      assert m == line[..3] && rest == line[3..];
    }
    if |line| > 3 {
      var m, rest := line[..3], line[3..];
      assert line == m + rest;
      EqNoCaseExact(m, "GET");
      GetLetters(m);
      assert EqNoCase(m, "GET") && rest[0] in BLANKS ==> GetLine(line, m, rest);
    }
  }

  lemma GetLetters(m: string)
    requires |m| == 3
    ensures EqNoCase(m, "GET") <==>
            (m[0] == 'G' || m[0] == 'g') && (m[1] == 'E' || m[1] == 'e') && (m[2] == 'T' || m[2] == 't')
  {
    LowerExact(m[0], 'G');
    LowerExact(m[1], 'E');
    LowerExact(m[2], 'T');
    assert "GET"[0] == 'G' && "GET"[1] == 'E' && "GET"[2] == 'T';
  }

  /** What is printed for a first line: the method exactly when it is GET, even if the line turns out to
      be invalid, and then a URL exactly when the line is a request line with that path. */
  lemma FirstLinePrints(line: string)
    ensures var out := Printed(Tokenise(line));
            && (out == [] || out == [MethodIsGet] || exists path :: out == [MethodIsGet, RequestUrl(path)])
            && (out != [] <==> exists m, rest :: GetLine(line, m, rest))
            && forall path :: out == [MethodIsGet, RequestUrl(path)] <==> IsRequestLine(line, path)
  {
    hide EqNoCase, Seek, PathOf, IsRequestLine;
    var out := Printed(Tokenise(line));
    var i := WordEnd(line, 0);
    if out != [] {
      assert line == line[..i] + line[i..];
      assert GetLine(line, line[..i], line[i..]);
    }
    if m, rest :| GetLine(line, m, rest) {
      GetLineIs(line, m, rest);
    }
    forall path ensures out == [MethodIsGet, RequestUrl(path)] <==> IsRequestLine(line, path) {
      TokeniseExact(line, path);
    }
  }

  /** The line starts with GET, each letter in either case, and a space or a tab. */
  predicate SpelledGet(line: string) {
    && |line| > 3
    && (line[0] == 'G' || line[0] == 'g') && (line[1] == 'E' || line[1] == 'e')
    && (line[2] == 'T' || line[2] == 't') && (line[3] == ' ' || line[3] == '\t')
  }

  /** In the letters themselves: a first line that is accepted, or whose method is printed, starts with
      GET in one of its eight spellings and a blank, and each of those is taken. */
  lemma MethodExact(line: string)
    ensures var spelled :=
              && |line| > 3
              && (line[0] == 'G' || line[0] == 'g') && (line[1] == 'E' || line[1] == 'e')
              && (line[2] == 'T' || line[2] == 't') && (line[3] == ' ' || line[3] == '\t');
            && (|Printed(Tokenise(line))| > 0 <==> spelled)
            && (|Printed(Tokenise(line))| > 0 <==> MethodIsGet in Printed(Tokenise(line)))
            && (Tokenise(line).Valid? ==> spelled)
  {
    hide Tokenise;
    FirstLinePrints(line);
    GetSpelled(line);
  }

  /** What is printed for a header line: a host for a line that starts with Host: in any case, and one
      complaint for any other; only the empty line ends the headers. */
  lemma HeaderExact(line: string)
    ensures line == "" <==> HeaderMeaning(line) == (GET_REQUEST, [])
    ensures line != "" <==> HeaderMeaning(line).0 == NO_REQUEST && |HeaderMeaning(line).1| == 1
    ensures line != "" ==>
              if |line| >= 5 && (line[0] == 'H' || line[0] == 'h') && (line[1] == 'O' || line[1] == 'o')
                 && (line[2] == 'S' || line[2] == 's') && (line[3] == 'T' || line[3] == 't') && line[4] == ':'
              then HeaderMeaning(line).1[0].RequestHost?
              else HeaderMeaning(line).1 == [UnknownHeader]
  {
    if |line| >= 5 {
      LowerExact(line[0], 'H');
      LowerExact(line[1], 'o');
      LowerExact(line[2], 's');
      LowerExact(line[3], 't');
      LowerExact(line[4], ':');
      HostLetters(line[..5]);
    }
  }

  lemma HostLetters(name: string)
    requires |name| == 5
    ensures EqNoCase(name, "Host:") <==>
            && Lower(name[0]) == Lower('H') && Lower(name[1]) == Lower('o') && Lower(name[2]) == Lower('s')
            && Lower(name[3]) == Lower('t') && Lower(name[4]) == Lower(':')
  {
    hide Lower;
    var t := "Host:";
    assert t[0] == 'H' && t[1] == 'o' && t[2] == 's' && t[3] == 't' && t[4] == ':';
  }

  /** line = "Host:" blanks host, the name in any case. */
  ghost predicate HostLine(line: string, name: string, blanks: string, host: string) {
    && line == name + blanks + host && EqNoCase(name, "Host:")
    && AllIn(blanks, BLANKS) && (host != "" ==> host[0] !in BLANKS)
  }

  /** A host is printed exactly for such lines, and it is the only host they have. */
  lemma HostExact(line: string, host: string)
    ensures HeaderMeaning(line).1 == [RequestHost(host)] <==> exists name, blanks :: HostLine(line, name, blanks, host)
  {
    hide EqNoCase, Seek;
    if HeaderMeaning(line).1 == [RequestHost(host)] {
      var n := SpanIn(line[5..], BLANKS);
      assert HostLine(line, line[..5], line[5..][..n], host) by {
        assert line == line[..5] + line[5..][..n] + line[5..][n..];
      }
    }
    if name, blanks :| HostLine(line, name, blanks, host) {
      assert |name| == 5 by { SameLength(name, "Host:"); }
      assert line[..5] == name && line[5..] == blanks + host;
      SpanIs(line[5..], BLANKS, |blanks|);
      assert line[5..][|blanks|..] == host;
    }
  }

  // The reading is the grammar

  function Join(lines: seq<seq<char>>): seq<char> {
    if lines == [] then [] else lines[0] + CRLF + Join(lines[1..])
  }

  ghost predicate HeaderLine(l: seq<char>) { NoCR(l) && CLine(l) != "" }
  ghost predicate EmptyLine(l: seq<char>) { NoCR(l) && CLine(l) == "" }
  ghost predicate FirstLine(l: seq<char>) { NoCR(l) && exists path :: IsRequestLine(CLine(l), path) }

  ghost predicate HeaderLines(ls: seq<seq<char>>) { forall i :: 0 <= i < |ls| ==> HeaderLine(ls[i]) }

  /** Header lines up to an empty line. */
  ghost predicate HeadersEnd(s: seq<char>, ls: seq<seq<char>>, l: seq<char>, rest: seq<char>) {
    HeaderLines(ls) && EmptyLine(l) && s == Join(ls) + (l + CRLF + rest)
  }

  /** Header lines up to a CR that no LF follows. */
  ghost predicate HeadersBreak(s: seq<char>, ls: seq<seq<char>>, l: seq<char>, c: char, rest: seq<char>) {
    HeaderLines(ls) && NoCR(l) && c != LF && s == Join(ls) + (l + [CR, c] + rest)
  }

  ghost predicate AcceptsHeaders(s: seq<char>) { exists ls, l, rest :: HeadersEnd(s, ls, l, rest) }
  ghost predicate RejectsHeaders(s: seq<char>) { exists ls, l, c, rest :: HeadersBreak(s, ls, l, c, rest) }

  ghost predicate StartsWithLine(s: seq<char>, l: seq<char>, c: char, rest: seq<char>) {
    NoCR(l) && s == l + [CR, c] + rest
  }

  /** A valid request line, header lines and an empty line; anything may follow. */
  ghost predicate Accepts(s: seq<char>) {
    exists l, rest :: StartsWithLine(s, l, LF, rest) && FirstLine(l) && AcceptsHeaders(rest)
  }

  /** An error comes first: a CR that no LF follows, or an invalid first line. */
  ghost predicate Rejects(s: seq<char>) {
    || (exists l, c, rest :: StartsWithLine(s, l, c, rest) && (c != LF || !FirstLine(l)))
    || (exists l, rest :: StartsWithLine(s, l, LF, rest) && FirstLine(l) && RejectsHeaders(rest))
  }

  lemma FirstCRIs(s: seq<char>, l: seq<char>, c: char, rest: seq<char>)
    requires StartsWithLine(s, l, c, rest)
    ensures IndexIn(s, {CR}) == |l| && |l| + 1 < |s|
    ensures s[..|l|] == l && s[|l| + 1] == c && s[|l| + 2..] == rest
  {
    IndexIs(s, {CR}, |l|);
  }

  lemma SplitAtCR(s: seq<char>)
    requires IndexIn(s, {CR}) + 1 < |s|
    ensures var k := IndexIn(s, {CR}); StartsWithLine(s, s[..k], s[k + 1], s[k + 2..])
  {
    var k := IndexIn(s, {CR});
    assert s == s[..k] + [CR, s[k + 1]] + s[k + 2..];
  }

  lemma FirstLineIs(l: seq<char>)
    requires NoCR(l)
    ensures FirstLine(l) <==> LineMeaning(CLine(l), REQUESTLINE).0 == NO_REQUEST
  {
    if Tokenise(CLine(l)).Valid? {
      TokeniseExact(CLine(l), Tokenise(CLine(l)).path);
    }
    if FirstLine(l) {
      var path :| IsRequestLine(CLine(l), path);
      TokeniseExact(CLine(l), path);
    }
  }

  lemma LineFirst(s: seq<char>, l: seq<char>, c: char, rest: seq<char>, state: CheckState)
    requires StartsWithLine(s, l, c, rest)
    ensures Interpret(s, state) ==
            if c != LF then (BAD_REQUEST, []) else
            var (code, out) := LineMeaning(CLine(l), state);
            if code != NO_REQUEST then (code, out) else (Interpret(rest, HEADER).0, out + Interpret(rest, HEADER).1)
  {
    FirstCRIs(s, l, c, rest);
  }

  function HeaderOutputs(ls: seq<seq<char>>): seq<Output> {
    if ls == [] then [] else HeaderMeaning(CLine(ls[0])).1 + HeaderOutputs(ls[1..])
  }

  lemma JoinFirst(ls: seq<seq<char>>, rest: seq<char>)
    requires ls != []
    ensures Join(ls) + rest == ls[0] + CRLF + (Join(ls[1..]) + rest)
  {
  }

  lemma HeaderThen(l: seq<char>, tail: seq<char>)
    requires HeaderLine(l)
    ensures var (code, out) := Interpret(tail, HEADER);
            Interpret(l + CRLF + tail, HEADER) == (code, HeaderMeaning(CLine(l)).1 + out)
  {
    LineFirst(l + CRLF + tail, l, LF, tail, HEADER);
  }

  lemma OutputsFirst(ls: seq<seq<char>>, out: seq<Output>)
    requires ls != []
    ensures HeaderOutputs(ls) + out == HeaderMeaning(CLine(ls[0])).1 + (HeaderOutputs(ls[1..]) + out)
  {
  }

  /** Complete header lines are read one by one, whatever follows them. */
  lemma {:induction false} InterpretHeaders(ls: seq<seq<char>>, rest: seq<char>)
    requires HeaderLines(ls)
    ensures Interpret(Join(ls) + rest, HEADER).0 == Interpret(rest, HEADER).0
    ensures Interpret(Join(ls) + rest, HEADER).1 == HeaderOutputs(ls) + Interpret(rest, HEADER).1
  {
    if ls == [] {
      assert Join(ls) + rest == rest;
      assert HeaderOutputs(ls) + Interpret(rest, HEADER).1 == Interpret(rest, HEADER).1;
    } else {
      InterpretHeaders(ls[1..], rest);
      assert HeaderLine(ls[0]);
      HeaderThen(ls[0], Join(ls[1..]) + rest);
      JoinFirst(ls, rest);
      OutputsFirst(ls, Interpret(rest, HEADER).1);
    }
  }

  lemma OneMoreHeader(l: seq<char>, ls: seq<seq<char>>, tail: seq<char>)
    requires HeaderLine(l) && HeaderLines(ls)
    ensures HeaderLines([l] + ls) && Join([l] + ls) + tail == l + CRLF + (Join(ls) + tail)
  {
    hide HeaderLine;
    JoinFirst([l] + ls, tail);
  }

  lemma NoHeaders(tail: seq<char>)
    ensures HeaderLines([]) && Join([]) + tail == tail
  {
  }

  lemma {:induction false} HeadersAccepted(s: seq<char>)
    requires Interpret(s, HEADER).0 == GET_REQUEST
    ensures AcceptsHeaders(s)
    decreases |s|
  {
    hide Seek, HeaderMeaning, HeaderLine, HeaderLines, Join;
    var l, rest := FirstOf(s);
    if EmptyLine(l) {
      NoHeaders(l + CRLF + rest);
      assert HeadersEnd(s, [], l, rest);
    } else {
      HeadersAccepted(rest);
      var ls, l', rest' :| HeadersEnd(rest, ls, l', rest');
      OneMoreHeader(l, ls, l' + CRLF + rest');
      assert HeadersEnd(s, [l] + ls, l', rest');
    }
  }

  /** The first line of bytes that were accepted as the end of the headers. */
  lemma FirstOf(s: seq<char>) returns (l: seq<char>, rest: seq<char>)
    requires Interpret(s, HEADER).0 == GET_REQUEST
    ensures StartsWithLine(s, l, LF, rest) && |rest| < |s|
    ensures EmptyLine(l) || (HeaderLine(l) && Interpret(rest, HEADER).0 == GET_REQUEST)
  {
    var k := IndexIn(s, {CR});
    SplitAtCR(s);
    l, rest := s[..k], s[k + 2..];
  }

  lemma {:induction false} HeadersRejected(s: seq<char>)
    requires Interpret(s, HEADER).0 == BAD_REQUEST
    ensures RejectsHeaders(s)
    decreases |s|
  {
    hide Seek, HeaderMeaning, HeaderLine, HeaderLines, Join;
    var l, c, rest := FirstOfRejected(s);
    if c != LF {
      NoHeaders(l + [CR, c] + rest);
      assert HeadersBreak(s, [], l, c, rest);
    } else {
      HeadersRejected(rest);
      var ls, l', c', rest' :| HeadersBreak(rest, ls, l', c', rest');
      OneMoreHeader(l, ls, l' + [CR, c'] + rest');
      assert HeadersBreak(s, [l] + ls, l', c', rest');
    }
  }

  lemma FirstOfRejected(s: seq<char>) returns (l: seq<char>, c: char, rest: seq<char>)
    requires Interpret(s, HEADER).0 == BAD_REQUEST
    ensures StartsWithLine(s, l, c, rest) && |rest| < |s|
    ensures c != LF || (HeaderLine(l) && Interpret(rest, HEADER).0 == BAD_REQUEST)
  {
    var k := IndexIn(s, {CR});
    SplitAtCR(s);
    l, c, rest := s[..k], s[k + 1], s[k + 2..];
  }

  lemma HeadersExact(s: seq<char>)
    ensures Interpret(s, HEADER).0 == GET_REQUEST <==> AcceptsHeaders(s)
    ensures Interpret(s, HEADER).0 == BAD_REQUEST <==> RejectsHeaders(s)
  {
    if Interpret(s, HEADER).0 == GET_REQUEST { HeadersAccepted(s); }
    if Interpret(s, HEADER).0 == BAD_REQUEST { HeadersRejected(s); }
    if AcceptsHeaders(s) {
      var ls, l, rest :| HeadersEnd(s, ls, l, rest);
      InterpretHeaders(ls, l + CRLF + rest);
      LineFirst(l + CRLF + rest, l, LF, rest, HEADER);
    }
    if RejectsHeaders(s) {
      var ls, l, c, rest :| HeadersBreak(s, ls, l, c, rest);
      InterpretHeaders(ls, l + [CR, c] + rest);
      LineFirst(l + [CR, c] + rest, l, c, rest, HEADER);
    }
  }

  lemma AcceptedReading(s: seq<char>)
    requires Accepts(s)
    ensures Interpret(s, REQUESTLINE).0 == GET_REQUEST
  {
    var l, rest :| StartsWithLine(s, l, LF, rest) && FirstLine(l) && AcceptsHeaders(rest);
    LineFirst(s, l, LF, rest, REQUESTLINE);
    FirstLineIs(l);
    HeadersExact(rest);
  }

  lemma RejectedReading(s: seq<char>)
    requires Rejects(s)
    ensures Interpret(s, REQUESTLINE).0 == BAD_REQUEST
  {
    if l, c, rest :| StartsWithLine(s, l, c, rest) && (c != LF || !FirstLine(l)) {
      LineFirst(s, l, c, rest, REQUESTLINE);
      FirstLineIs(l);
    } else {
      var l, rest :| StartsWithLine(s, l, LF, rest) && FirstLine(l) && RejectsHeaders(rest);
      LineFirst(s, l, LF, rest, REQUESTLINE);
      FirstLineIs(l);
      HeadersExact(rest);
    }
  }

  lemma ReadingJudged(s: seq<char>)
    ensures Interpret(s, REQUESTLINE).0 == GET_REQUEST ==> Accepts(s)
    ensures Interpret(s, REQUESTLINE).0 == BAD_REQUEST ==> Rejects(s)
  {
    var k := IndexIn(s, {CR});
    if k + 1 < |s| {
      var l, c, rest := s[..k], s[k + 1], s[k + 2..];
      SplitAtCR(s);
      LineFirst(s, l, c, rest, REQUESTLINE);
      FirstLineIs(l);
      HeadersExact(rest);
    }
  }

  /** Exact acceptance: GET_REQUEST and BAD_REQUEST mean exactly the two grammars above, and
      everything else asks for more. */
  lemma ExactAcceptance(s: seq<char>)
    ensures Interpret(s, REQUESTLINE).0 == GET_REQUEST <==> Accepts(s)
    ensures Interpret(s, REQUESTLINE).0 == BAD_REQUEST <==> Rejects(s)
    ensures Interpret(s, REQUESTLINE).0 == NO_REQUEST <==> !Accepts(s) && !Rejects(s)
  {
    ReadingJudged(s);
    if Accepts(s) { AcceptedReading(s); }
    if Rejects(s) { RejectedReading(s); }
  }

  // What an accepted request prints

  /** The bytes split into a request line with that path, header lines, an empty line and the rest. */
  ghost predicate Request(s: seq<char>, l: seq<char>, path: string, ls: seq<seq<char>>, e: seq<char>, rest: seq<char>) {
    && NoCR(l) && IsRequestLine(CLine(l), path) && HeaderLines(ls) && EmptyLine(e)
    && s == l + CRLF + (Join(ls) + (e + CRLF + rest))
  }

  /** The output that belongs to such a split. */
  function RequestOutputs(path: string, ls: seq<seq<char>>): seq<Output> {
    [MethodIsGet, RequestUrl(path)] + HeaderOutputs(ls)
  }

  lemma RequestReading(s: seq<char>, l: seq<char>, path: string, ls: seq<seq<char>>, e: seq<char>, rest: seq<char>)
    requires Request(s, l, path, ls, e, rest)
    ensures Interpret(s, REQUESTLINE) == (GET_REQUEST, RequestOutputs(path, ls))
  {
    hide Interpret, HeaderOutputs, HeaderMeaning, HeaderLines, IsRequestLine, Tokenise, NoCR, Join;
    var tail := Join(ls) + (e + CRLF + rest);
    LineFirst(s, l, LF, tail, REQUESTLINE);
    TokeniseExact(CLine(l), path);
    InterpretHeaders(ls, e + CRLF + rest);
    LineFirst(e + CRLF + rest, e, LF, rest, HEADER);
    EmptyLineEnds(e);
    assert HeaderOutputs(ls) + [] == HeaderOutputs(ls);
  }

  lemma EmptyLineEnds(e: seq<char>)
    requires EmptyLine(e)
    ensures LineMeaning(CLine(e), HEADER) == (GET_REQUEST, [])
  {
  }

  /** For every stream: it is accepted with that output if and only if it has a split with that output;
      so all its splits print the same. */
  lemma AcceptedPrints(s: seq<char>, out: seq<Output>)
    ensures Interpret(s, REQUESTLINE) == (GET_REQUEST, out) <==>
            exists l, path, ls, e, rest :: Request(s, l, path, ls, e, rest) && out == RequestOutputs(path, ls)
  {
    hide Interpret, RequestOutputs, IsRequestLine, HeaderLines, EmptyLine, NoCR, Join;
    if l, path, ls, e, rest :| Request(s, l, path, ls, e, rest) && out == RequestOutputs(path, ls) {
      RequestReading(s, l, path, ls, e, rest);
    }
    if Interpret(s, REQUESTLINE) == (GET_REQUEST, out) {
      ReadingJudged(s);
      var l, tail :| StartsWithLine(s, l, LF, tail) && FirstLine(l) && AcceptsHeaders(tail);
      var path :| IsRequestLine(CLine(l), path);
      var ls, e, rest :| HeadersEnd(tail, ls, e, rest);
      assert Request(s, l, path, ls, e, rest);
      RequestReading(s, l, path, ls, e, rest);
    }
  }
}
