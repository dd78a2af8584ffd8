/** What is printed for bytes that are not, or not yet, an accepted request. */
module HttpOutputs {
  import opened CString
  import opened RequestLine
  import opened HttpMachine
  import opened HttpAcceptance

  /** No complete line: no CR but perhaps the last byte. */
  ghost predicate Open(s: seq<char>) {
    NoCR(s) || (s != [] && NoCR(s[..|s| - 1]) && s[|s| - 1] == CR)
  }

  lemma OpenIs(s: seq<char>)
    ensures Open(s) <==> IndexIn(s, {CR}) + 1 >= |s|
  {
    var k := IndexIn(s, {CR});
    if NoCR(s) {
      assert k == |s|;
    }
  }

  lemma OpenReading(s: seq<char>, state: CheckState)
    ensures Open(s) <==> IndexIn(s, {CR}) + 1 >= |s|
    ensures Open(s) ==> Interpret(s, state) == (NO_REQUEST, [])
  {
    OpenIs(s);
  }

  ghost predicate HeadersOpen(s: seq<char>, ls: seq<seq<char>>, tail: seq<char>) {
    HeaderLines(ls) && Open(tail) && s == Join(ls) + tail
  }

  lemma {:induction false} HeadersLeftOpen(s: seq<char>) returns (ls: seq<seq<char>>, tail: seq<char>)
    requires Interpret(s, HEADER).0 == NO_REQUEST
    ensures HeadersOpen(s, ls, tail)
    decreases |s|
  {
    hide Seek, HeaderMeaning, HeaderLine, HeaderLines, Join, Open;
    OpenReading(s, HEADER);
    if Open(s) {
      NoHeaders(s);
      ls, tail := [], s;
    } else {
      var l, rest := FirstOfOpen(s);
      var ls', tail' := HeadersLeftOpen(rest);
      OneMoreHeader(l, ls', tail');
      ls, tail := [l] + ls', tail';
    }
  }

  lemma FirstOfOpen(s: seq<char>) returns (l: seq<char>, rest: seq<char>)
    requires Interpret(s, HEADER).0 == NO_REQUEST && IndexIn(s, {CR}) + 1 < |s|
    ensures StartsWithLine(s, l, LF, rest) && |rest| < |s|
    ensures HeaderLine(l) && Interpret(rest, HEADER).0 == NO_REQUEST
  {
    var k := IndexIn(s, {CR});
    SplitAtCR(s);
    l, rest := s[..k], s[k + 2..];
  }

  /** A request line with that path and header lines have been read, and the next line is not complete. */
  ghost predicate HeadersSoFar(s: seq<char>, l: seq<char>, path: string, ls: seq<seq<char>>, tail: seq<char>) {
    NoCR(l) && IsRequestLine(CLine(l), path) && HeaderLines(ls) && Open(tail) && s == l + CRLF + (Join(ls) + tail)
  }

  /** The same up to a CR that no LF follows. */
  ghost predicate HeadersToError(s: seq<char>, l: seq<char>, path: string, ls: seq<seq<char>>,
                              e: seq<char>, c: char, rest: seq<char>)
  {
    && NoCR(l) && IsRequestLine(CLine(l), path)
    && exists tail :: HeadersBreak(tail, ls, e, c, rest) && s == l + CRLF + tail
  }

  /** A valid first line is followed by what the rest of the bytes gives. */
  lemma FirstLineThen(s: seq<char>, l: seq<char>, path: string, tail: seq<char>)
    requires NoCR(l) && IsRequestLine(CLine(l), path) && s == l + CRLF + tail
    ensures Interpret(s, REQUESTLINE)
         == (Interpret(tail, HEADER).0, [MethodIsGet, RequestUrl(path)] + Interpret(tail, HEADER).1)
  {
    hide Interpret, IsRequestLine, Tokenise, NoCR;
    LineFirst(s, l, LF, tail, REQUESTLINE);
    TokeniseExact(CLine(l), path);
  }

  lemma SoFarReading(s: seq<char>, l: seq<char>, path: string, ls: seq<seq<char>>, tail: seq<char>)
    requires HeadersSoFar(s, l, path, ls, tail)
    ensures Interpret(s, REQUESTLINE) == (NO_REQUEST, RequestOutputs(path, ls))
  {
    hide Interpret, HeaderOutputs, HeaderLines, IsRequestLine, Tokenise, NoCR, Join, Open;
    FirstLineThen(s, l, path, Join(ls) + tail);
    InterpretHeaders(ls, tail);
    OpenReading(tail, HEADER);
    assert HeaderOutputs(ls) + [] == HeaderOutputs(ls);
  }

  lemma ErrorReading(s: seq<char>, l: seq<char>, path: string, ls: seq<seq<char>>,
                     e: seq<char>, c: char, rest: seq<char>)
    requires HeadersToError(s, l, path, ls, e, c, rest)
    ensures Interpret(s, REQUESTLINE) == (BAD_REQUEST, RequestOutputs(path, ls))
  {
    hide Interpret, HeaderOutputs, HeaderLines, IsRequestLine, Tokenise, NoCR, Join;
    var tail :| HeadersBreak(tail, ls, e, c, rest) && s == l + CRLF + tail;
    FirstLineThen(s, l, path, tail);
    InterpretHeaders(ls, e + [CR, c] + rest);
    LineFirst(e + [CR, c] + rest, e, c, rest, HEADER);
    assert HeaderOutputs(ls) + [] == HeaderOutputs(ls);
  }

  /** For every stream: more is asked for, with that output, if and only if no line is complete and
      nothing has been printed, or the lines that are complete are a request line and headers and just
      they have been printed. */
  lemma OpenPrints(s: seq<char>, out: seq<Output>)
    ensures Interpret(s, REQUESTLINE) == (NO_REQUEST, out) <==>
            || (Open(s) && out == [])
            || exists l, path, ls, tail :: HeadersSoFar(s, l, path, ls, tail) && out == RequestOutputs(path, ls)
  {
    hide Interpret, RequestOutputs, IsRequestLine, HeaderLines, NoCR, Join, Open, Seek;
    OpenReading(s, REQUESTLINE);
    if l, path, ls, tail :| HeadersSoFar(s, l, path, ls, tail) && out == RequestOutputs(path, ls) {
      SoFarReading(s, l, path, ls, tail);
    }
    if Interpret(s, REQUESTLINE) == (NO_REQUEST, out) && !Open(s) {
      var l, path, rest := ValidFirst(s, NO_REQUEST);
      var ls, tail := HeadersLeftOpen(rest);
      assert HeadersSoFar(s, l, path, ls, tail);
      SoFarReading(s, l, path, ls, tail);
    }
  }

  /** A complete first line, read with a verdict that it cannot give itself, is valid. */
  lemma ValidFirst(s: seq<char>, code: HttpCode) returns (l: seq<char>, path: string, rest: seq<char>)
    requires IndexIn(s, {CR}) + 1 < |s| && Interpret(s, REQUESTLINE).0 == code
    requires var k := IndexIn(s, {CR}); code == NO_REQUEST || (s[k + 1] == LF && FirstLine(s[..k]))
    ensures NoCR(l) && IsRequestLine(CLine(l), path) && s == l + CRLF + rest
    ensures Interpret(rest, HEADER).0 == code
  {
    hide IsRequestLine;
    var k := IndexIn(s, {CR});
    SplitAtCR(s);
    l, rest := s[..k], s[k + 2..];
    LineFirst(s, l, s[k + 1], rest, REQUESTLINE);
    FirstLineIs(l);
    path :| IsRequestLine(CLine(l), path);
  }

  /** For every stream: it is rejected with that output if and only if a CR without LF comes first and
      nothing has been printed; or the first line is invalid, and the method has been printed just if
      it is GET; or a CR without LF comes behind a request line and headers, which have been printed. */
  lemma RejectedPrints(s: seq<char>, out: seq<Output>)
    ensures Interpret(s, REQUESTLINE) == (BAD_REQUEST, out) <==>
            || (exists l, c, rest :: StartsWithLine(s, l, c, rest) && c != LF && out == [])
            || (exists l, rest :: StartsWithLine(s, l, LF, rest) && BadFirst(l, out))
            || exists l, path, ls, e, c, rest ::
                 HeadersToError(s, l, path, ls, e, c, rest) && out == RequestOutputs(path, ls)
  {
    hide Interpret, RequestOutputs, IsRequestLine, FirstLine, HeaderLines, NoCR, Join, Seek, BadFirst;
    if l, c, rest :| StartsWithLine(s, l, c, rest) && c != LF && out == [] {
      LineFirst(s, l, c, rest, REQUESTLINE);
    }
    if l, rest :| StartsWithLine(s, l, LF, rest) && BadFirst(l, out) {
      BadFirstReading(s, l, rest, out);
    }
    if l, path, ls, e, c, rest :| HeadersToError(s, l, path, ls, e, c, rest) && out == RequestOutputs(path, ls) {
      ErrorReading(s, l, path, ls, e, c, rest);
    }
    if Interpret(s, REQUESTLINE) == (BAD_REQUEST, out) {
      RejectedSplit(s, out);
    }
  }

  /** The first line is not a request line; its method is printed if it is GET. */
  ghost predicate BadFirst(l: seq<char>, out: seq<Output>) {
    && NoCR(l) && !FirstLine(l)
    && out == if exists m, rest :: GetLine(CLine(l), m, rest) then [MethodIsGet] else []
  }

  lemma BadFirstReading(s: seq<char>, l: seq<char>, rest: seq<char>, out: seq<Output>)
    requires StartsWithLine(s, l, LF, rest) && BadFirst(l, out)
    ensures Interpret(s, REQUESTLINE) == (BAD_REQUEST, out)
  {
    hide Interpret, IsRequestLine, GetLine, Tokenise;
    LineFirst(s, l, LF, rest, REQUESTLINE);
    FirstLineIs(l);
    FirstLinePrints(CLine(l));
  }

  lemma RejectedSplit(s: seq<char>, out: seq<Output>)
    requires Interpret(s, REQUESTLINE) == (BAD_REQUEST, out)
    ensures || (exists l, c, rest :: StartsWithLine(s, l, c, rest) && c != LF && out == [])
            || (exists l, rest :: StartsWithLine(s, l, LF, rest) && BadFirst(l, out))
            || exists l, path, ls, e, c, rest ::
                 HeadersToError(s, l, path, ls, e, c, rest) && out == RequestOutputs(path, ls)
  {
    hide Interpret, RequestOutputs, IsRequestLine, FirstLine, HeaderLines, Join, BadFirst;
    OpenReading(s, REQUESTLINE);
    var k := IndexIn(s, {CR});
    var l, c, rest := s[..k], s[k + 1], s[k + 2..];
    SplitAtCR(s);
    LineFirst(s, l, c, rest, REQUESTLINE);
    if c == LF {
      if FirstLine(l) {
        var l', path, tail := ValidFirst(s, BAD_REQUEST);
        HeadersRejected(tail);
        var ls, e, c', rest' :| HeadersBreak(tail, ls, e, c', rest');
        assert HeadersToError(s, l', path, ls, e, c', rest');
        ErrorReading(s, l', path, ls, e, c', rest');
      } else {
        InvalidFirst(s, l, rest, out);
      }
    }
  }

  lemma InvalidFirst(s: seq<char>, l: seq<char>, rest: seq<char>, out: seq<Output>)
    requires StartsWithLine(s, l, LF, rest) && !FirstLine(l) && Interpret(s, REQUESTLINE) == (BAD_REQUEST, out)
    ensures BadFirst(l, out)
  {
    hide Interpret, IsRequestLine, GetLine;
    var printed := if exists m, rest :: GetLine(CLine(l), m, rest) then [MethodIsGet] else [];
    assert BadFirst(l, printed);
    BadFirstReading(s, l, rest, printed);
  }
}
