/** The grammar of the first line of a request, and the left-to-right split that recognises it
    (http_parse.cpp, parse_requestline), both on a plain string without NULs. */
module RequestLine {
  import opened CString

  /** How far the split of a line gets. `i` and `j` are the offsets of the two blanks that the
      in-place version overwrites with NULs. */
  datatype Tokens =
    | NoBlank
    | BadMethod(i: nat)
    | NoVersion(i: nat)
    | BadVersion(i: nat, j: nat)
    | BadTarget(i: nat, j: nat)
    | Valid(i: nat, j: nat, path: string)

  /** The path of a target: from its first '/', which is the first byte unless the target starts
      with http:// */
  function PathOf(target: string): Option<string> {
    if HasPrefixNoCase(target, "http://") then
      var k := IndexIn(target[7..], {'/'});
      if k < |target[7..]| then Some(target[7 + k..]) else None
    else if target != "" && target[0] == '/' then Some(target)
    else None
  }

  /** The end of the word starting at u, and of the run of blanks whose first one is at i. */
  function WordEnd(line: string, u: nat): (j: nat)
    requires u <= |line|
    ensures u <= j <= |line| && (j < |line| ==> line[j] in BLANKS)
    ensures forall k :: u <= k < j ==> line[k] !in BLANKS
  {
    Seek(line, BLANKS, true, u)
  }

  function BlanksEnd(line: string, i: nat): (u: nat)
    requires i < |line|
    ensures i < u <= |line| && (u < |line| ==> line[u] !in BLANKS)
    ensures forall k :: i < k < u ==> line[k] in BLANKS
  {
    Seek(line, BLANKS, false, i + 1)
  }

  function Tokenise(line: string): (t: Tokens)
    ensures !t.NoBlank? ==> t.i < |line|
    ensures t.BadVersion? || t.BadTarget? || t.Valid? ==> t.i < t.j < |line|
  {
    var i := WordEnd(line, 0);
    if i == |line| then NoBlank
    else if !EqNoCase(line[..i], "GET") then BadMethod(i)
    else
      var u := BlanksEnd(line, i);
      var j := WordEnd(line, u);
      if j == |line| then NoVersion(i)
      else
        var v := BlanksEnd(line, j);
        if !EqNoCase(line[v..], "HTTP/1.1") then BadVersion(i, j)
        else
          match PathOf(line[u..j])
          case None => BadTarget(i, j)
          case Some(path) => Valid(i, j, path)
  }

  predicate AllIn(s: string, cs: set<char>) { forall c :: c in s ==> c in cs }
  predicate NoneIn(s: string, cs: set<char>) { forall c :: c in s ==> c !in cs }

  /** The two target forms of the dialect: origin-form, and http:// followed by anything up to the
      path's first slash. */
  ghost predicate TargetHasPath(target: string, path: string) {
    || (target == path && path != "" && path[0] == '/')
    || exists scheme, authority :: target == scheme + authority + path && EqNoCase(scheme, "http://")
                                   && '/' !in authority && path != "" && path[0] == '/'
  }

  /** line = method blanks target blanks version */
  ghost predicate Derives(line: string, m: string, w1: string, target: string, w2: string, v: string, path: string) {
    && line == m + w1 + target + w2 + v
    && EqNoCase(m, "GET") && EqNoCase(v, "HTTP/1.1")
    && w1 != "" && AllIn(w1, BLANKS) && w2 != "" && AllIn(w2, BLANKS)
    && target != "" && NoneIn(target, BLANKS)
    && TargetHasPath(target, path)
  }

  ghost predicate IsRequestLine(line: string, path: string) {
    exists m, w1, target, w2, v :: Derives(line, m, w1, target, w2, v, path)
  }

  lemma PathOfSound(target: string, path: string)
    requires PathOf(target) == Some(path)
    ensures TargetHasPath(target, path)
  {
    hide EqNoCase;
    if HasPrefixNoCase(target, "http://") {
      var k := IndexIn(target[7..], {'/'});
      assert target == target[..7] + target[7..][..k] + path;
    }
  }

  lemma PathOfAbsolute(target: string, scheme: string, authority: string, path: string)
    requires target == scheme + authority + path && EqNoCase(scheme, "http://")
    requires '/' !in authority && path != "" && path[0] == '/'
    ensures PathOf(target) == Some(path)
  {
    hide EqNoCase;
    assert |scheme| == 7 by { SameLength(scheme, "http://"); }
    assert target[..7] == scheme && target[7..] == authority + path;
    IndexIs(target[7..], {'/'}, |authority|);
  }

  lemma SameLength(s: string, t: string)
    requires EqNoCase(s, t)
    ensures |s| == |t|
  {
  }

  lemma PathOfExact(target: string, path: string)
    ensures PathOf(target) == Some(path) <==> TargetHasPath(target, path)
  {
    if PathOf(target) == Some(path) {
      PathOfSound(target, path);
    }
    if scheme, authority :| target == scheme + authority + path && EqNoCase(scheme, "http://")
                            && '/' !in authority && path != "" && path[0] == '/' {
      PathOfAbsolute(target, scheme, authority, path);
    }
  }

  /** Words of the method and the version contain no blanks. */
  lemma EqNoCaseNoBlank(s: string, t: string)
    requires EqNoCase(s, t) && NoneIn(t, BLANKS)
    ensures NoneIn(s, BLANKS)
  {
    forall c | c in s ensures c !in BLANKS {
      var i :| 0 <= i < |s| && s[i] == c;
      assert t[i] in t;
    }
  }

  /** What an accepted line looks like by position: line[..i] line[i..u] line[u..j] line[j..v] line[v..]. */
  ghost predicate ShapedAt(line: string, i: nat, u: nat, j: nat, v: nat, path: string) {
    && i < u < j < v <= |line|
    && EqNoCase(line[..i], "GET") && EqNoCase(line[v..], "HTTP/1.1")
    && (forall k :: i <= k < u ==> line[k] in BLANKS)
    && (forall k :: u <= k < j ==> line[k] !in BLANKS)
    && (forall k :: j <= k < v ==> line[k] in BLANKS)
    && PathOf(line[u..j]) == Some(path)
  }

  lemma TokeniseShape(line: string) returns (u: nat, v: nat)
    requires Tokenise(line).Valid?
    ensures ShapedAt(line, Tokenise(line).i, u, Tokenise(line).j, v, Tokenise(line).path)
  {
    hide EqNoCase, Seek, PathOf;
    u := BlanksEnd(line, WordEnd(line, 0));
    v := BlanksEnd(line, WordEnd(line, u));
  }

  lemma ShapeTokenise(line: string, i: nat, u: nat, j: nat, v: nat, path: string)
    requires ShapedAt(line, i, u, j, v, path)
    requires forall k :: 0 <= k < i ==> line[k] !in BLANKS
    requires v < |line| && line[v] !in BLANKS
    ensures Tokenise(line) == Valid(i, j, path)
  {
    hide EqNoCase, PathOf, Seek;
    SeekIs(line, BLANKS, true, 0, i);
    SeekIs(line, BLANKS, false, i + 1, u);
    SeekIs(line, BLANKS, true, u, j);
    SeekIs(line, BLANKS, false, j + 1, v);
  }

  lemma ShapeDerives(line: string, i: nat, u: nat, j: nat, v: nat, path: string)
    requires ShapedAt(line, i, u, j, v, path)
    ensures Derives(line, line[..i], line[i..u], line[u..j], line[j..v], line[v..], path)
  {
    hide EqNoCase, PathOf, TargetHasPath;
    PathOfExact(line[u..j], path);
    FivePieces(line, i, u, j, v);
  }

  lemma FivePieces(line: string, i: nat, u: nat, j: nat, v: nat)
    requires i <= u <= j <= v <= |line|
    ensures line == line[..i] + line[i..u] + line[u..j] + line[j..v] + line[v..]
  {
    assert line[..i] + line[i..u] == line[..u];
    assert line[..u] + line[u..j] == line[..j];
    assert line[..j] + line[j..v] == line[..v];
  }

  lemma DerivesShape(line: string, m: string, w1: string, target: string, w2: string, v: string, path: string)
    requires Derives(line, m, w1, target, w2, v, path)
    ensures var (i, u, j) := (|m|, |m + w1|, |m + w1 + target|);
            ShapedAt(line, i, u, j, j + |w2|, path) && line[..i] == m && line[j + |w2|..] == v
  {
    var (i, u, j) := (|m|, |m + w1|, |m + w1 + target|);
    assert line[..i] == m && line[i..u] == w1 && line[u..j] == target;
    assert line[j..j + |w2|] == w2 && line[j + |w2|..] == v;
    forall k | i <= k < u ensures line[k] in BLANKS { assert line[k] == w1[k - i]; }
    forall k | u <= k < j ensures line[k] !in BLANKS { assert line[k] == target[k - u]; }
    forall k | j <= k < j + |w2| ensures line[k] in BLANKS { assert line[k] == w2[k - j]; }
    PathOfExact(target, path);
  }

  lemma DerivationFound(line: string, m: string, w1: string, target: string, w2: string, v: string, path: string)
    requires Derives(line, m, w1, target, w2, v, path)
    ensures IsRequestLine(line, path)
  {
  }

  lemma TokeniseSound(line: string)
    requires Tokenise(line).Valid?
    ensures IsRequestLine(line, Tokenise(line).path)
  {
    hide EqNoCase, Seek, PathOf, TargetHasPath, Tokenise, Derives, IsRequestLine;
    var u, v := TokeniseShape(line);
    var (i, j, path) := (Tokenise(line).i, Tokenise(line).j, Tokenise(line).path);
    ShapeDerives(line, i, u, j, v, path);
    DerivationFound(line, line[..i], line[i..u], line[u..j], line[j..v], line[v..], path);
  }

  lemma TokeniseComplete(line: string, m: string, w1: string, target: string, w2: string, v: string, path: string)
    requires Derives(line, m, w1, target, w2, v, path)
    ensures Tokenise(line) == Valid(|m|, |m + w1 + target|, path)
  {
    hide TargetHasPath, PathOf, Seek;
    DerivesShape(line, m, w1, target, w2, v, path);
    EqNoCaseNoBlank(m, "GET");
    EqNoCaseNoBlank(v, "HTTP/1.1");
    var j := |m + w1 + target|;
    assert line[j + |w2|] == v[0];
    forall k | 0 <= k < |m| ensures line[k] !in BLANKS { assert line[k] == m[k]; }
    ShapeTokenise(line, |m|, |m + w1|, j, j + |w2|, path);
  }

  /** The split accepts exactly the grammar, and the path it finds is the only one. */
  lemma TokeniseExact(line: string, path: string)
    ensures Tokenise(line).Valid? && Tokenise(line).path == path <==> IsRequestLine(line, path)
  {
    if Tokenise(line).Valid? {
      TokeniseSound(line);
    }
    if IsRequestLine(line, path) {
      var m, w1, target, w2, v :| Derives(line, m, w1, target, w2, v, path);
      TokeniseComplete(line, m, w1, target, w2, v, path);
    }
  }
}
