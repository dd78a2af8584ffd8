/** NUL-terminated strings inside a byte buffer, and the C library calls the parser makes on them.
    Every call is defined through `Str`, the bytes from a position up to the first NUL, and demands
    of its caller what C demands: that the string is terminated inside the buffer. */
module CString {
  const NUL: char := '\0'
  const CR: char := '\r'
  const LF: char := '\n'
  const BLANKS: set<char> := {' ', '\t'}

  datatype Option<+T> = None | Some(value: T)

  ghost predicate Terminated(b: seq<char>, p: int) {
    exists k :: 0 <= p <= k < |b| && b[k] == NUL
  }

  /** The string at p: the bytes up to the first NUL. */
  function Str(b: seq<char>, p: nat): (s: string)
    requires Terminated(b, p)
    ensures p + |s| < |b| && b[p + |s|] == NUL
    ensures forall i :: 0 <= i < |s| ==> s[i] == b[p + i] && s[i] != NUL
    decreases |b| - p
  {
    if b[p] == NUL then "" else [b[p]] + Str(b, p + 1)
  }

  /** The position of the NUL that ends the string at p. */
  function StrEnd(b: seq<char>, p: nat): (k: nat)
    requires Terminated(b, p)
    ensures p <= k < |b| && b[k] == NUL
  {
    p + |Str(b, p)|
  }

  /** The index, from i on, of the first byte of s whose membership in `cs` is `inside`, or |s|. */
  function Seek(s: string, cs: set<char>, inside: bool, i: nat): (k: nat)
    requires i <= |s|
    ensures i <= k <= |s|
    ensures k < |s| ==> (s[k] in cs) == inside
    ensures forall n :: i <= n < k ==> (s[n] in cs) != inside
    decreases |s| - i
  {
    if i == |s| || (s[i] in cs) == inside then i else Seek(s, cs, inside, i + 1)
  }

  /** The index of the first byte of s that is in `stop`, or |s|. */
  function IndexIn(s: string, stop: set<char>): (k: nat)
    ensures k <= |s|
    ensures k < |s| ==> s[k] in stop
    ensures forall i :: 0 <= i < k ==> s[i] !in stop
  {
    Seek(s, stop, true, 0)
  }

  /** The length of the longest prefix of s made of bytes in `run`. */
  function SpanIn(s: string, run: set<char>): (k: nat)
    ensures k <= |s|
    ensures k < |s| ==> s[k] !in run
    ensures forall i :: 0 <= i < k ==> s[i] in run
  {
    Seek(s, run, false, 0)
  }

  function Lower(c: char): char {
    if 'A' <= c <= 'Z' then c + 32 as char else c
  }

  predicate EqNoCase(s: string, t: string) {
    |s| == |t| && forall i :: 0 <= i < |s| ==> Lower(s[i]) == Lower(t[i])
  }

  /** Ignoring case means that an upper-case letter and the lower-case letter 32 above it count as
      equal, and nothing else that differs does. */
  lemma EqNoCaseExact(s: string, t: string)
    ensures EqNoCase(s, t) <==>
            && |s| == |t|
            && forall i :: 0 <= i < |s| ==>
                 || s[i] == t[i]
                 || ('A' <= s[i] <= 'Z' && t[i] as int == s[i] as int + 32)
                 || ('A' <= t[i] <= 'Z' && s[i] as int == t[i] as int + 32)
  {
    if |s| == |t| {
      forall i | 0 <= i < |s|
        ensures Lower(s[i]) == Lower(t[i]) <==>
                || s[i] == t[i]
                || ('A' <= s[i] <= 'Z' && t[i] as int == s[i] as int + 32)
                || ('A' <= t[i] <= 'Z' && s[i] as int == t[i] as int + 32)
      {
        LowerExact(s[i], t[i]);
      }
    }
  }

  lemma LowerExact(c: char, d: char)
    ensures Lower(c) == Lower(d) <==>
            || c == d
            || ('A' <= c <= 'Z' && d as int == c as int + 32)
            || ('A' <= d <= 'Z' && c as int == d as int + 32)
  {
    assert Lower(c) as int == if 'A' <= c <= 'Z' then c as int + 32 else c as int;
    assert Lower(d) as int == if 'A' <= d <= 'Z' then d as int + 32 else d as int;
  }

  predicate HasPrefixNoCase(s: string, t: string) {
    |t| <= |s| && EqNoCase(s[..|t|], t)
  }

  // The library calls.

  function Strpbrk(b: seq<char>, p: nat, accept: set<char>): Option<nat>
    requires Terminated(b, p)
  {
    var k := IndexIn(Str(b, p), accept);
    if k < |Str(b, p)| then Some(p + k) else None
  }

  function Strchr(b: seq<char>, p: nat, c: char): Option<nat>
    requires Terminated(b, p)
  {
    Strpbrk(b, p, {c})
  }

  function Strspn(b: seq<char>, p: nat, accept: set<char>): nat
    requires Terminated(b, p)
  {
    SpanIn(Str(b, p), accept)
  }

  /** strcasecmp(b + p, t) == 0 */
  predicate Strcaseeq(b: seq<char>, p: nat, t: string)
    requires Terminated(b, p)
  {
    EqNoCase(Str(b, p), t)
  }

  /** strncasecmp(b + p, t, strlen(t)) == 0 */
  predicate Strncaseeq(b: seq<char>, p: nat, t: string)
    requires Terminated(b, p)
  {
    HasPrefixNoCase(Str(b, p), t)
  }

  // How strings react to changes of the buffer around them.

  /** A NUL with no NUL before it ends the string. */
  lemma {:induction false} StrIs(b: seq<char>, p: nat, e: nat)
    requires p <= e < |b| && b[e] == NUL
    requires forall i :: p <= i < e ==> b[i] != NUL
    ensures Terminated(b, p) && Str(b, p) == b[p..e]
    decreases e - p
  {
    if p < e {
      StrIs(b, p + 1, e);
      assert b[p..e] == [b[p]] + b[p + 1..e];
    }
  }

  /** Only the bytes of the string and its NUL matter. */
  lemma {:induction false} StrFrame(b: seq<char>, b': seq<char>, p: nat)
    requires Terminated(b, p) && StrEnd(b, p) < |b'|
    requires forall i :: p <= i <= StrEnd(b, p) ==> b[i] == b'[i]
    ensures Terminated(b', p) && Str(b', p) == Str(b, p)
    decreases |Str(b, p)|
  {
    if b[p] != NUL {
      StrFrame(b, b', p + 1);
    }
  }

  /** A string starting inside another one is its suffix. */
  lemma {:induction false} StrDrop(b: seq<char>, p: nat, n: nat)
    requires Terminated(b, p) && n <= |Str(b, p)|
    ensures Terminated(b, p + n) && Str(b, p + n) == Str(b, p)[n..]
    decreases n
  {
    if n > 0 {
      StrDrop(b, p + 1, n - 1);
    }
  }

  /** Writing a NUL into a string cuts it there and leaves what follows as a string of its own. */
  lemma {:induction false} StrCut(b: seq<char>, p: nat, n: nat)
    requires Terminated(b, p) && n < |Str(b, p)|
    ensures var b' := b[p + n := NUL];
            && Terminated(b', p) && Str(b', p) == Str(b, p)[..n]
            && Terminated(b', p + n + 1) && Str(b', p + n + 1) == Str(b, p)[n + 1..]
    decreases n
  {
    var b' := b[p + n := NUL];
    if n == 0 {
      StrFrame(b, b', p + 1);
    } else {
      StrCut(b, p + 1, n - 1);
      assert Str(b, p)[..n] == [b[p]] + Str(b, p + 1)[..n - 1];
      assert Str(b, p)[n + 1..] == Str(b, p + 1)[n..];
    }
  }

  /** Seek, IndexIn and SpanIn are determined by the properties in their contracts. */
  lemma SeekIs(s: string, cs: set<char>, inside: bool, i: nat, k: nat)
    requires i <= k <= |s| && (k < |s| ==> (s[k] in cs) == inside)
    requires forall n :: i <= n < k ==> (s[n] in cs) != inside
    ensures Seek(s, cs, inside, i) == k
  {
  }

  /** Searching a suffix is searching the whole from where the suffix starts. */
  lemma SeekShift(s: string, cs: set<char>, inside: bool, i: nat)
    requires i <= |s|
    ensures Seek(s, cs, inside, i) == i + Seek(s[i..], cs, inside, 0)
  {
    var k := Seek(s, cs, inside, i);
    forall n | 0 <= n < k - i ensures (s[i..][n] in cs) != inside {
      assert s[i..][n] == s[i + n];
    }
    SeekIs(s[i..], cs, inside, 0, k - i);
  }

  lemma IndexIs(s: string, stop: set<char>, k: nat)
    requires k <= |s| && (k < |s| ==> s[k] in stop)
    requires forall i :: 0 <= i < k ==> s[i] !in stop
    ensures IndexIn(s, stop) == k
  {
  }

  lemma SpanIs(s: string, run: set<char>, k: nat)
    requires k <= |s| && (k < |s| ==> s[k] !in run)
    requires forall i :: 0 <= i < k ==> s[i] in run
    ensures SpanIn(s, run) == k
  {
  }
}
