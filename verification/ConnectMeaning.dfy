/** The multi-connect program in terms of the addresses and of what select returns: which sockets there
    are and which the loops come by, what is reported and closed, and when the first timeout is
    (nbc.cpp). */
module ConnectMeaning {
  import opened Utils
  import opened ConnectSpec
  import opened ConnectRuns

  // The addresses

  /** As many sockets are created for a host as it has addresses that yield one. */
  lemma {:induction false} CreatedCount(host: seq<Attempt>)
    ensures |CreatedOf(host)| == |set i | 0 <= i < |host| && (host[i].InProgress? || host[i].Immediate?)|
    decreases |host|
  {
    var all := set i | 0 <= i < |host| && (host[i].InProgress? || host[i].Immediate?);
    if host == [] {
      assert all == {};
    } else {
      var n := |host| - 1;
      var before := set i | 0 <= i < n && (Init(host)[i].InProgress? || Init(host)[i].Immediate?);
      CreatedCount(Init(host));
      assert all == before + if host[n].HasSocket() then {n} else {};
      assert n !in before;
    }
  }

  /** The slots that the loops visit, and what they hold: as many as there are sockets for the host, with
      -1 for a failed socket() and for an unsupported address among the first three. */
  lemma VisitedExact(hosts: seq<seq<Attempt>>, x: int)
    ensures x in Visited(hosts) <==>
            exists h, i :: 0 <= h < |hosts| && 0 <= i < |hosts[h]|
              && i < |set m | 0 <= m < |hosts[h]| && (hosts[h][m].InProgress? || hosts[h][m].Immediate?)|
              && x == match hosts[h][i]
                      case InProgress(fd) => fd
                      case Immediate(fd, _) => fd
                      case NoSocket => -1
                      case Unsupported => if i < 3 then -1 else 0
  {
    forall h | 0 <= h < |hosts| {
      CreatedCount(hosts[h]);
    }
    if x in Visited(hosts) {
      var h, i := VisitedAt(hosts, x);
    }
    forall h, i | 0 <= h < |hosts| && 0 <= i < |CreatedOf(hosts[h])|
      ensures SlotValue(hosts[h][i], i) in Visited(hosts)
    {
      VisitedHas(hosts, h, i);
    }
  }

  lemma {:induction false} VisitedAt(hosts: seq<seq<Attempt>>, x: int) returns (h: nat, i: nat)
    requires x in Visited(hosts)
    ensures h < |hosts| && i < |CreatedOf(hosts[h])| && x == SlotValue(hosts[h][i], i)
    decreases |hosts|
  {
    if x in VisitedOf(Last(hosts)) {
      h := |hosts| - 1;
      i :| 0 <= i < |VisitedOf(hosts[h])| && VisitedOf(hosts[h])[i] == x;
      SlotAt(hosts[h], i);
    } else {
      h, i := VisitedAt(Init(hosts), x);
    }
  }

  /** The condition under which the program is defined and complete, on the addresses: with k sockets for
      a host, every attempt in progress is among its first k addresses, no socket() failed among them, and
      no unsupported address is among them and the first three. */
  lemma ConditionExact(hosts: seq<seq<Attempt>>)
    requires Handed(hosts)
    ensures AllVisited(hosts) && !HasNegative(Visited(hosts)) <==>
            forall h, i :: 0 <= h < |hosts| && 0 <= i < |hosts[h]| ==>
              var k := |set m | 0 <= m < |hosts[h]| && (hosts[h][m].InProgress? || hosts[h][m].Immediate?)|;
              && (hosts[h][i].InProgress? ==> i < k)
              && (hosts[h][i].NoSocket? ==> i >= k)
              && (hosts[h][i].Unsupported? && i < 3 ==> i >= k)
  {
    AllVisitedExact(hosts);
    NegativeExact(hosts);
    forall h | 0 <= h < |hosts| {
      CreatedCount(hosts[h]);
    }
  }

  lemma NegativeExact(hosts: seq<seq<Attempt>>)
    requires Handed(hosts)
    ensures HasNegative(Visited(hosts)) <==>
            exists h, i :: 0 <= h < |hosts| && 0 <= i < |hosts[h]| && i < |CreatedOf(hosts[h])|
              && (hosts[h][i].NoSocket? || (hosts[h][i].Unsupported? && i < 3))
  {
    if HasNegative(Visited(hosts)) {
      var n :| 0 <= n < |Visited(hosts)| && Visited(hosts)[n] < 0;
      var h, i := VisitedAt(hosts, Visited(hosts)[n]);
      if hosts[h][i].HasSocket() {
        CreatedHas(hosts, h, i);
      }
    }
    if h, i :| 0 <= h < |hosts| && 0 <= i < |hosts[h]| && i < |CreatedOf(hosts[h])|
               && (hosts[h][i].NoSocket? || (hosts[h][i].Unsupported? && i < 3)) {
      VisitedHas(hosts, h, i);
      var n :| 0 <= n < |Visited(hosts)| && Visited(hosts)[n] == -1;
    }
  }

  lemma {:induction false} CreatedHas(hosts: seq<seq<Attempt>>, h: nat, i: nat)
    requires h < |hosts| && i < |hosts[h]| && hosts[h][i].HasSocket()
    ensures hosts[h][i].fd in Created(hosts)
    decreases |hosts|
  {
    if h == |hosts| - 1 {
      CreatedOfHas(hosts[h], i);
    } else {
      CreatedHas(Init(hosts), h, i);
    }
  }

  lemma {:induction false} CreatedOfHas(host: seq<Attempt>, i: nat)
    requires i < |host| && host[i].HasSocket()
    ensures host[i].fd in CreatedOf(host)
    decreases |host|
  {
    if i < |host| - 1 {
      CreatedOfHas(Init(host), i);
    }
  }

  /** With P > 0 sockets in progress, all of them visited, the tenth timeout or the last report comes
      within P + 9 calls of select, and P + 8 are not always enough. */
  lemma CallsExact(hosts: seq<seq<Attempt>>, ok: int -> bool) returns (longest: seq<set<int>>)
    requires Handed(hosts) && AllVisited(hosts) && Pending(hosts) != {}
    ensures forall results: seq<set<int>> :: |results| >= |Pending(hosts)| + 9 ==>
              Ended(Turns(hosts, results, ok), |Created(hosts)|)
    ensures |longest| == |Pending(hosts)| + 8 && !Ended(Turns(hosts, longest, ok), |Created(hosts)|)
  {
    hide Turns, Handed, AllVisited, Ended;
    forall results: seq<set<int>> | |results| >= |Pending(hosts)| + 9
      ensures Ended(Turns(hosts, results, ok), |Created(hosts)|)
    {
      EndsWithin(hosts, results, ok);
    }
    longest := TerminationTight(hosts, ok);
  }

  // What is reported and closed

  /** In progress are the sockets of just those attempts. */
  lemma PendingExact(hosts: seq<seq<Attempt>>, x: int)
    ensures x in Pending(hosts) <==>
            exists h, i :: 0 <= h < |hosts| && 0 <= i < |hosts[h]| && hosts[h][i] == InProgress(x)
  {
    if x in Pending(hosts) {
      var h, i := PendingAt(hosts, x);
    }
    if h, i :| 0 <= h < |hosts| && 0 <= i < |hosts[h]| && hosts[h][i] == InProgress(x) {
      PendingHas(hosts, h, i);
    }
  }

  /** Before the select loop just the attempts that were over at once are reported, with their result. */
  lemma {:induction false} AtOnceExact(hosts: seq<seq<Attempt>>, x: int, b: bool)
    ensures AtOnce(x, b) in ReportedAtOnce(hosts) <==>
            exists h, i :: 0 <= h < |hosts| && 0 <= i < |hosts[h]| && hosts[h][i] == Immediate(x, b)
    decreases |hosts|
  {
    if hosts != [] {
      AtOnceExact(Init(hosts), x, b);
      AtOnceOfExact(Last(hosts), x, b);
      if h, i :| 0 <= h < |hosts| && 0 <= i < |hosts[h]| && hosts[h][i] == Immediate(x, b) && h < |hosts| - 1 {
        assert Init(hosts)[h][i] == Immediate(x, b);
      }
      if h, i :| 0 <= h < |Init(hosts)| && 0 <= i < |Init(hosts)[h]| && Init(hosts)[h][i] == Immediate(x, b) {
        assert hosts[h][i] == Immediate(x, b);
      }
      if i :| 0 <= i < |Last(hosts)| && Last(hosts)[i] == Immediate(x, b) {
        assert hosts[|hosts| - 1][i] == Immediate(x, b);
      }
    }
  }

  lemma {:induction false} AtOnceOfExact(host: seq<Attempt>, x: int, b: bool)
    ensures AtOnce(x, b) in AtOnceOf(host) <==> exists i :: 0 <= i < |host| && host[i] == Immediate(x, b)
    decreases |host|
  {
    if host != [] {
      AtOnceOfExact(Init(host), x, b);
      if i :| 0 <= i < |Init(host)| && Init(host)[i] == Immediate(x, b) {
        assert host[i] == Immediate(x, b);
      }
      if i :| 0 <= i < |host| && host[i] == Immediate(x, b) && i < |host| - 1 {
        assert Init(host)[i] == Immediate(x, b);
      }
    }
  }

  /** The sockets closed in the loop are those reported in it, each once. */
  lemma {:induction false} ResolvedExact(log: seq<Verdict>, x: int)
    ensures x in ResolvedLater(log) <==> exists b :: Later(x, b) in log
    ensures Times(ResolvedLater(log), x) <= Reports(log, x)
    decreases |log|
  {
    if log != [] {
      ResolvedExact(Init(log), x);
      assert log == Init(log) + [Last(log)];
      var more := if Last(log).Later? then [Last(log).fd] else [];
      TimesConcat(ResolvedLater(Init(log)), more, x);
      assert more != [] ==> Init(more) == [];
      if b :| Later(x, b) in log {
        assert Later(x, b) in Init(log) || Last(log) == Later(x, b);
      }
      if Last(log).Later? && Last(log).fd == x {
        assert Later(x, Last(log).ok) in log;
      }
    }
  }

  lemma {:induction false} LaterIs(hosts: seq<seq<Attempt>>, results: seq<set<int>>, ok: int -> bool, x: int, b: bool)
    requires Later(x, b) in Turns(hosts, results, ok).log
    ensures Later(x, b) in ReportedAtOnce(hosts) || b == ok(x)
    decreases |results|
  {
    if results != [] && Later(x, b) !in Turns(hosts, Init(results), ok).log {
      var s := Turns(hosts, Init(results), ok);
      PassReports(Visited(hosts), Last(results) * s.wrfds, ok, s, x, b);
    } else if results != [] {
      LaterIs(hosts, Init(results), ok, x, b);
    }
  }

  lemma {:induction false} PassReports(slots: seq<int>, ready: set<int>, ok: int -> bool, s: Loop, x: int, b: bool)
    requires Later(x, b) in ReportReady(slots, ready, ok, s).log
    ensures Later(x, b) in s.log || b == ok(x)
    decreases |slots|
  {
    if slots != [] && Later(x, b) in ReportReady(Init(slots), ready, ok, s).log {
      PassReports(Init(slots), ready, ok, s, x, b);
    }
  }

  /** A socket is closed at most once, and just if it is reported in the loop, with the result that
      getsockopt gave; of the visited sockets in progress these are the ones that have been noticed. */
  lemma ClosedExact(hosts: seq<seq<Attempt>>, results: seq<set<int>>, ok: int -> bool, x: int)
    requires Handed(hosts)
    ensures var s := Turns(hosts, results, ok);
            && Times(s.closed, x) <= 1
            && (x in s.closed <==> Later(x, ok(x)) in s.log)
            && (x in Pending(hosts) && x in Visited(hosts) ==> (x in s.closed <==> Noticed(hosts, results, ok, x)))
  {
    hide Created, Visited, Pending, Times, Reports, Turns, Noticed, ResolvedLater, ReportedAtOnce;
    var s := Turns(hosts, results, ok);
    LoopInv(hosts, results, ok);
    ResolvedExact(s.log, x);
    assert Reports(s.log, x) <= Times(Created(hosts), x) <= 1;
    if b :| Later(x, b) in s.log {
      LaterIs(hosts, results, ok, x, b);
      NothingNoticedOf(hosts, x, b);
    }
    if x in Pending(hosts) && x in Visited(hosts) {
      NoticedExact(hosts, results, ok, x);
    }
  }

  lemma NothingNoticedOf(hosts: seq<seq<Attempt>>, x: int, b: bool)
    requires Handed(hosts)
    ensures Later(x, b) !in ReportedAtOnce(hosts)
  {
    StartSizes(hosts);
    if Later(x, b) in ReportedAtOnce(hosts) {
      LaterResolved(ReportedAtOnce(hosts), x, b);
    }
  }

  // The first timeout

  /** As long as no call has timed out, the j-th call of select is asked about y if y is in progress and
      has not been returned and come by before. */
  ghost predicate Asked(hosts: seq<seq<Attempt>>, results: seq<set<int>>, y: int, j: nat) {
    y in Pending(hosts) && !(y in Visited(hosts) && exists i :: 0 <= i < j && i < |results| && y in results[i])
  }

  /** The j-th call returns something it was asked about. */
  ghost predicate Answers(hosts: seq<seq<Attempt>>, results: seq<set<int>>, j: nat) {
    j < |results| && exists y :: y in results[j] && Asked(hosts, results, y, j)
  }

  lemma {:induction false} TimeoutsGrow(hosts: seq<seq<Attempt>>, results: seq<set<int>>, ok: int -> bool, k: nat)
    requires Handed(hosts) && k <= |results| && Turns(hosts, results, ok).timeouts == 0
    ensures Turns(hosts, results[..k], ok).timeouts == 0
  {
    if Turns(hosts, results[..k], ok).timeouts > 0 {
      TimeoutIsFinal(hosts, results, k, ok);
    }
  }

  /** What select would be asked about next. */
  lemma OrigExact(hosts: seq<seq<Attempt>>, results: seq<set<int>>, ok: int -> bool, y: int)
    requires Handed(hosts) && Turns(hosts, results, ok).timeouts == 0
    ensures y in Turns(hosts, results, ok).orig <==> Asked(hosts, results, y, |results|)
  {
    hide Turns, Pending, Visited, Created, Reports, Times;
    LoopInv(hosts, results, ok);
    if y in Pending(hosts) && y in Visited(hosts) {
      NoticedExact(hosts, results, ok, y);
      if i :| 0 <= i < |results| && y in results[i] {
        TimeoutsGrow(hosts, results, ok, i);
        assert NoticedBy(hosts, results, ok, y, i);
      }
      if k: nat :| NoticedBy(hosts, results, ok, y, k) {
        assert y in results[k];
      }
    }
  }

  lemma AskedInit(hosts: seq<seq<Attempt>>, results: seq<set<int>>, y: int, j: nat)
    requires results != [] && j < |results|
    ensures Asked(hosts, Init(results), y, j) <==> Asked(hosts, results, y, j)
  {
    if i :| 0 <= i < j && i < |Init(results)| && y in Init(results)[i] {
      assert y in results[i];
    }
    if i :| 0 <= i < j && i < |results| && y in results[i] {
      assert y in Init(results)[i];
    }
  }

  lemma AnswersInit(hosts: seq<seq<Attempt>>, results: seq<set<int>>, j: nat)
    requires results != [] && j < |results| - 1
    ensures Answers(hosts, Init(results), j) <==> Answers(hosts, results, j)
  {
    hide Asked;
    forall y ensures Asked(hosts, Init(results), y, j) <==> Asked(hosts, results, y, j) {
      AskedInit(hosts, results, y, j);
    }
  }

  /** While x is still asked about, there is no timeout if and only if every call so far has returned
      something it was asked about. */
  lemma {:induction false} NoTimeoutExact(hosts: seq<seq<Attempt>>, results: seq<set<int>>, ok: int -> bool, x: int)
    requires Handed(hosts) && Asked(hosts, results, x, |results|)
    ensures Turns(hosts, results, ok).timeouts == 0 <==>
            forall j :: 0 <= j < |results| ==> Answers(hosts, results, j)
    decreases |results|
  {
    hide Asked, Answers, Turn, Handed, Created, Pending, Visited, Inv;
    if results != [] {
      var before, n := Init(results), |results| - 1;
      StillAsked(hosts, results, x);
      NoTimeoutExact(hosts, before, ok, x);
      forall j | 0 <= j < n ensures Answers(hosts, before, j) <==> Answers(hosts, results, j) {
        AnswersInit(hosts, results, j);
      }
      assert before == results[..n];
      if Turns(hosts, before, ok).timeouts == 0 {
        LastAnswers(hosts, results, ok, x);
      } else {
        TimeoutIsFinal(hosts, results, n, ok);
      }
    }
  }

  lemma StillAsked(hosts: seq<seq<Attempt>>, results: seq<set<int>>, x: int)
    requires results != [] && Asked(hosts, results, x, |results|)
    ensures Asked(hosts, Init(results), x, |Init(results)|)
  {
    if i :| 0 <= i < |Init(results)| && x in Init(results)[i] {
      assert x in results[i];
    }
  }

  lemma LastAnswers(hosts: seq<seq<Attempt>>, results: seq<set<int>>, ok: int -> bool, x: int)
    requires Handed(hosts) && results != [] && Asked(hosts, Init(results), x, |results| - 1)
    requires Turns(hosts, Init(results), ok).timeouts == 0
    ensures Turns(hosts, results, ok).timeouts == 0 <==> Answers(hosts, results, |results| - 1)
  {
    hide Asked, Handed, Created, Pending, Visited, ReportReady, Reports, Times;
    var s, last := Turns(hosts, Init(results), ok), Last(results);
    LoopInv(hosts, Init(results), ok);
    forall y ensures y in s.orig <==> Asked(hosts, results, y, |results| - 1) {
      OrigExact(hosts, Init(results), ok, y);
      AskedInit(hosts, results, y, |results| - 1);
    }
    assert x in s.orig by { AskedInit(hosts, results, x, |results| - 1); }
    SomePending(s.orig, x);
    assert !Ended(s, |Created(hosts)|);
    PassTimeouts(Visited(hosts), last * s.wrfds, ok, s);
    if last * s.wrfds != {} {
      HasElement(last * s.wrfds);
      var y :| y in last * s.wrfds;
      assert y in results[|results| - 1] && Asked(hosts, results, y, |results| - 1);
    }
    var n := |results| - 1;
    if y :| y in results[n] && Asked(hosts, results, y, n) {
      assert y in last * s.wrfds;
    }
  }

  lemma {:induction false} PassTimeouts(slots: seq<int>, ready: set<int>, ok: int -> bool, s: Loop)
    ensures ReportReady(slots, ready, ok, s).timeouts == s.timeouts
    decreases |slots|
  {
    if slots != [] {
      PassTimeouts(Init(slots), ready, ok, s);
    }
  }

  /** A visited socket in progress is noticed if and only if some call of select returns it and every call
      before that one has returned something it was asked about. */
  lemma NoticedMeans(hosts: seq<seq<Attempt>>, results: seq<set<int>>, ok: int -> bool, x: int)
    requires Handed(hosts) && x in Pending(hosts) && x in Visited(hosts)
    ensures x !in Turns(hosts, results, ok).orig <==>
            exists k :: 0 <= k < |results| && x in results[k] && forall j :: 0 <= j < k ==> Answers(hosts, results, j)
  {
    hide Turns, Pending, Visited, Handed, Answers;
    NoticedExact(hosts, results, ok, x);
    if k: nat :| NoticedBy(hosts, results, ok, x, k) {
      var m := FirstReturn(results, x, k);
      AskedUntil(hosts, results, ok, x, m, k);
    }
    if k :| 0 <= k < |results| && x in results[k] && forall j :: 0 <= j < k ==> Answers(hosts, results, j) {
      var m := FirstReturn(results, x, k);
      AnsweredUntil(hosts, results, ok, x, m);
      assert NoticedBy(hosts, results, ok, x, m);
    }
  }

  lemma FirstReturn(results: seq<set<int>>, x: int, k: nat) returns (m: nat)
    requires k < |results| && x in results[k]
    ensures m <= k && x in results[m] && forall i :: 0 <= i < m ==> x !in results[i]
  {
    m := 0;
    while x !in results[m]
      invariant m <= k && forall i :: 0 <= i < m ==> x !in results[i]
      decreases k - m
    {
      m := m + 1;
    }
  }

  lemma AnswersPrefix(hosts: seq<seq<Attempt>>, results: seq<set<int>>, m: nat, j: nat)
    requires j < m <= |results|
    ensures Answers(hosts, results[..m], j) <==> Answers(hosts, results, j)
  {
    forall y ensures Asked(hosts, results[..m], y, j) <==> Asked(hosts, results, y, j) {
      if i :| 0 <= i < j && i < |results| && y in results[i] {
        assert y in results[..m][i];
      }
      if i :| 0 <= i < j && i < |results[..m]| && y in results[..m][i] {
        assert y in results[i];
      }
    }
  }

  lemma AskedUntil(hosts: seq<seq<Attempt>>, results: seq<set<int>>, ok: int -> bool, x: int, m: nat, k: nat)
    requires Handed(hosts) && x in Pending(hosts) && m <= k <= |results|
    requires (forall i :: 0 <= i < m ==> x !in results[i]) && Turns(hosts, results[..k], ok).timeouts == 0
    ensures forall j :: 0 <= j < m ==> Answers(hosts, results, j)
  {
    hide Turns, Pending, Visited, Handed, Answers;
    TimeoutsGrow(hosts, results[..k], ok, m);
    assert results[..k][..m] == results[..m];
    assert Asked(hosts, results[..m], x, m);
    NoTimeoutExact(hosts, results[..m], ok, x);
    forall j | 0 <= j < m ensures Answers(hosts, results, j) {
      AnswersPrefix(hosts, results, m, j);
    }
  }

  lemma AnsweredUntil(hosts: seq<seq<Attempt>>, results: seq<set<int>>, ok: int -> bool, x: int, m: nat)
    requires Handed(hosts) && x in Pending(hosts) && m <= |results|
    requires forall i :: 0 <= i < m ==> x !in results[i]
    requires forall j :: 0 <= j < m ==> Answers(hosts, results, j)
    ensures Turns(hosts, results[..m], ok).timeouts == 0
  {
    hide Turns, Pending, Visited, Handed, Answers;
    assert Asked(hosts, results[..m], x, m);
    forall j | 0 <= j < m ensures Answers(hosts, results[..m], j) {
      AnswersPrefix(hosts, results, m, j);
    }
    NoTimeoutExact(hosts, results[..m], ok, x);
  }
}
