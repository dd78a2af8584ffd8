/** The multi-connect program on every run: conservation, the verdict of each socket, and exactly when
    the program is defined, complete and sure to end (nbc.cpp, lines 137-232). */
module ConnectRuns {
  import opened Utils
  import opened ConnectSpec

  // Conservation

  /** At the head of the loop: each socket has been reported once or is in wrfds_orig, select is asked
      about exactly those until it has timed out, n counts the reports, and what was resolved in the
      loop has been closed. */
  ghost predicate Inv(hosts: seq<seq<Attempt>>, s: Loop) {
    && (forall x :: Reports(s.log, x) + AsNat(x in s.orig) == Times(Created(hosts), x))
    && s.n == |s.log| && s.n + |s.orig| == |Created(hosts)|
    && s.wrfds == (if s.timeouts == 0 then s.orig else {}) && s.orig <= Pending(hosts)
    && (forall x :: x in Pending(hosts) && x !in Visited(hosts) ==> x in s.orig)
    && s.closed == ResolvedLater(s.log)
    && s.timeouts <= TIMEOUT
    && (s.undefined ==> HasNegative(Visited(hosts)))
  }

  /** What a pass over the visited slots does to socket x. */
  lemma {:induction false} ReportOne(slots: seq<int>, ready: set<int>, ok: int -> bool, s: Loop, x: int)
    requires forall y :: y in ready ==> y > 0
    ensures var t := ReportReady(slots, ready, ok, s);
            && Reports(t.log, x) == Reports(s.log, x) + (if x in ready then Times(slots, x) else 0)
            && (x in t.orig <==> x in s.orig && !(x in ready && Times(slots, x) > 0))
    decreases |slots|
  {
    if slots != [] {
      ReportOne(Init(slots), ready, ok, s, x);
      var t := ReportReady(Init(slots), ready, ok, s);
      ReportsConcat(t.log, [Later(Last(slots), ok(Last(slots)))], x);
      assert Reports([Later(Last(slots), ok(Last(slots)))], x) == AsNat(Last(slots) == x) by {
        assert Init([Later(Last(slots), ok(Last(slots)))]) == [];
      }
    }
  }

  /** A pass reports x as resolved exactly when it comes by x and x is ready. */
  lemma {:induction false} ReportOneLater(slots: seq<int>, ready: set<int>, ok: int -> bool, s: Loop, x: int)
    requires forall y :: y in ready ==> y > 0
    ensures Later(x, ok(x)) in ReportReady(slots, ready, ok, s).log
            <==> Later(x, ok(x)) in s.log || (x in ready && Times(slots, x) > 0)
    decreases |slots|
  {
    if slots != [] {
      ReportOneLater(Init(slots), ready, ok, s, x);
    }
  }

  lemma {:induction false} ReportSizes(slots: seq<int>, ready: set<int>, ok: int -> bool, s: Loop)
    requires OnceEach(slots) && ready <= s.orig && s.n == |s.log| && s.closed == ResolvedLater(s.log)
    requires forall y :: y in ready ==> y > 0
    ensures var t := ReportReady(slots, ready, ok, s);
            && t.n == |t.log| && t.n + |t.orig| == s.n + |s.orig|
            && t.closed == ResolvedLater(t.log) && t.timeouts == s.timeouts && t.orig <= s.orig
            && (t.undefined <==> s.undefined || HasNegative(slots))
    decreases |slots|
  {
    if slots != [] {
      var fd := Last(slots);
      OnceEachInit(slots);
      ReportSizes(Init(slots), ready, ok, s);
      assert HasNegative(slots) <==> HasNegative(Init(slots)) || fd < 0 by {
        if fd < 0 {
          assert slots[|slots| - 1] < 0;
        }
        if HasNegative(Init(slots)) {
          var i :| 0 <= i < |Init(slots)| && Init(slots)[i] < 0;
          assert slots[i] < 0;
        }
        if i :| 0 <= i < |slots| && slots[i] < 0 && fd >= 0 {
          assert Init(slots)[i] < 0;
        }
      }
      if fd in ready {
        assert Times(slots, fd) <= 1;
        ReportOne(Init(slots), ready, ok, s, fd);
      }
    }
  }

  lemma OnceEachInit(slots: seq<int>)
    requires OnceEach(slots) && slots != []
    ensures OnceEach(Init(slots))
  {
    forall x | x > 0 ensures Times(Init(slots), x) <= 1 {
      assert Times(slots, x) <= 1;
    }
  }

  lemma PassKeepsInv(hosts: seq<seq<Attempt>>, ready: set<int>, ok: int -> bool, s: Loop)
    requires Handed(hosts) && Inv(hosts, s) && ready <= s.wrfds && s.timeouts == 0
    ensures var t := ReportReady(Visited(hosts), ready, ok, s); Inv(hosts, t.(wrfds := t.orig))
  {
    hide Created, Visited, Pending, ReportReady, Times, Reports, ResolvedLater;
    var slots := Visited(hosts);
    var t := ReportReady(slots, ready, ok, s);
    PendingPositive(hosts);
    VisitedOnce(hosts);
    ReportSizes(slots, ready, ok, s);
    forall x ensures Reports(t.log, x) + AsNat(x in t.orig) == Times(Created(hosts), x) {
      ReportOne(slots, ready, ok, s, x);
      assert x > 0 ==> Times(slots, x) <= 1;
    }
    forall x | x in Pending(hosts) && x !in slots ensures x in t.orig {
      ReportOne(slots, ready, ok, s, x);
      TimesIn(slots, x);
    }
  }

  lemma TurnKeepsInv(hosts: seq<seq<Attempt>>, result: set<int>, ok: int -> bool, s: Loop)
    requires Handed(hosts) && Inv(hosts, s) && !Ended(s, |Created(hosts)|)
    ensures Inv(hosts, Turn(Visited(hosts), result * s.wrfds, ok, s))
  {
    hide Created, Visited, Pending, ReportReady, Times, Reports, ResolvedLater;
    if result * s.wrfds != {} {
      PassKeepsInv(hosts, result * s.wrfds, ok, s);
    }
  }

  lemma StartInv(hosts: seq<seq<Attempt>>)
    requires Handed(hosts)
    ensures Inv(hosts, Started(hosts))
  {
    StartSizes(hosts);
    forall x ensures Reports(ReportedAtOnce(hosts), x) + AsNat(x in Pending(hosts)) == Times(Created(hosts), x) {
      StartConserved(hosts, x);
    }
  }

  /** Conservation over every run: at each loop head n + |wrfds_orig| = num_sockets and wrfds is a part
      of wrfds_orig, whatever select has returned so far. */
  lemma {:induction false} LoopInv(hosts: seq<seq<Attempt>>, results: seq<set<int>>, ok: int -> bool)
    requires Handed(hosts)
    ensures Inv(hosts, Turns(hosts, results, ok))
    decreases |results|
  {
    hide Inv, Handed, Turn;
    if results == [] {
      StartInv(hosts);
    } else {
      LoopInv(hosts, Init(results), ok);
      var s := Turns(hosts, Init(results), ok);
      if !Ended(s, |Created(hosts)|) {
        TurnKeepsInv(hosts, Last(results), ok, s);
      }
    }
  }

  // One verdict each

  lemma {:induction false} RestReported(slots: seq<int>, orig: set<int>, x: int)
    requires forall y :: y in orig ==> y > 0
    ensures Reports(ReportRest(slots, orig), x) == if x in orig then Times(slots, x) else 0
    decreases |slots|
  {
    if slots != [] {
      RestReported(Init(slots), orig, x);
      var fd := Last(slots);
      if fd in orig {
        ReportsConcat(ReportRest(Init(slots), orig), [TimedOut(fd)], x);
        assert Init([TimedOut(fd)]) == [];
      } else {
        assert ReportRest(slots, orig) == ReportRest(Init(slots), orig);
      }
    }
  }

  lemma {:induction false} RestTimesOut(slots: seq<int>, orig: set<int>, x: int, b: bool)
    requires forall y :: y in orig ==> y > 0
    ensures TimedOut(x) in ReportRest(slots, orig) <==> x in orig && Times(slots, x) > 0
    ensures Later(x, b) !in ReportRest(slots, orig)
    decreases |slots|
  {
    if slots != [] {
      RestTimesOut(Init(slots), orig, x, b);
    }
  }

  /** The verdicts about x over the whole run. */
  lemma VerdictsAbout(hosts: seq<seq<Attempt>>, s: Loop, x: int)
    requires Handed(hosts) && Inv(hosts, s)
    ensures Reports(AllReports(hosts, s), x)
         == Times(Created(hosts), x) - AsNat(x in s.orig && x !in Visited(hosts))
  {
    hide Created, Visited, Pending, Times, Reports;
    PendingPositive(hosts);
    RestReported(Visited(hosts), s.orig, x);
    ReportsConcat(s.log, ReportRest(Visited(hosts), s.orig), x);
    VisitedOnce(hosts);
    assert x > 0 ==> Times(Visited(hosts), x) <= 1;
    TimesIn(Visited(hosts), x);
  }

  /** Exactly one verdict per created socket, and none about anything else. */
  ghost predicate OneEach(hosts: seq<seq<Attempt>>, log: seq<Verdict>) {
    forall x :: Reports(log, x) == Times(Created(hosts), x)
  }

  /** The verdicts of a run, at whatever turn its loop stops, are one for each socket if and only if no
      socket in progress hides behind a skipped address. */
  lemma VerdictsExact(hosts: seq<seq<Attempt>>, results: seq<set<int>>, ok: int -> bool)
    requires Handed(hosts)
    ensures OneEach(hosts, AllReports(hosts, Turns(hosts, results, ok))) <==> AllVisited(hosts)
  {
    hide Created, Visited, Pending, Times, Reports, AllReports, Turns;
    var s := Turns(hosts, results, ok);
    LoopInv(hosts, results, ok);
    forall x ensures Reports(AllReports(hosts, s), x)
                  == Times(Created(hosts), x) - AsNat(x in s.orig && x !in Visited(hosts)) {
      VerdictsAbout(hosts, s, x);
    }
    if !AllVisited(hosts) {
      var x :| x in Pending(hosts) && x !in Visited(hosts);
      assert Reports(AllReports(hosts, s), x) != Times(Created(hosts), x);
    }
  }

  /** A run is defined and gives each socket exactly one verdict if and only if no socket in progress
      hides behind a skipped address and no visited slot is left at -1. */
  lemma OneVerdictEach(hosts: seq<seq<Attempt>>, results: seq<set<int>>, ok: int -> bool)
    requires Handed(hosts)
    ensures var s := Turns(hosts, results, ok);
            !RunUndefined(hosts, s) && OneEach(hosts, AllReports(hosts, s))
            <==> AllVisited(hosts) && !HasNegative(Visited(hosts))
  {
    hide OneEach, AllVisited, AllReports, Visited;
    VerdictsExact(hosts, results, ok);
    LoopInv(hosts, results, ok);
  }

  // Termination

  /** Every turn uses up a timeout or crosses off a socket. */
  lemma TurnMeasure(hosts: seq<seq<Attempt>>, result: set<int>, ok: int -> bool, s: Loop)
    requires Handed(hosts) && AllVisited(hosts) && Inv(hosts, s)
    ensures var t := Turn(Visited(hosts), result * s.wrfds, ok, s);
            t.timeouts + |s.orig| > s.timeouts + |t.orig|
  {
    var ready := result * s.wrfds;
    if ready != {} {
      HasElement(ready);
      var x :| x in ready;
      hide Created, Visited, Pending, Times, Reports, ReportReady;
      var t := ReportReady(Visited(hosts), ready, ok, s);
      PendingPositive(hosts);
      VisitedOnce(hosts);
      ReportSizes(Visited(hosts), ready, ok, s);
      ReportOne(Visited(hosts), ready, ok, s, x);
      TimesIn(Visited(hosts), x);
      assert x in s.orig && x !in t.orig;
      Smaller(t.orig, s.orig);
    }
  }

  lemma HasElement(a: set<int>)
    ensures a != {} ==> exists x :: x in a
  {
    if forall x :: x !in a {
      assert a == {};
    }
  }

  lemma Smaller(a: set<int>, b: set<int>)
    requires a < b
    ensures |a| < |b|
  {
    assert b == a + (b - a);
    assert b - a != {};
  }

  lemma {:induction false} Measure(hosts: seq<seq<Attempt>>, results: seq<set<int>>, ok: int -> bool)
    requires Handed(hosts) && AllVisited(hosts)
    ensures var s := Turns(hosts, results, ok);
            Ended(s, |Created(hosts)|) || |results| + |s.orig| <= s.timeouts + |Pending(hosts)|
    decreases |results|
  {
    if results != [] {
      hide Inv, Handed, AllVisited, Created, Visited, Pending, Turn;
      Measure(hosts, Init(results), ok);
      LoopInv(hosts, Init(results), ok);
      var s := Turns(hosts, Init(results), ok);
      if !Ended(s, |Created(hosts)|) {
        TurnMeasure(hosts, Last(results), ok, s);
      }
    }
  }

  /** If a socket in progress is not visited, select can return it forever: the loop then never ends. */
  lemma {:induction false} Forever(hosts: seq<seq<Attempt>>, k: nat, x: int, ok: int -> bool)
    requires Handed(hosts) && x in Pending(hosts) && x !in Visited(hosts)
    ensures var s := Turns(hosts, seq(k, _ => {x}), ok);
            s.(undefined := false) == Started(hosts) && !Ended(s, |Created(hosts)|)
    decreases k
  {
    StartSizes(hosts);
    assert Pending(hosts) != {};
    if k > 0 {
      Forever(hosts, k - 1, x, ok);
      assert Init(seq(k, _ => {x})) == seq(k - 1, _ => {x});
      var s := Turns(hosts, seq(k - 1, _ => {x}), ok);
      assert {x} * s.wrfds == {x};
      NothingReady(Visited(hosts), {x}, ok, s);
    }
  }

  lemma {:induction false} NothingReady(slots: seq<int>, ready: set<int>, ok: int -> bool, s: Loop)
    requires forall y :: y in slots ==> y !in ready
    ensures ReportReady(slots, ready, ok, s).(undefined := s.undefined) == s
    decreases |slots|
  {
    if slots != [] {
      NothingReady(Init(slots), ready, ok, s);
    }
  }

  /** The calls of select after which every run has ended, if any number is enough. */
  function CallBound(hosts: seq<seq<Attempt>>): nat {
    if Pending(hosts) == {} then 0 else TIMEOUT + |Pending(hosts)| - 1
  }

  /** The first result names a socket: then a pass is made, and it visits every slot. */
  lemma FirstPass(hosts: seq<seq<Attempt>>, results: seq<set<int>>, x: int, ok: int -> bool)
    requires Handed(hosts) && x in Pending(hosts) && HasNegative(Visited(hosts))
    requires results != [] && x in results[0]
    ensures Turns(hosts, results, ok).undefined
    decreases |results|
  {
    hide Created, Visited, Pending, Times, Reports, ReportedAtOnce, ResolvedLater, HasNegative;
    var s := Turns(hosts, Init(results), ok);
    StartSizes(hosts);
    if |results| == 1 {
      assert results[0] == Last(results) && Init(results) == [];
      assert x in Last(results) * s.wrfds;
    } else {
      FirstPass(hosts, Init(results), x, ok);
    }
    if !Ended(s, |Created(hosts)|) && Last(results) * s.wrfds != {} {
      LoopInv(hosts, Init(results), ok);
      PendingPositive(hosts);
      VisitedOnce(hosts);
      ReportSizes(Visited(hosts), Last(results) * s.wrfds, ok, s);
    }
  }

  lemma EndsWithin(hosts: seq<seq<Attempt>>, results: seq<set<int>>, ok: int -> bool)
    requires Handed(hosts) && AllVisited(hosts) && |results| >= CallBound(hosts)
    ensures Ended(Turns(hosts, results, ok), |Created(hosts)|)
  {
    hide Created, Visited, Pending, Times, Reports, ResolvedLater, Turns, AllVisited;
    Measure(hosts, results, ok);
    LoopInv(hosts, results, ok);
  }

  /** With no socket in progress the loop makes no pass. */
  lemma {:induction false} NothingToDo(hosts: seq<seq<Attempt>>, results: seq<set<int>>, ok: int -> bool)
    requires Handed(hosts) && Pending(hosts) == {}
    ensures Turns(hosts, results, ok) == Started(hosts) && Ended(Started(hosts), |Created(hosts)|)
    decreases |results|
  {
    StartSizes(hosts);
    if results != [] {
      NothingToDo(hosts, Init(results), ok);
    }
  }

  /** For every list of that many results of select the loop has ended and has been defined throughout,
      if and only if no socket in progress hides behind a skipped address and, unless there is nothing to
      wait for, no visited slot is left at -1. */
  lemma TerminationExact(hosts: seq<seq<Attempt>>, ok: int -> bool)
    requires Handed(hosts)
    ensures (forall results: seq<set<int>> :: |results| == CallBound(hosts) ==>
               Ended(Turns(hosts, results, ok), |Created(hosts)|) && !Turns(hosts, results, ok).undefined)
            <==> AllVisited(hosts) && (Pending(hosts) == {} || !HasNegative(Visited(hosts)))
  {
    hide Created, Visited, Turns, Handed, Times;
    var k := CallBound(hosts);
    if Pending(hosts) == {} {
      forall results: seq<set<int>>
        ensures Ended(Turns(hosts, results, ok), |Created(hosts)|) && !Turns(hosts, results, ok).undefined
      {
        NothingToDo(hosts, results, ok);
      }
    } else if !AllVisited(hosts) {
      var x :| x in Pending(hosts) && x !in Visited(hosts);
      Forever(hosts, k, x, ok);
      assert |seq(k, _ => {x})| == k;
    } else if HasNegative(Visited(hosts)) {
      HasElement(Pending(hosts));
      var x :| x in Pending(hosts);
      var results := seq(k, _ => {x});
      SomePending(Pending(hosts), x);
      FirstPass(hosts, results, x, ok);
      assert |results| == k;
    } else {
      forall results: seq<set<int>> | |results| == k
        ensures Ended(Turns(hosts, results, ok), |Created(hosts)|) && !Turns(hosts, results, ok).undefined
      {
        EndsWithin(hosts, results, ok);
        LoopInv(hosts, results, ok);
      }
    }
  }

  lemma SomePending(a: set<int>, x: int)
    requires x in a
    ensures |a| > 0
  {
    assert a == {x} + (a - {x});
  }

  /** m sockets are reported one by one, and then k calls time out. */
  lemma {:induction false} SlowRun(hosts: seq<seq<Attempt>>, m: nat, k: nat, ok: int -> bool)
    returns (results: seq<set<int>>)
    requires Handed(hosts) && AllVisited(hosts) && m < |Pending(hosts)| && k < TIMEOUT
    ensures |results| == m + k
    ensures var s := Turns(hosts, results, ok);
            s.timeouts == k && |s.orig| == |Pending(hosts)| - m && !Ended(s, |Created(hosts)|)
    decreases k, m
  {
    hide Created, Visited, Pending, Times, Reports, ReportedAtOnce, ResolvedLater, AllVisited, ReportReady;
    StartSizes(hosts);
    if k > 0 {
      var before := SlowRun(hosts, m, k - 1, ok);
      results := before + [{}];
      assert Init(results) == before;
      LoopInv(hosts, before, ok);
    } else if m > 0 {
      var before := SlowRun(hosts, m - 1, 0, ok);
      var s := Turns(hosts, before, ok);
      LoopInv(hosts, before, ok);
      HasElement(s.orig);
      var x :| x in s.orig;
      results := before + [{x}];
      assert Init(results) == before && {x} * s.wrfds == {x};
      OneCrossedOff(hosts, x, ok, s);
      LoopInv(hosts, results, ok);
    } else {
      results := [];
    }
  }

  /** A pass with one socket ready crosses off that one. */
  lemma OneCrossedOff(hosts: seq<seq<Attempt>>, x: int, ok: int -> bool, s: Loop)
    requires Handed(hosts) && AllVisited(hosts) && Inv(hosts, s) && x in s.orig
    ensures var t := ReportReady(Visited(hosts), {x}, ok, s);
            |t.orig| == |s.orig| - 1 && t.timeouts == s.timeouts
  {
    hide Created, Visited, Pending, Times, Reports, ReportReady;
    var t := ReportReady(Visited(hosts), {x}, ok, s);
    PendingPositive(hosts);
    VisitedOnce(hosts);
    ReportSizes(Visited(hosts), {x}, ok, s);
    TimesIn(Visited(hosts), x);
    forall y ensures y in t.orig <==> y in s.orig && y != x {
      ReportOne(Visited(hosts), {x}, ok, s, y);
    }
    assert t.orig == s.orig - {x};
  }

  /** The bound is tight: one call fewer is not always enough. */
  lemma TerminationTight(hosts: seq<seq<Attempt>>, ok: int -> bool) returns (results: seq<set<int>>)
    requires Handed(hosts) && AllVisited(hosts) && Pending(hosts) != {}
    ensures |results| == CallBound(hosts) - 1 && !Ended(Turns(hosts, results, ok), |Created(hosts)|)
  {
    HasElement(Pending(hosts));
    var x :| x in Pending(hosts);
    SomePending(Pending(hosts), x);
    results := SlowRun(hosts, |Pending(hosts)| - 1, TIMEOUT - 1, ok);
  }

  // Which verdict a socket gets

  /** Some call of select returned x, and none before it had timed out. */
  ghost predicate NoticedBy(hosts: seq<seq<Attempt>>, results: seq<set<int>>, ok: int -> bool, x: int, k: nat) {
    k < |results| && x in results[k] && Turns(hosts, results[..k], ok).timeouts == 0
  }

  ghost predicate Noticed(hosts: seq<seq<Attempt>>, results: seq<set<int>>, ok: int -> bool, x: int) {
    exists k :: NoticedBy(hosts, results, ok, x, k)
  }

  lemma NoticedSnoc(hosts: seq<seq<Attempt>>, results: seq<set<int>>, ok: int -> bool, x: int)
    requires results != []
    ensures Noticed(hosts, results, ok, x) <==>
            Noticed(hosts, Init(results), ok, x)
            || (x in Last(results) && Turns(hosts, Init(results), ok).timeouts == 0)
  {
    hide Turns;
    var n := |results| - 1;
    if k: nat :| NoticedBy(hosts, results, ok, x, k) && k < n {
      assert Init(results)[..k] == results[..k];
      assert NoticedBy(hosts, Init(results), ok, x, k);
    }
    if k: nat :| NoticedBy(hosts, Init(results), ok, x, k) {
      assert Init(results)[..k] == results[..k];
      assert NoticedBy(hosts, results, ok, x, k);
    }
    assert results[..n] == Init(results);
    if x in Last(results) && Turns(hosts, Init(results), ok).timeouts == 0 {
      assert NoticedBy(hosts, results, ok, x, n);
    }
  }

  /** One turn, for a visited socket in progress. */
  lemma TurnOne(hosts: seq<seq<Attempt>>, result: set<int>, ok: int -> bool, s: Loop, x: int)
    requires Handed(hosts) && Inv(hosts, s) && x in Visited(hosts)
    requires x in s.orig ==> Later(x, ok(x)) !in s.log
    ensures var t := Turn(Visited(hosts), result * s.wrfds, ok, s);
            && (x in t.orig <==> x in s.orig && !(x in result && s.timeouts == 0))
            && (Later(x, ok(x)) in t.log <==> Later(x, ok(x)) in s.log || (x in s.orig && x !in t.orig))
  {
    hide Created, Visited, Pending, Times, Reports, ReportReady, ResolvedLater;
    PendingPositive(hosts);
    TimesIn(Visited(hosts), x);
    assert x in result && x in s.wrfds ==> x in result * s.wrfds;
    if result * s.wrfds != {} {
      ReportOne(Visited(hosts), result * s.wrfds, ok, s, x);
      ReportOneLater(Visited(hosts), result * s.wrfds, ok, s, x);
    }
  }

  /** A visited socket in progress leaves wrfds_orig exactly when select has returned it before the first
      timeout, and this is when it is reported as resolved. */
  lemma {:induction false} NoticedExact(hosts: seq<seq<Attempt>>, results: seq<set<int>>, ok: int -> bool, x: int)
    requires Handed(hosts) && x in Pending(hosts) && x in Visited(hosts)
    ensures x !in Turns(hosts, results, ok).orig <==> Noticed(hosts, results, ok, x)
    ensures Later(x, ok(x)) in Turns(hosts, results, ok).log <==> Noticed(hosts, results, ok, x)
    decreases |results|
  {
    hide Inv, Handed, Created, Visited, Pending, Turn, Noticed, ReportedAtOnce;
    if results == [] {
      NothingNoticed(hosts, ok, x);
    } else {
      NoticedExact(hosts, Init(results), ok, x);
      NoticedSnoc(hosts, results, ok, x);
      LoopInv(hosts, Init(results), ok);
      var s := Turns(hosts, Init(results), ok);
      if Ended(s, |Created(hosts)|) {
        EndedNoticed(hosts, s, x);
      } else {
        TurnOne(hosts, Last(results), ok, s, x);
      }
    }
  }

  lemma NothingNoticed(hosts: seq<seq<Attempt>>, ok: int -> bool, x: int)
    requires Handed(hosts)
    ensures !Noticed(hosts, [], ok, x) && Later(x, ok(x)) !in ReportedAtOnce(hosts)
  {
    StartSizes(hosts);
    if Later(x, ok(x)) in ReportedAtOnce(hosts) {
      LaterResolved(ReportedAtOnce(hosts), x, ok(x));
    }
  }

  lemma {:induction false} LaterResolved(log: seq<Verdict>, x: int, b: bool)
    requires Later(x, b) in log
    ensures x in ResolvedLater(log)
    decreases |log|
  {
    if Last(log) != Later(x, b) {
      assert log == Init(log) + [Last(log)];
      LaterResolved(Init(log), x, b);
    }
  }

  /** If the loop has ended without a timeout, everything has been noticed. */
  lemma EndedNoticed(hosts: seq<seq<Attempt>>, s: Loop, x: int)
    requires Inv(hosts, s) && Ended(s, |Created(hosts)|)
    ensures s.timeouts == 0 ==> x !in s.orig
  {
    if s.timeouts == 0 && x in s.orig {
      SomePending(s.orig, x);
    }
  }

  /** The verdict of every visited socket in progress: resolved later if select returned it before the
      first timeout, timed out otherwise, whenever it may have connected. */
  lemma VerdictOf(hosts: seq<seq<Attempt>>, results: seq<set<int>>, ok: int -> bool, x: int)
    requires Handed(hosts) && x in Pending(hosts) && x in Visited(hosts)
    ensures var all := AllReports(hosts, Turns(hosts, results, ok));
            && Reports(all, x) == 1
            && (Later(x, ok(x)) in all <==> Noticed(hosts, results, ok, x))
            && (TimedOut(x) in all <==> !Noticed(hosts, results, ok, x))
  {
    hide Created, Visited, Pending, Times, Reports, Turns, Noticed, ReportRest, ResolvedLater;
    var s := Turns(hosts, results, ok);
    LoopInv(hosts, results, ok);
    NoticedExact(hosts, results, ok, x);
    PendingPositive(hosts);
    PendingCreated(hosts, x);
    TimesIn(Created(hosts), x);
    TimesIn(Visited(hosts), x);
    assert Times(Created(hosts), x) <= 1;
    VerdictsAbout(hosts, s, x);
    RestTimesOut(Visited(hosts), s.orig, x, ok(x));
    NoTimedOut(hosts, results, ok, x);
  }

  lemma {:induction false} NoTimedOut(hosts: seq<seq<Attempt>>, results: seq<set<int>>, ok: int -> bool, x: int)
    ensures TimedOut(x) !in Turns(hosts, results, ok).log
    decreases |results|
  {
    if results == [] {
      AtOnceOnly(hosts, x);
    } else {
      NoTimedOut(hosts, Init(results), ok, x);
      var s := Turns(hosts, Init(results), ok);
      PassAddsLater(Visited(hosts), Last(results) * s.wrfds, ok, s, x);
    }
  }

  lemma {:induction false} PassAddsLater(slots: seq<int>, ready: set<int>, ok: int -> bool, s: Loop, x: int)
    requires TimedOut(x) !in s.log
    ensures TimedOut(x) !in ReportReady(slots, ready, ok, s).log
    decreases |slots|
  {
    if slots != [] {
      PassAddsLater(Init(slots), ready, ok, s, x);
    }
  }

  lemma {:induction false} AtOnceOnly(hosts: seq<seq<Attempt>>, x: int)
    ensures TimedOut(x) !in ReportedAtOnce(hosts)
    decreases |hosts|
  {
    if hosts != [] {
      AtOnceOnly(Init(hosts), x);
      AtOnceOnlyOf(Last(hosts), x);
    }
  }

  lemma {:induction false} AtOnceOnlyOf(host: seq<Attempt>, x: int)
    ensures TimedOut(x) !in AtOnceOf(host)
    decreases |host|
  {
    if host != [] {
      AtOnceOnlyOf(Init(host), x);
    }
  }

  /** After one timeout the loop is blind: nothing is reported any more, whatever connects later. */
  lemma {:induction false} TimeoutIsFinal(hosts: seq<seq<Attempt>>, results: seq<set<int>>, k: nat, ok: int -> bool)
    requires Handed(hosts) && k <= |results| && Turns(hosts, results[..k], ok).timeouts > 0
    ensures Turns(hosts, results, ok).log == Turns(hosts, results[..k], ok).log
    ensures Turns(hosts, results, ok).wrfds == {} && Turns(hosts, results, ok).timeouts > 0
    decreases |results|
  {
    hide Created, Visited, Pending, Times, Reports, ReportReady, ResolvedLater;
    LoopInv(hosts, results, ok);
    if k < |results| {
      assert Init(results)[..k] == results[..k];
      TimeoutIsFinal(hosts, Init(results), k, ok);
    } else {
      assert results[..k] == results;
    }
  }

  // Concrete inputs

  lemma OnePending(fd: int)
    requires fd > 0
    ensures var hosts := [[InProgress(fd)]];
            && Handed(hosts) && AllVisited(hosts) && !HasNegative(Visited(hosts))
            && Pending(hosts) == {fd} && Created(hosts) == [fd] && Visited(hosts) == [fd]
  {
    var host := [InProgress(fd)];
    assert Init(host) == [] && Init([host]) == [];
    assert host[0] in host && PendingOf(host) == {fd};
    assert CreatedOf(host) == [fd] && SlotsOf(host) == [fd];
    assert Init([fd]) == [];
  }

  /** The first call of select times out and every later one returns the socket: it is reported as timed
      out all the same. */
  lemma TimeoutHidesSocket(fd: int, ok: int -> bool)
    requires fd > 0
    ensures var hosts := [[InProgress(fd)]];
            var results := [{}] + seq(TIMEOUT - 1, _ => {fd});
            var s := Turns(hosts, results, ok);
            && (forall k :: 1 <= k < |results| ==> fd in results[k])
            && Ended(s, |Created(hosts)|) && !RunUndefined(hosts, s)
            && TimedOut(fd) in AllReports(hosts, s) && Reports(AllReports(hosts, s), fd) == 1
  {
    hide Turns, AllReports, Reports, Handed;
    var hosts := [[InProgress(fd)]];
    var results := [{}] + seq(TIMEOUT - 1, _ => {fd});
    OnePending(fd);
    EndsWithin(hosts, results, ok);
    LoopInv(hosts, results, ok);
    VerdictOf(hosts, results, ok, fd);
    if k: nat :| NoticedBy(hosts, results, ok, fd, k) {
      assert k > 0 && results[..k][0] == {};
      FirstTimesOut(hosts, results[..k], ok);
    }
  }

  lemma FirstTimesOut(hosts: seq<seq<Attempt>>, results: seq<set<int>>, ok: int -> bool)
    requires Handed(hosts) && Pending(hosts) != {} && results != [] && results[0] == {}
    ensures Turns(hosts, results, ok).timeouts > 0
  {
    StartSizes(hosts);
    var first := results[..1];
    assert Init(first) == [] && Last(first) == {};
    assert Turns(hosts, [], ok) == Started(hosts);
    assert Last(first) * Started(hosts).wrfds == {};
    TimeoutIsFinal(hosts, results, 1, ok);
  }

  lemma HostSnoc(host: seq<Attempt>, a: Attempt)
    ensures CreatedOf(host + [a]) == CreatedOf(host) + if a.HasSocket() then [a.fd] else []
    ensures SlotsOf(host + [a]) == SlotsOf(host) + [SlotValue(a, |host|)]
    ensures PendingOf(host + [a]) == PendingOf(host) + if a.InProgress? then {a.fd} else {}
  {
    assert Init(host + [a]) == host;
    PendingSnoc(host, a);
  }

  lemma TimesSnoc(s: seq<int>, y: int, x: int)
    ensures Times(s + [y], x) == Times(s, x) + AsNat(y == x)
  {
    assert Init(s + [y]) == s;
  }

  lemma OneHost(host: seq<Attempt>)
    ensures Created([host]) == CreatedOf(host) && Visited([host]) == VisitedOf(host)
    ensures Pending([host]) == PendingOf(host)
  {
    assert Init([host]) == [];
  }

  /** A skipped address in slot 3, which holds 0, hides the socket in slot 4; no negative descriptor is
      tested on this input. */
  lemma SkippedHidesSocket(fd: int, ok: bool)
    requires fd > 3
    ensures var hosts := [[Immediate(1, ok), Immediate(2, ok), Immediate(3, ok), Unsupported, InProgress(fd)]];
            && Handed(hosts) && !AllVisited(hosts) && !HasNegative(Visited(hosts))
            && Visited(hosts) == [1, 2, 3, 0] && fd in Pending(hosts)
  {
    hide CreatedOf, SlotsOf, PendingOf, Times, Created, Visited, Pending;
    var h1 := [Immediate(1, ok)];
    var h2 := h1 + [Immediate(2, ok)];
    var h3 := h2 + [Immediate(3, ok)];
    var h4 := h3 + [Unsupported];
    var h5 := h4 + [InProgress(fd)];
    EmptyHost();
    HostSnoc([], Immediate(1, ok));
    assert [] + [Immediate(1, ok)] == h1;
    HostSnoc(h1, Immediate(2, ok));
    HostSnoc(h2, Immediate(3, ok));
    HostSnoc(h3, Unsupported);
    HostSnoc(h4, InProgress(fd));
    OneHost(h5);
    assert CreatedOf(h5) == [1, 2, 3, fd] && SlotsOf(h5) == [1, 2, 3, 0, fd];
    assert VisitedOf(h5) == [1, 2, 3, 0];
    forall x ensures Times([1, 2, 3, fd], x) <= 1 {
      TimesEmpty(x);
      TimesSnoc([], 1, x);
      TimesSnoc([1], 2, x);
      TimesSnoc([1, 2], 3, x);
      TimesSnoc([1, 2, 3], fd, x);
      assert [] + [1] == [1] && [1] + [2] == [1, 2] && [1, 2] + [3] == [1, 2, 3];
      assert [1, 2, 3] + [fd] == [1, 2, 3, fd];
    }
    assert h5 == [Immediate(1, ok), Immediate(2, ok), Immediate(3, ok), Unsupported, InProgress(fd)];
  }

  lemma EmptyHost()
    ensures CreatedOf([]) == [] && SlotsOf([]) == [] && PendingOf([]) == {}
  {
  }

  lemma TimesEmpty(x: int)
    ensures Times([], x) == 0
  {
  }

  /** A failed socket() for one host makes the program test descriptor -1 although every socket in
      progress is visited. */
  lemma FailedSocketTested(f: int, g: int, ok: bool)
    requires 0 < f < g
    ensures var hosts := [[NoSocket, Immediate(f, ok)], [InProgress(g)]];
            Handed(hosts) && AllVisited(hosts) && HasNegative(Visited(hosts))
  {
    hide CreatedOf, SlotsOf, PendingOf, Times;
    var h := [NoSocket, Immediate(f, ok)];
    var h' := [InProgress(g)];
    EmptyHost();
    HostSnoc([], NoSocket);
    HostSnoc([NoSocket], Immediate(f, ok));
    HostSnoc([], InProgress(g));
    assert [] + [NoSocket] == [NoSocket] && [NoSocket] + [Immediate(f, ok)] == h && [] + [InProgress(g)] == h';
    assert CreatedOf(h) == [f] && SlotsOf(h) == [-1, f] && CreatedOf(h') == [g] && SlotsOf(h') == [g];
    OneHost(h);
    assert Init([h, h']) == [h] && Last([h, h']) == h';
    assert VisitedOf(h) == [-1] && VisitedOf(h') == [g];
    assert Created([h, h']) == [f, g] && Visited([h, h']) == [-1, g];
    assert Visited([h, h'])[0] < 0 && Visited([h, h'])[1] == g;
    forall x ensures Times([f, g], x) <= 1 {
      TimesEmpty(x);
      TimesSnoc([], f, x);
      TimesSnoc([f], g, x);
      assert [] + [f] == [f] && [f] + [g] == [f, g];
    }
  }

  // The condition on the addresses

  /** A socket in a slot that is not visited is visited fewer times than it was created. */
  lemma HiddenInHost(host: seq<Attempt>, i: nat)
    requires |CreatedOf(host)| <= i < |host| && host[i].InProgress? && host[i].fd > 0
    ensures Times(VisitedOf(host), host[i].fd) < Times(CreatedOf(host), host[i].fd)
  {
    var k, x := |CreatedOf(host)|, host[i].fd;
    var rest := SlotsOf(host)[k..];
    SlotsHold(host, x);
    assert SlotsOf(host) == VisitedOf(host) + rest;
    TimesConcat(VisitedOf(host), rest, x);
    SlotAt(host, i);
    assert rest[i - k] == x;
    TimesIn(rest, x);
  }

  lemma {:induction false} SlotAt(host: seq<Attempt>, i: nat)
    requires i < |host|
    ensures SlotsOf(host)[i] == SlotValue(host[i], i)
    decreases |host|
  {
    if i < |host| - 1 {
      SlotAt(Init(host), i);
    }
  }

  lemma {:induction false} HiddenInHosts(hosts: seq<seq<Attempt>>, h: nat, i: nat)
    requires h < |hosts| && |CreatedOf(hosts[h])| <= i < |hosts[h]|
    requires hosts[h][i].InProgress? && hosts[h][i].fd > 0
    ensures Times(Visited(hosts), hosts[h][i].fd) < Times(Created(hosts), hosts[h][i].fd)
    decreases |hosts|
  {
    var x := hosts[h][i].fd;
    var before: seq<seq<Attempt>>, host: seq<Attempt> := Init(hosts), Last(hosts);
    TimesConcat(Visited(before), VisitedOf(host), x);
    TimesConcat(Created(before), CreatedOf(host), x);
    if h == |hosts| - 1 {
      HiddenInHost(host, i);
      VisitedAtMost(before, x);
    } else {
      HiddenInHosts(before, h, i);
      VisitedOfAtMost(host, x);
    }
  }

  lemma {:induction false} PendingAt(hosts: seq<seq<Attempt>>, x: int) returns (h: nat, i: nat)
    requires x in Pending(hosts)
    ensures h < |hosts| && i < |hosts[h]| && hosts[h][i] == InProgress(x)
    decreases |hosts|
  {
    if x in PendingOf(Last(hosts)) {
      h := |hosts| - 1;
      var a :| a in hosts[h] && a.InProgress? && a.fd == x;
      i :| 0 <= i < |hosts[h]| && hosts[h][i] == a;
    } else {
      h, i := PendingAt(Init(hosts), x);
    }
  }

  lemma {:induction false} PendingHas(hosts: seq<seq<Attempt>>, h: nat, i: nat)
    requires h < |hosts| && i < |hosts[h]| && hosts[h][i].InProgress?
    ensures hosts[h][i].fd in Pending(hosts)
    decreases |hosts|
  {
    if h == |hosts| - 1 {
      assert hosts[h][i] in Last(hosts);
    } else {
      PendingHas(Init(hosts), h, i);
    }
  }

  lemma {:induction false} VisitedHas(hosts: seq<seq<Attempt>>, h: nat, i: nat)
    requires h < |hosts| && i < |CreatedOf(hosts[h])|
    ensures SlotValue(hosts[h][i], i) in Visited(hosts)
    decreases |hosts|
  {
    if h == |hosts| - 1 {
      SlotAt(hosts[h], i);
      assert VisitedOf(hosts[h])[i] == SlotValue(hosts[h][i], i);
    } else {
      VisitedHas(Init(hosts), h, i);
    }
  }

  /** What "hidden" means on the addresses. */
  lemma AllVisitedExact(hosts: seq<seq<Attempt>>)
    requires Handed(hosts)
    ensures AllVisited(hosts) <==> PendingFirst(hosts)
  {
    if PendingFirst(hosts) {
      forall x | x in Pending(hosts) ensures x in Visited(hosts) {
        var h, i := PendingAt(hosts, x);
        VisitedHas(hosts, h, i);
      }
    }
    if AllVisited(hosts) {
      forall h, i | 0 <= h < |hosts| && 0 <= i < |hosts[h]| && hosts[h][i].InProgress?
        ensures i < |CreatedOf(hosts[h])|
      {
        var x := hosts[h][i].fd;
        PendingHas(hosts, h, i);
        PendingPositive(hosts);
        TimesIn(Visited(hosts), x);
        assert Times(Created(hosts), x) <= 1;
        if i >= |CreatedOf(hosts[h])| {
          HiddenInHosts(hosts, h, i);
        }
      }
    }
  }

  /** When every address yields a socket, all of them are visited and no slot is left at -1. */
  lemma NoSkipAllVisited(hosts: seq<seq<Attempt>>)
    requires Handed(hosts)
    requires forall h, i :: 0 <= h < |hosts| && 0 <= i < |hosts[h]| ==> hosts[h][i].HasSocket()
    ensures AllVisited(hosts) && Visited(hosts) == Created(hosts) && !HasNegative(Visited(hosts))
  {
    VisitedAll(hosts);
    forall x | x in Pending(hosts) ensures x in Visited(hosts) {
      PendingCreated(hosts, x);
    }
    forall i | 0 <= i < |Visited(hosts)| ensures Visited(hosts)[i] >= 0 {
      assert Created(hosts)[i] in Created(hosts);
    }
  }

  lemma {:induction false} VisitedAll(hosts: seq<seq<Attempt>>)
    requires forall h, i :: 0 <= h < |hosts| && 0 <= i < |hosts[h]| ==> hosts[h][i].HasSocket()
    ensures Visited(hosts) == Created(hosts)
    decreases |hosts|
  {
    if hosts != [] {
      var before: seq<seq<Attempt>>, host: seq<Attempt> := Init(hosts), Last(hosts);
      forall h, i | 0 <= h < |before| && 0 <= i < |before[h]| ensures before[h][i].HasSocket() {
        assert before[h] == hosts[h];
      }
      VisitedAll(before);
      SlotsAll(host);
    }
  }

  lemma {:induction false} SlotsAll(host: seq<Attempt>)
    requires forall i :: 0 <= i < |host| ==> host[i].HasSocket()
    ensures SlotsOf(host) == CreatedOf(host)
    decreases |host|
  {
    if host != [] {
      SlotsAll(Init(host));
    }
  }
}
