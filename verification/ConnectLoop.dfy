/** The program as it runs: slots of sockets per host, two descriptor sets and two counters, updated by
    loops over the hosts and their slots (nbc.cpp). */
module ConnectLoop {
  import opened Utils
  import opened ConnectSpec
  import opened ConnectRuns

  /** A host's row of the table before anything is started. */
  function EmptySlots(host: seq<Attempt>): seq<int> {
    seq(|host|, i requires 0 <= i < |host| => Untouched(i))
  }

  lemma HostPrefix(host: seq<Attempt>, i: nat)
    requires i < |host|
    ensures var a := host[i];
            && CreatedOf(host[..i + 1]) == CreatedOf(host[..i]) + (if a.HasSocket() then [a.fd] else [])
            && SlotsOf(host[..i + 1]) == SlotsOf(host[..i]) + [SlotValue(a, i)]
            && PendingOf(host[..i + 1]) == PendingOf(host[..i]) + (if a.InProgress? then {a.fd} else {})
            && AtOnceOf(host[..i + 1]) == AtOnceOf(host[..i]) + (if a.Immediate? then [AtOnce(a.fd, a.ok)] else [])
  {
    assert Init(host[..i + 1]) == host[..i] && host[..i + 1] == host[..i] + [host[i]];
    PendingSnoc(host[..i], host[i]);
  }

  lemma HostsPrefix(hosts: seq<seq<Attempt>>, h: nat)
    requires h < |hosts|
    ensures Created(hosts[..h + 1]) == Created(hosts[..h]) + CreatedOf(hosts[h])
    ensures Visited(hosts[..h + 1]) == Visited(hosts[..h]) + VisitedOf(hosts[h])
    ensures Pending(hosts[..h + 1]) == Pending(hosts[..h]) + PendingOf(hosts[h])
    ensures ReportedAtOnce(hosts[..h + 1]) == ReportedAtOnce(hosts[..h]) + AtOnceOf(hosts[h])
  {
    assert Init(hosts[..h + 1]) == hosts[..h];
  }

  /** The table when the first h hosts have been started: the other rows are untouched. */
  ghost predicate RowsTo(hosts: seq<seq<Attempt>>, sockets: seq<seq<int>>, numsock: seq<nat>, h: nat) {
    && |sockets| == |numsock| == |hosts|
    && (forall k :: 0 <= k < |hosts| ==> sockets[k] == if k < h then SlotsOf(hosts[k]) else EmptySlots(hosts[k]))
    && (forall k :: 0 <= k < |hosts| ==> numsock[k] == if k < h then |CreatedOf(hosts[k])| else 0)
  }

  lemma RowsNext(hosts: seq<seq<Attempt>>, sockets: seq<seq<int>>, numsock: seq<nat>, h: nat)
    requires h < |hosts| && RowsTo(hosts, sockets, numsock, h)
    ensures |sockets| == |numsock| == |hosts| && sockets[h] == EmptySlots(hosts[h]) && numsock[h] == 0
    ensures RowsTo(hosts, sockets[h := SlotsOf(hosts[h])], numsock[h := |CreatedOf(hosts[h])|], h + 1)
  {
  }

  lemma RowsAt(hosts: seq<seq<Attempt>>, sockets: seq<seq<int>>, numsock: seq<nat>, h: nat)
    requires h < |hosts| && RowsTo(hosts, sockets, numsock, |hosts|)
    ensures |sockets| == |numsock| == |hosts|
    ensures sockets[h] == SlotsOf(hosts[h]) && numsock[h] == |CreatedOf(hosts[h])| <= |sockets[h]|
  {
  }

  /** A host's row when the attempts for its first i addresses have been made. */
  function RowTo(host: seq<Attempt>, i: nat): (row: seq<int>)
    requires i <= |host|
    ensures |row| == |host|
  {
    SlotsOf(host[..i]) + EmptySlots(host)[i..]
  }

  lemma RowNext(host: seq<Attempt>, i: nat)
    requires i < |host|
    ensures RowTo(host, i + 1) == RowTo(host, i)[i := SlotValue(host[i], i)]
    ensures host[i].Unsupported? ==> RowTo(host, i + 1) == RowTo(host, i)
  {
    HostPrefix(host, i);
  }

  lemma RowEnds(host: seq<Attempt>)
    ensures RowTo(host, 0) == EmptySlots(host) && RowTo(host, |host|) == SlotsOf(host)
  {
    assert host[..|host|] == host;
  }

  lemma NothingYet()
    ensures Created([]) == [] && Pending([]) == {} && ReportedAtOnce([]) == [] && Visited([]) == []
    ensures CreatedOf([]) == [] && SlotsOf([]) == [] && PendingOf([]) == {} && AtOnceOf([]) == []
  {
  }

  /** One more slot in a pass. */
  lemma PassPrefix(before: seq<int>, row: seq<int>, i: nat, ready: set<int>, ok: int -> bool, s: Loop)
    requires i < |row|
    ensures ReportReady(before + row[..i + 1], ready, ok, s)
         == CheckSlot(row[i], ready, ok, ReportReady(before + row[..i], ready, ok, s))
  {
    assert Init(before + row[..i + 1]) == before + row[..i];
  }

  /** One more slot in the report after the loop. */
  lemma RestPrefix(before: seq<int>, row: seq<int>, i: nat, orig: set<int>)
    requires i < |row|
    ensures ReportRest(before + row[..i + 1], orig)
         == ReportRest(before + row[..i], orig) + if row[i] >= 0 && row[i] in orig then [TimedOut(row[i])] else []
  {
    assert Init(before + row[..i + 1]) == before + row[..i];
  }

  lemma NegativePrefix(before: seq<int>, row: seq<int>, i: nat)
    requires i < |row|
    ensures HasNegative(before + row[..i + 1]) <==> HasNegative(before + row[..i]) || row[i] < 0
  {
    var shorter, longer := before + row[..i], before + row[..i + 1];
    assert longer == shorter + [row[i]];
    if k :| 0 <= k < |shorter| && shorter[k] < 0 {
      assert longer[k] < 0;
    }
    if row[i] < 0 {
      assert longer[|shorter|] < 0;
    }
  }

  class Connector {
    const hosts: seq<seq<Attempt>>
    var sockets: seq<seq<int>>
    var numsock: seq<nat>
    var n: nat
    var numSockets: nat
    var timeouts: nat
    var wrfds: set<int>
    var wrfdsOrig: set<int>
    var log: seq<Verdict>
    var closed: seq<int>
    var undefined: bool

    ghost function State(): Loop
      reads this
    {
      Loop(n, timeouts, wrfds, wrfdsOrig, log, closed, undefined)
    }

    ghost predicate FilledTo(h: nat)
      reads this
    {
      RowsTo(hosts, sockets, numsock, h)
    }

    ghost predicate Filled()
      reads this
    {
      FilledTo(|hosts|) && numSockets == |Created(hosts)|
    }

    ghost predicate New()
      reads this
    {
      FilledTo(0) && numSockets == 0 && State() == Loop(0, 0, {}, {}, [], [], false)
    }

    constructor (hosts: seq<seq<Attempt>>)
      ensures this.hosts == hosts && New()
    {
      this.hosts := hosts;
      sockets := seq(|hosts|, h requires 0 <= h < |hosts| => EmptySlots(hosts[h]));
      numsock := seq(|hosts|, _ => 0);
      n, numSockets, timeouts := 0, 0, 0;
      wrfds, wrfdsOrig := {}, {};
      log, closed := [], [];
      undefined := false;
    }

    /** Starting the connects to the addresses of one host. */
    method StartHost(h: nat)
      requires h < |hosts| && FilledTo(h)
      modifies `sockets, `numsock, `numSockets, `wrfds, `log, `n
      ensures FilledTo(h + 1) && numSockets == old(numSockets) + |CreatedOf(hosts[h])|
      ensures wrfds == old(wrfds) + PendingOf(hosts[h])
      ensures log == old(log) + AtOnceOf(hosts[h]) && n == old(n) + |AtOnceOf(hosts[h])|
    {
      hide CreatedOf, PendingOf, AtOnceOf, SlotsOf, RowsTo, RowTo, EmptySlots;
      var host := hosts[h];
      RowsNext(hosts, sockets, numsock, h);
      RowEnds(host);
      NothingYet();
      var i := 0;
      while i < |host|
        invariant 0 <= i <= |host|
        invariant sockets == old(sockets)[h := RowTo(host, i)]
        invariant numsock == old(numsock)[h := |CreatedOf(host[..i])|]
        invariant numSockets == old(numSockets) + |CreatedOf(host[..i])|
        invariant wrfds == old(wrfds) + PendingOf(host[..i])
        invariant log == old(log) + AtOnceOf(host[..i]) && n == old(n) + |AtOnceOf(host[..i])|
      {
        HostPrefix(host, i);
        RowNext(host, i);
        var a := host[i];
        i := i + 1;
        if a.Unsupported? {
          continue;
        }
        sockets := sockets[h := sockets[h][i - 1 := SlotValue(a, i - 1)]];
        assert sockets == old(sockets)[h := RowTo(host, i)];
        if a.NoSocket? {
          continue;
        }
        numsock := numsock[h := numsock[h] + 1];
        if a.InProgress? {
          wrfds := wrfds + {a.fd};
        } else {
          log := log + [AtOnce(a.fd, a.ok)];
          n := n + 1;
        }
        numSockets := numSockets + 1;
      }
      assert host[..i] == host;
    }

    /** Starting all connects; wrfds_orig is a copy of the set this leaves. */
    method Initiate()
      requires New()
      modifies this
      ensures Filled() && State() == Started(hosts)
    {
      hide CreatedOf, PendingOf, AtOnceOf, SlotsOf, Created, Pending, ReportedAtOnce, Visited;
      NothingYet();
      var h := 0;
      while h < |hosts|
        invariant 0 <= h <= |hosts| && FilledTo(h) && timeouts == 0 && closed == [] && !undefined
        invariant numSockets == |Created(hosts[..h])| && wrfds == Pending(hosts[..h])
        invariant log == ReportedAtOnce(hosts[..h]) && n == |log|
      {
        StartHost(h);
        HostsPrefix(hosts, h);
        h := h + 1;
      }
      assert hosts[..h] == hosts;
      wrfdsOrig := wrfds;
    }

    /** The pass over all hosts after select has returned with some socket ready. */
    method CheckAll(ok: int -> bool)
      requires Filled()
      modifies `n, `wrfdsOrig, `log, `closed, `undefined
      ensures State() == ReportReady(Visited(hosts), wrfds, ok, old(State()))
    {
      hide CreatedOf, SlotsOf, Created, Visited, ReportReady, RowsTo;
      ghost var s := State();
      NothingYet();
      NothingReported(wrfds, ok, s);
      var h := 0;
      while h < |hosts|
        invariant 0 <= h <= |hosts|
        invariant State() == ReportReady(Visited(hosts[..h]), wrfds, ok, s)
      {
        RowsAt(hosts, sockets, numsock, h);
        ghost var before := Visited(hosts[..h]);
        ghost var row := sockets[h];
        assert before + row[..0] == before;
        var i := 0;
        while i < numsock[h]
          invariant 0 <= i <= numsock[h] <= |row|
          invariant State() == ReportReady(before + row[..i], wrfds, ok, s)
        {
          PassPrefix(before, row, i, wrfds, ok, s);
          var fd := sockets[h][i];
          i := i + 1;
          if fd < 0 {
            undefined := true;
            continue;
          }
          if fd !in wrfds {
            continue;
          }
          log := log + [Later(fd, ok(fd))];
          wrfdsOrig := wrfdsOrig - {fd};
          closed := closed + [fd];
          n := n + 1;
        }
        HostsPrefix(hosts, h);
        h := h + 1;
      }
      assert hosts[..h] == hosts;
    }

    lemma NothingReported(ready: set<int>, ok: int -> bool, s: Loop)
      ensures ReportReady([], ready, ok, s) == s
    {
    }

    /** The select loop on the results of as many calls of select as there are, or until it ends. */
    method SelectLoop(results: seq<set<int>>, ok: int -> bool)
      requires Filled() && State() == Started(hosts)
      modifies `n, `timeouts, `wrfds, `wrfdsOrig, `log, `closed, `undefined
      ensures State() == Turns(hosts, results, ok)
    {
      hide ReportReady, Created, Visited, Pending, ReportedAtOnce;
      var k := 0;
      while n != numSockets && k < |results|
        invariant 0 <= k <= |results| && State() == Turns(hosts, results[..k], ok) && timeouts < TIMEOUT
        decreases |results| - k
      {
        assert Init(results[..k + 1]) == results[..k];
        // select leaves in wrfds the sockets that are ready among those asked for
        wrfds := results[k] * wrfds;
        k := k + 1;
        if wrfds == {} {
          timeouts := timeouts + 1;
          if timeouts == TIMEOUT {
            EndedStays(hosts, results, k, ok);
            return;
          }
          continue;
        }
        ghost var s := State();
        CheckAll(ok);
        OtherFields(Visited(hosts), wrfds, ok, s, Turns(hosts, results[..k - 1], ok).wrfds);
        wrfds := wrfdsOrig;
      }
      EndedStays(hosts, results, k, ok);
    }

    /** A pass does not look at wrfds once select has returned, only at what is ready. */
    lemma {:induction false} OtherFields(slots: seq<int>, ready: set<int>, ok: int -> bool, s: Loop, w: set<int>)
      ensures ReportReady(slots, ready, ok, s.(wrfds := w)) == ReportReady(slots, ready, ok, s).(wrfds := w)
      ensures ReportReady(slots, ready, ok, s).timeouts == s.timeouts
      decreases |slots|
    {
      if slots != [] {
        OtherFields(Init(slots), ready, ok, s, w);
      }
    }

    lemma {:induction false} EndedStays(hosts: seq<seq<Attempt>>, results: seq<set<int>>, k: nat, ok: int -> bool)
      requires k <= |results|
      requires k == |results| || Ended(Turns(hosts, results[..k], ok), |Created(hosts)|)
      ensures Turns(hosts, results, ok) == Turns(hosts, results[..k], ok)
      decreases |results|
    {
      hide Turn, Started;
      if k < |results| {
        assert Init(results)[..k] == results[..k];
        EndedStays(hosts, Init(results), k, ok);
      } else {
        assert results[..k] == results;
      }
    }

    /** The report about those that are left. */
    method ReportTimedOut()
      requires Filled()
      modifies `log, `undefined
      ensures log == old(log) + ReportRest(Visited(hosts), wrfdsOrig)
      ensures undefined == (old(undefined) || HasNegative(Visited(hosts)))
    {
      hide CreatedOf, SlotsOf, Created, Visited, ReportRest, HasNegative, RowsTo;
      NothingYet();
      NothingLeft(log, wrfdsOrig);
      var h := 0;
      while h < |hosts|
        invariant 0 <= h <= |hosts|
        invariant log == old(log) + ReportRest(Visited(hosts[..h]), wrfdsOrig)
        invariant undefined == (old(undefined) || HasNegative(Visited(hosts[..h])))
      {
        RowsAt(hosts, sockets, numsock, h);
        ghost var before := Visited(hosts[..h]);
        ghost var row := sockets[h];
        assert before + row[..0] == before;
        var i := 0;
        while i < numsock[h]
          invariant 0 <= i <= numsock[h] <= |row|
          invariant log == old(log) + ReportRest(before + row[..i], wrfdsOrig)
          invariant undefined == (old(undefined) || HasNegative(before + row[..i]))
        {
          RestPrefix(before, row, i, wrfdsOrig);
          NegativePrefix(before, row, i);
          var fd := sockets[h][i];
          if fd < 0 {
            undefined := true;
          } else if fd in wrfdsOrig {
            log := log + [TimedOut(fd)];
          }
          i := i + 1;
        }
        HostsPrefix(hosts, h);
        h := h + 1;
      }
      assert hosts[..h] == hosts;
    }

    lemma NothingLeft(log: seq<Verdict>, orig: set<int>)
      ensures log + ReportRest([], orig) == log
      ensures !HasNegative([])
    {
    }

    /** The whole program. It is defined and gives every created socket exactly one verdict if and only
        if no socket in progress hides behind a skipped address and no visited slot is left at -1. Those
        resolved in the loop have been closed once. */
    method Run(results: seq<set<int>>, ok: int -> bool)
      requires Handed(hosts) && New()
      modifies this
      ensures log == AllReports(hosts, Turns(hosts, results, ok))
      ensures undefined == RunUndefined(hosts, Turns(hosts, results, ok))
      ensures !undefined && OneEach(hosts, log) <==> AllVisited(hosts) && !HasNegative(Visited(hosts))
      ensures closed == ResolvedLater(Turns(hosts, results, ok).log)
    {
      hide Handed, Created, Turns, AllVisited, Reports, Times, Visited, HasNegative, ReportRest;
      Initiate();
      SelectLoop(results, ok);
      ReportTimedOut();
      LoopInv(hosts, results, ok);
      OneVerdictEach(hosts, results, ok);
    }
  }
}
