/** Many non-blocking connects at once (nbc.cpp): which sockets the loops over the slots come by, and
    what is reported about each socket. */
module ConnectSpec {
  import opened Utils

  const TIMEOUT := 10

  /** What starting a connect to one address of a host comes to. Two kinds of address are skipped: those
      of another family, and those for which socket() fails. */
  datatype Attempt = Unsupported | NoSocket | InProgress(fd: int) | Immediate(fd: int, ok: bool) {
    predicate HasSocket() { InProgress? || Immediate? }
  }

  datatype Verdict = AtOnce(fd: int, ok: bool) | Later(fd: int, ok: bool) | TimedOut(fd: int)

  // The attempts

  /** What slot i of a host starts with: -1 in the first three, which have initialisers, 0 in the rest. */
  function Untouched(i: nat): int { if i < 3 then -1 else 0 }

  /** What slot i holds after the attempt for it. An unsupported address leaves the slot as it was; a
      failed socket() leaves its -1 there. */
  function SlotValue(a: Attempt, i: nat): int {
    match a
    case Unsupported => Untouched(i)
    case NoSocket => -1
    case InProgress(fd) => fd
    case Immediate(fd, _) => fd
  }

  function SlotsOf(host: seq<Attempt>): (slots: seq<int>)
    ensures |slots| == |host|
  {
    if host == [] then [] else SlotsOf(Init(host)) + [SlotValue(Last(host), |host| - 1)]
  }

  /** The sockets created for one host, in order. */
  function CreatedOf(host: seq<Attempt>): (fds: seq<int>)
    ensures |fds| <= |host|
  {
    if host == [] then []
    else CreatedOf(Init(host)) + if Last(host).HasSocket() then [Last(host).fd] else []
  }

  /** The slots 0..numsock-1 of a host, which are those that the later loops visit. A skipped address
      uses up a slot but is not counted in numsock. */
  function VisitedOf(host: seq<Attempt>): seq<int> {
    SlotsOf(host)[..|CreatedOf(host)|]
  }

  function Created(hosts: seq<seq<Attempt>>): seq<int> {
    if hosts == [] then [] else Created(Init(hosts)) + CreatedOf(Last(hosts))
  }

  function Visited(hosts: seq<seq<Attempt>>): seq<int> {
    if hosts == [] then [] else Visited(Init(hosts)) + VisitedOf(Last(hosts))
  }

  function PendingOf(host: seq<Attempt>): set<int> {
    set a | a in host && a.InProgress? :: a.fd
  }

  /** The sockets whose connect is in progress when the select loop starts. */
  function Pending(hosts: seq<seq<Attempt>>): set<int> {
    if hosts == [] then {} else Pending(Init(hosts)) + PendingOf(Last(hosts))
  }

  function AtOnceOf(host: seq<Attempt>): seq<Verdict> {
    if host == [] then []
    else AtOnceOf(Init(host)) + if Last(host).Immediate? then [AtOnce(Last(host).fd, Last(host).ok)] else []
  }

  function ReportedAtOnce(hosts: seq<seq<Attempt>>): seq<Verdict> {
    if hosts == [] then [] else ReportedAtOnce(Init(hosts)) + AtOnceOf(Last(hosts))
  }

  /** How often x occurs in s. */
  function Times(s: seq<int>, x: int): nat {
    if s == [] then 0 else Times(Init(s), x) + AsNat(Last(s) == x)
  }

  ghost predicate NoDup(s: seq<int>) { forall x :: Times(s, x) <= 1 }

  /** What the kernel guarantees: it hands out no descriptor twice, none that is negative, and not 0,
      which is taken by the standard input. */
  ghost predicate Handed(hosts: seq<seq<Attempt>>) {
    NoDup(Created(hosts)) && forall x :: x in Created(hosts) ==> x > 0
  }

  /** How many verdicts there are about socket x. */
  function Reports(log: seq<Verdict>, x: int): nat {
    if log == [] then 0 else Reports(Init(log), x) + AsNat(Last(log).fd == x)
  }

  /** The sockets of the verdicts given in the select loop, in order. */
  function ResolvedLater(log: seq<Verdict>): seq<int> {
    if log == [] then []
    else ResolvedLater(Init(log)) + if Last(log).Later? then [Last(log).fd] else []
  }

  // The select loop

  /** `undefined` is set when FD_ISSET has been asked about a negative descriptor, which has no defined
      outcome. */
  datatype Loop = Loop(n: nat, timeouts: nat, wrfds: set<int>, orig: set<int>, log: seq<Verdict>,
                       closed: seq<int>, undefined: bool)

  function Started(hosts: seq<seq<Attempt>>): Loop {
    Loop(|ReportedAtOnce(hosts)|, 0, Pending(hosts), Pending(hosts), ReportedAtOnce(hosts), [], false)
  }

  /** What a pass does with one slot: a ready socket is reported, closed and crossed off. */
  function CheckSlot(fd: int, ready: set<int>, ok: int -> bool, s: Loop): Loop {
    if fd < 0 then s.(undefined := true)
    else if fd !in ready then s
    else s.(n := s.n + 1, orig := s.orig - {fd}, log := s.log + [Later(fd, ok(fd))], closed := s.closed + [fd])
  }

  /** One pass over the visited slots. */
  function ReportReady(slots: seq<int>, ready: set<int>, ok: int -> bool, s: Loop): Loop {
    if slots == [] then s
    else CheckSlot(Last(slots), ready, ok, ReportReady(Init(slots), ready, ok, s))
  }

  predicate Ended(s: Loop, total: nat) { s.n == total || s.timeouts == TIMEOUT }

  /** One turn of the loop, in which select leaves the set `ready` in wrfds; it is empty exactly when
      select timed out, and then wrfds stays empty. */
  function Turn(slots: seq<int>, ready: set<int>, ok: int -> bool, s: Loop): Loop {
    if ready == {} then s.(wrfds := {}, timeouts := s.timeouts + 1)
    else
      var t := ReportReady(slots, ready, ok, s);
      t.(wrfds := t.orig)
  }

  /** The loop on the given results of select; a result can only hold sockets that were asked for. */
  function Turns(hosts: seq<seq<Attempt>>, results: seq<set<int>>, ok: int -> bool): Loop {
    if results == [] then Started(hosts)
    else
      var s := Turns(hosts, Init(results), ok);
      if Ended(s, |Created(hosts)|) then s
      else Turn(Visited(hosts), Last(results) * s.wrfds, ok, s)
  }

  /** The report after the loop. */
  function ReportRest(slots: seq<int>, orig: set<int>): seq<Verdict> {
    if slots == [] then []
    else ReportRest(Init(slots), orig)
         + if Last(slots) >= 0 && Last(slots) in orig then [TimedOut(Last(slots))] else []
  }

  function AllReports(hosts: seq<seq<Attempt>>, s: Loop): seq<Verdict> {
    s.log + ReportRest(Visited(hosts), s.orig)
  }

  predicate HasNegative(slots: seq<int>) { exists i :: 0 <= i < |slots| && slots[i] < 0 }

  /** The report after the loop visits every slot, too. */
  predicate RunUndefined(hosts: seq<seq<Attempt>>, s: Loop) {
    s.undefined || HasNegative(Visited(hosts))
  }

  /** No socket in progress hides behind a skipped address. */
  predicate AllVisited(hosts: seq<seq<Attempt>>) {
    forall fd :: fd in Pending(hosts) ==> fd in Visited(hosts)
  }

  /** The same on the addresses: with k sockets created for a host, every attempt of that host that is
      in progress is among its first k. */
  predicate PendingFirst(hosts: seq<seq<Attempt>>) {
    forall h, i :: 0 <= h < |hosts| && 0 <= i < |hosts[h]| && hosts[h][i].InProgress? ==> i < |CreatedOf(hosts[h])|
  }

  // Counting

  lemma {:induction false} TimesConcat(a: seq<int>, b: seq<int>, x: int)
    ensures Times(a + b, x) == Times(a, x) + Times(b, x)
    decreases |b|
  {
    if b == [] {
      assert a + b == a;
    } else {
      assert Init(a + b) == a + Init(b);
      TimesConcat(a, Init(b), x);
    }
  }

  lemma {:induction false} ReportsConcat(a: seq<Verdict>, b: seq<Verdict>, x: int)
    ensures Reports(a + b, x) == Reports(a, x) + Reports(b, x)
    decreases |b|
  {
    if b == [] {
      assert a + b == a;
    } else {
      assert Init(a + b) == a + Init(b);
      ReportsConcat(a, Init(b), x);
    }
  }

  lemma {:induction false} TimesIn(s: seq<int>, x: int)
    ensures Times(s, x) > 0 <==> x in s
    decreases |s|
  {
    if s != [] {
      TimesIn(Init(s), x);
      assert s == Init(s) + [Last(s)];
    }
  }

  lemma NoDupConcat(a: seq<int>, b: seq<int>)
    requires NoDup(a + b)
    ensures NoDup(a) && NoDup(b)
  {
    forall x ensures Times(a, x) <= 1 && Times(b, x) <= 1 {
      TimesConcat(a, b, x);
    }
  }

  lemma NoDupApart(a: seq<int>, b: seq<int>, x: int)
    requires NoDup(a + b) && x in a
    ensures x !in b
  {
    TimesConcat(a, b, x);
    TimesIn(a, x);
    TimesIn(b, x);
  }

  // Where the select loop starts

  /** One host: each of its sockets has been reported at once or is in progress. */
  lemma {:induction false} HostConserved(host: seq<Attempt>, x: int)
    requires Times(CreatedOf(host), x) <= 1
    ensures Reports(AtOnceOf(host), x) + AsNat(x in PendingOf(host)) == Times(CreatedOf(host), x)
    decreases |host|
  {
    if host != [] {
      var before, a := Init(host), Last(host);
      assert host == before + [a];
      TimesConcat(CreatedOf(before), if a.HasSocket() then [a.fd] else [], x);
      HostConserved(before, x);
      ReportsConcat(AtOnceOf(before), if a.Immediate? then [AtOnce(a.fd, a.ok)] else [], x);
      assert x in PendingOf(host) <==> x in PendingOf(before) || (a.InProgress? && a.fd == x);
    }
  }

  lemma PendingSnoc(before: seq<Attempt>, a: Attempt)
    ensures PendingOf(before + [a]) == PendingOf(before) + if a.InProgress? then {a.fd} else {}
  {
  }

  lemma NotYetPending(before: seq<Attempt>, fd: int)
    requires NoDup(CreatedOf(before) + [fd])
    ensures fd !in PendingOf(before)
  {
    NoDupConcat(CreatedOf(before), [fd]);
    HostConserved(before, fd);
    TimesIn(CreatedOf(before), fd);
    if fd in CreatedOf(before) {
      NoDupApart(CreatedOf(before), [fd], fd);
    }
  }

  lemma {:induction false} HostSizes(host: seq<Attempt>)
    requires NoDup(CreatedOf(host))
    ensures |AtOnceOf(host)| + |PendingOf(host)| == |CreatedOf(host)|
    ensures ResolvedLater(AtOnceOf(host)) == []
    decreases |host|
  {
    hide NoDup, PendingOf;
    if host == [] {
      assert PendingOf(host) == {} by { NonePending(); }
    } else {
      var before, a := Init(host), Last(host);
      assert host == before + [a];
      PendingSnoc(before, a);
      NoDupConcat(CreatedOf(before), if a.HasSocket() then [a.fd] else []);
      HostSizes(before);
      if a.InProgress? {
        NotYetPending(before, a.fd);
      }
      if !a.Immediate? {
        assert AtOnceOf(host) == AtOnceOf(before);
      }
    }
  }

  lemma NonePending()
    ensures PendingOf([]) == {}
  {
  }

  /** All hosts. */
  lemma {:induction false} StartConserved(hosts: seq<seq<Attempt>>, x: int)
    requires NoDup(Created(hosts))
    ensures Reports(ReportedAtOnce(hosts), x) + AsNat(x in Pending(hosts)) == Times(Created(hosts), x)
    decreases |hosts|
  {
    if hosts != [] {
      var before: seq<seq<Attempt>>, h: seq<Attempt> := Init(hosts), Last(hosts);
      NoDupConcat(Created(before), CreatedOf(h));
      StartConserved(before, x);
      HostConserved(h, x);
      TimesConcat(Created(before), CreatedOf(h), x);
      ReportsConcat(ReportedAtOnce(before), AtOnceOf(h), x);
      assert Times(Created(hosts), x) <= 1;
    }
  }

  lemma {:induction false} StartSizes(hosts: seq<seq<Attempt>>)
    requires NoDup(Created(hosts))
    ensures |ReportedAtOnce(hosts)| + |Pending(hosts)| == |Created(hosts)|
    ensures ResolvedLater(ReportedAtOnce(hosts)) == []
    decreases |hosts|
  {
    if hosts != [] {
      var before: seq<seq<Attempt>>, h: seq<Attempt> := Init(hosts), Last(hosts);
      NoDupConcat(Created(before), CreatedOf(h));
      StartSizes(before);
      HostSizes(h);
      forall x | x in Pending(before) ensures x !in PendingOf(h) {
        StartConserved(before, x);
        TimesIn(Created(before), x);
        NoDupApart(Created(before), CreatedOf(h), x);
        HostConserved(h, x);
        TimesIn(CreatedOf(h), x);
      }
      assert Pending(before) !! PendingOf(h);
      ResolvedConcat(ReportedAtOnce(before), AtOnceOf(h));
    }
  }

  lemma {:induction false} ResolvedConcat(a: seq<Verdict>, b: seq<Verdict>)
    ensures ResolvedLater(a + b) == ResolvedLater(a) + ResolvedLater(b)
    decreases |b|
  {
    if b == [] {
      assert a + b == a;
    } else {
      assert Init(a + b) == a + Init(b);
      ResolvedConcat(a, Init(b));
    }
  }

  lemma PendingCreated(hosts: seq<seq<Attempt>>, x: int)
    requires NoDup(Created(hosts)) && x in Pending(hosts)
    ensures x in Created(hosts)
  {
    StartConserved(hosts, x);
    TimesIn(Created(hosts), x);
  }

  // The slots that are visited

  /** A socket stands in the slots of its host as often as it was created for it. */
  lemma {:induction false} SlotsHold(host: seq<Attempt>, x: int)
    requires x > 0
    ensures Times(SlotsOf(host), x) == Times(CreatedOf(host), x)
    decreases |host|
  {
    if host != [] {
      var before, a := Init(host), Last(host);
      SlotsHold(before, x);
      TimesConcat(SlotsOf(before), [SlotValue(a, |host| - 1)], x);
      TimesConcat(CreatedOf(before), if a.HasSocket() then [a.fd] else [], x);
      assert Init([SlotValue(a, |host| - 1)]) == [];
    }
  }

  lemma VisitedOfAtMost(host: seq<Attempt>, x: int)
    requires x > 0
    ensures Times(VisitedOf(host), x) <= Times(CreatedOf(host), x)
  {
    var k := |CreatedOf(host)|;
    SlotsHold(host, x);
    assert SlotsOf(host) == VisitedOf(host) + SlotsOf(host)[k..];
    TimesConcat(VisitedOf(host), SlotsOf(host)[k..], x);
  }

  lemma {:induction false} VisitedAtMost(hosts: seq<seq<Attempt>>, x: int)
    requires x > 0
    ensures Times(Visited(hosts), x) <= Times(Created(hosts), x)
    decreases |hosts|
  {
    if hosts != [] {
      var before: seq<seq<Attempt>>, h: seq<Attempt> := Init(hosts), Last(hosts);
      VisitedAtMost(before, x);
      VisitedOfAtMost(h, x);
      TimesConcat(Visited(before), VisitedOf(h), x);
      TimesConcat(Created(before), CreatedOf(h), x);
    }
  }

  /** No socket is visited twice in a pass. */
  ghost predicate OnceEach(slots: seq<int>) { forall x :: x > 0 ==> Times(slots, x) <= 1 }

  lemma VisitedOnce(hosts: seq<seq<Attempt>>)
    requires NoDup(Created(hosts))
    ensures OnceEach(Visited(hosts))
  {
    forall x | x > 0 ensures Times(Visited(hosts), x) <= 1 {
      VisitedAtMost(hosts, x);
      assert Times(Created(hosts), x) <= 1;
    }
  }

  lemma PendingPositive(hosts: seq<seq<Attempt>>)
    requires Handed(hosts)
    ensures forall x :: x in Pending(hosts) ==> x > 0
  {
    forall x | x in Pending(hosts) ensures x > 0 {
      PendingCreated(hosts, x);
    }
  }
}
