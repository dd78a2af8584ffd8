/** Bounded service of the event-select server: although every close makes the scan skip an entry, a client
    with something to do is served soon (AsynNotiEcho.cpp, lines 56-113). */
module EventService {
  import opened EventTable
  import opened EventMeaning

  /** x stays signalled until it is examined, so no pass starts behind it and its report has data or a
      close; and no pass ends in an error. */
  ghost predicate Waiting(t: Table, ps: seq<PassEnv>, x: Socket)
    requires ListenerFirst(t.socks)
    decreases |ps|
  {
    ps != [] ==>
      var r := RunPass(t, ps[0]);
      && (forall m :: At(t, x, m) ==> ps[0].start <= m)
      && !r.broke
      && (forall j :: 0 <= j < |r.examined| && r.examined[j] == x ==>
            ps[0].env(j).Signalled? && (ps[0].env(j).read == On || ps[0].env(j).close == On))
      && (x !in r.examined ==> Waiting(r.t, ps[1..], x))
  }

  /** The pass has examined the client x, which had data or a close; it has echoed to it if and only if
      there was data, and closed it if and only if there was a close. */
  ghost predicate Answered(r: Pass, env: nat -> Report, x: Socket) {
    exists j :: 0 <= j < |r.examined| && r.examined[j] == x && x.Client? && env(j).Signalled?
      && (env(j).read == On || env(j).close == On)
      && (env(j).read == On <==> x in r.echoed)
      && (env(j).close == On <==> x.id in r.t.closed)
  }

  ghost predicate ServedBy(t: Table, ps: seq<PassEnv>, x: Socket)
    requires ListenerFirst(t.socks)
    decreases |ps|
  {
    ps != [] && (Answered(RunPass(t, ps[0]), ps[0].env, x) || ServedBy(RunPass(t, ps[0]).t, ps[1..], x))
  }

  /** Whoever is examined with something to do is answered in the same pass. */
  lemma ExaminedAnswered(t: Table, p: PassEnv, x: Socket, j: nat)
    requires Inv(t) && ListenerFirst(t.socks) && !RunPass(t, p).broke && x.Client?
    requires j < |RunPass(t, p).examined| && RunPass(t, p).examined[j] == x
    requires p.env(j).Signalled? && (p.env(j).read == On || p.env(j).close == On)
    ensures Answered(RunPass(t, p), p.env, x)
  {
    hide Scan, Inv, ListenerFirst, RunPass;
    PassExact(t, p);
  }

  /** Bounded service despite skips: a client at index m that has data to read or has closed is served
      within m passes. */
  lemma {:induction false} BoundedService(t: Table, ps: seq<PassEnv>, x: Socket, m: nat)
    requires Inv(t) && ListenerFirst(t.socks) && At(t, x, m) && 1 <= m <= |ps| && Waiting(t, ps, x)
    ensures ServedBy(t, ps[..m], x)
    decreases m
  {
    hide Scan, Answered, MovedUp, Inv;
    var r := RunPass(t, ps[0]);
    ScanProgress(t, ps[0].start, ps[0].env, 0, x, m);
    ScanKeepsInv(t, ps[0].start, ps[0].env, 0);
    assert ps[..m][0] == ps[0] && ps[..m][1..] == ps[1..m];
    if x in r.examined {
      var j: nat :| j < |r.examined| && r.examined[j] == x;
      ExaminedAnswered(t, ps[0], x, j);
    } else {
      var m' := WhereTo(r.t, x, m);
      BoundedService(r.t, ps[1..], x, m');
      assert ps[1..][..m'] == ps[1..m' + 1] && ps[1..m' + 1] <= ps[1..m];
      ServedSooner(r.t, ps[1..m' + 1], ps[1..m], x);
    }
  }

  lemma WhereTo(t: Table, x: Socket, m: nat) returns (m': nat)
    requires MovedUp(t, x, m)
    ensures 1 <= m' < m && At(t, x, m')
  {
    m' :| 1 <= m' < m && At(t, x, m');
  }

  lemma {:induction false} ServedSooner(t: Table, ps: seq<PassEnv>, qs: seq<PassEnv>, x: Socket)
    requires ListenerFirst(t.socks) && ps <= qs && ServedBy(t, ps, x)
    ensures ServedBy(t, qs, x)
    decreases |ps|
  {
    hide Answered, RunPass;
    if !Answered(RunPass(t, ps[0]), ps[0].env, x) {
      ServedSooner(RunPass(t, ps[0]).t, ps[1..], qs[1..], x);
    }
  }

  // The bound is tight

  /** A pass that starts at `start`, where a close is reported. */
  function ClosingPass(start: nat): PassEnv {
    PassEnv(start, _ => Signalled(Off, Off, On))
  }

  /** Each pass closes the entry right in front of the last one. */
  function ClosingPasses(m: nat): seq<PassEnv> {
    if m <= 1 then [] else [ClosingPass(m - 1)] + ClosingPasses(m - 1)
  }

  /** What such a pass does to the last client. */
  lemma ClosingPassSkips(t: Table, m: nat)
    requires ListenerFirst(t.socks) && m >= 2 && |t.socks| == m + 1
    ensures RunPass(t, ClosingPass(m - 1)) == Pass(Dropped(t, m - 1), 1, [t.socks[m - 1]], [], false)
    ensures |Dropped(t, m - 1).socks| == m && Dropped(t, m - 1).socks[m - 1] == t.socks[m]
  {
    var p := ClosingPass(m - 1);
    var d := Dropped(t, m - 1);
    assert EffectOf(t.socks[m - 1], p.env(0)) == Closes && EchoOf(t.socks[m - 1], p.env(0)) == [];
    assert |d.socks| == m;
    hide EffectOf, EchoOf;
    assert Scan(d, m, p.env, 1) == Pass(d, 1, [], [], false);
  }

  /** For every m there is a run in which a client at index m waits, signalled, through m - 1 passes
      without being served. */
  lemma {:induction false} ServiceBoundTight(t: Table, m: nat)
    requires ListenerFirst(t.socks) && 1 <= m && |t.socks| == m + 1
    requires forall i, j :: 0 <= i < j < |t.socks| ==> t.socks[i] != t.socks[j]
    ensures |ClosingPasses(m)| == m - 1
    ensures Waiting(t, ClosingPasses(m), t.socks[m]) && !ServedBy(t, ClosingPasses(m), t.socks[m])
    decreases m
  {
    hide Scan, ClosingPass, RunPass;
    if m > 1 {
      var x := t.socks[m];
      var p := ClosingPass(m - 1);
      var d := Dropped(t, m - 1);
      ClosingPassSkips(t, m);
      ClosingStart(m - 1);
      assert ClosingPasses(m)[0] == p && ClosingPasses(m)[1..] == ClosingPasses(m - 1);
      ServiceBoundTight(d, m - 1);
    }
  }

  lemma ClosingStart(start: nat)
    ensures ClosingPass(start).start == start
  {
  }
}
