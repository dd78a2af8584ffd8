/** One pass of the event-select server in terms of what the events report, entry by entry: who is
    echoed to, who is closed, what is accepted, and which entries are examined at all. */
module EventMeaning {
  import opened EventTable

  /** The order of the table: the listener, then the clients in the order of acceptance. */
  function Rank(s: Socket): nat {
    match s
    case Listener => 0
    case Client(id) => id + 1
  }

  lemma LiveExact(n: nat, closed: set<nat>, s: Socket)
    ensures s in Live(n, closed) <==> s.Client? && s.id < n && s.id !in closed
  {
    if n > 0 {
      LiveExact(n - 1, closed, s);
    }
  }

  /** The sockets of a table are those it should have, in order. */
  lemma InvExact(t: Table)
    requires Inv(t)
    ensures ListenerFirst(t.socks)
    ensures forall s :: s in t.socks <==> s == Listener || (s.id < t.accepted && s.id !in t.closed)
    ensures forall a, b :: 0 <= a < b < |t.socks| ==> Rank(t.socks[a]) < Rank(t.socks[b])
  {
    InvListenerFirst(t);
    LiveClients(t.accepted, t.closed);
    forall s ensures s in t.socks <==> s == Listener || (s.id < t.accepted && s.id !in t.closed) {
      LiveExact(t.accepted, t.closed, s);
    }
  }

  /** What has been examined, when it is the rest of a scan behind s. */
  lemma NextBehind(t: Table, i: nat, r: Report)
    requires Inv(t) && ListenerFirst(t.socks) && i < |t.socks|
    ensures var n := Next(t, i, r);
            && (forall k :: i + 1 <= k < |n.socks| ==> Rank(t.socks[i]) < Rank(n.socks[k]))
            && Rank(t.socks[i]) <= t.accepted <= n.accepted
  {
    hide EffectOf;
    InvExact(t);
    assert t.socks[i] in t.socks;
  }

  /** In order, and all behind lo. */
  ghost predicate Above(lo: nat, ex: seq<Socket>) {
    && (forall j :: 0 <= j < |ex| ==> lo < Rank(ex[j]))
    && (forall a, b :: 0 <= a < b < |ex| ==> Rank(ex[a]) < Rank(ex[b]))
  }

  lemma AboveOn(lo: nat, s: Socket, ex: seq<Socket>)
    requires lo < Rank(s) && Above(Rank(s), ex)
    ensures Above(lo, [s] + ex)
  {
    hide Rank;
    assert forall j :: 0 < j <= |ex| ==> ([s] + ex)[j] == ex[j - 1];
  }

  /** Entries are examined in the order of the table, so none twice. */
  lemma {:induction false} ExaminedInOrder(t: Table, i: nat, env: nat -> Report, time: nat, lo: nat)
    requires Inv(t) && ListenerFirst(t.socks) && lo <= t.accepted
    requires forall k :: i <= k < |t.socks| ==> lo < Rank(t.socks[k])
    ensures Above(lo, Scan(t, i, env, time).examined)
    decreases i == 0, |t.socks| - i
  {
    hide EffectOf, EchoOf, Next, Inv, ListenerFirst, Rank;
    if i < |t.socks| && EffectOf(t.socks[i], env(time)) != Breaks {
      NextInv(t, i, env(time));
      NextBehind(t, i, env(time));
      ExaminedInOrder(Next(t, i, env(time)), i + 1, env, time + 1, Rank(t.socks[i]));
      AboveOn(lo, t.socks[i], Scan(Next(t, i, env(time)), i + 1, env, time + 1).examined);
    }
  }

  /** Entries in front of the scan are smaller than what it examines. */
  lemma ExaminedBehind(t: Table, i: nat, env: nat -> Report, time: nat)
    requires Inv(t) && ListenerFirst(t.socks) && 0 < i <= |t.socks|
    ensures t.socks[i - 1] !in Scan(t, i, env, time).examined
  {
    hide Scan, Inv, Rank;
    InvExact(t);
    assert t.socks[i - 1] in t.socks;
    assert Rank(t.socks[i - 1]) <= t.accepted by { RankBound(t, t.socks[i - 1]); }
    ExaminedInOrder(t, i, env, time, Rank(t.socks[i - 1]));
  }

  lemma RankBound(t: Table, s: Socket)
    requires Inv(t) && s in t.socks
    ensures Rank(s) <= t.accepted
  {
    InvExact(t);
  }

  // What the reports of a scan come to, entry by entry

  /** The j-th examination is of x, and its report has data; or a close, with no error on reading. */
  predicate ReadAt(ex: seq<Socket>, env: nat -> Report, time: nat, x: Socket, j: nat) {
    j < |ex| && ex[j] == x && x.Client? && env(time + j).Signalled? && env(time + j).read == On
  }

  predicate ClosedAt(ex: seq<Socket>, env: nat -> Report, time: nat, x: Socket, j: nat) {
    && j < |ex| && ex[j] == x && x.Client?
    && env(time + j).Signalled? && env(time + j).close == On && env(time + j).read != Failed
  }

  predicate FailedAt(ex: seq<Socket>, env: nat -> Report, time: nat, j: nat) {
    && j < |ex| && env(time + j).Signalled?
    && if ex[j] == Listener then env(time + j).accept == Failed
       else env(time + j).read == Failed || env(time + j).close == Failed
  }

  predicate AcceptedAt(ex: seq<Socket>, env: nat -> Report, time: nat) {
    ex != [] && ex[0] == Listener && env(time).Signalled? && env(time).accept == On
  }

  lemma ShiftAt(s: Socket, ex: seq<Socket>, env: nat -> Report, time: nat, x: Socket, j: nat)
    ensures ReadAt([s] + ex, env, time, x, j + 1) <==> ReadAt(ex, env, time + 1, x, j)
    ensures ClosedAt([s] + ex, env, time, x, j + 1) <==> ClosedAt(ex, env, time + 1, x, j)
    ensures FailedAt([s] + ex, env, time, j + 1) <==> FailedAt(ex, env, time + 1, j)
  {
    assert time + 1 + j == time + (j + 1);
  }

  lemma ReadShift(s: Socket, ex: seq<Socket>, env: nat -> Report, time: nat, later: nat, x: Socket)
    requires later == time + 1
    ensures (exists j :: ReadAt([s] + ex, env, time, x, j)) <==>
            ReadAt([s] + ex, env, time, x, 0) || exists j :: ReadAt(ex, env, later, x, j)
  {
    if j: nat :| ReadAt([s] + ex, env, time, x, j) && j > 0 {
      ShiftAt(s, ex, env, time, x, j - 1);
    }
    if j: nat :| ReadAt(ex, env, later, x, j) {
      ShiftAt(s, ex, env, time, x, j);
    }
  }

  lemma ClosedShift(s: Socket, ex: seq<Socket>, env: nat -> Report, time: nat, later: nat, x: Socket)
    requires later == time + 1
    ensures (exists j :: ClosedAt([s] + ex, env, time, x, j)) <==>
            ClosedAt([s] + ex, env, time, x, 0) || exists j :: ClosedAt(ex, env, later, x, j)
  {
    if j: nat :| ClosedAt([s] + ex, env, time, x, j) && j > 0 {
      ShiftAt(s, ex, env, time, x, j - 1);
    }
    if j: nat :| ClosedAt(ex, env, later, x, j) {
      ShiftAt(s, ex, env, time, x, j);
    }
  }

  /** Handling one entry, in terms of its report. */
  lemma OneEntry(t: Table, i: nat, env: nat -> Report, time: nat, x: Socket)
    requires ListenerFirst(t.socks) && i < |t.socks|
    ensures var (s, r) := (t.socks[i], env(time));
            && (EffectOf(s, r) == Breaks <==> FailedAt([s], env, time, 0))
            && (x in EchoOf(s, r) <==> ReadAt([s], env, time, x, 0))
            && (forall c :: c in Next(t, i, r).closed <==>
                  c in t.closed || (ClosedAt([s], env, time, Client(c), 0) && !FailedAt([s], env, time, 0)))
            && Next(t, i, r).accepted == t.accepted + (if AcceptedAt([s], env, time) then 1 else 0)
            && (s == Listener <==> i == 0)
            && |EchoOf(s, r)| <= 1
  {
  }

  lemma FirstOnly(s: Socket, ex: seq<Socket>, env: nat -> Report, time: nat, x: Socket)
    ensures ReadAt([s] + ex, env, time, x, 0) <==> ReadAt([s], env, time, x, 0)
    ensures ClosedAt([s] + ex, env, time, x, 0) <==> ClosedAt([s], env, time, x, 0)
    ensures FailedAt([s] + ex, env, time, 0) <==> FailedAt([s], env, time, 0)
    ensures AcceptedAt([s] + ex, env, time) <==> AcceptedAt([s], env, time)
  {
  }

  lemma {:induction false} EchoedExact(t: Table, i: nat, env: nat -> Report, time: nat, x: Socket)
    requires ListenerFirst(t.socks)
    ensures var r := Scan(t, i, env, time); x in r.echoed <==> exists j :: ReadAt(r.examined, env, time, x, j)
    decreases i == 0, |t.socks| - i
  {
    hide EffectOf, EchoOf, Next, ListenerFirst, ReadAt, ClosedAt, FailedAt, AcceptedAt;
    if i < |t.socks| {
      var s := t.socks[i];
      OneEntry(t, i, env, time, x);
      if EffectOf(s, env(time)) == Breaks {
        NoneRead(env, time + 1, x);
        ReadShift(s, [], env, time, time + 1, x);
        assert [s] + [] == [s];
      } else {
        var rest := Scan(Next(t, i, env(time)), i + 1, env, time + 1);
        EchoedExact(Next(t, i, env(time)), i + 1, env, time + 1, x);
        ReadShift(s, rest.examined, env, time, time + 1, x);
        FirstOnly(s, rest.examined, env, time, x);
      }
    } else {
      NoneRead(env, time, x);
    }
  }

  lemma NoneRead(env: nat -> Report, time: nat, x: Socket)
    ensures forall j :: !ReadAt([], env, time, x, j) && !ClosedAt([], env, time, x, j)
  {
  }

  /** An error on closing ends the pass before anything is closed. */
  lemma {:induction false} ClosedExact(t: Table, i: nat, env: nat -> Report, time: nat, c: nat)
    requires ListenerFirst(t.socks)
    ensures var r := Scan(t, i, env, time);
            c in r.t.closed <==> c in t.closed || exists j :: ClosedAt(r.examined, env, time, Client(c), j)
    decreases i == 0, |t.socks| - i
  {
    hide EffectOf, EchoOf, Next, ListenerFirst, ReadAt, ClosedAt, FailedAt, AcceptedAt;
    if i < |t.socks| {
      var s := t.socks[i];
      OneEntry(t, i, env, time, Client(c));
      FailedCloses(s, env, time, Client(c));
      if EffectOf(s, env(time)) == Breaks {
        NoneRead(env, time + 1, Client(c));
        ClosedShift(s, [], env, time, time + 1, Client(c));
        assert [s] + [] == [s];
      } else {
        var rest := Scan(Next(t, i, env(time)), i + 1, env, time + 1);
        ClosedExact(Next(t, i, env(time)), i + 1, env, time + 1, c);
        ClosedShift(s, rest.examined, env, time, time + 1, Client(c));
        FirstOnly(s, rest.examined, env, time, Client(c));
      }
    } else {
      NoneRead(env, time, Client(c));
    }
  }

  lemma FailedCloses(s: Socket, env: nat -> Report, time: nat, x: Socket)
    ensures FailedAt([s], env, time, 0) ==> !ClosedAt([s], env, time, x, 0)
  {
  }

  /** The listener is examined by a pass that starts at it and by no other, and accepts just then. */
  lemma {:induction false} AcceptedExact(t: Table, i: nat, env: nat -> Report, time: nat)
    requires ListenerFirst(t.socks)
    ensures var r := Scan(t, i, env, time);
            && r.t.accepted == t.accepted + (if AcceptedAt(r.examined, env, time) then 1 else 0)
            && (r.examined != [] <==> i < |t.socks|)
            && (r.examined != [] ==> r.examined[0] == t.socks[i])
            && (forall j :: 0 <= j < |r.examined| && r.examined[j] == Listener ==> i == j == 0)
    decreases i == 0, |t.socks| - i
  {
    hide EffectOf, EchoOf, Next, ListenerFirst, ReadAt, ClosedAt, FailedAt, AcceptedAt;
    if i < |t.socks| {
      var s := t.socks[i];
      OneEntry(t, i, env, time, s);
      BreaksFirst(s, env, time);
      if EffectOf(s, env(time)) != Breaks {
        var rest := Scan(Next(t, i, env(time)), i + 1, env, time + 1);
        AcceptedExact(Next(t, i, env(time)), i + 1, env, time + 1);
        FirstOnly(s, rest.examined, env, time, s);
        NotListener(rest.examined, env, time + 1);
      }
    } else {
      NotListener([], env, time);
    }
  }

  lemma BreaksFirst(s: Socket, env: nat -> Report, time: nat)
    ensures EffectOf(s, env(time)) == Breaks ==> !AcceptedAt([s], env, time)
  {
  }

  lemma NotListener(ex: seq<Socket>, env: nat -> Report, time: nat)
    ensures ex == [] || ex[0] != Listener ==> !AcceptedAt(ex, env, time)
  {
  }

  /** A pass is ended by the first error it meets, and by nothing else. */
  lemma {:induction false} BrokeExact(t: Table, i: nat, env: nat -> Report, time: nat, j: nat)
    requires ListenerFirst(t.socks) && j < |Scan(t, i, env, time).examined|
    ensures var (ex, broke) := (Scan(t, i, env, time).examined, Scan(t, i, env, time).broke);
            FailedAt(ex, env, time, j) <==> broke && j == |ex| - 1
    decreases i == 0, |t.socks| - i
  {
    hide EffectOf, EchoOf, Next, ListenerFirst, ReadAt, ClosedAt, FailedAt, AcceptedAt;
    var s := t.socks[i];
    OneEntry(t, i, env, time, s);
    if EffectOf(s, env(time)) != Breaks {
      var rest := Scan(Next(t, i, env(time)), i + 1, env, time + 1);
      FirstOnly(s, rest.examined, env, time, s);
      BrokeLater(Next(t, i, env(time)), i + 1, env, time + 1);
      if j > 0 {
        BrokeExact(Next(t, i, env(time)), i + 1, env, time + 1, j - 1);
        ShiftAt(s, rest.examined, env, time, s, j - 1);
      }
    }
  }

  lemma BrokeLater(t: Table, i: nat, env: nat -> Report, time: nat)
    requires ListenerFirst(t.socks)
    ensures Scan(t, i, env, time).broke ==> Scan(t, i, env, time).examined != []
  {
    hide EffectOf, EchoOf, Next;
  }

  /** What an entry leaves at its index: itself, or if it was closed the entry behind it. */
  lemma NextLeaves(t: Table, i: nat, r: Report)
    requires Inv(t) && ListenerFirst(t.socks) && i < |t.socks|
    ensures var (n, s) := (Next(t, i, r), t.socks[i]);
            && Inv(n) && i <= |n.socks|
            && if s.Client? && s.id in n.closed then i < |n.socks| ==> n.socks[i] != s
               else i < |n.socks| && n.socks[i] == s
  {
    hide EffectOf, Inv;
    NextInv(t, i, r);
    InvExact(t);
    InvExact(Next(t, i, r));
    assert t.socks[i] in t.socks;
  }

  /** The rest of the scan leaves it there. */
  lemma Leaves(t: Table, i: nat, env: nat -> Report, time: nat)
    requires ListenerFirst(t.socks) && i < |t.socks| && i + 1 <= |Next(t, i, env(time)).socks|
    ensures var (n, r) := (Next(t, i, env(time)), Scan(Next(t, i, env(time)), i + 1, env, time + 1));
            i < |r.t.socks| && r.t.socks[i] == n.socks[i]
  {
    hide EffectOf, EchoOf, Next, Scan;
    var n := Next(t, i, env(time));
    ScanKeepsPrefix(n, i + 1, env, time + 1);
    assert Scan(n, i + 1, env, time + 1).t.socks[..i + 1][i] == n.socks[..i + 1][i];
  }

  /** Where the scan has been: the entry examined at an index is still there afterwards or was closed,
      and then the entry that took its place is not examined; no index is left out. */
  ghost predicate Walked(i: nat, ex: seq<Socket>, after: Table) {
    && (forall j :: 0 <= j < |ex| ==>
          if ex[j].Client? && ex[j].id in after.closed
          then i + j < |after.socks| ==> after.socks[i + j] !in ex
          else i + j < |after.socks| && after.socks[i + j] == ex[j])
    && |after.socks| <= i + |ex|
  }

  lemma {:induction false} ScanWalks(t: Table, i: nat, env: nat -> Report, time: nat)
    requires Inv(t) && ListenerFirst(t.socks) && i <= |t.socks| && !Scan(t, i, env, time).broke
    ensures Walked(i, Scan(t, i, env, time).examined, Scan(t, i, env, time).t)
    decreases i == 0, |t.socks| - i
  {
    hide EffectOf, EchoOf, Next, ListenerFirst, Inv, Walked;
    if i < |t.socks| {
      var n, s := Next(t, i, env(time)), t.socks[i];
      NextLeaves(t, i, env(time));
      if i + 1 <= |n.socks| {
        Leaves(t, i, env, time);
        var rest := Scan(n, i + 1, env, time + 1);
        ScanWalks(n, i + 1, env, time + 1);
        ExaminedBehind(n, i + 1, env, time + 1);
        StaysClosed(t, i, env, time);
        ScanKeepsInv(n, i + 1, env, time + 1);
        NotLater(rest.t, i, s);
        WalkedOn(i, s, rest.examined, rest.t);
      } else {
        assert [s] + [] == [s];
        WalkedLast(i, s, n);
      }
    } else {
      WalkedNone(i, t);
    }
  }

  /** Whether s is closed is decided when it is examined. */
  lemma StaysClosed(t: Table, i: nat, env: nat -> Report, time: nat)
    requires Inv(t) && ListenerFirst(t.socks) && i < |t.socks| && EffectOf(t.socks[i], env(time)) != Breaks
    ensures var (n, s) := (Next(t, i, env(time)), t.socks[i]);
            s.Client? ==> (s.id in n.closed <==> s.id in Scan(n, i + 1, env, time + 1).t.closed)
  {
    hide EffectOf, EchoOf, Next, Scan;
    var n, s := Next(t, i, env(time)), t.socks[i];
    if s.Client? {
      NextInv(t, i, env(time));
      NextBehind(t, i, env(time));
      ClosedExact(n, i + 1, env, time + 1, s.id);
      ExaminedInOrder(n, i + 1, env, time + 1, Rank(s));
    }
  }

  lemma NotLater(after: Table, i: nat, s: Socket)
    requires Inv(after) && i < |after.socks|
    requires if s.Client? && s.id in after.closed then after.socks[i] != s else after.socks[i] == s
    ensures forall k :: i < k < |after.socks| ==> after.socks[k] != s
  {
    InvExact(after);
    assert forall k :: i < k < |after.socks| ==> after.socks[k] in after.socks;
  }

  lemma WalkedNone(i: nat, t: Table)
    requires i == |t.socks|
    ensures Walked(i, [], t)
  {
  }

  lemma WalkedLast(i: nat, s: Socket, after: Table)
    requires |after.socks| == i && s.Client? && s.id in after.closed
    ensures Walked(i, [s], after)
  {
  }

  lemma WalkedOn(i: nat, s: Socket, ex: seq<Socket>, after: Table)
    requires Walked(i + 1, ex, after) && i < |after.socks| && after.socks[i] !in ex
    requires if s.Client? && s.id in after.closed then after.socks[i] != s else after.socks[i] == s
    requires forall k :: i < k < |after.socks| ==> after.socks[k] != s
    ensures Walked(i, [s] + ex, after)
  {
    forall j | 0 <= j < |ex| + 1
      ensures var e := ([s] + ex)[j];
              if e.Client? && e.id in after.closed
              then i + j < |after.socks| ==> after.socks[i + j] !in [s] + ex
              else i + j < |after.socks| && after.socks[i + j] == e
    {
      if j > 0 {
        assert ([s] + ex)[j] == ex[j - 1] && i + 1 + (j - 1) == i + j;
      }
    }
  }

  // The pass

  /** Entry by entry, for every table of a run and every list of reports. The j-th entry examined is
      echoed to if and only if it is a client whose report has data; it is closed by this pass if and
      only if it is a client whose report has a close, without an error on reading; and if its report
      has an error, the pass ends there and nowhere else. A connection is accepted if and only if the
      pass starts at the listener and the report has an accept. Nothing else is echoed to or closed, and
      the echoes go out in accept order. */
  lemma PassExact(t: Table, p: PassEnv)
    requires Inv(t) && ListenerFirst(t.socks)
    ensures var (r, ex) := (RunPass(t, p), RunPass(t, p).examined);
            && (forall j :: 0 <= j < |ex| ==>
                  var (s, report) := (ex[j], p.env(j));
                  && (s in r.echoed <==> s.Client? && report.Signalled? && report.read == On)
                  && (s.Client? ==> (s.id in r.t.closed <==>
                        report.Signalled? && report.close == On && report.read != Failed))
                  && (r.broke && j == |ex| - 1 <==>
                        && report.Signalled?
                        && if s == Listener then report.accept == Failed
                           else report.read == Failed || report.close == Failed))
            && (forall s :: s in r.echoed ==> s in ex)
            && (forall a, b :: 0 <= a < b < |r.echoed| ==>
                  r.echoed[a].Client? && r.echoed[b].Client? && r.echoed[a].id < r.echoed[b].id)
            && (forall c :: c in r.t.closed ==> c in t.closed || Client(c) in ex)
            && t.closed <= r.t.closed
            && (r.broke ==> ex != [])
            && (ex != [] <==> p.start < |t.socks|)
            && (forall j :: 0 <= j < |ex| && ex[j] == Listener ==> j == p.start == 0)
            && r.t.accepted == t.accepted
                 + (if p.start == 0 && p.env(0).Signalled? && p.env(0).accept == On then 1 else 0)
  {
    hide Scan, Inv, ListenerFirst;
    var (i, env, r) := (p.start, p.env, RunPass(t, p));
    var ex := r.examined;
    AcceptedExact(t, i, env, 0);
    ListenerAt(t);
    BrokeLater(t, i, env, 0);
    EchoedOnce(t, i, env, 0);
    InOrderMeans(r.echoed);
    forall j: nat | j < |ex|
      ensures ex[j] in r.echoed <==> ReadAt(ex, env, 0, ex[j], j)
      ensures ex[j].Client? ==> (ex[j].id in r.t.closed <==> ClosedAt(ex, env, 0, ex[j], j))
      ensures r.broke && j == |ex| - 1 <==> FailedAt(ex, env, 0, j)
    {
      EntryExact(t, p, j);
    }
    forall s | s in r.echoed ensures s in ex {
      EchoedExact(t, i, env, 0, s);
    }
    forall c | c in r.t.closed ensures c in t.closed || Client(c) in ex {
      ClosedExact(t, i, env, 0, c);
    }
    ScanClosedGrows(t, i, env, 0);
  }

  lemma ListenerAt(t: Table)
    requires ListenerFirst(t.socks)
    ensures t.socks != [] && forall i :: 0 <= i < |t.socks| ==> (t.socks[i] == Listener <==> i == 0)
  {
  }

  lemma EntryExact(t: Table, p: PassEnv, j: nat)
    requires Inv(t) && ListenerFirst(t.socks) && j < |RunPass(t, p).examined|
    ensures var (r, ex, env) := (RunPass(t, p), RunPass(t, p).examined, p.env);
            && (ex[j] in r.echoed <==> ReadAt(ex, env, 0, ex[j], j))
            && (ex[j].Client? ==> (ex[j].id in r.t.closed <==> ClosedAt(ex, env, 0, ex[j], j)))
            && (r.broke && j == |ex| - 1 <==> FailedAt(ex, env, 0, j))
  {
    hide Scan, Inv, ListenerFirst;
    var (i, env, r) := (p.start, p.env, RunPass(t, p));
    var ex := r.examined;
    Distinct(t, i, env, 0);
    EchoedExact(t, i, env, 0, ex[j]);
    BrokeExact(t, i, env, 0, j);
    if ex[j].Client? {
      ClosedExact(t, i, env, 0, ex[j].id);
      ExaminedOpen(t, i, env, 0, j);
    }
  }

  lemma Distinct(t: Table, i: nat, env: nat -> Report, time: nat)
    requires Inv(t) && ListenerFirst(t.socks)
    ensures var ex := Scan(t, i, env, time).examined; forall a, b :: 0 <= a < b < |ex| ==> ex[a] != ex[b]
  {
    hide Scan, Inv, ListenerFirst, EffectOf, EchoOf;
    AcceptedExact(t, i, env, time);
    var ex := Scan(t, i, env, time).examined;
    InvExact(t);
    if i < |t.socks| {
      ExaminedAfterFirst(t, i, env, time);
    }
  }

  /** The entries behind the first one examined come later in the order. */
  lemma ExaminedAfterFirst(t: Table, i: nat, env: nat -> Report, time: nat)
    requires Inv(t) && ListenerFirst(t.socks) && i < |t.socks|
    ensures var ex := Scan(t, i, env, time).examined;
            ex != [] && ex[0] == t.socks[i] && Above(Rank(t.socks[i]), ex[1..])
  {
    hide EffectOf, EchoOf, Next, Inv, ListenerFirst, Rank;
    if EffectOf(t.socks[i], env(time)) != Breaks {
      NextInv(t, i, env(time));
      NextBehind(t, i, env(time));
      ExaminedInOrder(Next(t, i, env(time)), i + 1, env, time + 1, Rank(t.socks[i]));
    }
  }

  /** No connection that is examined had been closed before the pass. */
  lemma {:induction false} ExaminedOpen(t: Table, i: nat, env: nat -> Report, time: nat, j: nat)
    requires Inv(t) && ListenerFirst(t.socks) && j < |Scan(t, i, env, time).examined|
    requires Scan(t, i, env, time).examined[j].Client?
    ensures Scan(t, i, env, time).examined[j].id !in t.closed
    decreases j
  {
    hide EffectOf, EchoOf, Next, Inv, ListenerFirst;
    InvExact(t);
    assert t.socks[i] in t.socks;
    if j > 0 {
      NextInv(t, i, env(time));
      OneEntry(t, i, env, time, t.socks[i]);
      ExaminedOpen(Next(t, i, env(time)), i + 1, env, time + 1, j - 1);
    }
  }

  /** Echoes go out in the order of the table, at most one to each client. */
  lemma {:induction false} EchoedInOrder(t: Table, i: nat, env: nat -> Report, time: nat, lo: nat)
    requires Inv(t) && ListenerFirst(t.socks) && lo <= t.accepted
    requires forall k :: i <= k < |t.socks| ==> lo < Rank(t.socks[k])
    ensures Above(lo, Scan(t, i, env, time).echoed)
    decreases i == 0, |t.socks| - i
  {
    hide EffectOf, EchoOf, Next, Inv, ListenerFirst, Rank, Above;
    if i < |t.socks| {
      var s, echo := t.socks[i], EchoOf(t.socks[i], env(time));
      EchoIsOne(s, env(time));
      if EffectOf(s, env(time)) == Breaks {
        NoneAbove(Rank(s));
        EchoOn(lo, s, echo, []);
        assert echo + [] == echo;
      } else {
        var rest := Scan(Next(t, i, env(time)), i + 1, env, time + 1).echoed;
        NextInv(t, i, env(time));
        NextBehind(t, i, env(time));
        EchoedInOrder(Next(t, i, env(time)), i + 1, env, time + 1, Rank(s));
        EchoOn(lo, s, echo, rest);
      }
    } else {
      NoneAbove(lo);
    }
  }

  lemma NoneAbove(lo: nat)
    ensures Above(lo, [])
  {
  }

  lemma EchoOn(lo: nat, s: Socket, echo: seq<Socket>, rest: seq<Socket>)
    requires lo < Rank(s) && Above(Rank(s), rest) && (echo == [] || echo == [s])
    ensures Above(lo, echo + rest)
  {
    hide Rank;
    assert [] + rest == rest;
    AboveOn(lo, s, rest);
  }

  lemma EchoIsOne(s: Socket, r: Report)
    ensures EchoOf(s, r) == [] || EchoOf(s, r) == [s]
  {
  }

  lemma EchoedOnce(t: Table, i: nat, env: nat -> Report, time: nat)
    requires Inv(t) && ListenerFirst(t.socks)
    ensures Above(0, Scan(t, i, env, time).echoed)
  {
    hide Scan, Inv, ListenerFirst, EffectOf, EchoOf;
    InvExact(t);
    if i == 0 {
      EchoedFromListener(t, env, time);
    } else {
      EchoedInOrder(t, i, env, time, 0);
    }
  }

  lemma InOrderMeans(echoed: seq<Socket>)
    requires Above(0, echoed)
    ensures forall a, b :: 0 <= a < b < |echoed| ==>
              echoed[a].Client? && echoed[b].Client? && echoed[a].id < echoed[b].id
  {
  }

  lemma EchoedFromListener(t: Table, env: nat -> Report, time: nat)
    requires Inv(t) && ListenerFirst(t.socks)
    ensures Above(0, Scan(t, 0, env, time).echoed)
  {
    hide Inv, EffectOf, Next;
    InvExact(t);
    if EffectOf(t.socks[0], env(time)) != Breaks {
      NextInv(t, 0, env(time));
      NextBehind(t, 0, env(time));
      EchoedInOrder(Next(t, 0, env(time)), 1, env, time + 1, 0);
      var rest := Scan(Next(t, 0, env(time)), 1, env, time + 1).echoed;
      assert [] + rest == rest;
    }
  }

  /** Where the pass has been: the entry examined j-th stands at index start + j of the table afterwards,
      unless it was closed; then the entry that took its place, if there is one, is not examined. The
      entries in front of the start stay, and behind the last one examined there is none. So every entry,
      also one accepted on the way, is examined or stands where one was closed. */
  lemma PassWalks(t: Table, p: PassEnv)
    requires Inv(t) && ListenerFirst(t.socks) && p.start <= |t.socks| && !RunPass(t, p).broke
    ensures var (r, ex) := (RunPass(t, p), RunPass(t, p).examined);
            && (forall j :: 0 <= j < |ex| ==>
                  if ex[j].Client? && ex[j].id in r.t.closed
                  then p.start + j < |r.t.socks| ==> r.t.socks[p.start + j] !in ex
                  else p.start + j < |r.t.socks| && r.t.socks[p.start + j] == ex[j])
            && p.start <= |r.t.socks| <= p.start + |ex|
            && r.t.socks[..p.start] == t.socks[..p.start]
  {
    hide Scan, Inv, ListenerFirst;
    ScanWalks(t, p.start, p.env, 0);
    ScanKeepsPrefix(t, p.start, p.env, 0);
  }
}
