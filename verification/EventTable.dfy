/** The event-select server's table of connections, scanned by index while it grows and shrinks
    (AsynNotiEcho.cpp, lines 56-132), on sequences. */
module EventTable {

  /** Connections are named in the order in which they are accepted. */
  datatype Socket = Listener | Client(id: nat)

  datatype Bit = Off | On | Failed

  /** What the wait on one event and WSAEnumNetworkEvents report. */
  datatype Report = Idle | Signalled(accept: Bit, read: Bit, close: Bit)

  /** WSAEventSelect registered the listener for FD_ACCEPT and the clients for FD_READ, FD_WRITE and
      FD_CLOSE; nothing is done about FD_WRITE, so a report of it alone is Signalled(Off, Off, Off). */
  function Masked(s: Socket, r: Report): Report {
    match r
    case Idle => Idle
    case Signalled(a, rd, c) => if s == Listener then Signalled(a, Off, Off) else Signalled(Off, rd, c)
  }

  datatype Effect = Nothing | Accepts | Closes | Breaks

  /** What handling the report of one entry does to the table. */
  function EffectOf(s: Socket, r: Report): (e: Effect)
    ensures (e == Accepts ==> s == Listener) && (e == Closes ==> s.Client?)
  {
    match Masked(s, r)
    case Idle => Nothing
    case Signalled(a, rd, c) =>
      if a == Failed || rd == Failed || c == Failed then Breaks
      else if a == On then Accepts
      else if c == On then Closes
      else Nothing
  }

  datatype Table = Table(socks: seq<Socket>, accepted: nat, closed: set<nat>)

  const INITIAL := Table([Listener], 0, {})

  /** The connections accepted and not closed, in the order of acceptance. */
  function Live(accepted: nat, closed: set<nat>): seq<Socket> {
    if accepted == 0 then []
    else Live(accepted - 1, closed) + if accepted - 1 in closed then [] else [Client(accepted - 1)]
  }

  /** The listener comes first, and behind it every open connection exactly once, in accept order. */
  ghost predicate Inv(t: Table) {
    && t.socks == [Listener] + Live(t.accepted, t.closed)
    && forall c :: c in t.closed ==> c < t.accepted
  }

  predicate ListenerFirst(socks: seq<Socket>) {
    socks != [] && forall i :: 0 <= i < |socks| ==> (socks[i] == Listener <==> i == 0)
  }

  function Without<T>(s: seq<T>, i: nat): seq<T>
    requires i < |s|
  {
    s[..i] + s[i + 1..]
  }

  function Opened(t: Table): Table {
    Table(t.socks + [Client(t.accepted)], t.accepted + 1, t.closed)
  }

  function Dropped(t: Table, i: nat): Table
    requires 0 < i < |t.socks| && t.socks[i].Client?
  {
    Table(Without(t.socks, i), t.accepted, t.closed + {t.socks[i].id})
  }

  /** The sockets whose data is echoed when the report of one entry is handled. */
  function EchoOf(s: Socket, r: Report): seq<Socket> {
    if Masked(s, r).Signalled? && Masked(s, r).read == On then [s] else []
  }

  /** The table when the report of entry i has been handled. */
  function Next(t: Table, i: nat, r: Report): (n: Table)
    requires ListenerFirst(t.socks) && i < |t.socks|
    ensures ListenerFirst(n.socks) && |n.socks| <= |t.socks| + if i == 0 then 1 else 0
  {
    match EffectOf(t.socks[i], r)
    case Accepts => Opened(t)
    case Closes => Dropped(t, i)
    case _ => t
  }

  /** The result of a scan: the table, the number of entries examined, which ones, which were echoed to,
      and whether an error ended it early. */
  datatype Pass = Pass(t: Table, time: nat, examined: seq<Socket>, echoed: seq<Socket>, broke: bool)

  /** The inner loop from index i on; env(time) is what examining an entry reports. */
  function Scan(t: Table, i: nat, env: nat -> Report, time: nat): (r: Pass)
    requires ListenerFirst(t.socks)
    ensures ListenerFirst(r.t.socks) && |r.t.socks| <= |t.socks| + if i == 0 then 1 else 0
    decreases i == 0, |t.socks| - i
  {
    if i >= |t.socks| then Pass(t, time, [], [], false)
    else
      var s := t.socks[i];
      var echo := EchoOf(s, env(time));
      if EffectOf(s, env(time)) == Breaks then Pass(t, time + 1, [s], echo, true)
      else After([s], echo, Scan(Next(t, i, env(time)), i + 1, env, time + 1))
  }

  /** The rest r of a scan, with what came before it. */
  function After(examined: seq<Socket>, echoed: seq<Socket>, r: Pass): Pass {
    r.(examined := examined + r.examined, echoed := echoed + r.echoed)
  }

  /** Those of the examined sockets whose reports had data to read. */
  function Readable(examined: seq<Socket>, env: nat -> Report, time: nat): seq<Socket> {
    if examined == [] then []
    else EchoOf(examined[0], env(time)) + Readable(examined[1..], env, time + 1)
  }

  /** The scan echoes to the readable sockets among those it examines, in order, and to no others. */
  lemma {:induction false} EchoesReadable(t: Table, i: nat, env: nat -> Report, time: nat)
    requires ListenerFirst(t.socks)
    ensures var r := Scan(t, i, env, time); r.echoed == Readable(r.examined, env, time)
    decreases i == 0, |t.socks| - i
  {
    hide EffectOf, EchoOf, Next, ListenerFirst;
    if i < |t.socks| {
      if EffectOf(t.socks[i], env(time)) == Breaks {
        assert [t.socks[i]][1..] == [];
      } else {
        EchoesReadable(Next(t, i, env(time)), i + 1, env, time + 1);
      }
    }
  }

  // The table over all runs

  lemma {:induction false} LiveClients(n: nat, closed: set<nat>)
    ensures forall i :: 0 <= i < |Live(n, closed)| ==>
              Live(n, closed)[i].Client? && Live(n, closed)[i].id < n && Live(n, closed)[i].id !in closed
    ensures forall i, j :: 0 <= i < j < |Live(n, closed)| ==> Live(n, closed)[i].id < Live(n, closed)[j].id
  {
    if n > 0 {
      LiveClients(n - 1, closed);
    }
  }

  /** Closing the connection at position i of the list of open ones. */
  lemma {:induction false} LiveWithout(n: nat, closed: set<nat>, i: nat)
    requires i < |Live(n, closed)| && Live(n, closed)[i].Client?
    ensures Live(n, closed + {Live(n, closed)[i].id}) == Without(Live(n, closed), i)
  {
    LiveClients(n, closed);
    var x := Live(n, closed)[i].id;
    var before := Live(n - 1, closed);
    LiveClients(n - 1, closed);
    if i < |before| {
      LiveWithout(n - 1, closed, i);
    } else {
      LiveUnaffected(n - 1, closed, x);
    }
  }

  lemma {:induction false} LiveUnaffected(n: nat, closed: set<nat>, x: nat)
    requires n <= x
    ensures Live(n, closed + {x}) == Live(n, closed)
  {
    if n > 0 {
      LiveUnaffected(n - 1, closed, x);
    }
  }

  lemma InvListenerFirst(t: Table)
    requires Inv(t)
    ensures ListenerFirst(t.socks)
  {
    LiveClients(t.accepted, t.closed);
  }

  lemma OpenedInv(t: Table)
    requires Inv(t)
    ensures Inv(Opened(t))
  {
  }

  lemma DroppedInv(t: Table, i: nat)
    requires Inv(t) && 0 < i < |t.socks| && t.socks[i].Client?
    ensures Inv(Dropped(t, i))
  {
    var live := Live(t.accepted, t.closed);
    LiveClients(t.accepted, t.closed);
    LiveWithout(t.accepted, t.closed, i - 1);
    assert Without([Listener] + live, i) == [Listener] + Without(live, i - 1);
  }

  lemma NextInv(t: Table, i: nat, r: Report)
    requires Inv(t) && ListenerFirst(t.socks) && i < |t.socks|
    ensures Inv(Next(t, i, r))
  {
    match EffectOf(t.socks[i], r)
    case Accepts => OpenedInv(t);
    case Closes => DroppedInv(t, i);
    case _ =>
  }

  /** A pass keeps the table exact, whatever the environment reports and wherever the pass starts. */
  lemma {:induction false} ScanKeepsInv(t: Table, i: nat, env: nat -> Report, time: nat)
    requires Inv(t) && ListenerFirst(t.socks)
    ensures Inv(Scan(t, i, env, time).t)
    decreases i == 0, |t.socks| - i
  {
    hide EffectOf, EchoOf, Next, Inv, ListenerFirst;
    if i < |t.socks| && EffectOf(t.socks[i], env(time)) != Breaks {
      NextInv(t, i, env(time));
      ScanKeepsInv(Next(t, i, env(time)), i + 1, env, time + 1);
    }
  }

  // Bounded service

  lemma ShorterPrefix<T>(s: seq<T>, s': seq<T>, i: nat)
    requires i + 1 <= |s| && i + 1 <= |s'| && s[..i + 1] == s'[..i + 1]
    ensures s[..i] == s'[..i]
  {
    assert s[..i] == s[..i + 1][..i] && s'[..i] == s'[..i + 1][..i];
  }

  lemma NextKeepsPrefix(t: Table, i: nat, r: Report)
    requires ListenerFirst(t.socks) && i < |t.socks|
    ensures var n := Next(t, i, r); i <= |n.socks| && n.socks[..i] == t.socks[..i]
  {
    hide EffectOf;
  }

  /** A scan leaves everything in front of it alone. */
  lemma {:induction false} ScanKeepsPrefix(t: Table, i: nat, env: nat -> Report, time: nat)
    requires ListenerFirst(t.socks) && i <= |t.socks|
    ensures var socks := Scan(t, i, env, time).t.socks; i <= |socks| && socks[..i] == t.socks[..i]
    decreases i == 0, |t.socks| - i
  {
    hide EffectOf, EchoOf, Next, ListenerFirst;
    if i < |t.socks| && EffectOf(t.socks[i], env(time)) != Breaks {
      var n := Next(t, i, env(time));
      NextKeepsPrefix(t, i, env(time));
      if i + 1 <= |n.socks| {
        ScanKeepsPrefix(n, i + 1, env, time + 1);
        ShorterPrefix(Scan(n, i + 1, env, time + 1).t.socks, n.socks, i);
      }
    }
  }

  ghost predicate At(t: Table, x: Socket, m: nat) { m < |t.socks| && t.socks[m] == x }

  /** x stands in front of where it was. */
  ghost predicate MovedUp(t: Table, x: Socket, m: nat) {
    exists m' :: 1 <= m' < m && At(t, x, m')
  }

  /** One pass over a waiting client: it is examined, or a removal right in front of it made the scan
      skip it, and then it has moved up. */
  lemma {:induction false} ScanProgress(t: Table, i: nat, env: nat -> Report, time: nat, x: Socket, m: nat)
    requires ListenerFirst(t.socks) && i <= m && 1 <= m && At(t, x, m)
    requires !Scan(t, i, env, time).broke
    ensures var r := Scan(t, i, env, time); x in r.examined || MovedUp(r.t, x, m)
    decreases i == 0, |t.socks| - i
  {
    hide EffectOf, EchoOf, Next, ListenerFirst, MovedUp;
    if i < m {
      var n := Next(t, i, env(time));
      NextAt(t, i, env(time), x, m);
      if At(n, x, m) {
        ScanProgress(n, i + 1, env, time + 1, x, m);
      } else if i + 1 < m {
        ScanProgress(n, i + 1, env, time + 1, x, m - 1);
        MovedFurther(Scan(n, i + 1, env, time + 1).t, x, m);
      } else {
        ScanSkips(n, m, env, time + 1, x);
      }
    }
  }

  /** Handling an entry in front of x leaves x where it is or moves it up by one. */
  lemma NextAt(t: Table, i: nat, r: Report, x: Socket, m: nat)
    requires ListenerFirst(t.socks) && i < m && At(t, x, m)
    ensures At(Next(t, i, r), x, m) || (i > 0 && At(Next(t, i, r), x, m - 1))
  {
    hide EffectOf;
  }

  lemma MovedFurther(t: Table, x: Socket, m: nat)
    requires m > 0
    ensures MovedUp(t, x, m - 1) ==> MovedUp(t, x, m)
  {
  }

  /** The scan goes on behind x. */
  lemma ScanSkips(t: Table, m: nat, env: nat -> Report, time: nat, x: Socket)
    requires ListenerFirst(t.socks) && m >= 2 && At(t, x, m - 1)
    ensures MovedUp(Scan(t, m, env, time).t, x, m)
  {
    hide Scan;
    ScanKeepsPrefix(t, m, env, time);
    var socks := Scan(t, m, env, time).t.socks;
    assert socks[..m][m - 1] == t.socks[..m][m - 1];
    assert At(Scan(t, m, env, time).t, x, m - 1);
  }

  lemma {:induction false} ScanClosedGrows(t: Table, i: nat, env: nat -> Report, time: nat)
    requires ListenerFirst(t.socks)
    ensures t.closed <= Scan(t, i, env, time).t.closed
    decreases i == 0, |t.socks| - i
  {
    hide EffectOf, EchoOf;
    if i < |t.socks| && EffectOf(t.socks[i], env(time)) != Breaks {
      ScanClosedGrows(Next(t, i, env(time)), i + 1, env, time + 1);
    }
  }

  /** The outer loop: each pass starts at the lowest signalled index. */
  datatype PassEnv = PassEnv(start: nat, env: nat -> Report)

  function RunPass(t: Table, p: PassEnv): (r: Pass)
    requires ListenerFirst(t.socks)
    ensures ListenerFirst(r.t.socks)
  {
    Scan(t, p.start, p.env, 0)
  }

  function RunPasses(t: Table, ps: seq<PassEnv>): (r: Table)
    requires ListenerFirst(t.socks)
    ensures ListenerFirst(r.socks)
    decreases |ps|
  {
    if ps == [] then t else RunPasses(RunPass(t, ps[0]).t, ps[1..])
  }

  /** Over every run of passes the table is exactly the open connections. */
  lemma {:induction false} RunKeepsInv(t: Table, ps: seq<PassEnv>)
    requires Inv(t) && ListenerFirst(t.socks)
    ensures Inv(RunPasses(t, ps))
    decreases |ps|
  {
    if ps != [] {
      ScanKeepsInv(t, ps[0].start, ps[0].env, 0);
      RunKeepsInv(RunPass(t, ps[0]).t, ps[1..]);
    }
  }
}
