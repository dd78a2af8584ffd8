/** The server as it runs: two parallel arrays of fixed size, shifted and extended while an index
    walks over them (AsynNotiEcho.cpp). */
module EventServer {
  import opened EventTable
  import opened EventMeaning

  /** An event knows the socket it was registered for by WSAEventSelect. */
  datatype Event = EventOf(socket: Socket)

  const WSA_MAXIMUM_WAIT_EVENTS := 64

  method CompressSockets(sockArr: array<Socket>, idx: nat, total: nat)
    requires idx <= total < sockArr.Length
    modifies sockArr
    ensures sockArr[..total] == Without(old(sockArr[..total + 1]), idx)
  {
    var i := idx;
    while i < total
      invariant idx <= i <= total
      invariant forall k :: 0 <= k < idx ==> sockArr[k] == old(sockArr[k])
      invariant forall k :: idx <= k < i ==> sockArr[k] == old(sockArr[k + 1])
      invariant forall k :: i <= k <= total ==> sockArr[k] == old(sockArr[k])
    {
      sockArr[i] := sockArr[i + 1];
      i := i + 1;
    }
  }

  method CompressEvents(eventArr: array<Event>, idx: nat, total: nat)
    requires idx <= total < eventArr.Length
    modifies eventArr
    ensures eventArr[..total] == Without(old(eventArr[..total + 1]), idx)
  {
    var i := idx;
    while i < total
      invariant idx <= i <= total
      invariant forall k :: 0 <= k < idx ==> eventArr[k] == old(eventArr[k])
      invariant forall k :: idx <= k < i ==> eventArr[k] == old(eventArr[k + 1])
      invariant forall k :: i <= k <= total ==> eventArr[k] == old(eventArr[k])
    {
      eventArr[i] := eventArr[i + 1];
      i := i + 1;
    }
  }

  ghost predicate Pairs(socks: seq<Socket>, events: seq<Event>) {
    |socks| == |events| && forall i :: 0 <= i < |socks| ==> events[i] == EventOf(socks[i])
  }

  lemma PairedWithout(socks: seq<Socket>, events: seq<Event>, i: nat)
    requires Pairs(socks, events) && i < |socks|
    ensures Pairs(Without(socks, i), Without(events, i))
  {
  }

  lemma PairAt(socks: seq<Socket>, events: seq<Event>, i: nat)
    requires Pairs(socks, events) && i < |socks|
    ensures i < |events| && events[i].socket == socks[i]
  {
  }

  /** A pass accepts at most one connection, and only if it starts at the listener. */
  predicate HasRoom(num: nat, p: PassEnv) {
    num < WSA_MAXIMUM_WAIT_EVENTS || p.start != 0 || !(p.env(0).Signalled? && p.env(0).accept == On)
  }

  lemma FirstAt(socks: seq<Socket>, i: nat)
    requires ListenerFirst(socks) && i < |socks|
    ensures socks[i] == Listener <==> i == 0
  {
  }

  lemma PairedAnother(socks: seq<Socket>, events: seq<Event>, s: Socket)
    requires Pairs(socks, events) && ListenerFirst(socks) && s.Client?
    ensures Pairs(socks + [s], events + [EventOf(s)]) && ListenerFirst(socks + [s])
  {
  }

  lemma FirstWithout(socks: seq<Socket>, i: nat)
    requires ListenerFirst(socks) && 0 < i < |socks|
    ensures ListenerFirst(Without(socks, i))
  {
  }

  /** The scan from (t0, i0) has got as far as (t, i), with `examined` and `echoed` on the way. */
  ghost predicate ScansTo(t0: Table, i0: nat, env: nat -> Report, examined: seq<Socket>, echoed: seq<Socket>,
                          t: Table, i: nat, time: nat)
  {
    && ListenerFirst(t0.socks) && ListenerFirst(t.socks)
    && Scan(t0, i0, env, 0) == After(examined, echoed, Scan(t, i, env, time))
  }

  lemma ScansFrom(t0: Table, i0: nat, env: nat -> Report)
    requires ListenerFirst(t0.socks)
    ensures ScansTo(t0, i0, env, [], [], t0, i0, 0)
  {
    var r := Scan(t0, i0, env, 0);
    assert [] + r.examined == r.examined && [] + r.echoed == r.echoed;
  }

  /** One more entry is examined. */
  lemma ScansOn(t0: Table, i0: nat, env: nat -> Report, examined: seq<Socket>, echoed: seq<Socket>,
                t: Table, i: nat, time: nat)
    requires ScansTo(t0, i0, env, examined, echoed, t, i, time) && i < |t.socks|
    ensures var (all, out) := (examined + [t.socks[i]], echoed + EchoOf(t.socks[i], env(time)));
            match EffectOf(t.socks[i], env(time))
            case Breaks =>
              ListenerFirst(t0.socks) && Scan(t0, i0, env, 0) == EventTable.Pass(t, time + 1, all, out, true)
            case Nothing => ScansTo(t0, i0, env, all, out, t, i + 1, time + 1)
            case Accepts => ScansTo(t0, i0, env, all, out, Opened(t), i + 1, time + 1)
            case Closes => 0 < i && ScansTo(t0, i0, env, all, out, Dropped(t, i), i + 1, time + 1)
  {
    hide EffectOf, EchoOf;
    var s, echo := t.socks[i], EchoOf(t.socks[i], env(time));
    match EffectOf(s, env(time))
    case Breaks =>
    case Nothing => Regroup(examined, echoed, s, echo, Scan(t, i + 1, env, time + 1));
    case Accepts => Regroup(examined, echoed, s, echo, Scan(Opened(t), i + 1, env, time + 1));
    case Closes => Regroup(examined, echoed, s, echo, Scan(Dropped(t, i), i + 1, env, time + 1));
  }

  lemma Regroup(examined: seq<Socket>, echoed: seq<Socket>, s: Socket, echo: seq<Socket>, r: EventTable.Pass)
    ensures After(examined, echoed, After([s], echo, r)) == After(examined + [s], echoed + echo, r)
  {
    assert examined + ([s] + r.examined) == (examined + [s]) + r.examined;
    assert echoed + (echo + r.echoed) == (echoed + echo) + r.echoed;
  }

  lemma ScansOut(t0: Table, i0: nat, env: nat -> Report, examined: seq<Socket>, echoed: seq<Socket>,
                 t: Table, i: nat, time: nat)
    requires ScansTo(t0, i0, env, examined, echoed, t, i, time) && i >= |t.socks|
    ensures ListenerFirst(t0.socks) && Scan(t0, i0, env, 0) == EventTable.Pass(t, time, examined, echoed, false)
  {
    assert examined + [] == examined && echoed + [] == echoed;
  }

  /** What the tests in the body of the inner loop come to. */
  lemma BodyTests(s: Socket, r: Report)
    ensures EffectOf(s, r) ==
            match Masked(s, r)
            case Idle => Nothing
            case Signalled(a, rd, c) =>
              if a == Failed || rd == Failed || c == Failed then Breaks
              else if a == On then Accepts else if c == On then Closes else Nothing
    ensures Masked(s, r).Signalled? ==>
              && (s == Listener ==> Masked(s, r).read == Off && Masked(s, r).close == Off)
              && (s != Listener ==> Masked(s, r).accept == Off)
              && r.Signalled? && (Masked(s, r).accept == On ==> r.accept == On)
    ensures EchoOf(s, r) == if Masked(s, r).Signalled? && Masked(s, r).read == On then [s] else []
  {
  }

  class Server {
    const sockArr: array<Socket>
    const eventArr: array<Event>
    var num: nat       // numofClntSock
    var accepted: nat  // connections accepted so far
    ghost var closed: set<nat>

    ghost predicate Valid()
      reads this, sockArr, eventArr
    {
      && sockArr.Length == eventArr.Length == WSA_MAXIMUM_WAIT_EVENTS
      && 1 <= num <= WSA_MAXIMUM_WAIT_EVENTS
      && ListenerFirst(sockArr[..num])
      // each socket has its own event at the same index
      && Pairs(sockArr[..num], eventArr[..num])
    }

    ghost function State(): Table
      requires num <= sockArr.Length
      reads this, sockArr
    {
      Table(sockArr[..num], accepted, closed)
    }

    constructor ()
      ensures Valid() && State() == INITIAL && Inv(State())
      ensures sockArr.Length == eventArr.Length == 64
    {
      sockArr := new Socket[WSA_MAXIMUM_WAIT_EVENTS](_ => Listener);
      eventArr := new Event[WSA_MAXIMUM_WAIT_EVENTS](_ => EventOf(Listener));
      num, accepted, closed := 1, 0, {};
      new;
      assert sockArr[..num] == [Listener];
    }

    method Accept()
      requires Valid() && num < WSA_MAXIMUM_WAIT_EVENTS
      modifies this, sockArr, eventArr
      ensures Valid() && State() == Opened(old(State())) && num == old(num) + 1
    {
      hide Pairs, ListenerFirst;
      ghost var socks, events := sockArr[..num], eventArr[..num];
      sockArr[num] := Client(accepted);
      eventArr[num] := EventOf(Client(accepted));
      num := num + 1;
      accepted := accepted + 1;
      assert sockArr[..num] == socks + [Client(accepted - 1)];
      assert eventArr[..num] == events + [EventOf(Client(accepted - 1))];
      PairedAnother(socks, events, Client(accepted - 1));
    }

    method Close(i: nat)
      requires Valid() && 0 < i < num && sockArr[i].Client?
      modifies this, sockArr, eventArr
      ensures Valid() && State() == Dropped(old(State()), i) && num == old(num) - 1
    {
      hide Pairs, ListenerFirst;
      ghost var socks, events := sockArr[..num], eventArr[..num];
      closed := closed + {sockArr[i].id};
      num := num - 1;
      CompressSockets(sockArr, i, num);
      CompressEvents(eventArr, i, num);
      assert sockArr[..num] == Without(socks, i) && eventArr[..num] == Without(events, i);
      PairedWithout(socks, events, i);
      FirstWithout(socks, i);
    }

    /** One pass of the inner loop. If it starts at the listener and a connection has come in, there
        must be room for it. */
    method Pass(startIdx: nat, env: nat -> Report)
      returns (ghost examined: seq<Socket>, echoed: seq<Socket>, broke: bool)
      requires Valid() && HasRoom(num, PassEnv(startIdx, env))
      modifies this, sockArr, eventArr
      ensures Valid()
      ensures var r := Scan(old(State()), startIdx, env, 0);
              State() == r.t && examined == r.examined && echoed == r.echoed && broke == r.broke
      // what the pass does with the j-th entry it examines, by what is reported for it
      ensures old(Inv(State())) ==>
                && (forall j :: 0 <= j < |examined| ==>
                      var (s, report) := (examined[j], env(j));
                      && (s in echoed <==> s.Client? && report.Signalled? && report.read == On)
                      && (s.Client? ==> (s.id in closed <==>
                            report.Signalled? && report.close == On && report.read != Failed)))
                && (forall c :: c in closed ==> c in old(closed) || Client(c) in examined)
                && accepted == old(accepted)
                     + (if startIdx == 0 && env(0).Signalled? && env(0).accept == On then 1 else 0)
    {
      hide Scan, ScansTo, EchoOf, Pairs, Masked, EffectOf, ListenerFirst, Opened, Dropped, Inv;
      ghost var t0 := State();
      ScansFrom(t0, startIdx, env);
      var i := startIdx;
      var time := 0;
      examined, echoed := [], [];
      broke := false;
      while i < num
        invariant 0 <= i && Valid() && !broke
        invariant i == 0 ==> startIdx == time == 0 && HasRoom(num, PassEnv(startIdx, env))
        invariant ScansTo(t0, startIdx, env, examined, echoed, State(), i, time)
        decreases i == 0, num - i
      {
        var s := sockArr[i];
        ghost var t := State();
        assert t.socks[i] == s && eventArr[i].socket == s by {
          PairAt(sockArr[..num], eventArr[..num], i);
        }
        FirstAt(t.socks, i);
        assert echoed + [] == echoed;
        ScansOn(t0, startIdx, env, examined, echoed, t, i, time);
        examined := examined + [s];
        // the wait is on the event, and it reports for the socket that the event was registered for
        var netEvents := Masked(eventArr[i].socket, env(time));
        BodyTests(s, env(time));
        time := time + 1;
        if netEvents == Idle {
          i := i + 1;
          continue;
        }
        if netEvents.accept != Off {
          if netEvents.accept == Failed {
            broke := true;
            break;
          }
          Accept();
        }
        if netEvents.read != Off {
          if netEvents.read == Failed {
            broke := true;
            break;
          }
          echoed := echoed + [s];
        }
        if netEvents.close != Off {
          if netEvents.close == Failed {
            broke := true;
            break;
          }
          Close(i);
        }
        i := i + 1;
      }
      if !broke {
        ScansOut(t0, startIdx, env, examined, echoed, State(), i, time);
      }
      if Inv(t0) {
        PassExact(t0, PassEnv(startIdx, env));
      }
    }

    /** The outer loop over any list of passes: the arrays hold exactly the open connections, in accept
        order, each socket next to its own event. */
    method Run(ps: seq<PassEnv>)
      requires Valid() && Inv(State())
      requires forall k :: 0 <= k < |ps| ==> HasRoom(|RunPasses(State(), ps[..k]).socks|, ps[k])
      modifies this, sockArr, eventArr
      ensures Valid() && State() == RunPasses(old(State()), ps) && Inv(State())
      ensures sockArr[..num] == [Listener] + Live(accepted, closed)
    {
      ghost var t0 := State();
      var k := 0;
      while k < |ps|
        invariant 0 <= k <= |ps| && Valid() && State() == RunPasses(t0, ps[..k])
      {
        var _, _, _ := Pass(ps[k].start, ps[k].env);
        RunPassesSnoc(t0, ps, k);
        k := k + 1;
      }
      assert ps[..|ps|] == ps;
      RunKeepsInv(t0, ps);
    }
  }

  lemma {:induction false} RunPassesSnoc(t: Table, ps: seq<PassEnv>, k: nat)
    requires ListenerFirst(t.socks) && k < |ps|
    ensures RunPasses(t, ps[..k + 1]) == RunPass(RunPasses(t, ps[..k]), ps[k]).t
    decreases k
  {
    if k == 0 {
      assert ps[..1] == [ps[0]];
    } else {
      assert ps[..k + 1][1..] == ps[1..][..k] && ps[..k][1..] == ps[1..][..k - 1];
      RunPassesSnoc(RunPass(t, ps[0]).t, ps[1..], k - 1);
    }
  }
}
