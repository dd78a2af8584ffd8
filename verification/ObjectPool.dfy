/** The object pool (Mempool.h): objects are allocated in batches when none is free, handed out in the
    order in which they came back, and returned by the clients that hold them. Each operation runs
    under the pool's lock, so it is one step. */
module ObjectPool {
  import opened Utils

  /** `free` is the queue m_mempool; `held` the objects handed out, each with the client that has it;
      `all` the objects ever allocated; `peak` the largest number held at once. */
  datatype Pool<T(==)> = Pool(free: seq<T>, held: set<(nat, T)>, all: set<T>, peak: nat)

  ghost predicate NoDup<T>(s: seq<T>) { forall i, j :: 0 <= i < j < |s| ==> s[i] != s[j] }

  function Elements<T>(s: seq<T>): set<T> { set x | x in s }

  function Refilled<T>(p: Pool<T>, batch: seq<T>): Pool<T> {
    p.(free := p.free + batch, all := p.all + Elements(batch))
  }

  function Taken<T>(p: Pool<T>, client: nat): Pool<T>
    requires p.free != []
  {
    Pool(p.free[1..], p.held + {(client, p.free[0])}, p.all, Max(p.peak, |p.held| + 1))
  }

  /** pop(): `batch` is what `new` returns if the pool is empty. */
  function Popped<T>(p: Pool<T>, client: nat, batch: seq<T>): Pool<T>
    requires batch != []
  {
    Taken(if p.free == [] then Refilled(p, batch) else p, client)
  }

  function Pushed<T>(p: Pool<T>, client: nat, x: T): Pool<T> {
    p.(free := p.free + [x], held := p.held - {(client, x)})
  }

  /** What `new` returns has not been allocated before. */
  ghost predicate FreshBatch<T>(p: Pool<T>, batch: seq<T>, size: nat) {
    |batch| == size && NoDup(batch) && forall x :: x in batch ==> x !in p.all
  }

  /** The number of batches that n objects take. */
  function Batches(n: nat, size: nat): nat
    requires size > 0
  {
    (n + size - 1) / size
  }

  /** The objects in the batches that a peak demand takes; one batch is there from the start. */
  function Demanded(peak: nat, size: nat): nat
    requires size > 0
  {
    size * Max(1, Batches(peak, size))
  }

  /** Every object is in one place: once in the queue or with one client. */
  ghost predicate Apart<T>(p: Pool<T>) {
    && NoDup(p.free)
    && (forall h, k :: h in p.held && k in p.held && h.1 == k.1 ==> h == k)
    && (forall h :: h in p.held ==> h.1 !in p.free && h.1 in p.all)
    && (forall x :: x in p.free ==> x in p.all)
    && (forall x :: x in p.all ==> x in p.free || exists h :: h in p.held && h.1 == x)
  }

  ghost predicate Inv<T>(p: Pool<T>, size: nat) {
    && size > 0
    // no object is held by two clients, or both held and pooled
    && Apart(p)
    // allocated = pooled + held
    && |p.all| == |p.free| + |p.held|
    // no batch more than the peak demanded
    && |p.held| <= p.peak
    && |p.all| == Demanded(p.peak, size)
  }

  /** m batches are what n objects take, if n needs the last one and no further. */
  lemma BatchesIs(n: nat, size: nat, m: nat)
    requires size > 0 && m > 0 && size * (m - 1) < n <= size * m
    ensures Batches(n, size) == m
  {
    var q := Batches(n, size);
    assert n + size - 1 == size * q + (n + size - 1) % size;
    Scaled(size, q, m - 1);
    Scaled(size, m + 1, q);
  }

  lemma Scaled(size: nat, a: nat, b: nat)
    ensures a <= b ==> size * a <= size * b
  {
  }

  lemma BatchesCover(n: nat, size: nat)
    requires size > 0
    ensures n <= size * Batches(n, size)
    ensures n > 0 ==> size * (Batches(n, size) - 1) < n
  {
    var q := Batches(n, size);
    assert n + size - 1 == size * q + (n + size - 1) % size;
  }

  lemma MoreBatches(size: nat, m: nat)
    ensures size * Max(1, m) >= size && size * Max(1, m) >= size * m
  {
  }

  lemma PeakFits<T>(p: Pool<T>, size: nat)
    requires Inv(p, size)
    ensures p.peak <= |p.all|
  {
    BatchesCover(p.peak, size);
    MoreBatches(size, Batches(p.peak, size));
  }

  lemma {:induction false} ElementsCard<T>(s: seq<T>)
    requires NoDup(s)
    ensures |Elements(s)| == |s|
    decreases |s|
  {
    if s != [] {
      var rest := s[..|s| - 1];
      ElementsCard(rest);
      assert Elements(s) == Elements(rest) + {s[|s| - 1]};
    }
  }

  /** Taking an object when there is room under the peak keeps the number of batches right. */
  lemma PeakGrows(all: nat, held: nat, peak: nat, size: nat)
    requires size > 0 && all == Demanded(peak, size) && held + 1 <= all
    ensures all == Demanded(Max(peak, held + 1), size)
  {
    if peak < held + 1 {
      var m := Max(1, Batches(peak, size));
      BatchesCover(peak, size);
      BatchesIs(held + 1, size, m);
    }
  }

  /** A further batch is allocated only when every object is held. */
  lemma BatchAdded(all: nat, peak: nat, size: nat)
    requires size > 0 && all == Demanded(peak, size) && peak <= all
    ensures all + size == Demanded(all + 1, size)
  {
    var m := Max(1, Batches(peak, size));
    BatchesIs(all + 1, size, m + 1);
  }

  /** The pool as the constructor leaves it. */
  function Initial<T>(batch: seq<T>): Pool<T> {
    Refilled(Pool([], {}, {}, 0), batch)
  }

  lemma InitialInv<T>(batch: seq<T>, size: nat)
    requires size > 0 && FreshBatch(Pool([], {}, {}, 0), batch, size)
    ensures Inv(Initial(batch), size)
  {
    ElementsCard(batch);
    assert Batches(0, size) == 0;
    assert [] + batch == batch;
  }

  lemma NoDupTail<T>(s: seq<T>)
    requires NoDup(s) && s != []
    ensures NoDup(s[1..]) && s[0] !in s[1..]
    ensures forall x :: x in s <==> x == s[0] || x in s[1..]
  {
    assert s == [s[0]] + s[1..];
  }

  /** Handing out the object at the front. */
  lemma TakenApart<T>(p: Pool<T>, client: nat)
    requires p.free != [] && Apart(p)
    ensures Apart(Taken(p, client))
    ensures |Taken(p, client).held| == |p.held| + 1 && |Taken(p, client).free| == |p.free| - 1
  {
    hide NoDup;
    var q := Taken(p, client);
    var h0 := (client, p.free[0]);
    NoDupTail(p.free);
    TakenHeld(p, h0, q.free);
    assert q.held == p.held + {h0} && h0 !in p.held;
    forall x | x in q.all ensures x in q.free || exists h :: h in q.held && h.1 == x {
      if x == h0.1 {
        assert h0 in q.held;
      } else if x !in q.free {
        assert x !in p.free;
        var h :| h in p.held && h.1 == x;
        assert h in q.held;
      }
    }
  }

  lemma TakenHeld<T>(p: Pool<T>, h0: (nat, T), rest: seq<T>)
    requires Apart(p) && h0.1 in p.free && h0.1 !in rest
    requires forall x :: x in rest ==> x in p.free
    ensures forall h, k :: h in p.held + {h0} && k in p.held + {h0} && h.1 == k.1 ==> h == k
    ensures forall h :: h in p.held + {h0} ==> h.1 !in rest && h.1 in p.all
    ensures h0 !in p.held
  {
    hide NoDup;
  }

  /** A batch of new objects, when none is free. */
  lemma RefilledApart<T>(p: Pool<T>, batch: seq<T>, size: nat)
    requires Apart(p) && p.free == [] && FreshBatch(p, batch, size)
    ensures Apart(Refilled(p, batch)) && |Refilled(p, batch).all| == |p.all| + size
  {
    assert p.free + batch == batch;
    ElementsCard(batch);
    assert p.all !! Elements(batch);
    forall x | x in Refilled(p, batch).all
      ensures x in Refilled(p, batch).free || exists h :: h in p.held && h.1 == x
    {
    }
  }

  lemma PushedApart<T>(p: Pool<T>, client: nat, x: T)
    requires Apart(p) && (client, x) in p.held
    ensures Apart(Pushed(p, client, x)) && |Pushed(p, client, x).held| == |p.held| - 1
  {
    var q := Pushed(p, client, x);
    assert x in q.free;
    forall y | y in q.all ensures y in q.free || exists h :: h in q.held && h.1 == y {
      if y !in q.free {
        assert y !in p.free;
        var h :| h in p.held && h.1 == y;
        assert h in q.held;
      }
    }
    forall y | y in q.free ensures y in q.all {
    }
  }

  lemma PoppedInv<T>(p: Pool<T>, client: nat, batch: seq<T>, size: nat)
    requires Inv(p, size) && FreshBatch(p, batch, size)
    ensures Inv(Popped(p, client, batch), size)
  {
    hide Apart, Demanded;
    PeakFits(p, size);
    if p.free == [] {
      RefilledApart(p, batch, size);
      TakenApart(Refilled(p, batch), client);
      BatchAdded(|p.all|, p.peak, size);
      assert Popped(p, client, batch).peak == |p.all| + 1;
    } else {
      TakenApart(p, client);
      PeakGrows(|p.all|, |p.held|, p.peak, size);
    }
  }

  lemma PushedInv<T>(p: Pool<T>, client: nat, x: T, size: nat)
    requires Inv(p, size) && (client, x) in p.held
    ensures Inv(Pushed(p, client, x), size)
  {
    hide Apart, Demanded;
    PushedApart(p, client, x);
  }

  // Runs

  datatype Event<T> = Pop(client: nat, batch: seq<T>) | Push(client: nat, x: T)

  /** Clients push only what they hold. */
  ghost predicate Legal<T>(p: Pool<T>, e: Event<T>, size: nat) {
    match e
    case Pop(_, batch) => FreshBatch(p, batch, size)
    case Push(c, x) => (c, x) in p.held
  }

  function Step<T>(p: Pool<T>, e: Event<T>): Pool<T>
    requires e.Pop? ==> e.batch != []
  {
    match e
    case Pop(c, batch) => Popped(p, c, batch)
    case Push(c, x) => Pushed(p, c, x)
  }

  /** q can be reached from p by the events. */
  ghost predicate Reaches<T>(p: Pool<T>, es: seq<Event<T>>, q: Pool<T>, size: nat)
    decreases |es|
  {
    if es == [] then q == p
    else size > 0 && Legal(p, es[0], size) && Reaches(Step(p, es[0]), es[1..], q, size)
  }

  /** Safety and tight allocation: no object is held twice or both held and pooled, none
      is lost, and exactly as many batches are allocated as the largest demand so far takes. */
  lemma {:induction false} PoolSafe<T>(p: Pool<T>, es: seq<Event<T>>, q: Pool<T>, size: nat)
    requires Inv(p, size) && Reaches(p, es, q, size)
    ensures Inv(q, size)
    decreases |es|
  {
    if es != [] {
      match es[0] {
        case Pop(c, batch) => PoppedInv(p, c, batch, size);
        case Push(c, x) => PushedInv(p, c, x, size);
      }
      PoolSafe(Step(p, es[0]), es[1..], q, size);
    }
  }

  /** The same for a pool as its constructor leaves it. */
  lemma EveryRunSafe<T>(batch: seq<T>, es: seq<Event<T>>, q: Pool<T>, size: nat)
    requires size > 0 && FreshBatch(Pool([], {}, {}, 0), batch, size)
    requires Reaches(Initial(batch), es, q, size)
    ensures Apart(q) && |q.all| == |q.free| + |q.held|
    ensures |q.held| <= q.peak && |q.all| == Demanded(q.peak, size)
  {
    InitialInv(batch, size);
    PoolSafe(Initial(batch), es, q, size);
  }

  /** The largest number of objects held so far: never exceeded, and reached. */
  lemma {:induction false} PeakExact<T>(p: Pool<T>, es: seq<Event<T>>, q: Pool<T>, size: nat)
    returns (n: nat, m: Pool<T>)
    requires Inv(p, size) && Reaches(p, es, q, size)
    ensures p.peak <= q.peak && |q.held| <= q.peak
    ensures n <= |es| && Reaches(p, es[..n], m, size) && (q.peak == p.peak || |m.held| == q.peak)
    decreases |es|
  {
    hide Inv, Popped, Pushed, FreshBatch, Demanded, Apart;
    PoolSafe(p, es, q, size);
    HeldBound(q, size);
    if es == [] {
      n, m := 0, p;
    } else {
      BatchThere(p, es[0], size);
      var r := Step(p, es[0]);
      StepInv(p, es[0], size);
      var n', m' := PeakExact(r, es[1..], q, size);
      StepPeak(p, es[0], size);
      if q.peak == r.peak {
        n, m := 1, r;
        assert es[..1] == [es[0]] && [es[0]][1..] == [];
      } else {
        n, m := n' + 1, m';
        assert es[..n][0] == es[0] && es[..n][1..] == es[1..][..n'];
      }
    }
  }

  lemma BatchThere<T>(p: Pool<T>, e: Event<T>, size: nat)
    requires size > 0 && Legal(p, e, size)
    ensures e.Pop? ==> e.batch != []
  {
  }

  lemma HeldBound<T>(p: Pool<T>, size: nat)
    requires Inv(p, size)
    ensures |p.held| <= p.peak
  {
  }

  lemma StepInv<T>(p: Pool<T>, e: Event<T>, size: nat)
    requires Inv(p, size) && size > 0 && Legal(p, e, size)
    ensures Inv(Step(p, e), size)
  {
    hide Inv, Popped, Pushed;
    match e {
      case Pop(c, batch) => PoppedInv(p, c, batch, size);
      case Push(c, x) => PushedInv(p, c, x, size);
    }
  }

  /** A step raises the peak only to what is held after it. */
  lemma StepPeak<T>(p: Pool<T>, e: Event<T>, size: nat)
    requires Inv(p, size) && size > 0 && Legal(p, e, size)
    ensures p.peak <= Step(p, e).peak && (Step(p, e).peak == p.peak || |Step(p, e).held| == Step(p, e).peak)
  {
    if e.Pop? {
      var full := if p.free == [] then Refilled(p, e.batch) else p;
      if p.free == [] {
        RefilledApart(p, e.batch, size);
      }
      TakenApart(full, e.client);
    }
  }

  /** What pop hands out along the events, in order. */
  ghost function HandedOut<T>(p: Pool<T>, es: seq<Event<T>>, q: Pool<T>, size: nat): seq<T>
    requires Reaches(p, es, q, size)
    decreases |es|
  {
    if es == [] then []
    else
      (match es[0]
       case Pop(_, batch) => if p.free == [] then [batch[0]] else [p.free[0]]
       case Push(_, _) => [])
      + HandedOut(Step(p, es[0]), es[1..], q, size)
  }

  /** What comes into the queue along the events, in order: objects returned, and batches. */
  ghost function ComingIn<T>(p: Pool<T>, es: seq<Event<T>>, q: Pool<T>, size: nat): seq<T>
    requires Reaches(p, es, q, size)
    decreases |es|
  {
    if es == [] then []
    else
      (match es[0]
       case Pop(_, batch) => if p.free == [] then batch else []
       case Push(_, x) => [x])
      + ComingIn(Step(p, es[0]), es[1..], q, size)
  }

  function Pops<T>(es: seq<Event<T>>): nat
    decreases |es|
  {
    if es == [] then 0 else AsNat(es[0].Pop?) + Pops(es[1..])
  }

  /** First in, first out, over any interleaving of pops, pushes and refills: what has been handed out,
      followed by what is free now, is what was free before, followed by what came in. */
  lemma {:induction false} Queued<T>(p: Pool<T>, es: seq<Event<T>>, q: Pool<T>, size: nat)
    requires Reaches(p, es, q, size)
    ensures HandedOut(p, es, q, size) + q.free == p.free + ComingIn(p, es, q, size)
    ensures |HandedOut(p, es, q, size)| == Pops(es)
    decreases |es|
  {
    if es != [] {
      var r := Step(p, es[0]);
      Queued(r, es[1..], q, size);
      var (given, come) := (HandedOut(r, es[1..], q, size), ComingIn(r, es[1..], q, size));
      match es[0] {
        case Pop(_, batch) =>
          var first := (if p.free == [] then batch else p.free)[0];
          assert [first] + r.free == p.free + if p.free == [] then batch else [];
          Regroup([first], r.free, given, q.free, come, p.free, if p.free == [] then batch else []);
        case Push(_, x) =>
          Regroup([], r.free, given, q.free, come, p.free, [x]);
      }
    }
  }

  lemma Regroup<T>(out: seq<T>, free: seq<T>, given: seq<T>, left: seq<T>, come: seq<T>, had: seq<T>, more: seq<T>)
    requires given + left == free + come && out + free == had + more
    ensures (out + given) + left == had + (more + come)
  {
    assert (out + given) + left == out + (given + left);
    assert out + (free + come) == (out + free) + come;
    assert (had + more) + come == had + (more + come);
  }

  /** The object that is k-th in the queue is handed out by the pop behind the next k, and before that
      moves up one place with every pop, whatever else is pushed or allocated in between. */
  lemma Fifo<T>(p: Pool<T>, es: seq<Event<T>>, q: Pool<T>, size: nat, k: nat)
    requires Reaches(p, es, q, size) && k < |p.free|
    ensures |HandedOut(p, es, q, size)| == Pops(es)
    ensures if Pops(es) <= k then k - Pops(es) < |q.free| && q.free[k - Pops(es)] == p.free[k]
            else HandedOut(p, es, q, size)[k] == p.free[k]
  {
    Queued(p, es, q, size);
    var all := HandedOut(p, es, q, size) + q.free;
    assert all[k] == p.free[k];
  }

  /** An object of the pool. */
  class Item {
    constructor () {}
  }

  class Mempool {
    const allocSize: nat
    var mempool: seq<Item>
    ghost var held: set<(nat, Item)>
    ghost var all: set<Item>
    ghost var peak: nat

    ghost function State(): Pool<Item>
      reads this
    {
      Pool(mempool, held, all, peak)
    }

    constructor (size: nat)
      requires size > 0
      ensures allocSize == size && Inv(State(), size) && held == {} && fresh(all)
    {
      allocSize := size;
      mempool, held, all, peak := [], {}, {}, 0;
      new;
      ghost var batch := Alloc();
      InitialInv(batch, size);
    }

    method Alloc() returns (ghost batch: seq<Item>)
      modifies `mempool, `all
      ensures State() == Refilled(old(State()), batch)
      ensures |batch| == allocSize && NoDup(batch) && fresh(Elements(batch))
    {
      batch := [];
      assert old(mempool) + [] == old(mempool);
      assert old(all) + Elements([]) == old(all);
      var i := 0;
      while i < allocSize
        invariant 0 <= i <= allocSize && |batch| == i
        invariant NoDup(batch) && fresh(Elements(batch))
        invariant mempool == old(mempool) + batch && all == old(all) + Elements(batch)
      {
        var obj := new Item();
        assert obj !in Elements(batch);
        assert Elements(batch + [obj]) == Elements(batch) + {obj};
        batch := batch + [obj];
        mempool := mempool + [obj];
        all := all + {obj};
        i := i + 1;
      }
    }

    /** Clients push only what they hold. */
    method Push(obj: Item, ghost client: nat)
      requires Inv(State(), allocSize) && (client, obj) in held
      modifies this
      ensures Inv(State(), allocSize) && State() == Pushed(old(State()), client, obj)
    {
      PushedInv(State(), client, obj, allocSize);
      mempool := mempool + [obj];
      held := held - {(client, obj)};
    }

    /** The object that has been free longest, or the first of a new batch. */
    method Pop(ghost client: nat) returns (obj: Item, ghost batch: seq<Item>)
      requires Inv(State(), allocSize)
      modifies this
      ensures Inv(State(), allocSize) && batch != [] && State() == Popped(old(State()), client, batch)
      ensures (client, obj) in held && forall h :: h in old(held) ==> h.1 != obj
      ensures if old(mempool) == [] then fresh(obj) else obj == old(mempool[0])
    {
      hide Inv, FreshBatch;
      ghost var p := State();
      Owned(p, allocSize);
      if |mempool| == 0 {
        batch := Alloc();
        NewBatch(p, batch, allocSize);
        PoppedInv(p, client, batch, allocSize);
        assert mempool == batch && batch[0] in Elements(batch);
      } else {
        batch := [mempool[0]];
        assert mempool[0] in p.free;
        PoppedOld(p, client, batch, allocSize);
      }
      obj := mempool[0];
      mempool := mempool[1..];
      peak := Max(peak, |held| + 1);
      held := held + {(client, obj)};
    }

    lemma Owned(p: Pool<Item>, size: nat)
      requires Inv(p, size)
      ensures size > 0 && (forall h :: h in p.held ==> h.1 !in p.free && h.1 in p.all)
    {
    }

    lemma NewBatch(p: Pool<Item>, batch: seq<Item>, size: nat)
      requires |batch| == size && NoDup(batch) && forall x :: x in batch ==> x !in p.all
      ensures FreshBatch(p, batch, size)
    {
    }

    /** What a batch would hold does not matter while an object is free. */
    lemma PoppedOld(p: Pool<Item>, client: nat, batch: seq<Item>, size: nat)
      requires Inv(p, size) && p.free != [] && batch != []
      ensures Inv(Popped(p, client, batch), size)
    {
      hide Apart, Demanded;
      TakenApart(p, client);
      PeakGrows(|p.all|, |p.held|, p.peak, size);
    }

    /** The destructor's loop: what is pooled is deleted, what clients hold is not. */
    method Free()
      modifies `mempool
      ensures mempool == []
    {
      while mempool != []
        decreases |mempool|
      {
        mempool := mempool[1..];
      }
    }
  }
}
