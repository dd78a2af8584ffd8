/** Two threads hand values over through one shared variable and two semaphores (semaphore.c). A step
    is one statement of one thread; the steps of the two interleave freely. `inputs` are the numbers
    that scanf returns, one for each of the rounds. */
module HandOff {
  import opened Utils

  /** Where a thread stands in its loop: at the test, at sem_wait, between the semaphores before and
      after its access to num, past sem_post, or out of the loop. */
  datatype Pc = Test | Wait | Access | Post | Next | Done

  datatype AccessToNum = Write(v: int) | Read(v: int)

  datatype State = State(
    one: nat, two: nat, num: int, sum: int,
    r: Pc, ri: nat, a: Pc, ai: nat,
    printed: seq<int>, log: seq<AccessToNum>)

  const INITIAL := State(0, 1, 0, 0, Test, 0, Test, 0, [], [])

  predicate CanRead(s: State, inputs: seq<int>) {
    s.r != Done && (s.r == Wait ==> s.two > 0) && (s.r == Access ==> s.ri < |inputs|)
  }

  /** The next statement of thread `read`. */
  function DoRead(s: State, inputs: seq<int>): State
    requires CanRead(s, inputs)
  {
    match s.r
    case Test => s.(r := if s.ri < |inputs| then Wait else Done)
    case Wait => s.(two := s.two - 1, r := Access)
    case Access => s.(num := inputs[s.ri], r := Post, log := s.log + [Write(inputs[s.ri])])
    case Post => s.(one := s.one + 1, r := Next)
    case Next => s.(ri := s.ri + 1, r := Test)
  }

  predicate CanAccu(s: State) {
    s.a != Done && (s.a == Wait ==> s.one > 0)
  }

  /** The next statement of thread `accu`, which prints the sum when its loop is over. */
  function DoAccu(s: State, inputs: seq<int>): State
    requires CanAccu(s)
  {
    match s.a
    case Test => if s.ai < |inputs| then s.(a := Wait) else s.(a := Done, printed := s.printed + [s.sum])
    case Wait => s.(one := s.one - 1, a := Access)
    case Access => s.(sum := s.sum + s.num, a := Post, log := s.log + [Read(s.num)])
    case Post => s.(two := s.two + 1, a := Next)
    case Next => s.(ai := s.ai + 1, a := Test)
  }

  ghost predicate Step(s: State, s': State, inputs: seq<int>) {
    (CanRead(s, inputs) && s' == DoRead(s, inputs)) || (CanAccu(s) && s' == DoAccu(s, inputs))
  }

  function Sum(xs: seq<int>): int {
    if xs == [] then 0 else Sum(xs[..|xs| - 1]) + xs[|xs| - 1]
  }

  /** The sum of the first n inputs. */
  function SumOf(inputs: seq<int>, n: nat): int
    requires n <= |inputs|
  {
    Sum(inputs[..n])
  }

  /** The first k accesses to num when each value is written once and then read once. */
  function Alternating(inputs: seq<int>, k: nat): seq<AccessToNum>
    requires k <= 2 * |inputs|
  {
    if k == 0 then []
    else Alternating(inputs, k - 1)
         + [if k % 2 == 1 then Write(inputs[(k - 1) / 2]) else Read(inputs[(k - 1) / 2])]
  }

  predicate InCritical(pc: Pc) { pc == Access || pc == Post }
  predicate Waited(pc: Pc) { pc == Access || pc == Post || pc == Next }
  predicate Accessed(pc: Pc) { pc == Post || pc == Next }

  function Writes(s: State): nat { s.ri + AsNat(Accessed(s.r)) }
  function Reads(s: State): nat { s.ai + AsNat(Accessed(s.a)) }

  predicate PcOk(pc: Pc, i: nat, n: nat) {
    if pc == Done then i == n else if pc == Test then i <= n else i < n
  }

  ghost predicate Inv(s: State, inputs: seq<int>) {
    && PcOk(s.r, s.ri, |inputs|) && PcOk(s.a, s.ai, |inputs|)
    // the semaphores count posts minus waits
    && s.one + s.ai + AsNat(Waited(s.a)) == s.ri + AsNat(s.r == Next)
    && s.two + s.ri + AsNat(Waited(s.r)) == 1 + s.ai + AsNat(s.a == Next)
    // nothing is lost, and nothing is counted twice
    && Reads(s) <= Writes(s) <= |inputs|
    && s.sum == SumOf(inputs, Reads(s))
    && s.num == (if Writes(s) == 0 then 0 else inputs[Writes(s) - 1])
    && s.log == Alternating(inputs, Writes(s) + Reads(s))
    && s.printed == if s.a == Done then [s.sum] else []
  }

  lemma InitialInv(inputs: seq<int>)
    ensures Inv(INITIAL, inputs)
  {
    hide Inv;
    StartInv(INITIAL, inputs);
  }

  lemma StartInv(s: State, inputs: seq<int>)
    requires s == INITIAL
    ensures Inv(s, inputs)
  {
    hide SumOf, Alternating;
    NothingYet(inputs, Reads(s), Writes(s) + Reads(s));
  }

  lemma NothingYet(inputs: seq<int>, n: nat, k: nat)
    requires n == k == 0
    ensures SumOf(inputs, n) == 0 && Alternating(inputs, k) == []
  {
  }

  lemma SumSnoc(xs: seq<int>, n: nat)
    requires n < |xs|
    ensures SumOf(xs, n + 1) == SumOf(xs, n) + xs[n]
  {
    assert xs[..n + 1][..n] == xs[..n];
  }

  lemma ReadKeepsInv(s: State, inputs: seq<int>)
    requires Inv(s, inputs) && CanRead(s, inputs)
    ensures Inv(DoRead(s, inputs), inputs)
  {
    hide SumOf, Alternating;
    if s.r == Access {
      NextAccess(inputs, 2 * s.ri);
    }
  }

  /** The access to num that comes after the first k. */
  lemma NextAccess(inputs: seq<int>, k: nat)
    requires k < 2 * |inputs|
    ensures Alternating(inputs, k + 1)
         == Alternating(inputs, k) + [if k % 2 == 0 then Write(inputs[k / 2]) else Read(inputs[k / 2])]
  {
  }

  lemma AccuKeepsInv(s: State, inputs: seq<int>)
    requires Inv(s, inputs) && CanAccu(s)
    ensures Inv(DoAccu(s, inputs), inputs)
  {
    hide SumOf, Alternating;
    if s.a == Access {
      NextAccess(inputs, 2 * s.ai + 1);
      SumSnoc(inputs, Reads(s));
    }
  }

  /** The token: at any time it lies in one of the semaphores or one thread is between its wait and its
      post; so the threads exclude each other, and accesses to num strictly alternate. */
  lemma Exclusion(s: State, inputs: seq<int>)
    requires Inv(s, inputs)
    ensures s.one + s.two + AsNat(InCritical(s.r)) + AsNat(InCritical(s.a)) == 1
    ensures !(InCritical(s.r) && InCritical(s.a))
    ensures Writes(s) - Reads(s) <= 1
  {
  }

  lemma ReadInRange(s: State, inputs: seq<int>)
    requires Inv(s, inputs)
    ensures s.r == Access ==> s.ri < |inputs|
  {
  }

  predicate Finished(s: State) { s.r == Done && s.a == Done }

  /** As long as a thread is left, some thread can take a step. */
  lemma NoDeadlock(s: State, inputs: seq<int>)
    requires Inv(s, inputs)
    ensures Finished(s) <==> !CanRead(s, inputs) && !CanAccu(s)
  {
  }

  /** The steps a thread has left. */
  function Left(pc: Pc, i: nat, n: nat): int {
    if pc == Done then 0
    else 5 * (n - i) + 1 - match pc case Test => 0 case Wait => 1 case Access => 2 case Post => 3 case Next => 4
  }

  function Work(s: State, inputs: seq<int>): int { Left(s.r, s.ri, |inputs|) + Left(s.a, s.ai, |inputs|) }

  lemma WorkLeft(s: State, inputs: seq<int>)
    requires Inv(s, inputs)
    ensures 0 <= Work(s, inputs) && (Work(s, inputs) == 0 <==> Finished(s))
  {
    hide SumOf, Alternating;
  }

  lemma StepKeepsInv(s: State, s': State, inputs: seq<int>)
    requires Inv(s, inputs) && Step(s, s', inputs)
    ensures Inv(s', inputs)
  {
    hide Inv, DoRead, DoAccu;
    if CanRead(s, inputs) && s' == DoRead(s, inputs) {
      ReadKeepsInv(s, inputs);
    } else {
      AccuKeepsInv(s, inputs);
    }
  }

  lemma ReadWork(s: State, inputs: seq<int>)
    requires PcOk(s.r, s.ri, |inputs|) && CanRead(s, inputs)
    ensures Work(DoRead(s, inputs), inputs) == Work(s, inputs) - 1
  {
  }

  lemma AccuWork(s: State, inputs: seq<int>)
    requires PcOk(s.a, s.ai, |inputs|) && CanAccu(s)
    ensures Work(DoAccu(s, inputs), inputs) == Work(s, inputs) - 1
  {
  }

  lemma WorkShrinks(s: State, s': State, inputs: seq<int>)
    requires Inv(s, inputs) && Step(s, s', inputs)
    ensures 0 <= Work(s', inputs) == Work(s, inputs) - 1
  {
    hide SumOf, Alternating, Work, DoRead, DoAccu;
    StepKeepsInv(s, s', inputs);
    WorkLeft(s', inputs);
    if CanRead(s, inputs) && s' == DoRead(s, inputs) {
      ReadWork(s, inputs);
    } else {
      AccuWork(s, inputs);
    }
  }

  /** An interleaving from the start. */
  ghost predicate IsRun(run: seq<State>, inputs: seq<int>) {
    && run != [] && run[0] == INITIAL
    && forall k :: 0 <= k < |run| - 1 ==> Step(run[k], run[k + 1], inputs)
  }

  lemma {:induction false} RunInv(run: seq<State>, inputs: seq<int>, k: nat)
    requires IsRun(run, inputs) && k < |run|
    ensures Inv(run[k], inputs) && k + Work(run[k], inputs) == 10 * |inputs| + 2
    decreases k
  {
    hide Inv, Step;
    InitialInv(inputs);
    if k > 0 {
      RunInv(run, inputs, k - 1);
      assert Step(run[k - 1], run[k - 1 + 1], inputs);
      WorkShrinks(run[k - 1], run[k], inputs);
      StepKeepsInv(run[k - 1], run[k], inputs);
    }
  }

  /** Every interleaving, for every number of rounds and all inputs: it takes at most 10 N + 2 steps; it
      can go on until both threads are done, which happens after exactly that many; then every value
      has been written once and read once, in turn, and the sum printed is the sum of them all. */
  lemma EveryRun(run: seq<State>, inputs: seq<int>)
    requires IsRun(run, inputs)
    ensures var s := run[|run| - 1];
            && |run| - 1 <= 10 * |inputs| + 2
            && s.one + s.two + AsNat(InCritical(s.r)) + AsNat(InCritical(s.a)) == 1
            && (|run| - 1 == 10 * |inputs| + 2 <==> Finished(s))
            && (!Finished(s) ==> exists s' :: Step(s, s', inputs))
            && (Finished(s) ==> s == Final(inputs))
  {
    hide Inv, Work, Finished, Step;
    var s := run[|run| - 1];
    RunInv(run, inputs, |run| - 1);
    Exclusion(s, inputs);
    WorkLeft(s, inputs);
    if Finished(s) {
      FinishedMeans(s, inputs);
    } else {
      SomeStep(s, inputs);
    }
  }

  lemma SomeStep(s: State, inputs: seq<int>)
    requires Inv(s, inputs) && !Finished(s)
    ensures exists s' :: Step(s, s', inputs)
  {
    NoDeadlock(s, inputs);
    if CanRead(s, inputs) {
      assert Step(s, DoRead(s, inputs), inputs);
    } else {
      assert Step(s, DoAccu(s, inputs), inputs);
    }
  }

  /** Where every run ends: every value written and read once, in turn, and their sum printed. */
  function Final(inputs: seq<int>): State {
    var n := |inputs|;
    State(0, 1, if n == 0 then 0 else inputs[n - 1], Sum(inputs), Done, n, Done, n,
          [Sum(inputs)], Alternating(inputs, 2 * n))
  }

  /** The sum of all values, whichever way they are split. */
  lemma {:induction false} SumExact(xs: seq<int>, ys: seq<int>)
    ensures Sum([]) == 0 && (forall x :: Sum([x]) == x) && Sum(xs + ys) == Sum(xs) + Sum(ys)
    decreases |ys|
  {
    forall x: int ensures Sum([x]) == x {
      assert [x][..0] == [];
    }
    if ys == [] {
      assert xs + ys == xs;
    } else {
      var n := |ys| - 1;
      assert (xs + ys)[..|xs + ys| - 1] == xs + ys[..n];
      SumExact(xs, ys[..n]);
    }
  }

  /** Value after value is written and then read. */
  lemma {:induction false} AlternatingExact(inputs: seq<int>, k: nat)
    requires k <= 2 * |inputs|
    ensures |Alternating(inputs, k)| == k
    ensures forall i :: 0 <= 2 * i < k ==> Alternating(inputs, k)[2 * i] == Write(inputs[i])
    ensures forall i :: 0 <= 2 * i + 1 < k ==> Alternating(inputs, k)[2 * i + 1] == Read(inputs[i])
  {
    if k > 0 {
      AlternatingExact(inputs, k - 1);
    }
  }

  /** What a finished run has done. */
  lemma FinalExact(run: seq<State>, inputs: seq<int>)
    requires IsRun(run, inputs) && Finished(run[|run| - 1])
    ensures var (s, n) := (run[|run| - 1], |inputs|);
            && s.printed == [s.sum] && s.sum == Sum(inputs)
            && s.ri == s.ai == n && s.one == 0 && s.two == 1
            && |s.log| == 2 * n
            && forall i :: 0 <= i < n ==> s.log[2 * i] == Write(inputs[i]) && s.log[2 * i + 1] == Read(inputs[i])
  {
    hide IsRun, Sum, Alternating;
    EveryRun(run, inputs);
    AlternatingExact(inputs, 2 * |inputs|);
  }

  lemma FinishedMeans(s: State, inputs: seq<int>)
    requires Inv(s, inputs) && Finished(s)
    ensures s == Final(inputs)
  {
    hide Sum, Alternating;
    assert inputs[..|inputs|] == inputs;
  }

  /** The two threads on the variables they share; the scheduler picks one that can go on. */
  class Threads {
    var semOne: nat
    var semTwo: nat
    var num: int
    var sum: int
    var readPc: Pc
    var readI: nat
    var accuPc: Pc
    var accuI: nat
    var printed: seq<int>
    ghost var log: seq<AccessToNum>

    ghost function Now(): State
      reads this
    {
      State(semOne, semTwo, num, sum, readPc, readI, accuPc, accuI, printed, log)
    }

    constructor ()
      ensures Now() == INITIAL
    {
      semOne, semTwo, num, sum := 0, 1, 0, 0;
      readPc, readI, accuPc, accuI := Test, 0, Test, 0;
      printed, log := [], [];
    }

    method ReadStep(inputs: seq<int>)
      requires CanRead(Now(), inputs)
      modifies this
      ensures Now() == DoRead(old(Now()), inputs)
    {
      match readPc {
        case Test => readPc := if readI < |inputs| then Wait else Done;
        case Wait =>
          semTwo := semTwo - 1;
          readPc := Access;
        case Access =>
          num := inputs[readI];
          log := log + [Write(num)];
          readPc := Post;
        case Post =>
          semOne := semOne + 1;
          readPc := Next;
        case Next =>
          readI := readI + 1;
          readPc := Test;
      }
    }

    method AccuStep(inputs: seq<int>)
      requires CanAccu(Now())
      modifies this
      ensures Now() == DoAccu(old(Now()), inputs)
    {
      match accuPc {
        case Test =>
          if accuI < |inputs| {
            accuPc := Wait;
          } else {
            printed := printed + [sum];
            accuPc := Done;
          }
        case Wait =>
          semOne := semOne - 1;
          accuPc := Access;
        case Access =>
          sum := sum + num;
          log := log + [Read(num)];
          accuPc := Post;
        case Post =>
          semTwo := semTwo + 1;
          accuPc := Next;
        case Next =>
          accuI := accuI + 1;
          accuPc := Test;
      }
    }

    /** Under every scheduler both threads finish and the sum of all inputs is printed, once. */
    method Run(inputs: seq<int>, prefersRead: nat -> bool)
      requires Now() == INITIAL
      modifies this
      ensures readPc == Done && accuPc == Done && printed == [Sum(inputs)]
      ensures log == Alternating(inputs, 2 * |inputs|)
    {
      hide Inv, DoRead, DoAccu, Work;
      var t := 0;
      InitialInv(inputs);
      while readPc != Done || accuPc != Done
        invariant Inv(Now(), inputs)
        decreases Work(Now(), inputs)
      {
        ghost var s := Now();
        NoDeadlock(s, inputs);
        ReadInRange(s, inputs);
        var readCan := readPc != Done && (readPc == Wait ==> semTwo > 0);
        var accuCan := accuPc != Done && (accuPc == Wait ==> semOne > 0);
        if readCan && (prefersRead(t) || !accuCan) {
          ReadKeepsInv(s, inputs);
          ReadStep(inputs);
        } else {
          AccuKeepsInv(s, inputs);
          AccuStep(inputs);
        }
        WorkShrinks(s, Now(), inputs);
        t := t + 1;
      }
      FinishedMeans(Now(), inputs);
    }
  }
}
