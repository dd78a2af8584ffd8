/** The arithmetic of the growable byte buffer (Buffer_old.cpp): where the live bytes are, when they
    are moved, and what that costs over a run. */
module BufferShape {
  import opened Utils

  type Byte = x: int | 0 <= x < 256

  /** The indices b_, e_ and the sizes cap_, exp_. */
  datatype Shape = Shape(b: nat, e: nat, cap: nat, exp: nat) {
    predicate Ok() { b <= e <= cap }
    function Size(): nat requires Ok() { e - b }
    predicate Fits(len: nat) { e + len <= cap }
    predicate Slides(len: nat) requires Ok() { !Fits(len) && Size() + len < cap / 2 }

    /** makeRoom(len) */
    function Room(len: nat): (s: Shape)
      requires Ok()
      ensures s.Ok() && s.Size() == Size() && s.e + len <= s.cap && s.exp == exp
    {
      if Fits(len) then this
      else if Slides(len) then Shape(0, e - b, cap, exp)
      else Grown(len)
    }

    /** expand(len) */
    function Grown(len: nat): (s: Shape)
      requires Ok()
      ensures s.Ok() && s.Size() == Size() && s.e + len <= s.cap && s.exp == exp
    {
      Shape(0, e - b, Max(exp, Max(2 * cap, Size() + len)), exp)
    }

    function Appended(len: nat): (s: Shape)
      requires Ok()
      ensures s.Ok() && s.Size() == Size() + len && s.exp == exp
    {
      Room(len).(e := Room(len).e + len)
    }

    function Consumed(len: nat): (s: Shape)
      requires Ok() && len <= Size()
      ensures s.Ok() && s.Size() == Size() - len && s.exp == exp
    {
      if b + len == e then Shape(0, 0, 0, exp) else this.(b := b + len)
    }

    /** The bytes that makeRoom(len) copies. */
    function Relocated(len: nat): nat
      requires Ok()
    {
      if Fits(len) then 0 else Size()
    }

    /** What has been paid for but not yet spent on copying. */
    function Potential(): nat {
      b + if 2 * e > cap then 2 * e - cap else 0
    }
  }

  // Runs on one buffer

  datatype Op = Append(data: seq<Byte>) | Consume(len: nat)

  /** The run on a plain queue of bytes. */
  function Queue(ops: seq<Op>): seq<Byte> {
    if ops == [] then [] else
    match Last(ops)
    case Append(data) => Queue(Init(ops)) + data
    case Consume(len) => if len <= |Queue(Init(ops))| then Queue(Init(ops))[len..] else []
  }

  /** No operation consumes more than there is. */
  predicate Legal(ops: seq<Op>) {
    ops == [] || (Legal(Init(ops)) && (Last(ops).Consume? ==> Last(ops).len <= |Queue(Init(ops))|))
  }

  function ShapeAfter(ops: seq<Op>, exp: nat): (s: Shape)
    requires Legal(ops)
    ensures s.Ok() && s.Size() == |Queue(ops)| && s.exp == exp
  {
    if ops == [] then Shape(0, 0, 0, exp) else
    match Last(ops)
    case Append(data) => ShapeAfter(Init(ops), exp).Appended(|data|)
    case Consume(len) => ShapeAfter(Init(ops), exp).Consumed(len)
  }

  /** Bytes copied within or between arrays to make room, over the run. */
  function TotalRelocated(ops: seq<Op>, exp: nat): nat
    requires Legal(ops)
  {
    if ops == [] then 0 else
    match Last(ops)
    case Append(data) => TotalRelocated(Init(ops), exp) + ShapeAfter(Init(ops), exp).Relocated(|data|)
    case Consume(_) => TotalRelocated(Init(ops), exp)
  }

  function TotalAppended(ops: seq<Op>): nat {
    if ops == [] then 0 else TotalAppended(Init(ops)) + if Last(ops).Append? then |Last(ops).data| else 0
  }

  function TotalConsumed(ops: seq<Op>): nat {
    if ops == [] then 0 else TotalConsumed(Init(ops)) + if Last(ops).Consume? then Last(ops).len else 0
  }

  /** The largest number of live bytes during the run. */
  function Peak(ops: seq<Op>): nat {
    if ops == [] then 0 else Max(Peak(Init(ops)), |Queue(ops)|)
  }

  lemma {:induction false} LegalPrefix(ops: seq<Op>, n: nat)
    requires Legal(ops) && n <= |ops|
    ensures Legal(ops[..n])
    decreases |ops|
  {
    if n == |ops| {
      assert ops[..n] == ops;
    } else {
      LegalPrefix(Init(ops), n);
      assert Init(ops)[..n] == ops[..n];
    }
  }

  /** The totals add up over any way of cutting a run in two. */
  lemma {:induction false} TotalsConcat(a: seq<Op>, b: seq<Op>)
    ensures TotalAppended(a + b) == TotalAppended(a) + TotalAppended(b)
    ensures TotalConsumed(a + b) == TotalConsumed(a) + TotalConsumed(b)
    ensures forall data :: TotalAppended([Append(data)]) == |data| && TotalConsumed([Append(data)]) == 0
    ensures forall len :: TotalAppended([Consume(len)]) == 0 && TotalConsumed([Consume(len)]) == len
    decreases |b|
  {
    assert forall op: Op :: Init([op]) == [];
    if b == [] {
      assert a + b == a;
    } else {
      assert Init(a + b) == a + Init(b) && Last(a + b) == Last(b);
      TotalsConcat(a, Init(b));
    }
  }

  /** No more bytes were ever live than Peak says, and that many were at some time. */
  lemma {:induction false} PeakExact(ops: seq<Op>) returns (n: nat)
    ensures forall k :: 0 <= k <= |ops| ==> |Queue(ops[..k])| <= Peak(ops)
    ensures n <= |ops| && |Queue(ops[..n])| == Peak(ops)
    decreases |ops|
  {
    hide Queue;
    assert ops[..|ops|] == ops;
    if ops == [] {
      n := 0;
      NothingQueued();
    } else {
      n := PeakExact(Init(ops));
      forall k | 0 <= k < |ops| ensures |Queue(ops[..k])| <= Peak(Init(ops)) {
        assert Init(ops)[..k] == ops[..k];
      }
      assert Init(ops)[..n] == ops[..n];
      if Peak(ops) != Peak(Init(ops)) {
        n := |ops|;
      }
    }
  }

  lemma NothingQueued()
    ensures Queue([]) == []
  {
  }

  /** A slide moves fewer bytes than have been consumed in front of them. */
  lemma SlideIsPaidFor(s: Shape, len: nat)
    requires s.Ok() && s.Slides(len)
    ensures s.Size() < s.b && s.Room(len).b == 0 && s.Room(len).cap == s.cap
  {
  }

  /** Two units per appended byte pay for every relocation that append causes. */
  lemma AppendPays(s: Shape, len: nat)
    requires s.Ok()
    ensures s.Relocated(len) + s.Appended(len).Potential() <= s.Potential() + 2 * len
  {
    if !s.Fits(len) {
      if s.Slides(len) {
        SlideIsPaidFor(s, len);
      } else {
        var n := s.Appended(len);
        assert n.cap >= 2 * s.cap;
      }
    }
  }

  /** Amortised linear copying: over any run from a fresh buffer no byte is paid for more than three
      times: twice when it is appended and once when it is consumed. */
  lemma {:induction false} AmortisedCopying(ops: seq<Op>, exp: nat)
    requires Legal(ops)
    ensures TotalRelocated(ops, exp) + ShapeAfter(ops, exp).Potential()
         <= 2 * TotalAppended(ops) + TotalConsumed(ops)
    ensures TotalAppended(ops) == TotalConsumed(ops) + |Queue(ops)|
    ensures TotalRelocated(ops, exp) <= 3 * TotalAppended(ops)
    decreases |ops|
  {
    if ops != [] {
      AmortisedCopying(Init(ops), exp);
      if Last(ops).Append? {
        AppendPays(ShapeAfter(Init(ops), exp), |Last(ops).data|);
      }
    }
  }

  /** The array only grows when at least half of it will be live. */
  lemma GrowthBound(s: Shape, len: nat)
    requires s.Ok()
    ensures s.Appended(len).cap <= Max(Max(s.cap, s.exp), 4 * (s.Size() + len) + 2)
  {
  }

  lemma CapacityStep(s: Shape, len: nat, peak: nat)
    requires s.Ok() && s.cap <= Max(s.exp, 4 * peak + 2)
    ensures s.Appended(len).cap <= Max(s.exp, 4 * Max(peak, s.Size() + len) + 2)
  {
    GrowthBound(s, len);
  }

  /** The capacity stays within a constant factor of the largest live size. */
  lemma {:induction false} CapacityBound(ops: seq<Op>, exp: nat)
    requires Legal(ops)
    ensures ShapeAfter(ops, exp).cap <= Max(exp, 4 * Peak(ops) + 2)
    decreases |ops|
  {
    hide Queue, Shape.Appended;
    if ops != [] {
      CapacityBound(Init(ops), exp);
      if Last(ops).Append? {
        CapacityStep(ShapeAfter(Init(ops), exp), |Last(ops).data|, Peak(Init(ops)));
      }
    }
  }
}
