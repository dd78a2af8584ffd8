/** The growable byte buffer as it runs: one heap array and the indices of the live bytes in it
    (Buffer_old.cpp). */
module ByteBuffer {
  import opened Utils
  import opened BufferShape

  const DEFAULT_EXP := 512

  class Buffer {
    var buf: array?<Byte>
    var b: nat
    var e: nat
    var cap: nat
    var exp: nat
    ghost var relocated: nat  // bytes copied so far to make room

    ghost predicate Valid()
      reads this
    {
      b <= e <= cap && if buf == null then cap == 0 else buf.Length == cap
    }

    /** The queue of bytes that the buffer stands for. */
    ghost function Contents(): (s: seq<Byte>)
      requires Valid()
      reads this, buf
      ensures |s| == e - b
    {
      if buf == null then [] else buf[b..e]
    }

    ghost function Form(): (s: Shape)
      requires Valid()
      reads this
      ensures s.Ok()
    {
      Shape(b, e, cap, exp)
    }

    constructor ()
      ensures Valid() && buf == null && Form() == Shape(0, 0, 0, DEFAULT_EXP) && relocated == 0
    {
      buf := null;
      b, e, cap, exp, relocated := 0, 0, 0, DEFAULT_EXP, 0;
    }

    constructor Copy(other: Buffer)
      requires other.Valid()
      ensures Valid() && Form() == other.Form() && Contents() == other.Contents()
      ensures fresh(this) && (buf != null ==> fresh(buf))
    {
      buf := null;
      b, e, cap, exp, relocated := 0, 0, 0, 0, 0;
      new;
      CopyFrom(other);
    }

    method Clear()
      requires Valid()
      modifies `buf, `b, `e, `cap
      ensures Valid() && buf == null && b == e == cap == 0 && Form() == Shape(0, 0, 0, exp) && Contents() == []
    {
      buf := null;
      cap := 0;
      b, e := 0, 0;
    }

    function Size(): nat
      requires Valid()
      reads this
    {
      e - b
    }

    /** std::copy onto the front of the same array, first byte first. */
    method MoveHead()
      requires Valid() && buf != null
      modifies buf, `b, `e, `relocated
      ensures Valid() && Form() == Shape(0, old(e - b), cap, exp)
      ensures Contents() == old(Contents()) && relocated == old(relocated) + old(e - b)
    {
      var n := e - b;
      var i := 0;
      while i < n
        invariant 0 <= i <= n
        invariant forall k :: 0 <= k < i ==> buf[k] == old(buf[b + k])
        invariant forall k :: i <= k < buf.Length ==> buf[k] == old(buf[k])
        invariant relocated == old(relocated) + i
        modifies buf, `relocated
      {
        buf[i] := buf[b + i];
        relocated := relocated + 1;
        i := i + 1;
      }
      assert buf[0..n] == old(buf[b..e]);
      e := e - b;
      b := 0;
    }

    method Expand(len: nat)
      requires Valid()
      modifies `buf, `b, `e, `cap, `relocated
      ensures Valid() && Form() == old(Form()).Grown(len) && buf != null && fresh(buf)
      ensures b == 0 && e == old(e - b)
      ensures cap >= exp && cap >= 2 * old(cap) && cap >= old(e - b) + len
      ensures cap == exp || cap == 2 * old(cap) || cap == old(e - b) + len
      ensures Contents() == old(Contents()) && relocated == old(relocated) + old(e - b)
    {
      var ncap := Max(exp, Max(2 * cap, Size() + len));
      var p := new Byte[ncap](_ => 0);
      var n := e - b;
      var i := 0;
      while i < n
        invariant 0 <= i <= n && (n > 0 ==> buf != null)
        invariant forall k :: 0 <= k < i ==> p[k] == buf[b + k]
        invariant relocated == old(relocated) + i
        modifies p, `relocated
      {
        p[i] := buf[b + i];
        relocated := relocated + 1;
        i := i + 1;
      }
      e := e - b;
      b := 0;
      buf := p;
      cap := ncap;
    }

    method MakeRoom(len: nat)
      requires Valid()
      modifies this, buf
      ensures Valid() && Form() == old(Form()).Room(len) && Contents() == old(Contents()) && exp == old(exp)
      ensures buf == old(buf) || (buf != null && fresh(buf))
      // nothing moves if there is room; a mostly empty array is kept; otherwise it grows
      ensures e + len <= cap && e - b == old(e - b)
      ensures if old(e) + len <= old(cap) then b == old(b) && cap == old(cap) && buf == old(buf)
              else if old(e - b) + len < old(cap) / 2 then b == 0 && cap == old(cap) && buf == old(buf)
              else b == 0 && buf != null && fresh(buf) && cap >= exp && cap >= 2 * old(cap)
                   && (cap == exp || cap == 2 * old(cap) || cap == old(e - b) + len)
      ensures relocated == old(relocated) + if old(e) + len <= old(cap) then 0 else old(e - b)
      ensures relocated == old(relocated) + old(Form()).Relocated(len)
    {
      if e + len <= cap {
      } else if Size() + len < cap / 2 {
        MoveHead();
      } else {
        Expand(len);
      }
    }

    function Space(): nat
      requires Valid()
      reads this
    {
      cap - e
    }

    /** makeRoom() without an argument: never slides, and doubles a full array. */
    method MakeSomeRoom()
      requires Valid()
      modifies this, buf
      ensures Valid() && Contents() == old(Contents()) && exp == old(exp)
      ensures buf == old(buf) || (buf != null && fresh(buf))
      ensures Form() == if old(Space()) < exp then old(Form()).Grown(0) else old(Form())
      ensures exp > 0 ==> Space() > 0
      ensures old(cap) == 0 || old(cap) >= exp ==> Space() >= exp
      ensures old(cap - e) >= exp ==> buf == old(buf) && b == old(b) && e == old(e) && cap == old(cap)
      ensures old(cap - e) < exp ==> buf != null && fresh(buf) && b == 0 && e == old(e - b)
      ensures old(cap - e) < exp ==> cap == if exp < 2 * old(cap) then 2 * old(cap) else exp
    {
      if Space() < exp {
        Expand(0);
      }
    }

    /** Room for len bytes becomes part of the buffer; p is where the caller may write them. */
    method AllocRoom(len: nat) returns (p: nat)
      requires Valid()
      modifies this, buf
      ensures Valid() && Form() == old(Form()).Appended(len) && exp == old(exp)
      ensures |Contents()| == |old(Contents())| + len && old(Contents()) <= Contents()
      ensures p + len == e && (len > 0 ==> buf != null)
      ensures buf == old(buf) || (buf != null && fresh(buf))
      ensures relocated == old(relocated) + old(Form()).Relocated(len)
    {
      MakeRoom(len);
      p := e;
      e := e + len;
    }

    /** memcpy to the end of the live bytes. */
    method WriteLast(data: seq<Byte>)
      requires Valid() && |data| <= Size() && (data != [] ==> buf != null)
      modifies buf
      ensures Contents() == old(Contents())[..|old(Contents())| - |data|] + data
    {
      var p := e - |data|;
      forall i | 0 <= i < |data| {
        buf[p + i] := data[i];
      }
    }

    /** The source is a value of its own, so it lies outside the buffer's storage. */
    method Append(data: seq<Byte>)
      requires Valid()
      modifies this, buf
      ensures Valid() && Form() == old(Form()).Appended(|data|) && exp == old(exp)
      ensures Contents() == old(Contents()) + data
      ensures buf == old(buf) || (buf != null && fresh(buf))
      ensures relocated == old(relocated) + old(Form()).Relocated(|data|)
    {
      hide Shape.Appended, Shape.Relocated;
      var p := AllocRoom(|data|);
      WriteLast(data);
    }

    method Consume(len: nat)
      requires Valid() && len <= Size()
      modifies `buf, `b, `e, `cap
      ensures Valid() && Form() == old(Form()).Consumed(len)
      ensures Contents() == old(Contents())[len..]
      ensures if len == old(e - b) then buf == null && b == e == cap == 0
              else buf == old(buf) && b == old(b) + len && e == old(e) && cap == old(cap)
    {
      b := b + len;
      if Size() == 0 {
        Clear();
      }
    }

    method SetSuggestSize(sz: nat)
      modifies `exp
      ensures exp == sz
    {
      exp := sz;
    }

    /** All of the other buffer's bytes move behind this one's. An empty buffer swaps storage instead
        of copying; either way both keep their own exp_. */
    method Absorb(other: Buffer)
      requires Valid() && other.Valid()
      requires other != this ==> buf == null || buf != other.buf
      modifies this, buf, other, other.buf
      ensures Valid() && other.Valid()
      ensures exp == old(exp) && other.exp == old(other.exp)
      ensures Contents() == if other == this then old(Contents()) else old(Contents()) + old(other.Contents())
      ensures other == this ==> buf == old(buf)
      ensures other != this && old(Size()) == 0 ==> buf == old(other.buf) && other.buf == old(buf)
      ensures other != this && old(Size()) > 0 ==> (buf == old(buf) || (buf != null && fresh(buf))) && other.buf == null
      ensures other != this ==> other.Contents() == []
      ensures old(Size()) == 0 ==> relocated == old(relocated)
    {
      if other != this {
        if Size() == 0 {
          buf, other.buf := other.buf, buf;
          b, other.b := other.b, b;
          e, other.e := other.e, e;
          cap, other.cap := other.cap, cap;
          exp, other.exp := other.exp, exp;
          exp, other.exp := other.exp, exp;
        } else {
          var data := if other.buf == null then [] else other.buf[other.b..other.e];
          Append(data);
          other.Clear();
        }
      }
    }

    method Assign(other: Buffer)
      requires Valid() && other.Valid()
      modifies this
      ensures Valid() && other.Valid()
      ensures Form() == old(other.Form()) && Contents() == old(other.Contents()) && exp == old(other.exp)
      ensures b == old(other.b) && e == old(other.e) && cap == old(other.cap)
      ensures buf == null || buf == old(buf) || fresh(buf)
      ensures other == this ==> buf == old(buf)
      ensures other != this && buf != null ==> fresh(buf)
    {
      if this == other {
        return;
      }
      buf := null;
      CopyFrom(other);
    }

    /** Everything but the storage is copied bitwise; the live bytes go into a new array. */
    method CopyFrom(other: Buffer)
      requires other.Valid() && other != this
      modifies this
      ensures Valid() && Form() == other.Form() && Contents() == other.Contents()
      ensures b == other.b && e == other.e && cap == other.cap && exp == other.exp
      ensures buf != null ==> fresh(buf)
    {
      b, e, cap, exp := other.b, other.e, other.cap, other.exp;
      buf := null;
      if other.buf != null {
        buf := new Byte[cap](_ => 0);
        forall i | b <= i < e {
          buf[i] := other.buf[i];
        }
      }
    }
  }

  /** One more operation at the end of a run. */
  lemma RunStep(ops: seq<Op>, i: nat, exp: nat)
    requires Legal(ops) && i < |ops|
    ensures Legal(ops[..i]) && Legal(ops[..i + 1])
    ensures var (before, after) := (ShapeAfter(ops[..i], exp), ShapeAfter(ops[..i + 1], exp));
            match ops[i]
            case Append(data) =>
              && Queue(ops[..i + 1]) == Queue(ops[..i]) + data && after == before.Appended(|data|)
              && TotalRelocated(ops[..i + 1], exp) == TotalRelocated(ops[..i], exp) + before.Relocated(|data|)
            case Consume(len) =>
              && len <= |Queue(ops[..i])| == before.Size()
              && Queue(ops[..i + 1]) == Queue(ops[..i])[len..] && after == before.Consumed(len)
              && TotalRelocated(ops[..i + 1], exp) == TotalRelocated(ops[..i], exp)
  {
    LegalPrefix(ops, i);
    LegalPrefix(ops, i + 1);
    assert Init(ops[..i + 1]) == ops[..i] && Last(ops[..i + 1]) == ops[i];
  }

  /** The buffer q is where the run has got. */
  ghost predicate Tracks(q: Buffer, ops: seq<Op>, exp: nat)
    reads q, q.buf
  {
    && q.Valid() && Legal(ops)
    && q.Contents() == Queue(ops) && q.Form() == ShapeAfter(ops, exp)
    && q.relocated == TotalRelocated(ops, exp)
  }

  /** The next operation of the run. */
  method Advance(q: Buffer, ops: seq<Op>, i: nat, exp: nat)
    requires Legal(ops) && i < |ops| && Tracks(q, ops[..i], exp)
    modifies q, q.buf
    ensures Tracks(q, ops[..i + 1], exp) && (q.buf == old(q.buf) || q.buf == null || fresh(q.buf))
  {
    hide Shape.Appended, Shape.Consumed, Shape.Relocated, Legal, Queue, ShapeAfter, TotalRelocated;
    RunStep(ops, i, exp);
    match ops[i] {
      case Append(data) => q.Append(data);
      case Consume(len) => q.Consume(len);
    }
  }

  /** A run on one buffer: it is the queue, it copies at most three bytes for every byte appended, and
      its array stays within a constant factor of the largest live size. */
  method RunOnBuffer(ops: seq<Op>, exp: nat) returns (q: Buffer)
    requires Legal(ops)
    ensures q.Valid() && q.Contents() == Queue(ops)
    ensures q.relocated == TotalRelocated(ops, exp) <= 3 * TotalAppended(ops)
    ensures q.cap <= Max(exp, 4 * Peak(ops) + 2)
  {
    hide Shape.Appended, Shape.Consumed, Shape.Relocated;
    hide Tracks, Legal, Queue, ShapeAfter, TotalRelocated, TotalAppended, TotalConsumed, Peak;
    q := new Buffer();
    q.SetSuggestSize(exp);
    assert ops[..0] == [];
    RunStarts(q, exp);
    var i := 0;
    while i < |ops|
      invariant 0 <= i <= |ops|
      invariant fresh(q) && (q.buf != null ==> fresh(q.buf))
      invariant Tracks(q, ops[..i], exp)
    {
      Advance(q, ops, i, exp);
      i := i + 1;
    }
    assert ops[..|ops|] == ops;
    RunEnds(q, ops, exp);
  }

  lemma RunStarts(q: Buffer, exp: nat)
    requires q.Valid() && q.buf == null && q.Form() == Shape(0, 0, 0, exp) && q.relocated == 0
    ensures Tracks(q, [], exp)
  {
  }

  lemma RunEnds(q: Buffer, ops: seq<Op>, exp: nat)
    requires Tracks(q, ops, exp)
    ensures q.Valid() && q.Contents() == Queue(ops)
    ensures q.relocated == TotalRelocated(ops, exp) <= 3 * TotalAppended(ops)
    ensures q.cap <= Max(exp, 4 * Peak(ops) + 2)
  {
    hide Queue, ShapeAfter, TotalRelocated, TotalAppended, TotalConsumed, Peak;
    AmortisedCopying(ops, exp);
    CapacityBound(ops, exp);
  }
}
