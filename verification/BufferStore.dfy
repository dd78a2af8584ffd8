/** Many buffers at once: whatever is done to one of them, each stands for its own queue of bytes and
    no two share storage. */
module BufferStore {
  import opened BufferShape
  import opened ByteBuffer

  /** What a user of the buffers sees of one of them. */
  datatype Slot = Slot(bytes: seq<Byte>, exp: nat)
  type View = seq<Slot>

  datatype Command =
    | Create
    | Duplicate(from: nat)             // copy constructor
    | Overwrite(to: nat, from: nat)    // operator=
    | Append(at: nat, data: seq<Byte>)
    | Consume(at: nat, len: nat)
    | Absorb(to: nat, from: nat)
    | Reserve(at: nat, len: nat)       // makeRoom(len)
    | ReserveSome(at: nat)             // makeRoom()
    | Suggest(at: nat, sz: nat)        // setSuggestSize
    | Clear(at: nat)

  /** Buffers exist, and no more is consumed than there is. */
  predicate Allowed(v: View, c: Command) {
    match c
    case Create => true
    case Duplicate(i) => i < |v|
    case Overwrite(i, j) => i < |v| && j < |v|
    case Append(i, _) => i < |v|
    case Consume(i, len) => i < |v| && len <= |v[i].bytes|
    case Absorb(i, j) => i < |v| && j < |v|
    case Reserve(i, _) => i < |v|
    case ReserveSome(i) => i < |v|
    case Suggest(i, _) => i < |v|
    case Clear(i) => i < |v|
  }

  function Step(v: View, c: Command): View
    requires Allowed(v, c)
  {
    match c
    case Create => v + [Slot([], DEFAULT_EXP)]
    case Duplicate(i) => v + [v[i]]
    case Overwrite(i, j) => v[i := v[j]]
    case Append(i, data) => v[i := v[i].(bytes := v[i].bytes + data)]
    case Consume(i, len) => v[i := v[i].(bytes := v[i].bytes[len..])]
    case Absorb(i, j) =>
      if i == j then v else v[i := v[i].(bytes := v[i].bytes + v[j].bytes)][j := v[j].(bytes := [])]
    case Reserve(_, _) => v
    case ReserveSome(_) => v
    case Suggest(i, sz) => v[i := v[i].(exp := sz)]
    case Clear(i) => v[i := v[i].(bytes := [])]
  }

  /** The views a list of commands leads through, if every one is legal when its turn comes. */
  predicate AllAllowed(v: View, cs: seq<Command>)
    decreases |cs|
  {
    cs == [] || (Allowed(v, cs[0]) && AllAllowed(Step(v, cs[0]), cs[1..]))
  }

  function After(v: View, cs: seq<Command>): View
    requires AllAllowed(v, cs)
    decreases |cs|
  {
    if cs == [] then v else After(Step(v, cs[0]), cs[1..])
  }

  /** What each command does to each of the buffers. */
  lemma StepExact(v: View, c: Command)
    requires Allowed(v, c)
    ensures var w := Step(v, c);
            match c
            case Create => |w| == |v| + 1 && w[..|v|] == v && w[|v|] == Slot([], 512)
            case Duplicate(i) => |w| == |v| + 1 && w[..|v|] == v && w[|v|] == v[i]
            case Overwrite(i, j) => |w| == |v| && w[i] == v[j] && forall k :: 0 <= k < |v| && k != i ==> w[k] == v[k]
            case Append(i, data) =>
              && |w| == |v| && w[i] == Slot(v[i].bytes + data, v[i].exp)
              && forall k :: 0 <= k < |v| && k != i ==> w[k] == v[k]
            case Consume(i, len) =>
              && |w| == |v| && w[i] == Slot(v[i].bytes[len..], v[i].exp)
              && forall k :: 0 <= k < |v| && k != i ==> w[k] == v[k]
            case Absorb(i, j) =>
              && |w| == |v| && (i == j ==> w == v)
              && (i != j ==> w[i] == Slot(v[i].bytes + v[j].bytes, v[i].exp) && w[j] == Slot([], v[j].exp))
              && forall k :: 0 <= k < |v| && k != i && k != j ==> w[k] == v[k]
            case Reserve(_, _) => w == v
            case ReserveSome(_) => w == v
            case Suggest(i, sz) =>
              && |w| == |v| && w[i] == Slot(v[i].bytes, sz)
              && forall k :: 0 <= k < |v| && k != i ==> w[k] == v[k]
            case Clear(i) =>
              && |w| == |v| && w[i] == Slot([], v[i].exp)
              && forall k :: 0 <= k < |v| && k != i ==> w[k] == v[k]
  {
  }

  /** The k-th command of a list, on the views before and after it. */
  lemma {:induction false} AfterExact(u: View, cs: seq<Command>, n: nat)
    requires AllAllowed(u, cs) && n < |cs|
    ensures AllAllowed(u, cs[..n]) && AllAllowed(u, cs[..n + 1])
    ensures After(u, []) == u && Allowed(After(u, cs[..n]), cs[n])
    ensures var (v, w) := (After(u, cs[..n]), After(u, cs[..n + 1]));
            match cs[n]
            case Create => |w| == |v| + 1 && w[..|v|] == v && w[|v|] == Slot([], 512)
            case Duplicate(i) => |w| == |v| + 1 && w[..|v|] == v && w[|v|] == v[i]
            case Overwrite(i, j) => |w| == |v| && w[i] == v[j] && forall k :: 0 <= k < |v| && k != i ==> w[k] == v[k]
            case Append(i, data) =>
              && |w| == |v| && w[i] == Slot(v[i].bytes + data, v[i].exp)
              && forall k :: 0 <= k < |v| && k != i ==> w[k] == v[k]
            case Consume(i, len) =>
              && |w| == |v| && w[i] == Slot(v[i].bytes[len..], v[i].exp)
              && forall k :: 0 <= k < |v| && k != i ==> w[k] == v[k]
            case Absorb(i, j) =>
              && |w| == |v| && (i == j ==> w == v)
              && (i != j ==> w[i] == Slot(v[i].bytes + v[j].bytes, v[i].exp) && w[j] == Slot([], v[j].exp))
              && forall k :: 0 <= k < |v| && k != i && k != j ==> w[k] == v[k]
            case Reserve(_, _) => w == v
            case ReserveSome(_) => w == v
            case Suggest(i, sz) =>
              && |w| == |v| && w[i] == Slot(v[i].bytes, sz)
              && forall k :: 0 <= k < |v| && k != i ==> w[k] == v[k]
            case Clear(i) =>
              && |w| == |v| && w[i] == Slot([], v[i].exp)
              && forall k :: 0 <= k < |v| && k != i ==> w[k] == v[k]
  {
    hide Allowed, Step;
    AfterSnoc(u, cs, n);
    StepExact(After(u, cs[..n]), cs[n]);
  }

  lemma {:induction false} AfterSnoc(u: View, cs: seq<Command>, n: nat)
    requires AllAllowed(u, cs) && n < |cs|
    ensures AllAllowed(u, cs[..n]) && AllAllowed(u, cs[..n + 1])
    ensures Allowed(After(u, cs[..n]), cs[n]) && After(u, cs[..n + 1]) == Step(After(u, cs[..n]), cs[n])
    decreases n
  {
    hide Allowed, Step;
    if n == 0 {
      assert cs[..1] == [cs[0]] && [cs[0]][1..] == [];
    } else {
      AfterSnoc(Step(u, cs[0]), cs[1..], n - 1);
      assert cs[..n][1..] == cs[1..][..n - 1] && cs[..n + 1][1..] == cs[1..][..n];
    }
  }

  lemma StepAbsorb(v: View, i: nat, j: nat)
    requires i < |v| && j < |v|
    ensures var v' := Step(v, Absorb(i, j));
            && |v'| == |v| && (forall k :: 0 <= k < |v| && k != i && k != j ==> v'[k] == v[k])
            && v'[i].exp == v[i].exp && v'[j].exp == v[j].exp
            && v'[i].bytes == (if i == j then v[i].bytes else v[i].bytes + v[j].bytes)
            && (i != j ==> v'[j].bytes == [])
  {
  }

  ghost predicate Distinct(buffers: seq<Buffer>) {
    forall i, j :: 0 <= i < j < |buffers| ==> buffers[i] != buffers[j]
  }

  /** No two buffers share storage. */
  ghost predicate Apart(buffers: seq<Buffer>)
    reads buffers
  {
    forall x, y :: x in buffers && y in buffers && x != y ==> x.buf == null || x.buf != y.buf
  }

  lemma OneMore(buffers: seq<Buffer>, x: Buffer)
    requires Distinct(buffers) && Apart(buffers)
    requires forall y :: y in buffers ==> y != x && (y.buf == null || y.buf != x.buf)
    ensures Distinct(buffers + [x]) && Apart(buffers + [x])
  {
    assert forall i :: 0 <= i < |buffers| ==> buffers[i] in buffers;
  }

  class Store {
    var buffers: seq<Buffer>

    ghost function Storage(): set<object>
      reads this, buffers
    {
      (set x: Buffer | x in buffers :: x as object) + (set x: Buffer | x in buffers && x.buf != null :: x.buf as object)
    }

    /** Distinct buffers, each valid, with storage of its own. */
    ghost predicate Valid()
      reads this, buffers
    {
      Distinct(buffers) && (forall x :: x in buffers ==> x.Valid()) && Apart(buffers)
    }

    /** The storage of x is the old one, gone, or new; that of the others is the old one. */
    twostate lemma StillApart(x: Buffer)
      requires buffers == old(buffers) && x in buffers && old(Apart(buffers))
      requires x.buf == null || x.buf == old(x.buf) || fresh(x.buf)
      requires forall y :: y in buffers && y != x ==> y.buf == old(y.buf)
      ensures Apart(buffers)
    {
      forall p, q | p in buffers && q in buffers && p != q
        ensures p.buf == null || p.buf != q.buf
      {
        assert old(p.buf) == null || old(p.buf) != old(q.buf);
      }
    }

    /** `was` is the storage each buffer had. */
    ghost predicate ApartIn(was: map<Buffer, array?<Byte>>) {
      forall p, q :: p in was && q in was && p != q ==> was[p] == null || was[p] != was[q]
    }

    lemma WasApart(was: map<Buffer, array?<Byte>>)
      requires Apart(buffers) && was == map z | z in buffers :: z.buf
      ensures ApartIn(was)
    {
    }

    lemma OthersApart(x: Buffer, y: Buffer)
      requires Apart(buffers) && x in buffers && y in buffers
      ensures x != y ==> x.buf == null || x.buf != y.buf
      ensures forall z :: z in buffers && z != x && z != y ==> z.buf == null || (z.buf != x.buf && z.buf != y.buf)
    {
    }

    /** x and y have swapped storage, or y has given up its own and that of x is the old one or new. */
    lemma AbsorbedApart(was: map<Buffer, array?<Byte>>, x: Buffer, y: Buffer)
      requires ApartIn(was) && x in buffers && y in buffers && was.Keys == (set z | z in buffers)
      requires if x == y then x.buf == was[x]
               else (x.buf == was[y] && y.buf == was[x])
                    || ((x.buf == was[x] || x.buf !in was.Values) && y.buf == null)
      requires forall z :: z in buffers && z != x && z != y ==> z.buf == was[z]
      ensures Apart(buffers)
    {
    }

    lemma InStorage(i: nat)
      requires i < |buffers|
      ensures buffers[i] in buffers && buffers[i] in Storage()
      ensures buffers[i].buf != null ==> buffers[i].buf in Storage()
    {
    }

    lemma DistinctAt(i: nat, j: nat)
      requires Distinct(buffers) && i < |buffers| && j < |buffers|
      ensures buffers[i] == buffers[j] <==> i == j
    {
    }

    ghost function SlotAt(i: nat): Slot
      requires Valid() && i < |buffers|
      reads this, buffers, Storage()
    {
      Slot(buffers[i].Contents(), buffers[i].exp)
    }

    ghost predicate Shows(v: View)
      requires Valid()
      reads this, buffers, Storage()
    {
      |v| == |buffers| && forall i :: 0 <= i < |v| ==> SlotAt(i) == v[i]
    }

    constructor ()
      ensures Valid() && Shows([]) && buffers == []
    {
      buffers := [];
    }

    /** One more buffer, with storage of its own. */
    method Add(x: Buffer, ghost v: View, ghost slot: Slot)
      requires Valid() && Shows(v) && x.Valid() && Slot(x.Contents(), x.exp) == slot
      requires x !in Storage() && (x.buf != null ==> x.buf !in Storage())
      modifies this
      ensures Valid() && Shows(v + [slot])
      ensures forall o :: o in Storage() ==> o in old(Storage()) || o == x || o == x.buf
    {
      hide Distinct, Apart;
      forall k | 0 <= k < |buffers| {
        InStorage(k);
      }
      ghost var had := buffers;
      OneMore(buffers, x);
      buffers := buffers + [x];
      forall k | 0 <= k < |had| ensures buffers[k] == had[k] && SlotAt(k) == v[k] {
        assert old(SlotAt(k)) == v[k];
      }
    }

    method AddNew(ghost v: View)
      requires Valid() && Shows(v)
      modifies this
      ensures Valid() && Shows(Step(v, Create)) && fresh(Storage() - old(Storage()))
    {
      var x := new Buffer();
      Add(x, v, Slot([], DEFAULT_EXP));
    }

    method AddCopy(i: nat, ghost v: View)
      requires Valid() && Shows(v) && i < |v|
      modifies this
      ensures Valid() && Shows(Step(v, Duplicate(i))) && fresh(Storage() - old(Storage()))
    {
      hide Apart, Distinct;
      var x := new Buffer.Copy(buffers[i]);
      assert SlotAt(i) == v[i];
      Add(x, v, v[i]);
    }

    method DoOverwrite(i: nat, j: nat, ghost v: View)
      requires Valid() && Shows(v) && Allowed(v, Overwrite(i, j))
      modifies this, Storage()
      ensures Valid() && Shows(Step(v, Overwrite(i, j))) && fresh(Storage() - old(Storage()))
    {
      hide Distinct, Apart, Buffer.Form;
      InStorage(i);
      InStorage(j);
      assert SlotAt(j) == v[j];
      OverwriteApart(buffers[i], buffers[j]);
      forall k | 0 <= k < |buffers|
        ensures SlotAt(k) == Step(v, Overwrite(i, j))[k]
      {
        DistinctAt(k, i);
        assert old(SlotAt(k)) == v[k];
      }
    }

    /** An assignment gives x storage that no other buffer has. */
    method OverwriteApart(x: Buffer, y: Buffer)
      requires Valid() && x in buffers && y in buffers
      modifies x
      ensures Valid() && fresh(Storage() - old(Storage()))
      ensures x.exp == old(y.exp) && x.Contents() == old(y.Contents())
      ensures forall z :: z in buffers && z != x ==> z.Contents() == old(z.Contents()) && z.exp == old(z.exp)
    {
      hide Distinct, Buffer.Form;
      x.Assign(y);
      StillApart(x);
    }

    method DoAppend(i: nat, data: seq<Byte>, ghost v: View)
      requires Valid() && Shows(v) && Allowed(v, Command.Append(i, data))
      modifies this, Storage()
      ensures Valid() && Shows(Step(v, Command.Append(i, data))) && fresh(Storage() - old(Storage()))
    {
      hide Buffer.Contents, Buffer.Form;
      InStorage(i);
      assert SlotAt(i) == v[i];
      buffers[i].Append(data);
      StillApart(buffers[i]);
      forall k | 0 <= k < |buffers|
        ensures SlotAt(k) == Step(v, Command.Append(i, data))[k]
      {
        DistinctAt(k, i);
        assert old(SlotAt(k)) == v[k];
      }
    }

    method DoConsume(i: nat, len: nat, ghost v: View)
      requires Valid() && Shows(v) && Allowed(v, Command.Consume(i, len))
      modifies this, Storage()
      ensures Valid() && Shows(Step(v, Command.Consume(i, len))) && fresh(Storage() - old(Storage()))
    {
      hide Buffer.Contents, Buffer.Form;
      InStorage(i);
      assert SlotAt(i) == v[i];
      buffers[i].Consume(len);
      StillApart(buffers[i]);
      forall k | 0 <= k < |buffers|
        ensures SlotAt(k) == Step(v, Command.Consume(i, len))[k]
      {
        DistinctAt(k, i);
        assert old(SlotAt(k)) == v[k];
      }
    }

    /** Swapping or emptying storage between two of the buffers keeps all of them apart. */
    method AbsorbApart(x: Buffer, y: Buffer)
      requires Valid() && x in buffers && y in buffers
      modifies x, y, x.buf, y.buf
      ensures Valid() && fresh(Storage() - old(Storage()))
      ensures x.exp == old(x.exp) && y.exp == old(y.exp)
      ensures x.Contents() == if x == y then old(x.Contents()) else old(x.Contents()) + old(y.Contents())
      ensures x != y ==> y.Contents() == []
      ensures forall z :: z in buffers && z != x && z != y ==> z.Contents() == old(z.Contents()) && z.exp == old(z.exp)
    {
      hide Distinct, Apart, ApartIn, Buffer.Contents, Buffer.Valid, Buffer.Form;
      ghost var was := map z | z in buffers :: z.buf;
      WasApart(was);
      OthersApart(x, y);
      x.Absorb(y);
      AbsorbedApart(was, x, y);
    }

    method DoAbsorb(i: nat, j: nat, ghost v: View)
      requires Valid() && Shows(v) && Allowed(v, Absorb(i, j))
      modifies this, Storage()
      ensures Valid() && Shows(Step(v, Absorb(i, j))) && fresh(Storage() - old(Storage()))
    {
      hide Step, Distinct, Apart;
      ghost var v' := Step(v, Absorb(i, j));
      StepAbsorb(v, i, j);
      InStorage(i);
      InStorage(j);
      assert SlotAt(i) == v[i] && SlotAt(j) == v[j];
      AbsorbApart(buffers[i], buffers[j]);
      DistinctAt(i, j);
      forall k | 0 <= k < |buffers|
        ensures SlotAt(k) == v'[k]
      {
        DistinctAt(k, i);
        DistinctAt(k, j);
        assert old(SlotAt(k)) == v[k];
      }
    }

    method DoReserve(i: nat, len: nat, ghost v: View)
      requires Valid() && Shows(v) && Allowed(v, Reserve(i, len))
      modifies this, Storage()
      ensures Valid() && Shows(Step(v, Reserve(i, len))) && fresh(Storage() - old(Storage()))
    {
      hide Buffer.Contents, Buffer.Form;
      InStorage(i);
      assert SlotAt(i) == v[i];
      buffers[i].MakeRoom(len);
      StillApart(buffers[i]);
      forall k | 0 <= k < |buffers|
        ensures SlotAt(k) == Step(v, Reserve(i, len))[k]
      {
        DistinctAt(k, i);
        assert old(SlotAt(k)) == v[k];
      }
    }

    method DoReserveSome(i: nat, ghost v: View)
      requires Valid() && Shows(v) && Allowed(v, ReserveSome(i))
      modifies this, Storage()
      ensures Valid() && Shows(Step(v, ReserveSome(i))) && fresh(Storage() - old(Storage()))
    {
      hide Buffer.Contents, Buffer.Form;
      InStorage(i);
      assert SlotAt(i) == v[i];
      buffers[i].MakeSomeRoom();
      StillApart(buffers[i]);
      forall k | 0 <= k < |buffers|
        ensures SlotAt(k) == Step(v, ReserveSome(i))[k]
      {
        DistinctAt(k, i);
        assert old(SlotAt(k)) == v[k];
      }
    }

    method DoSuggest(i: nat, sz: nat, ghost v: View)
      requires Valid() && Shows(v) && Allowed(v, Suggest(i, sz))
      modifies this, Storage()
      ensures Valid() && Shows(Step(v, Suggest(i, sz))) && fresh(Storage() - old(Storage()))
    {
      hide Buffer.Form;
      InStorage(i);
      assert SlotAt(i) == v[i];
      buffers[i].SetSuggestSize(sz);
      StillApart(buffers[i]);
      forall k | 0 <= k < |buffers|
        ensures SlotAt(k) == Step(v, Suggest(i, sz))[k]
      {
        DistinctAt(k, i);
        assert old(SlotAt(k)) == v[k];
      }
    }

    method DoClear(i: nat, ghost v: View)
      requires Valid() && Shows(v) && Allowed(v, Clear(i))
      modifies this, Storage()
      ensures Valid() && Shows(Step(v, Clear(i))) && fresh(Storage() - old(Storage()))
    {
      hide Buffer.Contents, Buffer.Form;
      InStorage(i);
      assert SlotAt(i) == v[i];
      buffers[i].Clear();
      StillApart(buffers[i]);
      forall k | 0 <= k < |buffers|
        ensures SlotAt(k) == Step(v, Clear(i))[k]
      {
        DistinctAt(k, i);
        assert old(SlotAt(k)) == v[k];
      }
    }

    /** The contents and the suggested size of each buffer. */
    ghost function Views(): (v: View)
      requires Valid()
      reads this, buffers, Storage()
      ensures Shows(v) && |v| == |buffers|
      ensures forall i :: 0 <= i < |v| ==> v[i].bytes == buffers[i].Contents() && v[i].exp == buffers[i].exp
    {
      seq(|buffers|, i requires 0 <= i < |buffers| && Valid() reads this, buffers, Storage() => SlotAt(i))
    }

    lemma OneView(v: View)
      requires Valid() && Shows(v)
      ensures v == Views()
    {
    }

    /** One command: what becomes of each buffer, by what they held before. */
    method Do(c: Command)
      requires Valid() && Allowed(Views(), c)
      modifies this, Storage()
      ensures Valid() && Views() == Step(old(Views()), c) && fresh(Storage() - old(Storage()))
      ensures var (v, w) := (old(Views()), Views());
              match c
              case Create => |w| == |v| + 1 && w[..|v|] == v && w[|v|] == Slot([], 512)
              case Duplicate(i) => |w| == |v| + 1 && w[..|v|] == v && w[|v|] == v[i]
              case Overwrite(i, j) => |w| == |v| && w[i] == v[j] && forall k :: 0 <= k < |v| && k != i ==> w[k] == v[k]
              case Append(i, data) =>
                && |w| == |v| && w[i] == Slot(v[i].bytes + data, v[i].exp)
                && forall k :: 0 <= k < |v| && k != i ==> w[k] == v[k]
              case Consume(i, len) =>
                && |w| == |v| && w[i] == Slot(v[i].bytes[len..], v[i].exp)
                && forall k :: 0 <= k < |v| && k != i ==> w[k] == v[k]
              case Absorb(i, j) =>
                && |w| == |v| && (i == j ==> w == v)
                && (i != j ==> w[i] == Slot(v[i].bytes + v[j].bytes, v[i].exp) && w[j] == Slot([], v[j].exp))
                && forall k :: 0 <= k < |v| && k != i && k != j ==> w[k] == v[k]
              case Reserve(_, _) => w == v
              case ReserveSome(_) => w == v
              case Suggest(i, sz) =>
                && |w| == |v| && w[i] == Slot(v[i].bytes, sz)
                && forall k :: 0 <= k < |v| && k != i ==> w[k] == v[k]
              case Clear(i) =>
                && |w| == |v| && w[i] == Slot([], v[i].exp)
                && forall k :: 0 <= k < |v| && k != i ==> w[k] == v[k]
    {
      hide Valid, Shows, Step, Storage, Allowed;
      ghost var v := Views();
      DoStep(c, v);
      OneView(Step(v, c));
      StepExact(v, c);
    }

    method DoStep(c: Command, ghost v: View)
      requires Valid() && Shows(v) && Allowed(v, c)
      modifies this, Storage()
      ensures Valid() && Shows(Step(v, c)) && fresh(Storage() - old(Storage()))
    {
      hide Valid, Shows, Step, Storage;
      match c {
        case Create => AddNew(v);
        case Duplicate(i) => AddCopy(i, v);
        case Overwrite(i, j) => DoOverwrite(i, j, v);
        case Append(i, data) => DoAppend(i, data, v);
        case Consume(i, len) => DoConsume(i, len, v);
        case Absorb(i, j) => DoAbsorb(i, j, v);
        case Reserve(i, len) => DoReserve(i, len, v);
        case ReserveSome(i) => DoReserveSome(i, v);
        case Suggest(i, sz) => DoSuggest(i, sz, v);
        case Clear(i) => DoClear(i, v);
      }
    }

    /** Every run of commands over many buffers does to each what it would do to a queue of its own. */
    method Run(cs: seq<Command>)
      requires Valid() && buffers == [] && AllAllowed([], cs)
      modifies this, Storage()
      ensures Valid() && Views() == After([], cs)
    {
      hide Step, Allowed;
      NoBuffers();
      var k := 0;
      while k < |cs|
        invariant 0 <= k <= |cs| && Valid() && fresh(Storage() - old(Storage()))
        invariant AllAllowed(Views(), cs[k..]) && After(Views(), cs[k..]) == After([], cs)
      {
        assert cs[k..][0] == cs[k] && cs[k..][1..] == cs[k + 1..];
        Do(cs[k]);
        k := k + 1;
      }
    }

    lemma NoBuffers()
      requires Valid() && buffers == []
      ensures Views() == []
    {
    }
  }
}
