/** Whole runs over several evbuffers: to its users each of them is a byte string. */
module EvbufferRun {
  import opened Bytes
  import opened CInts
  import opened EvbufferExpand
  import opened EvbufferMove
  import opened EvbufferPullup
  import opened EvbufferRead
  import opened EvbufferSpace
  import opened EvbufferTransfer
  import opened EvbufferWrite
  import opened Evbuffers

  // ----- byte strings

  /** What a user sees of a buffer. */
  datatype Flat = Flat(data: bytes, startFrozen: bool, endFrozen: bool)

  datatype Op =
    | Add(i: nat, data: bytes)
    | Prepend(i: nat, data: bytes)
    | Drain(i: nat, n: nat)
    | Remove(i: nat, n: nat)
    | Pullup(i: nat, size: int)
    | Freeze(i: nat, start: bool, on: bool)
    | Expand(i: nat, datlen: nat)
    | Reserve(i: nat, size: int, vecs: int)
    | Write(i: nat, data: bytes, vecs: int)
    | AddBuffer(i: nat, from: nat)
    | PrependBuffer(i: nat, from: nat)
    | RemoveBuffer(i: nat, from: nat, n: nat)
  {
    predicate InRange(count: nat) {
      && i < count && (OnTwo() ==> from < count) && (Expand? ==> datlen <= SIZE_MAX)
      && (Reserve? ==> SSIZE_MIN <= size <= SSIZE_MAX) && (Write? ==> |data| <= SSIZE_MAX)
    }

    predicate OnTwo() {
      AddBuffer? || PrependBuffer? || RemoveBuffer?
    }

    /** It may leave empty chains in the buffer. */
    predicate MakesRoom() {
      Expand? || Reserve? || Write?
    }
  }

  function Put(s: seq<Flat>, i: nat, data: bytes): seq<Flat>
    requires i < |s|
  {
    s[i := s[i].(data := data)]
  }

  function DropUpTo(s: bytes, n: nat): bytes {
    s[if n < |s| then n else |s|..]
  }

  function TakeUpTo(s: bytes, n: nat): bytes {
    s[..if n < |s| then n else |s|]
  }

  /** The operations on byte strings.  Writing is reserving n vectors, filling and committing them. */
  function Apply(s: seq<Flat>, op: Op): (t: seq<Flat>)
    requires op.InRange(|s|)
    ensures |t| == |s|
  {
    var x := s[op.i];
    match op
    case Add(i, d) => if x.endFrozen then s else Put(s, i, x.data + d)
    case Prepend(i, d) => if x.startFrozen then s else Put(s, i, d + x.data)
    case Drain(i, n) => if x.startFrozen then s else Put(s, i, DropUpTo(x.data, n))
    case Remove(i, n) => if x.startFrozen then s else Put(s, i, DropUpTo(x.data, n))
    case Pullup(_, _) => s
    case Freeze(i, start, on) => s[i := if start then x.(startFrozen := on) else x.(endFrozen := on)]
    case Expand(_, _) => s
    case Reserve(_, _, _) => s
    case Write(i, d, n) => if x.endFrozen || n < 1 then s else Put(s, i, x.data + d)
    case AddBuffer(i, j) =>
      if i == j || x.endFrozen || s[j].startFrozen then s else Put(Put(s, i, x.data + s[j].data), j, [])
    case PrependBuffer(i, j) =>
      if i == j || x.startFrozen || s[j].startFrozen then s else Put(Put(s, i, s[j].data + x.data), j, [])
    case RemoveBuffer(i, j, n) =>
      if i == j || x.endFrozen || s[j].startFrozen then s
      else Put(Put(s, i, x.data + TakeUpTo(s[j].data, n)), j, DropUpTo(s[j].data, n))
  }

  /** The sizes are far from overflowing. */
  predicate Moderate(s: seq<Flat>, op: Op)
    requires op.InRange(|s|)
  {
    match op
    case Add(i, d) => |d| <= MAX_REQUEST && |d| + |s[i].data| <= SIZE_MAX
    case Prepend(i, d) => |d| <= MAX_REQUEST && |d| + |s[i].data| <= SIZE_MAX
    case Write(_, d, n) => n >= 2 && |d| + MAX_TO_COPY <= MAX_REQUEST
    case RemoveBuffer(i, j, n) => |s[j].data| <= MAX_REQUEST && |s[j].data| + |s[i].data| <= SIZE_MAX
    case _ => true
  }

  /** What can come of an operation that gets no memory, or of a single vector that is not accepted:
      nothing, or part of it. */
  ghost predicate Failed(s: seq<Flat>, op: Op, t: seq<Flat>)
    requires op.InRange(|s|)
  {
    || (t == s && (op.Add? || op.Prepend? || op.Write?))
    || (op.Prepend? && exists m: nat | m <= |op.data| :: t == Put(s, op.i, op.data[m..] + s[op.i].data))
    || (op.RemoveBuffer? && op.i != op.from && exists m: nat | m <= |TakeUpTo(s[op.from].data, op.n)| ::
          t == Put(Put(s, op.i, s[op.i].data + s[op.from].data[..m]), op.from, DropUpTo(s[op.from].data, op.n)))
  }

  ghost predicate Step(s: seq<Flat>, op: Op, t: seq<Flat>, malloc: Malloc) {
    op.InRange(|s|) && (t == Apply(s, op) || (!(NeverFails(malloc) && Moderate(s, op)) && Failed(s, op, t)))
  }

  // ----- runs on byte strings

  ghost function ApplyAll(s: seq<Flat>, ops: seq<Op>): seq<Flat>
    requires forall i :: 0 <= i < |ops| ==> ops[i].InRange(|s|)
    decreases |ops|
  {
    if ops == [] then s else ApplyAll(Apply(s, ops[0]), ops[1..])
  }

  /** With enough memory, and sizes that do not overflow, there is only one outcome. */
  lemma {:induction false} OneOutcome(trace: seq<seq<Flat>>, ops: seq<Op>, malloc: Malloc)
    requires |trace| == |ops| + 1 && NeverFails(malloc)
    requires forall i :: 0 <= i < |ops| ==>
      ops[i].InRange(|trace[0]|) && Step(trace[i], ops[i], trace[i + 1], malloc) && Moderate(trace[i], ops[i])
    ensures trace[|ops|] == ApplyAll(trace[0], ops)
  {
    if ops != [] {
      var rest := trace[1..];
      assert Step(trace[0], ops[0], trace[1], malloc) && Moderate(trace[0], ops[0]);
      forall i | 0 <= i < |ops| - 1
        ensures ops[1..][i].InRange(|rest[0]|) && Step(rest[i], ops[1..][i], rest[i + 1], malloc)
        ensures Moderate(rest[i], ops[1..][i])
      {
        assert ops[1..][i] == ops[i + 1] && rest[i] == trace[i + 1] && rest[i + 1] == trace[i + 2];
      }
      OneOutcome(rest, ops[1..], malloc);
    }
  }

  /** All the bytes in all the buffers. */
  ghost function Stock(s: seq<Flat>): multiset<byte> {
    if s == [] then multiset{} else multiset(s[0].data) + Stock(s[1..])
  }

  lemma {:induction false} StockPut(s: seq<Flat>, i: nat, d: bytes)
    requires i < |s|
    ensures Stock(Put(s, i, d)) + multiset(s[i].data) == Stock(s) + multiset(d)
  {
    var t := Put(s, i, d);
    if i == 0 {
      assert t[1..] == s[1..];
    } else {
      assert t[1..] == Put(s[1..], i - 1, d);
      StockPut(s[1..], i - 1, d);
      AddSame(multiset(s[0].data), Stock(t[1..]), Stock(s[1..]), multiset(s[i].data), multiset(d));
    }
  }

  lemma AddSame(a: multiset<byte>, p: multiset<byte>, q: multiset<byte>, x: multiset<byte>, y: multiset<byte>)
    requires p + x == q + y
    ensures (a + p) + x == (a + q) + y
  {
    assert (a + p) + x == a + (p + x);
  }

  lemma Exchanged(a: multiset<byte>, b: multiset<byte>, c: multiset<byte>,
                  x: multiset<byte>, y: multiset<byte>, p: multiset<byte>, q: multiset<byte>)
    requires b + x == a + p && c + y == b + q && x + y == p + q
    ensures c == a
  {
    assert c + (y + x) == (c + y) + x == (b + x) + q == (a + p) + q == a + (x + y);
    forall e: byte
      ensures c[e] == a[e]
    {
      assert (c + (y + x))[e] == (a + (x + y))[e];
    }
  }

  /** How an operation that moves bytes divides those of the two buffers. */
  function Divide(op: Op, x: bytes, y: bytes): (bytes, bytes) {
    match op
    case AddBuffer(_, _) => (x + y, [])
    case PrependBuffer(_, _) => (y + x, [])
    case RemoveBuffer(_, _, n) => (x + TakeUpTo(y, n), DropUpTo(y, n))
    case _ => (x, y)
  }

  lemma DivideConserves(op: Op, x: bytes, y: bytes)
    ensures multiset(x) + multiset(y) == multiset(Divide(op, x, y).0) + multiset(Divide(op, x, y).1)
  {
    if op.RemoveBuffer? {
      assert TakeUpTo(y, op.n) + DropUpTo(y, op.n) == y;
    }
  }

  /** Moving bytes between buffers neither makes nor loses any. */
  lemma MovesConserve(s: seq<Flat>, op: Op)
    requires op.InRange(|s|) && op.OnTwo()
    ensures Stock(Apply(s, op)) == Stock(s)
  {
    hide Stock, Divide;
    var x, y := s[op.i].data, s[op.from].data;
    var (p, q) := Divide(op, x, y);
    if op.i != op.from {
      var once := Put(s, op.i, p);
      var twice := Put(once, op.from, q);
      DivideConserves(op, x, y);
      StockPut(s, op.i, p);
      StockPut(once, op.from, q);
      Exchanged(Stock(s), Stock(once), Stock(twice), multiset(x), multiset(y), multiset(p), multiset(q));
      assert Apply(s, op) == s || Apply(s, op) == twice by { DivideIs(op, x, y); }
    }
  }

  lemma DivideIs(op: Op, x: bytes, y: bytes)
    ensures Divide(op, x, y) ==
      if op.AddBuffer? then (x + y, []) else if op.PrependBuffer? then (y + x, [])
      else if op.RemoveBuffer? then (x + TakeUpTo(y, op.n), DropUpTo(y, op.n)) else (x, y)
  {}

  // ----- buffers

  ghost function All(bufs: seq<Evbuffer>): set<object>
    reads bufs
  {
    (set b | b in bufs :: b as object) + (set b, o | b in bufs && o in b.Repr :: o)
  }

  /** Every buffer is valid, and no memory is shared. */
  ghost predicate Good(bufs: seq<Evbuffer>)
    reads bufs, All(bufs)
  {
    && (forall i {:trigger bufs[i]} :: 0 <= i < |bufs| ==> bufs[i].Valid())
    && (forall i, j {:trigger bufs[i], bufs[j]} :: 0 <= i < |bufs| && 0 <= j < |bufs| && i != j ==>
      Apart(bufs[i], bufs[j]))
  }

  /** No empty chain beside another in any buffer. */
  ghost predicate AllTidy(bufs: seq<Evbuffer>)
    reads bufs
  {
    forall i {:trigger bufs[i]} :: 0 <= i < |bufs| ==> NoEmptyPart(bufs[i].parts)
  }

  ghost function ViewOf(buf: Evbuffer): Flat
    reads buf
  {
    Flat(buf.Contents(), buf.freezeStart, buf.freezeEnd)
  }

  ghost predicate Shows(bufs: seq<Evbuffer>, s: seq<Flat>)
    reads bufs
  {
    |s| == |bufs| && forall i {:trigger bufs[i]} {:trigger s[i]} :: 0 <= i < |bufs| ==> s[i] == ViewOf(bufs[i])
  }

  ghost function Views(bufs: seq<Evbuffer>): (s: seq<Flat>)
    reads bufs
    ensures Shows(bufs, s)
  {
    seq(|bufs|, i requires 0 <= i < |bufs| reads bufs => ViewOf(bufs[i]))
  }

  /** Only two buffers have changed, or one, and they have taken no memory from others. */
  twostate lemma OnlyTwo(new bufs: seq<Evbuffer>, new i: nat, new j: nat, new s: seq<Flat>)
    requires old(allocated(bufs)) && i < |bufs| && j < |bufs| && old(Good(bufs)) && old(Shows(bufs, s))
    requires forall b: Evbuffer {:trigger b in bufs} :: b in bufs && b != bufs[i] && b != bufs[j] ==>
      unchanged(b) && unchanged(old(b.Repr))
    requires bufs[i].Valid() && bufs[j].Valid() && (i != j ==> Apart(bufs[i], bufs[j]))
    requires fresh(bufs[i].Repr + bufs[j].Repr - old(bufs[i].Repr) - old(bufs[j].Repr))
    ensures Good(bufs) && Shows(bufs, s[i := ViewOf(bufs[i])][j := ViewOf(bufs[j])])
    ensures fresh(All(bufs) - old(All(bufs)))
    ensures old(AllTidy(bufs)) && NoEmptyPart(bufs[i].parts) && NoEmptyPart(bufs[j].parts) ==> AllTidy(bufs)
  {
    hide Evbuffer.Valid, Evbuffer.Shape, Flatten, NoEmptyPart;
    forall m {:trigger bufs[m]} | 0 <= m < |bufs| && m != i && m != j
      ensures bufs[m].Valid() && unchanged(bufs[m]) && bufs[m] != bufs[i] && bufs[m] != bufs[j]
    {
      assert old(Apart(bufs[m], bufs[i]) && Apart(bufs[m], bufs[j]));
      assert bufs[m] in bufs;
      bufs[m].StillValid();
    }
    forall m, n {:trigger bufs[m], bufs[n]} | 0 <= m < |bufs| && 0 <= n < |bufs| && m != n
      ensures Apart(bufs[m], bufs[n])
    {
      assert old(Apart(bufs[m], bufs[n]) && (m != i ==> Apart(bufs[m], bufs[i])) &&
        (m != j ==> Apart(bufs[m], bufs[j])));
      assert old((n != i ==> Apart(bufs[n], bufs[i])) && (n != j ==> Apart(bufs[n], bufs[j])));
    }
    assert old(i != j ==> Apart(bufs[i], bufs[j]));
  }

  // ----- what keeps buffers valid

  /** An operation on one buffer trips no assertion and leaves it valid. */
  ghost predicate KeepsOne(buf: Evbuffer, op: Op, malloc: Malloc)
    requires buf.Shape()
    reads buf, buf.Repr
  {
    match op
    case Add(_, d) =>
      AddGranted(buf, |d|, malloc) ==>
        AddSafe(buf, |d|) && (buf.freezeEnd || |d| > SIZE_MAX - buf.totalLen || AddKeepsExact(buf, |d|))
    case Expand(_, n) => !ResizeWraps(buf, n, malloc)
    case Reserve(_, size, n) => buf.freezeEnd || n != 1 || !ResizeWraps(buf, AsSize(size), malloc)
    case _ => true
  }

  /** An operation on two buffers trips no assertion and leaves both valid. */
  ghost predicate KeepsTwo(buf: Evbuffer, from: Evbuffer, op: Op, malloc: Malloc)
    requires buf.Shape() && from.Shape()
    reads buf, buf.Repr, from, from.Repr
  {
    op.RemoveBuffer? && buf != from && !buf.freezeEnd && !from.freezeStart && 0 < op.n < from.totalLen ==>
      && (CopyGranted(from, buf, op.n, malloc) ==> CopySafe(from, buf, op.n))
      && SrcStaysExact(from, op.n) && DstStaysExact(from, buf, op.n, malloc)
  }

  ghost predicate Keeps(bufs: seq<Evbuffer>, op: Op, malloc: Malloc)
    requires Good(bufs) && op.InRange(|bufs|)
    reads bufs, All(bufs)
  {
    if op.OnTwo() then KeepsTwo(bufs[op.i], bufs[op.from], op, malloc) else KeepsOne(bufs[op.i], op, malloc)
  }

  // ----- runs

  method DoAdd(buf: Evbuffer, d: bytes, malloc: Malloc, ghost op: Op, ghost s: seq<Flat>) returns (ok: bool)
    requires buf.Valid() && op.InRange(|s|) && s[op.i] == ViewOf(buf) && op == Op.Add(op.i, d)
    modifies buf, buf.Repr
    ensures ok <==> old(KeepsOne(buf, op, malloc))
    ensures ok ==> buf.Valid() && fresh(buf.Repr - old(buf.Repr)) && Step(s, op, s[op.i := ViewOf(buf)], malloc)
    ensures old(buf.Tidy()) ==> ok && buf.Tidy()
  {
    hide Evbuffer.Body, Flatten, ExactAt, NoEmptyPart, AddSafe, AddGranted, AddKeepsExact;
    buf.TotalIs();
    assert s[op.i := s[op.i]] == s;
    assert buf.Contents() + [] == buf.Contents();
    var _, aborted := EvbufferWrite.Add(buf, d, malloc);
    if aborted {
      return false;
    }
    ok := buf.IsExact();
  }

  method DoRoom(buf: Evbuffer, op: Op, malloc: Malloc, ghost s: seq<Flat>) returns (ok: bool)
    requires buf.Valid() && op.InRange(|s|) && s[op.i] == ViewOf(buf) && op.MakesRoom()
    modifies buf, buf.Repr
    ensures ok <==> old(KeepsOne(buf, op, malloc))
    ensures ok ==> buf.Valid() && fresh(buf.Repr - old(buf.Repr)) && Step(s, op, s[op.i := ViewOf(buf)], malloc)
  {
    hide Evbuffer.Body, Flatten, ExactAt, NoEmptyPart, ResizeWraps;
    buf.TotalIs();
    assert s[op.i := s[op.i]] == s;
    assert buf.Contents() + [] == buf.Contents();
    match op {
      case Expand(_, n) =>
        var _, aborted := EvbufferExpand.Expand(buf, n, malloc);
        ok := !aborted;
      case Reserve(_, size, n) =>
        var _, _, aborted, _ := ReserveSpace(buf, size, n, malloc);
        ok := !aborted;
      case Write(_, d, n) =>
        var _ := WriteDirect(buf, d, n, malloc);
        ok := true;
    }
  }

  method DoOther(buf: Evbuffer, op: Op, malloc: Malloc, ghost s: seq<Flat>)
    requires buf.Valid() && op.InRange(|s|) && s[op.i] == ViewOf(buf) && !op.OnTwo() && !op.MakesRoom() && !op.Add?
    modifies buf, buf.Repr
    ensures buf.Valid() && fresh(buf.Repr - old(buf.Repr)) && Step(s, op, s[op.i := ViewOf(buf)], malloc)
    ensures old(buf.Tidy()) ==> buf.Tidy()
  {
    hide Evbuffer.Body, Flatten, ExactAt, NoEmptyPart;
    buf.TotalIs();
    assert s[op.i := s[op.i]] == s;
    match op {
      case Prepend(_, d) =>
        ghost var room := if buf.first == null then 0 else FrontRoom(buf.first);
        var r := EvbufferWrite.Prepend(buf, d, malloc);
        if r == -1 && room < |d| {
          assert |d| - room <= |d|;
        }
      case Drain(_, n) =>
        var _ := EvbufferRead.Drain(buf, n);
      case Remove(_, n) =>
        var _, data := EvbufferRead.Remove(buf, n);
        DropSum(data, buf.Contents(), |data|);
      case Pullup(_, n) =>
        var _ := EvbufferPullup.Pullup(buf, n, malloc);
      case Freeze(_, start, on) =>
        buf.Freeze(start, on);
    }
  }

  /** An operation on one buffer; ok tells whether the buffer is valid afterwards. */
  method DoOne(buf: Evbuffer, op: Op, malloc: Malloc, ghost s: seq<Flat>) returns (ok: bool)
    requires buf.Valid() && op.InRange(|s|) && s[op.i] == ViewOf(buf) && !op.OnTwo()
    modifies buf, buf.Repr
    ensures ok <==> old(KeepsOne(buf, op, malloc))
    ensures ok ==> buf.Valid() && fresh(buf.Repr - old(buf.Repr)) && Step(s, op, s[op.i := ViewOf(buf)], malloc)
    ensures old(buf.Tidy()) && !op.MakesRoom() ==> ok && buf.Tidy()
  {
    if op.Add? {
      ok := DoAdd(buf, op.data, malloc, op, s);
    } else if op.MakesRoom() {
      ok := DoRoom(buf, op, malloc, s);
    } else {
      DoOther(buf, op, malloc, s);
      ok := true;
    }
  }

  /** What evbuffer_remove_buffer does to two byte strings, seen as a step. */
  lemma RemoveIsStep(s: seq<Flat>, op: Op, x: Flat, y: Flat, moved: nat, malloc: Malloc)
    requires op.RemoveBuffer? && op.InRange(|s|)
    requires x.startFrozen == s[op.i].startFrozen && x.endFrozen == s[op.i].endFrozen
    requires y.startFrozen == s[op.from].startFrozen && y.endFrozen == s[op.from].endFrozen
    requires var noop := op.n == 0 || op.i == op.from || s[op.i].endFrozen || s[op.from].startFrozen;
      if noop then x.data == s[op.i].data && y.data == s[op.from].data
      else
        var n := if op.n < |s[op.from].data| then op.n else |s[op.from].data|;
        && moved <= n && x.data == s[op.i].data + s[op.from].data[..moved] && y.data == s[op.from].data[n..]
        && (NeverFails(malloc) && Moderate(s, op) ==> moved == n)
    ensures Step(s, op, s[op.i := x][op.from := y], malloc)
  {
    var t := s[op.i := x][op.from := y];
    if op.n == 0 || op.i == op.from || s[op.i].endFrozen || s[op.from].startFrozen {
      assert t == s;
      assert s[op.i].data + [] == s[op.i].data;
      assert op.i != op.from && op.n == 0 ==> Apply(s, op) == s;
    } else {
      assert t == Put(Put(s, op.i, x.data), op.from, y.data);
    }
  }

  method DoRemoveBuffer(buf: Evbuffer, from: Evbuffer, n: nat, malloc: Malloc, ghost op: Op, ghost s: seq<Flat>)
      returns (ok: bool)
    requires buf.Valid() && from.Valid() && op.RemoveBuffer? && n == op.n
    requires op.InRange(|s|) && s[op.i] == ViewOf(buf) && s[op.from] == ViewOf(from)
    requires if op.i == op.from then buf == from else Apart(buf, from)
    modifies buf, buf.Repr, from, from.Repr
    ensures ok <==> old(KeepsTwo(buf, from, op, malloc))
    ensures ok ==>
      && buf.Valid() && from.Valid() && (op.i != op.from ==> Apart(buf, from))
      && fresh(buf.Repr + from.Repr - old(buf.Repr) - old(from.Repr))
      && Step(s, op, s[op.i := ViewOf(buf)][op.from := ViewOf(from)], malloc)
    ensures old(buf.Tidy() && from.Tidy()) ==> ok && buf.Tidy() && from.Tidy()
  {
    hide Evbuffer.Body, Flatten, ExactAt, NoEmptyPart, Reaching, CopySafe, CopyGranted, SrcStaysExact, DstStaysExact,
         Step;
    buf.TotalIs();
    from.TotalIs();
    if NeverFails(malloc) && Moderate(s, op) && 0 < n < from.totalLen {
      ReachingAll(from, buf, n, malloc);
    }
    var r, moved, aborted := EvbufferTransfer.RemoveBuffer(from, buf, n, malloc);
    if aborted {
      return false;
    }
    RemoveIsStep(s, op, ViewOf(buf), ViewOf(from), moved, malloc);
    ok := buf.IsExact();
    if ok {
      ok := from.IsExact();
    }
  }

  /** An operation on two buffers, which may be the same. */
  method DoTwo(buf: Evbuffer, from: Evbuffer, op: Op, malloc: Malloc, ghost s: seq<Flat>) returns (ok: bool)
    requires buf.Valid() && from.Valid() && op.OnTwo()
    requires op.InRange(|s|) && s[op.i] == ViewOf(buf) && s[op.from] == ViewOf(from)
    requires if op.i == op.from then buf == from else Apart(buf, from)
    modifies buf, buf.Repr, from, from.Repr
    ensures ok <==> old(KeepsTwo(buf, from, op, malloc))
    ensures ok ==>
      && buf.Valid() && from.Valid() && (op.i != op.from ==> Apart(buf, from))
      && fresh(buf.Repr + from.Repr - old(buf.Repr) - old(from.Repr))
      && Step(s, op, s[op.i := ViewOf(buf)][op.from := ViewOf(from)], malloc)
    ensures old(buf.Tidy() && from.Tidy()) ==> ok && buf.Tidy() && from.Tidy()
  {
    hide Evbuffer.Body, Flatten, ExactAt, NoEmptyPart, Reaching, CopySafe, CopyGranted, SrcStaysExact, DstStaysExact;
    buf.TotalIs();
    from.TotalIs();
    assert s[op.i := s[op.i]][op.from := s[op.from]] == s;
    assert buf.Contents() + [] == buf.Contents() && [] + buf.Contents() == buf.Contents();
    ok := true;
    match op {
      case AddBuffer(_, _) =>
        var _ := EvbufferMove.AddBuffer(buf, from);
      case PrependBuffer(_, _) =>
        var _ := EvbufferMove.PrependBuffer(buf, from);
      case RemoveBuffer(_, _, n) =>
        ok := DoRemoveBuffer(buf, from, n, malloc, op, s);
    }
  }

  lemma ViewAt(bufs: seq<Evbuffer>, s: seq<Flat>, i: nat)
    requires Shows(bufs, s) && i < |bufs|
    ensures |s| == |bufs| && s[i] == ViewOf(bufs[i])
  {}

  method DoOnOne(bufs: seq<Evbuffer>, op: Op, malloc: Malloc, ghost s: seq<Flat>) returns (ok: bool, ghost t: seq<Flat>)
    requires Good(bufs) && Shows(bufs, s) && op.InRange(|bufs|) && !op.OnTwo()
    modifies bufs, All(bufs)
    ensures ok <==> old(Keeps(bufs, op, malloc))
    ensures ok ==> Good(bufs) && Shows(bufs, t) && Step(s, op, t, malloc) && fresh(All(bufs) - old(All(bufs)))
    ensures old(AllTidy(bufs)) && !op.MakesRoom() ==> ok && AllTidy(bufs)
  {
    hide Evbuffer.Valid, Flatten, Step, KeepsOne, NoEmptyPart, Shows, ViewOf;
    ViewAt(bufs, s, op.i);
    ok := DoOne(bufs[op.i], op, malloc, s);
    t := s[op.i := ViewOf(bufs[op.i])];
    if ok {
      OnlyTwo(bufs, op.i, op.i, s);
      assert t[op.i := ViewOf(bufs[op.i])] == t;
    }
  }

  method DoOnTwo(bufs: seq<Evbuffer>, op: Op, malloc: Malloc, ghost s: seq<Flat>) returns (ok: bool, ghost t: seq<Flat>)
    requires Good(bufs) && Shows(bufs, s) && op.InRange(|bufs|) && op.OnTwo()
    modifies bufs, All(bufs)
    ensures ok <==> old(Keeps(bufs, op, malloc))
    ensures ok ==> Good(bufs) && Shows(bufs, t) && Step(s, op, t, malloc) && fresh(All(bufs) - old(All(bufs)))
    ensures old(AllTidy(bufs)) ==> ok && AllTidy(bufs)
  {
    hide Evbuffer.Valid, Flatten, Step, KeepsTwo, NoEmptyPart, Shows, ViewOf;
    ViewAt(bufs, s, op.i);
    ViewAt(bufs, s, op.from);
    ok := DoTwo(bufs[op.i], bufs[op.from], op, malloc, s);
    t := s[op.i := ViewOf(bufs[op.i])][op.from := ViewOf(bufs[op.from])];
    if ok {
      OnlyTwo(bufs, op.i, op.from, s);
    }
  }

  /** Any operation on any of the buffers; s is what they show before, and t after.  They stay valid
      just when Keeps holds, and without making room for later tidy buffers stay tidy. */
  method Do(bufs: seq<Evbuffer>, op: Op, malloc: Malloc, ghost s: seq<Flat>) returns (ok: bool, ghost t: seq<Flat>)
    requires Good(bufs) && Shows(bufs, s) && op.InRange(|bufs|)
    modifies bufs, All(bufs)
    ensures ok <==> old(Keeps(bufs, op, malloc))
    ensures ok ==> Good(bufs) && Shows(bufs, t) && Step(s, op, t, malloc) && fresh(All(bufs) - old(All(bufs)))
    ensures old(AllTidy(bufs)) && !op.MakesRoom() ==> ok && AllTidy(bufs)
  {
    hide Good, Shows, Step, All, Keeps, AllTidy;
    if op.OnTwo() {
      ok, t := DoOnTwo(bufs, op, malloc, s);
    } else {
      ok, t := DoOnOne(bufs, op, malloc, s);
    }
  }

  lemma ShowsViews(bufs: seq<Evbuffer>, s: seq<Flat>)
    requires Shows(bufs, s)
    ensures s == Views(bufs)
  {
    assert Shows(bufs, Views(bufs));
  }

  /** Any run of operations on any number of buffers, up to the first that trips an assertion or leaves
      a buffer with a stale position; done is how many came before that.  Up to there each buffer is
      valid and none shares memory with another, and what they show went, step by step, the way of the
      byte strings.  Where no room was made beforehand a run always gets to its end, and all buffers
      are tidy. */
  method Run(bufs: seq<Evbuffer>, ops: seq<Op>, malloc: Malloc) returns (done: nat, ghost trace: seq<seq<Flat>>)
    requires Good(bufs) && forall i :: 0 <= i < |ops| ==> ops[i].InRange(|bufs|)
    modifies bufs, All(bufs)
    ensures done <= |ops| && |trace| == done + 1 && trace[0] == old(Views(bufs))
    ensures done == |ops| ==> Good(bufs) && trace[done] == Views(bufs)
    ensures forall i :: 0 <= i < done ==> Step(trace[i], ops[i], trace[i + 1], malloc)
    ensures old(AllTidy(bufs)) && (forall i :: 0 <= i < |ops| ==> !ops[i].MakesRoom()) ==>
      done == |ops| && AllTidy(bufs)
  {
    hide Good, Step, Shows, ViewOf, AllTidy, Keeps;
    ghost var s := Views(bufs);
    ghost var tidy := AllTidy(bufs) && forall i :: 0 <= i < |ops| ==> !ops[i].MakesRoom();
    trace := [s];
    for n := 0 to |ops|
      invariant Good(bufs) && |trace| == n + 1 && trace[0] == s && Shows(bufs, trace[n]) && (tidy ==> AllTidy(bufs))
      invariant fresh(All(bufs) - old(All(bufs)))
      invariant forall i :: 0 <= i < n ==> Step(trace[i], ops[i], trace[i + 1], malloc)
    {
      var ok;
      ghost var t;
      ok, t := Do(bufs, ops[n], malloc, trace[n]);
      if !ok {
        return n, trace;
      }
      trace := trace + [t];
    }
    ShowsViews(bufs, trace[|ops|]);
    done := |ops|;
  }
}
