/** evbuffer_add and evbuffer_prepend. */
module EvbufferWrite {
  import opened Bytes
  import opened CInts
  import opened Evbuffers

  const MAX_AUTO_SIZE: nat := 4096

  lemma ExactTail(parts: seq<bytes>, k: nat)
    requires k <= |parts| && ExactAt(parts, k)
    ensures FirstEmpty(parts, k) <= k + 1
    ensures AllEmpty(parts[FirstEmpty(parts, k)..])
  {
    if k < |parts| && parts[k] != [] {
      assert FirstEmpty(parts, k) == FirstEmpty(parts, k + 1) == k + 1;
    }
  }

  /** A new part behind the data of an exact list keeps it exact. */
  lemma ExactInsert(parts: seq<bytes>, k: nat, d: bytes)
    requires (k < |parts| || k == |parts| == 0) && ExactAt(parts, k)
    ensures var j := FirstEmpty(parts, k); ExactAt(parts[..j] + [d], if d == [] then k else j)
  {
    ExactTail(parts, k);
    var j := FirstEmpty(parts, k);
    if k > 0 {
      assert (parts[..j] + [d])[k] == parts[k];
    }
  }

  /** Data written into the last part: the position is exact just when it was that part already. */
  lemma ExactGrowLast(parts: seq<bytes>, k: nat, d: bytes)
    requires k < |parts|
    ensures var m := |parts| - 1;
      ExactAt(parts[m := parts[m] + d], k) <==> if d == [] then ExactAt(parts, k) else k == m
  {
    var m := |parts| - 1;
    var q := parts[m := parts[m] + d];
    if d == [] {
      assert parts[m] + d == parts[m];
      assert q == parts;
    } else {
      assert q[m] != [];
    }
  }

  /** From position k on, no part with data comes behind an empty one. */
  ghost predicate Gapless(parts: seq<bytes>, k: nat)
  {
    forall i, j :: k <= i < j < |parts| && parts[j] != [] ==> parts[i] != []
  }

  ghost predicate Full(parts: seq<bytes>, i: int, j: int) {
    forall n {:trigger parts[n]} :: 0 <= n < |parts| && i <= n < j ==> parts[n] != []
  }

  /** Everything from the first empty part on is empty. */
  lemma GaplessTail(parts: seq<bytes>, k: nat)
    requires k <= |parts|
    ensures AllEmpty(parts[FirstEmpty(parts, k)..]) <==> Gapless(parts, k)
  {
    var f := FirstEmpty(parts, k);
    FirstEmptyIs(parts, k);
    var tail := parts[f..];
    if AllEmpty(tail) {
      forall j | f <= j < |parts|
        ensures parts[j] == []
      {
        assert tail[j - f] == parts[j];
      }
    } else {
      var j :| 0 <= j < |tail| && tail[j] != [];
      assert parts[f + j] != [] && parts[f] == [];
    }
  }

  lemma {:induction false} FirstEmptyIs(parts: seq<bytes>, k: nat)
    requires k <= |parts|
    ensures var f := FirstEmpty(parts, k);
      (forall i :: k <= i < f ==> parts[i] != []) && (f < |parts| ==> parts[f] == [])
    decreases |parts| - k
  {
    if k < |parts| && parts[k] != [] {
      FirstEmptyIs(parts, k + 1);
    }
  }

  /** Whether a chain can be put behind the data after room bytes were written into the last chain. */
  ghost predicate SpillOk(parts: seq<bytes>, k: nat, room: nat)
    requires k < |parts|
  {
    if room == 0 then Gapless(parts, k) else Full(parts, k, |parts| - 1)
  }

  /** What is cut off when the new chain goes in is empty just in these cases. */
  lemma SpillSafe(parts: seq<bytes>, k: nat, d: bytes)
    requires k < |parts|
    ensures var m := |parts| - 1;
      var q := parts[m := parts[m] + d];
      AllEmpty(q[FirstEmpty(q, k)..]) <==> SpillOk(parts, k, |d|)
  {
    var m := |parts| - 1;
    var q := parts[m := parts[m] + d];
    GaplessTail(q, k);
    if d == [] {
      assert parts[m] + d == parts[m];
      assert q == parts;
    } else {
      assert q[m] != [];
      assert forall i :: 0 <= i < m ==> q[i] == parts[i];
    }
  }

  /** In a valid buffer: there is at most one empty chain behind the data, or nothing is written into it. */
  lemma SpillExactly(parts: seq<bytes>, k: nat, room: nat)
    requires k < |parts| && ExactAt(parts, k)
    ensures SpillOk(parts, k, room) <==> room == 0 || k + 1 == |parts| || (k + 2 == |parts| && parts[k] != [])
  {
    if room > 0 && k + 2 < |parts| {
      assert parts[k + 1] == [];
    }
  }

  lemma SpillExact(parts: seq<bytes>, k: nat, d: bytes, e: bytes)
    requires k < |parts| && e != []
    ensures var m := |parts| - 1;
      var q := parts[m := parts[m] + d];
      var j := FirstEmpty(q, k);
      ExactAt(q[..j] + [e], j) && (NoEmptyPart(parts) ==> NoEmptyPart(q[..j] + [e]))
  {
  }

  /** The data fits behind what the chain holds, perhaps after realigning it. */
  predicate HasRoom(chain: Chain, n: nat)
    reads chain`misalign, chain`off
  {
    chain.SpaceLen() >= n || chain.ShouldRealign(n)
  }

  /** The size evbuffer_add asks for when the last chain has no room for n bytes. */
  function NextSize(chain: Chain, n: nat): nat {
    var twice := if chain.buffer.Length <= MAX_AUTO_SIZE / 2 then 2 * chain.buffer.Length else chain.buffer.Length;
    if n > twice then n else twice
  }

  /** evbuffer_add writes into the last chain, wherever *last_with_datap is.  When more than one
      empty chain trails the data, a write that fills the last chain and spills into a new one
      trips the assertion in evbuffer_free_trailing_empty_chains. */
  ghost predicate AddSafe(buf: Evbuffer, n: nat)
    requires buf.Shape()
    reads buf, buf.Repr
  {
    || buf.freezeEnd || n > SIZE_MAX - buf.totalLen
    || buf.chains == [] || InPlace(buf, n) || SpillOk(buf.parts, buf.k, buf.last.SpaceLen())
  }

  ghost predicate InPlace(buf: Evbuffer, n: nat)
    requires buf.Shape()
    reads buf, buf.Repr
  {
    buf.last != null && HasRoom(buf.last, n)
  }

  /** The position is exact after data was added, unless it was written behind empty chains. */
  ghost predicate AddKeepsExact(buf: Evbuffer, n: nat)
    requires buf.Shape()
    reads buf, buf.Repr
  {
    buf.chains == [] || !InPlace(buf, n) || if n == 0 then buf.Exact() else buf.k + 1 == |buf.chains|
  }

  /** On a valid buffer the assertion can only trip with two empty chains behind the data. */
  lemma ValidAdd(buf: Evbuffer, n: nat)
    requires buf.Valid()
    ensures AddSafe(buf, n) <==>
      || buf.freezeEnd || n > SIZE_MAX - buf.totalLen
      || buf.chains == [] || InPlace(buf, n) || buf.last.SpaceLen() == 0
      || buf.k + 1 == |buf.chains| || (buf.k + 2 == |buf.chains| && buf.parts[buf.k] != [])
    ensures AddKeepsExact(buf, n) <==> n == 0 || buf.chains == [] || buf.k + 1 == |buf.chains| || !InPlace(buf, n)
  {
    buf.Front();
    if buf.chains != [] {
      buf.At(|buf.chains| - 1);
      SpillExactly(buf.parts, buf.k, buf.last.SpaceLen());
    }
  }

  ghost predicate EmptyAt(parts: seq<bytes>, i: nat) {
    i < |parts| && parts[i] == []
  }

  lemma TidyEnd(parts: seq<bytes>, k: nat)
    requires k < |parts| && ExactAt(parts, k) && NoEmptyPart(parts)
    ensures k + 1 == |parts|
  {
    assert EmptyAt(parts, k + 1) == (k + 1 < |parts|);
  }

  /** In a tidy buffer evbuffer_add is always safe, and always keeps the position exact. */
  lemma TidyAdd(buf: Evbuffer, n: nat)
    requires buf.Tidy()
    ensures AddSafe(buf, n) && AddKeepsExact(buf, n)
  {
    buf.Front();
    ValidAdd(buf, n);
    if buf.chains != [] {
      TidyEnd(buf.parts, buf.k);
    }
  }

  /** The branch of evbuffer_add that finds room in the last chain. */
  method AddInPlace(buf: Evbuffer, data: bytes)
    requires buf.Shape() && InPlace(buf, |data|)
    modifies buf`totalLen, buf`nAdd, buf`parts, buf.last, buf.last.buffer
    ensures buf.Shape()
    ensures buf.Contents() == old(buf.Contents()) + data
    ensures buf.nAdd == old(buf.nAdd) + |data|
    ensures buf.Exact() <==> if data == [] then old(buf.Exact()) else buf.k + 1 == |buf.chains|
    ensures old(NoEmptyPart(buf.parts)) ==> NoEmptyPart(buf.parts)
  {
    hide Evbuffer.Body, Flatten, ExactAt;
    buf.Front();
    var chain := buf.last;
    if chain.SpaceLen() < |data| {
      buf.AlignAt(chain, |buf.chains| - 1);
    }
    ExactGrowLast(buf.parts, buf.k, data);
    buf.FillLast(data);
  }

  /** Use up the room in the last chain, if there is any. */
  method FillRoom(buf: Evbuffer, data: bytes)
    requires buf.Shape() && buf.last != null && |data| == buf.last.SpaceLen()
    modifies buf`totalLen, buf`nAdd, buf`parts, buf.last`off, buf.last.buffer
    ensures buf.Shape()
    ensures |old(buf.parts)| > 0
    ensures var m := |old(buf.parts)| - 1; buf.parts == old(buf.parts)[m := old(buf.parts)[m] + data]
    ensures buf.Contents() == old(buf.Contents()) + data
    ensures buf.nAdd == old(buf.nAdd) + |data|
  {
    hide Evbuffer.Body, Flatten;
    buf.Front();
    if |data| > 0 {
      buf.FillLast(data);
    } else {
      assert buf.parts[|buf.parts| - 1] + data == buf.parts[|buf.parts| - 1];
    }
  }

  /** Copy the data into the new chain tmp and insert it. */
  method AppendNew(buf: Evbuffer, tmp: Chain, data: bytes)
    requires buf.Shape() && AllEmpty(buf.parts[FirstEmpty(buf.parts, buf.k)..]) && data != []
    requires tmp !in buf.Repr && tmp.buffer !in buf.Repr && |data| <= tmp.buffer.Length <= MAX_REQUEST
    requires tmp.next == null && tmp.misalign == 0 && tmp.off == 0
    modifies buf`first, buf`last, buf`lwd, buf`totalLen, buf`nAdd, buf`Repr, buf`chains, buf`parts, buf`k
    modifies buf.chains`next, tmp, tmp.buffer
    ensures buf.Shape() && buf.Repr == old(buf.Repr) + {tmp, tmp.buffer}
    ensures var j := FirstEmpty(old(buf.parts), old(buf.k));
      buf.k == j && buf.parts == old(buf.parts)[..j] + [data]
    ensures buf.Contents() == old(buf.Contents()) + data
    ensures buf.nAdd == old(buf.nAdd) + |data|
  {
    hide Evbuffer.Body, Flatten, FirstEmpty, AllEmpty;
    buf.Outside(tmp);
    assert [] + data == data;
    tmp.Append(data, []);
    buf.ChainInsert(tmp, data);
    buf.nAdd := buf.nAdd + |data|;
  }

  /** The branch of evbuffer_add that fills the last chain and puts the rest into the new chain tmp,
      unless the assertion trips that what is freed behind the data holds none. */
  method AddSpill(buf: Evbuffer, data: bytes, tmp: Chain) returns (aborted: bool)
    requires buf.Shape() && buf.chains != [] && !InPlace(buf, |data|)
    requires tmp !in buf.Repr && tmp.buffer !in buf.Repr && |data| <= tmp.buffer.Length <= MAX_REQUEST
    requires tmp.next == null && tmp.misalign == 0 && tmp.off == 0
    modifies buf, buf.Repr, tmp, tmp.buffer
    ensures aborted <==> !SpillOk(old(buf.parts), old(buf.k), old(buf.last.SpaceLen()))
    ensures buf.Shape() && (buf.Repr == old(buf.Repr) || buf.Repr == old(buf.Repr) + {tmp, tmp.buffer})
    ensures !aborted ==> buf.Exact()
    ensures !aborted ==> buf.Contents() == old(buf.Contents()) + data && buf.nAdd == old(buf.nAdd) + |data|
    ensures buf.freezeStart == old(buf.freezeStart) && buf.freezeEnd == old(buf.freezeEnd) && buf.nDel == old(buf.nDel)
    ensures !aborted && old(NoEmptyPart(buf.parts)) ==> NoEmptyPart(buf.parts)
  {
    hide Evbuffer.Body, Flatten, FirstEmpty, AllEmpty, ExactAt, NoEmptyPart, SpillOk;
    buf.At(|buf.chains| - 1);
    buf.Inside();
    var remain := buf.last.SpaceLen();
    var head, rest := data[..remain], data[remain..];
    SpillSafe(buf.parts, buf.k, head);
    SpillExact(buf.parts, buf.k, head, rest);
    Rejoin(data, remain);
    Assoc(buf.Contents(), head, rest);
    FillRoom(buf, head);
    var ok := buf.TrailingEmpty();
    if !ok {
      return true;
    }
    AppendNew(buf, tmp, rest);
    return false;
  }

  /** Give a buffer without chains its first one. */
  method FirstChain(buf: Evbuffer, datlen: nat, malloc: Malloc) returns (chain: Chain?)
    requires buf.Shape() && buf.last == null
    modifies buf`first, buf`last, buf`lwd, buf`totalLen, buf`Repr, buf`chains, buf`parts, buf`k
    ensures chain != null <==> Granted(malloc, datlen)
    ensures chain == null ==> unchanged(buf)
    ensures chain != null ==>
      && buf.Valid() && fresh(buf.Repr - old(buf.Repr))
      && buf.Contents() == old(buf.Contents()) == [] && buf.totalLen == old(buf.totalLen)
      && buf.chains == [chain] && buf.parts == [[]] && NoEmptyPart(buf.parts)
      && fresh(chain) && fresh(chain.buffer) && chain.misalign == 0 && chain.off == 0
      && datlen <= chain.buffer.Length == ToAlloc(datlen + CHAIN_SIZE) - CHAIN_SIZE
  {
    hide Evbuffer.Body;
    buf.Front();
    chain := ChainNew(datlen, malloc);
    if chain == null {
      return;
    }
    FirstEmptyOfNone(buf.parts, buf.k);
    buf.ChainInsert(chain, []);
    FlattenAllEmpty(buf.parts);
  }

  /** evbuffer_add gets the memory it needs. */
  ghost predicate AddGranted(buf: Evbuffer, n: nat, malloc: Malloc)
    requires buf.Shape()
    reads buf, buf.Repr
  {
    if buf.last == null then Granted(malloc, n) else InPlace(buf, n) || Granted(malloc, NextSize(buf.last, n))
  }

  lemma GrantedAlways(buf: Evbuffer, n: nat, malloc: Malloc)
    requires buf.Shape() && n <= MAX_REQUEST && NeverFails(malloc)
    ensures AddGranted(buf, n, malloc)
  {
    if buf.chains != [] {
      buf.At(|buf.chains| - 1);
    }
  }

  /** evbuffer_add from the point where the buffer has a last chain. */
  method AddToLast(buf: Evbuffer, data: bytes, malloc: Malloc) returns (r: int, aborted: bool)
    requires buf.Shape() && buf.last != null
    requires !buf.freezeEnd && |data| <= SIZE_MAX - buf.totalLen
    modifies buf, buf.Repr
    ensures aborted <==> old(AddGranted(buf, |data|, malloc) && !AddSafe(buf, |data|))
    ensures buf.Shape() && fresh(buf.Repr - old(buf.Repr))
    ensures buf.freezeStart == old(buf.freezeStart) && buf.freezeEnd == old(buf.freezeEnd) && buf.nDel == old(buf.nDel)
    ensures !aborted ==> r == if old(AddGranted(buf, |data|, malloc)) then 0 else -1
    ensures !aborted && r == 0 ==> buf.Contents() == old(buf.Contents()) + data && buf.nAdd == old(buf.nAdd) + |data|
    ensures !aborted && r == -1 ==> buf.Contents() == old(buf.Contents()) && buf.nAdd == old(buf.nAdd)
    ensures !aborted ==> (buf.Exact() <==> if r == -1 then old(buf.Exact()) else old(AddKeepsExact(buf, |data|)))
    ensures !aborted && old(NoEmptyPart(buf.parts)) ==> NoEmptyPart(buf.parts)
  {
    hide Evbuffer.Body, Flatten, ExactAt, NoEmptyPart, SpillOk;
    var chain := buf.last;
    buf.At(|buf.chains| - 1);
    if chain.SpaceLen() >= |data| || chain.ShouldRealign(|data|) {
      AddInPlace(buf, data);
      return 0, false;
    }
    var toAlloc := chain.buffer.Length;
    if toAlloc <= MAX_AUTO_SIZE / 2 {
      toAlloc := 2 * toAlloc;
    }
    if |data| > toAlloc {
      toAlloc := |data|;
    }
    var tmp := ChainNew(toAlloc, malloc);
    if tmp == null {
      return -1, false;
    }
    aborted := AddSpill(buf, data, tmp);
    r := 0;
  }

  /** evbuffer_add, also on a buffer whose *last_with_datap is stale.  It does not return, which
      aborted stands for, just when it gets the memory for a new chain but must not insert it. */
  method Add(buf: Evbuffer, data: bytes, malloc: Malloc) returns (r: int, aborted: bool)
    requires buf.Shape()
    modifies buf, buf.Repr
    ensures aborted <==> old(AddGranted(buf, |data|, malloc) && !AddSafe(buf, |data|))
    ensures buf.Shape() && fresh(buf.Repr - old(buf.Repr))
    ensures buf.freezeStart == old(buf.freezeStart) && buf.freezeEnd == old(buf.freezeEnd) && buf.nDel == old(buf.nDel)
    ensures !aborted ==>
      var ok := !buf.freezeEnd && |data| <= SIZE_MAX - old(buf.totalLen) && old(AddGranted(buf, |data|, malloc));
      && r == (if ok then 0 else -1)
      && buf.Contents() == old(buf.Contents()) + (if ok then data else [])
      && buf.nAdd == old(buf.nAdd) + (if ok then |data| else 0)
      && (buf.Valid() <==> if ok then old(AddKeepsExact(buf, |data|)) else old(buf.Valid()))
    ensures !buf.freezeEnd && |data| <= SIZE_MAX - old(buf.totalLen) && |data| <= MAX_REQUEST && NeverFails(malloc) ==>
      aborted || r == 0
    ensures old(buf.Tidy()) ==> !aborted && buf.Tidy()
  {
    hide Evbuffer.Body, Flatten, ExactAt, NoEmptyPart, SpillOk;
    r, aborted := -1, false;
    assert buf.Contents() + [] == buf.Contents();
    if buf.freezeEnd {
      return;
    }
    if |data| > SIZE_MAX - buf.totalLen {
      return;
    }
    if buf.Tidy() {
      TidyAdd(buf, |data|);
    }
    if NeverFails(malloc) && |data| <= MAX_REQUEST {
      GrantedAlways(buf, |data|, malloc);
    }
    if buf.last == null {
      var chain := FirstChain(buf, |data|, malloc);
      if chain == null {
        return;
      }
    }
    r, aborted := AddToLast(buf, data, malloc);
  }

  // ----- evbuffer_prepend

  /** The room in front of the data of the first chain; an empty chain counts as all room. */
  function FrontRoom(chain: Chain): nat
    reads chain
  {
    if chain.off == 0 then chain.buffer.Length else chain.misalign
  }

  lemma ExactGrowFirst(parts: seq<bytes>, k: nat, d: bytes)
    requires k < |parts| && ExactAt(parts, k)
    ensures ExactAt(parts[0 := d + parts[0]], k)
    ensures NoEmptyPart(parts) ==> NoEmptyPart(parts[0 := d + parts[0]])
  {}

  lemma ExactPushFront(parts: seq<bytes>, k: nat, d: bytes)
    requires k < |parts| && ExactAt(parts, k) && d != [] && (k == 0 ==> parts[0] != [])
    ensures ExactAt([d] + parts, k + 1)
    ensures NoEmptyPart(parts) ==> NoEmptyPart([d] + parts)
  {}

  /** Move the empty space of an empty first chain to its front. */
  method OpenFront(buf: Evbuffer)
    requires buf.Valid() && buf.first != null
    modifies buf.first`misalign
    ensures buf.Valid() && buf.first.misalign == old(FrontRoom(buf.first))
  {
    hide Evbuffer.Body, Flatten;
    var chain := buf.first;
    buf.Front();
    buf.At(0);
    buf.Distinct(0);
    if chain.off == 0 {
      chain.misalign := chain.buffer.Length;
      assert buf.parts == buf.parts[0 := []];
      buf.Rewritten(0, []);
    }
  }

  /** Write in front of the data of the first chain. */
  method FillFirst(buf: Evbuffer, data: bytes)
    requires buf.Valid() && buf.first != null && |data| <= buf.first.misalign
    modifies buf`totalLen, buf`nAdd, buf`parts, buf.first`off, buf.first`misalign, buf.first.buffer
    ensures buf.Valid() && |buf.parts| == |old(buf.parts)| > 0 && buf.first.misalign == old(buf.first.misalign) - |data|
    ensures buf.parts == old(buf.parts)[0 := data + old(buf.parts)[0]]
    ensures buf.Contents() == data + old(buf.Contents())
    ensures buf.nAdd == old(buf.nAdd) + |data|
    ensures old(NoEmptyPart(buf.parts)) ==> NoEmptyPart(buf.parts)
  {
    hide Evbuffer.Body, Flatten, Chain.Holds, ExactAt, NoEmptyPart;
    buf.Front();
    buf.At(0);
    buf.Distinct(0);
    ExactGrowFirst(buf.parts, buf.k, data);
    FlattenGrowFirst(buf.parts, data);
    buf.first.PutBefore(data, buf.parts[0]);
    buf.totalLen := buf.totalLen + |data|;
    buf.nAdd := buf.nAdd + |data|;
    buf.parts := buf.parts[0 := data + buf.parts[0]];
    buf.Rewritten(0, buf.parts[0]);
  }

  /** Hang the new chain tmp, which holds d, in front of the list. */
  method PushFront(buf: Evbuffer, tmp: Chain, ghost d: bytes)
    requires buf.Valid() && buf.chains != [] && d != [] && (buf.k == 0 ==> |buf.parts| > 0 && buf.parts[0] != [])
    requires tmp !in buf.Repr && tmp.buffer !in buf.Repr && 0 < tmp.buffer.Length <= MAX_REQUEST && tmp.Holds(d)
    modifies buf`first, buf`lwd, buf`totalLen, buf`Repr, buf`chains, buf`parts, buf`k, tmp`next
    ensures buf.Valid() && buf.Repr == old(buf.Repr) + {tmp, tmp.buffer}
    ensures buf.Contents() == d + old(buf.Contents())
    ensures old(NoEmptyPart(buf.parts)) ==> NoEmptyPart(buf.parts)
  {
    hide Evbuffer.Body, Flatten, Chain.Holds, ExactAt, NoEmptyPart;
    buf.Front();
    tmp.Size(d);
    ExactPushFront(buf.parts, buf.k, d);
    FlattenCons(d, buf.parts);
    buf.HangFront(tmp, d);
    if buf.lwd == null {
      buf.lwd := tmp;
    }
    buf.k := buf.k + 1;
    buf.totalLen := buf.totalLen + tmp.off;
  }

  /** A new chain with the data at the end of its memory. */
  method ChainEndingWith(data: bytes, malloc: Malloc) returns (tmp: Chain?)
    ensures tmp == null ==> |data| > MAX_REQUEST || !NeverFails(malloc)
    ensures tmp != null ==>
      && fresh(tmp) && fresh(tmp.buffer) && 0 < tmp.buffer.Length <= MAX_REQUEST
      && tmp.Holds(data) && tmp.next == null
  {
    tmp := ChainNew(|data|, malloc);
    if tmp != null {
      tmp.misalign := tmp.buffer.Length;
      tmp.PutBefore(data, []);
      assert data + [] == data;
    }
  }

  /** The branch of evbuffer_prepend that fills the front room and puts the rest into a new chain. */
  method PrependSpill(buf: Evbuffer, data: bytes, malloc: Malloc) returns (r: int)
    requires buf.Valid() && buf.first != null && buf.first.misalign < |data|
    requires buf.first.off == 0 ==> buf.first.misalign > 0
    modifies buf, buf.first, buf.first.buffer
    ensures buf.Valid() && fresh(buf.Repr - old(buf.Repr))
    ensures buf.freezeStart == old(buf.freezeStart) && buf.freezeEnd == old(buf.freezeEnd) && buf.nDel == old(buf.nDel)
    ensures buf.nAdd == old(buf.nAdd) + old(buf.first.misalign)
    ensures r == 0 || r == -1
    ensures r == 0 ==> buf.Contents() == data + old(buf.Contents())
    ensures r == -1 ==> buf.Contents() == data[|data| - old(buf.first.misalign)..] + old(buf.Contents())
    ensures |data| <= MAX_REQUEST && NeverFails(malloc) ==> r == 0
    ensures old(NoEmptyPart(buf.parts)) ==> NoEmptyPart(buf.parts)
  {
    hide Evbuffer.Body, Flatten, ExactAt, NoEmptyPart, Chain.Holds;
    buf.Front();
    buf.At(0);
    var chain := buf.first;
    var rest, back := data[..|data| - chain.misalign], data[|data| - chain.misalign..];
    Rejoin(data, |rest|);
    Assoc(rest, back, buf.Contents());
    FillFirst(buf, back);
    var tmp := ChainEndingWith(rest, malloc);
    if tmp == null {
      return -1;
    }
    PushFront(buf, tmp, rest);
    buf.nAdd := buf.nAdd + chain.misalign;
    return 0;
  }

  /** evbuffer_prepend from the point where the buffer has a first chain. */
  method PrependToFirst(buf: Evbuffer, data: bytes, malloc: Malloc) returns (r: int)
    requires buf.Valid() && buf.first != null
    modifies buf, buf.Repr
    ensures buf.Valid() && fresh(buf.Repr - old(buf.Repr))
    ensures buf.freezeStart == old(buf.freezeStart) && buf.freezeEnd == old(buf.freezeEnd) && buf.nDel == old(buf.nDel)
    ensures r == 0 || r == -1
    ensures r == 0 ==> buf.Contents() == data + old(buf.Contents())
    ensures r == 0 ==>
      var room := old(FrontRoom(buf.first)); buf.nAdd == old(buf.nAdd) + if |data| < room then |data| else room
    ensures r == -1 ==>
      var room := old(FrontRoom(buf.first));
      room < |data| && buf.Contents() == data[|data| - room..] + old(buf.Contents()) && buf.nAdd == old(buf.nAdd) + room
    ensures |data| <= MAX_REQUEST && NeverFails(malloc) ==> r == 0
    ensures old(NoEmptyPart(buf.parts)) ==> NoEmptyPart(buf.parts)
  {
    hide Evbuffer.Body, Flatten, ExactAt, NoEmptyPart;
    buf.Front();
    buf.At(0);
    OpenFront(buf);
    if buf.first.misalign >= |data| {
      FillFirst(buf, data);
      return 0;
    }
    r := PrependSpill(buf, data, malloc);
  }

  /** evbuffer_prepend.  When its second allocation is refused it fails and leaves the part of the
      data there was room for.  On the same path it counts the old first chain's misalign, by
      then 0, instead of the length of the new chain: n_add only grows by what the old chain took. */
  method Prepend(buf: Evbuffer, data: bytes, malloc: Malloc) returns (r: int)
    requires buf.Valid()
    modifies buf, buf.Repr
    ensures buf.Valid() && fresh(buf.Repr - old(buf.Repr))
    ensures buf.freezeStart == old(buf.freezeStart) && buf.freezeEnd == old(buf.freezeEnd) && buf.nDel == old(buf.nDel)
    ensures r == 0 || r == -1
    ensures r == 0 ==> !buf.freezeStart && |data| <= SIZE_MAX - old(buf.totalLen)
    ensures r == 0 ==> buf.Contents() == data + old(buf.Contents())
    ensures r == 0 && old(buf.first) == null ==> buf.nAdd == old(buf.nAdd) + |data|
    ensures r == 0 && old(buf.first) != null ==>
      var room := old(FrontRoom(buf.first)); buf.nAdd == old(buf.nAdd) + if |data| < room then |data| else room
    ensures r == -1 && (old(buf.freezeStart) || |data| > SIZE_MAX - old(buf.totalLen) || old(buf.first) == null) ==>
      buf.Contents() == old(buf.Contents()) && buf.nAdd == old(buf.nAdd)
    ensures r == -1 && !(old(buf.freezeStart) || |data| > SIZE_MAX - old(buf.totalLen) || old(buf.first) == null) ==>
      var room := old(FrontRoom(buf.first));
      room < |data| && buf.Contents() == data[|data| - room..] + old(buf.Contents()) && buf.nAdd == old(buf.nAdd) + room
    ensures !buf.freezeStart && |data| <= Min(MAX_REQUEST, SIZE_MAX - old(buf.totalLen)) && NeverFails(malloc) ==>
      r == 0
    ensures old(buf.Tidy()) ==> buf.Tidy()
  {
    hide Evbuffer.Body, Flatten, ExactAt, NoEmptyPart;
    r := -1;
    if buf.freezeStart {
      return;
    }
    if |data| > SIZE_MAX - buf.totalLen {
      return;
    }
    buf.Front();
    if buf.first == null {
      var chain := FirstChain(buf, |data|, malloc);
      if chain == null {
        return;
      }
      buf.Front();
    }
    r := PrependToFirst(buf, data, malloc);
  }
}
