/** Making room at the end: evbuffer_expand_singlechain, evbuffer_expand_fast_. */
module EvbufferExpand {
  import opened Bytes
  import opened CInts
  import opened EvbufferWrite
  import opened Evbuffers

  const MAX_TO_COPY: nat := 4096

  /** The first chain from *last_with_datap on that has room behind its data, if it is one of two. */
  ghost function FirstSpace(buf: Evbuffer): nat
    reads buf, buf.Repr
    requires buf.Shape() && buf.chains != []
  {
    if buf.chains[buf.k].SpaceLen() == 0 then buf.k + 1 else buf.k
  }

  /** The chain is not copied into a larger one: too little room would be gained, or too much copied.
      The last test is the wrong way round: it lets only requests through that are too large. */
  predicate NotWorthResizing(chain: Chain, datlen: nat)
    reads chain`misalign, chain`off
  {
    || chain.SpaceLen() < chain.buffer.Length / 8 || chain.off > MAX_TO_COPY
    || (datlen < CHAIN_MAX && CHAIN_MAX - datlen >= chain.off)
  }

  /** It would be only if an eighth of it is free, at most 4096 bytes have to be copied, and the two lengths
      together are beyond any chain. */
  lemma WorthResizing(chain: Chain, datlen: nat)
    requires chain.misalign + chain.off <= chain.buffer.Length
    ensures !NotWorthResizing(chain, datlen) <==>
      && 8 * (chain.SpaceLen() + 1) > chain.buffer.Length && chain.off <= 4096
      && (chain.off + datlen > CHAIN_MAX || (chain.off == 0 && datlen == CHAIN_MAX))
  {}

  /** evbuffer_expand_singlechain uses the chain as it is. */
  ghost predicate UsesFirst(buf: Evbuffer, datlen: nat)
    requires buf.Shape()
    reads buf, buf.Repr
  {
    && buf.chains != [] && FirstSpace(buf) < |buf.chains|
    && (buf.At(FirstSpace(buf)); buf.chains[FirstSpace(buf)].SpaceLen() >= datlen)
  }

  /** The first chain with space has not enough of it, but holds data. */
  ghost predicate FirstTooSmall(buf: Evbuffer, datlen: nat)
    requires buf.Shape()
    reads buf, buf.Repr
  {
    && buf.chains != [] && FirstSpace(buf) < |buf.chains|
    && (buf.At(FirstSpace(buf));
        var c := buf.chains[FirstSpace(buf)]; c.off > 0 && !HasRoom(c, datlen))
  }

  /** It uses the chain behind that one as it is. */
  ghost predicate UsesNext(buf: Evbuffer, datlen: nat)
    requires buf.Shape()
    reads buf, buf.Repr
  {
    && FirstTooSmall(buf, datlen) && FirstSpace(buf) + 1 < |buf.chains|
    && (buf.At(FirstSpace(buf)); buf.At(FirstSpace(buf) + 1);
        NotWorthResizing(buf.chains[FirstSpace(buf)], datlen) && buf.chains[FirstSpace(buf) + 1].SpaceLen() >= datlen)
  }

  /** It would copy the chain into a larger one. */
  ghost predicate Resizes(buf: Evbuffer, datlen: nat)
    requires buf.Shape()
    reads buf, buf.Repr
  {
    && FirstTooSmall(buf, datlen)
    && (buf.At(FirstSpace(buf)); !NotWorthResizing(buf.chains[FirstSpace(buf)], datlen))
  }

  /** It would, the sum of the two lengths wraps to a small number, and that much memory is granted. */
  ghost predicate ResizeWraps(buf: Evbuffer, datlen: nat, malloc: Malloc)
    requires buf.Shape()
    reads buf, buf.Repr
  {
    && Resizes(buf, datlen)
    && (buf.At(FirstSpace(buf));
        var off := buf.chains[FirstSpace(buf)].off; datlen > SIZE_MAX - off && Granted(malloc, off + datlen - TWO_64))
  }

  /** A new empty chain at the end, in place of the empty chains that trail the data. */
  method InsertNew(buf: Evbuffer, datlen: nat, malloc: Malloc) returns (chain: Chain?, ghost at: nat)
    requires buf.Valid()
    modifies buf, buf.Repr
    ensures buf.Valid() && fresh(buf.Repr - old(buf.Repr))
    ensures buf.Contents() == old(buf.Contents()) && buf.totalLen == old(buf.totalLen)
    ensures buf.nAdd == old(buf.nAdd) && buf.nDel == old(buf.nDel)
    ensures buf.freezeStart == old(buf.freezeStart) && buf.freezeEnd == old(buf.freezeEnd)
    ensures chain == null ==> datlen > MAX_REQUEST || !NeverFails(malloc)
    ensures chain == null ==> buf.parts == old(buf.parts)
    ensures chain != null ==>
      |buf.chains| == at + 1 && chain == buf.chains[at] && buf.k <= at <= buf.k + 1 && chain.SpaceLen() >= datlen
  {
    hide Evbuffer.Body, Flatten, ExactAt, FirstEmpty, AllEmpty;
    at := 0;
    chain := ChainNew(datlen, malloc);
    if chain == null {
      return;
    }
    buf.Front();
    buf.Inside();
    ExactTail(buf.parts, buf.k);
    ExactInsert(buf.parts, buf.k, []);
    buf.ChainInsert(chain, []);
    assert old(buf.Contents()) + [] == old(buf.Contents());
    at := |buf.chains| - 1;
  }

  /** The attempt to copy the chain into a larger one. */
  method ResizeChain(chain: Chain, datlen: nat, malloc: Malloc) returns (aborted: bool)
    requires datlen <= SIZE_MAX && chain.off > 0 && !HasRoom(chain, datlen) && !NotWorthResizing(chain, datlen)
    ensures aborted <==> datlen > SIZE_MAX - chain.off && Granted(malloc, chain.off + datlen - TWO_64)
  {
    var length := AsSize(chain.off + datlen);
    var tmp := ChainNew(length, malloc);
    if tmp == null {
      return false;
    }
    // Only a sum that wrapped gets here.  If the copy stays inside the new chain at all, the assertion at
    // the end finds less room in it than was asked for.
    assert tmp.buffer.Length < datlen;
    return true;
  }

  /** evbuffer_expand_singlechain from the point where some chain has room behind its data, or is the
      empty chain behind one that has not. */
  method ExpandChain(buf: Evbuffer, chain: Chain, datlen: nat, malloc: Malloc, ghost c: nat)
      returns (result: Chain?, aborted: bool, ghost at: nat)
    requires buf.Valid() && datlen <= SIZE_MAX && c < |buf.chains| && chain == buf.chains[c]
    requires c == buf.k || (c == buf.k + 1 && chain.off == 0)
    requires c == FirstSpace(buf)
    modifies buf, buf.Repr
    ensures aborted <==> old(ResizeWraps(buf, datlen, malloc))
    ensures old(UsesFirst(buf, datlen)) ==> at == c && unchanged(buf) && unchanged(buf.Repr)
    ensures old(UsesNext(buf, datlen)) ==> at == c + 1 && unchanged(buf) && unchanged(buf.Repr)
    ensures !aborted && old(Resizes(buf, datlen)) ==> result == null && unchanged(buf) && unchanged(buf.Repr)
    ensures buf.Valid() && fresh(buf.Repr - old(buf.Repr))
    ensures buf.Contents() == old(buf.Contents()) && buf.totalLen == old(buf.totalLen)
    ensures buf.nAdd == old(buf.nAdd) && buf.nDel == old(buf.nDel)
    ensures buf.freezeStart == old(buf.freezeStart) && buf.freezeEnd == old(buf.freezeEnd)
    ensures result != null ==>
      buf.k <= at <= buf.k + 1 && at < |buf.chains| && result == buf.chains[at] && result.SpaceLen() >= datlen
    ensures datlen + MAX_TO_COPY <= MAX_REQUEST && NeverFails(malloc) ==> result != null
  {
    hide Evbuffer.Body, Flatten, ExactAt;
    buf.At(c);
    at := c;
    aborted := false;
    if chain.SpaceLen() >= datlen {
      return chain, false, c;
    }
    if chain.off == 0 {
      result, at := InsertNew(buf, datlen, malloc);
      return;
    }
    if chain.ShouldRealign(datlen) {
      buf.AlignAt(chain, c);
      return chain, false, c;
    }
    if NotWorthResizing(chain, datlen) {
      if chain.next != null && c + 1 < |buf.chains| {
        buf.At(c + 1);
      }
      if chain.next != null && chain.next.SpaceLen() >= datlen {
        return chain.next, false, c + 1;
      }
      result, at := InsertNew(buf, datlen, malloc);
      return;
    }
    aborted := ResizeChain(chain, datlen, malloc);
    return null, aborted, c;
  }

  /** evbuffer_expand_singlechain: room for datlen bytes in one chain, which is chain number at.
      The branch that would resize a chain is taken only for very large requests.  The allocation it
      makes is refused, or its size has wrapped, and then the program does not get past the assertion
      at the end, which aborted stands for. */
  method ExpandSinglechain(buf: Evbuffer, datlen: nat, malloc: Malloc)
      returns (result: Chain?, aborted: bool, ghost at: nat)
    requires buf.Valid() && datlen <= SIZE_MAX
    modifies buf, buf.Repr
    ensures aborted <==> old(ResizeWraps(buf, datlen, malloc))
    ensures old(UsesFirst(buf, datlen)) ==> at == old(FirstSpace(buf)) && unchanged(buf) && unchanged(buf.Repr)
    ensures old(UsesNext(buf, datlen)) ==> at == old(FirstSpace(buf)) + 1 && unchanged(buf) && unchanged(buf.Repr)
    ensures !aborted && old(Resizes(buf, datlen)) ==> result == null && unchanged(buf) && unchanged(buf.Repr)
    ensures buf.Valid() && fresh(buf.Repr - old(buf.Repr))
    ensures buf.Contents() == old(buf.Contents()) && buf.totalLen == old(buf.totalLen)
    ensures buf.nAdd == old(buf.nAdd) && buf.nDel == old(buf.nDel)
    ensures buf.freezeStart == old(buf.freezeStart) && buf.freezeEnd == old(buf.freezeEnd)
    ensures result != null ==>
      buf.k <= at <= buf.k + 1 && at < |buf.chains| && result == buf.chains[at] && result.SpaceLen() >= datlen
    ensures datlen + MAX_TO_COPY <= MAX_REQUEST && NeverFails(malloc) ==> result != null
  {
    hide Evbuffer.Body, Flatten;
    buf.Front();
    buf.LinkAt(buf.k);
    var chain := buf.Deref(buf.lwd);
    ghost var c := buf.k;
    if chain != null {
      buf.At(c);
      if chain.SpaceLen() == 0 {
        chain := chain.next;
        c := c + 1;
      }
    }
    aborted := false;
    if chain == null {
      result, at := InsertNew(buf, datlen, malloc);
    } else {
      buf.At(c);
      result, aborted, at := ExpandChain(buf, chain, datlen, malloc, c);
    }
  }

  /** evbuffer_expand */
  method Expand(buf: Evbuffer, datlen: nat, malloc: Malloc) returns (r: int, aborted: bool)
    requires buf.Valid() && datlen <= SIZE_MAX
    modifies buf, buf.Repr
    ensures aborted <==> old(ResizeWraps(buf, datlen, malloc))
    ensures buf.Valid() && fresh(buf.Repr - old(buf.Repr))
    ensures buf.Contents() == old(buf.Contents()) && buf.totalLen == old(buf.totalLen)
    ensures buf.nAdd == old(buf.nAdd) && buf.nDel == old(buf.nDel)
    ensures buf.freezeStart == old(buf.freezeStart) && buf.freezeEnd == old(buf.freezeEnd)
    ensures !aborted ==> r == 0 || r == -1
    ensures !aborted && r == 0 ==>
      exists at: nat :: at < |buf.chains| && buf.k <= at <= buf.k + 1 && buf.chains[at].SpaceLen() >= datlen
    ensures !aborted && datlen + MAX_TO_COPY <= MAX_REQUEST && NeverFails(malloc) ==> r == 0
  {
    hide Evbuffer.Body, Flatten;
    var chain;
    ghost var at;
    chain, aborted, at := ExpandSinglechain(buf, datlen, malloc);
    r := if chain != null then 0 else -1;
  }

  // ----- evbuffer_expand_fast_

  /** An upper bound for the size of a new chain with room for datlen bytes. */
  function NewLength(datlen: nat): nat {
    Max(MIN_BUFFER_SIZE, 2 * (datlen + CHAIN_SIZE))
  }

  ghost function Sum(s: seq<nat>): nat {
    if s == [] then 0 else Sum(s[..|s| - 1]) + s[|s| - 1]
  }

  ghost function CountPositive(s: seq<nat>): nat {
    if s == [] then 0 else CountPositive(s[..|s| - 1]) + if s[|s| - 1] > 0 then 1 else 0
  }

  /** room lists how much room there is behind the data of each chain. */
  ghost predicate RoomIs(buf: Evbuffer, room: seq<nat>)
    reads buf`chains, buf.chains`misalign, buf.chains`off
  {
    |room| == |buf.chains| && forall i {:trigger buf.chains[i]} :: 0 <= i < |room| ==>
      buf.chains[i].SpaceLen() == room[i]
  }

  /** The chains from k up to m have room for datlen bytes, and at most n of them have any.  Those
      behind the first all have some. */
  ghost predicate Fits(room: seq<nat>, k: nat, m: nat, n: nat, datlen: nat)
  {
    && k <= m <= |room| && CountPositive(room[k..m]) <= n && Sum(room[k..m]) >= datlen
    && (forall j :: k < j < m ==> room[j] > 0)
  }

  lemma RoomOf(buf: Evbuffer) returns (room: seq<nat>)
    requires buf.Body()
    ensures RoomIs(buf, room)
  {
    room := [];
    for i := 0 to |buf.chains|
      invariant |room| == i
      invariant forall j {:trigger buf.chains[j]} :: 0 <= j < i ==> buf.chains[j].SpaceLen() == room[j]
    {
      buf.At(i);
      room := room + [buf.chains[i].SpaceLen()];
    }
  }

  lemma SumStep(room: seq<nat>, k: nat, i: nat, r: nat)
    requires k <= i < |room|
    ensures var q := room[i := r];
      Sum(q[k..i + 1]) == Sum(room[k..i]) + r &&
        CountPositive(q[k..i + 1]) == CountPositive(room[k..i]) + if r > 0 then 1 else 0
  {
    var q := room[i := r];
    var t := q[k..i + 1];
    assert t[..|t| - 1] == room[k..i];
  }

  /** The misalignment of chain i, which is empty, goes. */
  method ResetEmpty(buf: Evbuffer, chain: Chain, ghost i: nat, ghost room: seq<nat>)
    requires buf.Shape() && i < |buf.chains| == |buf.parts| && chain == buf.chains[i] && buf.parts[i] == []
    requires RoomIs(buf, room)
    modifies chain`misalign
    ensures buf.Shape() && chain.SpaceLen() == chain.buffer.Length && chain.buffer.Length > 0
    ensures RoomIs(buf, room[i := chain.buffer.Length])
  {
    hide Evbuffer.Body, Flatten, Chain.Holds;
    buf.At(i);
    buf.Distinct(i);
    chain.misalign := 0;
    assert buf.parts == buf.parts[i := []];
    EmptyHolds(chain);
    buf.Rewritten(i, []);
  }

  lemma EmptyHolds(chain: Chain)
    requires chain.off == 0 && chain.misalign == 0
    ensures chain.Holds([])
  {}

  /** The room in one chain of the walk; an empty chain is realigned first. */
  method FastStep(buf: Evbuffer, chain: Chain, ghost i: nat, ghost room: seq<nat>)
      returns (space: nat, ghost after: seq<nat>)
    requires buf.Valid() && buf.k <= i < |buf.chains| == |buf.parts| && chain == buf.chains[i] && RoomIs(buf, room)
    modifies chain`misalign
    ensures buf.Valid() && RoomIs(buf, after) && |after| == |room| && after == room[i := space]
    ensures chain.misalign == old(chain.misalign) || chain.misalign == 0
    ensures i > buf.k ==> space > 0
  {
    hide Evbuffer.Body, Flatten, Chain.Holds, RoomIs, ExactAt;
    buf.At(i);
    BehindData(buf.parts, buf.k, i);
    RoomAt(buf, room, i);
    if chain.off > 0 {
      space, after := chain.SpaceLen(), room;
    } else {
      ResetEmpty(buf, chain, i, room);
      space, after := chain.buffer.Length, room[i := chain.buffer.Length];
    }
  }

  lemma RoomAt(buf: Evbuffer, room: seq<nat>, i: nat)
    requires RoomIs(buf, room) && i < |buf.chains|
    ensures |room| == |buf.chains| && room[i] == buf.chains[i].SpaceLen()
    ensures room == room[i := room[i]]
  {}

  lemma BehindData(parts: seq<bytes>, k: nat, i: nat)
    requires ExactAt(parts, k) && k <= i < |parts|
    ensures i > k ==> parts[i] == []
  {}

  lemma NoRoomYet(room: seq<nat>, k: nat)
    requires k <= |room|
    ensures Sum(room[k..k]) == 0 && CountPositive(room[k..k]) == 0
  {}

  /** The loop of evbuffer_expand_fast_: how much room is there in the first n chains that have some? */
  method FastWalk(buf: Evbuffer, datlen: nat, n: nat)
      returns (avail: nat, used: nat, ghost m: nat, ghost room: seq<nat>)
    requires buf.Valid() && buf.chains != [] && n >= 2
    modifies buf.chains`misalign
    ensures buf.Valid()
    ensures RoomIs(buf, room) && |room| == |buf.chains| && buf.k < m <= |buf.chains|
    ensures used == CountPositive(room[buf.k..m]) <= n && avail == Sum(room[buf.k..m])
    ensures forall j :: buf.k < j < m ==> room[j] > 0
    ensures avail < datlen && used < n ==> m == |buf.chains|
    ensures forall c: Chain :: c in buf.chains ==> c.misalign <= old(c.misalign)
  {
    hide Evbuffer.Body, Flatten, Chain.Holds, ExactAt, Sum, CountPositive, RoomIs;
    room := RoomOf(buf);
    buf.Front();
    ghost var k := buf.k;
    buf.LinkAt(k);
    avail, used, m := 0, 0, k;
    RoomAt(buf, room, k);
    NoRoomYet(room, k);
    var chain := buf.Deref(buf.lwd);
    while chain != null
      invariant k <= m <= |buf.chains| == |buf.parts| == |room| && chain == buf.Next(m)
      invariant buf.Valid() && RoomIs(buf, room)
      invariant used == CountPositive(room[k..m]) < n && avail == Sum(room[k..m])
      invariant forall j :: k < j < m ==> room[j] > 0
      invariant forall c: Chain :: c in buf.chains ==> c.misalign <= old(c.misalign)
      decreases |buf.chains| - m
    {
      var space;
      ghost var was := room;
      space, room := FastStep(buf, chain, m, room);
      SumStep(was, k, m, space);
      buf.At(m);
      if space > 0 {
        avail := avail + space;
        used := used + 1;
      }
      m := m + 1;
      if avail >= datlen || used == n {
        return;
      }
      chain := chain.next;
    }
  }

  /** One more chain behind the trailing empty ones. */
  method ExtendBy(buf: Evbuffer, tmp: Chain, ghost room: seq<nat>) returns (ghost after: seq<nat>)
    requires buf.Valid() && buf.chains != [] && RoomIs(buf, room)
    requires tmp !in buf.Repr && tmp.buffer !in buf.Repr && 0 < tmp.buffer.Length <= MAX_REQUEST
    requires tmp.next == null && tmp.misalign == 0 && tmp.off == 0
    modifies buf`first, buf`last, buf`Repr, buf`chains, buf`parts, buf.chains`next
    ensures buf.Valid() && buf.Contents() == old(buf.Contents()) && buf.Repr == old(buf.Repr) + {tmp, tmp.buffer}
    ensures buf.chains == old(buf.chains) + [tmp] && buf.parts == old(buf.parts) + [[]]
    ensures RoomIs(buf, after) && after == room + [tmp.buffer.Length] && buf.chains != []
  {
    hide Evbuffer.Body, Flatten, Chain.Holds, ExactAt;
    buf.Outside(tmp);
    buf.Front();
    FlattenSnoc(buf.parts, []);
    ExactSnocEmpty(buf.parts, buf.k);
    EmptyHolds(tmp);
    buf.HangAt(buf.last, tmp, []);
    buf.last := tmp;
    after := room + [tmp.buffer.Length];
  }

  lemma ExactSnocEmpty(parts: seq<bytes>, k: nat)
    requires k < |parts| && ExactAt(parts, k)
    ensures ExactAt(parts + [[]], k)
  {}

  /** Free the empty chains behind the data, all chains if there is no data; link is where the list
      now ends. */
  method CutEmpties(buf: Evbuffer) returns (link: Chain?)
    requires buf.Valid() && buf.chains != []
    modifies buf`first, buf`chains, buf`parts, buf.chains`next
    ensures buf.Body()
    ensures var j := FirstEmpty(old(buf.parts), buf.k);
      j <= |old(buf.chains)| && buf.chains == old(buf.chains)[..j] && buf.parts == old(buf.parts)[..j] &&
        link == buf.Link(j)
  {
    hide Evbuffer.Body, Flatten, Chain.Holds, ExactAt, FirstEmpty;
    buf.Front();
    buf.LinkAt(buf.k);
    buf.At(buf.k);
    ExactCut(buf.parts, buf.k);
    var target := buf.Deref(buf.lwd);
    link := if target.off == 0 then buf.lwd else target;
    buf.CutAt(link, FirstEmpty(buf.parts, buf.k));
  }

  /** The empty chains are gone and nothing replaces them. */
  method DropEmpties(buf: Evbuffer)
    requires buf.Valid() && buf.chains != []
    modifies buf`first, buf`last, buf`chains, buf`parts, buf.chains`next
    ensures buf.Valid() && buf.Contents() == old(buf.Contents())
    ensures buf.k <= |old(buf.parts)| && buf.parts == old(buf.parts)[..FirstEmpty(old(buf.parts), buf.k)]
  {
    hide Evbuffer.Body, Flatten, ExactAt, FirstEmpty, AllEmpty;
    buf.Front();
    ExactTail(buf.parts, buf.k);
    FlattenDropEmpty(buf.parts, FirstEmpty(buf.parts, buf.k));
    ExactCut(buf.parts, buf.k);
    buf.last := CutEmpties(buf);
  }

  /** Replace the empty chains behind the data, all chains if there is no data, by tmp. */
  method ReplaceEmpties(buf: Evbuffer, tmp: Chain)
    requires buf.Valid() && buf.chains != []
    requires tmp !in buf.Repr && tmp.buffer !in buf.Repr && 0 < tmp.buffer.Length <= MAX_REQUEST
    requires tmp.next == null && tmp.misalign == 0 && tmp.off == 0
    modifies buf`first, buf`last, buf`Repr, buf`chains, buf`parts, buf.chains`next
    ensures buf.Valid() && buf.Contents() == old(buf.Contents())
    ensures buf.Repr == old(buf.Repr) + {tmp, tmp.buffer}
    ensures var j := FirstEmpty(old(buf.parts), buf.k);
      j <= |old(buf.chains)| && buf.chains == old(buf.chains)[..j] + [tmp] && buf.parts == old(buf.parts)[..j] + [[]]
  {
    hide Evbuffer.Body, Flatten, Chain.Holds, ExactAt, FirstEmpty, AllEmpty;
    buf.Front();
    buf.Outside(tmp);
    EmptyHolds(tmp);
    ghost var j := FirstEmpty(buf.parts, buf.k);
    ExactTail(buf.parts, buf.k);
    FlattenDropEmpty(buf.parts, j);
    FlattenSnoc(buf.parts[..j], []);
    ExactInsert(buf.parts, buf.k, []);
    var link := CutEmpties(buf);
    buf.HangAt(link, tmp, []);
    buf.last := tmp;
  }

  /** The room after a replacement. */
  twostate lemma RoomReplaced(new buf: Evbuffer, new tmp: Chain, new j: nat, new room: seq<nat>)
    requires old(allocated(buf)) && old(RoomIs(buf, room)) && j <= |room| == |old(buf.chains)|
    requires buf.chains == old(buf.chains)[..j] + [tmp] && tmp.SpaceLen() >= 0
    requires unchanged(old(buf.chains)`misalign) && unchanged(old(buf.chains)`off)
    ensures RoomIs(buf, room[..j] + [tmp.SpaceLen()])
  {
    forall i {:trigger buf.chains[i]} | 0 <= i < j
      ensures buf.chains[i].SpaceLen() == room[i]
    {
      assert buf.chains[i] == old(buf.chains)[i];
    }
  }

  lemma ExactCut(parts: seq<bytes>, k: nat)
    requires k < |parts| && ExactAt(parts, k)
    ensures var j := FirstEmpty(parts, k); j == (if parts[k] == [] then 0 else k + 1) && ExactAt(parts[..j], k)
  {
    if parts[k] != [] {
      ExactTail(parts, k);
    }
  }

  lemma FitsNow(room: seq<nat>, k: nat, m: nat, n: nat, datlen: nat)
    requires k < m <= |room| && CountPositive(room[k..m]) <= n && Sum(room[k..m]) >= datlen
    requires forall j :: k < j < m ==> room[j] > 0
    ensures Fits(room, k, m, n, datlen)
  {}

  lemma FitsExtended(room: seq<nat>, k: nat, n: nat, datlen: nat, len: nat)
    requires k < |room| && CountPositive(room[k..|room|]) < n && Sum(room[k..|room|]) + len >= datlen && len > 0
    requires forall j :: k < j < |room| ==> room[j] > 0
    ensures Fits(room + [len], k, |room| + 1, n, datlen)
  {
    var q := room + [len];
    assert q[k..|room| + 1][..|room| - k] == room[k..|room|];
  }

  lemma {:induction false} SumHasFirst(s: seq<nat>)
    requires s != []
    ensures s[0] <= Sum(s)
  {
    if |s| > 1 {
      SumHasFirst(s[..|s| - 1]);
    }
  }

  lemma FitsOne(len: nat, n: nat, datlen: nat)
    requires len >= datlen && n >= 2
    ensures Fits([len], 0, 1, n, datlen)
  {
    assert [len][0..1][..0] == [];
    assert Sum([len][0..1]) == len;
  }

  lemma FitsTwo(room: seq<nat>, k: nat, len: nat, n: nat, datlen: nat)
    requires k < |room| && room[k] + len >= datlen && n >= 2 && len > 0
    ensures Fits(room[..k + 1] + [len], k, k + 2, n, datlen)
  {
    var q := room[..k + 1] + [len];
    var t := q[k..k + 2];
    assert t == [room[k], len];
    assert t[..1] == [room[k]] && t[..1][..0] == [];
    assert Sum([room[k]]) == room[k];
    assert CountPositive([room[k]]) <= 1;
  }

  lemma RoomOfOne(buf: Evbuffer)
    requires buf.Body() && |buf.chains| == 1
    ensures buf.chains[0].SpaceLen() >= 0 && RoomIs(buf, [buf.chains[0].SpaceLen()])
  {
    buf.At(0);
  }

  /** evbuffer_expand_fast_ on a buffer without chains. */
  method ExpandNone(buf: Evbuffer, datlen: nat, n: nat, malloc: Malloc)
      returns (r: int, ghost m: nat, ghost room: seq<nat>)
    requires buf.Valid() && n >= 2 && buf.last == null
    modifies buf, buf.Repr
    ensures buf.Valid() && fresh(buf.Repr - old(buf.Repr))
    ensures buf.Contents() == old(buf.Contents()) && buf.totalLen == old(buf.totalLen)
    ensures buf.nAdd == old(buf.nAdd) && buf.nDel == old(buf.nDel)
    ensures buf.freezeStart == old(buf.freezeStart) && buf.freezeEnd == old(buf.freezeEnd)
    ensures r == 0 || r == -1
    ensures r == 0 ==> buf.chains != [] && RoomIs(buf, room) && Fits(room, buf.k, m, n, datlen)
    ensures datlen <= MAX_REQUEST && NeverFails(malloc) ==> r == 0
    ensures r == 0 ==> |buf.chains| == 1 && buf.chains[0].buffer.Length <= NewLength(datlen)
    ensures r == 0 ==> buf.k == 0 && buf.parts == [[]]
    ensures r == -1 ==> unchanged(buf)
  {
    hide Evbuffer.Body, Flatten, Chain.Holds, ExactAt, Sum, CountPositive, RoomIs, Fits;
    m, room := 0, [];
    var chain := FirstChain(buf, datlen, malloc);
    if chain == null {
      return -1, m, room;
    }
    RoomOfOne(buf);
    FitsOne(chain.SpaceLen(), n, datlen);
    return 0, 1, [chain.SpaceLen()];
  }

  /** The replacement of the empty chains, the room there is then, and that it suffices. */
  method NukeFor(buf: Evbuffer, tmp: Chain, ghost datlen: nat, ghost n: nat, ghost was: seq<nat>, ghost j: nat)
      returns (ghost m: nat, ghost room: seq<nat>)
    requires buf.Valid() && n >= 2 && RoomIs(buf, was) && |was| == |buf.chains| == |buf.parts| && buf.k < |was|
    requires buf.k <= |buf.parts| && j == FirstEmpty(buf.parts, buf.k)
    requires if j == 0 then buf.k == 0 && tmp.buffer.Length >= datlen
             else j == buf.k + 1 && was[buf.k] + tmp.buffer.Length >= datlen
    requires tmp !in buf.Repr && tmp.buffer !in buf.Repr && 0 < tmp.buffer.Length <= MAX_REQUEST
    requires tmp.next == null && tmp.misalign == 0 && tmp.off == 0
    modifies buf`first, buf`last, buf`Repr, buf`chains, buf`parts, buf.chains`next
    ensures buf.Valid() && buf.Contents() == old(buf.Contents()) && buf.Repr == old(buf.Repr) + {tmp, tmp.buffer}
    ensures buf.chains == old(buf.chains)[..j] + [tmp] && buf.parts == old(buf.parts)[..j] + [[]]
    ensures RoomIs(buf, room) && Fits(room, buf.k, m, n, datlen)
  {
    hide Evbuffer.Body, Flatten, Chain.Holds, ExactAt, Sum, CountPositive, RoomIs, Fits, FirstEmpty;
    ghost var len := tmp.buffer.Length;
    ReplaceEmpties(buf, tmp);
    RoomReplaced(buf, tmp, j, was);
    if j == 0 {
      assert was[..0] + [len] == [len];
      FitsOne(len, n, datlen);
      room, m := [len], 1;
    } else {
      FitsTwo(was, buf.k, len, n, datlen);
      room, m := was[..j] + [len], j + 1;
    }
  }

  /** The last resort of evbuffer_expand_fast_: replace all empty chains. */
  method ExpandNuke(buf: Evbuffer, datlen: nat, n: nat, malloc: Malloc, ghost was: seq<nat>)
      returns (r: int, ghost m: nat, ghost room: seq<nat>)
    requires buf.Valid() && n >= 2 && buf.chains != [] && RoomIs(buf, was) && |was| == |buf.chains|
    requires was[buf.k] < datlen
    modifies buf, buf.Repr
    ensures buf.Valid() && fresh(buf.Repr - old(buf.Repr))
    ensures buf.Contents() == old(buf.Contents()) && buf.totalLen == old(buf.totalLen)
    ensures buf.nAdd == old(buf.nAdd) && buf.nDel == old(buf.nDel)
    ensures buf.freezeStart == old(buf.freezeStart) && buf.freezeEnd == old(buf.freezeEnd)
    ensures r == 0 || r == -1
    ensures r == 0 ==> buf.chains != [] && RoomIs(buf, room) && Fits(room, buf.k, m, n, datlen)
    ensures datlen <= MAX_REQUEST && NeverFails(malloc) ==> r == 0
    ensures buf.k == old(buf.k) <= |old(buf.parts)| && |old(buf.parts)| == |old(buf.chains)|
    ensures var j := FirstEmpty(old(buf.parts), buf.k);
      if r == -1 then buf.parts == old(buf.parts)[..j]
      else
        && buf.parts == old(buf.parts)[..j] + [[]] && |buf.chains| == j + 1 && buf.chains[..j] == old(buf.chains)[..j]
        && buf.chains[j].buffer.Length <= NewLength(datlen)
  {
    hide Evbuffer.Body, Flatten, Chain.Holds, ExactAt, Sum, CountPositive, RoomIs, Fits, FirstEmpty;
    buf.Front();
    buf.Inside();
    ghost var k := buf.k;
    buf.LinkAt(k);
    buf.At(k);
    RoomAt(buf, was, k);
    ExactCut(buf.parts, k);
    var target := buf.Deref(buf.lwd);
    var avail := if target.off == 0 then 0 else target.SpaceLen();
    ghost var empty := target.off == 0;
    var tmp := ChainNew(datlen - avail, malloc);
    if tmp == null {
      DropEmpties(buf);
      return -1, 0, [];
    }
    r := 0;
    m, room := NukeFor(buf, tmp, datlen, n, was, if empty then 0 else k + 1);
  }

  /** The branch of evbuffer_expand_fast_ that adds a chain for what is missing. */
  method ExpandByOne(buf: Evbuffer, avail: nat, datlen: nat, n: nat, malloc: Malloc, ghost was: seq<nat>)
      returns (r: int, ghost m: nat, ghost room: seq<nat>)
    requires buf.Valid() && buf.chains != [] && RoomIs(buf, was) && buf.k < |was| == |buf.chains| && avail < datlen
    requires avail == Sum(was[buf.k..|was|]) && CountPositive(was[buf.k..|was|]) < n
    requires forall j :: buf.k < j < |was| ==> was[j] > 0
    modifies buf`first, buf`last, buf`Repr, buf`chains, buf`parts, buf.chains`next
    ensures buf.Valid() && buf.Contents() == old(buf.Contents()) && fresh(buf.Repr - old(buf.Repr))
    ensures r == 0 || r == -1
    ensures r == 0 ==> RoomIs(buf, room) && Fits(room, buf.k, m, n, datlen)
    ensures datlen <= MAX_REQUEST && NeverFails(malloc) ==> r == 0
    ensures r == -1 ==> buf.chains == old(buf.chains) && buf.parts == old(buf.parts)
    ensures r == 0 ==>
      && |buf.chains| == |old(buf.chains)| + 1 && buf.chains[..|old(buf.chains)|] == old(buf.chains)
      && buf.parts == old(buf.parts) + [[]] && buf.chains[|old(buf.chains)|].buffer.Length <= NewLength(datlen)
  {
    hide Evbuffer.Body, Flatten, Chain.Holds, ExactAt, Sum, CountPositive, RoomIs, Fits, FirstEmpty;
    m, room := 0, was;
    buf.Inside();
    var tmp := ChainNew(datlen - avail, malloc);
    if tmp == null {
      return -1, m, room;
    }
    FitsExtended(room, buf.k, n, datlen, tmp.buffer.Length);
    room := ExtendBy(buf, tmp, room);
    return 0, |room|, room;
  }

  /** No chain is freed, and one may be new, which is no larger than it needs to be. */
  ghost predicate AtMostOneMore(buf: Evbuffer, was: seq<Chain>, wasParts: seq<bytes>, datlen: nat)
    reads buf`chains, buf`parts
  {
    var n := |was|;
    || (buf.chains == was && buf.parts == wasParts)
    || (|buf.chains| == n + 1 && buf.chains[..n] == was && buf.parts == wasParts + [[]]
        && buf.chains[n].buffer.Length <= NewLength(datlen))
  }

  lemma {:induction false} CountAtMost(s: seq<nat>)
    ensures CountPositive(s) <= |s|
  {
    if s != [] {
      CountAtMost(s[..|s| - 1]);
    }
  }

  /** evbuffer_expand_fast_: room for datlen bytes in the first n chains with room.  On success the
      chains from *last_with_datap up to position m have it, and room describes it. */
  method ExpandFast(buf: Evbuffer, datlen: nat, n: nat, malloc: Malloc)
      returns (r: int, ghost m: nat, ghost room: seq<nat>)
    requires buf.Valid() && n >= 2
    modifies buf, buf.Repr
    ensures buf.Valid() && fresh(buf.Repr - old(buf.Repr))
    ensures buf.Contents() == old(buf.Contents()) && buf.totalLen == old(buf.totalLen)
    ensures buf.nAdd == old(buf.nAdd) && buf.nDel == old(buf.nDel)
    ensures buf.freezeStart == old(buf.freezeStart) && buf.freezeEnd == old(buf.freezeEnd)
    ensures r == 0 || r == -1
    ensures r == 0 ==> buf.chains != [] && RoomIs(buf, room) && Fits(room, buf.k, m, n, datlen)
    ensures datlen <= MAX_REQUEST && NeverFails(malloc) ==> r == 0
    ensures buf.k == old(buf.k) <= |old(buf.parts)| && |old(buf.parts)| == |old(buf.chains)|
    ensures var was, kept := old(buf.parts), old(buf.parts)[..FirstEmpty(old(buf.parts), buf.k)];
      buf.parts == was || if r == -1 then buf.parts == kept else buf.parts == was + [[]] || buf.parts == kept + [[]]
    ensures |old(buf.chains)| - buf.k < n ==>
      && AtMostOneMore(buf, old(buf.chains), old(buf.parts), datlen)
      && forall c: Chain :: c in old(buf.chains) ==> c.SpaceLen() >= old(c.SpaceLen())
  {
    hide Evbuffer.Body, Flatten, Chain.Holds, ExactAt, Sum, CountPositive, RoomIs, Fits, FirstEmpty;
    m, room := 0, [];
    buf.Front();
    if buf.last == null {
      r, m, room := ExpandNone(buf, datlen, n, malloc);
      return;
    }
    buf.Inside();
    var avail, used;
    avail, used, m, room := FastWalk(buf, datlen, n);
    if avail >= datlen {
      FitsNow(room, buf.k, m, n, datlen);
      return 0, m, room;
    }
    if used < n {
      r, m, room := ExpandByOne(buf, avail, datlen, n, malloc, room);
      return;
    }
    SumHasFirst(room[buf.k..m]);
    CountAtMost(room[buf.k..m]);
    r, m, room := ExpandNuke(buf, datlen, n, malloc, room);
  }
}
