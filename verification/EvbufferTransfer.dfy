/** evbuffer_remove_buffer: move the first bytes of one buffer to the end of another. */
module EvbufferTransfer {
  import opened Bytes
  import opened CInts
  import opened EvbufferMove
  import opened EvbufferRead
  import opened EvbufferWrite
  import opened Evbuffers

  /** The chain in which byte number datlen lies. */
  ghost function StopIndex(parts: seq<bytes>, datlen: nat): (i: nat)
    requires datlen < |Flatten(parts)|
    ensures i < |parts| && |Flatten(parts[..i])| <= datlen < |Flatten(parts[..i])| + |parts[i]|
  {
    if datlen < |parts[0]| then
      NoBytes(parts);
      0
    else
      var i := StopIndex(parts[1..], datlen - |parts[0]|) + 1;
      StopShift(parts, i);
      i
  }

  lemma StopShift(parts: seq<bytes>, i: nat)
    requires 0 < i <= |parts|
    ensures Flatten(parts[..i]) == parts[0] + Flatten(parts[1..][..i - 1])
  {
    assert parts[..i][1..] == parts[1..][..i - 1];
  }

  /** The chain is the only one that byte can lie in. */
  lemma StopUnique(parts: seq<bytes>, datlen: nat, i: nat)
    requires datlen < |Flatten(parts)| && i < |parts|
    requires |Flatten(parts[..i])| <= datlen < |Flatten(parts[..i])| + |parts[i]|
    ensures i == StopIndex(parts, datlen)
  {
    var j := StopIndex(parts, datlen);
    if i < j {
      PrefixGrows(parts, i + 1, j);
      FlattenStep(parts, i);
    } else if j < i {
      PrefixGrows(parts, j + 1, i);
      FlattenStep(parts, j);
    }
  }

  lemma {:induction false} PrefixGrows(parts: seq<bytes>, i: nat, j: nat)
    requires i <= j <= |parts|
    ensures |Flatten(parts[..i])| <= |Flatten(parts[..j])|
    decreases j - i
  {
    if i < j {
      FlattenStep(parts, i);
      PrefixGrows(parts, i + 1, j);
    }
  }

  /** The loop of evbuffer_remove_buffer: walk past the chains that can move as a whole. */
  method RemoveWalk(src: Evbuffer, datlen: nat)
      returns (chain: Chain, previous: Chain?, left: nat, ghost i: nat)
    requires src.Valid() && datlen < src.totalLen
    modifies src`lwd
    ensures src.Body() && i <= src.k < |src.chains| == |src.parts| && chain == src.chains[i]
    ensures datlen < |Flatten(src.parts)| && i == StopIndex(src.parts, datlen)
    ensures |Flatten(src.parts[..i])| + left == datlen && left < |src.parts[i]|
    ensures src.lwd == if i == src.k then null else src.chains[src.k - 1]
    ensures previous == if i == 0 then src.first else src.chains[i - 1]
  {
    hide Evbuffer.Body, Flatten, Chain.Holds, ExactAt, StopIndex;
    src.Front();
    NoBytes(src.parts);
    chain, previous, left, i := src.first, src.first, datlen, 0;
    src.At(0);
    while chain.off <= left
      invariant src.Body() && i <= src.k < |src.chains| == |src.parts|
      invariant chain == src.chains[i] && chain.off == |src.parts[i]|
      invariant previous == if i == 0 then src.first else src.chains[i - 1]
      invariant |Flatten(src.parts[..i])| + left == datlen
      invariant src.lwd == if i == src.k then null else src.chains[src.k - 1]
      decreases |src.chains| - i
    {
      BeforeLastData(src.parts, src.k, i, left);
      FlattenStep(src.parts, i);
      src.At(i);
      src.At(i + 1);
      src.LinkAt(src.k);
      src.Distinct(i);
      assert chain != src.Deref(src.lwd);
      left := left - chain.off;
      previous := chain;
      if src.lwd == chain {
        src.lwd := null;
      }
      chain := chain.next;
      i := i + 1;
    }
    StopUnique(src.parts, datlen, i);
  }

  /** The chains before position i share nothing with those from i on. */
  lemma HeadApart(src: Evbuffer, i: nat)
    requires src.Body() && i <= |src.chains|
    ensures var s, t := Objects(src.chains[..i]), src.chains[i..];
      s <= src.Repr && (i > 0 ==> src.chains[i - 1] in s) && forall j {:trigger t[j]} :: 0 <= j < |t| ==>
        t[j] !in s && t[j].buffer !in s
  {
    var s, t := Objects(src.chains[..i]), src.chains[i..];
    forall j {:trigger t[j]} | 0 <= j < |t|
      ensures t[j] !in s && t[j].buffer !in s
    {
      src.Distinct(i + j);
    }
    src.Inside();
    if i > 0 {
      assert src.chains[..i][i - 1] == src.chains[i - 1];
    }
  }

  /** src->first = chain; previous->next = NULL */
  method CutFront(src: Evbuffer, chain: Chain, previous: Chain, ghost i: nat)
    requires src.Body() && src !in src.Repr && 0 < i < |src.chains| == |src.parts| && chain == src.chains[i]
    requires previous == src.chains[i - 1]
    modifies src`first, src`chains, src`parts, src`Repr, previous`next
    ensures src.Body() && src.Repr == old(src.Repr) - Objects(old(src.chains)[..i])
    ensures Objects(old(src.chains)[..i]) <= old(src.Repr)
    ensures src.chains == old(src.chains)[i..] && src.parts == old(src.parts)[i..]
    ensures src.first == chain && previous.next == null
  {
    hide Evbuffer.Body, Objects;
    HeadApart(src, i);
    ghost var head := src.chains[..i];
    DropChains(src, chain, i);
    src.Release(Objects(head));
    previous.next := null;
  }

  /** previous->next = NULL; src->first = chain: the chains before position i leave src.  A list of
      its own, without the cached pointers, stands for them until they are hung on dst. */
  method Detach(src: Evbuffer, chain: Chain, previous: Chain, ghost i: nat) returns (moved: Evbuffer)
    requires src.Body() && src !in src.Repr && 0 < i <= src.k < |src.chains| == |src.parts| && chain == src.chains[i]
    requires previous == src.chains[i - 1]
    modifies src`first, src`chains, src`parts, src`Repr, src`k, previous`next
    ensures fresh(moved) && moved.Body() && src.Body() && Apart(src, moved)
    ensures src.Repr + moved.Repr <= old(src.Repr)
    ensures moved.chains == old(src.chains)[..i] && moved.parts == old(src.parts)[..i]
    ensures src.chains == old(src.chains)[i..] && src.parts == old(src.parts)[i..] && src.k == old(src.k) - i
    ensures src.first == chain
  {
    hide Evbuffer.Body, Flatten, Objects;
    src.Distinct(i - 1);
    src.Inside();
    ghost var head, headParts := src.chains[..i], src.parts[..i];
    moved := new Evbuffer();
    label fork:
    moved.first := src.first;
    CutFront(src, chain, previous, i);
    moved.chains, moved.parts, moved.Repr := head, headParts, Objects(head);
    moved.Taken@fork(src, i);
    src.k := src.k - i;
  }

  lemma {:induction false} EmptyParts(parts: seq<bytes>)
    requires Flatten(parts) == []
    ensures AllEmpty(parts)
  {
    if parts != [] {
      EmptyParts(parts[1..]);
    }
  }

  lemma {:induction false} AdvanceIs(q: seq<bytes>, k: nat)
    requires k < |q|
    ensures var r := Advance(q, k);
      k <= r < |q| && Full(q, k + 1, r + 1) && (r + 1 < |q| ==> q[r + 1] == [])
    decreases |q| - k
  {
    if k + 1 < |q| && q[k + 1] != [] {
      AdvanceIs(q, k + 1);
    }
  }

  ghost predicate AllFull(parts: seq<bytes>) {
    Full(parts, 0, |parts|)
  }

  /** The moved parts from this one on lie behind the position of the destination: if it holds no
      data, its position is on the first of them. */
  ghost function From(parts: seq<bytes>): nat {
    if Flatten(parts) == [] then 1 else 0
  }

  /** The parts of the destination when pre was hung behind its data. */
  ghost function Extended(parts: seq<bytes>, k: nat, pre: seq<bytes>): seq<bytes>
    requires k <= |parts|
  {
    parts[..FirstEmpty(parts, k)] + pre
  }

  lemma ExtendedAt(parts: seq<bytes>, k: nat, pre: seq<bytes>)
    requires (k < |parts| || k == |parts| == 0) && ExactAt(parts, k)
    ensures var q := Extended(parts, k, pre);
      var n := k + 1 - From(parts);
      && 0 <= n <= |parts| && q == parts[..n] + pre && (k > 0 ==> q[k] != []) && (n == 0 ==> k == 0)
      && (n > 0 ==> n == k + 1 && q[k] != [])
    ensures Flatten(Extended(parts, k, pre)) == Flatten(parts) + Flatten(pre)
    ensures NoEmptyPart(parts) && AllFull(pre) ==> NoEmptyPart(Extended(parts, k, pre))
  {
    var j := FirstEmpty(parts, k);
    ExactTail(parts, k);
    FlattenDropEmpty(parts, j);
    FlattenConcat(parts[..j], pre);
    if Flatten(parts) != [] {
      DataAtPos(parts, k);
      assert FirstEmpty(parts, k) == FirstEmpty(parts, k + 1) == k + 1;
    } else {
      EmptyParts(parts);
    }
  }

  /** Where stepping over the chains that were hung on the destination leaves its position, and
      whether another chain can follow: what it depends on is whether empty chains came along. */
  lemma AdvancedOver(parts: seq<bytes>, k: nat, pre: seq<bytes>, room: nat)
    requires (k < |parts| || k == |parts| == 0) && ExactAt(parts, k) && Flatten(pre) != []
    ensures var q := Extended(parts, k, pre);
      var r := Advance(q, k);
      && r < |q| && pre != []
      && (ExactAt(q, r) <==> Gapless(pre, From(parts)))
      && (r + 1 == |q| <==> Full(pre, From(parts), |pre|))
      && (SpillOk(q, r, room) <==> if room == 0 then Gapless(pre, From(parts)) else Full(pre, From(parts), |pre| - 1))
  {
    hide Gapless, Full, ExactAt, Advance, FirstEmpty, Flatten, Extended;
    SomePart(pre);
    ExtendedAt(parts, k, pre);
    var q := Extended(parts, k, pre);
    AdvanceIs(q, k);
    var n := k + 1 - From(parts);
    Shifted(parts[..n], pre, From(parts), |pre|);
    Shifted(parts[..n], pre, From(parts), |pre| - 1);
    AdvancedGap(q, k);
    AdvancedFull(q, k);
  }

  lemma Shifted(a: seq<bytes>, b: seq<bytes>, i: nat, j: int)
    ensures Gapless(a + b, |a| + i) <==> Gapless(b, i)
    ensures Full(a + b, |a| + i, |a| + j) <==> Full(b, i, j)
  {
    var q := a + b;
    forall n | 0 <= n < |b|
      ensures q[|a| + n] == b[n]
    {}
  }

  /** Nothing but the data up to position r is behind position f. */
  lemma GaplessTo(q: seq<bytes>, f: nat, r: nat)
    requires f <= r + 1 && r < |q| && Full(q, f, r) && (r + 1 < |q| ==> q[r + 1] == []) && (r > 0 ==> q[r] != [])
    ensures Gapless(q, f) <==> ExactAt(q, r)
  {
    if Gapless(q, f) {
      forall i | r < i < |q|
        ensures q[i] == []
      {
        var next := q[r + 1];
      }
    }
  }

  /** The same statement with the position after and before stepping. */
  lemma AdvancedGap(q: seq<bytes>, k: nat)
    requires k < |q| && (k > 0 ==> q[k] != [])
    ensures var r := Advance(q, k);
      && r < |q| && (Gapless(q, k + 1) <==> Gapless(q, r)) && (Gapless(q, k + 1) <==> ExactAt(q, r))
      && (r + 1 == |q| <==> Full(q, k + 1, |q|))
  {
    hide Gapless, ExactAt, Advance;
    AdvanceIs(q, k);
    GaplessTo(q, k + 1, Advance(q, k));
    GaplessTo(q, Advance(q, k), Advance(q, k));
  }

  lemma AdvancedFull(q: seq<bytes>, k: nat)
    requires k < |q| && (k > 0 ==> q[k] != []) && Flatten(q) != []
    ensures var r := Advance(q, k); Full(q, r, |q| - 1) <==> Full(q, k + 1, |q| - 1)
  {
    AdvanceIs(q, k);
    if k == 0 && q[0] == [] && |q| == 2 {
      if q[1] == [] {
        FlattenAllEmpty(q);
      }
    }
  }

  method AttachList(dst: Evbuffer, moved: Evbuffer, previous: Chain)
    requires dst.Body() && dst.Pointed() && moved.Body() && Apart(dst, moved) && moved.chains != []
    requires AllEmpty(dst.parts[FirstEmpty(dst.parts, dst.k)..]) && previous == moved.chains[|moved.chains| - 1]
    modifies dst`first, dst`last, dst`chains, dst`parts, dst`Repr, dst.chains`next
    ensures dst.Body() && dst.Pointed() && dst.Repr == old(dst.Repr) + moved.Repr && dst.last == previous
    ensures |dst.parts| == |dst.chains| > 0 && |old(dst.parts)| == |old(dst.chains)|
    ensures dst.parts == old(dst.parts)[..FirstEmpty(old(dst.parts), old(dst.k))] + moved.parts
  {
    hide Evbuffer.Body, AllEmpty, FirstEmpty;
    dst.Front();
    dst.Inside();
    var chp := dst.FreeTrailing();
    HangList(dst, chp, moved);
    dst.last := previous;
    dst.Front();
  }

  /** Hang the detached chains, which end in previous, behind the data of dst. */
  method Attach(dst: Evbuffer, moved: Evbuffer, previous: Chain, nread: nat)
    requires dst.Valid() && moved.Body() && Apart(dst, moved) && moved.chains != [] && |moved.parts| == |moved.chains|
    requires previous == moved.chains[|moved.chains| - 1] && nread == |Flatten(moved.parts)|
    modifies dst, dst.chains`next
    ensures dst.Shape() && dst.Repr == old(dst.Repr) + moved.Repr && dst.last == previous
    ensures old(dst.k) <= |old(dst.parts)| && dst.parts == Extended(old(dst.parts), old(dst.k), moved.parts)
    ensures dst.k == Advance(dst.parts, old(dst.k))
    ensures dst.Contents() == old(dst.Contents()) + Flatten(moved.parts)
    ensures dst.nAdd == old(dst.nAdd) + nread && dst.nDel == old(dst.nDel)
    ensures dst.freezeStart == old(dst.freezeStart) && dst.freezeEnd == old(dst.freezeEnd)
  {
    hide Evbuffer.Body, Flatten, ExactAt, FirstEmpty, AllEmpty, Advance, NoEmptyPart, AllFull, From;
    dst.Front();
    dst.Inside();
    ExactTail(dst.parts, dst.k);
    ExtendedAt(dst.parts, dst.k, moved.parts);
    AttachList(dst, moved, previous);
    var n := dst.AdvanceLastWithData();
    dst.totalLen := dst.totalLen + nread;
    dst.nAdd := dst.nAdd + nread;
  }

  /** chain->misalign += n; chain->off -= n, for chain i */
  method TrimAt(buf: Evbuffer, chain: Chain, n: nat, ghost i: nat)
    requires buf.Body() && buf !in buf.Repr && i < |buf.chains| == |buf.parts| && chain == buf.chains[i]
    requires n <= |buf.parts[i]|
    modifies buf`parts, chain`misalign, chain`off
    ensures buf.Body() && |old(buf.parts)| == |buf.chains| && buf.parts == old(buf.parts)[i := old(buf.parts)[i][n..]]
  {
    hide Evbuffer.Body, Chain.Holds;
    buf.At(i);
    buf.Distinct(i);
    chain.TrimFront(n, buf.parts[i]);
    buf.parts := buf.parts[i := buf.parts[i][n..]];
    buf.Rewritten(i, buf.parts[i]);
  }

  /** The source loses track of its last chain with data when it skips empty chains to reach it. */
  ghost predicate SkipsToLast(parts: seq<bytes>, k: nat)
    requires k <= |parts|
  {
    k > 0 && AllEmpty(parts[..k])
  }

  /** The copy of the last, partial chain, and its removal from the source.  The source buffer does
      not look at what evbuffer_add returns. */
  method MovePiece(src: Evbuffer, dst: Evbuffer, chain: Chain, left: nat, malloc: Malloc, ghost i: nat)
      returns (r: int, aborted: bool)
    requires src.Body() && src !in src.Repr && dst.Shape() && Apart(src, dst) && !dst.freezeEnd
    requires i < |src.chains| == |src.parts| && chain == src.chains[i] && left <= |src.parts[i]|
    modifies src`parts, chain`misalign, chain`off, dst, dst.Repr
    ensures aborted <==> old(AddGranted(dst, left, malloc) && !AddSafe(dst, left))
    ensures dst.Shape() && fresh(dst.Repr - old(dst.Repr))
    ensures !aborted ==>
      && src.Body() && |old(src.parts)| == |src.chains| && src.parts == old(src.parts)[i := old(src.parts)[i][left..]]
    ensures unchanged(src`freezeStart, src`freezeEnd, src`nAdd, src`nDel, src`last, src`lwd, src`totalLen, src`chains,
         src`k, src`Repr)
    ensures dst.freezeStart == old(dst.freezeStart) && dst.freezeEnd == old(dst.freezeEnd) && dst.nDel == old(dst.nDel)
    ensures !aborted ==>
      var ok := left <= SIZE_MAX - old(dst.totalLen) && old(AddGranted(dst, left, malloc));
      && r == (if ok then 0 else -1)
      && dst.Contents() == old(dst.Contents()) + (if ok then old(src.parts)[i][..left] else [])
      && dst.nAdd == old(dst.nAdd) + (if ok then left else 0)
      && (dst.Valid() <==> if ok then old(AddKeepsExact(dst, left)) else old(dst.Valid()))
    ensures old(dst.Tidy()) ==> !aborted && dst.Tidy()
  {
    hide Evbuffer.Body, Chain.Holds, Flatten, ExactAt, NoEmptyPart, AddSafe, AddGranted, AddKeepsExact;
    src.At(i);
    src.Inside();
    var piece := chain.Read(0, left, src.parts[i]);
    r, aborted := Add(dst, piece, malloc);
    if aborted {
      return;
    }
    TrimAt(src, chain, left, i);
  }

  /** What src and dst are after moving datlen bytes: how the pieces fit together. */
  lemma PiecesFit(parts: seq<bytes>, datlen: nat, i: nat, left: nat)
    requires i < |parts| && left <= |parts[i]| && |Flatten(parts[..i])| + left == datlen
    ensures datlen <= |Flatten(parts)|
    ensures Flatten(parts)[..datlen] == Flatten(parts[..i]) + parts[i][..left]
    ensures Flatten(parts)[..datlen - left] == Flatten(parts[..i])
    ensures Flatten(parts)[datlen..] == Flatten(parts[i..][0 := parts[i][left..]])
    ensures Flatten(parts[..i]) == [] ==> Flatten(parts[i := parts[i][left..]]) == Flatten(parts)[datlen..]
  {
    FlattenDrop(parts, i, left);
    FlattenTakeDrop(parts, i);
    FlattenPiece(parts, i, 0, left);
    var all, a := Flatten(parts), |Flatten(parts[..i])|;
    SliceJoin(all, 0, a, datlen);
    TakeFirst(Flatten(parts[..i]), Flatten(parts[i..]));
    var q := parts[i := parts[i][left..]];
    FlattenTakeDrop(q, i);
    assert q[..i] == parts[..i] && q[i..] == parts[i..][0 := parts[i][left..]];
  }

  lemma TakeFirst(a: bytes, b: bytes)
    ensures (a + b)[0..|a|] == a
  {}

  /** No whole chain with data moves: the bytes all come from chain i, behind empty chains only. */
  method RemoveFromOne(src: Evbuffer, dst: Evbuffer, chain: Chain, datlen: nat, malloc: Malloc, ghost i: nat)
      returns (r: int, aborted: bool)
    requires src.Body() && src !in src.Repr && dst.Valid() && Apart(src, dst) && !dst.freezeEnd
    requires i <= src.k < |src.chains| == |src.parts| && chain == src.chains[i] && datlen < |src.parts[i]|
    requires AllEmpty(src.parts[..i]) && ExactAt(src.parts, src.k) && src.totalLen == |Flatten(src.parts)|
    requires src.last == src.chains[|src.chains| - 1] && src.lwd == (if i == src.k then null else src.chains[src.k - 1])
    modifies src, src.Repr, dst, dst.Repr
    ensures aborted <==> old(AddGranted(dst, datlen, malloc) && !AddSafe(dst, datlen))
    ensures fresh(dst.Repr - old(dst.Repr)) && src.Repr == old(src.Repr)
    ensures !aborted ==> src.Shape() && dst.Shape() && (src.Exact() <==> !SkipsToLast(old(src.parts), old(src.k)))
    ensures !aborted ==> datlen <= |old(src.Contents())| && src.Contents() == old(src.Contents())[datlen..]
    ensures !aborted ==> src.nDel == old(src.nDel) + datlen && src.nAdd == old(src.nAdd)
    ensures src.freezeStart == old(src.freezeStart) && src.freezeEnd == old(src.freezeEnd)
    ensures dst.freezeStart == old(dst.freezeStart) && dst.freezeEnd == old(dst.freezeEnd) && dst.nDel == old(dst.nDel)
    ensures !aborted ==>
      var ok := datlen <= SIZE_MAX - old(dst.totalLen) && old(AddGranted(dst, datlen, malloc));
      && r == (if ok then 0 else -1)
      && dst.Contents() == old(dst.Contents()) + (if ok then old(src.Contents())[..datlen] else [])
      && dst.nAdd == old(dst.nAdd) + (if ok then datlen else 0)
      && (dst.Valid() <==> !ok || old(AddKeepsExact(dst, datlen)))
    ensures old(dst.Tidy()) ==> !aborted && dst.Tidy()
    ensures !aborted && old(NoEmptyPart(src.parts)) ==> NoEmptyPart(src.parts)
  {
    hide Evbuffer.Body, Flatten, ExactAt, NoEmptyPart, AllEmpty, SkipsToLast, AddKeepsExact, AddSafe, AddGranted,
         Chain.Holds;
    FlattenAllEmpty(src.parts[..i]);
    PiecesFit(src.parts, datlen, i, datlen);
    TrimExact(src.parts, src.k, i, datlen);
    src.Inside();
    r, aborted := MovePiece(src, dst, chain, datlen, malloc, i);
    if aborted {
      return;
    }
    CountOut(src, datlen, if i == src.k then 0 else src.k);
  }

  /** datlen bytes fewer; the link to the last data is now that of position k. */
  method CountOut(src: Evbuffer, datlen: nat, ghost k: nat)
    requires src.Body() && src !in src.Repr && k < |src.chains| && datlen <= src.totalLen
    requires src.last == src.chains[|src.chains| - 1] && src.lwd == (if k == 0 then null else src.chains[k - 1])
    requires src.totalLen - datlen == |src.Contents()|
    modifies src`k, src`totalLen, src`nDel
    ensures src.Shape() && src.k == k && src.nDel == old(src.nDel) + datlen
  {
    hide Evbuffer.Body, Flatten;
    src.k := k;
    src.totalLen := src.totalLen - datlen;
    src.nDel := src.nDel + datlen;
  }

  lemma TrimExact(parts: seq<bytes>, k: nat, i: nat, n: nat)
    requires i <= k < |parts| && AllEmpty(parts[..i]) && ExactAt(parts, k) && n < |parts[i]|
    ensures ExactAt(parts[i := parts[i][n..]], if i == k then 0 else k) <==> !SkipsToLast(parts, k)
    ensures NoEmptyPart(parts) ==> NoEmptyPart(parts[i := parts[i][n..]])
  {
    var q := parts[i := parts[i][n..]];
    if i < k {
      assert parts[..k][i] != [];
    } else if k > 0 {
      assert q[k] != [];
    }
  }

  /** The first i chains move to dst. */
  method MoveWhole(src: Evbuffer, dst: Evbuffer, chain: Chain, previous: Chain, nread: nat, ghost i: nat)
    requires src.Body() && src !in src.Repr && dst.Valid() && Apart(src, dst)
    requires 0 < i <= src.k < |src.chains| == |src.parts| && chain == src.chains[i] && previous == src.chains[i - 1]
    requires |Flatten(src.parts[..i])| == nread
    modifies src`first, src`chains, src`parts, src`Repr, src`k, previous`next, dst, dst.chains`next
    ensures src.Body() && Apart(src, dst) && src.Repr + dst.Repr <= old(src.Repr + dst.Repr)
    ensures src.chains == old(src.chains)[i..] && src.parts == old(src.parts)[i..] && src.k == old(src.k) - i
    ensures src.first == chain
    ensures unchanged(src`freezeStart, src`freezeEnd, src`nAdd, src`nDel, src`last, src`lwd, src`totalLen)
    ensures dst.Shape() && dst.last == previous
    ensures old(dst.k) <= |old(dst.parts)| && dst.parts == Extended(old(dst.parts), old(dst.k), old(src.parts)[..i])
    ensures dst.k == Advance(dst.parts, old(dst.k))
    ensures dst.Contents() == old(dst.Contents()) + Flatten(old(src.parts)[..i])
    ensures dst.nAdd == old(dst.nAdd) + nread && dst.nDel == old(dst.nDel)
    ensures dst.freezeStart == old(dst.freezeStart) && dst.freezeEnd == old(dst.freezeEnd)
  {
    hide Evbuffer.Body, Flatten, ExactAt, Extended, Advance;
    src.Inside();
    dst.Inside();
    var moved := Detach(src, chain, previous, i);
    moved.Front();
    Attach(dst, moved, previous, nread);
  }

  /** The counters of src, and the position that goes with them. */
  method Settle(src: Evbuffer, datlen: nat)
    requires src.Body() && src.Pointed() && src !in src.Repr && datlen <= src.totalLen
    requires src.totalLen - datlen == |Flatten(src.parts)|
    modifies src`totalLen, src`nDel
    ensures src.Shape() && src.nDel == old(src.nDel) + datlen
  {
    hide Evbuffer.Body, Flatten;
    src.totalLen := src.totalLen - datlen;
    src.nDel := src.nDel + datlen;
  }

  lemma DroppedPointers(cs: seq<Chain>, i: nat, k: nat)
    requires 0 < i <= k < |cs|
    ensures var d := cs[i..]; d[|d| - 1] == cs[|cs| - 1] && (i < k ==> d[k - i - 1] == cs[k - 1])
  {}

  // ----- the copy behind chains that moved as a whole

  /** Inserting another chain behind pre, whose last chain is last, trips no assertion. */
  ghost predicate TailSafe(dst: Evbuffer, pre: seq<bytes>, last: Chain, left: nat)
    reads dst`parts, dst`totalLen, last`misalign, last`off
  {
    || left > SIZE_MAX - (dst.totalLen + |Flatten(pre)|) || HasRoom(last, left)
    || if last.SpaceLen() == 0 then Gapless(pre, From(dst.parts)) else Full(pre, From(dst.parts), |pre| - 1)
  }

  predicate TailGranted(last: Chain, left: nat, malloc: Malloc)
    reads last`misalign, last`off
  {
    HasRoom(last, left) || Granted(malloc, NextSize(last, left))
  }

  /** The copy takes place. */
  ghost predicate TailCopied(dst: Evbuffer, pre: seq<bytes>, last: Chain, left: nat, malloc: Malloc)
    reads dst`totalLen, last`misalign, last`off
  {
    left <= SIZE_MAX - (dst.totalLen + |Flatten(pre)|) && TailGranted(last, left, malloc)
  }

  /** The position of dst is exact after the move: no data lies behind an empty chain that came
      along, unless a new chain was inserted, whose link the position then is. */
  ghost predicate TailExact(dst: Evbuffer, pre: seq<bytes>, last: Chain, left: nat, malloc: Malloc)
    reads dst`parts, dst`totalLen, last`misalign, last`off
  {
    if left == 0 || !TailCopied(dst, pre, last, left, malloc) then Gapless(pre, From(dst.parts))
    else !HasRoom(last, left) || Full(pre, From(dst.parts), |pre|)
  }

  /** What these say of the buffer in between, when the whole chains have moved. */
  lemma BetweenMoves(dst: Evbuffer, parts: seq<bytes>, k: nat, pre: seq<bytes>, last: Chain, left: nat, malloc: Malloc)
    requires dst.Shape() && !dst.freezeEnd && dst.last == last
    requires (k < |parts| || k == |parts| == 0) && ExactAt(parts, k) && Flatten(pre) != []
    requires dst.parts == Extended(parts, k, pre) && dst.k == Advance(dst.parts, k)
    ensures dst.Exact() <==> Gapless(pre, From(parts))
    ensures AddGranted(dst, left, malloc) <==> TailGranted(last, left, malloc)
    ensures AddSafe(dst, left) <==>
      || left > SIZE_MAX - dst.totalLen || HasRoom(last, left)
      || if last.SpaceLen() == 0 then Gapless(pre, From(parts)) else Full(pre, From(parts), |pre| - 1)
    ensures AddKeepsExact(dst, left) <==>
      !HasRoom(last, left) || if left == 0 then Gapless(pre, From(parts)) else Full(pre, From(parts), |pre|)
    ensures NoEmptyPart(parts) && AllFull(pre) ==> dst.Tidy()
  {
    hide Evbuffer.Body, Flatten, SpillOk, ExactAt, NoEmptyPart, Advance, Extended, From;
    dst.Front();
    dst.At(|dst.chains| - 1);
    ExtendedAt(parts, k, pre);
    AdvancedOver(parts, k, pre, dst.last.SpaceLen());
  }

  /** MoveWhole, with what it means for the copy that follows. */
  method MoveBefore(src: Evbuffer, dst: Evbuffer, chain: Chain, previous: Chain, nread: nat, ghost left: nat,
          ghost malloc: Malloc,
                    ghost i: nat)
    requires src.Body() && src !in src.Repr && dst.Valid() && Apart(src, dst) && !dst.freezeEnd
    requires 0 < i <= src.k < |src.chains| == |src.parts| && chain == src.chains[i] && previous == src.chains[i - 1]
    requires |Flatten(src.parts[..i])| == nread > 0
    modifies src`first, src`chains, src`parts, src`Repr, src`k, previous`next, dst, dst.chains`next
    ensures src.Body() && Apart(src, dst) && src.Repr + dst.Repr <= old(src.Repr + dst.Repr)
    ensures src.chains == old(src.chains)[i..] && src.parts == old(src.parts)[i..] && src.k == old(src.k) - i
    ensures src.first == chain
    ensures unchanged(src`freezeStart, src`freezeEnd, src`nAdd, src`nDel, src`last, src`lwd, src`totalLen)
    ensures dst.Shape() && dst.totalLen == old(dst.totalLen) + nread
    ensures dst.Contents() == old(dst.Contents()) + Flatten(old(src.parts)[..i])
    ensures dst.nAdd == old(dst.nAdd) + nread && dst.nDel == old(dst.nDel)
    ensures dst.freezeStart == old(dst.freezeStart) && dst.freezeEnd == old(dst.freezeEnd)
    ensures AddGranted(dst, left, malloc) <==> old(TailGranted(previous, left, malloc))
    ensures AddSafe(dst, left) <==> old(TailSafe(dst, src.parts[..i], previous, left))
    ensures (if left <= SIZE_MAX - dst.totalLen && AddGranted(dst, left, malloc) then AddKeepsExact(dst, left)
      else dst.Valid())
      <==> old(TailExact(dst, src.parts[..i], previous, left, malloc))
    ensures old(dst.Tidy() && AllFull(src.parts[..i])) ==> dst.Tidy()
  {
    hide Evbuffer.Body, Flatten, ExactAt, NoEmptyPart, AllFull, AddSafe, AddGranted, AddKeepsExact, Extended, Advance,
         From;
    ghost var dstParts, dstK, pre := dst.parts, dst.k, src.parts[..i];
    dst.Front();
    dst.TotalIs();
    src.At(i - 1);
    MoveWhole(src, dst, chain, previous, nread, i);
    BetweenMoves(dst, dstParts, dstK, pre, previous, left, malloc);
    dst.TotalIs();
  }

  /** The copy from what is now the first chain of the source, and the counters of the source. */
  method CopyRest(src: Evbuffer, dst: Evbuffer, chain: Chain, left: nat, datlen: nat, malloc: Malloc)
      returns (r: int, aborted: bool)
    requires src.Body() && src.Pointed() && src !in src.Repr && dst.Shape() && Apart(src, dst) && !dst.freezeEnd
    requires 0 < |src.chains| == |src.parts| && chain == src.chains[0] && left <= |src.parts[0]|
    requires datlen <= src.totalLen && src.totalLen - datlen == |Flatten(src.parts[0 := src.parts[0][left..]])|
    modifies src, src.Repr, dst, dst.Repr
    ensures aborted <==> old(AddGranted(dst, left, malloc) && !AddSafe(dst, left))
    ensures dst.Shape() && fresh(dst.Repr - old(dst.Repr)) && src.Repr == old(src.Repr)
    ensures !aborted ==>
      && src.Shape() && |old(src.parts)| > 0 && src.parts == old(src.parts)[0 := old(src.parts)[0][left..]] &&
        src.k == old(src.k)
      && src.nDel == old(src.nDel) + datlen && src.nAdd == old(src.nAdd)
    ensures src.freezeStart == old(src.freezeStart) && src.freezeEnd == old(src.freezeEnd)
    ensures dst.freezeStart == old(dst.freezeStart) && dst.freezeEnd == old(dst.freezeEnd) && dst.nDel == old(dst.nDel)
    ensures !aborted ==>
      var ok := left <= SIZE_MAX - old(dst.totalLen) && old(AddGranted(dst, left, malloc));
      && r == (if ok then 0 else -1)
      && dst.Contents() == old(dst.Contents()) + (if ok then old(src.parts)[0][..left] else [])
      && dst.nAdd == old(dst.nAdd) + (if ok then left else 0)
      && (dst.Valid() <==> if ok then old(AddKeepsExact(dst, left)) else old(dst.Valid()))
    ensures old(dst.Tidy()) ==> !aborted && dst.Tidy()
  {
    hide Evbuffer.Body, Flatten, ExactAt, NoEmptyPart, AddSafe, AddGranted, AddKeepsExact;
    src.Inside();
    r, aborted := MovePiece(src, dst, chain, left, malloc, 0);
    if aborted {
      return;
    }
    Settle(src, datlen);
  }

  /** The first i chains move as a whole, and left bytes of the next are copied. */
  method RemoveWhole(src: Evbuffer, dst: Evbuffer, chain: Chain, previous: Chain, left: nat, datlen: nat,
          malloc: Malloc,
                     ghost i: nat) returns (r: int, aborted: bool)
    requires src.Body() && src !in src.Repr && dst.Valid() && Apart(src, dst) && !dst.freezeEnd
    requires 0 < i <= src.k < |src.chains| == |src.parts| && chain == src.chains[i] && previous == src.chains[i - 1]
    requires |Flatten(src.parts[..i])| + left == datlen > left && left < |src.parts[i]|
    requires ExactAt(src.parts, src.k) && src.totalLen == |Flatten(src.parts)|
    requires src.last == src.chains[|src.chains| - 1] && src.lwd == (if i == src.k then null else src.chains[src.k - 1])
    modifies src, src.Repr, dst, dst.Repr
    ensures aborted <==> old(TailGranted(previous, left, malloc) && !TailSafe(dst, src.parts[..i], previous, left))
    ensures !aborted ==>
      && src.Valid() && dst.Shape() && Apart(src, dst) && fresh(src.Repr + dst.Repr - old(src.Repr) - old(dst.Repr))
    ensures !aborted ==> datlen <= |old(src.Contents())| && src.Contents() == old(src.Contents())[datlen..]
    ensures !aborted ==> src.nDel == old(src.nDel) + datlen && src.nAdd == old(src.nAdd)
    ensures src.freezeStart == old(src.freezeStart) && src.freezeEnd == old(src.freezeEnd)
    ensures dst.freezeStart == old(dst.freezeStart) && dst.freezeEnd == old(dst.freezeEnd) && dst.nDel == old(dst.nDel)
    ensures !aborted ==>
      var ok := old(TailCopied(dst, src.parts[..i], previous, left, malloc));
      && r == (if ok then 0 else -1)
      && dst.Contents() == old(dst.Contents()) + old(src.Contents())[..if ok then datlen else datlen - left]
      && dst.nAdd == old(dst.nAdd) + (if ok then datlen else datlen - left)
      && (dst.Valid() <==> old(TailExact(dst, src.parts[..i], previous, left, malloc)))
    ensures old(dst.Tidy() && AllFull(src.parts[..i])) ==> !aborted && dst.Tidy()
    ensures !aborted && old(NoEmptyPart(src.parts)) ==> NoEmptyPart(src.parts)
  {
    hide Evbuffer.Body, Flatten, ExactAt, NoEmptyPart, AllFull, AddSafe, AddGranted, AddKeepsExact, TailSafe,
         TailGranted,
         TailExact;
    ghost var parts, k := src.parts, src.k;
    dst.Inside();
    src.At(i - 1);
    PiecesFit(parts, datlen, i, left);
    ExactDrop(parts, k, i, left);
    DroppedPointers(src.chains, i, k);
    Assoc(dst.Contents(), Flatten(parts[..i]), parts[i][..left]);
    MoveBefore(src, dst, chain, previous, datlen - left, left, malloc, i);
    src.Inside();
    r, aborted := CopyRest(src, dst, chain, left, datlen, malloc);
  }

  // ----- evbuffer_remove_buffer

  /** The parts of the chains that move as a whole. */
  ghost function Whole(src: Evbuffer, datlen: nat): seq<bytes>
    requires src.Shape() && datlen < src.totalLen
    reads src, src.Repr
  {
    src.parts[..StopIndex(src.parts, datlen)]
  }

  /** The last of these chains. */
  ghost function WholeLast(src: Evbuffer, datlen: nat): (c: Chain)
    requires src.Shape() && datlen < src.totalLen && Flatten(Whole(src, datlen)) != []
    reads src, src.Repr
    ensures c in src.Repr && c.buffer.Length <= MAX_REQUEST
  {
    src.Front();
    NoBytes(src.parts);
    src.At(StopIndex(src.parts, datlen) - 1);
    src.chains[StopIndex(src.parts, datlen) - 1]
  }

  /** What is copied of the next chain. */
  ghost function Piece(src: Evbuffer, datlen: nat): nat
    requires src.Shape() && datlen < src.totalLen
    reads src, src.Repr
  {
    datlen - |Flatten(Whole(src, datlen))|
  }

  /** The copy gets the memory it needs. */
  ghost predicate CopyGranted(src: Evbuffer, dst: Evbuffer, datlen: nat, malloc: Malloc)
    requires src.Shape() && dst.Shape() && datlen < src.totalLen
    reads src, src.Repr, dst, dst.Repr
  {
    if Flatten(Whole(src, datlen)) == [] then AddGranted(dst, datlen, malloc)
    else TailGranted(WholeLast(src, datlen), Piece(src, datlen), malloc)
  }

  /** The copy trips no assertion. */
  ghost predicate CopySafe(src: Evbuffer, dst: Evbuffer, datlen: nat)
    requires src.Shape() && dst.Shape() && datlen < src.totalLen
    reads src, src.Repr, dst, dst.Repr
  {
    if Flatten(Whole(src, datlen)) == [] then AddSafe(dst, datlen)
    else TailSafe(dst, Whole(src, datlen), WholeLast(src, datlen), Piece(src, datlen))
  }

  /** The number of bytes that reach dst: without those of the copy if that fails. */
  ghost function Reaching(src: Evbuffer, dst: Evbuffer, datlen: nat, malloc: Malloc): nat
    requires src.Shape() && dst.Shape() && datlen < src.totalLen
    reads src, src.Repr, dst, dst.Repr
  {
    if CopyGranted(src, dst, datlen, malloc) && datlen <= SIZE_MAX - dst.totalLen then datlen
    else |Flatten(Whole(src, datlen))|
  }

  /** The position of dst is exact after the move. */
  ghost predicate DstStaysExact(src: Evbuffer, dst: Evbuffer, datlen: nat, malloc: Malloc)
    requires src.Shape() && dst.Shape() && datlen < src.totalLen
    reads src, src.Repr, dst, dst.Repr
  {
    if Flatten(Whole(src, datlen)) == [] then
      Reaching(src, dst, datlen, malloc) < datlen || AddKeepsExact(dst, datlen)
    else TailExact(dst, Whole(src, datlen), WholeLast(src, datlen), Piece(src, datlen), malloc)
  }

  /** The position of src is exact after the move. */
  ghost predicate SrcStaysExact(src: Evbuffer, datlen: nat)
    requires src.Shape() && datlen < src.totalLen
    reads src, src.Repr
  {
    src.Front();
    Flatten(Whole(src, datlen)) != [] || !SkipsToLast(src.parts, src.k)
  }

  /** Without empty chains beside others, nothing is skipped. */
  lemma TidyStop(parts: seq<bytes>, k: nat, datlen: nat)
    requires k < |parts| && datlen < |Flatten(parts)|
    ensures NoEmptyPart(parts) ==> AllFull(parts[..StopIndex(parts, datlen)]) && !SkipsToLast(parts, k)
  {
    if NoEmptyPart(parts) {
      var i := StopIndex(parts, datlen);
      if |parts| == 1 {
        NoBytes(parts);
      } else {
        assert k > 0 ==> parts[..k][0] != [];
        assert AllFull(parts[..i]);
      }
    }
  }

  /** evbuffer_remove_buffer on part of the source: moved is the number of bytes that reach dst. */
  method RemoveSome(src: Evbuffer, dst: Evbuffer, datlen: nat, malloc: Malloc) returns (moved: nat, aborted: bool)
    requires src.Valid() && dst.Valid() && Apart(src, dst) && !dst.freezeEnd && 0 < datlen < src.totalLen
    modifies src, src.Repr, dst, dst.Repr
    ensures aborted <==> old(CopyGranted(src, dst, datlen, malloc) && !CopySafe(src, dst, datlen))
    ensures !aborted ==>
      && src.Shape() && dst.Shape() && Apart(src, dst) && fresh(src.Repr + dst.Repr - old(src.Repr) - old(dst.Repr))
      && (src.Valid() <==> old(SrcStaysExact(src, datlen)))
      && (dst.Valid() <==> old(DstStaysExact(src, dst, datlen, malloc)))
    ensures !aborted ==>
      && moved == old(Reaching(src, dst, datlen, malloc)) <= datlen <= |old(src.Contents())|
      && src.Contents() == old(src.Contents())[datlen..]
      && dst.Contents() == old(dst.Contents()) + old(src.Contents())[..moved]
      && dst.nAdd == old(dst.nAdd) + moved && dst.nDel == old(dst.nDel)
      && src.nDel == old(src.nDel) + datlen && src.nAdd == old(src.nAdd)
    ensures src.freezeStart == old(src.freezeStart) && src.freezeEnd == old(src.freezeEnd)
    ensures dst.freezeStart == old(dst.freezeStart) && dst.freezeEnd == old(dst.freezeEnd)
    ensures old(src.Tidy() && dst.Tidy()) ==> !aborted && src.Tidy() && dst.Tidy()
  {
    hide Evbuffer.Body, Flatten, ExactAt, AllFull, AllEmpty, SkipsToLast, StopIndex, NoEmptyPart, AddSafe, AddGranted,
         AddKeepsExact, TailSafe, TailGranted, TailExact;
    src.Inside();
    src.Front();
    ghost var parts := src.parts;
    SomePart(parts);
    NoBytes(parts);
    TidyStop(parts, src.k, datlen);
    var chain, previous, left;
    ghost var i;
    chain, previous, left, i := RemoveWalk(src, datlen);
    PiecesFit(parts, datlen, i, left);
    var r;
    if datlen - left > 0 {
      r, aborted := RemoveWhole(src, dst, chain, previous, left, datlen, malloc, i);
    } else {
      EmptyParts(parts[..i]);
      r, aborted := RemoveFromOne(src, dst, chain, datlen, malloc, i);
    }
    moved := if r == 0 then datlen else datlen - left;
  }

  /** Between tidy buffers no move goes wrong. */
  lemma TidyTransfer(src: Evbuffer, dst: Evbuffer, datlen: nat, malloc: Malloc)
    requires src.Tidy() && dst.Tidy() && 0 < datlen < src.totalLen
    ensures CopySafe(src, dst, datlen) && SrcStaysExact(src, datlen) && DstStaysExact(src, dst, datlen, malloc)
  {
    src.Front();
    SomePart(src.parts);
    TidyStop(src.parts, src.k, datlen);
    TidyAdd(dst, datlen);
  }

  /** When only whole chains move, nothing can fail; the position of dst is exact just when no data
      comes behind an empty chain. */
  lemma OnlyWhole(src: Evbuffer, dst: Evbuffer, datlen: nat, malloc: Malloc)
    requires src.Shape() && dst.Shape() && 0 < datlen < src.totalLen && Piece(src, datlen) == 0
    ensures Whole(src, datlen) != [] && CopySafe(src, dst, datlen) && CopyGranted(src, dst, datlen, malloc)
    ensures Reaching(src, dst, datlen, malloc) == datlen && SrcStaysExact(src, datlen)
    ensures DstStaysExact(src, dst, datlen, malloc) <==> Gapless(Whole(src, datlen), From(dst.parts))
  {
    hide Evbuffer.Body, Gapless, Full, Flatten;
    src.Front();
    NothingIn(Whole(src, datlen));
    SomePart(Whole(src, datlen));
    src.At(StopIndex(src.parts, datlen) - 1);
    assert WholeLast(src, datlen).SpaceLen() >= 0;
  }

  lemma NothingIn(parts: seq<bytes>)
    ensures |Flatten(parts)| > 0 ==> Flatten(parts) != [] && |parts| > 0
  {}

  /** With memory and room for the length, everything reaches dst. */
  lemma ReachingAll(src: Evbuffer, dst: Evbuffer, datlen: nat, malloc: Malloc)
    requires src.Shape() && dst.Shape() && 0 < datlen < src.totalLen && NeverFails(malloc)
    requires datlen <= SIZE_MAX - dst.totalLen && datlen <= MAX_REQUEST
    ensures Reaching(src, dst, datlen, malloc) == datlen
  {
    GrantedAlways(dst, datlen, malloc);
    if Flatten(Whole(src, datlen)) != [] {
      assert WholeLast(src, datlen).buffer.Length <= MAX_REQUEST;
    }
  }

  /** evbuffer_remove_buffer; moved is the number of bytes that reach dst.  It falls short of what
      leaves src only when dst cannot allocate a chain or would overflow.  The program aborts just
      when the copy needs a new chain, gets it and must not insert it. */
  method RemoveBuffer(src: Evbuffer, dst: Evbuffer, datlen: nat, malloc: Malloc)
      returns (r: int, moved: nat, aborted: bool)
    requires src.Valid() && dst.Valid() && (src == dst || Apart(src, dst))
    modifies src, src.Repr, dst, dst.Repr
    ensures aborted <==>
      && src != dst && !old(dst.freezeEnd || src.freezeStart) && 0 < datlen < old(src.totalLen)
      && old(CopyGranted(src, dst, datlen, malloc) && !CopySafe(src, dst, datlen))
    ensures !aborted ==> src.Shape() && dst.Shape() && (src == dst || Apart(src, dst))
    ensures !aborted ==> fresh(src.Repr + dst.Repr - old(src.Repr) - old(dst.Repr))
    ensures src.freezeStart == old(src.freezeStart) && src.freezeEnd == old(src.freezeEnd)
    ensures dst.freezeStart == old(dst.freezeStart) && dst.freezeEnd == old(dst.freezeEnd)
    ensures !aborted ==>
      var noop := datlen == 0 || src == dst;
      var failed := !noop && old(dst.freezeEnd || src.freezeStart);
      var n := Min(datlen, old(src.totalLen));
      && r == (if failed then -1 else if noop then 0 else AsInt(n))
      && (failed || noop ==>
            && src.Contents() == old(src.Contents()) && dst.Contents() == old(dst.Contents()) && moved == 0
            && src.nDel == old(src.nDel) && dst.nAdd == old(dst.nAdd) && src.Valid() && dst.Valid())
      && (!failed && !noop ==>
            && moved <= n <= |old(src.Contents())|
            && src.Contents() == old(src.Contents())[n..]
            && dst.Contents() == old(dst.Contents()) + old(src.Contents())[..moved]
            && src.nDel == old(src.nDel) + n && dst.nAdd == old(dst.nAdd) + moved
            && src.nAdd == old(src.nAdd) && dst.nDel == old(dst.nDel))
      && (!failed && !noop && datlen >= old(src.totalLen) ==> moved == n && src.Valid() && dst.Valid())
      && (!failed && !noop && datlen < old(src.totalLen) ==>
            && moved == old(Reaching(src, dst, datlen, malloc))
            && (src.Valid() <==> old(SrcStaysExact(src, datlen)))
            && (dst.Valid() <==> old(DstStaysExact(src, dst, datlen, malloc))))
    ensures old(src.Tidy() && dst.Tidy()) ==> !aborted && src.Tidy() && dst.Tidy()
  {
    hide Evbuffer.Body, Flatten, ExactAt, CopySafe, CopyGranted, Reaching, SrcStaysExact, DstStaysExact, NoEmptyPart;
    moved, aborted := 0, false;
    if datlen == 0 || src == dst {
      return 0, 0, false;
    }
    if dst.freezeEnd || src.freezeStart {
      return -1, 0, false;
    }
    src.Front();
    if datlen >= src.totalLen {
      var n := src.totalLen;
      DropAll(src.Contents());
      var ok := AddBuffer(dst, src);
      return AsInt(n), n, false;
    }
    moved, aborted := RemoveSome(src, dst, datlen, malloc);
    r := AsInt(datlen);
  }

  lemma DropAll(s: bytes)
    ensures s[|s|..] == [] && s[..|s|] == s
  {}
}
