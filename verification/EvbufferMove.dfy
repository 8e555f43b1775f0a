/** Moving bytes between two buffers: evbuffer_add_buffer, evbuffer_prepend_buffer. */
module EvbufferMove {
  import opened Bytes
  import opened EvbufferRead
  import opened Evbuffers

  /** No memory is shared between two buffers. */
  ghost predicate Apart(a: Evbuffer, b: Evbuffer)
    reads a`Repr, b`Repr
  {
    a != b && a.Repr !! b.Repr && a !in a.Repr + b.Repr && b !in a.Repr + b.Repr
  }

  lemma JoinExact(a: seq<bytes>, b: seq<bytes>, kb: nat)
    requires kb < |b| && ExactAt(b, kb) && b[kb] != []
    ensures ExactAt(a + b, |a| + kb)
    ensures NoEmptyPart(a) && NoEmptyPart(b) && Flatten(a) != [] ==> NoEmptyPart(a + b)
  {
    if NoEmptyPart(a) && NoEmptyPart(b) && Flatten(a) != [] && |a| == 1 {
      FlattenSingle(a[0]);
      assert a == [a[0]];
    }
  }

  lemma DataAtPos(parts: seq<bytes>, k: nat)
    requires k < |parts| && ExactAt(parts, k) && Flatten(parts) != []
    ensures parts[k] != []
  {
    if k == 0 && parts[0] == [] {
      FlattenAllEmpty(parts);
    }
  }

  /** RESTORE_PINNED without pinned chains, and the ghost hand-over of everything src owned. */
  method Emptied(src: Evbuffer)
    requires src !in src.Repr
    modifies src`first, src`last, src`lwd, src`totalLen, src`chains, src`parts, src`k, src`Repr
    ensures src.Valid() && src.Contents() == [] && src.chains == [] && src.parts == [] && src.Repr == {}
  {
    src.first, src.last, src.lwd, src.totalLen := null, null, null, 0;
    src.chains, src.parts, src.k, src.Repr := [], [], 0, {};
  }

  /** COPY_CHAIN, then RESTORE_PINNED */
  method CopyChain(dst: Evbuffer, src: Evbuffer)
    requires src.Valid() && Apart(dst, src)
    modifies dst`first, dst`last, dst`lwd, dst`totalLen, dst`chains, dst`parts, dst`k, dst`Repr
    modifies src`first, src`last, src`lwd, src`totalLen, src`chains, src`parts, src`k, src`Repr
    ensures dst.Valid() && src.Valid() && Apart(dst, src) && src.Repr == {}
    ensures dst.Repr == old(dst.Repr) + old(src.Repr)
    ensures dst.parts == old(src.parts) && dst.chains == old(src.chains) && src.parts == [] && src.Contents() == []
  {
    hide Evbuffer.Body, Flatten, ExactAt;
    dst.first := src.first;
    dst.lwd := src.lwd;
    dst.last := src.last;
    dst.totalLen := src.totalLen;
    dst.chains, dst.parts, dst.k, dst.Repr := src.chains, src.parts, src.k, dst.Repr + src.Repr;
    dst.SameList(src);
    Emptied(src);
  }

  /** *link = src->first, at the end of the list of dst. */
  method HangList(dst: Evbuffer, link: Chain?, src: Evbuffer)
    requires dst.Body() && src.Body() && Apart(dst, src) && link == dst.Link(|dst.chains|)
    modifies dst`first, dst`chains, dst`parts, dst`Repr, dst.chains`next
    ensures dst.Body() && dst.Repr == old(dst.Repr) + src.Repr
    ensures |old(dst.parts)| == |old(dst.chains)|
    ensures dst.parts == old(dst.parts) + src.parts && dst.chains == old(dst.chains) + src.chains
  {
    hide Evbuffer.Body, Flatten;
    dst.Front();
    src.Front();
    if |dst.chains| > 0 {
      dst.Distinct(|dst.chains| - 1);
    }
    dst.Inside();
    src.Inside();
    if link == null {
      dst.first := src.first;
    } else {
      link.next := src.first;
    }
    dst.chains, dst.parts, dst.Repr := dst.chains + src.chains, dst.parts + src.parts, dst.Repr + src.Repr;
    dst.Joined(dst, src);
  }

  /** Where *last_with_datap and last are after src was linked behind dst. */
  lemma JoinedPointers(a: seq<Chain>, b: seq<Chain>, kb: nat)
    requires a != [] && kb < |b|
    ensures var c := a + b; var k := |a| + kb;
      c[|c| - 1] == b[|b| - 1] && c[k - 1] == if kb == 0 then a[|a| - 1] else b[kb - 1]
  {}

  /** APPEND_CHAIN, then RESTORE_PINNED */
  method AppendChain(dst: Evbuffer, src: Evbuffer)
    requires dst.Valid() && src.Valid() && Apart(dst, src) && dst.last != null && src.Contents() != []
    modifies dst`last, dst`lwd, dst`totalLen, dst`chains, dst`parts, dst`k, dst`Repr, dst`first, dst.chains`next
    modifies src`first, src`last, src`lwd, src`totalLen, src`chains, src`parts, src`k, src`Repr
    ensures dst.Valid() && src.Valid() && Apart(dst, src) && src.Repr == {}
    ensures dst.Repr == old(dst.Repr) + old(src.Repr)
    ensures dst.parts == old(dst.parts) + old(src.parts) && src.parts == [] && src.Contents() == []
    ensures old(dst.Contents()) != [] && old(NoEmptyPart(dst.parts)) && old(NoEmptyPart(src.parts)) ==>
      NoEmptyPart(dst.parts)
  {
    hide Evbuffer.Body, Flatten, ExactAt, NoEmptyPart;
    dst.Front();
    src.Front();
    SomePart(src.parts);
    DataAtPos(src.parts, src.k);
    JoinExact(dst.parts, src.parts, src.k);
    FlattenConcat(dst.parts, src.parts);
    JoinedPointers(dst.chains, src.chains, src.k);
    var dstLast := dst.last;
    HangList(dst, dst.last, src);
    if src.lwd == null {
      dst.lwd := dstLast;
    } else {
      dst.lwd := src.lwd;
    }
    dst.last := src.last;
    dst.totalLen := dst.totalLen + src.totalLen;
    dst.k := |old(dst.chains)| + src.k;
    Emptied(src);
  }

  /** src->last->next = dst->first; dst->first = src->first */
  method LinkBefore(dst: Evbuffer, src: Evbuffer)
    requires dst.Shape() && src.Shape() && Apart(dst, src) && src.last != null
    modifies dst`first, dst`chains, dst`parts, dst`Repr, src.last`next
    ensures dst.Body() && dst.Repr == old(dst.Repr) + src.Repr
    ensures dst.parts == src.parts + old(dst.parts) && dst.chains == src.chains + old(dst.chains)
  {
    hide Evbuffer.Body, Flatten;
    dst.Front();
    src.Front();
    src.Distinct(|src.chains| - 1);
    dst.Inside();
    src.Inside();
    src.last.next := dst.first;
    dst.first := src.first;
    dst.chains, dst.parts, dst.Repr := src.chains + dst.chains, src.parts + dst.parts, src.Repr + dst.Repr;
    dst.Joined(src, dst);
  }

  /** PREPEND_CHAIN, then RESTORE_PINNED.  Its case of a destination without chains does not arise:
      the caller only gets here when the destination holds data. */
  method PrependChain(dst: Evbuffer, src: Evbuffer)
    requires dst.Valid() && src.Valid() && Apart(dst, src) && src.Contents() != [] && dst.Contents() != []
    modifies dst`first, dst`lwd, dst`totalLen, dst`chains, dst`parts, dst`k, dst`Repr,
             if src.last != null then {src.last} else {}
    modifies src`first, src`last, src`lwd, src`totalLen, src`chains, src`parts, src`k, src`Repr
    ensures dst.Valid() && src.Valid() && Apart(dst, src) && src.Repr == {}
    ensures dst.Repr == old(dst.Repr) + old(src.Repr)
    ensures dst.parts == old(src.parts) + old(dst.parts) && src.parts == [] && src.Contents() == []
    ensures old(NoEmptyPart(dst.parts)) && old(NoEmptyPart(src.parts)) ==> NoEmptyPart(dst.parts)
  {
    hide Evbuffer.Body, Flatten, ExactAt, NoEmptyPart;
    dst.Front();
    src.Front();
    SomePart(src.parts);
    SomePart(dst.parts);
    DataAtPos(dst.parts, dst.k);
    JoinExact(src.parts, dst.parts, dst.k);
    FlattenConcat(src.parts, dst.parts);
    JoinedPointers(src.chains, dst.chains, dst.k);
    LinkBefore(dst, src);
    dst.totalLen := dst.totalLen + src.totalLen;
    if dst.lwd == null {
      dst.lwd := src.last;
    }
    dst.k := |src.chains| + dst.k;
    Emptied(src);
  }

  /** evbuffer_add_buffer */
  method AddBuffer(outbuf: Evbuffer, inbuf: Evbuffer) returns (r: int)
    requires outbuf.Valid() && inbuf.Valid() && (outbuf == inbuf || Apart(outbuf, inbuf))
    modifies outbuf, inbuf, outbuf.Repr, inbuf.Repr
    ensures outbuf.Valid() && inbuf.Valid() && (outbuf == inbuf || Apart(outbuf, inbuf))
    ensures outbuf.Repr + inbuf.Repr <= old(outbuf.Repr + inbuf.Repr)
    ensures outbuf.freezeStart == old(outbuf.freezeStart) && outbuf.freezeEnd == old(outbuf.freezeEnd)
    ensures inbuf.freezeStart == old(inbuf.freezeStart) && inbuf.freezeEnd == old(inbuf.freezeEnd)
    ensures var noop := old(inbuf.totalLen == 0 || outbuf == inbuf);
      r == if !noop && old(outbuf.freezeEnd || inbuf.freezeStart) then -1 else 0
    ensures r == -1 || old(inbuf.totalLen == 0 || outbuf == inbuf) ==>
      && outbuf.Contents() == old(outbuf.Contents()) && inbuf.Contents() == old(inbuf.Contents())
      && outbuf.nAdd == old(outbuf.nAdd) && outbuf.nDel == old(outbuf.nDel) && inbuf.nAdd == old(inbuf.nAdd) &&
        inbuf.nDel == old(inbuf.nDel)
    ensures r == 0 && outbuf != inbuf ==>
      && outbuf.Contents() == old(outbuf.Contents()) + old(inbuf.Contents()) && inbuf.Contents() == []
      && outbuf.nAdd == old(outbuf.nAdd) + old(inbuf.totalLen) && outbuf.nDel == old(outbuf.nDel)
      && inbuf.nDel == old(inbuf.nDel) + old(inbuf.totalLen) && inbuf.nAdd == old(inbuf.nAdd)
    ensures old(outbuf.Tidy() && inbuf.Tidy()) ==> outbuf.Tidy() && inbuf.Tidy()
  {
    hide Evbuffer.Body, Flatten, ExactAt, NoEmptyPart;
    var inTotal, outTotal := inbuf.totalLen, outbuf.totalLen;
    if inTotal == 0 || outbuf == inbuf {
      return 0;
    }
    if outbuf.freezeEnd || inbuf.freezeStart {
      return -1;
    }
    NoPartsTidy();
    FlattenConcat(outbuf.parts, inbuf.parts);
    if outTotal == 0 {
      CopyChain(outbuf, inbuf);
    } else {
      SomePart(outbuf.parts);
      outbuf.Front();
      outbuf.Inside();
      AppendChain(outbuf, inbuf);
    }
    inbuf.nDel := inbuf.nDel + inTotal;
    outbuf.nAdd := outbuf.nAdd + inTotal;
    return 0;
  }

  /** evbuffer_prepend_buffer */
  method PrependBuffer(outbuf: Evbuffer, inbuf: Evbuffer) returns (r: int)
    requires outbuf.Valid() && inbuf.Valid() && (outbuf == inbuf || Apart(outbuf, inbuf))
    modifies outbuf, inbuf, outbuf.Repr, inbuf.Repr
    ensures outbuf.Valid() && inbuf.Valid() && (outbuf == inbuf || Apart(outbuf, inbuf))
    ensures outbuf.Repr + inbuf.Repr <= old(outbuf.Repr + inbuf.Repr)
    ensures outbuf.freezeStart == old(outbuf.freezeStart) && outbuf.freezeEnd == old(outbuf.freezeEnd)
    ensures inbuf.freezeStart == old(inbuf.freezeStart) && inbuf.freezeEnd == old(inbuf.freezeEnd)
    ensures var noop := old(inbuf.totalLen == 0 || outbuf == inbuf);
      r == if !noop && old(outbuf.freezeStart || inbuf.freezeStart) then -1 else 0
    ensures r == -1 || old(inbuf.totalLen == 0 || outbuf == inbuf) ==>
      && outbuf.Contents() == old(outbuf.Contents()) && inbuf.Contents() == old(inbuf.Contents())
      && outbuf.nAdd == old(outbuf.nAdd) && outbuf.nDel == old(outbuf.nDel) && inbuf.nAdd == old(inbuf.nAdd) &&
        inbuf.nDel == old(inbuf.nDel)
    ensures r == 0 && outbuf != inbuf ==>
      && outbuf.Contents() == old(inbuf.Contents()) + old(outbuf.Contents()) && inbuf.Contents() == []
      && outbuf.nAdd == old(outbuf.nAdd) + old(inbuf.totalLen) && outbuf.nDel == old(outbuf.nDel)
      && inbuf.nDel == old(inbuf.nDel) + old(inbuf.totalLen) && inbuf.nAdd == old(inbuf.nAdd)
    ensures old(outbuf.Tidy() && inbuf.Tidy()) ==> outbuf.Tidy() && inbuf.Tidy()
  {
    hide Evbuffer.Body, Flatten, ExactAt, NoEmptyPart;
    var inTotal, outTotal := inbuf.totalLen, outbuf.totalLen;
    if inTotal == 0 || outbuf == inbuf {
      return 0;
    }
    if outbuf.freezeStart || inbuf.freezeStart {
      return -1;
    }
    NoPartsTidy();
    FlattenConcat(inbuf.parts, outbuf.parts);
    if outTotal == 0 {
      CopyChain(outbuf, inbuf);
    } else {
      inbuf.Inside();
      PrependChain(outbuf, inbuf);
    }
    inbuf.nDel := inbuf.nDel + inTotal;
    outbuf.nAdd := outbuf.nAdd + inTotal;
    return 0;
  }
}
