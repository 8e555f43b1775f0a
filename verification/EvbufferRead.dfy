/** Reading and removing from the front: evbuffer_drain, evbuffer_copyout_from, evbuffer_remove. */
module EvbufferRead {
  import opened Bytes
  import opened CInts
  import opened Evbuffers

  /** The position after i chains and n bytes of the next have gone from the front. */
  lemma ExactDrop(parts: seq<bytes>, k: nat, i: nat, n: nat)
    requires k < |parts| && ExactAt(parts, k) && i <= k && n <= |parts[i]|
    requires i < k || n < |parts[i]|
    ensures var q := parts[i..][0 := parts[i][n..]]; ExactAt(q, k - i)
    ensures NoEmptyPart(parts) && n < |parts[i]| ==> NoEmptyPart(parts[i..][0 := parts[i][n..]])
  {}

  lemma ExactTotal(parts: seq<bytes>, k: nat)
    requires k < |parts| && ExactAt(parts, k)
    ensures Flatten(parts) == Flatten(parts[..k]) + parts[k]
  {
    FlattenDropEmpty(parts, k + 1);
    FlattenStep(parts, k);
  }

  /** Fewer than all bytes are gone after i whole chains: the chain with the last data is still there. */
  lemma BeforeLastData(parts: seq<bytes>, k: nat, i: nat, remaining: nat)
    requires k < |parts| && ExactAt(parts, k) && i <= k
    requires |Flatten(parts[..i])| + remaining < |Flatten(parts)| && remaining >= |parts[i]|
    ensures i < k
  {
    ExactTotal(parts, k);
  }

  /** The loop of evbuffer_drain: walk past the chains that go away as a whole. */
  method DrainWalk(buf: Evbuffer, len: nat) returns (chain: Chain, remaining: nat, ghost i: nat)
    requires buf.Valid() && len < buf.totalLen
    modifies buf`lwd
    ensures buf.Body() && i <= buf.k < |buf.chains| == |buf.parts| && chain == buf.chains[i]
    ensures |Flatten(buf.parts[..i])| + remaining == len && remaining < |buf.parts[i]|
    ensures buf.lwd == if i == buf.k then null else buf.chains[buf.k - 1]
  {
    hide Evbuffer.Body, Flatten, Chain.Holds, ExactAt;
    buf.Front();
    NoBytes(buf.parts);
    chain, remaining, i := buf.first, len, 0;
    buf.At(0);
    while remaining >= chain.off
      invariant buf.Body() && i <= buf.k < |buf.chains| == |buf.parts|
      invariant chain == buf.chains[i] && chain.off == |buf.parts[i]|
      invariant |Flatten(buf.parts[..i])| + remaining == len
      invariant buf.lwd == if i == buf.k then null else buf.chains[buf.k - 1]
      decreases |buf.chains| - i
    {
      BeforeLastData(buf.parts, buf.k, i, remaining);
      FlattenStep(buf.parts, i);
      buf.At(i);
      buf.At(i + 1);
      buf.LinkAt(buf.k);
      buf.Distinct(i);
      var next := chain.next;
      remaining := remaining - chain.off;
      // the source also resets the link when it frees the chain it points at; that never happens here
      assert chain != buf.Deref(buf.lwd);
      if chain == buf.lwd {
        buf.lwd := null;
      }
      chain := next;
      i := i + 1;
    }
  }

  /** buf->first = chain, and n bytes of that chain's data go too. */
  method DropFront(buf: Evbuffer, chain: Chain, n: nat, ghost i: nat)
    requires buf.Body() && buf !in buf.Repr && i < |buf.chains| == |buf.parts| && chain == buf.chains[i]
    requires n <= |buf.parts[i]|
    modifies buf`first, buf`chains, buf`parts, chain`misalign, chain`off
    ensures buf.Body()
    ensures buf.chains == old(buf.chains)[i..] && buf.parts == old(buf.parts)[i..][0 := old(buf.parts)[i][n..]]
  {
    hide Evbuffer.Body, Chain.Holds;
    DropChains(buf, chain, i);
    buf.At(0);
    buf.Distinct(0);
    TrimFirst(buf, n);
  }

  method DropChains(buf: Evbuffer, chain: Chain?, ghost i: nat)
    requires buf.Body() && buf !in buf.Repr && i <= |buf.chains| == |buf.parts| && chain == buf.Next(i)
    modifies buf`first, buf`chains, buf`parts
    ensures buf.Body() && buf.chains == old(buf.chains)[i..] && buf.parts == old(buf.parts)[i..] && buf.first == chain
  {
    hide Evbuffer.Body, Chain.Holds;
    buf.first := chain;
    buf.chains := buf.chains[i..];
    buf.parts := buf.parts[i..];
    buf.Dropped(i);
  }

  method TrimFirst(buf: Evbuffer, n: nat)
    requires buf.Body() && buf !in buf.Repr && buf.first != null && buf.chains != [] && |buf.parts| > 0
    requires n <= |buf.parts[0]|
    modifies buf`parts, buf.first`misalign, buf.first`off
    ensures buf.Body() && |old(buf.parts)| > 0 && buf.parts == old(buf.parts)[0 := old(buf.parts)[0][n..]]
  {
    hide Evbuffer.Body, Chain.Holds;
    buf.Front();
    buf.At(0);
    buf.Distinct(0);
    buf.first.TrimFront(n, buf.parts[0]);
    buf.parts := buf.parts[0 := buf.parts[0][n..]];
    buf.Rewritten(0, buf.parts[0]);
  }

  /** The branch of evbuffer_drain that leaves data behind. */
  method DrainSome(buf: Evbuffer, len: nat)
    requires buf.Valid() && len < buf.totalLen
    modifies buf, buf.Repr
    ensures buf.Valid() && buf.Repr == old(buf.Repr)
    ensures buf.freezeStart == old(buf.freezeStart) && buf.freezeEnd == old(buf.freezeEnd)
    ensures buf.nAdd == old(buf.nAdd) && buf.nDel == old(buf.nDel)
    ensures len <= |old(buf.Contents())| && buf.Contents() == old(buf.Contents())[len..]
    ensures old(NoEmptyPart(buf.parts)) ==> NoEmptyPart(buf.parts)
  {
    hide Evbuffer.Body, Flatten, Chain.Holds, ExactAt, NoEmptyPart;
    ghost var i;
    var chain, remaining;
    chain, remaining, i := DrainWalk(buf, len);
    buf.At(i);
    ExactDrop(buf.parts, buf.k, i, remaining);
    FlattenDrop(buf.parts, i, remaining);
    buf.totalLen := buf.totalLen - len;
    DropFront(buf, chain, remaining, i);
    buf.k := buf.k - i;
  }

  /** ZERO_CHAIN, after every chain was freed. */
  method ZeroChain(buf: Evbuffer)
    requires buf !in buf.Repr
    modifies buf`first, buf`last, buf`lwd, buf`totalLen, buf`chains, buf`parts, buf`k
    ensures buf.Valid() && buf.Contents() == [] && buf.chains == [] && buf.parts == [] && buf.k == 0
  {
    buf.first, buf.last, buf.lwd, buf.totalLen := null, null, null, 0;
    buf.chains, buf.parts, buf.k := [], [], 0;
  }

  /** evbuffer_drain */
  method Drain(buf: Evbuffer, len: nat) returns (r: int)
    requires buf.Valid()
    modifies buf, buf.Repr
    ensures buf.Valid() && buf.Repr == old(buf.Repr)
    ensures buf.freezeStart == old(buf.freezeStart) && buf.freezeEnd == old(buf.freezeEnd) && buf.nAdd == old(buf.nAdd)
    ensures r == if old(buf.totalLen) > 0 && old(buf.freezeStart) then -1 else 0
    ensures r == -1 ==> buf.Contents() == old(buf.Contents()) && buf.nDel == old(buf.nDel)
    ensures r == 0 ==>
      var n := Min(len, old(buf.totalLen));
      n <= |old(buf.Contents())| && buf.Contents() == old(buf.Contents())[n..] && buf.nDel == old(buf.nDel) + n
    ensures old(buf.Tidy()) ==> buf.Tidy()
  {
    hide Evbuffer.Body, Flatten, ExactAt, NoEmptyPart;
    if buf.totalLen == 0 {
      return 0;
    }
    if buf.freezeStart {
      return -1;
    }
    var n := len;
    if n >= buf.totalLen {
      n := buf.totalLen;
      ZeroChain(buf);
      NoPartsTidy();
    } else {
      DrainSome(buf, n);
    }
    buf.nDel := buf.nDel + n;
    return 0;
  }

  lemma NoPartsTidy()
    ensures NoEmptyPart([])
  {}

  /** Chain j is where the copy stands, at offset pos, after done bytes of all[at..]. */
  ghost predicate CopyAt(parts: seq<bytes>, j: nat, pos: nat, at: nat, done: nat)
  {
    && j <= |parts| && (if j < |parts| then pos <= |parts[j]| else pos == 0)
    && |Flatten(parts[..j])| + pos == at + done
  }

  lemma CopyMeans(parts: seq<bytes>, j: nat, pos: nat, at: nat, done: nat)
    requires CopyAt(parts, j, pos, at, done)
    ensures |Flatten(parts[..j])| + pos == at + done
    ensures j == |parts| ==> at + done == |Flatten(parts)|
  {
    AllParts(parts);
  }

  lemma CopyNotDone(parts: seq<bytes>, j: nat, pos: nat, at: nat, done: nat)
    requires CopyAt(parts, j, pos, at, done) && at + done < |Flatten(parts)|
    ensures j < |parts|
  {
    AllParts(parts);
  }

  lemma CopyStep(parts: seq<bytes>, j: nat, pos: nat, at: nat, done: nat, to: nat)
    requires CopyAt(parts, j, pos, at, done) && j < |parts| && pos <= to <= |parts[j]|
    ensures at + done + (to - pos) <= |Flatten(parts)|
    ensures Flatten(parts)[at..at + done] + parts[j][pos..to] == Flatten(parts)[at..at + done + (to - pos)]
    ensures to == |parts[j]| ==> CopyAt(parts, j + 1, 0, at, done + (to - pos))
  {
    FlattenPiece(parts, j, pos, to);
    FlattenStep(parts, j);
    SliceJoin(Flatten(parts), at, at + done, at + done + (to - pos));
  }

  /** Copy bytes pos .. to of chain j. */
  method CopyPiece(buf: Evbuffer, chain: Chain, pos: nat, to: nat, data: bytes, ghost j: nat, ghost at: nat)
      returns (out: bytes)
    requires buf.Body() && j < |buf.chains| == |buf.parts| && chain == buf.chains[j] && pos <= to <= |buf.parts[j]|
    requires CopyAt(buf.parts, j, pos, at, |data|) && at + |data| <= |Flatten(buf.parts)|
    requires data == Flatten(buf.parts)[at..at + |data|]
    ensures |out| == |data| + (to - pos) && at + |out| <= |Flatten(buf.parts)|
    ensures out == Flatten(buf.parts)[at..at + |out|]
    ensures to == |buf.parts[j]| ==> CopyAt(buf.parts, j + 1, 0, at, |out|)
  {
    hide Evbuffer.Body, Flatten, Chain.Holds, CopyAt;
    buf.At(j);
    var piece := chain.Read(pos, to, buf.parts[j]);
    CopyStep(buf.parts, j, pos, at, |data|, to);
    out := data + piece;
  }

  /** The loop of evbuffer_copyout_from, entered in chain i at offset within. */
  method CopyWalk(buf: Evbuffer, start: Chain?, within: nat, datlen: nat, ghost i: nat) returns (data: bytes)
    requires buf.Body() && i <= |buf.chains| == |buf.parts| && start == buf.Next(i)
    requires if i < |buf.parts| then within <= |buf.parts[i]| else within == 0
    requires |Flatten(buf.parts[..i])| + within + datlen <= |Flatten(buf.parts)|
    ensures var at := |Flatten(buf.parts[..i])| + within; data == Flatten(buf.parts)[at..at + datlen]
  {
    hide Evbuffer.Body, Flatten, Chain.Holds, CopyAt;
    var chain := start;
    var pos: nat, left: nat := within, datlen;
    ghost var j := i;
    ghost var all := Flatten(buf.parts);
    ghost var at := |Flatten(buf.parts[..i])| + within;
    data := [];
    CopyStart(buf.parts, i, within);
    if left > 0 {
      CopyNotDone(buf.parts, j, pos, at, 0);
      buf.At(j);
    }
    while left > 0 && left >= chain.off - pos
      invariant |data| + left == datlen && at + datlen <= |all|
      invariant CopyAt(buf.parts, j, pos, at, |data|)
      invariant left > 0 ==> j < |buf.chains| && chain == buf.chains[j] && pos <= chain.off == |buf.parts[j]|
      invariant data == all[at..at + |data|]
      decreases |buf.chains| - j
    {
      buf.At(j);
      data := CopyPiece(buf, chain, pos, chain.off, data, j, at);
      left := left - (chain.off - pos);
      chain := chain.next;
      pos := 0;
      j := j + 1;
      if left > 0 {
        CopyNotDone(buf.parts, j, pos, at, |data|);
        buf.At(j);
      }
    }
    if left > 0 {
      data := CopyPiece(buf, chain, pos, pos + left, data, j, at);
    }
  }

  lemma CopyStart(parts: seq<bytes>, i: nat, within: nat)
    requires i <= |parts| && (if i < |parts| then within <= |parts[i]| else within == 0)
    ensures CopyAt(parts, i, within, |Flatten(parts[..i])| + within, 0)
  {}

  /** How far copyout reads when asked for datlen bytes from a position. */
  ghost function CopyLen(total: nat, start: int, datlen: nat): nat
    requires 0 <= start <= total
  {
    Min(datlen, total - start)
  }

  /** evbuffer_copyout: n is the number of bytes read into data, or -1. */
  method Copyout(buf: Evbuffer, datlen: nat) returns (n: int, data: bytes)
    requires buf.Valid()
    ensures n == if Min(datlen, buf.totalLen) > 0 && buf.freezeStart then -1 else Min(datlen, buf.totalLen)
    ensures data == buf.Contents()[..if n == -1 then 0 else n]
  {
    hide Evbuffer.Body, Flatten, ExactAt;
    var len := Min(datlen, buf.totalLen);
    if len == 0 {
      return 0, [];
    }
    if buf.freezeStart {
      return -1, [];
    }
    buf.Front();
    NoBytes(buf.parts);
    data := CopyWalk(buf, buf.first, 0, len, 0);
    n := len;
  }

  /** evbuffer_copyout_from a set position. */
  method CopyoutFrom(buf: Evbuffer, p: EvPtr, datlen: nat) returns (n: int, data: bytes)
    requires buf.Valid() && |buf.parts| == |buf.chains| && buf.PtrValid(p)
    ensures 0 <= p.pos <= |buf.Contents()|
    ensures n ==
      if datlen > SSIZE_MAX - p.pos then -1
      else if CopyLen(|buf.Contents()|, p.pos, datlen) > 0 && buf.freezeStart then -1
      else CopyLen(|buf.Contents()|, p.pos, datlen)
    ensures data == if n == -1 then [] else buf.Contents()[p.pos..p.pos + n]
  {
    hide Evbuffer.Body, Flatten, ExactAt;
    ghost var i := PtrChain(buf, p);
    if datlen > SSIZE_MAX - p.pos {
      return -1, [];
    }
    var len := datlen;
    if datlen + p.pos > buf.totalLen {
      len := buf.totalLen - p.pos;
    }
    if len == 0 {
      return 0, [];
    }
    if buf.freezeStart {
      return -1, [];
    }
    data := CopyWalk(buf, p.chain, p.posInChain, len, i);
    n := len;
  }

  /** The chain a position lies in, as an index; the number of chains for the end. */
  lemma PtrChain(buf: Evbuffer, p: EvPtr) returns (i: nat)
    requires buf.Body() && buf.PtrValid(p)
    ensures i <= |buf.chains| == |buf.parts| && p.chain == buf.Next(i)
    ensures if i < |buf.parts| then p.posInChain <= |buf.parts[i]| else p.posInChain == 0
    ensures p.pos == |Flatten(buf.parts[..i])| + p.posInChain && p.pos <= |Flatten(buf.parts)|
  {
    hide Evbuffer.Body, Flatten;
    buf.Front();
    if p.chain == null {
      i := |buf.chains|;
      AllParts(buf.parts);
    } else {
      i :| buf.PtrAt(p, i);
      FlattenPiece(buf.parts, i, 0, p.posInChain);
    }
  }

  /** evbuffer_remove */
  method Remove(buf: Evbuffer, datlen: nat) returns (r: int, data: bytes)
    requires buf.Valid()
    modifies buf, buf.Repr
    ensures buf.Valid() && buf.Repr == old(buf.Repr)
    ensures buf.freezeStart == old(buf.freezeStart) && buf.freezeEnd == old(buf.freezeEnd) && buf.nAdd == old(buf.nAdd)
    ensures var n := Min(datlen, old(buf.totalLen));
      if n > 0 && old(buf.freezeStart) then
        r == -1 && data == [] && buf.Contents() == old(buf.Contents()) && buf.nDel == old(buf.nDel)
      else
        r == AsInt(n) && data + buf.Contents() == old(buf.Contents()) && |data| == n && buf.nDel == old(buf.nDel) + n
    ensures old(buf.Tidy()) ==> buf.Tidy()
  {
    hide Evbuffer.Body, Flatten, ExactAt, NoEmptyPart;
    var n;
    n, data := Copyout(buf, datlen);
    if n > 0 {
      Rejoin(buf.Contents(), n);
      var ok := Drain(buf, n);
      if ok < 0 {
        n := -1;
      }
    }
    r := AsInt(n);
  }
}
