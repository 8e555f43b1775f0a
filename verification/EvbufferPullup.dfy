/** evbuffer_pullup: make the first bytes of the buffer contiguous. */
module EvbufferPullup {
  import opened Bytes
  import opened EvbufferRead
  import opened Evbuffers

  /** The parts left after dropping i parts and n bytes of the next. */
  ghost function TailParts(parts: seq<bytes>, i: nat, n: nat): seq<bytes>
    requires i <= |parts| && (if i < |parts| then n <= |parts[i]| else n == 0)
  {
    if i < |parts| then parts[i..][0 := parts[i][n..]] else []
  }

  /** The chains i .. of a list whose first bytes were pulled into one chain holding d, n bytes of chain i included. */
  ghost function Pulled(parts: seq<bytes>, i: nat, n: nat, d: bytes): seq<bytes>
    requires i <= |parts| && (if i < |parts| then n <= |parts[i]| else n == 0)
  {
    [d] + TailParts(parts, i, n)
  }

  /** The position after a pullup. */
  ghost function PulledPos(parts: seq<bytes>, k: nat, i: nat): nat {
    if k < i then 0 else k - i + 1
  }

  lemma PulledFlat(parts: seq<bytes>, i: nat, n: nat, d: bytes)
    requires i <= |parts| && (if i < |parts| then n <= |parts[i]| else n == 0)
    requires |Flatten(parts[..i])| + n <= |Flatten(parts)|
    requires d == Flatten(parts)[..|Flatten(parts[..i])| + n]
    ensures Flatten(Pulled(parts, i, n, d)) == Flatten(parts)
  {
    var all, m := Flatten(parts), |Flatten(parts[..i])| + n;
    Rejoin(all, m);
    if i < |parts| {
      FlattenDrop(parts, i, n);
      FlattenCons(d, parts[i..][0 := parts[i][n..]]);
    } else {
      AllParts(parts);
      FlattenSingle(d);
      assert all[m..] == [];
    }
  }

  lemma PulledExact(parts: seq<bytes>, k: nat, i: nat, n: nat, d: bytes)
    requires k < |parts| && ExactAt(parts, k)
    requires i <= |parts| && (if i < |parts| then n < |parts[i]| else n == 0)
    ensures var q := Pulled(parts, i, n, d); PulledPos(parts, k, i) < |q| && ExactAt(q, PulledPos(parts, k, i))
    ensures NoEmptyPart(parts) && d != [] ==> NoEmptyPart(Pulled(parts, i, n, d))
  {
    if i < |parts| {
      assert i <= k;
    }
  }

  /** The copy loop: collect what follows the first s chains until n bytes are there.  It stops at
      chain i, of which left bytes are needed, and notes whether it passed the chain with the last
      data, and the owner of the link to it. */
  method PullWalk(buf: Evbuffer, start: Chain?, need: nat, ghost s: nat)
      returns (chain: Chain?, left: nat, data: bytes, passedLwd: bool, passedOwner: bool, ghost i: nat)
    requires buf.Valid() && s <= 1 && s <= |buf.chains| == |buf.parts| && start == buf.Next(s)
    requires |Flatten(buf.parts[..s])| + need <= |Flatten(buf.parts)|
    ensures s <= i <= |buf.chains| && chain == buf.Next(i) && left <= need
    ensures if i < |buf.parts| then left < |buf.parts[i]| else left == 0
    ensures |Flatten(buf.parts[..i])| + left == |Flatten(buf.parts[..s])| + need <= |Flatten(buf.parts)|
    ensures var at := |Flatten(buf.parts[..s])|; data == Flatten(buf.parts)[at..at + need]
    ensures passedLwd == (s <= buf.k < i)
    ensures passedOwner == (s < buf.k <= i)
  {
    hide Evbuffer.Body, Flatten, Chain.Holds, CopyAt, ExactAt;
    chain, left, data := start, need, [];
    passedLwd, passedOwner, i := false, false, s;
    ghost var all := Flatten(buf.parts);
    ghost var at := |Flatten(buf.parts[..s])|;
    CopyStart(buf.parts, s, 0);
    var lastWithData := buf.Deref(buf.lwd);
    buf.LinkAt(buf.k);
    while chain != null && left >= chain.off
      invariant s <= i <= |buf.chains| && chain == buf.Next(i)
      invariant |data| + left == need && CopyAt(buf.parts, i, 0, at, |data|)
      invariant data == all[at..at + |data|]
      invariant passedLwd == (s <= buf.k < i)
      invariant passedOwner == (s < buf.k <= i)
      decreases |buf.chains| - i
    {
      buf.At(i);
      buf.Distinct(i);
      data := CopyPiece(buf, chain, 0, chain.off, data, i, at);
      left := left - chain.off;
      if chain == lastWithData {
        passedLwd := true;
      }
      if chain == buf.lwd {
        passedOwner := true;
      }
      chain := chain.next;
      i := i + 1;
    }
    CopyMeans(buf.parts, i, 0, at, |data|);
    if chain != null {
      buf.At(i);
      data := CopyPiece(buf, chain, 0, left, data, i, at);
    }
  }

  /** Drop the chains before position i, and left bytes of chain i. */
  method DropTo(buf: Evbuffer, chain: Chain?, left: nat, ghost i: nat)
    requires buf.Body() && buf !in buf.Repr && i <= |buf.chains| == |buf.parts| && chain == buf.Next(i)
    requires if i < |buf.parts| then left <= |buf.parts[i]| else left == 0
    modifies buf`first, buf`chains, buf`parts, (if chain != null then {chain} else {})`misalign,
             (if chain != null then {chain} else {})`off
    ensures buf.Body() && buf.chains == old(buf.chains)[i..] && |old(buf.parts)| == |old(buf.chains)|
    ensures buf.parts == TailParts(old(buf.parts), i, left)
  {
    hide Evbuffer.Body;
    if chain != null {
      DropFront(buf, chain, left, i);
    } else {
      DropChains(buf, null, i);
    }
  }

  /** Re-hang the list behind tmp, which holds d: the chains before position i are gone. */
  method PullRelink(buf: Evbuffer, tmp: Chain, chain: Chain?, left: nat, ghost d: bytes, ghost i: nat)
    requires buf.Body() && buf.Pointed() && buf !in buf.Repr && i <= |buf.chains| == |buf.parts| && chain == buf.Next(i)
    requires if i < |buf.parts| then left < |buf.parts[i]| else left == 0
    requires if tmp in buf.Repr then i > 0 && tmp == buf.chains[0] else tmp.buffer !in buf.Repr
    requires 0 < tmp.buffer.Length <= MAX_REQUEST && tmp.Holds(d)
    modifies buf`first, buf`last, buf`Repr, buf`chains, buf`parts, tmp`next
    modifies (if chain != null then {chain} else {})`misalign, (if chain != null then {chain} else {})`off
    ensures buf.Body() && buf !in buf.Repr
    ensures buf.Repr == old(buf.Repr) + {tmp, tmp.buffer}
    ensures buf.chains == [tmp] + old(buf.chains)[i..] && buf.parts == Pulled(old(buf.parts), i, left, d)
    ensures buf.last == buf.chains[|buf.chains| - 1]
  {
    hide Evbuffer.Body, Chain.Holds;
    ghost var repr := buf.Repr;
    if i < |buf.chains| { buf.At(i); }
    ApartFromTail(buf, tmp, i);
    DropTo(buf, chain, left, i);
    buf.Release({tmp, tmp.buffer});
    buf.HangFront(tmp, d);
    if chain == null {
      buf.last := tmp;
    }
  }

  /** tmp and its memory are not among the chains from i on. */
  lemma ApartFromTail(buf: Evbuffer, tmp: Chain, i: nat)
    requires buf.Body() && i <= |buf.chains|
    requires if tmp in buf.Repr then i > 0 && tmp == buf.chains[0] else tmp.buffer !in buf.Repr
    ensures var t := buf.chains[i..];
      forall j {:trigger t[j]} :: 0 <= j < |t| ==> t[j] != tmp && t[j].buffer != tmp.buffer
  {}

  /** The link owner after a pullup, as evbuffer_pullup repairs it. */
  method PullLink(buf: Evbuffer, passedLwd: bool, passedOwner: bool)
    requires buf.Body() && buf.first != null && buf !in buf.Repr
    modifies buf`lwd
    ensures buf.lwd ==
      if passedLwd then null
      else if passedOwner then (if |buf.parts| == |buf.chains| > 1 && |buf.parts[1]| > 0 then buf.first else null)
      else old(buf.lwd)
  {
    hide Evbuffer.Body;
    buf.Front();
    buf.At(0);
    if |buf.chains| > 1 { buf.At(1); }
    if passedLwd {
      buf.lwd := null;
    } else if passedOwner {
      if buf.first.next != null && buf.first.next.off > 0 {
        buf.lwd := buf.first;
      } else {
        buf.lwd := null;
      }
    }
  }

  /** The repaired link is the one the position describes. */
  lemma PulledOwner(cs: seq<Chain>, tmp: Chain, was: seq<bytes>, k: nat, i: nat, s: nat, left: nat, d: bytes)
    requires 0 < k < |cs| == |was| && s <= 1 && s <= i <= |cs| && (s == 1 ==> tmp == cs[0])
    requires if i < |was| then left < |was[i]| else left == 0
    ensures var q := Pulled(was, i, left, d);
      var owner: Chain? :=
        if s <= k < i then null
        else if s < k <= i then (if |q| > 1 && |q[1]| > 0 then tmp else null)
        else cs[k - 1];
      var p := PulledPos(was, k, i);
      p <= |cs[i..]| && owner == if p == 0 then null else ([tmp] + cs[i..])[p - 1]
  {
    var p := PulledPos(was, k, i);
    if k == i {
      assert Pulled(was, i, left, d)[1] == was[i][left..];
    } else if k > i {
      assert ([tmp] + cs[i..])[p - 1] == cs[i..][k - 1 - i] == cs[k - 1];
    }
  }

  /** Everything after the copy: tmp holds d, the first bytes of the buffer, whose parts were `was`. */
  method PullFinish(buf: Evbuffer, tmp: Chain, chain: Chain?, left: nat, passedLwd: bool, passedOwner: bool,
                    ghost was: seq<bytes>, ghost d: bytes, ghost i: nat, ghost s: nat)
    requires buf.Body() && buf.Pointed() && buf !in buf.Repr && s <= i <= |buf.chains| == |buf.parts| == |was|
    requires chain == buf.Next(i)
    requires if i < |was| then left < |was[i]| else left == 0
    requires buf.parts[i..] == was[i..] && buf.totalLen == |Flatten(was)| && ExactAt(was, buf.k) && 0 < buf.k < |was|
    requires if tmp in buf.Repr then s == 1 && tmp == buf.chains[0] else s == 0 && tmp.buffer !in buf.Repr
    requires 0 < tmp.buffer.Length <= MAX_REQUEST && tmp.Holds(d) && d != []
    requires |Flatten(was[..i])| + left <= |Flatten(was)| && d == Flatten(was)[..|Flatten(was[..i])| + left]
    requires passedLwd == (s <= buf.k < i) && passedOwner == (s < buf.k <= i)
    modifies buf`first, buf`last, buf`lwd, buf`Repr, buf`chains, buf`parts, buf`k, tmp`next
    modifies (if chain != null then {chain} else {})`misalign, (if chain != null then {chain} else {})`off
    ensures buf.Valid() && buf.Repr == old(buf.Repr) + {tmp, tmp.buffer}
    ensures buf.Contents() == Flatten(was)
    ensures |buf.parts| == |buf.chains| > 0 && buf.parts[0] == d && buf.first == tmp
    ensures NoEmptyPart(was) ==> NoEmptyPart(buf.parts)
  {
    hide Evbuffer.Body, Flatten, ExactAt, NoEmptyPart, Chain.Holds, TailParts, PulledPos;
    PulledFlat(was, i, left, d);
    PulledExact(was, buf.k, i, left, d);
    PulledSame(buf.parts, was, i, left, d);
    PulledOwner(buf.chains, tmp, was, buf.k, i, s, left, d);
    PullRelink(buf, tmp, chain, left, d, i);
    buf.Front();
    PullLink(buf, passedLwd, passedOwner);
    buf.k := PulledPos(was, buf.k, i);
  }

  lemma PulledSame(parts: seq<bytes>, was: seq<bytes>, i: nat, n: nat, d: bytes)
    requires i <= |parts| == |was| && parts[i..] == was[i..] && (if i < |parts| then n <= |was[i]| else n == 0)
    ensures i < |parts| ==> parts[i] == was[i]
    ensures Pulled(parts, i, n, d) == Pulled(was, i, n, d)
  {
    if i < |parts| {
      assert parts[i..][0] == was[i..][0];
    }
  }

  /** There is no pullup to do when all data is in the first chain. */
  lemma SecondPart(parts: seq<bytes>, k: nat, n: nat)
    requires k < |parts| && ExactAt(parts, k) && |parts[0]| < n <= |Flatten(parts)|
    ensures k > 0
  {
    ExactTotal(parts, k);
  }

  lemma FirstPart(parts: seq<bytes>)
    requires parts != []
    ensures Flatten(parts[..1]) == parts[0] && |parts[0]| <= |Flatten(parts)|
    ensures Flatten(parts)[..|parts[0]|] == parts[0]
  {
    assert parts[..1] == [parts[0]];
    FlattenSingle(parts[0]);
    FlattenTakeDrop(parts, 1);
  }

  /** evbuffer_pullup when the first chain has room for the rest. */
  method PullInPlace(buf: Evbuffer, n: nat)
    requires buf.Valid() && buf.first != null && buf.first.off < n <= buf.totalLen
    requires buf.first.buffer.Length - buf.first.misalign >= n
    modifies buf, buf.Repr
    ensures buf.Valid() && buf.Repr == old(buf.Repr)
    ensures buf.freezeStart == old(buf.freezeStart) && buf.freezeEnd == old(buf.freezeEnd)
    ensures buf.nAdd == old(buf.nAdd) && buf.nDel == old(buf.nDel)
    ensures buf.Contents() == old(buf.Contents())
    ensures |buf.parts| == |buf.chains| > 0 && |buf.parts[0]| == n && buf.first == old(buf.first)
    ensures old(NoEmptyPart(buf.parts)) ==> NoEmptyPart(buf.parts)
  {
    hide Evbuffer.Body, Flatten, ExactAt, NoEmptyPart, Chain.Holds, CopyAt;
    buf.Front();
    buf.At(0);
    var tmp := buf.first;
    ghost var was := buf.parts;
    SecondPart(was, buf.k, n);
    FirstPart(was);
    ghost var i;
    var chain, left, data, passedLwd, passedOwner;
    chain, left, data, passedLwd, passedOwner, i := PullWalk(buf, tmp.next, n - tmp.off, 1);
    buf.Inside();
    AppendFirst(buf, data);
    SliceJoin(Flatten(was), 0, |was[0]|, n);
    PullFinish(buf, tmp, chain, left, passedLwd, passedOwner, was, was[0] + data, i, 1);
  }

  method AppendFirst(buf: Evbuffer, data: bytes)
    requires buf.Body() && buf !in buf.Repr && buf.first != null && |data| <= buf.first.SpaceLen()
    modifies buf`parts, buf.first`off, buf.first.buffer
    ensures buf.Body() && |old(buf.parts)| > 0 && buf.parts == old(buf.parts)[0 := old(buf.parts)[0] + data]
    ensures buf.first.Holds(buf.parts[0])
  {
    hide Evbuffer.Body, Chain.Holds;
    buf.Front();
    buf.At(0);
    buf.Distinct(0);
    buf.first.Append(data, buf.parts[0]);
    buf.parts := buf.parts[0 := buf.parts[0] + data];
    buf.Rewritten(0, buf.parts[0]);
  }

  /** evbuffer_pullup into a new chain. */
  method PullIntoNew(buf: Evbuffer, n: nat, malloc: Malloc) returns (ok: bool)
    requires buf.Valid() && buf.first != null && buf.first.off < n <= buf.totalLen
    modifies buf, buf.Repr
    ensures buf.Valid() && fresh(buf.Repr - old(buf.Repr))
    ensures buf.freezeStart == old(buf.freezeStart) && buf.freezeEnd == old(buf.freezeEnd)
    ensures buf.nAdd == old(buf.nAdd) && buf.nDel == old(buf.nDel)
    ensures buf.Contents() == old(buf.Contents())
    ensures ok ==> |buf.parts| == |buf.chains| > 0 && |buf.parts[0]| == n
    ensures ok <==> Granted(malloc, n)
    ensures old(NoEmptyPart(buf.parts)) ==> NoEmptyPart(buf.parts)
  {
    hide Evbuffer.Body, Flatten, ExactAt, NoEmptyPart, Chain.Holds, CopyAt;
    buf.Front();
    buf.At(0);
    buf.Inside();
    SecondPart(buf.parts, buf.k, n);
    NoBytes(buf.parts);
    var tmp := ChainNew(n, malloc);
    if tmp == null {
      return false;
    }
    ghost var i;
    var chain, left, data, passedLwd, passedOwner;
    chain, left, data, passedLwd, passedOwner, i := PullWalk(buf, buf.first, n, 0);
    assert [] + data == data;
    tmp.Append(data, []);
    PullFinish(buf, tmp, chain, left, passedLwd, passedOwner, buf.parts, data, i, 0);
    return true;
  }

  /** The first chain can hold n bytes where its data begins. */
  predicate HasRoom(buf: Evbuffer, n: nat)
    reads buf`first, buf.first
  {
    buf.first != null && buf.first.buffer.Length - buf.first.misalign >= n
  }

  /** evbuffer_pullup; a negative size asks for everything.  When ok, the first n bytes lie in the
      first chain, which is where the returned pointer points. */
  method Pullup(buf: Evbuffer, size: int, malloc: Malloc) returns (ok: bool)
    requires buf.Valid()
    modifies buf, buf.Repr
    ensures buf.Valid() && fresh(buf.Repr - old(buf.Repr))
    ensures buf.freezeStart == old(buf.freezeStart) && buf.freezeEnd == old(buf.freezeEnd)
    ensures buf.nAdd == old(buf.nAdd) && buf.nDel == old(buf.nDel)
    ensures buf.Contents() == old(buf.Contents())
    ensures var n := if size < 0 then |buf.Contents()| else size;
      && (ok ==>
            && 0 < n <= |buf.Contents()| && |buf.parts| == |buf.chains| > 0
            && n <= |buf.parts[0]| && buf.first == buf.chains[0])
      && (ok <==> 0 < n <= |buf.Contents()| && old(HasRoom(buf, n) || Granted(malloc, n)))
      && (ok && old(HasRoom(buf, n)) ==> buf.first == old(buf.first))
    ensures old(buf.Tidy()) ==> buf.Tidy()
  {
    hide Evbuffer.Body, Flatten, ExactAt, NoEmptyPart, Chain.Holds;
    buf.Front();
    var n := if size < 0 then buf.totalLen else size;
    if n == 0 || n > buf.totalLen {
      return false;
    }
    SomePart(buf.parts);
    buf.At(0);
    if buf.first.off >= n {
      return true;
    }
    if buf.first.buffer.Length - buf.first.misalign >= n {
      PullInPlace(buf, n);
      ok := true;
    } else {
      ok := PullIntoNew(buf, n, malloc);
    }
    buf.Front();
  }

  /** What a reader sees through the pointer evbuffer_pullup returns. */
  method Peek(buf: Evbuffer, n: nat) returns (data: bytes)
    requires buf.Valid() && buf.first != null && |buf.parts| > 0 && n <= |buf.parts[0]|
    ensures n <= |buf.Contents()| && data == buf.Contents()[..n]
  {
    hide Evbuffer.Body, Flatten, Chain.Holds;
    buf.Front();
    buf.At(0);
    FirstPart(buf.parts);
    SliceOfSlice(buf.Contents(), 0, |buf.parts[0]|, 0, n);
    data := buf.first.Read(0, n, buf.parts[0]);
  }
}
