/** The evbuffer of libevent: a byte string kept in a singly linked list of memory chains. */
module Evbuffers {
  import opened Bytes
  import opened CInts

  const CHAIN_MAX: nat := SSIZE_MAX
  /** sizeof(struct evbuffer_chain) on an LP64 machine */
  const CHAIN_SIZE: nat := 48
  const MIN_BUFFER_SIZE: nat := 1024
  const MAX_TO_REALIGN: nat := 2048
  /** The largest request evbuffer_chain_new passes on to the allocator. */
  const MAX_REQUEST: nat := CHAIN_MAX - CHAIN_SIZE

  /** Which allocation sizes mm_malloc grants. */
  type Malloc = nat -> bool

  ghost predicate NeverFails(malloc: Malloc) {
    forall n: nat :: malloc(n)
  }

  /** struct evbuffer_chain: one allocation, of which bytes misalign .. misalign + off hold data. */
  class Chain {
    var next: Chain?
    const buffer: array<byte>
    var misalign: nat
    var off: nat

    constructor (len: nat)
      ensures buffer.Length == len && fresh(buffer)
      ensures next == null && misalign == 0 && off == 0
    {
      buffer := new byte[len];
      next := null;
      misalign, off := 0, 0;
    }

    ghost predicate Holds(d: bytes)
      reads this`misalign, this`off, buffer
    {
      misalign + off <= buffer.Length && buffer[misalign..misalign + off] == d
    }

    lemma Size(d: bytes)
      requires Holds(d)
      ensures off == |d|
    {}

    /** CHAIN_SPACE_LEN: the room behind the data. */
    function SpaceLen(): int
      reads this`misalign, this`off
    {
      buffer.Length - (misalign + off)
    }

    /** evbuffer_chain_should_realign */
    predicate ShouldRealign(datlen: nat)
      reads this`off
    {
      buffer.Length - off >= datlen && off < buffer.Length / 2 && off <= MAX_TO_REALIGN
    }

    /** Moving the data to the front must make enough room, keep no more than half of the chain in use, and
        move at most 2048 bytes. */
    lemma WorthAligning(datlen: nat)
      ensures ShouldRealign(datlen) <==>
        off + datlen <= buffer.Length && 2 * (off + 1) <= buffer.Length && off <= 2048
    {}

    /** memcpy to CHAIN_SPACE_PTR. */
    method Append(data: bytes, ghost d: bytes)
      requires Holds(d) && |data| <= SpaceLen()
      modifies this`off, buffer
      ensures Holds(d + data)
    {
      forall i | 0 <= i < |data| {
        buffer[misalign + off + i] := data[i];
      }
      off := off + |data|;
    }

    /** Count the n bytes behind the data, written by someone else, as data. */
    method Grow(n: nat, ghost d: bytes)
      requires Holds(d) && n <= SpaceLen()
      modifies this`off
      ensures Holds(d + buffer[misalign + old(off)..misalign + old(off) + n]) && off == old(off) + n
    {
      off := off + n;
    }

    /** memcpy in front of the data. */
    method PutBefore(data: bytes, ghost d: bytes)
      requires Holds(d) && |data| <= misalign
      modifies this`off, this`misalign, buffer
      ensures Holds(data + d) && misalign == old(misalign) - |data|
    {
      forall i | 0 <= i < |data| {
        buffer[misalign - |data| + i] := data[i];
      }
      off := off + |data|;
      misalign := misalign - |data|;
    }

    /** memcpy out of the data. */
    method Read(from: nat, to: nat, ghost d: bytes) returns (s: bytes)
      requires Holds(d) && from <= to <= off
      ensures to <= |d| && s == d[from..to]
    {
      s := buffer[misalign + from..misalign + to];
      SliceOfSlice(buffer[..], misalign, misalign + off, from, to);
    }

    /** evbuffer_chain_align */
    method Align(ghost d: bytes)
      requires Holds(d)
      modifies this`misalign, buffer
      ensures misalign == 0 && Holds(d)
    {
      forall i | 0 <= i < off {
        buffer[i] := buffer[misalign + i];
      }
      misalign := 0;
    }

    /** Forget the first n bytes of the data. */
    method TrimFront(n: nat, ghost d: bytes)
      requires Holds(d) && n <= off
      modifies this`misalign, this`off
      ensures n <= |d| && Holds(d[n..]) && misalign == old(misalign) + n
    {
      misalign := misalign + n;
      off := off - n;
    }
  }

  /** The first empty part at or after position i. */
  ghost function FirstEmpty(parts: seq<bytes>, i: nat): (j: nat)
    requires i <= |parts|
    ensures i <= j <= |parts|
    decreases |parts| - i
  {
    if i < |parts| && parts[i] != [] then FirstEmpty(parts, i + 1) else i
  }

  /** Position k is the last part with data, or the first part when no part has data. */
  ghost predicate ExactAt(parts: seq<bytes>, k: nat)
  {
    && (forall i :: k < i < |parts| ==> parts[i] == [])
    && (0 < k < |parts| ==> parts[k] != [])
  }

  ghost predicate NoEmptyPart(parts: seq<bytes>)
  {
    |parts| <= 1 || forall i :: 0 <= i < |parts| ==> parts[i] != []
  }

  lemma TailEmpty(parts: seq<bytes>, k: nat)
    requires k < |parts|
    ensures AllEmpty(parts[k + 1..]) <==> forall i :: k < i < |parts| ==> parts[i] == []
  {
    var tail := parts[k + 1..];
    forall i | k < i < |parts|
      ensures tail[i - k - 1] == parts[i]
    {}
  }

  /** Where stepping over non-empty parts ends. */
  ghost function Advance(parts: seq<bytes>, k: nat): (r: nat)
    ensures k <= r && (k < |parts| ==> r < |parts|)
    decreases |parts| - k
  {
    if k + 1 < |parts| && parts[k + 1] != [] then Advance(parts, k + 1) else k
  }

  /** The memory of some chains. */
  ghost function Objects(cs: seq<Chain>): set<object> {
    (set c | c in cs :: c as object) + (set c | c in cs :: c.buffer as object)
  }

  lemma FirstEmptyOfNone(parts: seq<bytes>, i: nat)
    requires i == |parts|
    ensures FirstEmpty(parts, i) == i
  {}

  /** struct evbuffer_ptr: a flat position and the chain it lies in. */
  datatype EvPtr = EvPtr(pos: int, chain: Chain?, posInChain: nat)

  class Evbuffer {
    var first: Chain?
    var last: Chain?
    /** last_with_datap points at a next field: lwd owns that field, and null stands for &buf->first. */
    var lwd: Chain?
    var totalLen: nat
    var nAdd: nat
    var nDel: nat
    var freezeStart: bool
    var freezeEnd: bool

    ghost var Repr: set<object>
    /** The chains in list order, the bytes each holds, and the position of *last_with_datap. */
    ghost var chains: seq<Chain>
    ghost var parts: seq<bytes>
    ghost var k: nat

    /** evbuffer_new */
    constructor ()
      ensures Valid() && Tidy() && Contents() == [] && chains == [] && Repr == {}
      ensures !freezeStart && !freezeEnd && nAdd == 0 && nDel == 0
    {
      first, last, lwd := null, null, null;
      totalLen, nAdd, nDel, freezeStart, freezeEnd := 0, 0, 0, false, false;
      Repr, chains, parts, k := {}, [], [], 0;
    }

    ghost predicate Owned()
      reads this`Repr, this`chains
    {
      && this !in Repr
      && (forall i {:trigger chains[i]} :: 0 <= i < |chains| ==>
            chains[i] in Repr && chains[i].buffer in Repr && 0 < chains[i].buffer.Length <= MAX_REQUEST)
      && (forall i, j :: 0 <= i < j < |chains| ==> chains[i] != chains[j] && chains[i].buffer != chains[j].buffer)
    }

    /** The target of a link. */
    function Deref(link: Chain?): Chain?
      reads this`first, link
    {
      if link == null then first else link.next
    }

    ghost function Next(i: nat): Chain?
      reads this`chains
    {
      if i < |chains| then chains[i] else null
    }

    ghost predicate Linked()
      requires Owned()
      reads this`Repr, this`first, this`chains, Repr
    {
      && first == Next(0)
      && (forall i {:trigger chains[i].next} :: 0 <= i < |chains| ==> chains[i].next == Next(i + 1))
    }

    ghost predicate Stored()
      requires Owned()
      reads this`Repr, this`chains, this`parts, Repr
    {
      && |parts| == |chains|
      && (forall i {:trigger chains[i]} :: 0 <= i < |chains| ==> chains[i].Holds(parts[i]))
    }

    /** The list and the memory agree with the ghost description. */
    ghost predicate Body()
      reads this`Repr, this`first, this`chains, this`parts, Repr
    {
      Owned() && Linked() && Stored()
    }

    /** The cached pointers: last is the final chain and last_with_datap is link k. */
    ghost predicate Pointed()
      reads this`chains, this`last, this`k, this`lwd
    {
      && last == (if chains == [] then null else chains[|chains| - 1])
      && (if chains == [] then k == 0 else k < |chains|)
      && lwd == (if k == 0 then null else chains[k - 1])
    }

    ghost predicate Shape()
      reads this, Repr
    {
      && this !in Repr && Body() && Pointed() && totalLen == |Flatten(parts)|
    }

    /** *last_with_datap is the last chain with data, or the first chain when none has data. */
    ghost predicate Exact()
      reads this`parts, this`k
    {
      ExactAt(parts, k)
    }

    ghost predicate Valid()
      reads this, Repr
    {
      Shape() && Exact()
    }

    /** The shape of a buffer no space was ever reserved in: no empty chain beside another chain. */
    ghost predicate Tidy()
      reads this, Repr
    {
      Valid() && NoEmptyPart(parts)
    }

    ghost function Contents(): bytes
      reads this`parts
    {
      Flatten(parts)
    }

    /** p lies in chain i. */
    ghost predicate PtrAt(p: EvPtr, i: nat)
      requires |parts| == |chains|
      reads this`chains, this`parts
    {
      && i < |chains| && p.chain == chains[i] && p.posInChain <= |parts[i]|
      && p.pos == |Flatten(parts[..i])| + p.posInChain
    }

    /** p was set on this buffer and the buffer has not changed since: its chain and its offset
        describe the flat position, and a position without a chain is the end. */
    ghost predicate PtrValid(p: EvPtr)
      requires |parts| == |chains|
      reads this`chains, this`parts
    {
      if p.chain == null then p.pos == |Flatten(parts)| && p.posInChain == 0
      else exists i: nat :: PtrAt(p, i)
    }

    lemma TotalIs()
      requires Shape()
      ensures totalLen == |Contents()|
    {}

    // ----- what Body gives

    lemma At(i: nat)
      requires Body() && i < |chains|
      ensures |parts| == |chains|
      ensures chains[i].Holds(parts[i]) && chains[i].off == |parts[i]|
      ensures 0 <= chains[i].SpaceLen()
      ensures chains[i].SpaceLen() == chains[i].buffer.Length - chains[i].misalign - chains[i].off
      ensures chains[i].next == Next(i + 1)
      ensures chains[i] in Repr && chains[i].buffer in Repr && 0 < chains[i].buffer.Length <= MAX_REQUEST
    {}

    lemma Front()
      requires Body()
      ensures |parts| == |chains| && this !in Repr
      ensures first == Next(0)
    {}

    lemma Distinct(m: nat)
      requires Body() && m < |chains|
      ensures forall i {:trigger chains[i]} :: 0 <= i < |chains| && i != m ==>
        chains[i] != chains[m] && chains[i].buffer != chains[m].buffer
    {}

    lemma Inside()
      requires Body()
      ensures forall c: Chain :: c in chains ==> c in Repr && c.buffer in Repr
    {}

    lemma Outside(c: Chain)
      requires Body() && c !in Repr
      ensures c !in chains
    {}

    lemma LinkAt(j: nat)
      requires Body() && j <= |chains|
      ensures Deref(if j == 0 then null else chains[j - 1]) == Next(j)
    {}

    // ----- frame lemmas

    /** Overwriting the contents of chain m alone keeps everything else. */
    twostate lemma Rewritten(new m: nat, new d: bytes)
      requires old(Body())
      requires unchanged(`Repr) && unchanged(`first) && unchanged(`chains)
      requires m < |chains| == |old(parts)| && parts == old(parts)[m := d] && chains[m].Holds(d)
      requires unchanged(chains`next)
      requires forall i {:trigger chains[i]} :: 0 <= i < |chains| && i != m ==>
        var c := chains[i]; c.misalign == old(c.misalign) && c.off == old(c.off) && c.buffer[..] == old(c.buffer[..])
      ensures Body()
    {
      forall i | 0 <= i < |chains| && i != m
        ensures chains[i].Holds(parts[i])
      {
        var c, e := chains[i], parts[i];
        assert old(c.Holds(e));
        assert c.buffer[c.misalign..c.misalign + c.off] == c.buffer[..][c.misalign..c.misalign + c.off];
      }
    }

    /** Dropping all chains from position j on. */
    twostate lemma Cut(new j: nat)
      requires old(Body()) && unchanged(`Repr)
      requires j <= |old(chains)| && chains == old(chains)[..j] && parts == old(parts)[..j]
      requires if j == 0 then first == null else first == old(first) && chains[j - 1].next == null
      requires forall i {:trigger chains[i]} :: 0 <= i < j - 1 ==> chains[i].next == old(chains[i].next)
      requires unchanged(chains`misalign) && unchanged(chains`off)
      requires unchanged(set i | 0 <= i < j :: chains[i].buffer)
      ensures Body()
    {
      forall i {:trigger chains[i]} | 0 <= i < j
        ensures chains[i].next == Next(i + 1)
      {
        assert old(chains[i].next == Next(i + 1));
      }
      forall i {:trigger chains[i]} | 0 <= i < j
        ensures chains[i].Holds(parts[i])
      {
        assert chains[i].buffer in (set i | 0 <= i < j :: chains[i].buffer);
      }
    }

    /** The chains of old(chains), shifted to position s, still form part of the list. */
    twostate lemma KeptStored(new s: nat)
      requires old(Body()) && Owned()
      requires |parts| == |chains| && s + |old(chains)| <= |chains|
      requires chains[s..s + |old(chains)|] == old(chains)
      requires |old(parts)| == |old(chains)| && parts[s..s + |old(chains)|] == old(parts)
      requires unchanged(old(chains)`misalign) && unchanged(old(chains)`off)
      requires forall c: Chain :: c in old(chains) ==> c.buffer[..] == old(c.buffer[..])
      ensures forall i {:trigger chains[i]} :: s <= i < s + |old(chains)| ==> chains[i].Holds(parts[i])
    {
      forall i {:trigger chains[i]} | s <= i < s + |old(chains)|
        ensures chains[i].Holds(parts[i])
      {
        var c, e := old(chains)[i - s], old(parts)[i - s];
        assert chains[s..s + |old(chains)|][i - s] == chains[i] && parts[s..s + |old(chains)|][i - s] == parts[i];
        assert old(c.Holds(e));
        assert c.buffer[c.misalign..c.misalign + c.off] == c.buffer[..][c.misalign..c.misalign + c.off];
      }
    }

    /** One more chain at the end. */
    twostate lemma Hung(new c: Chain, new d: bytes)
      requires old(Body()) && this !in Repr
      requires chains == old(chains) + [c] && parts == old(parts) + [d] && Repr == old(Repr) + {c, c.buffer}
      requires c !in old(Repr) && c.buffer !in old(Repr) && 0 < c.buffer.Length <= MAX_REQUEST
      requires c.next == null && c.Holds(d)
      requires if |old(chains)| == 0 then first == c
        else first == old(first) && old(chains)[|old(chains)| - 1].next == c
      requires forall i {:trigger chains[i]} :: 0 <= i < |chains| - 2 ==> chains[i].next == old(chains[i].next)
      requires unchanged(old(chains)`misalign) && unchanged(old(chains)`off)
      requires forall c: Chain :: c in old(chains) ==> c.buffer[..] == old(c.buffer[..])
      ensures Body()
    {
      HungOwned(c);
      KeptStored(0);
      hide Stored;
      assert Linked() by {
        forall i {:trigger chains[i]} | 0 <= i < |old(chains)|
          ensures chains[i].next == Next(i + 1)
        {
          assert old(chains[i].next == Next(i + 1));
        }
      }
    }

    twostate lemma HungOwned(new c: Chain)
      requires old(Owned()) && this !in Repr
      requires chains == old(chains) + [c] && Repr == old(Repr) + {c, c.buffer}
      requires c !in old(Repr) && c.buffer !in old(Repr) && 0 < c.buffer.Length <= MAX_REQUEST
      ensures Owned()
    {}

    /** One more chain at the front. */
    twostate lemma Pushed(new c: Chain, new d: bytes)
      requires old(Body()) && this !in Repr
      requires chains == [c] + old(chains) && parts == [d] + old(parts) && Repr == old(Repr) + {c, c.buffer}
      requires c !in old(Repr) && c.buffer !in old(Repr) && 0 < c.buffer.Length <= MAX_REQUEST
      requires first == c && c.next == old(first) && c.Holds(d)
      requires unchanged(old(chains))
      requires forall c: Chain :: c in old(chains) ==> c.buffer[..] == old(c.buffer[..])
      ensures Body()
    {
      PushedOwned(c);
      KeptStored(1);
      PushedLinked(c);
    }

    twostate lemma PushedOwned(new c: Chain)
      requires old(Owned()) && this !in Repr
      requires chains == [c] + old(chains) && Repr == old(Repr) + {c, c.buffer}
      requires c !in old(Repr) && c.buffer !in old(Repr) && 0 < c.buffer.Length <= MAX_REQUEST
      ensures Owned()
    {
      forall i {:trigger chains[i]} | 0 < i < |chains|
        ensures chains[i] in old(Repr) && chains[i].buffer in old(Repr) && 0 < chains[i].buffer.Length <= MAX_REQUEST
      {
        assert chains[i] == old(chains)[i - 1];
      }
      forall i, j | 0 <= i < j < |chains|
        ensures chains[i] != chains[j] && chains[i].buffer != chains[j].buffer
      {
        assert chains[j] == old(chains)[j - 1];
        if i > 0 {
          assert chains[i] == old(chains)[i - 1];
        }
      }
    }

    twostate lemma PushedLinked(new c: Chain)
      requires old(Owned() && Linked()) && Owned()
      requires chains == [c] + old(chains)
      requires first == c && c.next == old(first)
      requires unchanged(old(chains)`next)
      ensures Linked()
    {
      forall i {:trigger chains[i]} | 0 < i < |chains|
        ensures chains[i].next == Next(i + 1)
      {
        assert chains[i] == old(chains)[i - 1];
        assert old(chains[i - 1].next == Next(i));
      }
    }

    /** Fewer chains at the front. */
    twostate lemma Dropped(new n: nat)
      requires old(Body()) && unchanged(`Repr) && this !in Repr && unchanged(Repr)
      requires n <= |old(chains)| && chains == old(chains)[n..] && |old(parts)| == |old(chains)|
      requires parts == old(parts)[n..]
      requires first == (if n < |old(chains)| then old(chains)[n] else null)
      ensures Body()
    {
      assert Owned() by {
        forall i {:trigger chains[i]} | 0 <= i < |chains|
          ensures chains[i] == old(chains)[i + n]
        {}
      }
      forall i {:trigger chains[i]} | 0 <= i < |chains|
        ensures chains[i].next == Next(i + 1) && chains[i].Holds(parts[i])
      {
        assert chains[i] == old(chains)[i + n] && parts[i] == old(parts)[i + n];
        assert old(chains[i + n].next == Next(i + n + 1));
        assert old(chains[i + n].Holds(parts[i + n]));
      }
    }

    /** This list is the list of x followed by the list of y, both as they were. */
    twostate lemma Joined(new x: Evbuffer, new y: Evbuffer)
      requires old(allocated(x) && allocated(y)) && old(x.Body() && y.Body()) && old(x.Repr) !! old(y.Repr)
      requires this !in Repr
      requires chains == old(x.chains) + old(y.chains) && Repr == old(x.Repr) + old(y.Repr)
      requires |old(x.parts)| == |old(x.chains)| && |old(y.parts)| == |old(y.chains)|
      requires parts == old(x.parts) + old(y.parts)
      requires first == if old(x.chains) != [] then old(x.first) else old(y.first)
      requires old(x.chains) != [] ==> old(x.chains)[|old(x.chains)| - 1].next == old(y.first)
      requires forall i {:trigger old(x.chains)[i]} :: 0 <= i < |old(x.chains)| - 1 ==>
        old(x.chains)[i].next == old(x.chains[i].next)
      requires unchanged(old(y.chains)) && unchanged(old(x.chains)`misalign) && unchanged(old(x.chains)`off)
      requires forall c: Chain :: c in old(x.chains) || c in old(y.chains) ==> c.buffer[..] == old(c.buffer[..])
      ensures Body()
    {
      JoinedOwned(x, y);
      JoinedLinked(x, y);
      JoinedStored(x, y);
    }

    twostate lemma JoinedOwned(new x: Evbuffer, new y: Evbuffer)
      requires old(allocated(x) && allocated(y)) && old(x.Owned() && y.Owned()) && old(x.Repr) !! old(y.Repr)
      requires this !in Repr
      requires chains == old(x.chains) + old(y.chains) && Repr == old(x.Repr) + old(y.Repr)
      ensures Owned()
    {
      ghost var n := |old(x.chains)|;
      forall i {:trigger chains[i]} | 0 <= i < |chains|
        ensures chains[i] in Repr && chains[i].buffer in Repr && 0 < chains[i].buffer.Length <= MAX_REQUEST
        ensures if i < n then chains[i] == old(x.chains)[i] && chains[i] in old(x.Repr) &&
          chains[i].buffer in old(x.Repr)
          else chains[i] == old(y.chains)[i - n] && chains[i] in old(y.Repr) && chains[i].buffer in old(y.Repr)
      {
        if i < n {
          assert chains[i] == old(x.chains)[i];
        } else {
          assert chains[i] == old(y.chains)[i - n];
        }
      }
    }

    twostate lemma JoinedLinked(new x: Evbuffer, new y: Evbuffer)
      requires old(allocated(x) && allocated(y)) && old(x.Owned() && x.Linked() && y.Owned() && y.Linked()) && Owned()
      requires chains == old(x.chains) + old(y.chains)
      requires first == if old(x.chains) != [] then old(x.first) else old(y.first)
      requires old(x.chains) != [] ==> old(x.chains)[|old(x.chains)| - 1].next == old(y.first)
      requires forall i {:trigger old(x.chains)[i]} :: 0 <= i < |old(x.chains)| - 1 ==>
        old(x.chains)[i].next == old(x.chains[i].next)
      requires unchanged(old(y.chains)`next)
      ensures Linked()
    {
      ghost var n := |old(x.chains)|;
      forall i {:trigger chains[i]} | 0 <= i < |chains|
        ensures chains[i].next == Next(i + 1)
      {
        if i < n {
          assert chains[i] == old(x.chains)[i];
          assert old(x.chains[i].next == x.Next(i + 1));
        } else {
          assert chains[i] == old(y.chains)[i - n];
          assert old(y.chains[i - n].next == y.Next(i - n + 1));
        }
      }
    }

    twostate lemma JoinedStored(new x: Evbuffer, new y: Evbuffer)
      requires old(allocated(x) && allocated(y)) && old(x.Owned() && x.Stored() && y.Owned() && y.Stored()) && Owned()
      requires chains == old(x.chains) + old(y.chains)
      requires parts == old(x.parts) + old(y.parts)
      requires unchanged(old(y.chains)`misalign) && unchanged(old(y.chains)`off)
      requires unchanged(old(x.chains)`misalign) && unchanged(old(x.chains)`off)
      requires forall c: Chain :: c in old(x.chains) || c in old(y.chains) ==> c.buffer[..] == old(c.buffer[..])
      ensures Stored()
    {
      ghost var n := |old(x.chains)|;
      forall i {:trigger chains[i]} | 0 <= i < |chains|
        ensures chains[i].Holds(parts[i])
      {
        var c, e := chains[i], parts[i];
        if i < n {
          assert c == old(x.chains)[i];
          assert old(x.chains[i].Holds(x.parts[i]));
        } else {
          assert c == old(y.chains)[i - n];
          assert old(y.chains[i - n].Holds(y.parts[i - n]));
        }
        assert c.buffer[c.misalign..c.misalign + c.off] == c.buffer[..][c.misalign..c.misalign + c.off];
      }
    }

    /** This list is now the first n chains of x. */
    twostate lemma Taken(new x: Evbuffer, new n: nat)
      requires old(allocated(x)) && old(x.Body()) && this !in Repr && 0 < n <= |old(x.chains)| == |old(x.parts)|
      requires chains == old(x.chains)[..n] && parts == old(x.parts)[..n] && first == old(x.first)
      requires Repr == Objects(chains) && old(x.chains)[n - 1].next == null
      requires forall i {:trigger chains[i]} :: 0 <= i < n - 1 ==> chains[i].next == old(x.chains[i].next)
      requires unchanged(old(x.chains)[..n]`misalign) && unchanged(old(x.chains)[..n]`off)
      requires forall c: Chain :: c in old(x.chains)[..n] ==> c.buffer[..] == old(c.buffer[..])
      ensures Body()
    {
      TakenOwned(x, n);
      TakenLinked(x, n);
      TakenStored(x, n);
    }

    twostate lemma TakenOwned(new x: Evbuffer, new n: nat)
      requires old(allocated(x)) && old(x.Owned()) && this !in Repr && 0 < n <= |old(x.chains)|
      requires chains == old(x.chains)[..n] && Repr == Objects(chains)
      ensures Owned()
    {
      forall i {:trigger chains[i]} | 0 <= i < n
        ensures chains[i] == old(x.chains)[i]
      {}
    }

    twostate lemma TakenLinked(new x: Evbuffer, new n: nat)
      requires old(allocated(x)) && old(x.Owned() && x.Linked()) && Owned() && 0 < n <= |old(x.chains)|
      requires chains == old(x.chains)[..n] && first == old(x.first) && old(x.chains)[n - 1].next == null
      requires forall i {:trigger chains[i]} :: 0 <= i < n - 1 ==> chains[i].next == old(x.chains[i].next)
      ensures Linked()
    {
      forall i {:trigger chains[i]} | 0 <= i < n
        ensures chains[i].next == Next(i + 1)
      {
        assert chains[i] == old(x.chains)[i];
        assert old(x.chains[i].next == x.Next(i + 1));
      }
    }

    twostate lemma TakenStored(new x: Evbuffer, new n: nat)
      requires old(allocated(x)) && old(x.Owned() && x.Stored()) && Owned()
      requires 0 < n <= |old(x.chains)| == |old(x.parts)|
      requires chains == old(x.chains)[..n] && parts == old(x.parts)[..n]
      requires unchanged(old(x.chains)[..n]`misalign) && unchanged(old(x.chains)[..n]`off)
      requires forall c: Chain :: c in old(x.chains)[..n] ==> c.buffer[..] == old(c.buffer[..])
      ensures Stored()
    {
      forall i {:trigger chains[i]} | 0 <= i < n
        ensures chains[i].Holds(parts[i])
      {
        var c, e := chains[i], parts[i];
        assert c == old(x.chains)[i] && c in old(x.chains)[..n];
        assert old(x.chains[i].Holds(x.parts[i]));
        assert c.buffer[c.misalign..c.misalign + c.off] == c.buffer[..][c.misalign..c.misalign + c.off];
      }
    }

    /** This list is now the list of x, as it was. */
    twostate lemma SameList(new x: Evbuffer)
      requires old(allocated(x)) && old(x.Body()) && this !in Repr && old(x.Repr) <= Repr
      requires chains == old(x.chains) && parts == old(x.parts) && first == old(x.first)
      requires unchanged(old(x.Repr))
      ensures Body()
    {
      forall i {:trigger chains[i]} | 0 <= i < |chains|
        ensures chains[i].Holds(parts[i]) && chains[i].next == Next(i + 1)
      {
        assert old(x.chains[i].Holds(x.parts[i]));
        assert old(x.chains[i].next == x.Next(i + 1));
      }
    }

    /** What happens elsewhere does not matter. */
    twostate lemma StillValid()
      requires old(Valid()) && unchanged(this) && unchanged(old(Repr))
      ensures Valid()
    {
      hide Flatten, ExactAt;
    }

    /** evbuffer_freeze and evbuffer_unfreeze */
    method Freeze(start: bool, on: bool)
      requires Valid()
      modifies this`freezeStart, this`freezeEnd
      ensures Valid() && (old(Tidy()) ==> Tidy())
      ensures if start then freezeStart == on && freezeEnd == old(freezeEnd)
        else freezeEnd == on && freezeStart == old(freezeStart)
    {
      hide Body, Flatten, ExactAt, NoEmptyPart;
      if start {
        freezeStart := on;
      } else {
        freezeEnd := on;
      }
    }

    // ----- building blocks

    /** Write behind the data of the last chain. */
    method FillLast(data: bytes)
      requires Shape() && last != null && |data| <= last.SpaceLen()
      modifies this`totalLen, this`nAdd, this`parts, last`off, last.buffer
      ensures Shape()
      ensures |parts| == |old(parts)| > 0
      ensures parts == old(parts)[|chains| - 1 := old(parts)[|chains| - 1] + data]
      ensures Contents() == old(Contents()) + data
      ensures nAdd == old(nAdd) + |data|
    {
      hide Body, Flatten, Chain.Holds;
      ghost var m := |chains| - 1;
      At(m);
      Distinct(m);
      last.Append(data, parts[m]);
      totalLen := totalLen + |data|;
      nAdd := nAdd + |data|;
      FlattenGrowLast(parts, data);
      parts := parts[m := parts[m] + data];
      Rewritten(m, parts[m]);
    }

    ghost function Link(j: nat): Chain?
      requires j <= |chains|
      reads this`chains
    {
      if j == 0 then null else chains[j - 1]
    }

    /** The walk of evbuffer_free_trailing_empty_chains (no chain is pinned here). */
    method FindEmptyLink() returns (link: Chain?, ghost j: nat)
      requires Body() && Pointed()
      ensures k <= j <= |chains| == |parts| && j == FirstEmpty(parts, k) && link == Link(j)
    {
      hide Body, Chain.Holds;
      Front();
      link, j := lwd, k;
      LinkAt(j);
      var ch := Deref(link);
      while ch != null && ch.off != 0
        invariant k <= j <= |chains| && link == Link(j) && ch == Next(j)
        invariant FirstEmpty(parts, j) == FirstEmpty(parts, k)
        decreases |chains| - j
      {
        At(j);
        link := ch;
        ch := ch.next;
        j := j + 1;
      }
      if ch != null {
        At(j);
      }
    }

    /** evbuffer_chains_all_empty */
    method AllEmptyFrom(chain: Chain?, ghost j: nat) returns (b: bool)
      requires Body() && j <= |chains| && chain == Next(j)
      ensures j <= |parts| && (b <==> AllEmpty(parts[j..]))
    {
      hide Body, Chain.Holds;
      Front();
      var c := chain;
      ghost var i := j;
      while c != null
        invariant j <= i <= |chains| == |parts| && c == Next(i)
        invariant forall n :: j <= n < i ==> parts[n] == []
        decreases |chains| - i
      {
        At(i);
        if c.off != 0 {
          assert parts[j..][i - j] != [];
          return false;
        }
        c := c.next;
        i := i + 1;
      }
      return true;
    }

    /** The assertion of evbuffer_free_trailing_empty_chains. */
    method TrailingEmpty() returns (b: bool)
      requires Body() && Pointed()
      ensures k <= |parts| && (b <==> AllEmpty(parts[FirstEmpty(parts, k)..]))
    {
      hide Body, AllEmpty, FirstEmpty;
      var link;
      ghost var j;
      link, j := FindEmptyLink();
      LinkAt(j);
      b := AllEmptyFrom(Deref(link), j);
    }

    /** Whether *last_with_datap is what it should be. */
    method IsExact() returns (b: bool)
      requires Body() && Pointed()
      ensures b <==> Exact()
    {
      hide Body, Chain.Holds, AllEmpty;
      Front();
      LinkAt(k);
      var chain := Deref(lwd);
      if chain == null {
        return true;
      }
      At(k);
      if lwd != null && chain.off == 0 {
        return false;
      }
      b := AllEmptyFrom(chain.next, k + 1);
      TailEmpty(parts, k);
    }

    /** *link = NULL: everything from position j on is freed. */
    method CutAt(link: Chain?, ghost j: nat)
      requires Body() && j <= |chains| && link == Link(j)
      modifies this`first, this`chains, this`parts, chains`next
      ensures Body()
      ensures chains == old(chains)[..j] && |old(parts)| == |old(chains)| && parts == old(parts)[..j]
    {
      hide Body, Chain.Holds;
      Front();
      if link == null {
        first := null;
      } else {
        Distinct(j - 1);
        link.next := null;
      }
      chains := chains[..j];
      parts := parts[..j];
      Cut(j);
    }

    /** evbuffer_free_trailing_empty_chains: cut the list at the first empty chain from
        *last_with_datap on, and return the link the next chain is to be hung on.  The caller
        fixes last.  The source asserts that everything cut off is empty. */
    method FreeTrailing() returns (link: Chain?)
      requires Body() && Pointed()
      requires AllEmpty(parts[FirstEmpty(parts, k)..])
      modifies this`first, this`chains, this`parts, chains`next
      ensures Body()
      ensures var j := FirstEmpty(old(parts), k);
        j <= |old(chains)| && chains == old(chains)[..j] && parts == old(parts)[..j] && link == Link(j)
    {
      hide Body, Chain.Holds, AllEmpty, FirstEmpty;
      ghost var j;
      link, j := FindEmptyLink();
      LinkAt(j);
      if Deref(link) != null {
        CutAt(link, j);
      }
    }

    /** *link = c at the end of the list. */
    method HangAt(link: Chain?, c: Chain, ghost d: bytes)
      requires Body() && link == Link(|chains|)
      requires c !in Repr && c.buffer !in Repr && 0 < c.buffer.Length <= MAX_REQUEST
      requires c.next == null && c.Holds(d)
      modifies this`first, this`Repr, this`chains, this`parts, chains`next
      ensures Body()
      ensures chains == old(chains) + [c] && parts == old(parts) + [d]
      ensures Repr == old(Repr) + {c, c.buffer}
    {
      hide Body, Chain.Holds;
      Front();
      if |chains| > 0 {
        At(|chains| - 1);
        Distinct(|chains| - 1);
      }
      if link == null {
        first := c;
      } else {
        link.next := c;
      }
      chains := chains + [c];
      parts := parts + [d];
      Repr := Repr + {c, c.buffer};
      Hung(c, d);
    }

    twostate lemma Released(new s: set<object>)
      requires old(Body()) && Repr == old(Repr) - s && this !in old(Repr)
      requires unchanged(`first) && unchanged(`chains) && unchanged(`parts) && unchanged(Repr)
      requires forall i {:trigger chains[i]} :: 0 <= i < |chains| ==> chains[i] !in s && chains[i].buffer !in s
      ensures Body()
    {}

    /** The buffer no longer owns s, which it has dropped. */
    ghost method Release(s: set<object>)
      requires Body() && this !in Repr
      requires forall i {:trigger chains[i]} :: 0 <= i < |chains| ==> chains[i] !in s && chains[i].buffer !in s
      modifies this`Repr
      ensures Body() && Repr == old(Repr) - s
    {
      hide Body;
      Repr := Repr - s;
      Released(s);
    }

    /** c->next = first; first = c */
    method HangFront(c: Chain, ghost d: bytes)
      requires Body() && this !in Repr
      requires c !in Repr && c.buffer !in Repr && 0 < c.buffer.Length <= MAX_REQUEST && c.Holds(d)
      modifies this`first, this`Repr, this`chains, this`parts, c`next
      ensures Body() && first == c
      ensures chains == [c] + old(chains) && parts == [d] + old(parts)
      ensures Repr == old(Repr) + {c, c.buffer}
    {
      hide Body, Chain.Holds;
      Outside(c);
      c.next := first;
      first := c;
      chains := [c] + chains;
      parts := [d] + parts;
      Repr := Repr + {c, c.buffer};
      Pushed(c, d);
    }

    /** The list surgery of evbuffer_chain_insert; chp is the link that now points at c. */
    method Splice(c: Chain, ghost d: bytes) returns (chp: Chain?)
      requires Body() && Pointed() && AllEmpty(parts[FirstEmpty(parts, k)..])
      requires c !in Repr && c.buffer !in Repr && 0 < c.buffer.Length <= MAX_REQUEST
      requires c.next == null && c.Holds(d)
      modifies this`first, this`Repr, this`chains, this`parts, chains`next
      ensures Body()
      ensures Repr == old(Repr) + {c, c.buffer}
      ensures |old(parts)| == |old(chains)|
      ensures var j := FirstEmpty(old(parts), k);
        chains == old(chains)[..j] + [c] && parts == old(parts)[..j] + [d] && chp == Link(j)
    {
      hide Body, AllEmpty, FirstEmpty, Chain.Holds;
      LinkAt(k);
      Front();
      Outside(c);
      if Deref(lwd) == null {
        FirstEmptyOfNone(parts, k);
        chp := null;
        HangAt(null, c, d);
      } else {
        chp := FreeTrailing();
        HangAt(chp, c, d);
      }
    }

    /** evbuffer_chain_insert */
    method ChainInsert(c: Chain, ghost d: bytes)
      requires Shape() && AllEmpty(parts[FirstEmpty(parts, k)..])
      requires c !in Repr && c.buffer !in Repr && 0 < c.buffer.Length <= MAX_REQUEST
      requires c.next == null && c.Holds(d)
      modifies this`first, this`last, this`lwd, this`totalLen, this`Repr, this`chains, this`parts, this`k, chains`next
      ensures Shape()
      ensures Repr == old(Repr) + {c, c.buffer}
      ensures |old(parts)| == |old(chains)|
      ensures var j := FirstEmpty(old(parts), old(k));
        && chains == old(chains)[..j] + [c] && parts == old(parts)[..j] + [d]
        && k == (if d == [] then old(k) else j)
      ensures Contents() == old(Contents()) + d
    {
      hide Body, AllEmpty, FirstEmpty, Flatten;
      ghost var j := FirstEmpty(parts, k);
      FlattenDropEmpty(parts, j);
      FlattenSnoc(parts[..j], d);
      var chp := Splice(c, d);
      if c.off != 0 {
        lwd := chp;
        k := j;
      }
      last := c;
      totalLen := totalLen + c.off;
    }

    /** One step of advance_last_with_data, if the next chain holds data. */
    method StepLast() returns (moved: bool)
      requires Body() && Pointed() && this !in Repr && chains != []
      modifies this`lwd, this`k
      ensures Pointed() && old(k) < |chains| == |parts|
      ensures moved <==> old(k) + 1 < |chains| && parts[old(k) + 1] != []
      ensures k == old(k) + if moved then 1 else 0
    {
      hide Body, Chain.Holds;
      Front();
      LinkAt(k);
      At(k);
      var target := Deref(lwd);
      if k + 1 < |chains| {
        At(k + 1);
      }
      moved := target.next != null && target.next.off > 0;
      if moved {
        lwd := target;
        k := k + 1;
      }
    }

    /** advance_last_with_data: step over non-empty chains only. */
    method AdvanceLastWithData() returns (n: nat)
      requires Body() && Pointed() && this !in Repr
      modifies this`lwd, this`k
      ensures Pointed() && k == (if chains == [] then 0 else Advance(parts, old(k))) && n == k - old(k)
    {
      hide Body, Chain.Holds;
      n := 0;
      Front();
      LinkAt(k);
      if Deref(lwd) == null {
        return;
      }
      while true
        invariant old(k) <= k < |chains| == |parts| && Pointed() && n == k - old(k)
        invariant Body()
        invariant Advance(parts, k) == Advance(parts, old(k))
        decreases |chains| - k
      {
        var moved := StepLast();
        if !moved {
          break;
        }
        n := n + 1;
      }
    }

    /** evbuffer_chain_align on chain i. */
    method AlignAt(chain: Chain, ghost i: nat)
      requires Shape() && i < |chains| && chain == chains[i]
      modifies chain`misalign, chain.buffer
      ensures Shape() && chain.misalign == 0 && chain.off == old(chain.off)
    {
      hide Body, Flatten, Chain.Holds;
      At(i);
      Distinct(i);
      chain.Align(parts[i]);
      Rewritten(i, parts[i]);
    }
  }

  /** The size evbuffer_chain_new asks for: the next power-of-two multiple of the minimum. */
  function Doubled(n: nat, size: nat): (r: nat)
    requires n > 0
    ensures size <= r && (r == n || r < 2 * size)
    decreases size - n
  {
    if n < size then Doubled(2 * n, size) else n
  }

  function ToAlloc(size: nat): (r: nat)
    ensures size <= r && (size <= CHAIN_MAX ==> r <= CHAIN_MAX)
    ensures r == MIN_BUFFER_SIZE || r <= 2 * size
  {
    if size < CHAIN_MAX / 2 then Doubled(MIN_BUFFER_SIZE, size) else size
  }

  /** evbuffer_chain_new gets the memory. */
  predicate Granted(malloc: Malloc, size: nat) {
    size <= MAX_REQUEST && malloc(ToAlloc(size + CHAIN_SIZE))
  }

  /** evbuffer_chain_new */
  method ChainNew(size: nat, malloc: Malloc) returns (chain: Chain?)
    ensures chain != null <==> Granted(malloc, size)
    ensures chain != null ==>
      && fresh(chain) && fresh(chain.buffer)
      && chain.buffer.Length == ToAlloc(size + CHAIN_SIZE) - CHAIN_SIZE
      && size <= chain.buffer.Length && 0 < chain.buffer.Length <= MAX_REQUEST
      && chain.next == null && chain.misalign == 0 && chain.off == 0 && chain.Holds([])
  {
    if size > CHAIN_MAX - CHAIN_SIZE {
      return null;
    }
    var total := size + CHAIN_SIZE;
    var toAlloc;
    if total < CHAIN_MAX / 2 {
      toAlloc := MIN_BUFFER_SIZE;
      while toAlloc < total
        invariant toAlloc > 0 && Doubled(toAlloc, total) == Doubled(MIN_BUFFER_SIZE, total)
        decreases total - toAlloc
      {
        toAlloc := toAlloc * 2;
      }
    } else {
      toAlloc := total;
    }
    if !malloc(toAlloc) {
      return null;
    }
    chain := new Chain(toAlloc - CHAIN_SIZE);
  }
}
