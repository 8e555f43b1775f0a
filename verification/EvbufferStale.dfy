/** How the public functions, used on a new buffer, lose track of its last chain with data, trip an
    assertion, or refuse what they handed out. */
module EvbufferStale {
  import opened Bytes
  import opened CInts
  import opened EvbufferExpand
  import opened EvbufferSpace
  import opened EvbufferTransfer
  import opened EvbufferWrite
  import opened Evbuffers

  /** So many chains of moderate size, and nothing frozen. */
  ghost predicate Few(buf: Evbuffer, count: nat, len: nat)
    reads buf, buf.Repr
  {
    && buf.Valid() && !buf.freezeStart && !buf.freezeEnd && |buf.chains| == |buf.parts| == count
    && forall i {:trigger buf.chains[i]} :: 0 <= i < count ==> buf.chains[i].buffer.Length <= len
  }

  /** What is in the memory that part of a reservation describes. */
  lemma BytesOf(buf: Evbuffer, vecs: seq<IoVec>, f: nat, ws: seq<IoVec>) returns (bs: seq<bytes>)
    requires buf.Body() && Covers(buf, vecs, f) && UsedPartOf(ws, vecs)
    ensures VecBytes(ws, bs) && forall i :: 0 <= i < |ws| ==> |bs[i]| == ws[i].len
  {
    hide Evbuffer.Body;
    bs := [];
    for i := 0 to |ws|
      invariant |bs| == i
      invariant forall j {:trigger ws[j]} {:trigger bs[j]} :: 0 <= j < i ==>
        var w := ws[j];
        && w.start + w.len <= w.buffer.Length && w.buffer[w.start..w.start + w.len] == bs[j] && |bs[j]| == w.len
    {
      assert StartsAt(vecs[i], buf.chains[f + i]);
      buf.At(f + i);
      bs := bs + [ws[i].buffer[ws[i].start..ws[i].start + ws[i].len]];
    }
  }

  lemma RoomOfSome(vecs: seq<IoVec>, len: nat)
    requires forall i :: 0 <= i < |vecs| ==> vecs[i].len <= len
    ensures Room(vecs) <= len * |vecs|
  {
    if vecs != [] {
      RoomOfSome(vecs[..|vecs| - 1], len);
    }
  }

  /** A buffer with one empty chain, and its room. */
  method OneEmpty(malloc: Malloc) returns (buf: Evbuffer, v: IoVec)
    requires NeverFails(malloc)
    ensures fresh(buf) && fresh(buf.Repr) && Few(buf, 1, MIN_BUFFER_SIZE) && buf.parts == [[]] && buf.k == 0
    ensures Covers(buf, [v], 0) && v.len >= 200
  {
    hide Evbuffer.Body, Flatten, ExactAt;
    buf := new Evbuffer();
    var r, vecs;
    ghost var at;
    var aborted;
    r, vecs, aborted, at := ReserveSpace(buf, 200, 2, malloc);
    buf.Front();
    RoomOfSome(vecs, if |vecs| > 0 then vecs[0].len else 0);
    v := vecs[0];
    assert vecs == [v];
  }

  /** A buffer with one chain that holds one byte. */
  method OneByte(malloc: Malloc) returns (buf: Evbuffer)
    requires NeverFails(malloc)
    ensures fresh(buf) && fresh(buf.Repr) && Few(buf, 1, MIN_BUFFER_SIZE) && |buf.parts[0]| == 1 && buf.k == 0
    ensures buf.chains[0].SpaceLen() >= 199
  {
    hide Evbuffer.Body, Flatten;
    var v;
    buf, v := OneEmpty(malloc);
    var ws := [IoVec(v.buffer, v.start, 1)];
    ghost var bs := BytesOf(buf, [v], 0, ws);
    buf.At(0);
    assert [v][0] == v;
    CommitReserved(buf, [v], 0, ws);
    var result := CommitSpace(buf, ws, bs);
    buf.Front();
    buf.At(0);
  }

  /** More room than that in the first chains is only found together with the next one. */
  lemma LastIsLarge(buf: Evbuffer, vecs: seq<IoVec>, f: nat, count: nat, len: nat)
    requires buf.Body() && Covers(buf, vecs, f) && |vecs| <= 3 && Room(vecs) > 3 * len && |buf.chains| <= count + 1
    requires forall i {:trigger buf.chains[i]} :: 0 <= i < count && i < |buf.chains| ==>
      buf.chains[i].buffer.Length <= len
    ensures |buf.chains| == count + 1 == f + |vecs| && buf.chains[count].SpaceLen() > len
  {
    hide Evbuffer.Body;
    var n := |vecs| - 1;
    forall i | 0 <= i < |vecs| && f + i < count
      ensures vecs[i].len <= len
    {
      assert StartsAt(vecs[i], buf.chains[f + i]);
      buf.At(f + i);
    }
    if f + |vecs| <= count {
      RoomOfSome(vecs, len);
    } else {
      RoomOfSome(vecs[..n], len);
    }
  }

  /** Reserving more than there is leaves one more empty chain, which is larger than the others. */
  method OneMore(buf: Evbuffer, ghost count: nat, len: nat, malloc: Malloc) returns (vecs: seq<IoVec>)
    requires NeverFails(malloc) && 0 < count <= 2 && Few(buf, count, len) && MIN_BUFFER_SIZE <= len <= 0x1000_0000
    modifies buf, buf.Repr
    ensures fresh(buf.Repr - old(buf.Repr)) && Few(buf, count + 1, 7 * len) && buf.parts == old(buf.parts) + [[]]
    ensures buf.Contents() == old(buf.Contents())
    ensures buf.chains[..count] == old(buf.chains) && buf.chains[count].SpaceLen() > len
    ensures forall c: Chain :: c in old(buf.chains) ==> c.SpaceLen() >= old(c.SpaceLen())
    ensures Covers(buf, vecs, FirstSpace(buf)) && FirstSpace(buf) + |vecs| == count + 1
  {
    hide Evbuffer.Body, Flatten, ExactAt, Covers, Room;
    buf.Front();
    var r;
    ghost var at;
    var aborted;
    r, vecs, aborted, at := ReserveSpace(buf, 3 * len + 1, 3, malloc);
    buf.Front();
    assert forall i :: 0 <= i < count ==> old(buf.chains[i]).buffer.Length <= len;
    LastIsLarge(buf, vecs, at, count, len);
  }

  /** evbuffer_add behind an empty chain: the position does not follow. */
  method StaleAfterAdd(malloc: Malloc) returns (buf: Evbuffer)
    requires NeverFails(malloc)
    ensures fresh(buf) && buf.Shape() && !buf.Valid() && |buf.Contents()| == 2
  {
    hide Evbuffer.Body, Flatten, ExactAt, SpillOk;
    buf := OneByte(malloc);
    FlattenSingle(buf.parts[0]);
    assert buf.parts == [buf.parts[0]];
    var vecs := OneMore(buf, 1, MIN_BUFFER_SIZE, malloc);
    buf.Front();
    buf.At(1);
    FirstIsExact(buf.parts, buf.k);
    var r, aborted := Add(buf, [7], malloc);
  }

  lemma FirstIsExact(parts: seq<bytes>, k: nat)
    requires ExactAt(parts, k) && k < |parts| == 2 && parts[1] == []
    ensures k == 0
  {}

  /** A buffer with one byte and two empty chains behind it, with the room in each. */
  method TwoEmpty(malloc: Malloc) returns (buf: Evbuffer)
    requires NeverFails(malloc)
    ensures fresh(buf) && fresh(buf.Repr) && Few(buf, 3, 49 * MIN_BUFFER_SIZE) && buf.k == 0
    ensures |buf.parts[0]| == 1 && buf.parts[1] == buf.parts[2] == []
    ensures buf.chains[0].SpaceLen() > 0 && buf.chains[0].buffer.Length <= MIN_BUFFER_SIZE
    ensures buf.chains[1].SpaceLen() > MIN_BUFFER_SIZE && buf.chains[2].SpaceLen() > 0
  {
    hide Evbuffer.Body, Flatten;
    buf := OneByte(malloc);
    var vecs := OneMore(buf, 1, MIN_BUFFER_SIZE, malloc);
    ghost var c := buf.chains[0];
    assert c.SpaceLen() > 0;
    vecs := OneMore(buf, 2, 7 * MIN_BUFFER_SIZE, malloc);
  }

  /** evbuffer_add behind two empty chains, with more than the last of them can take: the assertion trips. */
  method AbortedAdd(malloc: Malloc) returns (aborted: bool)
    requires NeverFails(malloc)
    ensures aborted
  {
    hide Evbuffer.Body, Flatten, ExactAt;
    var buf := TwoEmpty(malloc);
    var r;
    buf.Front();
    buf.At(2);
    ValidAdd(buf, buf.last.buffer.Length + 1);
    buf.TotalIs();
    OneInAll(buf.parts);
    r, aborted := Add(buf, seq(buf.last.buffer.Length + 1, _ => 0), malloc);
  }

  lemma OneInAll(parts: seq<bytes>)
    requires |parts| == 3 && |parts[0]| == 1 && parts[1] == parts[2] == []
    ensures |Flatten(parts)| == 1
  {
    FlattenDropEmpty(parts, 1);
    FlattenSingle(parts[0]);
    assert parts[..1] == [parts[0]];
  }

  /** Committing the last of three vectors alone: the position stays on the first chain. */
  method StaleAfterCommit(malloc: Malloc) returns (buf: Evbuffer, result: int)
    requires NeverFails(malloc)
    ensures result == 0 && buf.Shape() && !buf.Valid()
  {
    hide Evbuffer.Body, Flatten, ExactAt;
    buf := TwoEmpty(malloc);
    buf.Front();
    buf.Inside();
    buf.At(2);
    var c := buf.last;
    var v := IoVec(c.buffer, c.misalign + c.off, 1);
    ghost var bs := [c.buffer[v.start..v.start + 1]];
    result := CommitSpace(buf, [v], bs);
  }

  /** A vector that was handed out is not accepted. */
  method RefusedCommit(malloc: Malloc) returns (reserved: int, committed: int)
    requires NeverFails(malloc)
    ensures reserved == 1 && committed == -1
  {
    hide Evbuffer.Body, Flatten, ExactAt, Room, CommitOk;
    var buf := TwoEmpty(malloc);
    buf.Front();
    buf.Inside();
    buf.At(0);
    buf.At(1);
    var vecs;
    ghost var at;
    var aborted;
    reserved, vecs, aborted, at := ReserveSpace(buf, buf.first.buffer.Length, 1, malloc);
    CommitReserved(buf, vecs, at, vecs);
    committed := CommitSpace(buf, vecs, []);
  }

  /** evbuffer_expand with a size that wraps when the data of the chain is added to it. */
  method AbortedExpand(malloc: Malloc) returns (aborted: bool)
    requires NeverFails(malloc)
    ensures aborted
  {
    hide Evbuffer.Body, Flatten, ExactAt;
    var buf := OneByte(malloc);
    OneByteWraps(buf, malloc);
    var r;
    r, aborted := Expand(buf, SIZE_MAX, malloc);
  }

  /** The same through evbuffer_reserve_space, with a size of -1. */
  method AbortedReserve(malloc: Malloc) returns (aborted: bool)
    requires NeverFails(malloc)
    ensures aborted
  {
    hide Evbuffer.Body, Flatten, ExactAt;
    var buf := OneByte(malloc);
    OneByteWraps(buf, malloc);
    var r, vecs;
    ghost var at;
    r, vecs, aborted, at := ReserveSpace(buf, -1, 1, malloc);
  }

  lemma OneByteWraps(buf: Evbuffer, malloc: Malloc)
    requires NeverFails(malloc) && Few(buf, 1, MIN_BUFFER_SIZE) && |buf.parts[0]| == 1 && buf.k == 0
    requires buf.chains[0].SpaceLen() >= 199
    ensures ResizeWraps(buf, SIZE_MAX, malloc)
  {
    hide Evbuffer.Body, Flatten;
    buf.At(0);
  }

  /** A buffer with two bytes behind an empty chain. */
  method EmptyThenTwo(malloc: Malloc) returns (buf: Evbuffer)
    requires NeverFails(malloc)
    ensures fresh(buf) && fresh(buf.Repr) && Few(buf, 2, 7 * MIN_BUFFER_SIZE) && buf.parts[0] == []
    ensures |buf.parts[1]| == 2
  {
    hide Evbuffer.Body, Flatten, Room;
    var v;
    buf, v := OneEmpty(malloc);
    ghost var c := buf.chains[0];
    assert [v][0] == v;
    assert c.SpaceLen() >= 200;
    var vecs := OneMore(buf, 1, MIN_BUFFER_SIZE, malloc);
    buf.Front();
    buf.Inside();
    assert buf.k == 0 && FirstSpace(buf) == 0;
    var ws := [IoVec(vecs[0].buffer, vecs[0].start, 0), IoVec(vecs[1].buffer, vecs[1].start, 2)];
    ghost var bs := BytesOf(buf, vecs, 0, ws);
    CommitReserved(buf, vecs, 0, ws);
    var result := CommitSpace(buf, ws, bs);
    buf.Front();
  }

  /** evbuffer_remove_buffer on a source that begins with an empty chain: its position goes back to it. */
  method StaleAfterRemove(malloc: Malloc) returns (src: Evbuffer, dst: Evbuffer)
    requires NeverFails(malloc)
    ensures src.Shape() && !src.Valid() && |src.Contents()| == 1 && dst.Valid() && |dst.Contents()| == 1
  {
    hide Evbuffer.Body, Flatten;
    src := EmptyThenTwo(malloc);
    src.Front();
    src.TotalIs();
    FlattenCons([], [src.parts[1]]);
    FlattenSingle(src.parts[1]);
    assert src.parts == [[]] + [src.parts[1]];
    FlattenSingle([]);
    assert src.parts[..1] == [[]];
    StopUnique(src.parts, 1, 1);
    dst := new Evbuffer();
    dst.Front();
    var r, moved, aborted := RemoveBuffer(src, dst, 1, malloc);
  }

  lemma MiddleIsExact(parts: seq<bytes>, k: nat)
    requires ExactAt(parts, k) && k < |parts| == 3 && parts[1] != [] && parts[2] == []
    ensures k == 1
  {}

  /** A buffer with two bytes behind an empty chain, and one more behind these. */
  method EmptyThenThree(malloc: Malloc) returns (buf: Evbuffer)
    requires NeverFails(malloc)
    ensures fresh(buf) && fresh(buf.Repr) && Few(buf, 3, 49 * MIN_BUFFER_SIZE)
    ensures buf.parts[0] == [] && |buf.parts[1]| == 2 && |buf.parts[2]| == 1
  {
    hide Evbuffer.Body, Flatten, Room, CommitParts, ExactAt;
    buf := EmptyThenTwo(malloc);
    var vecs := OneMore(buf, 2, 7 * MIN_BUFFER_SIZE, malloc);
    buf.Front();
    buf.Inside();
    buf.At(2);
    var c := buf.last;
    var v := IoVec(c.buffer, c.misalign + c.off, 1);
    ghost var bs := [c.buffer[v.start..v.start + 1]];
    CommitOnePart(buf.parts, 2, bs[0]);
    MiddleIsExact(buf.parts, buf.k);
    var result := CommitSpace(buf, [v], bs);
    buf.Front();
  }

  /** An empty chain moves along with data: the position of the destination stops before it. */
  method StaleDestination(malloc: Malloc) returns (src: Evbuffer, dst: Evbuffer)
    requires NeverFails(malloc)
    ensures src.Valid() && |src.Contents()| == 1 && dst.Shape() && !dst.Valid() && |dst.Contents()| == 3
  {
    hide Evbuffer.Body, Flatten, ExactAt, CopySafe, CopyGranted, Reaching, SrcStaysExact, DstStaysExact;
    src := EmptyThenThree(malloc);
    src.Front();
    src.Inside();
    src.TotalIs();
    ghost var d := src.parts[1];
    ThreeParts(src.parts);
    StopUnique(src.parts, 2, 2);
    dst := OneByte(malloc);
    dst.Front();
    FlattenSingle(dst.parts[0]);
    assert dst.parts == [dst.parts[0]];
    assert !Gapless([[], d], 0) by { assert [[], d][1] == d; }
    assert Whole(src, 2) == [[], d] && Piece(src, 2) == 0;
    OnlyWhole(src, dst, 2, malloc);
    var r, moved, aborted := RemoveBuffer(src, dst, 2, malloc);
  }

  lemma ThreeParts(parts: seq<bytes>)
    requires |parts| == 3 && parts[0] == []
    ensures parts[..2] == [[], parts[1]] && Flatten(parts[..2]) == parts[1] && Flatten(parts) == parts[1] + parts[2]
  {
    FlattenStep(parts, 0);
    FlattenStep(parts, 1);
    FlattenStep(parts, 2);
    AllParts(parts);
    NoBytes(parts);
  }
}
