/** Direct writing: evbuffer_reserve_space and evbuffer_commit_space. */
module EvbufferSpace {
  import opened Bytes
  import opened CInts
  import opened EvbufferExpand
  import opened Evbuffers

  /** struct evbuffer_iovec: len bytes of memory at start. */
  datatype IoVec = IoVec(buffer: array<byte>, start: nat, len: nat)

  /** The vector starts right behind the data of the chain. */
  predicate StartsAt(v: IoVec, c: Chain)
    reads c`misalign, c`off
  {
    v.buffer == c.buffer && v.start == c.misalign + c.off
  }

  /** Vectors number from .. |vecs| lie right behind the data of the chains from position f + from on,
      and fit. */
  ghost predicate MatchFrom(buf: Evbuffer, vecs: seq<IoVec>, f: nat, from: nat)
    reads buf`chains, buf.chains`misalign, buf.chains`off
  {
    && f + |vecs| <= |buf.chains|
    && (forall i {:trigger vecs[i]} :: from <= i < |vecs| ==>
          StartsAt(vecs[i], buf.chains[f + i]) && vecs[i].len <= buf.chains[f + i].SpaceLen())
  }

  ghost predicate VecsMatch(buf: Evbuffer, vecs: seq<IoVec>, f: nat)
    reads buf`chains, buf.chains`misalign, buf.chains`off
  {
    MatchFrom(buf, vecs, f, 0)
  }

  /** The special case of a single vector in the last chain. */
  predicate LastOnly(buf: Evbuffer, vecs: seq<IoVec>)
    reads buf`last, if buf.last != null then {buf.last} else {}
  {
    |vecs| == 1 && buf.last != null && StartsAt(vecs[0], buf.last)
  }

  /** What evbuffer_commit_space accepts. */
  ghost predicate CommitOk(buf: Evbuffer, vecs: seq<IoVec>)
    requires buf.Shape()
    reads buf, buf.Repr
  {
    && !buf.freezeEnd
    && (vecs == [] ||
        if LastOnly(buf, vecs) then vecs[0].len <= buf.last.SpaceLen()
        else buf.chains != [] && (buf.Inside(); VecsMatch(buf, vecs, FirstSpace(buf))))
  }

  /** bs are the bytes in the memory the vectors describe. */
  ghost predicate VecBytes(vecs: seq<IoVec>, bs: seq<bytes>)
    reads set i | 0 <= i < |vecs| :: vecs[i].buffer
  {
    |bs| == |vecs| &&
    forall i {:trigger vecs[i]} {:trigger bs[i]} :: 0 <= i < |vecs| ==>
      var v := vecs[i]; v.start + v.len <= v.buffer.Length && v.buffer[v.start..v.start + v.len] == bs[i]
  }

  // ----- the parts after a commit

  /** bs[i] goes behind part f + i. */
  ghost function CommitParts(parts: seq<bytes>, f: nat, bs: seq<bytes>): (q: seq<bytes>)
    requires f + |bs| <= |parts|
    ensures |q| == |parts|
    ensures forall j :: 0 <= j < |parts| && !(f <= j < f + |bs|) ==> q[j] == parts[j]
    ensures forall j :: f <= j < f + |bs| ==> q[j] == parts[j] + bs[j - f]
  {
    if bs == [] then parts
    else
      var n := |bs| - 1;
      CommitParts(parts, f, bs[..n])[f + n := parts[f + n] + bs[n]]
  }

  /** The last part written to, if anything was written, and k otherwise. */
  ghost function CommitPos(k: nat, f: nat, bs: seq<bytes>): nat
  {
    if bs == [] then k
    else if bs[|bs| - 1] != [] then f + |bs| - 1
    else CommitPos(k, f, bs[..|bs| - 1])
  }

  /** The written bytes follow the data: nothing lies between or behind them. */
  lemma {:induction false} CommitFlat(parts: seq<bytes>, f: nat, bs: seq<bytes>)
    requires f + |bs| <= |parts| && (f < |parts| ==> AllEmpty(parts[f + 1..]))
    ensures Flatten(CommitParts(parts, f, bs)) == Flatten(parts) + Flatten(bs)
  {
    if bs == [] {
      assert CommitParts(parts, f, bs) == parts;
      assert Flatten(parts) + [] == Flatten(parts);
    } else {
      var n := |bs| - 1;
      var q := CommitParts(parts, f, bs[..n]);
      CommitFlat(parts, f, bs[..n]);
      assert bs == bs[..n] + [bs[n]];
      FlattenSnoc(bs[..n], bs[n]);
      Assoc(Flatten(parts), Flatten(bs[..n]), bs[n]);
      FlattenGrowAt(q, f + n, bs[n]);
    }
  }

  lemma FlattenGrowAt(parts: seq<bytes>, i: nat, d: bytes)
    requires i < |parts| && AllEmpty(parts[i + 1..])
    ensures Flatten(parts[i := parts[i] + d]) == Flatten(parts) + d
  {
    var q := parts[i := parts[i] + d];
    FlattenDropEmpty(parts, i + 1);
    assert q[i + 1..] == parts[i + 1..];
    FlattenDropEmpty(q, i + 1);
    assert q[..i + 1] == parts[..i + 1][i := parts[i] + d];
    FlattenGrowLast(parts[..i + 1], d);
  }

  lemma {:induction false} CommitExact(parts: seq<bytes>, k: nat, f: nat, bs: seq<bytes>)
    requires k < |parts| && ExactAt(parts, k) && k <= f <= k + 1 && f + |bs| <= |parts|
    ensures k <= CommitPos(k, f, bs) < |parts| && ExactAt(CommitParts(parts, f, bs), CommitPos(k, f, bs))
  {
    if bs != [] {
      var n := |bs| - 1;
      CommitExact(parts, k, f, bs[..n]);
      var q := CommitParts(parts, f, bs);
      if bs[n] != [] {
        assert q[f + n] != [];
      } else {
        assert parts[f + n] + bs[n] == parts[f + n];
        assert q == CommitParts(parts, f, bs[..n]);
      }
    }
  }

  // ----- evbuffer_commit_space

  /** Pass 1: the vectors are in bounds. */
  method CheckVecs(buf: Evbuffer, vecs: seq<IoVec>, chain0: Chain?, ghost f: nat) returns (ok: bool)
    requires buf.Body() && f <= |buf.chains| && chain0 == buf.Next(f)
    ensures ok <==> VecsMatch(buf, vecs, f)
  {
    hide Evbuffer.Body;
    var chain := chain0;
    for i := 0 to |vecs|
      invariant f + i <= |buf.chains| && chain == buf.Next(f + i)
      invariant forall j {:trigger vecs[j]} :: 0 <= j < i ==>
        StartsAt(vecs[j], buf.chains[f + j]) && vecs[j].len <= buf.chains[f + j].SpaceLen()
    {
      if chain == null {
        return false;
      }
      buf.At(f + i);
      if !StartsAt(vecs[i], chain) || vecs[i].len > chain.SpaceLen() {
        return false;
      }
      chain := chain.next;
    }
    return true;
  }

  /** The len bytes behind the data of chain j become data. */
  method GrowAt(buf: Evbuffer, chain: Chain, len: nat, ghost j: nat, ghost d: bytes)
    requires buf.Body() && buf.Pointed() && j < |buf.chains| && chain == buf.chains[j] && len <= chain.SpaceLen()
    requires chain.misalign + chain.off + len <= chain.buffer.Length
    requires chain.buffer[chain.misalign + chain.off..chain.misalign + chain.off + len] == d
    modifies buf`parts, chain`off
    ensures buf.Body() && buf.Pointed()
    ensures |old(buf.parts)| == |buf.chains| && buf.parts == old(buf.parts)[j := old(buf.parts)[j] + d]
  {
    hide Evbuffer.Body, Chain.Holds;
    buf.At(j);
    buf.Distinct(j);
    chain.Grow(len, buf.parts[j]);
    buf.parts := buf.parts[j := buf.parts[j] + d];
    buf.Rewritten(j, buf.parts[j]);
  }

  lemma VecRoom(buf: Evbuffer, vecs: seq<IoVec>, f: nat, i: nat, bs: seq<bytes>)
    requires MatchFrom(buf, vecs, f, i) && i < |vecs| && VecBytes(vecs, bs)
    ensures var c, v := buf.chains[f + i], vecs[i];
      && c.misalign + c.off + v.len <= c.buffer.Length && v.len <= c.SpaceLen() && |bs[i]| == v.len && i < |bs|
      && c.buffer[c.misalign + c.off..c.misalign + c.off + v.len] == bs[i]
  {}

  twostate lemma StillMatch(new buf: Evbuffer, new vecs: seq<IoVec>, new f: nat, new i: nat)
    requires old(allocated(buf) && allocated(vecs)) && old(buf.Body()) && i < |vecs| && old(MatchFrom(buf, vecs, f, i))
    requires unchanged(buf`chains)
    requires forall c: Chain :: c in buf.chains && c != buf.chains[f + i] ==>
      c.misalign == old(c.misalign) && c.off == old(c.off)
    ensures MatchFrom(buf, vecs, f, i + 1)
  {
    forall j {:trigger vecs[j]} | i + 1 <= j < |vecs|
      ensures buf.chains[f + j] != buf.chains[f + i]
    {
      assert old(StartsAt(vecs[j], buf.chains[f + j]));
    }
  }

  lemma CommitStep(parts: seq<bytes>, k: nat, f: nat, bs: seq<bytes>, i: nat)
    requires i < |bs| && f + |bs| <= |parts|
    ensures var q := CommitParts(parts, f, bs[..i]);
      CommitParts(parts, f, bs[..i + 1]) == q[f + i := q[f + i] + bs[i]]
    ensures CommitPos(k, f, bs[..i + 1]) == if bs[i] != [] then f + i else CommitPos(k, f, bs[..i])
  {
    assert bs[..i + 1][..i] == bs[..i];
    assert CommitParts(parts, f, bs[..i])[f + i] == parts[f + i];
  }

  /** Pass 2: adjust the chains. */
  method GrowVecs(buf: Evbuffer, vecs: seq<IoVec>, first: Chain?, ghost f: nat, ghost bs: seq<bytes>)
      returns (added: nat)
    requires buf.Body() && buf.Pointed() && VecsMatch(buf, vecs, f) && first == buf.Link(f) && VecBytes(vecs, bs)
    modifies buf`lwd, buf`k, buf`parts, buf.chains`off
    ensures buf.Body() && |old(buf.parts)| == |buf.chains|
    ensures f + |bs| <= |old(buf.parts)| && buf.parts == CommitParts(old(buf.parts), f, bs)
    ensures buf.k == CommitPos(old(buf.k), f, bs) && buf.Pointed()
    ensures added == |Flatten(bs)|
  {
    hide Evbuffer.Body, Chain.Holds, CommitParts, CommitPos, Flatten, MatchFrom, VecBytes;
    buf.Front();
    BytesFit(buf, vecs, f, bs);
    ghost var parts, k := buf.parts, buf.k;
    var chainp := first;
    added := 0;
    NoCommit(parts, k, f, bs);
    for i := 0 to |vecs|
      invariant f + |bs| <= |parts| && |bs| == |vecs| && chainp == buf.Link(f + i)
      invariant buf.Body() && buf.Pointed()
      invariant buf.parts == CommitParts(parts, f, bs[..i]) && buf.k == CommitPos(k, f, bs[..i])
      invariant added == |Flatten(bs[..i])|
      invariant MatchFrom(buf, vecs, f, i) && VecBytes(vecs, bs)
    {
      GrowOne(buf, vecs, chainp, f, i, bs, parts, k);
      buf.LinkAt(f + i);
      FlattenStep(bs, i);
      added := added + vecs[i].len;
      chainp := buf.Deref(chainp);
    }
    AllParts(bs);
  }

  lemma NoCommit(parts: seq<bytes>, k: nat, f: nat, bs: seq<bytes>)
    requires f + |bs| <= |parts|
    ensures CommitParts(parts, f, bs[..0]) == parts && CommitPos(k, f, bs[..0]) == k && Flatten(bs[..0]) == []
  {}

  lemma BytesFit(buf: Evbuffer, vecs: seq<IoVec>, f: nat, bs: seq<bytes>)
    requires VecsMatch(buf, vecs, f) && VecBytes(vecs, bs)
    ensures |bs| == |vecs| && f + |bs| <= |buf.chains| && MatchFrom(buf, vecs, f, 0)
  {}

  /** One round of pass 2. */
  method GrowOne(buf: Evbuffer, vecs: seq<IoVec>, chainp: Chain?, ghost f: nat, i: nat, ghost bs: seq<bytes>,
          ghost parts: seq<bytes>, ghost k: nat)
    requires buf.Body() && buf.Pointed() && i < |vecs| && MatchFrom(buf, vecs, f, i) && VecBytes(vecs, bs)
    requires |bs| == |vecs| && f + |bs| <= |parts| == |buf.parts| && f + i < |buf.chains| && chainp == buf.Link(f + i)
    requires buf.parts == CommitParts(parts, f, bs[..i]) && buf.k == CommitPos(k, f, bs[..i])
    modifies buf`lwd, buf`k, buf`parts, buf.chains`off
    ensures buf.Body() && buf.Pointed() && |bs[i]| == vecs[i].len
    ensures buf.parts == CommitParts(parts, f, bs[..i + 1]) && buf.k == CommitPos(k, f, bs[..i + 1])
    ensures MatchFrom(buf, vecs, f, i + 1) && VecBytes(vecs, bs)
  {
    hide Evbuffer.Body, Chain.Holds, CommitParts, CommitPos, Flatten, MatchFrom;
    buf.Front();
    buf.LinkAt(f + i);
    CommitStep(parts, k, f, bs, i);
    VecRoom(buf, vecs, f, i, bs);
    var chain := buf.Deref(chainp);
    GrowAt(buf, chain, vecs[i].len, f + i, bs[i]);
    assert VecBytes(vecs, bs);
    StillMatch(buf, vecs, f, i);
    if vecs[i].len != 0 {
      buf.lwd := chainp;
      buf.k := f + i;
    }
  }

  /** The single vector lies in the last chain, which need not be the first with space. */
  method CommitLast(buf: Evbuffer, v: IoVec, ghost d: bytes)
    requires buf.Valid() && buf.last != null && StartsAt(v, buf.last) && v.len <= buf.last.SpaceLen()
    requires VecBytes([v], [d])
    modifies buf`lwd, buf`k, buf`parts, buf.last`off
    ensures buf.Body() && buf.Pointed() && buf.k < |buf.chains|
    ensures old(buf.k) < |old(buf.parts)| && ExactAt(buf.parts, buf.k) <==>
      d == [] || |old(buf.parts)| <= old(buf.k) + 2
    ensures buf.Contents() == old(buf.Contents()) + d && |d| == v.len
    ensures |buf.chains| == |old(buf.parts)| > 0 && buf.parts == CommitParts(old(buf.parts), |buf.chains| - 1, [d])
  {
    hide Evbuffer.Body, Flatten, Chain.Holds, CommitParts, ExactAt, AllEmpty, Advance, VecBytes;
    buf.Front();
    ghost var m := |buf.chains| - 1;
    buf.At(m);
    BytesOfOne(v, d);
    ghost var parts, k := buf.parts, buf.k;
    GrowAt(buf, buf.last, v.len, m, d);
    NothingBehind(parts, m);
    FlattenGrowAt(parts, m, d);
    CommitLastExact(parts, k, d);
    CommitOnePart(parts, m, d);
    if v.len != 0 {
      var _ := buf.AdvanceLastWithData();
    }
  }

  lemma BytesOfOne(v: IoVec, d: bytes)
    requires VecBytes([v], [d])
    ensures v.start + v.len <= v.buffer.Length && v.buffer[v.start..v.start + v.len] == d && |d| == v.len
  {
    assert |[v]| == 1 && [v][0] == v && [d][0] == d;
  }

  lemma CommitOnePart(parts: seq<bytes>, m: nat, d: bytes)
    requires m < |parts|
    ensures CommitParts(parts, m, [d]) == parts[m := parts[m] + d]
  {
    assert [d][..0] == [];
  }

  lemma NothingBehind(parts: seq<bytes>, m: nat)
    requires m + 1 == |parts|
    ensures AllEmpty(parts[m + 1..])
  {}

  lemma CommitLastExact(parts: seq<bytes>, k: nat, d: bytes)
    requires k < |parts| && ExactAt(parts, k)
    ensures var m := |parts| - 1;
      var q := parts[m := parts[m] + d];
      ExactAt(q, if d == [] then k else Advance(q, k)) <==> d == [] || |parts| <= k + 2
  {
    var m := |parts| - 1;
    var q := parts[m := parts[m] + d];
    if d == [] {
      assert parts[m] + d == parts[m];
      assert q == parts;
    } else if m > k + 1 {
      assert q[k + 1] == [];
      assert Advance(q, k) == k;
      assert q[m] != [];
    } else if m == k + 1 {
      assert q[k + 1] != [];
      assert Advance(q, k) == Advance(q, k + 1) == k + 1;
    }
  }

  /** The vectors lie in the first chains with space. */
  method CommitFirst(buf: Evbuffer, vecs: seq<IoVec>, link: Chain?, ghost f: nat, ghost bs: seq<bytes>)
      returns (added: nat)
    requires buf.Valid() && buf.chains != [] && buf.k <= f <= buf.k + 1 && VecsMatch(buf, vecs, f)
    requires link == buf.Link(f)
    requires VecBytes(vecs, bs)
    modifies buf`lwd, buf`k, buf`parts, buf.chains`off
    ensures buf.Body() && buf.Pointed() && ExactAt(buf.parts, buf.k)
    ensures buf.Contents() == old(buf.Contents()) + Flatten(bs) && added == |Flatten(bs)|
    ensures f + |bs| <= |old(buf.parts)| && buf.parts == CommitParts(old(buf.parts), f, bs)
  {
    hide Evbuffer.Body, Flatten, Chain.Holds, CommitParts, CommitPos, ExactAt, AllEmpty, VecsMatch, VecBytes,
         Evbuffer.Pointed;
    buf.Front();
    CommitBounds(buf, vecs, f, bs);
    CommitExact(buf.parts, buf.k, f, bs);
    EmptyBehind(buf.parts, buf.k, f);
    CommitFlat(buf.parts, f, bs);
    added := GrowVecs(buf, vecs, link, f, bs);
  }

  lemma CommitBounds(buf: Evbuffer, vecs: seq<IoVec>, f: nat, bs: seq<bytes>)
    requires buf.Body() && buf.Pointed() && VecsMatch(buf, vecs, f) && VecBytes(vecs, bs)
    ensures |bs| == |vecs| && f + |bs| <= |buf.parts| == |buf.chains|
    ensures buf.chains != [] ==> buf.k < |buf.parts|
  {}

  lemma EmptyBehind(parts: seq<bytes>, k: nat, f: nat)
    requires ExactAt(parts, k) && k <= f
    ensures f < |parts| ==> AllEmpty(parts[f + 1..])
  {}

  /** evbuffer_commit_space; bs are the bytes found in the memory the vectors describe. */
  method CommitSpace(buf: Evbuffer, vecs: seq<IoVec>, ghost bs: seq<bytes>) returns (result: int)
    requires buf.Valid() && (CommitOk(buf, vecs) ==> VecBytes(vecs, bs))
    modifies buf, buf.chains`off
    ensures result == (if old(CommitOk(buf, vecs)) then 0 else -1)
    ensures result == -1 ==> unchanged(buf) && unchanged(buf.chains)
    ensures result == 0 ==> buf.Contents() == old(buf.Contents()) + Flatten(bs)
    ensures result == 0 ==>
      buf.totalLen == old(buf.totalLen) + |Flatten(bs)| && buf.nAdd == old(buf.nAdd) + |Flatten(bs)|
    ensures result == 0 && vecs != [] ==>
      var f := if old(LastOnly(buf, vecs)) then |buf.chains| - 1 else old(FirstSpace(buf));
      0 <= f && f + |bs| <= |old(buf.parts)| && buf.parts == CommitParts(old(buf.parts), f, bs)
    ensures buf.nDel == old(buf.nDel) && buf.Repr == old(buf.Repr) && buf.chains == old(buf.chains)
    ensures buf.freezeStart == old(buf.freezeStart) && buf.freezeEnd == old(buf.freezeEnd)
    ensures buf.Shape()
    ensures buf.Valid() <==>
      !(result == 0 && old(LastOnly(buf, vecs)) && vecs[0].len > 0 && |buf.chains| > old(buf.k) + 2)
  {
    hide Evbuffer.Body, Flatten, Chain.Holds, ExactAt, VecsMatch, VecBytes, AllEmpty, CommitParts;
    buf.Front();
    buf.Inside();
    if buf.freezeEnd {
      return -1;
    }
    if |vecs| == 0 {
      NoVecs(vecs, bs);
      return 0;
    }
    var added;
    if LastOnly(buf, vecs) {
      if vecs[0].len > buf.last.SpaceLen() {
        return -1;
      }
      OneVec(vecs, bs);
      CommitLast(buf, vecs[0], bs[0]);
      added := vecs[0].len;
    } else {
      buf.LinkAt(buf.k);
      var link := buf.lwd;
      ghost var f := buf.k;
      if buf.Deref(link) == null {
        return -1;
      }
      buf.At(buf.k);
      if buf.Deref(link).SpaceLen() == 0 {
        link := buf.Deref(link);
        f := f + 1;
        buf.LinkAt(f);
      }
      var ok := CheckVecs(buf, vecs, buf.Deref(link), f);
      if !ok {
        return -1;
      }
      SameBytes(vecs, bs);
      added := CommitFirst(buf, vecs, link, f, bs);
    }
    buf.totalLen := buf.totalLen + added;
    buf.nAdd := buf.nAdd + added;
    return 0;
  }

  twostate lemma SameBytes(new vecs: seq<IoVec>, new bs: seq<bytes>)
    requires old(allocated(vecs)) && old(VecBytes(vecs, bs))
    requires forall i {:trigger vecs[i]} :: 0 <= i < |vecs| ==> unchanged(vecs[i].buffer)
    ensures VecBytes(vecs, bs)
  {}

  lemma NoVecs(vecs: seq<IoVec>, bs: seq<bytes>)
    requires VecBytes(vecs, bs) && vecs == []
    ensures Flatten(bs) == [] && forall s: bytes {:trigger s + []} :: s + [] == s
  {}

  lemma OneVec(vecs: seq<IoVec>, bs: seq<bytes>)
    requires VecBytes(vecs, bs) && |vecs| == 1
    ensures |bs| == 1 && VecBytes([vecs[0]], [bs[0]]) && Flatten(bs) == bs[0] && bs == [bs[0]]
  {
    FlattenSingle(bs[0]);
    assert bs == [bs[0]];
  }

  // ----- evbuffer_reserve_space

  /** The vectors are all the room behind the data of the chains from position f on. */
  ghost predicate Covers(buf: Evbuffer, vecs: seq<IoVec>, f: nat)
    reads buf`chains, buf.chains`misalign, buf.chains`off
  {
    && f + |vecs| <= |buf.chains|
    && (forall i {:trigger vecs[i]} :: 0 <= i < |vecs| ==>
          StartsAt(vecs[i], buf.chains[f + i]) && vecs[i].len == buf.chains[f + i].SpaceLen())
  }

  ghost function Room(vecs: seq<IoVec>): nat {
    if vecs == [] then 0 else Room(vecs[..|vecs| - 1]) + vecs[|vecs| - 1].len
  }

  lemma {:induction false} SumMono(s: seq<nat>, a: nat)
    requires a <= |s|
    ensures Sum(s[..a]) <= Sum(s) && CountPositive(s[..a]) <= CountPositive(s)
    decreases |s| - a
  {
    if a == |s| {
      assert s[..a] == s;
    } else {
      SumMono(s[..|s| - 1], a);
      assert s[..|s| - 1][..a] == s[..a];
    }
  }

  lemma {:induction false} AllPositive(s: seq<nat>)
    requires forall i :: 0 <= i < |s| ==> s[i] > 0
    ensures CountPositive(s) == |s|
  {
    if s != [] {
      AllPositive(s[..|s| - 1]);
    }
  }

  lemma {:induction false} SkipFirst(s: seq<nat>)
    requires s != [] && s[0] == 0
    ensures Sum(s[1..]) == Sum(s) && CountPositive(s[1..]) == CountPositive(s)
  {
    if |s| > 1 {
      var t := s[..|s| - 1];
      SkipFirst(t);
      assert s[1..][..|s| - 2] == t[1..];
    }
  }

  /** Starting at the first chain with room, the same chains have the same room and all have some. */
  lemma FitsFrom(room: seq<nat>, k: nat, m: nat, n: nat, datlen: nat)
    requires Fits(room, k, m, n, datlen) && k < |room|
    ensures var f := if room[k] == 0 then k + 1 else k;
      f <= m || datlen == 0
    ensures var f := if room[k] == 0 then k + 1 else k;
      f <= m ==> Sum(room[f..m]) >= datlen && m - f <= n
  {
    if k < m {
      var f := if room[k] == 0 then k + 1 else k;
      if room[k] == 0 {
        SkipFirst(room[k..m]);
        assert room[k..m][1..] == room[k + 1..m];
      }
      AllPositive(room[f..m]);
    } else if room[k] != 0 {
      AllPositive(room[k..k]);
    }
  }

  /** One more vector of the walk covers one more chain. */
  lemma CoverNext(buf: Evbuffer, vecs: seq<IoVec>, f: nat, v: IoVec, room: seq<nat>)
    requires Covers(buf, vecs, f) && RoomIs(buf, room) && f + |vecs| < |buf.chains|
    requires StartsAt(v, buf.chains[f + |vecs|]) && v.len == buf.chains[f + |vecs|].SpaceLen()
    requires Room(vecs) == Sum(room[f..f + |vecs|])
    ensures Covers(buf, vecs + [v], f) && Room(vecs + [v]) == Sum(room[f..f + |vecs| + 1]) == Room(vecs) + v.len
  {
    hide Room, Sum, RoomIs, Covers, StartsAt;
    RoomNext(vecs, v);
    RoomAt(buf, room, f + |vecs|);
    CoverOneMore(buf, vecs, f, v);
    SumNext(room, f, |vecs|, v.len);
  }

  lemma CoverOneMore(buf: Evbuffer, vecs: seq<IoVec>, f: nat, v: IoVec)
    requires Covers(buf, vecs, f) && f + |vecs| < |buf.chains|
    requires StartsAt(v, buf.chains[f + |vecs|]) && v.len == buf.chains[f + |vecs|].SpaceLen()
    ensures Covers(buf, vecs + [v], f)
  {
    hide StartsAt;
  }

  lemma RoomNext(vecs: seq<IoVec>, v: IoVec)
    ensures Room(vecs + [v]) == Room(vecs) + v.len
  {
    assert (vecs + [v])[..|vecs|] == vecs;
  }

  lemma SumNext(room: seq<nat>, f: nat, i: nat, r: nat)
    requires f + i < |room| && room[f + i] == r
    ensures Sum(room[f..f + i + 1]) == Sum(room[f..f + i]) + r
  {
    assert room[f..f + i + 1][..i] == room[f..f + i];
  }

  lemma NotYet(room: seq<nat>, f: nat, i: nat, m: nat, n: nat, datlen: nat)
    requires f <= m <= |room| && Sum(room[f..m]) >= datlen && m - f <= n && f + i <= |room|
    requires Sum(room[f..f + i]) < datlen
    ensures f + i < m
  {
    if f + i >= m {
      var s := room[f..f + i];
      assert s[..m - f] == room[f..m];
      SumMono(s, m - f);
    }
  }

  lemma NoVectors(buf: Evbuffer, f: nat, room: seq<nat>)
    requires f <= |buf.chains| && RoomIs(buf, room)
    ensures Covers(buf, [], f) && Room([]) == Sum(room[f..f]) == 0
  {}

  /** evbuffer_read_setup_vecs_ with exact = 0, after evbuffer_expand_fast_ made the room. */
  method ReadSetupVecs(buf: Evbuffer, howmuch: int, n: nat, ghost m: nat, ghost room: seq<nat>)
      returns (r: int, vecs: seq<IoVec>)
    requires buf.Shape() && buf.chains != [] && RoomIs(buf, room) && (howmuch >= 0 ==> Fits(room, buf.k, m, n, howmuch))
    ensures r == if howmuch < 0 then -1 else |vecs|
    ensures howmuch >= 0 ==> |vecs| <= n && Room(vecs) >= howmuch
    ensures howmuch > 0 ==> Covers(buf, vecs, FirstSpace(buf))
    ensures howmuch <= 0 ==> vecs == []
  {
    hide Evbuffer.Body, Flatten, Chain.Holds, Sum, CountPositive, Fits, RoomIs, Covers, Room;
    buf.Front();
    buf.LinkAt(buf.k);
    buf.At(buf.k);
    vecs := [];
    assert Room(vecs) >= 0;
    if howmuch < 0 {
      return -1, vecs;
    }
    if howmuch == 0 {
      return 0, vecs;
    }
    RoomAt(buf, room, buf.k);
    FitsFrom(room, buf.k, m, n, howmuch);
    var chain := buf.Deref(buf.lwd);
    ghost var f := buf.k;
    if chain.SpaceLen() == 0 {
      chain := chain.next;
      f := f + 1;
    }
    FitsBound(room, buf.k, m, n, howmuch);
    NoVectors(buf, f, room);
    var soFar := 0;
    while |vecs| < n && soFar < howmuch
      invariant |vecs| <= n && f + |vecs| <= |buf.chains| && chain == buf.Next(f + |vecs|)
      invariant Covers(buf, vecs, f) && soFar == Room(vecs) == Sum(room[f..f + |vecs|])
    {
      NotYet(room, f, |vecs|, m, n, howmuch);
      buf.At(f + |vecs|);
      var v := IoVec(chain.buffer, chain.misalign + chain.off, chain.SpaceLen());
      CoverNext(buf, vecs, f, v, room);
      vecs := vecs + [v];
      soFar := soFar + v.len;
      chain := chain.next;
    }
    if soFar < howmuch {
      NotYet(room, f, |vecs|, m, n, howmuch);
    }
    r := |vecs|;
  }

  lemma FitsBound(room: seq<nat>, k: nat, m: nat, n: nat, datlen: nat)
    requires Fits(room, k, m, n, datlen)
    ensures k <= m <= |room|
  {}

  /** evbuffer_reserve_space.  With one vector the room is in chain number at; with more, the vectors
      are the room of the first chains that have some.  A negative size is converted to a very large
      one: it is refused, or does not get past the assertion of evbuffer_expand_singlechain. */
  method ReserveSpace(buf: Evbuffer, size: int, n: int, malloc: Malloc)
      returns (r: int, vecs: seq<IoVec>, aborted: bool, ghost at: nat)
    requires buf.Valid() && SSIZE_MIN <= size <= SSIZE_MAX
    modifies buf, buf.Repr
    ensures aborted <==> !buf.freezeEnd && n == 1 && old(ResizeWraps(buf, AsSize(size), malloc))
    ensures size >= 0 ==> !aborted
    ensures size < 0 ==> r == -1
    ensures buf.Valid() && fresh(buf.Repr - old(buf.Repr))
    ensures buf.Contents() == old(buf.Contents()) && buf.totalLen == old(buf.totalLen)
    ensures buf.nAdd == old(buf.nAdd) && buf.nDel == old(buf.nDel)
    ensures buf.freezeStart == old(buf.freezeStart) && buf.freezeEnd == old(buf.freezeEnd)
    ensures buf.freezeEnd || n < 1 ==> r == -1
    ensures r == -1 || 0 <= r == |vecs| <= n
    ensures r >= 0 ==> 0 <= size <= Room(vecs) && buf.chains != []
    ensures r >= 0 && n == 1 ==> r == 1 && buf.k <= at <= buf.k + 1 && Covers(buf, vecs, at)
    ensures r >= 0 && n >= 2 ==> at == FirstSpace(buf) && if size > 0 then Covers(buf, vecs, at) else vecs == []
    ensures !buf.freezeEnd && n >= 1 && 0 <= size && size + MAX_TO_COPY <= MAX_REQUEST && NeverFails(malloc) ==> r >= 0
    ensures n >= 2 && |old(buf.chains)| - old(buf.k) < n && r >= 0 ==>
      && AtMostOneMore(buf, old(buf.chains), old(buf.parts), size)
      && forall c: Chain :: c in old(buf.chains) ==> c.SpaceLen() >= old(c.SpaceLen())
    ensures n == 1 && !buf.freezeEnd && old(UsesNext(buf, AsSize(size))) ==>
      at == old(FirstSpace(buf)) + 1 && unchanged(buf) && unchanged(buf.Repr)
  {
    hide Evbuffer.Body, Flatten, Chain.Holds, Sum, CountPositive, Fits, RoomIs, ExactAt;
    at := 0;
    if buf.freezeEnd || n < 1 {
      return -1, [], false, at;
    }
    if n == 1 {
      var chain;
      NothingWraps(buf, AsSize(size), malloc);
      chain, aborted, at := ExpandSinglechain(buf, AsSize(size), malloc);
      if chain == null {
        return -1, [], aborted, at;
      }
      buf.At(at);
      vecs := [IoVec(chain.buffer, chain.misalign + chain.off, chain.SpaceLen())];
      assert vecs[..0] == [];
      return 1, vecs, aborted, at;
    }
    aborted := false;
    ghost var m, room;
    var e;
    e, m, room := ExpandFast(buf, AsSize(size), n, malloc);
    if e < 0 {
      return -1, [], false, at;
    }
    at := FirstSpace(buf);
    r, vecs := ReadSetupVecs(buf, size, n, m, room);
  }

  /** What a signed size can express never wraps. */
  lemma NothingWraps(buf: Evbuffer, datlen: nat, malloc: Malloc)
    requires buf.Shape()
    ensures datlen <= SSIZE_MAX ==> !ResizeWraps(buf, datlen, malloc)
  {}

  /** ws is a reservation of which only the first vectors, and of these only the first bytes, are used. */
  predicate UsedPartOf(ws: seq<IoVec>, vecs: seq<IoVec>) {
    |ws| <= |vecs| && forall i :: 0 <= i < |ws| ==>
      ws[i].buffer == vecs[i].buffer && ws[i].start == vecs[i].start && ws[i].len <= vecs[i].len
  }

  /** Any used part of a reservation can be committed, except that a reservation of one vector can be
      refused: exactly when its chain is neither the first with room nor the last. */
  lemma CommitReserved(buf: Evbuffer, vecs: seq<IoVec>, at: nat, ws: seq<IoVec>)
    requires buf.Valid() && !buf.freezeEnd && buf.chains != [] && Covers(buf, vecs, at) && UsedPartOf(ws, vecs)
    ensures at == FirstSpace(buf) ==> CommitOk(buf, ws)
    ensures LastOnly(buf, ws) ==> at + 1 == |buf.chains|
    ensures |ws| == 1 ==> (CommitOk(buf, ws) <==> at == FirstSpace(buf) || at + 1 == |buf.chains|)
  {
    buf.Inside();
    if |ws| > 0 {
      var w, c := ws[0], buf.chains[at];
      assert StartsAt(vecs[0], c) && w.buffer == c.buffer;
      buf.Distinct(at);
      if |ws| == 1 && at != FirstSpace(buf) && at + 1 != |buf.chains| {
        assert VecsMatch(buf, ws, FirstSpace(buf)) ==> StartsAt(ws[0], buf.chains[FirstSpace(buf)]);
      }
    }
  }

  // ----- reserve, write, commit

  /** Writing behind the data of the chains changes nothing the buffer holds. */
  twostate lemma SpareWritten(new buf: Evbuffer)
    requires old(allocated(buf)) && old(buf.Body())
    requires unchanged(buf) && unchanged(buf.chains)
    requires forall i {:trigger buf.chains[i]} :: 0 <= i < |buf.chains| ==>
      var c := buf.chains[i]; forall j :: 0 <= j < c.misalign + c.off && j < c.buffer.Length ==>
        c.buffer[j] == old(c.buffer[j])
    ensures buf.Body()
  {
    forall i {:trigger buf.chains[i]} | 0 <= i < |buf.chains|
      ensures buf.chains[i].Holds(buf.parts[i])
    {
      var c, e := buf.chains[i], buf.parts[i];
      assert old(c.Holds(e));
    }
  }

  /** The user's part: put data into the reserved memory, a vector at a time. */
  method WriteVecs(buf: Evbuffer, vecs: seq<IoVec>, data: bytes, ghost f: nat)
      returns (ws: seq<IoVec>, ghost bs: seq<bytes>)
    requires buf.Shape() && Covers(buf, vecs, f) && |data| <= Room(vecs)
    modifies set i | 0 <= i < |vecs| :: vecs[i].buffer
    ensures buf.Body() && UsedPartOf(ws, vecs)
    ensures VecBytes(ws, bs) && Flatten(bs) == data
  {
    hide Evbuffer.Body, Flatten, Chain.Holds, Covers, Room, VecBytes;
    buf.Front();
    ws, bs := [], [];
    NoBytesYet(vecs, data);
    var pos := 0;
    while pos < |data|
      invariant pos <= |data| && |ws| <= |vecs| && UsedPartOf(ws, vecs)
      invariant pos == |data| || pos == Room(vecs[..|ws|])
      invariant buf.Body() && VecBytes(ws, bs) && Flatten(bs) == data[..pos]
      decreases |data| - pos, |vecs| - |ws|
    {
      ghost var i := |ws|;
      AllVecs(vecs);
      var v := vecs[|ws|];
      RoomTake(vecs, i);
      var n := if v.len < |data| - pos then v.len else |data| - pos;
      WriteOne(buf, vecs, v, data[pos..pos + n], f, ws, bs);
      SliceJoin(data, 0, pos, pos + n);
      TakeAll(data);
      FlattenSnoc(bs, data[pos..pos + n]);
      ws := ws + [IoVec(v.buffer, v.start, n)];
      bs := bs + [data[pos..pos + n]];
      pos := pos + n;
    }
    TakeAll(data);
  }

  lemma TakeAll(data: bytes)
    ensures data[..|data|] == data && forall i :: 0 <= i <= |data| ==> data[0..i] == data[..i]
  {}

  lemma AllVecs(vecs: seq<IoVec>)
    ensures vecs[..|vecs|] == vecs
  {}

  lemma VecsInside(buf: Evbuffer, vecs: seq<IoVec>, f: nat)
    requires buf.Body() && Covers(buf, vecs, f)
    ensures forall i :: 0 <= i < |vecs| ==> vecs[i].buffer in buf.Repr
  {
    forall i | 0 <= i < |vecs|
      ensures vecs[i].buffer in buf.Repr
    {
      assert StartsAt(vecs[i], buf.chains[f + i]);
      buf.At(f + i);
    }
  }

  lemma NoBytesYet(vecs: seq<IoVec>, data: bytes)
    ensures Room(vecs[..0]) == 0 && VecBytes([], []) && Flatten([]) == data[..0]
  {}

  lemma RoomTake(vecs: seq<IoVec>, i: nat)
    requires i < |vecs|
    ensures Room(vecs[..i + 1]) == Room(vecs[..i]) + vecs[i].len
  {
    assert vecs[..i + 1] == vecs[..i] + [vecs[i]];
    RoomNext(vecs[..i], vecs[i]);
  }

  /** Write into the memory of one vector, behind those that hold bs already. */
  method WriteOne(buf: Evbuffer, vecs: seq<IoVec>, v: IoVec, d: bytes, ghost f: nat, ghost ws: seq<IoVec>,
          ghost bs: seq<bytes>)
    requires buf.Body() && Covers(buf, vecs, f) && |ws| < |vecs| && v == vecs[|ws|] && |d| <= v.len
    requires UsedPartOf(ws, vecs) && VecBytes(ws, bs)
    modifies v.buffer
    ensures buf.Body()
    ensures VecBytes(ws + [IoVec(v.buffer, v.start, |d|)], bs + [d])
  {
    hide Evbuffer.Body, Chain.Holds, VecBytes;
    buf.Front();
    ghost var c := f + |ws|;
    assert StartsAt(v, buf.chains[c]);
    buf.At(c);
    buf.Distinct(c);
    forall j | 0 <= j < |d| {
      v.buffer[v.start + j] := d[j];
    }
    SpareWritten(buf);
    OtherVecs(buf, vecs, f, ws, bs, v);
    OneMoreVec(ws, bs, v, d);
  }

  twostate lemma OtherVecs(new buf: Evbuffer, new vecs: seq<IoVec>, new f: nat, new ws: seq<IoVec>,
          new bs: seq<bytes>, new v: IoVec)
    requires old(allocated(buf) && allocated(vecs) && allocated(ws))
    requires old(buf.Body() && Covers(buf, vecs, f) && VecBytes(ws, bs))
    requires UsedPartOf(ws, vecs) && |ws| < |vecs| && v == vecs[|ws|]
    requires forall i {:trigger vecs[i]} :: 0 <= i < |vecs| && vecs[i].buffer != v.buffer ==> unchanged(vecs[i].buffer)
    ensures VecBytes(ws, bs)
  {
    forall i {:trigger ws[i]} | 0 <= i < |ws|
      ensures ws[i].buffer != v.buffer && unchanged(ws[i].buffer)
    {
      assert ws[i].buffer == vecs[i].buffer;
      assert old(StartsAt(vecs[i], buf.chains[f + i]));
      assert old(StartsAt(v, buf.chains[f + |ws|]));
    }
  }

  lemma OneMoreVec(ws: seq<IoVec>, bs: seq<bytes>, v: IoVec, d: bytes)
    requires VecBytes(ws, bs) && v.start + |d| <= v.buffer.Length && v.buffer[v.start..v.start + |d|] == d
    ensures VecBytes(ws + [IoVec(v.buffer, v.start, |d|)], bs + [d])
  {
    var us := ws + [IoVec(v.buffer, v.start, |d|)];
    forall i {:trigger us[i]} | 0 <= i < |us|
      ensures var u := us[i]; u.start + u.len <= u.buffer.Length && u.buffer[u.start..u.start + u.len] == (bs + [d])[i]
    {
      if i < |ws| {
        assert us[i] == ws[i];
      }
    }
  }

  /** Reserve, write, commit: the bytes written are appended, and nothing else happens. */
  method WriteDirect(buf: Evbuffer, data: bytes, n: int, malloc: Malloc) returns (r: int)
    requires buf.Valid() && |data| <= SSIZE_MAX
    modifies buf, buf.Repr
    ensures buf.Valid() && fresh(buf.Repr - old(buf.Repr))
    ensures r == 0 || r == -1
    ensures buf.Contents() == old(buf.Contents()) + if r == 0 then data else []
    ensures buf.nAdd == old(buf.nAdd) + (if r == 0 then |data| else 0) && buf.nDel == old(buf.nDel)
    ensures buf.freezeStart == old(buf.freezeStart) && buf.freezeEnd == old(buf.freezeEnd)
    ensures old(buf.freezeEnd) || n < 1 ==> r == -1
    ensures !old(buf.freezeEnd) && n >= 2 && |data| + MAX_TO_COPY <= MAX_REQUEST && NeverFails(malloc) ==> r == 0
  {
    hide Evbuffer.Body, Flatten, Chain.Holds, ExactAt, Room, VecBytes, Covers;
    var got, vecs;
    ghost var at;
    var aborted;
    got, vecs, aborted, at := ReserveSpace(buf, |data|, n, malloc);
    assert buf.Contents() + [] == buf.Contents();
    if got < 0 {
      return -1;
    }
    if got == 0 {
      NoBytesYet(vecs, data);
      AllVecs(vecs);
      return 0;
    }
    var ws;
    ghost var bs;
    buf.Front();
    VecsInside(buf, vecs, at);
    ws, bs := WriteVecs(buf, vecs, data, at);
    buf.Inside();
    CommitReserved(buf, vecs, at, ws);
    r := CommitSpace(buf, ws, bs);
  }
}
