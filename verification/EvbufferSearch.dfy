/** Positions in an evbuffer and searching: evbuffer_ptr_set, evbuffer_ptr_memcmp, evbuffer_search_range. */
module EvbufferSearch {
  import opened Bytes
  import opened CInts
  import opened EvbufferRead
  import opened Evbuffers
  import opened Options

  /** PTR_NOT_FOUND */
  const NOT_FOUND := EvPtr(-1, null, 0)

  // ----- positions

  /** p denotes a position in chain i, or the end when there is no chain i. */
  ghost predicate Here(buf: Evbuffer, p: EvPtr, i: nat)
    requires |buf.parts| == |buf.chains|
    reads buf`chains, buf`parts
  {
    && i <= |buf.chains| && p.chain == buf.Next(i)
    && (if i < |buf.parts| then p.posInChain <= |buf.parts[i]| else p.posInChain == 0)
    && p.pos == |Flatten(buf.parts[..i])| + p.posInChain
  }

  lemma HereIs(buf: Evbuffer, p: EvPtr) returns (i: nat)
    requires buf.Body() && buf.PtrValid(p)
    ensures |buf.parts| == |buf.chains| && Here(buf, p, i) && p.pos <= |buf.Contents()|
  {
    hide Evbuffer.Body, Evbuffer.PtrValid, Flatten;
    i := PtrChain(buf, p);
  }

  lemma HereValid(buf: Evbuffer, p: EvPtr, i: nat)
    requires buf.Body() && |buf.parts| == |buf.chains| && Here(buf, p, i)
    ensures buf.PtrValid(p) && 0 <= p.pos <= |buf.Contents()|
    ensures p.chain == null <==> i == |buf.chains|
    ensures i == |buf.chains| ==> p.pos == |buf.Contents()|
  {
    hide Evbuffer.Body, Flatten;
    if i < |buf.chains| {
      assert buf.PtrAt(p, i);
      FlattenPiece(buf.parts, i, 0, p.posInChain);
    } else {
      AllParts(buf.parts);
    }
  }

  lemma HereFirst(buf: Evbuffer)
    requires buf.Body()
    ensures |buf.parts| == |buf.chains| && Here(buf, EvPtr(0, buf.first, 0), 0)
  {
    hide Evbuffer.Body, Flatten;
    buf.Front();
    NoBytes(buf.parts);
  }

  /** The position behind chain i. */
  lemma HereNext(buf: Evbuffer, p: EvPtr, i: nat)
    requires buf.Body() && |buf.parts| == |buf.chains| && Here(buf, p, i) && i < |buf.chains|
    ensures Here(buf, EvPtr(p.pos + |buf.parts[i]| - p.posInChain, buf.Next(i + 1), 0), i + 1)
  {
    hide Evbuffer.Body, Flatten;
    FlattenStep(buf.parts, i);
  }

  /** A position n bytes further on in the same chain, and the bytes in between. */
  lemma HereWithin(buf: Evbuffer, p: EvPtr, i: nat, n: nat)
    requires buf.Body() && |buf.parts| == |buf.chains| && Here(buf, p, i) && i < |buf.chains|
    requires p.posInChain + n <= |buf.parts[i]|
    ensures Here(buf, EvPtr(p.pos + n, p.chain, p.posInChain + n), i)
    ensures 0 <= p.pos && p.pos + n <= |buf.Contents()|
    ensures buf.Contents()[p.pos..p.pos + n] == buf.parts[i][p.posInChain..p.posInChain + n]
  {
    hide Evbuffer.Body, Flatten;
    FlattenPiece(buf.parts, i, p.posInChain, p.posInChain + n);
  }

  // ----- evbuffer_ptr_set

  datatype How = Set | Add

  /** evbuffer_ptr_set: r tells whether the position exists; if so q denotes it, and it denotes a byte
      unless it is the end. */
  method PtrSet(buf: Evbuffer, p: EvPtr, position: nat, how: How) returns (r: int, q: EvPtr)
    requires buf.Body() && position <= SIZE_MAX && |buf.Contents()| <= SSIZE_MAX
    requires how.Add? && p.pos >= 0 ==> |buf.parts| == |buf.chains| && buf.PtrValid(p)
    ensures |buf.parts| == |buf.chains|
    ensures how.Add? && (p.pos < 0 || SIZE_MAX - position < p.pos) ==> r == -1 && q == p
    ensures how.Set? || !(p.pos < 0 || SIZE_MAX - position < p.pos) ==>
      var target := if how.Set? then position else p.pos + position;
      if target <= |buf.Contents()|
      then
        && r == 0 && q.pos == target && buf.PtrValid(q)
        && if q.chain == null then target == |buf.Contents()| else q.posInChain < q.chain.off
      else r == -1 && q == NOT_FOUND
  {
    hide Evbuffer.Body, Flatten, Evbuffer.PtrValid, Here;
    buf.Front();
    var left := position;
    var chain, within, target;
    ghost var i;
    if how.Set? {
      chain, within, target := buf.first, 0, position;
      i := 0;
      HereFirst(buf);
    } else {
      if p.pos < 0 || SIZE_MAX - position < p.pos {
        return -1, p;
      }
      chain, within, target := p.chain, p.posInChain, p.pos + position;
      i := HereIs(buf, p);
      InChain(buf, p, i);
    }
    r, q := PtrWalk(buf, chain, within, left, target, i);
  }

  lemma InChain(buf: Evbuffer, p: EvPtr, i: nat)
    requires |buf.parts| == |buf.chains| && Here(buf, p, i)
    ensures p.posInChain <= p.pos && i <= |buf.chains| && p.chain == buf.Next(i)
    ensures if i < |buf.chains| then p.posInChain <= |buf.parts[i]| else p.posInChain == 0
  {}

  /** The loop of evbuffer_ptr_set: left bytes further on from the given place. */
  method PtrWalk(buf: Evbuffer, chain0: Chain?, within0: nat, left0: nat, target: nat, ghost i0: nat)
      returns (r: int, q: EvPtr)
    requires buf.Body() && |buf.parts| == |buf.chains| && left0 <= target
    requires Here(buf, EvPtr(target - left0, chain0, within0), i0)
    ensures if target <= |buf.Contents()|
      then
        && r == 0 && q.pos == target && buf.PtrValid(q)
        && if q.chain == null then target == |buf.Contents()| else q.posInChain < q.chain.off
      else r == -1 && q == NOT_FOUND
  {
    hide Evbuffer.Body, Flatten, Evbuffer.PtrValid, Here;
    var chain := chain0;
    var within: nat, left: nat := within0, left0;
    ghost var i := i0;
    InChain(buf, EvPtr(target - left, chain, within), i);
    while chain != null && within + left >= chain.off
      invariant left <= target && i <= |buf.chains| && chain == buf.Next(i)
      invariant i < |buf.chains| ==> within <= |buf.parts[i]|
      invariant Here(buf, EvPtr(target - left, chain, within), i)
      decreases |buf.chains| - i
    {
      buf.At(i);
      HereNext(buf, EvPtr(target - left, chain, within), i);
      left := left - (chain.off - within);
      chain := chain.next;
      within := 0;
      i := i + 1;
    }
    HereValid(buf, EvPtr(target - left, chain, within), i);
    if chain != null {
      buf.At(i);
      HereWithin(buf, EvPtr(target - left, chain, within), i, left);
      q := EvPtr(target, chain, within + left);
      HereValid(buf, q, i);
      return 0, q;
    } else if left == 0 {
      InChain(buf, EvPtr(target - left, chain, within), i);
      return 0, EvPtr(target, null, 0);
    }
    return -1, NOT_FOUND;
  }

  /** evbuffer_ptr_subtract */
  method PtrSubtract(buf: Evbuffer, p: EvPtr, howfar: nat) returns (r: int, q: EvPtr)
    requires buf.Body() && |buf.Contents()| <= SSIZE_MAX
    requires p.pos >= 0 ==> |buf.parts| == |buf.chains| && buf.PtrValid(p)
    ensures |buf.parts| == |buf.chains|
    ensures r == if howfar <= p.pos then 0 else -1
    ensures r == 0 ==> q.pos == p.pos - howfar && buf.PtrValid(q)
    ensures r == 0 && howfar > 0 ==> q.chain != null && q.posInChain < q.chain.off
    ensures r == -1 ==> q == p
  {
    hide Evbuffer.Body, Flatten, Evbuffer.PtrValid;
    buf.Front();
    if p.pos < 0 || howfar > p.pos {
      return -1, p;
    }
    ghost var i := HereIs(buf, p);
    if p.chain != null && howfar <= p.posInChain {
      r, q := 0, EvPtr(p.pos - howfar, p.chain, p.posInChain - howfar);
      HereValid(buf, q, i);
      buf.At(i);
    } else {
      r, q := PtrSet(buf, p, p.pos - howfar, Set);
    }
  }

  // ----- evbuffer_ptr_memcmp

  /** The sign of memcmp on equally long strings. */
  function Memcmp(a: bytes, b: bytes): (r: int)
    requires |a| == |b|
    ensures r == 0 <==> a == b
  {
    if a == [] then 0
    else if a[0] < b[0] then -1
    else if a[0] > b[0] then 1
    else
      assert a == [a[0]] + a[1..] && b == [b[0]] + b[1..];
      Memcmp(a[1..], b[1..])
  }

  lemma {:induction false} MemcmpConcat(a: bytes, b: bytes, c: bytes, d: bytes)
    requires |a| == |b| && |c| == |d|
    ensures Memcmp(a + c, b + d) == if Memcmp(a, b) != 0 then Memcmp(a, b) else Memcmp(c, d)
  {
    if a == [] {
      assert a + c == c && b + d == d;
    } else {
      assert (a + c)[1..] == a[1..] + c && (b + d)[1..] == b[1..] + d;
      MemcmpConcat(a[1..], b[1..], c, d);
    }
  }

  /** Compare with the rest of chain i, or with less if mem ends first. */
  method ComparePiece(buf: Evbuffer, at: nat, mem: bytes, done: nat, chain: Chain, within: nat, ghost i: nat)
      returns (n: nat, r: int)
    requires buf.Body() && |buf.parts| == |buf.chains| && i < |buf.chains| && chain == buf.chains[i]
    requires within <= |buf.parts[i]|
    requires done < |mem| && at + |mem| <= |buf.Contents()| && Here(buf, EvPtr(at + done, chain, within), i)
    requires buf.Contents()[at..at + done] == mem[..done]
    ensures done + n <= |mem| && (done + n < |mem| ==> Here(buf, EvPtr(at + (done + n), buf.Next(i + 1), 0), i + 1))
    ensures if r != 0 then Memcmp(buf.Contents()[at..at + |mem|], mem) == r
      else buf.Contents()[at..at + (done + n)] == mem[..done + n]
  {
    hide Evbuffer.Body, Flatten, Evbuffer.PtrValid, Here, Memcmp, Chain.Holds;
    buf.At(i);
    ghost var cur := EvPtr(at + done, chain, within);
    n := if |mem| - done + within > chain.off then chain.off - within else |mem| - done;
    var piece := chain.Read(within, within + n, buf.parts[i]);
    HereWithin(buf, cur, i, n);
    HereNext(buf, cur, i);
    r := Memcmp(piece, mem[done..done + n]);
    Compared(buf.Contents(), at, mem, done, n, piece);
  }

  /** evbuffer_ptr_memcmp, also across chains. */
  method PtrMemcmp(buf: Evbuffer, p: EvPtr, mem: bytes) returns (r: int)
    requires buf.Shape() && buf.totalLen <= SSIZE_MAX && |mem| <= SIZE_MAX
    requires p.pos >= 0 ==> |buf.parts| == |buf.chains| && buf.PtrValid(p)
    ensures var s, at := buf.Contents(), p.pos;
      r == if at >= 0 && at + |mem| <= |s| then Memcmp(s[at..at + |mem|], mem) else -1
  {
    hide Evbuffer.Body, Flatten, Evbuffer.PtrValid, Here, Memcmp;
    buf.Front();
    if p.pos < 0 || SIZE_MAX - |mem| < p.pos || p.pos + |mem| > buf.totalLen {
      return -1;
    }
    ghost var i := HereIs(buf, p);
    InChain(buf, p, i);
    var chain := p.chain;
    var within: nat, done: nat := p.posInChain, 0;
    NothingCompared(buf.Contents(), p.pos, mem);
    while done < |mem| && chain != null
      invariant done <= |mem| && i <= |buf.chains| && chain == buf.Next(i)
      invariant i < |buf.chains| ==> within <= |buf.parts[i]|
      invariant done < |mem| ==> Here(buf, EvPtr(p.pos + done, chain, within), i)
      invariant buf.Contents()[p.pos..p.pos + done] == mem[..done]
      decreases |buf.chains| - i
    {
      var n;
      n, r := ComparePiece(buf, p.pos, mem, done, chain, within, i);
      if r != 0 {
        return;
      }
      buf.At(i);
      done := done + n;
      within := 0;
      chain := chain.next;
      i := i + 1;
    }
    if done < |mem| {
      HereValid(buf, EvPtr(p.pos + done, chain, within), i);
    }
    r := 0;
    AllCompared(buf.Contents(), p.pos, mem, done);
  }

  lemma NothingCompared(s: bytes, at: nat, mem: bytes)
    requires at <= |s|
    ensures s[at..at + 0] == mem[..0]
  {}

  lemma AllCompared(s: bytes, at: nat, mem: bytes, done: nat)
    requires at + |mem| <= |s| && done == |mem| && s[at..at + done] == mem[..done]
    ensures Memcmp(s[at..at + |mem|], mem) == 0
  {
    assert mem[..done] == mem;
  }

  lemma Compared(s: bytes, at: nat, mem: bytes, done: nat, n: nat, piece: bytes)
    requires at + |mem| <= |s| && done + n <= |mem| && s[at..at + done] == mem[..done]
    requires piece == s[at + done..at + done + n]
    ensures var r := Memcmp(piece, mem[done..done + n]);
      if r != 0 then Memcmp(s[at..at + |mem|], mem) == r else s[at..at + (done + n)] == mem[..done + n]
  {
    var r := Memcmp(piece, mem[done..done + n]);
    var a, b := s[at..at + done], mem[..done];
    if r == 0 {
      SliceJoin(s, at, at + done, at + done + n);
      assert mem[..done + n] == b + mem[done..done + n];
    } else {
      var u, v := s[at + done + n..at + |mem|], mem[done + n..];
      MemcmpConcat(a, b, piece + u, mem[done..done + n] + v);
      MemcmpConcat(piece, mem[done..done + n], u, v);
      SliceJoin(s, at, at + done, at + done + n);
      SliceJoin(s, at, at + done + n, at + |mem|);
      Assoc(a, piece, u);
      assert mem == b + (mem[done..done + n] + v);
    }
  }

  // ----- evbuffer_search_range

  lemma OccursFirst(s: bytes, what: bytes, i: int)
    requires what != [] && Occurs(s, what, i)
    ensures s[i] == what[0]
  {
    assert s[i..i + |what|][0] == s[i];
  }

  /** The first p bytes of the piece of s at position at rule out an occurrence there. */
  lemma NoFirstByte(s: bytes, what: bytes, from: int, at: nat, piece: bytes, p: nat)
    requires what != [] && p <= |piece| && at + |piece| <= |s| && s[at..at + |piece|] == piece
    requires NoneBetween(s, what, from, at)
    requires forall j :: 0 <= j < p ==> piece[j] != what[0]
    ensures NoneBetween(s, what, from, at + p)
  {
    forall j | at <= j < at + p
      ensures !Occurs(s, what, j)
    {
      assert s[at..at + |piece|][j - at] == s[j];
      if Occurs(s, what, j) {
        OccursFirst(s, what, j);
      }
    }
  }

  lemma NoneFrom(s: bytes, what: bytes, from: int, to: int)
    requires NoneBetween(s, what, from, to) && !Occurs(s, what, to)
    ensures NoneBetween(s, what, from, to + 1)
  {}

  /** memchr: the first c in s, or |s|. */
  method Memchr(s: bytes, c: byte) returns (i: nat)
    ensures i <= |s| && (i < |s| ==> s[i] == c) && forall j :: 0 <= j < i ==> s[j] != c
  {
    i := 0;
    while i < |s| && s[i] != c
      invariant i <= |s| && forall j :: 0 <= j < i ==> s[j] != c
    {
      i := i + 1;
    }
  }

  /** What evbuffer_search_range promises: the first occurrence from start on that ends by end. */
  ghost predicate SearchResult(s: bytes, what: bytes, from: int, end: Option<int>, at: int) {
    if at == -1 then
      forall j :: from <= j ==> !(Occurs(s, what, j) && (end.Some? ==> j + |what| <= end.value))
    else
      from <= at && Occurs(s, what, at) && NoneBetween(s, what, from, at) && (end.Some? ==> at + |what| <= end.value)
  }

  ghost function EndPos(end: Option<EvPtr>): Option<int> {
    if end.Some? then Some(end.value.pos) else None
  }

  /** Everything from the chain behind the one end lies in would stick out. */
  lemma BehindEnd(buf: Evbuffer, end: EvPtr, i: nat)
    requires buf.Body() && |buf.parts| == |buf.chains| && i < |buf.chains| && buf.PtrValid(end)
    requires end.chain == buf.chains[i]
    ensures end.pos <= |Flatten(buf.parts[..i])| + |buf.parts[i]|
  {
    hide Evbuffer.Body, Flatten, Evbuffer.PtrValid, Here;
    buf.Distinct(i);
    var e := HereIs(buf, end);
    InChain(buf, end, e);
    assert e == i;
    HereNext(buf, end, e);
    InNext(buf, end, e);
  }

  lemma InNext(buf: Evbuffer, p: EvPtr, i: nat)
    requires |buf.parts| == |buf.chains| && Here(buf, p, i) && i < |buf.chains|
    ensures p.pos <= |Flatten(buf.parts[..i])| + |buf.parts[i]| && p.pos - p.posInChain == |Flatten(buf.parts[..i])|
  {}

  lemma FoundResult(s: bytes, what: bytes, from: int, end: Option<int>, at: int)
    requires from <= at && Occurs(s, what, at) && NoneBetween(s, what, from, at)
    ensures SearchResult(s, what, from, end, if end.Some? && at + |what| > end.value then -1 else at)
  {}

  lemma NotFoundResult(s: bytes, what: bytes, from: int, end: Option<int>, to: int)
    requires NoneBetween(s, what, from, to) && what != []
    requires to >= |s| || (end.Some? && end.value <= to)
    ensures SearchResult(s, what, from, end, -1)
  {}

  /** The first byte was found at pos: either this is the answer, or look one byte further on. */
  method SearchAt(buf: Evbuffer, what: bytes, at: EvPtr, chain: Chain, end: Option<EvPtr>, ghost from: int,
          ghost i: nat)
      returns (done: bool, pos: EvPtr, ghost next: nat)
    requires buf.Shape() && buf.totalLen <= SSIZE_MAX && 0 < |what| <= SSIZE_MAX
    requires |buf.parts| == |buf.chains| && i < |buf.chains| && chain == buf.chains[i] && at.chain == chain
    requires Here(buf, at, i)
    requires at.posInChain < |buf.parts[i]|
    requires from <= at.pos && NoneBetween(buf.Contents(), what, from, at.pos)
    ensures done ==> SearchResult(buf.Contents(), what, from, EndPos(end), pos.pos)
    ensures done ==> if pos.pos == -1 then pos == NOT_FOUND else buf.PtrValid(pos)
    ensures !done ==> i <= next <= |buf.chains| && Here(buf, pos, next) && pos.pos == at.pos + 1
    ensures !done ==> NoneBetween(buf.Contents(), what, from, pos.pos)
  {
    hide Evbuffer.Body, Flatten, Evbuffer.PtrValid, Here, Occurs, NoneBetween, SearchResult;
    buf.At(i);
    HereValid(buf, at, i);
    var diff := PtrMemcmp(buf, at, what);
    CompareMeansOccurs(buf.Contents(), what, at.pos, diff);
    next := i;
    if diff == 0 {
      FoundResult(buf.Contents(), what, from, EndPos(end), at.pos);
      done := true;
      pos := if end.Some? && at.pos + |what| > end.value.pos then NOT_FOUND else at;
      return;
    }
    NoneFrom(buf.Contents(), what, from, at.pos);
    HereWithin(buf, at, i, 1);
    done, pos := false, EvPtr(at.pos + 1, chain, at.posInChain + 1);
    if pos.posInChain == chain.off {
      HereNext(buf, pos, i);
      pos := EvPtr(pos.pos, chain.next, 0);
      next := i + 1;
    }
  }

  /** One round of the loop on the chain that pos lies in: either the answer, or the next place to look. */
  method SearchStep(buf: Evbuffer, what: bytes, at: EvPtr, chain: Chain, end: Option<EvPtr>, ghost from: int,
          ghost i: nat)
      returns (done: bool, pos: EvPtr, ghost next: nat)
    requires buf.Shape() && buf.totalLen <= SSIZE_MAX && 0 < |what| <= SSIZE_MAX
    requires |buf.parts| == |buf.chains| && i < |buf.chains| && chain == buf.chains[i] && at.chain == chain
    requires Here(buf, at, i)
    requires from <= at.pos && NoneBetween(buf.Contents(), what, from, at.pos)
    requires end.Some? ==> buf.PtrValid(end.value) || end.value == NOT_FOUND
    ensures done ==> SearchResult(buf.Contents(), what, from, EndPos(end), pos.pos)
    ensures done ==> if pos.pos == -1 then pos == NOT_FOUND else buf.PtrValid(pos)
    ensures !done ==> i <= next <= |buf.chains| && Here(buf, pos, next) && from <= pos.pos
    ensures !done ==> NoneBetween(buf.Contents(), what, from, pos.pos) && (next > i || at.pos < pos.pos)
  {
    hide Evbuffer.Body, Flatten, Evbuffer.PtrValid, Here, Occurs, NoneBetween, SearchResult;
    buf.At(i);
    InChain(buf, at, i);
    HereWithin(buf, at, i, chain.off - at.posInChain);
    var rest := chain.Read(at.posInChain, chain.off, buf.parts[i]);
    var p := Memchr(rest, what[0]);
    NoFirstByte(buf.Contents(), what, from, at.pos, rest, p);
    if p < |rest| {
      HereWithin(buf, at, i, p);
      done, pos, next := SearchAt(buf, what, EvPtr(at.pos + p, chain, at.posInChain + p), chain, end, from, i);
    } else {
      HereNext(buf, at, i);
      if end.Some? && end.value.chain == chain {
        BehindEnd(buf, end.value, i);
        InNext(buf, at, i);
        NotFoundResult(buf.Contents(), what, from, EndPos(end), at.pos + |rest|);
        return true, NOT_FOUND, i;
      }
      done, next := false, i + 1;
      pos := EvPtr(at.pos + (chain.off - at.posInChain), chain.next, 0);
    }
  }

  lemma CompareMeansOccurs(s: bytes, what: bytes, at: nat, diff: int)
    requires diff == if at + |what| <= |s| then Memcmp(s[at..at + |what|], what) else -1
    ensures diff == 0 <==> Occurs(s, what, at)
  {}

  /** evbuffer_search_range, and evbuffer_search when there is no end.  An empty or huge string is
      found at the start itself. */
  method SearchRange(buf: Evbuffer, what: bytes, start: Option<EvPtr>, end: Option<EvPtr>) returns (pos: EvPtr)
    requires buf.Shape() && buf.totalLen <= SSIZE_MAX
    requires start.Some? ==> buf.PtrValid(start.value) || start.value == NOT_FOUND
    requires end.Some? ==> buf.PtrValid(end.value) || end.value == NOT_FOUND
    ensures what == [] || |what| > SSIZE_MAX ==> pos == if start.Some? then start.value else EvPtr(0, buf.first, 0)
    ensures 0 < |what| <= SSIZE_MAX && start == Some(NOT_FOUND) ==> pos == NOT_FOUND
    ensures 0 < |what| <= SSIZE_MAX && start != Some(NOT_FOUND) ==>
      && SearchResult(buf.Contents(), what, if start.Some? then start.value.pos else 0, EndPos(end), pos.pos)
      && if pos.pos == -1 then pos == NOT_FOUND else buf.PtrValid(pos)
  {
    hide Evbuffer.Body, Flatten, Evbuffer.PtrValid, Here, Occurs, NoneBetween, SearchResult;
    buf.Front();
    pos := if start.Some? then start.value else EvPtr(0, buf.first, 0);
    if |what| == 0 || |what| > SSIZE_MAX {
      return;
    }
    if pos.chain == null && pos.pos < 0 {
      StartNotFound(buf, pos);
      return NOT_FOUND;
    }
    ghost var i;
    i := StartHere(buf, start);
    ghost var from := pos.pos;
    InChain(buf, pos, i);
    NothingSearched(buf.Contents(), what, from);
    while pos.chain != null
      invariant i <= |buf.chains| && Here(buf, pos, i) && from <= pos.pos
      invariant pos.chain == buf.Next(i) && NoneBetween(buf.Contents(), what, from, pos.pos)
      decreases |buf.chains| - i, |buf.Contents()| - pos.pos
    {
      var done;
      ghost var at := pos;
      done, pos, i := SearchStep(buf, what, pos, pos.chain, end, from, i);
      if done {
        return;
      }
      InChain(buf, pos, i);
      HereValid(buf, pos, i);
    }
    HereValid(buf, pos, i);
    NotFoundResult(buf.Contents(), what, from, EndPos(end), pos.pos);
    pos := NOT_FOUND;
  }

  lemma NothingSearched(s: bytes, what: bytes, from: int)
    ensures NoneBetween(s, what, from, from)
  {}

  lemma StartNotFound(buf: Evbuffer, p: EvPtr)
    requires buf.Body() && |buf.parts| == |buf.chains| && (buf.PtrValid(p) || p == NOT_FOUND) && p.pos < 0
    ensures p == NOT_FOUND
  {
    hide Evbuffer.Body, Flatten, Evbuffer.PtrValid, Here;
    if buf.PtrValid(p) {
      var i := HereIs(buf, p);
      HereValid(buf, p, i);
    }
  }

  lemma StartHere(buf: Evbuffer, start: Option<EvPtr>) returns (i: nat)
    requires buf.Body() && |buf.parts| == |buf.chains|
    requires start.Some? ==> start.value != NOT_FOUND && buf.PtrValid(start.value)
    ensures Here(buf, if start.Some? then start.value else EvPtr(0, buf.first, 0), i)
  {
    hide Evbuffer.Body, Flatten, Evbuffer.PtrValid, Here;
    if start.Some? {
      i := HereIs(buf, start.value);
    } else {
      i := 0;
      HereFirst(buf);
    }
  }
}
