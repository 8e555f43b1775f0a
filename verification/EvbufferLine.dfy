/** Lines: evbuffer_search_eol and evbuffer_readln. */
module EvbufferLine {
  import opened Bytes
  import opened CInts
  import opened EvbufferRead
  import opened EvbufferSearch
  import opened Evbuffers
  import opened Options

  const CR: byte := 13
  const LF: byte := 10
  const NUL: byte := 0
  const CHUNK_SZ: nat := 128

  datatype EolStyle = Any | Crlf | CrlfStrict | Lf | Nul

  // ----- first byte of a set, and run of bytes of a set

  ghost predicate NoneIn(s: bytes, stops: set<byte>, from: int, to: int) {
    forall j :: from <= j < to && 0 <= j < |s| ==> s[j] !in stops
  }

  ghost predicate FirstIn(s: bytes, stops: set<byte>, from: int, at: int) {
    from <= at && 0 <= at < |s| && s[at] in stops && NoneIn(s, stops, from, at)
  }

  /** n bytes from at on are in the set, and no more. */
  ghost predicate IsRun(s: bytes, stops: set<byte>, at: int, n: nat) {
    && 0 <= at && at + n <= |s|
    && (forall j :: at <= j < at + n ==> s[j] in stops)
    && (at + n < |s| ==> s[at + n] !in stops)
  }

  /** What a search in a piece says about the whole. */
  lemma PieceOf(s: bytes, at: nat, piece: bytes, stops: set<byte>, from: int, n: nat)
    requires at + |piece| <= |s| && s[at..at + |piece|] == piece && n <= |piece|
    requires NoneIn(s, stops, from, at) && NoneIn(piece, stops, 0, n)
    ensures NoneIn(s, stops, from, at + n)
    ensures n < |piece| ==> s[at + n] == piece[n]
  {
    forall j | at <= j < at + |piece|
      ensures s[j] == piece[j - at]
    {
      assert s[at..at + |piece|][j - at] == s[j];
    }
  }

  lemma ChunkOf(s: bytes, pos: nat, to: nat, stops: set<byte>, n: nat)
    requires pos <= to <= |s| && n <= to - pos && NoneIn(s[pos..to], stops, 0, n) && NoneIn(s, stops, 0, pos)
    ensures NoneIn(s, stops, 0, pos + n) && (n < to - pos ==> s[pos + n] == s[pos..to][n])
  {
    PieceOf(s, pos, s[pos..to], stops, 0, n);
  }

  /** find_eol_char: the first CR or LF in s, or |s|, searched in chunks. */
  method FindEolChar(s: bytes) returns (i: nat)
    ensures i <= |s| && NoneIn(s, {CR, LF}, 0, i) && (i < |s| ==> s[i] in {CR, LF})
  {
    var pos := 0;
    while pos < |s|
      invariant NoneIn(s, {CR, LF}, 0, pos)
      decreases |s| - pos
    {
      var chunk := if pos + CHUNK_SZ < |s| then CHUNK_SZ else |s| - pos;
      var cr := Memchr(s[pos..pos + chunk], CR);
      var lf := Memchr(s[pos..pos + chunk], LF);
      ChunkOf(s, pos, pos + chunk, {CR, LF}, if lf < cr then lf else cr);
      if cr < chunk {
        if lf < chunk && lf < cr {
          return pos + lf;
        }
        return pos + cr;
      } else if lf < chunk {
        return pos + lf;
      }
      pos := pos + CHUNK_SZ;
    }
    return |s|;
  }

  /** What to stop at: one character, or a line end. */
  datatype Stop = Char(c: byte) | EolChar {
    ghost function Bytes(): set<byte> {
      if Char? then {c} else {CR, LF}
    }
  }

  method FindStop(s: bytes, stop: Stop) returns (i: nat)
    ensures i <= |s| && NoneIn(s, stop.Bytes(), 0, i) && (i < |s| ==> s[i] in stop.Bytes())
  {
    if stop.Char? {
      i := Memchr(s, stop.c);
    } else {
      i := FindEolChar(s);
    }
  }

  /** evbuffer_strchr and evbuffer_find_eol_char. */
  method FindFrom(buf: Evbuffer, it: EvPtr, stop: Stop) returns (r: int, q: EvPtr)
    requires buf.Body() && |buf.parts| == |buf.chains| && buf.PtrValid(it)
    ensures if r == -1 then NoneIn(buf.Contents(), stop.Bytes(), it.pos, |buf.Contents()|)
      else r == q.pos && buf.PtrValid(q) && q.chain != null && FirstIn(buf.Contents(), stop.Bytes(), it.pos, r)
  {
    hide Evbuffer.Body, Flatten, Evbuffer.PtrValid, Here, NoneIn, Chain.Holds, Stop.Bytes;
    ghost var i := HereIs(buf, it);
    q := it;
    InChain(buf, q, i);
    NoneYet(buf.Contents(), stop.Bytes(), it.pos);
    while q.chain != null
      invariant i <= |buf.chains| && Here(buf, q, i) && q.chain == buf.Next(i) && it.pos <= q.pos
      invariant i < |buf.chains| ==> q.posInChain <= |buf.parts[i]|
      invariant NoneIn(buf.Contents(), stop.Bytes(), it.pos, q.pos)
      decreases |buf.chains| - i
    {
      var chain := q.chain;
      buf.At(i);
      HereWithin(buf, q, i, chain.off - q.posInChain);
      var rest := chain.Read(q.posInChain, chain.off, buf.parts[i]);
      var p := FindStop(rest, stop);
      PieceOf(buf.Contents(), q.pos, rest, stop.Bytes(), it.pos, p);
      if p < |rest| {
        HereWithin(buf, q, i, p);
        q := EvPtr(q.pos + p, chain, q.posInChain + p);
        HereValid(buf, q, i);
        return q.pos, q;
      }
      HereNext(buf, q, i);
      q := EvPtr(q.pos + (chain.off - q.posInChain), chain.next, 0);
      i := i + 1;
    }
    HereValid(buf, q, i);
    r := -1;
  }

  lemma NoneYet(s: bytes, stops: set<byte>, from: int)
    ensures NoneIn(s, stops, from, from)
  {}

  /** The inner loop of evbuffer_strspn. */
  method Span(s: bytes, chrset: bytes) returns (n: nat)
    ensures n <= |s| && (forall j :: 0 <= j < n ==> s[j] in chrset) && (n < |s| ==> s[n] !in chrset)
  {
    n := 0;
    while n < |s|
      invariant n <= |s| && forall j :: 0 <= j < n ==> s[j] in chrset
    {
      var p := 0;
      while p < |chrset| && s[n] != chrset[p]
        invariant p <= |chrset| && s[n] !in chrset[..p]
      {
        p := p + 1;
      }
      if p == |chrset| {
        assert chrset[..p] == chrset;
        return;
      }
      n := n + 1;
    }
  }

  ghost function SetOf(s: bytes): set<byte> {
    set c | c in s
  }

  ghost predicate AllIn(s: bytes, stops: set<byte>, from: nat, n: nat) {
    from + n <= |s| && forall j :: from <= j < from + n ==> s[j] in stops
  }

  lemma SpanOf(s: bytes, at: nat, piece: bytes, chrset: bytes, from: nat, n: nat)
    requires from <= at && at + |piece| <= |s| && s[at..at + |piece|] == piece && n <= |piece|
    requires AllIn(s, SetOf(chrset), from, at - from) && forall j :: 0 <= j < n ==> piece[j] in chrset
    ensures AllIn(s, SetOf(chrset), from, at - from + n)
    ensures n < |piece| && piece[n] !in chrset ==> IsRun(s, SetOf(chrset), from, at - from + n)
  {
    forall j | at <= j < at + |piece|
      ensures s[j] == piece[j - at]
    {
      assert s[at..at + |piece|][j - at] == s[j];
    }
  }

  lemma RunToEnd(s: bytes, stops: set<byte>, from: nat, n: nat)
    requires AllIn(s, stops, from, n) && from + n == |s|
    ensures IsRun(s, stops, from, n)
  {}

  /** evbuffer_strspn: how many bytes of chrset follow. */
  method Strspn(buf: Evbuffer, p: EvPtr, chrset: bytes) returns (count: nat)
    requires buf.Body() && |buf.parts| == |buf.chains| && buf.PtrValid(p)
    ensures IsRun(buf.Contents(), SetOf(chrset), p.pos, count)
  {
    hide Evbuffer.Body, Flatten, Evbuffer.PtrValid, Here, AllIn, IsRun, SetOf, Chain.Holds;
    ghost var i := HereIs(buf, p);
    InChain(buf, p, i);
    HereValid(buf, p, i);
    count := 0;
    AllInNothing(buf.Contents(), SetOf(chrset), p.pos);
    var chain := p.chain;
    if chain == null {
      RunToEnd(buf.Contents(), SetOf(chrset), p.pos, 0);
      return;
    }
    var at: nat := p.posInChain;
    while true
      invariant i < |buf.chains| && chain == buf.chains[i] && at <= |buf.parts[i]|
      invariant Here(buf, EvPtr(p.pos + count, chain, at), i)
      invariant AllIn(buf.Contents(), SetOf(chrset), p.pos, count)
      decreases |buf.chains| - i
    {
      buf.At(i);
      ghost var cur := EvPtr(p.pos + count, chain, at);
      HereWithin(buf, cur, i, chain.off - at);
      HereNext(buf, cur, i);
      var rest := chain.Read(at, chain.off, buf.parts[i]);
      var n := Span(rest, chrset);
      SpanOf(buf.Contents(), p.pos + count, rest, chrset, p.pos, n);
      count := count + n;
      if n < |rest| {
        return;
      }
      if chain.next == null {
        HereValid(buf, EvPtr(p.pos + count, buf.Next(i + 1), 0), i + 1);
        RunToEnd(buf.Contents(), SetOf(chrset), p.pos, count);
        return;
      }
      at := 0;
      chain := chain.next;
      i := i + 1;
    }
  }

  lemma AllInNothing(s: bytes, stops: set<byte>, from: nat)
    requires from <= |s|
    ensures AllIn(s, stops, from, 0)
  {}

  /** evbuffer_getchr */
  method Getchr(buf: Evbuffer, it: EvPtr) returns (c: int)
    requires buf.Body() && |buf.parts| == |buf.chains| && buf.PtrValid(it)
    requires it.chain != null ==> it.posInChain < it.chain.off
    ensures if it.chain == null then c == -1 else 0 <= it.pos < |buf.Contents()| && c == buf.Contents()[it.pos] as int
  {
    hide Evbuffer.Body, Flatten, Evbuffer.PtrValid, Here, Chain.Holds;
    if it.chain == null {
      return -1;
    }
    ghost var i := HereIs(buf, it);
    InChain(buf, it, i);
    buf.At(i);
    HereWithin(buf, it, i, 1);
    var s := it.chain.Read(it.posInChain, it.posInChain + 1, buf.parts[i]);
    c := s[0] as int;
  }

  // ----- evbuffer_search_eol

  /** The line end evbuffer_search_eol reports: len bytes at position at. */
  ghost predicate EolAt(s: bytes, style: EolStyle, from: int, at: int, len: nat) {
    match style
    case Any => FirstIn(s, {CR, LF}, from, at) && IsRun(s, {CR, LF}, at, len)
    case Lf => FirstIn(s, {LF}, from, at) && len == 1
    case Nul => FirstIn(s, {NUL}, from, at) && len == 1
    case CrlfStrict => from <= at && Occurs(s, [CR, LF], at) && NoneBetween(s, [CR, LF], from, at) && len == 2
    case Crlf =>
      1 <= len && FirstIn(s, {LF}, from, at + len - 1) &&
      len == if at + len - 1 > from && 0 <= at + len - 2 && s[at + len - 2] == CR then 2 else 1
  }

  ghost predicate NoEol(s: bytes, style: EolStyle, from: int) {
    match style
    case Any => NoneIn(s, {CR, LF}, from, |s|)
    case Nul => NoneIn(s, {NUL}, from, |s|)
    case CrlfStrict => NoneBetween(s, [CR, LF], from, |s|)
    case Lf => NoneIn(s, {LF}, from, |s|)
    case Crlf => NoneIn(s, {LF}, from, |s|)
  }

  /** The EVBUFFER_EOL_CRLF case: a LF, and the CR before it if there is one behind the start. */
  method SearchCrlf(buf: Evbuffer, start: EvPtr) returns (it: EvPtr, len: nat)
    requires buf.Shape() && buf.totalLen <= SSIZE_MAX && |buf.parts| == |buf.chains| && buf.PtrValid(start)
    ensures if it == NOT_FOUND then len == 0 && NoEol(buf.Contents(), Crlf, start.pos)
      else buf.PtrValid(it) && 0 <= it.pos && EolAt(buf.Contents(), Crlf, start.pos, it.pos, len)
  {
    hide Evbuffer.Body, Flatten, Evbuffer.PtrValid, NoneIn;
    ghost var i := HereIs(buf, start);
    HereValid(buf, start, i);
    var r;
    r, it := FindFrom(buf, start, Char(LF));
    if r < 0 {
      return NOT_FOUND, 0;
    }
    len := 1;
    if it.pos == start.pos {
      return;
    }
    var ok, before := PtrSubtract(buf, it, 1);
    assert ok == 0; // the source's own test for failure: there is a byte before
    var c := Getchr(buf, before);
    if c == 13 {
      it := before;
      len := 2;
    }
  }

  /** evbuffer_search_eol; start.None? is the call with a null start. */
  method SearchEol(buf: Evbuffer, start: Option<EvPtr>, style: EolStyle) returns (it: EvPtr, len: nat)
    requires buf.Shape() && buf.totalLen <= SSIZE_MAX && |buf.parts| == |buf.chains|
    requires start.Some? ==> buf.PtrValid(start.value) || start.value == NOT_FOUND
    ensures start.Some? && start.value.chain == null ==> it == NOT_FOUND && len == 0
    ensures !(start.Some? && start.value.chain == null) ==>
      var from := if start.Some? then start.value.pos else 0;
      if it == NOT_FOUND then len == 0 && NoEol(buf.Contents(), style, from)
      else buf.PtrValid(it) && 0 <= it.pos && EolAt(buf.Contents(), style, from, it.pos, len)
  {
    hide Evbuffer.Body, Flatten, Evbuffer.PtrValid, Here, NoneIn, IsRun, NoneBetween, Occurs;
    buf.Front();
    len := 0;
    if start.Some? && start.value.chain == null {
      return NOT_FOUND, 0;
    }
    HereFirst(buf);
    HereValid(buf, EvPtr(0, buf.first, 0), 0);
    it := if start.Some? then start.value else EvPtr(0, buf.first, 0);
    ghost var from := it.pos;
    ghost var i := HereIs(buf, it);
    HereValid(buf, it, i);
    var r;
    match style {
      case Any =>
        r, it := FindFrom(buf, it, EolChar);
        if r < 0 {
          return NOT_FOUND, 0;
        }
        len := Strspn(buf, it, [CR, LF]);
        CrLfSet();
      case CrlfStrict =>
        it := SearchRange(buf, [CR, LF], Some(it), None);
        StrictResult(buf.Contents(), from, it.pos);
        if it.pos < 0 {
          return NOT_FOUND, 0;
        }
        len := 2;
      case Crlf =>
        it, len := SearchCrlf(buf, it);
      case Lf =>
        r, it := FindFrom(buf, it, Char(LF));
        if r < 0 {
          return NOT_FOUND, 0;
        }
        len := 1;
      case Nul =>
        r, it := FindFrom(buf, it, Char(NUL));
        if r < 0 {
          return NOT_FOUND, 0;
        }
        len := 1;
    }
  }

  lemma CrLfSet()
    ensures SetOf([CR, LF]) == {CR, LF}
  {}

  lemma StrictResult(s: bytes, from: nat, at: int)
    requires SearchResult(s, [CR, LF], from, None, at)
    ensures at == -1 ==> NoEol(s, CrlfStrict, from)
    ensures at != -1 ==> EolAt(s, CrlfStrict, from, at, 2)
  {}

  // ----- lines

  /** s splits into a line, its terminator and the rest; the line is free of that terminator. */
  ghost predicate IsLine(s: bytes, style: EolStyle, line: bytes, term: bytes, rest: bytes) {
    && s == line + (term + rest)
    && match style
       case Lf => LF !in line && term == [LF]
       case Nul => NUL !in line && term == [NUL]
       case CrlfStrict => term == [CR, LF] && NoneBetween(s, [CR, LF], 0, |line|)
       case Crlf => LF !in line && (term == [CR, LF] || (term == [LF] && (line != [] ==> line[|line| - 1] != CR)))
       case Any =>
         CR !in line && LF !in line && term != [] && (forall j :: 0 <= j < |term| ==> term[j] in {CR, LF}) &&
         (rest != [] ==> rest[0] !in {CR, LF})
  }

  /** There is at most one way to split. */
  lemma LineUnique(s: bytes, style: EolStyle, line: bytes, term: bytes, rest: bytes, line1: bytes, term1: bytes,
          rest1: bytes)
    requires IsLine(s, style, line, term, rest) && IsLine(s, style, line1, term1, rest1)
    ensures line == line1 && term == term1 && rest == rest1
  {
    hide EolAt;
    LineFrom(s, style, line, term, rest);
    LineFrom(s, style, line1, term1, rest1);
    EolUnique(s, style, |line|, |term|, |line1|, |term1|);
    PartsOf(s, line, term, rest);
    PartsOf(s, line1, term1, rest1);
  }

  lemma PartsOf(s: bytes, line: bytes, term: bytes, rest: bytes)
    requires s == line + (term + rest)
    ensures line == s[..|line|] && term == s[|line|..|line| + |term|] && rest == s[|line| + |term|..]
  {}

  lemma EolUnique(s: bytes, style: EolStyle, at: nat, len: nat, at1: nat, len1: nat)
    requires EolAt(s, style, 0, at, len) && EolAt(s, style, 0, at1, len1)
    ensures at == at1 && len == len1
  {}

  lemma LineFrom(s: bytes, style: EolStyle, line: bytes, term: bytes, rest: bytes)
    requires IsLine(s, style, line, term, rest)
    ensures EolAt(s, style, 0, |line|, |term|)
  {
    var n := |line|;
    assert forall j :: 0 <= j < n ==> s[j] == line[j];
    assert forall j :: n <= j < n + |term| ==> s[j] == term[j - n];
    assert forall j :: n + |term| <= j < |s| ==> s[j] == rest[j - n - |term|];
    if style.CrlfStrict? {
      assert s[n..n + 2] == term;
    } else if style.Any? {
      assert s[n] == term[0];
    }
  }

  /** The line end found from the start splits off the first line. */
  lemma LineAt(s: bytes, style: EolStyle, at: nat, len: nat)
    requires EolAt(s, style, 0, at, len)
    ensures at + len <= |s| && IsLine(s, style, s[..at], s[at..at + len], s[at + len..])
  {}

  /** There is no line, or no memory for it and the zero byte behind it. */
  ghost predicate NoneGranted(s: bytes, style: EolStyle, malloc: Malloc) {
    forall line, term, rest :: IsLine(s, style, line, term, rest) ==> !malloc(|line| + 1)
  }

  lemma NoLine(s: bytes, style: EolStyle, malloc: Malloc)
    requires NoEol(s, style, 0)
    ensures NoneGranted(s, style, malloc)
  {
    forall line, term, rest
      ensures !IsLine(s, style, line, term, rest)
    {
      if IsLine(s, style, line, term, rest) {
        LineFrom(s, style, line, term, rest);
      }
    }
  }

  lemma NoMemory(s: bytes, style: EolStyle, at: nat, len: nat, malloc: Malloc)
    requires EolAt(s, style, 0, at, len) && !malloc(at + 1)
    ensures NoneGranted(s, style, malloc)
  {
    hide IsLine, EolAt;
    LineAt(s, style, at, len);
    forall line, term, rest | IsLine(s, style, line, term, rest)
      ensures !malloc(|line| + 1)
    {
      LineUnique(s, style, line, term, rest, s[..at], s[at..at + len], s[at + len..]);
    }
  }

  /** evbuffer_readln: take the first line and its terminator off the buffer.  None stands for a null
      result. */
  method Readln(buf: Evbuffer, style: EolStyle, malloc: Malloc) returns (result: Option<bytes>, nRead: nat)
    requires buf.Valid() && buf.totalLen <= SSIZE_MAX
    modifies buf, buf.Repr
    ensures buf.Valid() && buf.Repr == old(buf.Repr) && buf.freezeStart == old(buf.freezeStart)
    ensures buf.freezeEnd == old(buf.freezeEnd)
    ensures nRead == if result.Some? then |result.value| else 0
    ensures result.Some? ==> !old(buf.freezeStart) && exists term: bytes ::
      IsLine(old(buf.Contents()), style, result.value, term, buf.Contents()) &&
        buf.nDel == old(buf.nDel) + nRead + |term|
    ensures result.None? ==> buf.Contents() == old(buf.Contents()) && buf.nDel == old(buf.nDel)
    ensures result.None? && !old(buf.freezeStart) ==> NoneGranted(old(buf.Contents()), style, malloc)
    ensures result.Some? ==> malloc(nRead + 1)
    ensures buf.nAdd == old(buf.nAdd) && (old(buf.Tidy()) ==> buf.Tidy())
  {
    hide Evbuffer.Body, Flatten, Evbuffer.PtrValid, EolAt, NoEol, IsLine, ExactAt, NoEmptyPart, NoneGranted;
    buf.Front();
    if buf.freezeStart {
      return None, 0;
    }
    var it, extra := SearchEol(buf, None, style);
    if it.pos < 0 {
      NoLine(buf.Contents(), style, malloc);
      return None, 0;
    }
    ghost var s := buf.Contents();
    LineAt(s, style, it.pos, extra);
    if !malloc(it.pos + 1) {
      NoMemory(s, style, it.pos, extra, malloc);
      return None, 0;
    }
    var line, r, n;
    n, line := Remove(buf, it.pos);
    LineTaken(s, it.pos, line, buf.Contents());
    r := Drain(buf, extra);
    RestTaken(s, it.pos, extra);
    result, nRead := Some(line), it.pos;
    assert IsLine(s, style, line, s[it.pos..it.pos + extra], buf.Contents());
  }

  lemma LineTaken(s: bytes, n: nat, line: bytes, rest: bytes)
    requires line + rest == s && |line| == n
    ensures line == s[..n] && rest == s[n..]
  {}

  lemma RestTaken(s: bytes, n: nat, extra: nat)
    requires n + extra <= |s|
    ensures s[n..][extra..] == s[n + extra..]
  {}
}
