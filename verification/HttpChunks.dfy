/** Receiving a chunked HTTP response from a socket that delivers it in arbitrary pieces:
    downloadHeader, downloadChunkedBody and continueToReceiveBody of http_client.cpp. */
module HttpChunks {
  import opened Bytes
  import opened CInts

  const CR: byte := 13
  const LF: byte := 10
  const CRLF: bytes := [CR, LF]
  const HEADER_END: bytes := [CR, LF, CR, LF]

  /** of an unsigned long on an LP64 machine */
  const ULONG_MAX: nat := 0xFFFF_FFFF_FFFF_FFFF

  // ----- strtoul with base 16

  function Hex(c: byte): int {
    if 48 <= c <= 57 then c as int - 48
    else if 65 <= c <= 70 then c as int - 55
    else if 97 <= c <= 102 then c as int - 87
    else -1
  }

  /** The value of the digits at the start of s, which continue the number v. */
  function HexDigits(s: bytes, v: nat): nat {
    if s == [] || Hex(s[0]) < 0 then v else HexDigits(s[1..], 16 * v + Hex(s[0]))
  }

  predicate IsSpace(c: byte) {
    c == 32 || 9 <= c <= 13
  }

  function SkipSpaces(s: bytes): bytes {
    if s != [] && IsSpace(s[0]) then SkipSpaces(s[1..]) else s
  }

  function SkipPrefix(s: bytes): bytes {
    if |s| >= 3 && s[0] == 48 && (s[1] == 120 || s[1] == 88) && Hex(s[2]) >= 0 then s[2..] else s
  }

  /** Too large a value gives ULONG_MAX whatever its sign. */
  function Strtoul(s: bytes): (r: nat)
    ensures r <= ULONG_MAX
  {
    var t := SkipSpaces(s);
    var minus := t != [] && t[0] == 45;
    var v := HexDigits(SkipPrefix(if t != [] && (t[0] == 45 || t[0] == 43) then t[1..] else t), 0);
    if v > ULONG_MAX then ULONG_MAX else if minus then (TWO_64 - v) % TWO_64 else v
  }

  /** The size a size line stands for. */
  function SizeOf(line: bytes): (r: int)
    ensures r < TWO_31
  {
    AsInt(Strtoul(line))
  }

  // ----- what is received

  /** Failed is the end of the stream before the end of the body; Endless is a loop that is never left. */
  datatype Outcome = Complete(data: bytes) | Failed | Endless

  function Prepend(d: bytes, r: Outcome): Outcome {
    if r.Complete? then Complete(d + r.data) else r
  }

  /** Where the first chunk of a body ends, computed in int and converted to size_t. */
  function ChunkEnd(lineLength: nat, size: int): nat {
    AsSize(AsInt(lineLength + 2 + size + 2))
  }

  /** All lengths are counted in int: less than two gigabytes. */
  const LIMIT: nat := TWO_31 - 8

  /** The end of a chunk whose negative size exceeds its line is never reached. */
  lemma ChunkEndIs(s: bytes, i: nat, size: int)
    requires |s| < LIMIT && i + 2 <= |s| && INT_MIN <= size <= INT_MAX
    ensures ChunkEnd(i, size) == i + size + 4 || (ChunkEnd(i, size) > |s| && (i + size + 4 > |s| || i + size + 4 < 0))
    ensures size <= 0 ==> (ChunkEnd(i, size) <= |s| <==> 0 <= i + size + 4 <= |s|)
  {}

  /** body.substr(i + 2, size) */
  function ChunkData(body: bytes, i: nat, size: int): bytes
    requires i + 2 + size <= |body| && i + 2 <= |body|
  {
    if size > 0 then body[i + 2..i + 2 + size] else body[i + 2..]
  }

  /** What comes of body, when nothing else was received, and what further reads deliver.  A chunk
      of negative size is all that has arrived, but less than its line is taken off, or
      nothing at all. */
  ghost function Receive(body: bytes, pieces: seq<bytes>): Outcome
    requires |body + Flatten(pieces)| < LIMIT
    decreases |pieces|, |body|
  {
    var i := Find(body, CRLF);
    if i == |body| || (SizeOf(body[..i]) != 0 && |body| < ChunkEnd(i, SizeOf(body[..i]))) then
      if pieces == [] then Failed
      else
        Assoc(body, pieces[0], Flatten(pieces[1..]));
        Receive(body + pieces[0], pieces[1..])
    else
      var size := SizeOf(body[..i]);
      var end := ChunkEnd(i, size);
      ChunkEndIs(body, i, size);
      if size == 0 then Complete([])
      else if end == 0 then Endless
      else
        DropLess(body, Flatten(pieces), end);
        Prepend(ChunkData(body, i, size), Receive(body[end..], pieces))
  }

  /** What comes of a stream that is received all at once. */
  ghost function Decode(s: bytes): Outcome
    requires |s| < LIMIT
  {
    Alone(s);
    Receive(s, [])
  }

  lemma Alone(s: bytes)
    ensures s + Flatten([]) == s
  {}

  /** Decoding comes to a line with a negative size, takes off some of it, and there is more behind. */
  ghost predicate Torn(s: bytes)
    requires |s| < LIMIT
    decreases |s|
  {
    var i := Find(s, CRLF);
    i < |s| &&
    var size := SizeOf(s[..i]);
    var end := ChunkEnd(i, size);
    ChunkEndIs(s, i, size);
    if size > 0 then end <= |s| && Torn(s[end..])
    else size < 0 && 0 < end < |s| && i + 2 < |s|
  }

  // ----- the client

  /** A successful read delivers something. */
  ghost predicate Delivers(pieces: seq<bytes>) {
    forall i :: 0 <= i < |pieces| ==> pieces[i] != []
  }

  /** What successive reads from the socket deliver; when it is used up, reading fails. */
  class Socket {
    var rest: seq<bytes>

    constructor (pieces: seq<bytes>)
      ensures rest == pieces
    {
      rest := pieces;
    }

    /** Nothing read stands for a return value of 0 or less. */
    method Read() returns (data: bytes)
      requires Delivers(rest)
      modifies this
      ensures data + Flatten(rest) == Flatten(old(rest)) && (data == [] <==> old(rest) == [])
      ensures Delivers(rest)
      ensures if data != [] then data == old(rest)[0] && rest == old(rest)[1..] else rest == []
    {
      if |rest| == 0 {
        return [];
      }
      data := rest[0];
      rest := rest[1..];
    }
  }

  /** HttpClient::continueToReceiveBody */
  method ContinueToReceiveBody(socket: Socket, body: bytes) returns (ok: bool, r: bytes)
    requires Delivers(socket.rest)
    modifies socket
    ensures Delivers(socket.rest)
    ensures r + Flatten(socket.rest) == body + Flatten(old(socket.rest))
    ensures (ok <==> old(socket.rest) != []) && body <= r
    ensures if ok then r == body + old(socket.rest)[0] && socket.rest == old(socket.rest)[1..]
      else r == body && socket.rest == []
  {
    hide Flatten;
    var data := socket.Read();
    if |data| == 0 {
      NothingLeft();
      assert body + [] == body;
      return false, body;
    }
    Assoc(body, data, Flatten(socket.rest));
    return true, body + data;
  }

  lemma NothingLeft()
    ensures Flatten([]) == []
  {}

  /** all is the header, up to the first empty line, then body and rest. */
  ghost predicate HeaderIs(all: bytes, header: bytes, body: bytes, rest: bytes) {
    var end := Find(all, HEADER_END);
    end < |all| && end + 4 <= |all| && header == all[..end + 4] && body + rest == all[end + 4..]
  }

  /** HttpClient::downloadHeader: body is what was received behind the header. */
  method DownloadHeader(socket: Socket) returns (complete: bool, header: bytes, body: bytes)
    requires Delivers(socket.rest)
    modifies socket
    ensures Delivers(socket.rest)
    ensures var all := Flatten(old(socket.rest));
      if Find(all, HEADER_END) < |all| then complete && HeaderIs(all, header, body, Flatten(socket.rest)) else !complete
  {
    hide Flatten, Find;
    ghost var all := Flatten(socket.rest);
    var received: bytes := [];
    NothingLeft();
    assert received + all == all;
    assert Find([], HEADER_END) == 0 by { FindNothing(HEADER_END); }
    complete, header, body := false, [], [];
    while !complete
      invariant Delivers(socket.rest)
      invariant !complete ==> received + Flatten(socket.rest) == all && Find(received, HEADER_END) == |received|
      invariant complete ==> HeaderIs(all, header, body, Flatten(socket.rest))
      decreases |socket.rest|, !complete
    {
      var ok;
      ok, received := ContinueToReceiveBody(socket, received);
      if !ok {
        NothingLeft();
        assert received + [] == received;
        return;
      }
      var end := Find(received, HEADER_END);
      if end < |received| {
        FindPrefix(received, Flatten(socket.rest), HEADER_END);
        HeaderSplit(received, Flatten(socket.rest), end + 4);
        complete := true;
        body := received[end + 4..];
        header := received[..end + 4];
      } else {
        assert end == |received|;
      }
    }
  }

  lemma FindNothing(what: bytes)
    requires what != []
    ensures Find([], what) == 0
  {}

  lemma HeaderSplit(a: bytes, b: bytes, n: nat)
    requires n <= |a|
    ensures (a + b)[..n] == a[..n] && (a + b)[n..] == a[n..] + b
  {}

  // ----- the body

  /** The size line of the first chunk of body was found. */
  ghost predicate LineFound(body: bytes, lineLength: nat, size: int) {
    lineLength + 2 <= |body| && Find(body, CRLF) == lineLength && size == SizeOf(body[..lineLength])
  }

  lemma PrependTwice(a: bytes, b: bytes, r: Outcome)
    ensures Prepend(a, Prepend(b, r)) == Prepend(a + b, r)
  {
    if r.Complete? {
      Assoc(a, b, r.data);
    }
  }

  lemma LineEnds(s: bytes)
    requires Find(s, CRLF) < |s|
    ensures Find(s, CRLF) + 2 <= |s|
  {}

  /** A line that was found stays the first one. */
  lemma LineIs(body: bytes, rest: bytes)
    requires Find(body, CRLF) < |body|
    ensures var i := Find(body, CRLF);
      && i + 2 <= |body| && Find(body + rest, CRLF) == i && (body + rest)[..i] == body[..i]
  {
    FindPrefix(body, rest, CRLF);
  }

  /** More is needed. */
  lemma ReceiveMore(body: bytes, pieces: seq<bytes>)
    requires |body + Flatten(pieces)| < LIMIT
    requires Find(body, CRLF) == |body| ||
      (SizeOf(body[..Find(body, CRLF)]) != 0 && |body| < ChunkEnd(Find(body, CRLF), SizeOf(body[..Find(body, CRLF)])))
    ensures pieces == [] ==> Receive(body, pieces) == Failed
    ensures pieces != [] ==>
      |(body + pieces[0]) + Flatten(pieces[1..])| < LIMIT &&
        Receive(body, pieces) == Receive(body + pieces[0], pieces[1..])
  {
    hide SizeOf, ChunkEnd, Find;
    if pieces != [] {
      Assoc(body, pieces[0], Flatten(pieces[1..]));
    }
  }

  lemma SizeRange(line: bytes)
    ensures INT_MIN <= SizeOf(line) <= INT_MAX
  {}

  /** The first chunk has arrived. */
  lemma ReceiveChunk(body: bytes, pieces: seq<bytes>, i: nat, size: int)
    requires |body + Flatten(pieces)| < LIMIT && LineFound(body, i, size) && size != 0 && ChunkEnd(i, size) <= |body|
    ensures var end := ChunkEnd(i, size);
      && end == i + size + 4 && |body[end..] + Flatten(pieces)| < LIMIT &&
        (end == 0 ==> Receive(body, pieces) == Endless)
      && (end > 0 ==>
            Receive(body, pieces) == Prepend(ChunkData(body, i, size), Receive(body[end..], pieces)))
  {
    hide SizeOf, ChunkEnd, Find, Prepend, ChunkData;
    SizeRange(body[..i]);
    ChunkEndIs(body, i, size);
    DropLess(body, Flatten(pieces), ChunkEnd(i, size));
  }

  lemma ReceiveLast(body: bytes, pieces: seq<bytes>, i: nat)
    requires |body + Flatten(pieces)| < LIMIT && LineFound(body, i, 0)
    ensures Receive(body, pieces) == Complete([])
  {
    hide SizeOf, ChunkEnd, Find;
  }

  /** HttpClient::downloadChunkedBody */
  method DownloadChunkedBody(socket: Socket, bodyHeader: bytes) returns (r: Outcome)
    requires Delivers(socket.rest) && |bodyHeader + Flatten(socket.rest)| < LIMIT
    modifies socket
    ensures r == Receive(bodyHeader, old(socket.rest))
  {
    hide Flatten, Find, SizeOf, Receive, ChunkEnd, Delivers;
    var body, findFirstChunk, chunkSize, lineLength := bodyHeader, false, 0, 0;
    var received: bytes := [];
    ghost var result := Receive(body, socket.rest);
    assert Prepend([], result) == result;
    while true
      invariant Delivers(socket.rest) && |body + Flatten(socket.rest)| < LIMIT
      invariant Prepend(received, Receive(body, socket.rest)) == result
      invariant findFirstChunk ==> LineFound(body, lineLength, chunkSize)
      decreases |socket.rest|, |body|, !findFirstChunk
    {
      ghost var was, rest := body, socket.rest;
      if findFirstChunk {
        if chunkSize == 0 {
          ReceiveLast(body, rest, lineLength);
          return Complete(received);
        }
        var firstChunk := ChunkEnd(lineLength, chunkSize);
        if |body| >= firstChunk {
          ReceiveChunk(body, rest, lineLength, chunkSize);
          findFirstChunk := false;
          var data := ChunkData(body, lineLength, chunkSize);
          if firstChunk == 0 {
            // erase(0, 0) leaves the body as it was, and everything begins again
            return Endless;
          }
          body := body[firstChunk..];
          PrependTwice(received, data, Receive(body, rest));
          received := received + data;
        } else {
          ReceiveMore(body, rest);
          var ok;
          ok, body := ContinueToReceiveBody(socket, body);
          if !ok {
            return Failed;
          }
          LineIs(was, rest[0]);
        }
      } else {
        var index := Find(body, CRLF);
        if index < |body| {
          LineEnds(body);
          findFirstChunk := true;
          lineLength := index;
          chunkSize := SizeOf(body[..lineLength]);
        } else {
          ReceiveMore(body, rest);
          var ok;
          ok, body := ContinueToReceiveBody(socket, body);
          if !ok {
            return Failed;
          }
        }
      }
    }
  }

  // ----- how the stream is cut

  ghost predicate SameKind(a: Outcome, b: Outcome) {
    a.Complete? == b.Complete? && a.Failed? == b.Failed?
  }

  lemma NoPieces(pieces: seq<bytes>)
    requires Delivers(pieces) && Flatten(pieces) == []
    ensures pieces == []
  {}

  lemma CutOff(body: bytes, rest: bytes, n: nat)
    requires n <= |body|
    ensures (body + rest)[n..] == body[n..] + rest && forall m: nat :: m <= n ==> (body + rest)[m..n] == body[m..n]
  {}

  lemma TornChunk(s: bytes, i: nat, size: int)
    requires |s| < LIMIT && LineFound(s, i, size) && size > 0
    ensures ChunkEnd(i, size) <= |s| ==> (Torn(s) <==> Torn(s[ChunkEnd(i, size)..]))
  {
    hide Find, SizeOf, ChunkEnd;
  }

  lemma TornHere(s: bytes, i: nat, size: int)
    requires |s| < LIMIT && LineFound(s, i, size) && size < 0
    ensures Torn(s) <==> 0 < ChunkEnd(i, size) < |s| && i + 2 < |s|
  {
    hide Find, SizeOf, ChunkEnd;
  }

  /** Whatever part of the stream comes first and however the rest is cut, the decoder ends in the same
      way; and it delivers the same data unless the stream is torn. */
  lemma {:induction false} OnePiece(body: bytes, pieces: seq<bytes>)
    requires Delivers(pieces) && |body + Flatten(pieces)| < LIMIT
    ensures SameKind(Receive(body, pieces), Decode(body + Flatten(pieces)))
    ensures !Torn(body + Flatten(pieces)) ==> Receive(body, pieces) == Decode(body + Flatten(pieces))
    decreases |pieces|, |body|
  {
    hide Find, SizeOf, ChunkEnd, Receive, Torn, ChunkData;
    var rest := Flatten(pieces);
    var all := body + rest;
    var i := Find(body, CRLF);
    Alone(all);
    if pieces == [] {
      Alone(body);
      assert all == body;
    } else if i == |body| || (SizeOf(body[..i]) != 0 && |body| < ChunkEnd(i, SizeOf(body[..i]))) {
      ReceiveMore(body, pieces);
      OnePiece(body + pieces[0], pieces[1..]);
      Assoc(body, pieces[0], Flatten(pieces[1..]));
    } else {
      LineIs(body, rest);
      var size := SizeOf(body[..i]);
      var end := ChunkEnd(i, size);
      if size == 0 {
        ReceiveLast(body, pieces, i);
        ReceiveLast(all, [], i);
      } else {
        ReceiveChunk(body, pieces, i, size);
        ReceiveChunk(all, [], i, size);
        CutOff(body, rest, end);
        if end > 0 {
          OnePiece(body[end..], pieces);
          Alone(all[end..]);
          if size > 0 {
            TornChunk(all, i, size);
            SameData(body, rest, i, size);
          } else {
            TornHere(all, i, size);
            if |rest| == 0 {
              NoPieces(pieces);
            }
          }
        }
      }
    }
  }

  lemma SameData(body: bytes, rest: bytes, i: nat, size: int)
    requires 0 < size && i + 2 + size <= |body|
    ensures ChunkData(body + rest, i, size) == ChunkData(body, i, size)
  {}

  /** Receiving the end of the stream later never makes the data longer. */
  lemma {:induction false} Later(t: bytes, r: bytes)
    requires r != [] && |t + r| < LIMIT
    ensures |t + Flatten([r])| < LIMIT
    ensures Decode(t + r).Complete? ==> Receive(t, [r]).Complete? && |Receive(t, [r]).data| <= |Decode(t + r).data|
    decreases |t|
  {
    hide Find, SizeOf, ChunkEnd, Receive;
    FlattenSingle(r);
    Alone(t + r);
    var i := Find(t, CRLF);
    if i == |t| || (SizeOf(t[..i]) != 0 && |t| < ChunkEnd(i, SizeOf(t[..i]))) {
      ReceiveMore(t, [r]);
    } else {
      LineIs(t, r);
      var size := SizeOf(t[..i]);
      var end := ChunkEnd(i, size);
      if size == 0 {
        ReceiveLast(t, [r], i);
        ReceiveLast(t + r, [], i);
      } else {
        ReceiveChunk(t, [r], i, size);
        ReceiveChunk(t + r, [], i, size);
        CutOff(t, r, end);
        if end > 0 {
          Later(t[end..], r);
          Alone((t + r)[end..]);
        }
      }
    }
  }

  lemma ShorterData(s: bytes, m: nat, i: nat, size: int)
    requires i + 2 <= m < |s| && size < 0 && i + 2 + size <= m
    ensures |ChunkData(s[..m], i, size)| < |ChunkData(s, i, size)|
  {}

  /** The first line of a torn stream. */
  lemma TornLine(s: bytes) returns (i: nat, size: int, end: nat)
    requires |s| < LIMIT && Torn(s)
    ensures LineFound(s, i, size) && size != 0 && end == ChunkEnd(i, size) == i + size + 4 && 0 < end <= |s|
  {
    hide Find, SizeOf, ChunkEnd;
    i := Find(s, CRLF);
    LineEnds(s);
    size := SizeOf(s[..i]);
    end := ChunkEnd(i, size);
    SizeRange(s[..i]);
    ChunkEndIs(s, i, size);
  }

  /** A cut of the stream of which less data comes than of the whole. */
  lemma {:induction false} TornDiffers(s: bytes) returns (body: bytes, pieces: seq<bytes>)
    requires |s| < LIMIT && Torn(s) && Decode(s).Complete?
    ensures Delivers(pieces) && body + Flatten(pieces) == s
    ensures Receive(body, pieces).Complete? && |Receive(body, pieces).data| < |Decode(s).data|
    decreases |s|
  {
    hide Find, SizeOf, ChunkEnd, Receive, Torn, ChunkData;
    var i, size, end := TornLine(s);
    Alone(s);
    ReceiveChunk(s, [], i, size);
    Alone(s[end..]);
    if size > 0 {
      TornChunk(s, i, size);
      body, pieces := TornDiffers(s[end..]);
      var was := body;
      body := s[..end] + body;
      assert s[..end] + s[end..] == s;
      Assoc(s[..end], was, Flatten(pieces));
      LineFirst(s, end, was, i, size);
      ReceiveChunk(body, pieces, i, size);
      SameData(s[..end], was, i, size);
      SameData(s[..end], s[end..], i, size);
    } else {
      TornHere(s, i, size);
      var m := if end < i + 2 then i + 2 else end;
      body, pieces := s[..m], [s[m..]];
      FlattenSingle(s[m..]);
      LineFirst(s, m, [], i, size);
      assert s[..m] + [] == s[..m];
      ReceiveChunk(body, pieces, i, size);
      assert body[end..] + s[m..] == s[end..];
      ShorterData(s, m, i, size);
      Later(body[end..], s[m..]);
    }
  }

  /** The first line of a stream is that of every beginning of it that has it. */
  lemma LineFirst(s: bytes, m: nat, more: bytes, i: nat, size: int)
    requires i + 2 <= m <= |s| && LineFound(s, i, size)
    ensures LineFound(s[..m] + more, i, size)
  {
    hide SizeOf, Find;
    LineOf(s, m, i);
    LineIs(s[..m], more);
    assert s[..m][..i] == s[..i];
  }

  lemma LineOf(s: bytes, m: nat, i: nat)
    requires i + 2 <= m <= |s| && Find(s, CRLF) == i
    ensures Find(s[..m], CRLF) == i
  {
    hide Find;
    var t := s[..m];
    assert t[i..i + 2] == s[i..i + 2];
    assert Occurs(s, CRLF, i);
    assert Occurs(t, CRLF, i);
    var j := Find(t, CRLF);
    if j < i {
      assert t[j..j + 2] == s[j..j + 2];
      assert Occurs(s, CRLF, j);
    }
  }

  /** The outcome depends on the bytes alone. */
  ghost predicate Independent(s: bytes)
    requires |s| < LIMIT
  {
    forall body: bytes, pieces: seq<bytes> {:trigger Receive(body, pieces)} ::
      Delivers(pieces) && body + Flatten(pieces) == s ==> Receive(body, pieces) == Decode(s)
  }

  /** It does for every stream, except those that decode completely and in which a negative size
      takes off less than has arrived. */
  lemma CutsMatter(s: bytes)
    requires |s| < LIMIT
    ensures Independent(s) <==> !(Torn(s) && Decode(s).Complete?)
  {
    hide Receive, Torn;
    if Torn(s) && Decode(s).Complete? {
      var body, pieces := TornDiffers(s);
    } else {
      forall body: bytes, pieces: seq<bytes> {:trigger Receive(body, pieces)} | Delivers(pieces) &&
        body + Flatten(pieces) == s
        ensures Receive(body, pieces) == Decode(s)
      {
        OnePiece(body, pieces);
      }
    }
  }

  // ----- section 4.1 of RFC 7230

  /** The value of hexadecimal digits that follow the number v. */
  function ValueFrom(digits: bytes, v: nat): (r: nat)
    requires forall i :: 0 <= i < |digits| ==> Hex(digits[i]) >= 0
    ensures r >= v
  {
    if digits == [] then v else ValueFrom(digits[1..], 16 * v + Hex(digits[0]))
  }

  /** chunk-size = 1*HEXDIG, in either case */
  predicate ChunkSize(digits: bytes) {
    digits != [] && forall i :: 0 <= i < |digits| ==> Hex(digits[i]) >= 0
  }

  function Value(digits: bytes): nat
    requires ChunkSize(digits)
  {
    ValueFrom(digits, 0)
  }

  /** chunk-ext begins with a semicolon, and holds no carriage return. */
  predicate ChunkExt(ext: bytes) {
    ext == [] || (ext[0] == 59 && forall i :: 0 <= i < |ext| ==> ext[i] != CR)
  }

  datatype Chunk = Chunk(digits: bytes, ext: bytes, data: bytes) {
    predicate Valid() {
      ChunkSize(digits) && ChunkExt(ext) && data != [] && Value(digits) == |data|
    }
  }

  /** last-chunk = 1*("0") [ chunk-ext ] */
  predicate LastChunk(zeros: bytes, ext: bytes) {
    zeros != [] && ChunkExt(ext) && forall i :: 0 <= i < |zeros| ==> zeros[i] == 48
  }

  function Encode(chunks: seq<Chunk>, lastLine: bytes): bytes {
    if chunks == [] then lastLine + CRLF
    else chunks[0].digits + chunks[0].ext + CRLF + chunks[0].data + CRLF + Encode(chunks[1..], lastLine)
  }

  function DataOf(chunks: seq<Chunk>): bytes {
    if chunks == [] then [] else chunks[0].data + DataOf(chunks[1..])
  }

  // ----- size lines

  lemma {:induction false} HexDigitsValue(digits: bytes, rest: bytes, v: nat)
    requires (forall i :: 0 <= i < |digits| ==> Hex(digits[i]) >= 0) && (rest == [] || Hex(rest[0]) < 0)
    ensures HexDigits(digits + rest, v) == ValueFrom(digits, v)
  {
    if digits == [] {
      assert digits + rest == rest;
    } else {
      assert (digits + rest)[1..] == digits[1..] + rest;
      HexDigitsValue(digits[1..], rest, 16 * v + Hex(digits[0]));
    }
  }

  /** Nothing is skipped before the digits. */
  lemma StartsWithDigits(digits: bytes, ext: bytes)
    requires ChunkSize(digits) && ChunkExt(ext)
    ensures var s := digits + ext;
      s != [] && s[0] != 45 && s[0] != 43 && SkipSpaces(s) == s && SkipPrefix(s) == s
  {
    var s := digits + ext;
    assert s[0] == digits[0] && Hex(digits[0]) >= 0;
    if |s| >= 3 {
      assert s[1] == if |digits| > 1 then digits[1] else ext[0];
    }
  }

  /** Any number of digits in either case, leading zeros and an extension: the value is converted to int. */
  lemma SizeOfValue(digits: bytes, ext: bytes)
    requires ChunkSize(digits) && ChunkExt(ext) && Value(digits) <= ULONG_MAX
    ensures SizeOf(digits + ext) == AsInt(Value(digits))
  {
    hide HexDigits, ValueFrom, SkipSpaces, SkipPrefix, AsInt;
    StartsWithDigits(digits, ext);
    HexDigitsValue(digits, ext, 0);
  }

  /** So a size that is a positive int is read back. */
  lemma SizeLine(digits: bytes, ext: bytes)
    requires ChunkSize(digits) && ChunkExt(ext) && Value(digits) < TWO_31
    ensures SizeOf(digits + ext) == Value(digits)
  {
    hide SizeOf, Value;
    SizeOfValue(digits, ext);
  }

  // ----- section 7.22.1.4 of ISO C11

  predicate SignOrNone(sign: bytes) {
    sign == [] || sign == [43] || sign == [45]
  }

  predicate PrefixOrNone(prefix: bytes) {
    prefix == [] || prefix == [48, 120] || prefix == [48, 88]
  }

  lemma {:induction false} SpacesSkipped(spaces: bytes, rest: bytes)
    requires forall i :: 0 <= i < |spaces| ==> spaces[i] in {9, 10, 11, 12, 13, 32}
    requires rest == [] || rest[0] !in {9, 10, 11, 12, 13, 32}
    ensures SkipSpaces(spaces + rest) == rest
  {
    if spaces == [] {
      assert spaces + rest == rest;
    } else {
      assert (spaces + rest)[1..] == spaces[1..] + rest;
      SpacesSkipped(spaces[1..], rest);
    }
  }

  lemma PrefixSkipped(prefix: bytes, digits: bytes, rest: bytes)
    requires PrefixOrNone(prefix) && ChunkSize(digits)
    requires prefix == [] && digits == [48] && |rest| >= 2 && rest[0] in {88, 120} ==> Hex(rest[1]) < 0
    ensures SkipPrefix(prefix + (digits + rest)) == digits + rest
  {
    var s := prefix + (digits + rest);
    if prefix == [] {
      assert s == digits + rest;
      if |digits| >= 2 {
        assert s[1] == digits[1] && Hex(s[1]) >= 0;
      } else {
        assert forall k :: 1 <= k < |s| ==> s[k] == rest[k - 1];
      }
    } else {
      assert s[0] == 48 && s[2] == digits[0] && s[2..] == digits + rest;
    }
  }

  /** White space, a sign and a prefix may come before the digits; what is too large gives ULONG_MAX, and a
      minus sign negates in unsigned arithmetic. */
  lemma StrtoulReads(spaces: bytes, sign: bytes, prefix: bytes, digits: bytes, rest: bytes)
    requires forall i :: 0 <= i < |spaces| ==> spaces[i] in {9, 10, 11, 12, 13, 32}
    requires SignOrNone(sign) && PrefixOrNone(prefix) && ChunkSize(digits) && (rest == [] || Hex(rest[0]) < 0)
    requires prefix == [] && digits == [48] && |rest| >= 2 && rest[0] in {88, 120} ==> Hex(rest[1]) < 0
    ensures var v := Value(digits);
      Strtoul(spaces + (sign + (prefix + (digits + rest)))) ==
        if v > ULONG_MAX then ULONG_MAX else if sign == [45] && v > 0 then TWO_64 - v else v
  {
    hide HexDigits, ValueFrom, SkipSpaces, SkipPrefix;
    var number := prefix + (digits + rest);
    var t := sign + number;
    assert number[0] == if prefix == [] then digits[0] else 48;
    assert t[0] == if sign == [] then number[0] else sign[0];
    assert Hex(number[0]) >= 0;
    SpacesSkipped(spaces, t);
    assert (if t[0] == 45 || t[0] == 43 then t[1..] else t) == number;
    PrefixSkipped(prefix, digits, rest);
    HexDigitsValue(digits, rest, 0);
  }

  /** Where no digit comes, nothing is converted. */
  lemma NothingToRead(spaces: bytes, sign: bytes, rest: bytes)
    requires forall i :: 0 <= i < |spaces| ==> spaces[i] in {9, 10, 11, 12, 13, 32}
    requires SignOrNone(sign) && (rest == [] || Hex(rest[0]) < 0)
    requires rest != [] && sign == [] ==> rest[0] !in {9, 10, 11, 12, 13, 32, 43, 45}
    ensures Strtoul(spaces + (sign + rest)) == 0
  {
    hide SkipSpaces;
    var t := sign + rest;
    assert t != [] ==> t[0] == if sign == [] then rest[0] else sign[0];
    SpacesSkipped(spaces, t);
    assert (if t != [] && (t[0] == 45 || t[0] == 43) then t[1..] else t) == rest;
  }

  lemma {:induction false} Zeros(zeros: bytes)
    requires forall i :: 0 <= i < |zeros| ==> zeros[i] == 48
    ensures ValueFrom(zeros, 0) == 0
  {
    if zeros != [] {
      Zeros(zeros[1..]);
    }
  }

  /** Also none that begins with the last byte. */
  ghost predicate NoLineEnd(line: bytes) {
    NoneBetween(line + CRLF, CRLF, 0, |line|)
  }

  lemma NoReturn(digits: bytes, ext: bytes)
    requires ChunkSize(digits) && ChunkExt(ext)
    ensures NoLineEnd(digits + ext)
  {
    var line := digits + ext;
    forall j | 0 <= j < |line|
      ensures !Occurs(line + CRLF, CRLF, j)
    {
      assert (line + CRLF)[j..j + 2][0] == line[j];
      assert line[j] == if j < |digits| then digits[j] else ext[j - |digits|];
    }
  }

  lemma FindLine(line: bytes, rest: bytes)
    requires NoLineEnd(line)
    ensures Find(line + CRLF + rest, CRLF) == |line| && (line + CRLF + rest)[..|line|] == line
  {
    var t := line + CRLF;
    assert t[|line|..|line| + 2] == CRLF;
    assert Occurs(t, CRLF, |line|);
    assert Find(t, CRLF) == |line|;
    FindPrefix(t, rest, CRLF);
  }

  // ----- encoded chunks

  lemma ChunkParts(line: bytes, data: bytes, more: bytes, rest: bytes)
    ensures var s := line + CRLF + data + CRLF + more + rest;
      && s == line + CRLF + (data + CRLF + (more + rest))
      && s[|line| + 2..|line| + 2 + |data|] == data && s[|line| + |data| + 4..] == more + rest
      && |s| == |line| + |data| + 4 + |more + rest|
  {
    var s := line + CRLF + data + CRLF + more + rest;
    assert s == (line + CRLF + data + CRLF) + (more + rest);
    assert s == (line + CRLF) + (data + (CRLF + more + rest));
  }

  lemma DecodeChunk(s: bytes, line: bytes, data: bytes, more: bytes)
    requires |s| < LIMIT && Find(s, CRLF) == |line| < |s| && s[..|line|] == line && SizeOf(line) == |data| > 0
    requires |s| == |line| + |data| + 4 + |more|
    requires s[|line| + 2..|line| + 2 + |data|] == data && s[|line| + |data| + 4..] == more
    ensures Decode(s) == Prepend(data, Decode(more)) && (Torn(s) <==> Torn(more))
  {
    hide SizeOf, ChunkEnd, Receive, Torn, Find;
    LineEnds(s);
    SizeRange(line);
    ChunkEndIs(s, |line|, |data|);
    Alone(s);
    Alone(more);
    ReceiveChunk(s, [], |line|, |data|);
    TornChunk(s, |line|, |data|);
  }

  lemma DecodeLast(s: bytes, i: nat)
    requires |s| < LIMIT && Find(s, CRLF) == i < |s| && SizeOf(s[..i]) == 0
    ensures Decode(s) == Complete([]) && !Torn(s)
  {
    LineEnds(s);
    Alone(s);
    ReceiveLast(s, [], i);
  }

  lemma DecodeFirst(c: Chunk, more: bytes, rest: bytes)
    requires c.Valid() && |c.digits + c.ext + CRLF + c.data + CRLF + more + rest| < LIMIT
    ensures |more + rest| < LIMIT
    ensures var s := c.digits + c.ext + CRLF + c.data + CRLF + more + rest;
      Decode(s) == Prepend(c.data, Decode(more + rest)) && (Torn(s) <==> Torn(more + rest))
  {
    hide Find, SizeOf, NoLineEnd, Decode, Torn, ValueFrom;
    var line := c.digits + c.ext;
    ChunkParts(line, c.data, more, rest);
    SizeLine(c.digits, c.ext);
    NoReturn(c.digits, c.ext);
    FindLine(line, c.data + CRLF + (more + rest));
    DecodeChunk(c.digits + c.ext + CRLF + c.data + CRLF + more + rest, line, c.data, more + rest);
  }

  /** Encoded chunks decode to the concatenation of their data, whatever follows: the trailer is not
      waited for. */
  lemma {:induction false} DecodeEncoded(chunks: seq<Chunk>, zeros: bytes, ext: bytes, rest: bytes)
    requires (forall i :: 0 <= i < |chunks| ==> chunks[i].Valid()) && LastChunk(zeros, ext)
    requires |Encode(chunks, zeros + ext) + rest| < LIMIT
    ensures Decode(Encode(chunks, zeros + ext) + rest) == Complete(DataOf(chunks))
    ensures !Torn(Encode(chunks, zeros + ext) + rest)
    decreases |chunks|
  {
    hide Find, SizeOf, NoLineEnd, Decode, Torn, ValueFrom;
    var s := Encode(chunks, zeros + ext) + rest;
    if chunks == [] {
      Zeros(zeros);
      SizeLine(zeros, ext);
      NoReturn(zeros, ext);
      FindLine(zeros + ext, rest);
      DecodeLast(s, |zeros + ext|);
    } else {
      var c, more := chunks[0], Encode(chunks[1..], zeros + ext);
      assert c.Valid();
      ChunkParts(c.digits + c.ext, c.data, more, rest);
      DecodeFirst(c, more, rest);
      DecodeEncoded(chunks[1..], zeros, ext, rest);
    }
  }

  /** However an encoded body is cut into reads, its data is what is received. */
  lemma ReceiveEncoded(chunks: seq<Chunk>, zeros: bytes, ext: bytes, rest: bytes, body: bytes, pieces: seq<bytes>)
    requires (forall i :: 0 <= i < |chunks| ==> chunks[i].Valid()) && LastChunk(zeros, ext)
    requires Delivers(pieces) && body + Flatten(pieces) == Encode(chunks, zeros + ext) + rest
    requires |body + Flatten(pieces)| < LIMIT
    ensures Receive(body, pieces) == Complete(DataOf(chunks))
  {
    hide Receive, Torn;
    DecodeEncoded(chunks, zeros, ext, rest);
    OnePiece(body, pieces);
  }

  /** A header ends with the first empty line. */
  ghost predicate IsHeader(header: bytes) {
    |header| >= 4 && Find(header, HEADER_END) + 4 == |header|
  }

  /** A header, an encoded body, and anything. */
  ghost predicate IsResponse(all: bytes, header: bytes, chunks: seq<Chunk>, zeros: bytes, ext: bytes, rest: bytes) {
    && IsHeader(header) && (forall i :: 0 <= i < |chunks| ==> chunks[i].Valid()) && LastChunk(zeros, ext)
    && all == header + (Encode(chunks, zeros + ext) + rest)
  }

  lemma ResponseParts(all: bytes, header: bytes, chunks: seq<Chunk>, zeros: bytes, ext: bytes, rest: bytes)
    requires IsResponse(all, header, chunks, zeros, ext, rest) && |all| < LIMIT
    ensures Find(all, HEADER_END) + 4 == |header| <= |all| && all[..|header|] == header
    ensures Independent(all[|header|..]) && Decode(all[|header|..]) == Complete(DataOf(chunks))
  {
    hide Find, Decode, Independent, Torn;
    var body := Encode(chunks, zeros + ext) + rest;
    FindPrefix(header, body, HEADER_END);
    DecodeEncoded(chunks, zeros, ext, rest);
    CutsMatter(body);
    assert all[|header|..] == body;
  }

  /** Some cut of the stream leads to this outcome. */
  ghost predicate Possible(s: bytes, r: Outcome)
    requires |s| < LIMIT
  {
    exists body: bytes, pieces: seq<bytes> {:trigger Receive(body, pieces)} ::
      Delivers(pieces) && body + Flatten(pieces) == s && r == Receive(body, pieces)
  }

  lemma OutcomeOf(s: bytes, body: bytes, pieces: seq<bytes>)
    requires |s| < LIMIT && Delivers(pieces) && body + Flatten(pieces) == s
    ensures Possible(s, Receive(body, pieces)) && (Independent(s) ==> Receive(body, pieces) == Decode(s))
  {
    hide Receive, Decode, Delivers;
  }

  /** HttpClient::getResponse for a chunked body.  What came with the header is the first part of the
      body.  The outcome is that of the whole stream wherever cuts do not matter, and an encoded response
      is received completely, whatever the cuts. */
  method GetResponse(pieces: seq<bytes>) returns (header: bytes, r: Outcome)
    requires Delivers(pieces) && |Flatten(pieces)| < LIMIT
    ensures var all := Flatten(pieces);
      var end := Find(all, HEADER_END);
      if end < |all| then
        && end + 4 <= |all| && header == all[..end + 4]
        && Possible(all[end + 4..], r) && (Independent(all[end + 4..]) ==> r == Decode(all[end + 4..]))
      else r == Failed
    ensures forall h, chunks, zeros, ext, rest :: IsResponse(Flatten(pieces), h, chunks, zeros, ext, rest) ==>
      header == h && r == Complete(DataOf(chunks))
  {
    hide Flatten, Find, Receive, Decode, Delivers, Independent, IsResponse, Possible;
    ghost var all := Flatten(pieces);
    forall h, chunks, zeros, ext, rest | IsResponse(all, h, chunks, zeros, ext, rest)
      ensures Find(all, HEADER_END) + 4 == |h| <= |all| && all[..|h|] == h
      ensures Independent(all[|h|..]) && Decode(all[|h|..]) == Complete(DataOf(chunks))
    {
      ResponseParts(all, h, chunks, zeros, ext, rest);
    }
    var socket := new Socket(pieces);
    var complete, body;
    complete, header, body := DownloadHeader(socket);
    if !complete {
      return header, Failed;
    }
    OutcomeOf(all[Find(all, HEADER_END) + 4..], body, socket.rest);
    r := DownloadChunkedBody(socket, body);
  }

  // ----- every size has a line

  const LOWER := "0123456789abcdef"
  const UPPER := "0123456789ABCDEF"

  function HexDigit(d: nat, upper: bool): byte
    requires d < 16
  {
    (if upper then UPPER[d] else LOWER[d]) as byte
  }

  /** The sixteen digits in either case, and nothing else. */
  lemma DigitValue(c: byte, d: nat)
    requires d < 16
    ensures Hex(c) == d <==> c == LOWER[d] as byte || c == UPPER[d] as byte
    ensures -1 <= Hex(c) < 16
  {}

  /** A number in hexadecimal, as printf writes it for %x and %X. */
  function HexOf(n: nat, upper: bool): (s: bytes)
    ensures ChunkSize(s)
  {
    DigitValue(HexDigit(n % 16, upper), n % 16);
    if n < 16 then [HexDigit(n, upper)] else HexOf(n / 16, upper) + [HexDigit(n % 16, upper)]
  }

  lemma {:induction false} ValueSnoc(a: bytes, d: byte, v: nat)
    requires (forall i :: 0 <= i < |a| ==> Hex(a[i]) >= 0) && Hex(d) >= 0
    ensures ValueFrom(a + [d], v) == 16 * ValueFrom(a, v) + Hex(d)
  {
    if a == [] {
      assert (a + [d])[1..] == [];
    } else {
      assert (a + [d])[1..] == a[1..] + [d];
      ValueSnoc(a[1..], d, 16 * v + Hex(a[0]));
    }
  }

  lemma {:induction false} HexOfValue(n: nat, upper: bool)
    ensures Value(HexOf(n, upper)) == n
  {
    hide Hex, HexDigit;
    DigitValue(HexDigit(n % 16, upper), n % 16);
    HexDigitIs(n % 16, upper);
    if n < 16 {
      assert HexOf(n, upper)[1..] == [];
      assert ValueFrom([], 16 * 0 + n) == n;
    } else {
      HexOfValue(n / 16, upper);
      ValueSnoc(HexOf(n / 16, upper), HexDigit(n % 16, upper), 0);
    }
  }

  lemma HexDigitIs(d: nat, upper: bool)
    requires d < 16
    ensures HexDigit(d, upper) == (if upper then UPPER[d] else LOWER[d]) as byte
  {}

  /** So every block of data has a valid chunk, in upper and in lower case. */
  lemma PlainChunk(data: bytes, upper: bool)
    requires data != []
    ensures Chunk(HexOf(|data|, upper), [], data).Valid()
  {
    HexOfValue(|data|, upper);
  }

  // ----- a torn stream

  const F: byte := 102

  /** n times the digit f after the number v */
  lemma {:induction false} AllF(n: nat, v: nat)
    ensures ValueFrom(seq(n, _ => F), v) == if n == 0 then v else ValueFrom(seq(n - 1, _ => F), 16 * v + 15)
  {
    if n > 0 {
      assert seq(n, _ => F)[1..] == seq(n - 1, _ => F);
    }
  }

  lemma MinusOne()
    ensures SizeOf([F, F, F, F, F, F, F, F]) == -1
  {
    hide SizeOf;
    var s := [F, F, F, F, F, F, F, F];
    assert s == seq(8, _ => F) && s + [] == s;
    AllF(8, 0);
    SevenF();
    SizeOfValue(s, []);
  }

  lemma SevenF()
    ensures ValueFrom(seq(7, _ => F), 0) == 0xFFF_FFFF && ValueFrom(seq(7, _ => F), 0xF) == 0xFFFF_FFFF
  {
    AllF(7, 0);
    AllF(7, 0xF);
    AllF(6, 0xF);
    AllF(6, 0xFF);
    AllF(5, 0xFF);
    AllF(5, 0xFFF);
    AllF(4, 0xFFF);
    AllF(4, 0xFFFF);
    AllF(3, 0xFFFF);
    AllF(3, 0xF_FFFF);
    AllF(2, 0xF_FFFF);
    AllF(2, 0xFF_FFFF);
    AllF(1, 0xFF_FFFF);
    AllF(1, 0xFFF_FFFF);
    AllF(0, 0xFFF_FFFF);
    AllF(0, 0xFFFF_FFFF);
  }

  /** ffffffff CR LF X0 CR LF, received at once or with a cut behind the X, ends with different data. */
  lemma TornExample()
    ensures var line := [F, F, F, F, F, F, F, F] + CRLF;
      && Receive(line + [88, 48] + CRLF, []) == Complete([88, 48] + CRLF)
      && Receive(line + [88], [[48] + CRLF]) == Complete([88])
  {
    hide Find, SizeOf, Receive;
    MinusOne();
    var fs := [F, F, F, F, F, F, F, F];
    var all := fs + CRLF + [88, 48] + CRLF;
    var some := fs + CRLF + [88];
    NoReturn(fs, []);
    assert fs + [] == fs;
    FindLine(fs, [88, 48] + CRLF);
    FindLine(fs, [88]);
    assert all == fs + CRLF + ([88, 48] + CRLF);
    var last := [48] + CRLF;
    FlattenSingle(last);
    Alone(all);
    Alone(last);
    NoReturn([48], []);
    assert [48] + [] == [48];
    FindLine([48], []);
    assert [48] + CRLF + [] == last;
    SizeLine([48], []);
    Zeros([48]);
    ReceiveChunk(all, [], 8, -1);
    ReceiveChunk(some, [last], 8, -1);
    assert all[11..] == last && some[11..] == [];
    ReceiveLast(last, [], 1);
    FindNothing(CRLF);
    ReceiveMore([], [last]);
    assert [] + last == last;
  }

  lemma MinusTwelve()
    ensures SizeOf([F, F, F, F, F, F, F, 52]) == -12
  {
    hide SizeOf;
    var s := [F, F, F, F, F, F, F];
    var line := s + [52];
    assert line == [F, F, F, F, F, F, F, 52];
    assert s == seq(7, _ => F) && line + [] == line;
    SevenF();
    ValueSnoc(s, 52, 0);
    SizeOfValue(line, []);
  }

  /** After the size line fffffff4 nothing is taken off the body, and the loop is never left. */
  lemma EndlessExample(pieces: seq<bytes>)
    requires |[F, F, F, F, F, F, F, 52] + CRLF + Flatten(pieces)| < LIMIT
    ensures Receive([F, F, F, F, F, F, F, 52] + CRLF, pieces) == Endless
  {
    hide Find, SizeOf, Receive;
    var line := [F, F, F, F, F, F, F, 52];
    MinusTwelve();
    NoReturn(line, []);
    assert line + [] == line;
    FindLine(line, []);
    assert line + CRLF + [] == line + CRLF;
    ReceiveChunk(line + CRLF, pieces, 8, -12);
  }
}
