module Bytes {
  newtype byte = x: int | 0 <= x < 256
  type bytes = seq<byte>

  ghost function Flatten(parts: seq<bytes>): bytes
  {
    if parts == [] then [] else parts[0] + Flatten(parts[1..])
  }

  lemma Assoc(a: bytes, b: bytes, c: bytes)
    ensures (a + b) + c == a + (b + c)
  {}

  lemma Rejoin(s: bytes, n: nat)
    requires n <= |s|
    ensures s[..n] + s[n..] == s
  {}

  lemma {:induction false} FlattenConcat(a: seq<bytes>, b: seq<bytes>)
    ensures Flatten(a + b) == Flatten(a) + Flatten(b)
  {
    if a == [] {
      assert a + b == b;
    } else {
      FlattenConcat(a[1..], b);
      assert (a + b)[1..] == a[1..] + b;
      assert (a + b)[0] == a[0];
      Assoc(a[0], Flatten(a[1..]), Flatten(b));
    }
  }

  lemma FlattenSingle(p: bytes)
    ensures Flatten([p]) == p
  {
    assert Flatten([p]) == p + Flatten([p][1..]);
  }

  lemma FlattenCons(p: bytes, parts: seq<bytes>)
    ensures Flatten([p] + parts) == p + Flatten(parts)
  {
    assert ([p] + parts)[1..] == parts;
  }

  lemma SplitAt(parts: seq<bytes>, i: nat)
    requires i < |parts|
    ensures parts == parts[..i] + ([parts[i]] + parts[i + 1..])
  {}

  lemma FlattenSplit(parts: seq<bytes>, i: nat)
    requires i < |parts|
    ensures Flatten(parts) == Flatten(parts[..i]) + (parts[i] + Flatten(parts[i + 1..]))
  {
    SplitAt(parts, i);
    FlattenConcat(parts[..i], [parts[i]] + parts[i + 1..]);
    FlattenCons(parts[i], parts[i + 1..]);
  }

  lemma FlattenSnoc(parts: seq<bytes>, p: bytes)
    ensures Flatten(parts + [p]) == Flatten(parts) + p
  {
    FlattenConcat(parts, [p]);
    FlattenSingle(p);
  }

  lemma FlattenGrowLast(parts: seq<bytes>, d: bytes)
    requires parts != []
    ensures Flatten(parts[|parts| - 1 := parts[|parts| - 1] + d]) == Flatten(parts) + d
  {
    var m := |parts| - 1;
    var a := parts[..m];
    assert parts == a + [parts[m]];
    assert parts[m := parts[m] + d] == a + [parts[m] + d];
    FlattenSnoc(a, parts[m]);
    FlattenSnoc(a, parts[m] + d);
    Assoc(Flatten(a), parts[m], d);
  }

  ghost predicate AllEmpty(parts: seq<bytes>)
  {
    forall i :: 0 <= i < |parts| ==> parts[i] == []
  }

  lemma {:induction false} FlattenAllEmpty(parts: seq<bytes>)
    requires AllEmpty(parts)
    ensures Flatten(parts) == []
  {
    if parts != [] {
      FlattenAllEmpty(parts[1..]);
    }
  }

  /** Parts that hold nothing may be dropped from the end. */
  lemma FlattenDropEmpty(parts: seq<bytes>, i: nat)
    requires i <= |parts|
    requires AllEmpty(parts[i..])
    ensures Flatten(parts) == Flatten(parts[..i])
  {
    assert parts == parts[..i] + parts[i..];
    FlattenConcat(parts[..i], parts[i..]);
    FlattenAllEmpty(parts[i..]);
  }

  lemma FlattenGrowFirst(parts: seq<bytes>, d: bytes)
    requires parts != []
    ensures Flatten(parts[0 := d + parts[0]]) == d + Flatten(parts)
  {
    var q := parts[0 := d + parts[0]];
    assert q[1..] == parts[1..];
    Assoc(d, parts[0], Flatten(parts[1..]));
  }

  lemma FlattenTakeDrop(parts: seq<bytes>, i: nat)
    requires i <= |parts|
    ensures Flatten(parts) == Flatten(parts[..i]) + Flatten(parts[i..])
  {
    assert parts == parts[..i] + parts[i..];
    FlattenConcat(parts[..i], parts[i..]);
  }

  /** The flat position of part i grows by the length of the part. */
  lemma FlattenStep(parts: seq<bytes>, i: nat)
    requires i < |parts|
    ensures Flatten(parts[..i + 1]) == Flatten(parts[..i]) + parts[i]
  {
    assert parts[..i + 1] == parts[..i] + [parts[i]];
    FlattenSnoc(parts[..i], parts[i]);
  }

  lemma DropSum(a: bytes, b: bytes, n: nat)
    requires |a| <= n <= |a + b|
    ensures (a + b)[n..] == b[n - |a|..]
  {}

  lemma DropLess(a: bytes, b: bytes, n: nat)
    requires n <= |a|
    ensures (a + b)[n..] == a[n..] + b
  {}

  /** Dropping i parts and n bytes of part i drops that prefix of the flat string. */
  lemma FlattenDrop(parts: seq<bytes>, i: nat, n: nat)
    requires i < |parts| && n <= |parts[i]|
    ensures |Flatten(parts[..i])| + n <= |Flatten(parts)|
    ensures Flatten(parts)[|Flatten(parts[..i])| + n..] == Flatten(parts[i..][0 := parts[i][n..]])
  {
    FlattenTakeDrop(parts, i);
    var rest := parts[i..];
    assert Flatten(rest) == parts[i] + Flatten(rest[1..]);
    DropSum(Flatten(parts[..i]), Flatten(rest), |Flatten(parts[..i])| + n);
    DropLess(parts[i], Flatten(rest[1..]), n);
    assert rest[0 := parts[i][n..]][1..] == rest[1..];
  }

  lemma SomePart(parts: seq<bytes>)
    requires Flatten(parts) != []
    ensures parts != []
  {}

  lemma NoBytes(parts: seq<bytes>)
    ensures Flatten(parts[..0]) == []
  {}

  lemma SliceJoin(s: bytes, a: nat, b: nat, c: nat)
    requires a <= b <= c <= |s|
    ensures s[a..b] + s[b..c] == s[a..c]
  {}

  lemma SliceInMiddle(a: bytes, b: bytes, c: bytes, from: nat, to: nat)
    requires from <= to <= |b|
    ensures (a + (b + c))[|a| + from..|a| + to] == b[from..to]
  {}

  /** A piece of part i, seen in the flat string. */
  lemma FlattenPiece(parts: seq<bytes>, i: nat, from: nat, to: nat)
    requires i < |parts| && from <= to <= |parts[i]|
    ensures |Flatten(parts[..i])| + to <= |Flatten(parts)|
    ensures Flatten(parts)[|Flatten(parts[..i])| + from..|Flatten(parts[..i])| + to] == parts[i][from..to]
  {
    FlattenSplit(parts, i);
    SliceInMiddle(Flatten(parts[..i]), parts[i], Flatten(parts[i + 1..]), from, to);
  }

  lemma AllParts(parts: seq<bytes>)
    ensures parts[..|parts|] == parts
  {}

  lemma SliceOfSlice(s: bytes, a: nat, b: nat, from: nat, to: nat)
    requires a <= b <= |s| && from <= to <= b - a
    ensures s[a..b][from..to] == s[a + from..a + to]
  {
    var t := s[a..b];
    forall i | 0 <= i < to - from
      ensures t[from..to][i] == s[a + from..a + to][i]
    {
      assert t[from + i] == s[a + from + i];
    }
  }

  // ----- occurrences of a string

  predicate Occurs(s: bytes, what: bytes, i: int) {
    0 <= i && i + |what| <= |s| && s[i..i + |what|] == what
  }

  ghost predicate NoneBetween(s: bytes, what: bytes, from: int, to: int) {
    forall j :: from <= j < to ==> !Occurs(s, what, j)
  }

  /** std::string::find: the first occurrence from a position on, or |s|. */
  function FindFrom(s: bytes, what: bytes, from: nat): (i: nat)
    requires what != [] && from <= |s| && NoneBetween(s, what, 0, from)
    ensures i <= |s| && NoneBetween(s, what, 0, i) && (i < |s| ==> Occurs(s, what, i))
    decreases |s| - from
  {
    if from == |s| || Occurs(s, what, from) then from else FindFrom(s, what, from + 1)
  }

  function Find(s: bytes, what: bytes): (i: nat)
    requires what != []
    ensures i <= |s| && NoneBetween(s, what, 0, i) && (i < |s| ==> Occurs(s, what, i))
  {
    FindFrom(s, what, 0)
  }

  /** What is found stays found, and what is not found so far starts near the end. */
  lemma FindPrefix(s: bytes, t: bytes, what: bytes)
    requires what != []
    ensures Find(s, what) < |s| ==> Find(s + t, what) == Find(s, what)
  {
    var i := Find(s, what);
    var k := Find(s + t, what);
    if i < |s| {
      assert (s + t)[i..i + |what|] == s[i..i + |what|];
      assert Occurs(s + t, what, i);
      forall j | 0 <= j < i
        ensures !Occurs(s + t, what, j)
      {
        assert !Occurs(s, what, j);
        assert (s + t)[j..j + |what|] == s[j..j + |what|];
      }
    }
  }
}
