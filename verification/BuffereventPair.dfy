/** bufferevent_pair.c: two ends, what is written at one is read at the other. */
module BuffereventPair {
  import opened Bufferevents
  import opened Bytes
  import opened CInts
  import opened EvbufferMove
  import opened EvbufferRead
  import opened EvbufferTransfer
  import opened EvbufferWrite
  import opened Evbuffers

  /** One end of a pair. */
  class End {
    const input: Evbuffer
    const output: Evbuffer
    var enabled: set<Dir>
    var readSuspended: set<Reason>
    /** wm_read.high; 0 is no limit. */
    var high: nat

    /** Everything the user of this end ever wrote, and ever read. */
    ghost var written: bytes
    ghost var consumed: bytes

    /** bufferevent_pair_elt_new, and the freezing that bufferevent_pair_new does. */
    constructor ()
      ensures fresh(input) && fresh(output) && input != output && input.Repr == {} && output.Repr == {}
      ensures input.Tidy() && output.Tidy() && Frozen() && input.Contents() == [] && output.Contents() == []
      ensures written == [] && consumed == [] && readSuspended == {} && high == 0
      ensures enabled == {Write}
    {
      input := new Evbuffer();
      output := new Evbuffer();
      enabled, readSuspended, high := {Write}, {}, 0;
      written, consumed := [], [];
      new;
      hide Evbuffer.Body, Flatten, ExactAt, NoEmptyPart;
      input.Freeze(false, true);
      output.Freeze(true, true);
    }

    /** Only a transfer may append to the input or take from the output. */
    ghost predicate Frozen()
      reads input, output
    {
      input.freezeEnd && !input.freezeStart && output.freezeStart && !output.freezeEnd
    }
  }

  /** How many of the bytes that wait go over to an input that holds some already: up to the mark, or all if
      there is none, or if it is to be ignored and has been reached already. */
  function Crossing(waiting: nat, there: nat, high: nat, ignoreWm: bool): nat {
    if high == 0 || (ignoreWm && there >= high) then waiting
    else if there >= high then 0
    else Min(high - there, waiting)
  }

  /** What be_pair_transfer does to the two buffers. */
  method MoveBytes(out: Evbuffer, inp: Evbuffer, high: nat, ignoreWm: bool, malloc: Malloc)
    requires out.Tidy() && inp.Tidy() && Apart(out, inp) && NeverFails(malloc)
    requires out.freezeStart && !out.freezeEnd && inp.freezeEnd && !inp.freezeStart
    requires out.totalLen + inp.totalLen <= MAX_REQUEST
    modifies out, out.Repr, inp, inp.Repr
    ensures out.Tidy() && inp.Tidy() && Apart(out, inp)
    ensures fresh(out.Repr + inp.Repr - old(out.Repr) - old(inp.Repr))
    ensures out.freezeStart && !out.freezeEnd && inp.freezeEnd && !inp.freezeStart
    ensures var a, b := old(inp.Contents()), old(out.Contents());
      var n := Crossing(|b|, |a|, high, ignoreWm);
      inp.Contents() == a + b[..n] && out.Contents() == b[n..]
  {
    hide Evbuffer.Body, Flatten, ExactAt, NoEmptyPart, Reaching, CopySafe, CopyGranted, SrcStaysExact, DstStaysExact;
    ghost var a, b := inp.Contents(), out.Contents();
    NoneOrAll(a, b);
    inp.TotalIs();
    out.TotalIs();
    out.Freeze(true, false);
    inp.Freeze(false, false);
    if high != 0 {
      var size := inp.totalLen;
      if size < high {
        var n := high - size;
        if n < out.totalLen {
          ReachingAll(out, inp, n, malloc);
        }
        var r, moved, _ := RemoveBuffer(out, inp, n, malloc);
      } else if ignoreWm {
        var r := AddBuffer(inp, out);
      }
    } else {
      var r := AddBuffer(inp, out);
    }
    out.Freeze(true, true);
    inp.Freeze(false, true);
  }

  lemma NoneOrAll(a: bytes, b: bytes)
    ensures a + b[..0] == a && b[0..] == b && b[..|b|] == b && b[|b|..] == []
  {}

  /** Whatever goes over, the order of the bytes is kept. */
  lemma MovedOver(a: bytes, b: bytes, n: nat)
    requires n <= |b|
    ensures (a + b[..n]) + b[n..] == a + b
  {
    Rejoin(b, n);
  }

  // ----- both ends

  /** The four buffers share nothing, and own neither end. */
  ghost predicate Separate(a: End, b: End)
    reads a.input`Repr, a.output`Repr, b.input`Repr, b.output`Repr
  {
    && a != b
    && Apart(a.input, a.output) && Apart(a.input, b.input) && Apart(a.input, b.output)
    && Apart(a.output, b.input) && Apart(a.output, b.output) && Apart(b.input, b.output)
    && {a, b} !! a.input.Repr + a.output.Repr + b.input.Repr + b.output.Repr
  }

  /** Everything written at src has been read at dst, or waits in the input of dst or the output of src,
      in this order. */
  ghost predicate Fifo(src: End, dst: End)
    reads src`written, dst`consumed, src.output`parts, dst.input`parts
  {
    dst.consumed + (dst.input.Contents() + src.output.Contents()) == src.written && |src.written| <= MAX_REQUEST
  }

  /** be_pair_wants_to_talk, but for there being something to say. */
  predicate CanTalk(src: End, dst: End)
    reads src`enabled, dst`enabled, dst`readSuspended
  {
    Write in src.enabled && Read in dst.enabled && dst.readSuspended == {}
  }

  /** Nothing waits that could have been handed over. */
  ghost predicate Settled(src: End, dst: End)
    reads src`enabled, dst`enabled, dst`readSuspended, dst`high, src.output`parts, dst.input`parts
  {
    CanTalk(src, dst) ==> src.output.Contents() == [] || (dst.high > 0 && |dst.input.Contents()| >= dst.high)
  }

  ghost predicate Intact(a: End, b: End)
    reads a, b, a.input, a.output, b.input, b.output, a.input.Repr, a.output.Repr, b.input.Repr, b.output.Repr
  {
    && Separate(a, b) && a.Frozen() && b.Frozen()
    && a.input.Tidy() && a.output.Tidy() && b.input.Tidy() && b.output.Tidy()
    && Fifo(a, b) && Fifo(b, a)
  }

  /** Reading is suspended for the mark exactly while that is reached, if these are the reasons. */
  ghost predicate MarkIs(e: End, reasons: set<Reason>)
    reads e`high, e.input`parts
  {
    Watermark in reasons <==> e.high > 0 && |e.input.Contents()| >= e.high
  }

  ghost predicate Marked(e: End)
    reads e`high, e`readSuspended, e.input`parts
  {
    MarkIs(e, e.readSuspended)
  }

  ghost predicate Good(a: End, b: End)
    reads a, b, a.input, a.output, b.input, b.output, a.input.Repr, a.output.Repr, b.input.Repr, b.output.Repr
  {
    Intact(a, b) && Settled(a, b) && Settled(b, a) && Marked(a) && Marked(b)
  }

  /** dst reads what src writes, unless its mark is reached. */
  ghost predicate Hears(src: End, dst: End)
    reads src`enabled, dst`enabled, dst`readSuspended
  {
    Write in src.enabled && Read in dst.enabled && dst.readSuspended <= {Watermark}
  }

  /** Bytes wait only while the mark is reached, or somebody wants it so. */
  lemma NothingWaits(src: End, dst: End)
    requires Good(src, dst) && Hears(src, dst)
    ensures src.output.Contents() == [] || (dst.high > 0 && |dst.input.Contents()| >= dst.high)
  {
    hide Intact;
  }

  /** Everything that ever came over. */
  ghost function Received(e: End): bytes
    reads e`consumed, e.input`parts
  {
    e.consumed + e.input.Contents()
  }

  /** Bytes come over only from an end that writes to an end that reads, and not beyond its mark. */
  twostate predicate Came(src: End, dst: End)
    reads src`enabled, dst`enabled, dst`readSuspended, dst`high, dst`consumed, dst.input`parts
  {
    Received(dst) == old(Received(dst)) ||
    (Hears(src, dst) && (dst.high > 0 ==> |dst.input.Contents()| <= dst.high))
  }

  /** The first n bytes that wait go over. */
  twostate predicate Crossed(src: End, dst: End, n: nat)
    reads src.output`parts, dst.input`parts
  {
    var a, b := old(dst.input.Contents()), old(src.output.Contents());
    n <= |b| && dst.input.Contents() == a + b[..n] && src.output.Contents() == b[n..]
  }

  ghost function CrossingOf(src: End, dst: End, ignoreWm: bool): nat
    reads src.output`parts, dst.input`parts, dst`high
  {
    Crossing(|src.output.Contents()|, |dst.input.Contents()|, dst.high, ignoreWm)
  }

  ghost function Footprint(a: End, b: End): set<object>
    reads a.input, a.output, b.input, b.output
  {
    {a.input, a.output, b.input, b.output} + a.input.Repr + a.output.Repr + b.input.Repr + b.output.Repr
  }

  /** bufferevent_pair_new */
  method NewPair() returns (a: End, b: End)
    ensures fresh(a) && fresh(b) && fresh(Footprint(a, b))
    ensures Good(a, b) && a.written == b.written == [] && Untouched(a) && Untouched(b)
  {
    hide Evbuffer.Body, Flatten, ExactAt, NoEmptyPart;
    a := new End();
    b := new End();
    assert a.consumed + (a.input.Contents() + b.output.Contents()) == [];
    assert b.consumed + (b.input.Contents() + a.output.Contents()) == [];
  }

  lemma Sizes(src: End, dst: End)
    requires Fifo(src, dst) && src.output.Shape() && dst.input.Shape()
    ensures src.output.totalLen + dst.input.totalLen <= MAX_REQUEST
  {
    hide Evbuffer.Body, Flatten;
  }

  twostate lemma StillSeparate(new src: End, new dst: End)
    requires old(allocated(src) && allocated(dst)) && old(Separate(src, dst))
    requires src.input.Repr == old(src.input.Repr) && dst.output.Repr == old(dst.output.Repr)
    requires Apart(src.output, dst.input)
    requires fresh(src.output.Repr + dst.input.Repr - old(src.output.Repr) - old(dst.input.Repr))
    ensures Separate(src, dst)
  {}

  /** The part of be_pair_transfer that concerns the buffers. */
  method TransferBytes(src: End, dst: End, ignoreWm: bool, malloc: Malloc)
    requires Separate(src, dst) && src.Frozen() && dst.Frozen() && NeverFails(malloc)
    requires src.output.Tidy() && dst.input.Tidy() && src.output.totalLen + dst.input.totalLen <= MAX_REQUEST
    modifies src.output, src.output.Repr, dst.input, dst.input.Repr
    ensures Separate(src, dst) && src.Frozen() && dst.Frozen()
    ensures src.output.Tidy() && dst.input.Tidy()
    ensures fresh(src.output.Repr + dst.input.Repr - old(src.output.Repr) - old(dst.input.Repr))
    ensures Crossed(src, dst, old(CrossingOf(src, dst, ignoreWm)))
    ensures dst.input.Contents() + src.output.Contents() == old(dst.input.Contents()) + old(src.output.Contents())
  {
    hide Evbuffer.Shape, Flatten, ExactAt, NoEmptyPart;
    MovedOver(dst.input.Contents(), src.output.Contents(), CrossingOf(src, dst, ignoreWm));
    MoveBytes(src.output, dst.input, dst.high, ignoreWm, malloc);
    StillSeparate(src, dst);
  }

  lemma TidyTotal(buf: Evbuffer)
    requires buf.Tidy()
    ensures buf.totalLen == |buf.Contents()|
  {}

  /** bufferevent_inbuf_wm_cb on an input that has grown; when reading resumes, there is nothing more to
      take. */
  method InputGrown(dst: End)
    requires dst.input.Shape() && dst.high > 0
    modifies dst`readSuspended
    ensures dst.readSuspended - {Watermark} == old(dst.readSuspended) - {Watermark} && Marked(dst)
  {
    dst.input.TotalIs();
    if dst.input.totalLen >= dst.high {
      dst.readSuspended := dst.readSuspended + {Watermark};
    } else {
      dst.readSuspended := dst.readSuspended - {Watermark};
    }
  }

  /** Only the mark may have begun or ceased to be a reason not to read. */
  twostate predicate SameMark(e: End)
    reads e`high, e`readSuspended
  {
    e.high == old(e.high) && e.readSuspended - {Watermark} == old(e.readSuspended) - {Watermark}
  }

  /** Nor was anything written, read, enabled or disabled. */
  twostate predicate SameEnd(e: End)
    reads e
  {
    SameMark(e) && e.enabled == old(e.enabled) && e.written == old(e.written) && e.consumed == old(e.consumed)
  }

  /** be_pair_transfer */
  method Transfer(src: End, dst: End, ignoreWm: bool, malloc: Malloc)
    requires Intact(src, dst) && NeverFails(malloc)
    modifies src.output, src.output.Repr, dst.input, dst.input.Repr, dst`readSuspended
    ensures Intact(src, dst) && fresh(Footprint(src, dst) - old(Footprint(src, dst)))
    ensures Settled(src, dst) && (old(Settled(dst, src)) ==> Settled(dst, src))
    ensures Crossed(src, dst, old(CrossingOf(src, dst, ignoreWm)))
    ensures old(Marked(dst)) ==> Marked(dst)
    ensures src.readSuspended == old(src.readSuspended) && SameEnd(src) && SameEnd(dst)
    ensures src.input.Contents() == old(src.input.Contents()) && dst.output.Contents() == old(dst.output.Contents())
  {
    hide Evbuffer.Shape, Flatten, ExactAt, NoEmptyPart;
    NoneOrAll(dst.input.Contents(), src.output.Contents());
    Sizes(src, dst);
    dst.input.TotalIs();
    var size := dst.input.totalLen;
    TransferBytes(src, dst, ignoreWm, malloc);
    src.input.StillValid();
    dst.output.StillValid();
    dst.input.TotalIs();
    if dst.high > 0 && dst.input.totalLen != size {
      InputGrown(dst);
    }
  }

  // ----- what the users of the two ends do

  /** A write that the output takes. */
  method PutOutput(a: End, b: End, data: bytes, malloc: Malloc)
    requires Intact(a, b) && NeverFails(malloc) && |a.written| + |data| <= MAX_REQUEST
    modifies a.output, a.output.Repr, a`written
    ensures Intact(a, b) && fresh(a.output.Repr - old(a.output.Repr)) && a.written == old(a.written) + data
    ensures a.output.Contents() == old(a.output.Contents()) + data
  {
    hide Evbuffer.Shape, Flatten, ExactAt, NoEmptyPart, AddSafe, AddKeepsExact, AddGranted;
    Sizes(a, b);
    var _, _ := Add(a.output, data, malloc);
    a.input.StillValid();
    b.input.StillValid();
    b.output.StillValid();
    StillApart(a, b);
    Assoc(b.input.Contents(), old(a.output.Contents()), data);
    Assoc(b.consumed, b.input.Contents() + old(a.output.Contents()), data);
    a.written := a.written + data;
  }

  twostate lemma StillApart(new a: End, new b: End)
    requires old(allocated(a) && allocated(b)) && old(Separate(a, b))
    requires a.input.Repr == old(a.input.Repr) && b.input.Repr == old(b.input.Repr)
    requires b.output.Repr == old(b.output.Repr)
    requires a.output !in a.output.Repr && fresh(a.output.Repr - old(a.output.Repr))
    ensures Separate(a, b)
  {}

  /** be_pair_wants_to_talk */
  predicate WantsToTalk(src: End, dst: End)
    reads src`enabled, dst`enabled, dst`readSuspended, src.output`totalLen
  {
    CanTalk(src, dst) && src.output.totalLen > 0
  }

  lemma OnlyMark(reasons: set<Reason>)
    ensures reasons - {Watermark} == {} ==> reasons <= {Watermark}
  {
    if reasons - {Watermark} == {} {
      assert forall x :: x in reasons ==> x == Watermark || x in reasons - {Watermark};
    }
  }

  /** Hand over what the partner wants to read. */
  method HandOver(src: End, dst: End, malloc: Malloc)
    requires Intact(src, dst) && NeverFails(malloc)
    modifies src.output, src.output.Repr, dst.input, dst.input.Repr, dst`readSuspended
    ensures Intact(src, dst) && fresh(Footprint(src, dst) - old(Footprint(src, dst)))
    ensures Settled(src, dst) && (old(Settled(dst, src)) ==> Settled(dst, src))
    ensures Came(src, dst) && (old(Marked(dst)) ==> Marked(dst))
    ensures src.readSuspended == old(src.readSuspended) && SameEnd(src) && SameEnd(dst)
    ensures src.input.Contents() == old(src.input.Contents()) && dst.output.Contents() == old(dst.output.Contents())
  {
    hide Evbuffer.Tidy, Evbuffer.Shape, Flatten;
    NoneOrAll(dst.input.Contents(), src.output.Contents());
    TidyTotal(src.output);
    if WantsToTalk(src, dst) {
      Transfer(src, dst, false, malloc);
      OnlyMark(dst.readSuspended);
    }
  }

  lemma Swap(a: End, b: End)
    requires Intact(a, b)
    ensures Intact(b, a) && Footprint(a, b) == Footprint(b, a)
  {
    hide Evbuffer.Tidy, Evbuffer.Shape, Flatten;
  }

  /** bufferevent_write: the callback on the output hands over what the partner wants. */
  method WriteTo(a: End, b: End, data: bytes, malloc: Malloc)
    requires Good(a, b) && NeverFails(malloc) && |a.written| + |data| <= MAX_REQUEST
    modifies a, b, Footprint(a, b)
    ensures Good(a, b) && fresh(Footprint(a, b) - old(Footprint(a, b)))
    ensures a.written == old(a.written) + data && a.consumed == old(a.consumed) && a.enabled == old(a.enabled)
    ensures SameMark(a) && SameEnd(b) && Came(a, b) && Came(b, a)
  {
    hide Evbuffer.Tidy, Evbuffer.Shape, Flatten;
    PutOutput(a, b, data, malloc);
    assert old(a.output.Contents()) + [] == old(a.output.Contents());
    if |data| > 0 {
      HandOver(a, b, malloc);
    }
  }

  /** be_pair_enable */
  method PairEnable(a: End, b: End, events: set<Dir>, malloc: Malloc)
    requires Intact(a, b) && NeverFails(malloc)
    modifies a`readSuspended, b`readSuspended, Footprint(a, b)
    ensures Intact(a, b) && fresh(Footprint(a, b) - old(Footprint(a, b)))
    ensures Read in events || old(Settled(b, a)) ==> Settled(b, a)
    ensures Write in events || old(Settled(a, b)) ==> Settled(a, b)
    ensures old(Marked(a)) ==> Marked(a)
    ensures old(Marked(b)) ==> Marked(b)
    ensures Came(a, b) && Came(b, a)
    ensures SameEnd(a) && SameEnd(b)
  {
    hide Evbuffer.Tidy, Evbuffer.Shape, Flatten, Settled, Intact;
    Swap(a, b);
    if Read in events {
      HandOver(b, a, malloc);
      Swap(b, a);
    }
    if Write in events {
      HandOver(a, b, malloc);
    }
  }

  /** bufferevent_enable; writing is not suspended here. */
  method Enable(a: End, b: End, events: set<Dir>, malloc: Malloc)
    requires Good(a, b) && NeverFails(malloc)
    modifies a, b`readSuspended, Footprint(a, b)
    ensures Good(a, b) && fresh(Footprint(a, b) - old(Footprint(a, b)))
    ensures a.enabled == old(a.enabled) + events && a.written == old(a.written) && a.consumed == old(a.consumed)
    ensures SameMark(a) && SameEnd(b) && Came(a, b) && Came(b, a)
  {
    hide Evbuffer.Tidy, Evbuffer.Shape, Flatten;
    var impl := if a.readSuspended != {} then events - {Read} else events;
    a.enabled := a.enabled + events;
    PairEnable(a, b, impl, malloc);
  }

  /** bufferevent_disable */
  method Disable(a: End, ghost b: End, events: set<Dir>)
    requires Good(a, b)
    modifies a`enabled
    ensures Good(a, b) && a.enabled == old(a.enabled) - events && SameEnd(b)
  {
    hide Evbuffer.Tidy, Evbuffer.Shape, Flatten;
    a.enabled := a.enabled - events;
  }

  /** bufferevent_suspend_read_ */
  method SuspendRead(a: End, ghost b: End, what: Reason)
    requires Good(a, b) && what != Watermark
    modifies a`readSuspended
    ensures Good(a, b) && a.readSuspended == old(a.readSuspended) + {what} && SameEnd(b)
  {
    hide Evbuffer.Tidy, Evbuffer.Shape, Flatten;
    a.readSuspended := a.readSuspended + {what};
  }

  /** bufferevent_unsuspend_read_: reading may start again. */
  method UnsuspendRead(a: End, b: End, what: Reason, malloc: Malloc)
    requires Intact(a, b) && NeverFails(malloc)
    modifies a`readSuspended, b`readSuspended, Footprint(a, b)
    ensures Intact(a, b) && fresh(Footprint(a, b) - old(Footprint(a, b)))
    ensures Settled(b, a) && (old(Settled(a, b)) ==> Settled(a, b))
    ensures old(MarkIs(a, a.readSuspended - {what})) ==> Marked(a)
    ensures old(Marked(b)) ==> Marked(b)
    ensures a.readSuspended - {Watermark} == old(a.readSuspended) - {what} - {Watermark}
    ensures a.written == old(a.written) && a.consumed == old(a.consumed) && a.enabled == old(a.enabled)
    ensures a.high == old(a.high) && SameEnd(b) && Came(a, b) && Came(b, a)
  {
    hide Evbuffer.Tidy, Evbuffer.Shape, Flatten;
    a.readSuspended := a.readSuspended - {what};
    if a.readSuspended == {} && Read in a.enabled {
      PairEnable(a, b, {Read}, malloc);
    }
  }

  /** bufferevent_inbuf_wm_cb */
  method WatermarkCallback(a: End, b: End, malloc: Malloc)
    requires Intact(a, b) && NeverFails(malloc) && a.high > 0
    modifies a`readSuspended, b`readSuspended, Footprint(a, b)
    ensures Intact(a, b) && fresh(Footprint(a, b) - old(Footprint(a, b)))
    ensures Settled(b, a) && (old(Settled(a, b)) ==> Settled(a, b))
    ensures Marked(a) && (old(Marked(b)) ==> Marked(b))
    ensures SameEnd(a) && SameEnd(b) && Came(a, b) && Came(b, a)
  {
    hide Evbuffer.Tidy, Evbuffer.Shape, Flatten;
    TidyTotal(a.input);
    if a.input.totalLen >= a.high {
      a.readSuspended := a.readSuspended + {Watermark};
    } else {
      UnsuspendRead(a, b, Watermark, malloc);
    }
  }

  /** bufferevent_setwatermark for reading. */
  method SetWatermark(a: End, b: End, high: nat, malloc: Malloc)
    requires Good(a, b) && NeverFails(malloc)
    modifies a, b`readSuspended, Footprint(a, b)
    ensures Good(a, b) && fresh(Footprint(a, b) - old(Footprint(a, b))) && a.high == high
    ensures a.readSuspended - {Watermark} == old(a.readSuspended) - {Watermark}
    ensures a.written == old(a.written) && a.consumed == old(a.consumed) && a.enabled == old(a.enabled)
    ensures SameEnd(b) && Came(a, b) && Came(b, a)
  {
    hide Evbuffer.Tidy, Evbuffer.Shape, Flatten;
    a.high := high;
    if high > 0 {
      WatermarkCallback(a, b, malloc);
    } else {
      UnsuspendRead(a, b, Watermark, malloc);
    }
  }

  /** be_pair_flush in a mode other than BEV_NORMAL. */
  method Flush(a: End, b: End, events: set<Dir>, malloc: Malloc)
    requires Good(a, b) && NeverFails(malloc)
    modifies a`readSuspended, b`readSuspended, Footprint(a, b)
    ensures Good(a, b) && fresh(Footprint(a, b) - old(Footprint(a, b)))
    ensures Crossed(b, a, if Read in events then old(CrossingOf(b, a, true)) else 0)
    ensures Crossed(a, b, if Write in events then old(CrossingOf(a, b, true)) else 0)
    ensures SameEnd(a) && SameEnd(b)
  {
    hide Evbuffer.Tidy, Evbuffer.Shape, Flatten, Intact, Settled;
    NoneOrAll(a.input.Contents(), b.output.Contents());
    NoneOrAll(b.input.Contents(), a.output.Contents());
    Swap(a, b);
    if Read in events {
      Transfer(b, a, true, malloc);
      Swap(b, a);
    }
    if Write in events {
      Transfer(a, b, true, malloc);
    }
  }

  /** The bytes leave the input. */
  method TakeInput(a: End, b: End, n: nat) returns (data: bytes)
    requires Intact(a, b)
    modifies a.input, a.input.Repr, a`consumed
    ensures Intact(a, b) && a.input.Repr == old(a.input.Repr)
    ensures data + a.input.Contents() == old(a.input.Contents()) && a.consumed == old(a.consumed) + data
    ensures |data| == if n < |old(a.input.Contents())| then n else |old(a.input.Contents())|
  {
    hide Evbuffer.Shape, Flatten, ExactAt, NoEmptyPart, AsInt;
    TidyTotal(a.input);
    var r;
    r, data := Remove(a.input, n);
    a.output.StillValid();
    b.input.StillValid();
    b.output.StillValid();
    Assoc(data, a.input.Contents(), b.output.Contents());
    Assoc(a.consumed, data, a.input.Contents() + b.output.Contents());
    a.consumed := a.consumed + data;
  }

  /** bufferevent_read: the callback on the input may let more in. */
  method ReadFrom(a: End, b: End, n: nat, malloc: Malloc) returns (data: bytes)
    requires Good(a, b) && NeverFails(malloc)
    modifies a, b`readSuspended, Footprint(a, b)
    ensures Good(a, b) && fresh(Footprint(a, b) - old(Footprint(a, b)))
    ensures a.consumed == old(a.consumed) + data && a.written == old(a.written) && a.enabled == old(a.enabled)
    ensures SameMark(a) && SameEnd(b) && Came(a, b) && Came(b, a)
    ensures |data| == if n < |old(a.input.Contents())| then n else |old(a.input.Contents())|
    ensures data <= old(a.input.Contents())
  {
    hide Evbuffer.Tidy, Evbuffer.Shape, Flatten;
    data := TakeInput(a, b, n);
    assert data == [] ==> a.input.Contents() == old(a.input.Contents());
    if a.high > 0 && |data| > 0 {
      WatermarkCallback(a, b, malloc);
    }
  }

  // ----- whole runs

  datatype Op =
    | OpWrite(data: bytes)
    | OpRead(n: nat)
    | OpEnable(events: set<Dir>)
    | OpDisable(events: set<Dir>)
    | OpSuspend(what: Reason)
    | OpUnsuspend(what: Reason)
    | OpWatermark(high: nat)
    | OpFlush(events: set<Dir>)

  /** What an operation of the user of one end writes. */
  function WrittenBy(op: Op): bytes {
    if op.OpWrite? then op.data else []
  }

  /** What it leaves enabled. */
  function EnabledBy(op: Op, enabled: set<Dir>): set<Dir> {
    if op.OpEnable? then enabled + op.events else if op.OpDisable? then enabled - op.events else enabled
  }

  /** The reasons other than the mark that it leaves. */
  function ReasonsBy(op: Op, reasons: set<Reason>): set<Reason> {
    (if op.OpSuspend? then reasons + {op.what} else if op.OpUnsuspend? then reasons - {op.what} else reasons)
    - {Watermark}
  }

  /** One operation at end a; only a flush hands anything to an end that does not read. */
  method Do(a: End, b: End, op: Op, malloc: Malloc)
    requires Good(a, b) && NeverFails(malloc) && |a.written| + |WrittenBy(op)| <= MAX_REQUEST
    modifies a, b, Footprint(a, b)
    ensures Good(a, b) && fresh(Footprint(a, b) - old(Footprint(a, b)))
    ensures a.written == old(a.written) + WrittenBy(op) && a.enabled == EnabledBy(op, old(a.enabled))
    ensures a.high == (if op.OpWatermark? then op.high else old(a.high)) && SameEnd(b)
    ensures a.readSuspended - {Watermark} == ReasonsBy(op, old(a.readSuspended))
    ensures !op.OpFlush? ==> Came(a, b) && Came(b, a)
  {
    hide Evbuffer.Tidy, Evbuffer.Shape, Flatten, Intact, Settled;
    assert old(a.written) + [] == old(a.written);
    match op {
      case OpWrite(data) => WriteTo(a, b, data, malloc);
      case OpRead(n) => var _ := ReadFrom(a, b, n, malloc);
      case OpEnable(events) => Enable(a, b, events, malloc);
      case OpDisable(events) => Disable(a, b, events);
      case OpSuspend(what) => if what != Watermark { SuspendRead(a, b, what); }
      case OpUnsuspend(what) => if what != Watermark { UnsuspendRead(a, b, what, malloc); }
      case OpWatermark(high) => SetWatermark(a, b, high, malloc);
      case OpFlush(events) => Flush(a, b, events, malloc);
    }
  }

  /** What the operations at one end write. */
  ghost function WrittenAt(first: bool, run: seq<(bool, Op)>): bytes {
    if run == [] then []
    else WrittenAt(first, run[..|run| - 1]) + if run[|run| - 1].0 == first then WrittenBy(run[|run| - 1].1) else []
  }

  lemma {:induction false} WrittenLess(first: bool, run: seq<(bool, Op)>, n: nat)
    requires n <= |run|
    ensures |WrittenAt(first, run[..n])| <= |WrittenAt(first, run)|
    decreases |run| - n
  {
    if n == |run| {
      assert run[..n] == run;
    } else {
      WrittenLess(first, run[..|run| - 1], n);
      assert run[..|run| - 1][..n] == run[..n];
    }
  }

  lemma WrittenNext(first: bool, run: seq<(bool, Op)>, n: nat)
    requires n < |run|
    ensures WrittenAt(first, run[..n + 1]) ==
      WrittenAt(first, run[..n]) + if run[n].0 == first then WrittenBy(run[n].1) else []
  {
    assert run[..n + 1][..n] == run[..n];
  }

  /** The user of this end never asks for data, and nobody flushes. */
  predicate Deaf(first: bool, run: seq<(bool, Op)>) {
    forall i :: 0 <= i < |run| ==>
      !run[i].1.OpFlush? && (run[i].0 == first && run[i].1.OpEnable? ==> Read !in run[i].1.events)
  }

  ghost predicate Untouched(e: End)
    reads e`enabled, e`consumed, e.input`parts
  {
    Read !in e.enabled && Received(e) == []
  }

  /** Whatever is done at the two ends, in whatever order: what was read at one end is the beginning of
      what was written at the other, the rest is waiting, and between ends that write and read it waits only
      while the mark is reached.  Nothing ever comes to an end that never reads. */
  method Run(run: seq<(bool, Op)>, malloc: Malloc) returns (a: End, b: End)
    requires NeverFails(malloc) && |WrittenAt(true, run)| <= MAX_REQUEST && |WrittenAt(false, run)| <= MAX_REQUEST
    ensures Good(a, b) && a.written == WrittenAt(true, run) && b.written == WrittenAt(false, run)
    ensures a.consumed <= WrittenAt(false, run) && b.consumed <= WrittenAt(true, run)
    ensures Hears(a, b) ==> a.output.Contents() == [] || (b.high > 0 && |b.input.Contents()| >= b.high)
    ensures Hears(b, a) ==> b.output.Contents() == [] || (a.high > 0 && |a.input.Contents()| >= a.high)
    ensures (Deaf(true, run) ==> Received(a) == []) && (Deaf(false, run) ==> Received(b) == [])
  {
    hide Good, WrittenAt, Hears, Received;
    a, b := NewPair();
    NothingWritten(run);
    for i := 0 to |run|
      invariant Good(a, b) && fresh(a) && fresh(b) && fresh(Footprint(a, b))
      invariant a.written == WrittenAt(true, run[..i]) && b.written == WrittenAt(false, run[..i])
      invariant (Deaf(true, run) ==> Untouched(a)) && (Deaf(false, run) ==> Untouched(b))
    {
      Next(a, b, run, i, malloc);
    }
    InOrder(a, b);
  }

  lemma NothingWritten(run: seq<(bool, Op)>)
    ensures WrittenAt(true, run[..0]) == [] && WrittenAt(false, run[..0]) == [] && run[..|run|] == run
  {}

  lemma InOrder(a: End, b: End)
    requires Good(a, b)
    ensures a.consumed <= b.written && b.consumed <= a.written
    ensures Hears(a, b) ==> a.output.Contents() == [] || (b.high > 0 && |b.input.Contents()| >= b.high)
    ensures Hears(b, a) ==> b.output.Contents() == [] || (a.high > 0 && |a.input.Contents()| >= a.high)
  {
    hide Evbuffer.Tidy, Evbuffer.Shape, Flatten, Settled, Marked;
    Swap(a, b);
    if Hears(a, b) {
      NothingWaits(a, b);
    }
    if Hears(b, a) {
      NothingWaits(b, a);
    }
  }

  method Next(a: End, b: End, run: seq<(bool, Op)>, i: nat, malloc: Malloc)
    requires Good(a, b) && NeverFails(malloc) && i < |run|
    requires a.written == WrittenAt(true, run[..i]) && b.written == WrittenAt(false, run[..i])
    requires |WrittenAt(true, run)| <= MAX_REQUEST && |WrittenAt(false, run)| <= MAX_REQUEST
    modifies a, b, Footprint(a, b)
    ensures Good(a, b) && fresh(Footprint(a, b) - old(Footprint(a, b)))
    ensures a.written == WrittenAt(true, run[..i + 1]) && b.written == WrittenAt(false, run[..i + 1])
    ensures Deaf(true, run) && old(Untouched(a)) ==> Untouched(a)
    ensures Deaf(false, run) && old(Untouched(b)) ==> Untouched(b)
  {
    hide Evbuffer.Tidy, Evbuffer.Shape, Flatten, Intact, Settled, Marked, WrittenAt, Received;
    WrittenNext(true, run, i);
    WrittenNext(false, run, i);
    WrittenLess(true, run, i + 1);
    WrittenLess(false, run, i + 1);
    Swap(a, b);
    if run[i].0 {
      Do(a, b, run[i].1, malloc);
    } else {
      Do(b, a, run[i].1, malloc);
      Swap(b, a);
    }
  }
}
