/** Suspending and resuming a bufferevent: bufferevent.c and the single-bufferevent half of
    bufferevent_ratelim.c.  The source has every operation twice, for reading and for writing; here the
    direction is a parameter. */
module Bufferevents {
  import opened CInts
  import opened TokenBuckets

  datatype Dir = Read | Write {
    function Other(): Dir {
      if Read? then Write else Read
    }
  }

  /** BEV_SUSPEND_WM, BEV_SUSPEND_BW, ... */
  datatype Reason = Watermark | Bandwidth | BandwidthGroup | Lookup | FilterRead

  /** struct ev_token_bucket_cfg, which is compared by address. */
  class Config {
    const c: Cfg

    constructor (c: Cfg)
      requires c.Valid()
      ensures this.c == c
    {
      this.c := c;
    }
  }

  class Bufferevent {
    var enabled: set<Dir>
    var readSuspended: set<Reason>
    var writeSuspended: set<Reason>
    /** What the backend was last told to do. */
    var backend: set<Dir>
    var cfg: Config?
    const bucket: Bucket
    /** refill_bucket_event is pending. */
    var timer: bool

    constructor ()
      ensures Inv() && fresh(bucket) && cfg == null && enabled == {} && readSuspended == writeSuspended == {}
    {
      enabled, readSuspended, writeSuspended, backend := {}, {}, {}, {};
      cfg, timer := null, false;
      bucket := new Bucket();
    }

    function Suspended(d: Dir): set<Reason>
      reads this`readSuspended, this`writeSuspended
    {
      if d.Read? then readSuspended else writeSuspended
    }

    function Limit(d: Dir): ssize
      reads bucket
    {
      if d.Read? then bucket.readLimit else bucket.writeLimit
    }

    /** The backend works on a direction if and only if that is enabled and there is no reason not to. */
    ghost predicate BackendOk()
      reads this
    {
      && (Read in backend <==> Read in enabled && readSuspended == {})
      && (Write in backend <==> Write in enabled && writeSuspended == {})
    }

    /** An exhausted limit has its direction suspended. */
    ghost predicate BucketOk()
      reads this, bucket
    {
      cfg != null ==>
        && cfg.c.Valid() && bucket.Within(cfg.c)
        && (bucket.readLimit <= 0 ==> Bandwidth in readSuspended)
        && (bucket.writeLimit <= 0 ==> Bandwidth in writeSuspended)
    }

    /** The timer is pending exactly while a direction is suspended for bandwidth. */
    ghost predicate TimerOk()
      reads this
    {
      (timer <==> Bandwidth in readSuspended || Bandwidth in writeSuspended) && (timer ==> cfg != null)
    }

    ghost predicate Inv()
      reads this, bucket
    {
      BackendOk() && BucketOk() && TimerOk()
    }

    // ----- bufferevent.c

    method SetSuspended(d: Dir, s: set<Reason>)
      modifies this`readSuspended, this`writeSuspended
      ensures Suspended(d) == s && Suspended(d.Other()) == old(Suspended(d.Other()))
    {
      if d.Read? {
        readSuspended := s;
      } else {
        writeSuspended := s;
      }
    }

    /** bufferevent_suspend_read_, bufferevent_suspend_write_ */
    method Suspend(d: Dir, what: Reason)
      requires BackendOk()
      modifies this`readSuspended, this`writeSuspended, this`backend
      ensures BackendOk() && Suspended(d) == old(Suspended(d)) + {what}
      ensures Suspended(d.Other()) == old(Suspended(d.Other()))
      ensures old(Inv()) && what != Bandwidth ==> Inv()
    {
      if Suspended(d) == {} {
        backend := backend - {d};
      }
      SetSuspended(d, Suspended(d) + {what});
    }

    /** bufferevent_unsuspend_read_, bufferevent_unsuspend_write_ */
    method Unsuspend(d: Dir, what: Reason)
      requires BackendOk()
      modifies this`readSuspended, this`writeSuspended, this`backend
      ensures BackendOk() && Suspended(d) == old(Suspended(d)) - {what}
      ensures Suspended(d.Other()) == old(Suspended(d.Other()))
      ensures old(Inv()) && what != Bandwidth ==> Inv()
    {
      SetSuspended(d, Suspended(d) - {what});
      if Suspended(d) == {} && d in enabled {
        backend := backend + {d};
      }
    }

    /** bufferevent_enable */
    method Enable(events: set<Dir>)
      requires Inv()
      modifies this`enabled, this`backend
      ensures Inv() && enabled == old(enabled) + events
    {
      var impl := events;
      if readSuspended != {} {
        impl := impl - {Read};
      }
      if writeSuspended != {} {
        impl := impl - {Write};
      }
      enabled := enabled + events;
      backend := backend + impl;
    }

    /** bufferevent_disable */
    method Disable(events: set<Dir>)
      requires Inv()
      modifies this`enabled, this`backend
      ensures Inv() && enabled == old(enabled) - events
    {
      enabled := enabled - events;
      backend := backend - events;
    }

    // ----- bufferevent_ratelim.c

    /** bufferevent_update_buckets */
    method UpdateBuckets(tick: uint32)
      requires Inv() && cfg != null
      modifies bucket
      ensures Inv()
      ensures bucket.ReadLevel() == Refill(old(bucket.ReadLevel()), cfg.c.readMaximum, cfg.c.readRate, tick)
      ensures bucket.WriteLevel() == Refill(old(bucket.WriteLevel()), cfg.c.writeMaximum, cfg.c.writeRate, tick)
    {
      if tick != bucket.lastUpdated {
        var _ := bucket.Update(cfg.c, tick);
        RefillRaises(old(bucket.ReadLevel()), cfg.c.readMaximum, cfg.c.readRate, tick);
        RefillRaises(old(bucket.WriteLevel()), cfg.c.writeMaximum, cfg.c.writeRate, tick);
      }
    }

    lemma RefillRaises(l: Level, maximum: nat, rate: nat, tick: uint32)
      requires l.limit <= maximum
      ensures Refill(l, maximum, rate, tick).limit >= l.limit
    {
      hide Tokens;
    }

    /** bufferevent_get_rlim_max_ without a group: with a configuration the limit of a single read or
        write is not looked at. */
    method GetMax(d: Dir, maxSingle: nat, tick: uint32) returns (max: int)
      requires Inv()
      modifies bucket
      ensures Inv()
      ensures max == if cfg == null then maxSingle else Max(0, Limit(d) as int)
      ensures cfg != null ==>
        && bucket.ReadLevel() == Refill(old(bucket.ReadLevel()), cfg.c.readMaximum, cfg.c.readRate, tick)
        && bucket.WriteLevel() == Refill(old(bucket.WriteLevel()), cfg.c.writeMaximum, cfg.c.writeRate, tick)
      ensures Suspended(d) == {} ==> max > 0 || maxSingle == 0
    {
      max := maxSingle;
      if cfg != null {
        UpdateBuckets(tick);
        max := Limit(d) as int;
      }
      if max < 0 {
        max := 0;
      }
    }

    /** Taking bytes away does not overflow, and giving bytes back does not exceed the burst. */
    ghost predicate Room(d: Dir, bytes: int)
      reads this, bucket
    {
      SSIZE_MIN <= Limit(d) as int - bytes &&
      var maximum := if cfg == null then RATE_LIMIT_MAX else if d.Read? then cfg.c.readMaximum else cfg.c.writeMaximum;
      Limit(d) as int - bytes <= maximum
    }

    /** event_add, event_del on refill_bucket_event. */
    method SetTimer(pending: bool)
      modifies this`timer
      ensures timer == pending
    {
      timer := pending;
    }

    /** The bandwidth half of bufferevent_decrement_read_buckets_: bytes were read, or
        written, or given back if negative. */
    method Decrement(d: Dir, bytes: int)
      requires Inv() && Room(d, bytes)
      modifies this`readSuspended, this`writeSuspended, this`backend, this`timer, bucket
      ensures Inv()
      ensures Limit(d) as int == old(Limit(d)) as int - (if cfg != null then bytes else 0)
      ensures Limit(d.Other()) == old(Limit(d.Other())) && bucket.lastUpdated == old(bucket.lastUpdated)
      ensures cfg != null ==> (Bandwidth in Suspended(d) <==> Limit(d) <= 0)
      ensures Suspended(d.Other()) == old(Suspended(d.Other()))
      ensures Suspended(d) - {Bandwidth} == old(Suspended(d)) - {Bandwidth}
    {
      if cfg != null {
        bucket.Decrement(d.Read?, bytes);
        if Limit(d) <= 0 {
          Suspend(d, Bandwidth);
          SetTimer(true);
        } else if Bandwidth in Suspended(d) {
          if !(Bandwidth in Suspended(d.Other())) {
            SetTimer(false);
          }
          Unsuspend(d, Bandwidth);
        }
      }
    }

    /** bufferevent_decrement_read_limit, bufferevent_decrement_write_limit, which look at how the sign
        of the limit changes instead of at the suspension. */
    method DecrementLimit(d: Dir, decr: int)
      requires Inv() && cfg != null && Room(d, decr)
      modifies this`readSuspended, this`writeSuspended, this`backend, this`timer, bucket
      ensures Inv()
      ensures Limit(d) as int == old(Limit(d)) as int - decr
      ensures Limit(d.Other()) == old(Limit(d.Other())) && bucket.lastUpdated == old(bucket.lastUpdated)
      ensures Suspended(d.Other()) == old(Suspended(d.Other()))
      ensures Suspended(d) - {Bandwidth} == old(Suspended(d)) - {Bandwidth}
      ensures Bandwidth in Suspended(d) <==> Limit(d) <= 0 || (old(Limit(d)) > 0 && Bandwidth in old(Suspended(d)))
    {
      var oldLimit := Limit(d);
      bucket.Decrement(d.Read?, decr);
      if oldLimit > 0 && Limit(d) <= 0 {
        Suspend(d, Bandwidth);
        SetTimer(true);
      } else if oldLimit <= 0 && Limit(d) > 0 {
        if !(Bandwidth in Suspended(d.Other())) {
          SetTimer(false);
        }
        Unsuspend(d, Bandwidth);
      }
    }

    /** bev_refill_callback_: the timer has fired, and is pending again if it is still needed. */
    method RefillCallback(tick: uint32)
      requires Inv()
      modifies this`readSuspended, this`writeSuspended, this`backend, this`timer, bucket
      ensures Inv()
      ensures forall d :: Suspended(d) - {Bandwidth} == old(Suspended(d)) - {Bandwidth}
      ensures cfg != null ==>
        && (Bandwidth in readSuspended <==> Bandwidth in old(readSuspended) && bucket.readLimit <= 0)
        && (Bandwidth in writeSuspended <==> Bandwidth in old(writeSuspended) && bucket.writeLimit <= 0)
        && bucket.ReadLevel() == Refill(old(bucket.ReadLevel()), cfg.c.readMaximum, cfg.c.readRate, tick)
        && bucket.WriteLevel() == Refill(old(bucket.WriteLevel()), cfg.c.writeMaximum, cfg.c.writeRate, tick)
    {
      SetTimer(false); // the event that fired
      if cfg == null {
        return;
      }
      var again := false;
      var _ := bucket.Update(cfg.c, tick);
      RefillRaises(old(bucket.ReadLevel()), cfg.c.readMaximum, cfg.c.readRate, tick);
      RefillRaises(old(bucket.WriteLevel()), cfg.c.writeMaximum, cfg.c.writeRate, tick);
      if Bandwidth in readSuspended {
        if bucket.readLimit > 0 {
          Unsuspend(Read, Bandwidth);
        } else {
          again := true;
        }
      }
      if Bandwidth in writeSuspended {
        if bucket.writeLimit > 0 {
          Unsuspend(Write, Bandwidth);
        } else {
          again := true;
        }
      }
      if again {
        SetTimer(true);
      }
    }

    /** bufferevent_set_rate_limit; the memory it needs is granted. */
    method SetRateLimit(cfg: Config?, tick: uint32)
      requires Inv() && (cfg != null ==> cfg.c.Valid())
      modifies this, bucket
      ensures Inv() && this.cfg == cfg && enabled == old(enabled)
      ensures cfg == null ==> !timer
      ensures cfg != null && cfg != old(this.cfg) ==>
        forall d :: Bandwidth in Suspended(d) <==> Limit(d) <= 0
      ensures cfg != null && old(this.cfg) == null ==>
        && bucket.ReadLevel() == Level(cfg.c.readRate, tick) && bucket.WriteLevel() == Level(cfg.c.writeRate, tick)
        && !timer
      ensures cfg != null && old(this.cfg) != null && cfg != old(this.cfg) ==>
        && bucket.ReadLevel() == old(bucket.ReadLevel()).(limit := Min(old(bucket.readLimit) as int, cfg.c.readMaximum))
        && bucket.WriteLevel() ==
          old(bucket.WriteLevel()).(limit := Min(old(bucket.writeLimit) as int, cfg.c.writeMaximum))
      ensures cfg == null || cfg == old(this.cfg) ==>
        bucket.ReadLevel() == old(bucket.ReadLevel()) && bucket.WriteLevel() == old(bucket.WriteLevel())
      ensures cfg != null && cfg == old(this.cfg) ==> forall d :: Suspended(d) == old(Suspended(d))
      ensures forall d :: Suspended(d) - {Bandwidth} == old(Suspended(d)) - {Bandwidth}
    {
      if cfg == null {
        this.cfg := null;
        Unsuspend(Read, Bandwidth);
        Unsuspend(Write, Bandwidth);
        SetTimer(false);
        return;
      }
      if this.cfg == cfg {
        return;
      }
      var reinit := this.cfg != null;
      this.cfg := cfg;
      bucket.Init(cfg.c, tick, reinit);
      if reinit {
        SetTimer(false);
      }
      var suspended := false;
      if bucket.readLimit > 0 {
        Unsuspend(Read, Bandwidth);
      } else {
        Suspend(Read, Bandwidth);
        suspended := true;
      }
      if bucket.writeLimit > 0 {
        Unsuspend(Write, Bandwidth);
      } else {
        Suspend(Write, Bandwidth);
        suspended := true;
      }
      if suspended {
        SetTimer(true);
      }
    }
  }

  // ----- whole runs

  datatype Op =
    | OpEnable(events: set<Dir>)
    | OpDisable(events: set<Dir>)
    | OpSuspend(d: Dir, what: Reason)
    | OpUnsuspend(d: Dir, what: Reason)
    | OpSetRateLimit(cfg: Config?, tick: uint32)
    | OpGetMax(d: Dir, maxSingle: nat, tick: uint32)
    | OpDecrement(d: Dir, bytes: int)
    | OpDecrementLimit(d: Dir, decr: int)
    | OpTimer(tick: uint32)

  /** What the user sees: what is enabled, and the reasons, other than bandwidth, to suspend a direction. */
  datatype Flags = Flags(enabled: set<Dir>, read: set<Reason>, write: set<Reason>)

  ghost function FlagsOf(b: Bufferevent): Flags
    reads b
  {
    Flags(b.enabled, b.Suspended(Read) - {Bandwidth}, b.Suspended(Write) - {Bandwidth})
  }

  /** The other operations leave them alone. */
  function FlagsAfter(op: Op, f: Flags): Flags {
    match op
    case OpEnable(events) => f.(enabled := f.enabled + events)
    case OpDisable(events) => f.(enabled := f.enabled - events)
    case OpSuspend(Read, what) => f.(read := f.read + {what} - {Bandwidth})
    case OpSuspend(Write, what) => f.(write := f.write + {what} - {Bandwidth})
    case OpUnsuspend(Read, what) => f.(read := f.read - {what})
    case OpUnsuspend(Write, what) => f.(write := f.write - {what})
    case _ => f
  }

  ghost function FlagsIn(ops: seq<Op>): Flags {
    if ops == [] then Flags({}, {}, {}) else FlagsAfter(ops[|ops| - 1], FlagsIn(ops[..|ops| - 1]))
  }

  /** Whatever is done to a bufferevent, in whatever order, the invariant holds.  An operation that is
      not possible is left out: the timer fires only when it is pending, bandwidth suspensions are the
      business of the rate limiter, and no decrement overflows or refills beyond the burst. */
  method Run(ops: seq<Op>) returns (b: Bufferevent)
    requires forall i :: 0 <= i < |ops| && ops[i].OpSetRateLimit? && ops[i].cfg != null ==> ops[i].cfg.c.Valid()
    ensures b.Inv() && FlagsOf(b) == FlagsIn(ops)
  {
    b := new Bufferevent();
    for i := 0 to |ops|
      invariant b.Inv() && fresh(b) && fresh(b.bucket) && FlagsOf(b) == FlagsIn(ops[..i])
    {
      Do(b, ops[i]);
      assert ops[..i + 1][..i] == ops[..i];
    }
    assert ops[..|ops|] == ops;
  }

  function Clamp(b: Bufferevent, d: Dir, bytes: int): int
    requires b.Inv()
    reads b, b.bucket
  {
    var limit := b.Limit(d) as int;
    var high := if b.cfg == null then limit else if d.Read? then b.cfg.c.readMaximum else b.cfg.c.writeMaximum;
    if limit - bytes < SSIZE_MIN || limit - bytes > high then 0 else bytes
  }

  method Do(b: Bufferevent, op: Op)
    requires b.Inv() && (op.OpSetRateLimit? && op.cfg != null ==> op.cfg.c.Valid())
    modifies b, b.bucket
    ensures b.Inv() && FlagsOf(b) == FlagsAfter(op, old(FlagsOf(b)))
    ensures b.cfg == if op.OpSetRateLimit? then op.cfg else old(b.cfg)
  {
    match op {
      case OpEnable(events) => b.Enable(events);
      case OpDisable(events) => b.Disable(events);
      case OpSuspend(d, what) => if what != Bandwidth { b.Suspend(d, what); }
      case OpUnsuspend(d, what) => if what != Bandwidth { b.Unsuspend(d, what); }
      case OpSetRateLimit(cfg, tick) => b.SetRateLimit(cfg, tick);
      case OpGetMax(d, maxSingle, tick) => var _ := b.GetMax(d, maxSingle, tick);
      case OpDecrement(d, bytes) => b.Decrement(d, Clamp(b, d, bytes));
      case OpDecrementLimit(d, decr) => if b.cfg != null { b.DecrementLimit(d, Clamp(b, d, decr)); }
      case OpTimer(tick) => if b.timer { b.RefillCallback(tick); }
    }
  }
}
