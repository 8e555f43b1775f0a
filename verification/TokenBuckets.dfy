/** The token bucket under libevent's rate limits. */
module TokenBuckets {
  import opened CInts
  import opened Options

  /** EV_RATE_LIMIT_MAX, which is EV_SSIZE_MAX */
  const RATE_LIMIT_MAX: nat := TWO_63 - 1

  newtype uint32 = x: int | 0 <= x < TWO_32
  /** ev_ssize_t */
  newtype ssize = x: int | -0x8000_0000_0000_0000 <= x < 0x8000_0000_0000_0000

  /** Conversion to size_t, and back to ev_ssize_t. */
  function Unsigned(x: int): (r: nat)
    ensures r < TWO_64
  {
    x % TWO_64
  }

  function Signed(x: nat): ssize
    requires x < TWO_64
  {
    if x < TWO_63 then x as ssize else (x - TWO_64) as ssize
  }

  datatype Cfg = Cfg(readRate: nat, readMaximum: nat, writeRate: nat, writeMaximum: nat) {
    predicate Valid() {
      1 <= readRate <= readMaximum <= RATE_LIMIT_MAX && 1 <= writeRate <= writeMaximum <= RATE_LIMIT_MAX
    }
  }

  /** ev_token_bucket_cfg_new; granted tells whether the memory was. */
  function CfgNew(readRate: nat, readBurst: nat, writeRate: nat, writeBurst: nat, granted: bool): (r: Option<Cfg>)
    ensures var cfg := Cfg(readRate, readBurst, writeRate, writeBurst);
      r == if granted && cfg.Valid() then Some(cfg) else None
  {
    if readRate > readBurst || writeRate > writeBurst || readRate < 1 || writeRate < 1 then None
    else if readRate > RATE_LIMIT_MAX || writeRate > RATE_LIMIT_MAX then None
    else if readBurst > RATE_LIMIT_MAX || writeBurst > RATE_LIMIT_MAX then None
    else if !granted then None
    else Some(Cfg(readRate, readBurst, writeRate, writeBurst))
  }

  // ----- refilling one limit

  /** What n ticks bring. */
  function Tokens(n: nat, rate: nat): nat {
    n * rate
  }

  lemma TokensAdd(m: nat, n: nat, rate: nat)
    ensures Tokens(m + n, rate) == Tokens(m, rate) + Tokens(n, rate)
  {
    assert (m + n) * rate == m * rate + n * rate;
  }

  lemma TokensUp(m: nat, n: nat, rate: nat)
    requires m <= n
    ensures Tokens(m, rate) <= Tokens(n, rate)
  {
    TokensAdd(m, n - m, rate);
  }

  function Divide(a: nat, n: nat): nat
    requires n > 0
  {
    a / n
  }

  lemma DivLess(a: nat, n: nat, rate: nat)
    requires n > 0
    ensures Divide(a, n) < rate <==> a < Tokens(n, rate)
  {
    var q, r := a / n, a % n;
    assert a == q * n + r;
    if q < rate {
      MulLess(q, rate, n);
    } else {
      MulLess(rate, q, n);
    }
  }

  /** Adding in 64-bit arithmetic is exact as long as the sum fits. */
  lemma WrapAdd(x: ssize, t: nat)
    requires t < TWO_64
    ensures var y := x as int + t;
      Signed(Unsigned(Unsigned(x as int) + Unsigned(t))) as int == if y < TWO_63 then y else y - TWO_64
  {}

  /** A limit after t more bytes; one above the maximum is first raised, and may wrap round. */
  function Refilled(limit: int, maximum: nat, t: nat): int {
    if limit <= maximum then Min(maximum, limit + t)
    else if t >= TWO_64 - (limit - maximum) then maximum
    else if limit + t < TWO_63 then limit + t
    else limit + t - TWO_64
  }

  /** Refilling one limit the way ev_token_bucket_update_ does it, in 64-bit arithmetic: exact, unless
      the limit was above the maximum, to which it then falls only by a huge refill. */
  method RefillLimit(limit: ssize, maximum: nat, rate: nat, n: uint32) returns (r: ssize)
    requires n > 0 && rate <= maximum <= RATE_LIMIT_MAX
    ensures r as int == Refilled(limit as int, maximum, Tokens(n as nat, rate))
    ensures limit as int <= maximum ==> r as int == Min(maximum, limit as int + Tokens(n as nat, rate))
    ensures limit as int > maximum ==>
      (r as int == Min(maximum, limit as int + Tokens(n as nat, rate)) <==>
        Tokens(n as nat, rate) >= TWO_64 - (limit as int - maximum))
  {
    hide Tokens, Divide, Unsigned, Signed;
    var avail := Unsigned(maximum - limit as int);
    Avail(limit, maximum);
    DivLess(avail, n as int, rate);
    if Divide(avail, n as int) < rate {
      return maximum as ssize;
    }
    WrapAdd(limit, Tokens(n as nat, rate));
    r := Signed(Unsigned(Unsigned(limit as int) + Unsigned(Tokens(n as nat, rate))));
  }

  lemma Avail(limit: ssize, maximum: nat)
    requires maximum <= RATE_LIMIT_MAX
    ensures Unsigned(maximum - limit as int) == maximum - limit as int + if limit as int <= maximum then 0 else TWO_64
  {}

  // ----- a bucket

  /** One limit of a bucket, and when it was last refilled. */
  datatype Level = Level(limit: int, last: uint32)

  function Elapsed(last: uint32, tick: uint32): nat {
    (tick as int - last as int) % TWO_32
  }

  /** Nothing happens in the same tick, or when the clock seems to have gone backwards. */
  function Refill(l: Level, maximum: nat, rate: nat, tick: uint32): Level {
    var n := Elapsed(l.last, tick);
    if n == 0 || n > INT_MAX then l else Level(Min(maximum, l.limit + Tokens(n, rate)), tick)
  }

  /** struct ev_token_bucket */
  class Bucket {
    var readLimit: ssize
    var writeLimit: ssize
    var lastUpdated: uint32

    constructor ()
      ensures readLimit == 0 && writeLimit == 0 && lastUpdated == 0
    {
      readLimit, writeLimit, lastUpdated := 0, 0, 0;
    }

    predicate Within(cfg: Cfg)
      reads this
    {
      cfg.Valid() && readLimit as int <= cfg.readMaximum && writeLimit as int <= cfg.writeMaximum
    }

    function ReadLevel(): Level
      reads this
    {
      Level(readLimit as int, lastUpdated)
    }

    function WriteLevel(): Level
      reads this
    {
      Level(writeLimit as int, lastUpdated)
    }

    /** ev_token_bucket_init_; on reinitialization limits are only clipped downwards. */
    method Init(cfg: Cfg, currentTick: uint32, reinitialize: bool)
      requires cfg.Valid()
      modifies this
      ensures Within(cfg)
      ensures reinitialize ==>
        && readLimit as int == Min(old(readLimit) as int, cfg.readMaximum)
        && writeLimit as int == Min(old(writeLimit) as int, cfg.writeMaximum) && lastUpdated == old(lastUpdated)
      ensures !reinitialize ==>
        readLimit as int == cfg.readRate && writeLimit as int == cfg.writeRate && lastUpdated == currentTick
    {
      if reinitialize {
        if readLimit as int > cfg.readMaximum {
          readLimit := cfg.readMaximum as ssize;
        }
        if writeLimit as int > cfg.writeMaximum {
          writeLimit := cfg.writeMaximum as ssize;
        }
      } else {
        readLimit := cfg.readRate as ssize;
        writeLimit := cfg.writeRate as ssize;
        lastUpdated := currentTick;
      }
    }

    /** ev_token_bucket_update_ */
    method Update(cfg: Cfg, currentTick: uint32) returns (r: int)
      requires cfg.Valid()
      modifies this
      ensures r == if 0 < Elapsed(old(lastUpdated), currentTick) <= INT_MAX then 1 else 0
      ensures lastUpdated == if r == 1 then currentTick else old(lastUpdated)
      ensures old(Within(cfg)) ==> Within(cfg)
      ensures old(readLimit) as int <= cfg.readMaximum ==>
        ReadLevel() == Refill(old(ReadLevel()), cfg.readMaximum, cfg.readRate, currentTick)
      ensures old(writeLimit) as int <= cfg.writeMaximum ==>
        WriteLevel() == Refill(old(WriteLevel()), cfg.writeMaximum, cfg.writeRate, currentTick)
      ensures r == 0 ==> readLimit == old(readLimit) && writeLimit == old(writeLimit)
      ensures r == 1 ==>
        var n := Elapsed(old(lastUpdated), currentTick);
        && readLimit as int == Refilled(old(readLimit) as int, cfg.readMaximum, Tokens(n, cfg.readRate))
        && writeLimit as int == Refilled(old(writeLimit) as int, cfg.writeMaximum, Tokens(n, cfg.writeRate))
    {
      var nTicks := ((currentTick as int - lastUpdated as int) % TWO_32) as uint32;
      if nTicks == 0 || nTicks as int > INT_MAX {
        return 0;
      }
      readLimit := RefillLimit(readLimit, cfg.readMaximum, cfg.readRate, nTicks);
      writeLimit := RefillLimit(writeLimit, cfg.writeMaximum, cfg.writeRate, nTicks);
      lastUpdated := currentTick;
      return 1;
    }

    /** Bytes were read, or written. */
    method Decrement(read: bool, bytes: int)
      requires SSIZE_MIN <= (if read then readLimit else writeLimit) as int - bytes <= RATE_LIMIT_MAX
      modifies this
      ensures lastUpdated == old(lastUpdated)
      ensures readLimit as int == old(readLimit) as int - if read then bytes else 0
      ensures writeLimit as int == old(writeLimit) as int - if read then 0 else bytes
    {
      if read {
        readLimit := (readLimit as int - bytes) as ssize;
      } else {
        writeLimit := (writeLimit as int - bytes) as ssize;
      }
    }
  }

  // ----- how the elapsed ticks are split does not matter

  function Later(tick: uint32, d: nat): uint32 {
    ((tick as int + d) % TWO_32) as uint32
  }

  /** One update after each of the given delays. */
  ghost function RefillAll(l: Level, maximum: nat, rate: nat, delays: seq<nat>): Level
    decreases |delays|
  {
    if |delays| == 0 then l
    else RefillAll(Refill(l, maximum, rate, Later(l.last, delays[0])), maximum, rate, delays[1..])
  }

  ghost function Total(delays: seq<nat>): nat {
    if delays == [] then 0 else delays[0] + Total(delays[1..])
  }

  lemma ElapsedLater(last: uint32, d: nat)
    requires d < TWO_32
    ensures Elapsed(last, Later(last, d)) == d
  {}

  lemma LaterLater(tick: uint32, d: nat, e: nat)
    ensures Later(Later(tick, d), e) == Later(tick, d + e)
  {}

  lemma LaterNow(tick: uint32)
    ensures Later(tick, 0) == tick
  {}

  lemma RefillLater(l: Level, maximum: nat, rate: nat, d: nat)
    requires l.limit <= maximum && d <= INT_MAX
    ensures Refill(l, maximum, rate, Later(l.last, d)) ==
      Level(Min(maximum, l.limit + Tokens(d, rate)), Later(l.last, d))
  {
    ElapsedLater(l.last, d);
    LaterNow(l.last);
  }

  /** Updates after any delays, none of which the clock check rejects, add up to one refill for all
      of the ticks, also when the tick counter wraps around. */
  lemma {:induction false} SplitRefill(l: Level, maximum: nat, rate: nat, delays: seq<nat>)
    requires l.limit <= maximum && forall i :: 0 <= i < |delays| ==> delays[i] <= INT_MAX
    ensures RefillAll(l, maximum, rate, delays) ==
      Level(Min(maximum, l.limit + Tokens(Total(delays), rate)), Later(l.last, Total(delays)))
    decreases |delays|
  {
    hide Later, Refill;
    if delays == [] {
      LaterNow(l.last);
    } else {
      var d, rest := delays[0], delays[1..];
      RefillLater(l, maximum, rate, d);
      SplitRefill(Refill(l, maximum, rate, Later(l.last, d)), maximum, rate, rest);
      LaterLater(l.last, d, Total(rest));
      TokensAdd(d, Total(rest), rate);
    }
  }

  /** In particular, one update or many: the result is the same. */
  lemma SplitIndependent(l: Level, maximum: nat, rate: nat, delays: seq<nat>, delays1: seq<nat>)
    requires l.limit <= maximum && Total(delays) == Total(delays1)
    requires forall i :: 0 <= i < |delays| ==> delays[i] <= INT_MAX
    requires forall i :: 0 <= i < |delays1| ==> delays1[i] <= INT_MAX
    ensures RefillAll(l, maximum, rate, delays) == RefillAll(l, maximum, rate, delays1)
  {
    SplitRefill(l, maximum, rate, delays);
    SplitRefill(l, maximum, rate, delays1);
  }

  // ----- how much can be read in a window

  /** What a reader does: let time pass, or ask for the limit and then read n bytes. */
  datatype Step = Wait(d: nat) | Consume(n: nat)

  /** The reads of a run are at most the limits reported to them. */
  ghost predicate Allowed(l: Level, maximum: nat, rate: nat, now: uint32, steps: seq<Step>)
    decreases |steps|
  {
    steps == [] ||
    match steps[0]
    case Wait(d) => Allowed(l, maximum, rate, Later(now, d), steps[1..])
    case Consume(n) =>
      var m := Refill(l, maximum, rate, now);
      n <= Max(0, m.limit) && Allowed(Level(m.limit - n, m.last), maximum, rate, now, steps[1..])
  }

  ghost function BytesRead(steps: seq<Step>): nat {
    if steps == [] then 0 else (if steps[0].Consume? then steps[0].n else 0) + BytesRead(steps[1..])
  }

  ghost function TicksPassed(steps: seq<Step>): nat {
    if steps == [] then 0 else (if steps[0].Wait? then steps[0].d else 0) + TicksPassed(steps[1..])
  }

  lemma ElapsedGain(last: uint32, now: uint32, d: nat)
    ensures var e, f := Elapsed(last, now), Elapsed(last, Later(now, d));
      f <= e + d && (e > INT_MAX && f <= INT_MAX ==> f <= d)
  {}

  lemma WaitGain(l: Level, maximum: nat, rate: nat, now: uint32, d: nat)
    requires l.limit <= maximum
    ensures Refill(l, maximum, rate, Later(now, d)).limit <= Refill(l, maximum, rate, now).limit + Tokens(d, rate)
  {
    hide Tokens, Elapsed, Later;
    var e, f := Elapsed(l.last, now), Elapsed(l.last, Later(now, d));
    ElapsedGain(l.last, now, d);
    if 0 < f <= INT_MAX {
      if e > INT_MAX {
        TokensUp(f, d, rate);
      } else {
        TokensUp(f, e + d, rate);
        TokensAdd(e, d, rate);
      }
      TokensAdd(0, 0, rate);
    }
  }

  lemma RefillTwice(l: Level, n: nat, maximum: nat, rate: nat, now: uint32)
    requires l.limit <= maximum
    ensures var m := Refill(l, maximum, rate, now);
      m.limit <= maximum && Refill(Level(m.limit - n, m.last), maximum, rate, now) == Level(m.limit - n, m.last)
  {
    hide Tokens;
  }

  /** In any window of any run, the bytes read are at most what the bucket holds at its start, which is
      at most the burst, plus the rate for every tick of the window. */
  lemma {:induction false} WindowBound(l: Level, maximum: nat, rate: nat, now: uint32, steps: seq<Step>)
    requires l.limit <= maximum && Allowed(l, maximum, rate, now, steps)
    ensures BytesRead(steps) <= Max(0, Refill(l, maximum, rate, now).limit) + Tokens(TicksPassed(steps), rate)
    ensures BytesRead(steps) <= maximum + Tokens(TicksPassed(steps), rate)
    decreases |steps|
  {
    hide Tokens, Refill, Later;
    if steps == [] {
      TokensAdd(0, 0, rate);
      RefillTwice(l, 0, maximum, rate, now);
    } else {
      var rest := steps[1..];
      match steps[0] {
        case Wait(d) =>
          WindowBound(l, maximum, rate, Later(now, d), rest);
          WaitGain(l, maximum, rate, now, d);
          TokensAdd(d, TicksPassed(rest), rate);
          RefillTwice(l, 0, maximum, rate, now);
        case Consume(n) =>
          var m := Refill(l, maximum, rate, now);
          RefillTwice(l, n, maximum, rate, now);
          WindowBound(Level(m.limit - n, m.last), maximum, rate, now, rest);
      }
    }
  }

  /** A bucket that is in debt, or empty, is not refilled beyond the rate. */
  lemma EmptyBucket(l: Level, maximum: nat, rate: nat, now: uint32, steps: seq<Step>)
    requires l.limit <= 0 && Elapsed(l.last, now) == 0 && Allowed(l, maximum, rate, now, steps)
    ensures BytesRead(steps) <= Tokens(TicksPassed(steps), rate)
  {
    WindowBound(l, maximum, rate, now, steps);
  }
}
