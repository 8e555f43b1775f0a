/** Bufferevents that share a rate limit: the suspension protocol of bufferevent_ratelim.c for one
    direction, as a system of steps that threads take in any order.

    The lock of the group protects its fields; the lock of a bufferevent protects the flag that says it
    is suspended for the group.  A thread that holds the group lock may only try to lock a bufferevent. */
module RateLimitGroups {
  import opened CInts
  import opened TokenBuckets

  type Id = nat

  /** Where the thread that holds a bufferevent's lock stands between taking the group lock and being
      done: it has joined the group having seen whether it was suspended, or it has left. */
  datatype Phase = Free | Joining(sawSuspended: bool) | Leaving

  /** The loop over the members that the holder of the group lock is in. */
  datatype Loop = NoLoop | Suspending(rest: seq<Id>) | Unsuspending(rest: seq<Id>, again: bool)

  /** struct bufferevent_rate_limit_group and what of its members matters: who has BEV_SUSPEND_BW_GROUP
      set, and who is locked by a thread that is joining or leaving. */
  datatype Group = Group(
    cfg: Cfg,
    minShare: nat,
    level: Level,
    members: seq<Id>,
    suspended: bool,
    pending: bool,
    loop: Loop,
    flagged: set<Id>,
    phase: map<Id, Phase>)
  {
    function PhaseOf(m: Id): Phase {
      if m in phase then phase[m] else Free
    }

    /** m is suspended for the group, or is about to be. */
    ghost predicate Held(m: Id) {
      m in flagged || PhaseOf(m) == Joining(true)
    }

    /** Someone will come back for m. */
    ghost predicate Covered(m: Id) {
      match loop
      case NoLoop => suspended || pending
      case Suspending(_) => suspended || pending
      case Unsuspending(rest, again) => m in rest || again
    }

    ghost predicate Inv() {
      && cfg.Valid() && 1 <= minShare <= cfg.readRate && level.limit <= cfg.readMaximum
      && NoRepeats(members)
      && (forall m :: PhaseOf(m).Joining? ==> m in members)
      && (forall m :: PhaseOf(m).Leaving? ==> m !in members)
      && (forall m :: Held(m) && !PhaseOf(m).Leaving? ==> m in members && Covered(m))
      && (!loop.NoLoop? ==> forall m :: m in loop.rest ==> m in members)
      && (level.limit <= 0 ==> suspended)
      && !(suspended && pending)
      && (loop.Suspending? ==> suspended && !pending)
      && (loop.Unsuspending? ==> !suspended && level.limit > 0)
    }
  }

  ghost predicate NoRepeats(s: seq<Id>) {
    forall i, j :: 0 <= i < j < |s| ==> s[i] != s[j]
  }

  // ----- the random-order walk

  /** FOREACH_RANDOM_ORDER: from the chosen member to the end, then from the front up to it. */
  function Rotate(members: seq<Id>, k: nat): seq<Id> {
    if k <= |members| then members[k..] + members[..k] else members
  }

  /** The walk visits every member exactly once. */
  lemma RotateOnce(members: seq<Id>, k: nat)
    ensures multiset(Rotate(members, k)) == multiset(members) && |Rotate(members, k)| == |members|
    ensures forall m :: m in members <==> m in Rotate(members, k)
  {
    if k <= |members| {
      var a, b := members[..k], members[k..];
      assert members == a + b;
      assert multiset(b + a) == multiset(a + b);
      forall m
        ensures m in a + b <==> m in b + a
      {
        assert m in a + b <==> m in a || m in b;
      }
    }
  }

  /** The two loops of the macro, the second of which stops at the member the first one started from. */
  method WalkInRandomOrder(members: seq<Id>, which: nat) returns (visited: seq<Id>)
    requires NoRepeats(members) && (members == [] || which < |members|)
    ensures visited == Rotate(members, which)
  {
    visited := [];
    if |members| == 0 {
      return;
    }
    var first := members[which];
    for bev := which to |members|
      invariant visited == members[which..bev]
    {
      visited := visited + [members[bev]];
    }
    var bev := 0;
    while bev < |members| && members[bev] != first
      invariant bev <= which && visited == members[which..] + members[..bev]
    {
      visited := visited + [members[bev]];
      bev := bev + 1;
    }
  }

  function Without(members: seq<Id>, m: Id): (r: seq<Id>)
    ensures forall x :: x in r <==> x in members && x != m
  {
    if members == [] then []
    else if members[0] == m then Without(members[1..], m)
    else [members[0]] + Without(members[1..], m)
  }

  lemma {:induction false} WithoutNoRepeats(members: seq<Id>, m: Id)
    requires NoRepeats(members)
    ensures NoRepeats(Without(members, m))
  {
    if members != [] {
      WithoutNoRepeats(members[1..], m);
      assert members[0] !in members[1..];
    }
  }

  // ----- the steps

  datatype Step =
    | Charge(bytes: nat, first: nat)          // bufferevent_decrement_read_buckets_, up to the loop
    | Decrease(decr: int, first: nat)         // bufferevent_rate_limit_group_decrement_read, up to the loop
    | RefillTick(tick: uint32, first: nat)    // bev_group_refill_callback_, up to the loop
    | Visit(locked: bool)                     // one round of the loop
    | Finish                                  // the end of the loop
    | Query(m: Id)                            // bufferevent_get_rlim_max_
    | BeginJoin(m: Id)                        // bufferevent_add_to_rate_limit_group, up to UNLOCK_GROUP
    | EndJoin(m: Id)
    | BeginLeave(m: Id)                       // bufferevent_remove_from_rate_limit_group, up to UNLOCK_GROUP
    | EndLeave(m: Id)

  function StartSuspending(g: Group): Group {
    g.(suspended := true, pending := false, loop := Suspending(g.members))
  }

  function StartUnsuspending(g: Group, first: nat): Group {
    g.(suspended := false, loop := Unsuspending(Rotate(g.members, first), false))
  }

  /** When a step can be taken.  Steps under the group lock wait for a running loop; a try-lock fails on
      a bufferevent that is joining or leaving, and may fail on any. */
  predicate Enabled(g: Group, s: Step) {
    match s
    case Charge(_, _) => g.loop.NoLoop?
    case Decrease(decr, _) => g.loop.NoLoop? && g.level.limit - decr <= g.cfg.readMaximum
    case RefillTick(_, _) => g.loop.NoLoop?
    case Visit(locked) =>
      !g.loop.NoLoop? && g.loop.rest != [] && (locked ==> g.PhaseOf(g.loop.rest[0]).Free?)
    case Finish => !g.loop.NoLoop? && g.loop.rest == []
    case Query(m) => g.loop.NoLoop? && m in g.members && g.PhaseOf(m).Free?
    case BeginJoin(m) => g.loop.NoLoop? && m !in g.members && g.PhaseOf(m).Free?
    case EndJoin(m) => g.PhaseOf(m).Joining?
    case BeginLeave(m) => g.loop.NoLoop? && m in g.members && g.PhaseOf(m).Free?
    case EndLeave(m) => g.PhaseOf(m).Leaving?
  }

  function Do(g: Group, s: Step): Group
    requires Enabled(g, s)
  {
    match s
    case Charge(bytes, first) =>
      var h := g.(level := g.level.(limit := g.level.limit - bytes));
      if h.level.limit <= 0 then StartSuspending(h)
      else if h.suspended then StartUnsuspending(h, first)
      else h
    case Decrease(decr, first) =>
      var h := g.(level := g.level.(limit := g.level.limit - decr));
      if g.level.limit > 0 && h.level.limit <= 0 then StartSuspending(h)
      else if g.level.limit <= 0 && h.level.limit > 0 then StartUnsuspending(h, first)
      else h
    case RefillTick(tick, first) =>
      var h := g.(level := Refill(g.level, g.cfg.readMaximum, g.cfg.readRate, tick));
      if h.pending || (h.suspended && h.level.limit >= h.minShare) then StartUnsuspending(h, first) else h
    case Visit(locked) =>
      var m := g.loop.rest[0];
      if g.loop.Suspending? then
        g.(loop := Suspending(g.loop.rest[1..]), flagged := if locked then g.flagged + {m} else g.flagged)
      else
        g.(loop := Unsuspending(g.loop.rest[1..], g.loop.again || !locked), flagged := if locked then g.flagged - {m}
          else g.flagged)
    case Finish =>
      g.(loop := NoLoop, pending := if g.loop.Unsuspending? then g.loop.again else g.pending)
    case Query(m) =>
      if g.suspended then g.(flagged := g.flagged + {m}) else g
    case BeginJoin(m) =>
      g.(members := [m] + g.members, phase := g.phase[m := Joining(g.suspended)])
    case EndJoin(m) =>
      g.(flagged := if g.PhaseOf(m).sawSuspended then g.flagged + {m} else g.flagged, phase := g.phase[m := Free])
    case BeginLeave(m) =>
      g.(members := Without(g.members, m), phase := g.phase[m := Leaving])
    case EndLeave(m) =>
      g.(flagged := g.flagged - {m}, phase := g.phase[m := Free])
  }

  // ----- every step keeps the invariant

  lemma SuspendInv(g: Group)
    requires g.cfg.Valid() && 1 <= g.minShare <= g.cfg.readRate && g.level.limit <= g.cfg.readMaximum
    requires NoRepeats(g.members)
    requires forall m :: g.PhaseOf(m).Joining? ==> m in g.members
    requires forall m :: g.PhaseOf(m).Leaving? ==> m !in g.members
    requires forall m :: g.Held(m) && !g.PhaseOf(m).Leaving? ==> m in g.members
    ensures StartSuspending(g).Inv()
    ensures g.level.limit > 0 ==> forall first :: StartUnsuspending(g, first).Inv()
  {
    var h := StartSuspending(g);
    assert forall m :: h.PhaseOf(m) == g.PhaseOf(m) && h.Held(m) == g.Held(m);
    if g.level.limit > 0 {
      forall first
        ensures StartUnsuspending(g, first).Inv()
      {
        RotateOnce(g.members, first);
        var u := StartUnsuspending(g, first);
        assert forall m :: u.PhaseOf(m) == g.PhaseOf(m) && u.Held(m) == g.Held(m);
      }
    }
  }

  lemma RefillUp(l: Level, maximum: nat, rate: nat, tick: uint32)
    requires l.limit <= maximum
    ensures l.limit <= Refill(l, maximum, rate, tick).limit <= maximum
  {
    hide Tokens;
  }

  lemma VisitInv(g: Group, locked: bool)
    requires g.Inv() && Enabled(g, Visit(locked))
    ensures Do(g, Visit(locked)).Inv()
  {
    var h := Do(g, Visit(locked));
    var v := g.loop.rest[0];
    assert g.loop.rest == [v] + h.loop.rest;
    forall m | h.Held(m) && !h.PhaseOf(m).Leaving?
      ensures m in h.members && h.Covered(m)
    {
      assert h.PhaseOf(m) == g.PhaseOf(m);
      if !g.Held(m) {
        assert m == v;
        assert g.loop.Suspending?;
      }
    }
    assert forall m :: h.PhaseOf(m) == g.PhaseOf(m);
  }

  lemma JoinInv(g: Group, m: Id)
    requires g.Inv() && Enabled(g, BeginJoin(m))
    ensures Do(g, BeginJoin(m)).Inv()
  {
    var h := Do(g, BeginJoin(m));
    assert forall x :: x != m ==> h.PhaseOf(x) == g.PhaseOf(x) && h.Held(x) == g.Held(x);
    assert h.PhaseOf(m) == Joining(g.suspended);
    assert !g.Held(m);
  }

  lemma LeaveInv(g: Group, m: Id)
    requires g.Inv() && Enabled(g, BeginLeave(m))
    ensures Do(g, BeginLeave(m)).Inv()
  {
    var h := Do(g, BeginLeave(m));
    WithoutNoRepeats(g.members, m);
    assert forall x :: x != m ==> h.PhaseOf(x) == g.PhaseOf(x) && h.Held(x) == g.Held(x);
    assert h.PhaseOf(m) == Leaving;
  }

  lemma EndInv(g: Group, s: Step)
    requires g.Inv() && Enabled(g, s) && (s.EndJoin? || s.EndLeave?)
    ensures Do(g, s).Inv()
  {
    var h := Do(g, s);
    assert forall x :: x != s.m ==> h.PhaseOf(x) == g.PhaseOf(x) && h.Held(x) == g.Held(x);
    assert h.PhaseOf(s.m) == Free;
    assert s.EndLeave? ==> !h.Held(s.m);
  }

  lemma StepInv(g: Group, s: Step)
    requires g.Inv() && Enabled(g, s)
    ensures Do(g, s).Inv()
  {
    match s {
      case Charge(bytes, first) =>
        var h := g.(level := g.level.(limit := g.level.limit - bytes));
        SameMembers(g, h);
        SuspendInv(h);
      case Decrease(decr, first) =>
        var h := g.(level := g.level.(limit := g.level.limit - decr));
        SameMembers(g, h);
        SuspendInv(h);
      case RefillTick(tick, first) =>
        var h := g.(level := Refill(g.level, g.cfg.readMaximum, g.cfg.readRate, tick));
        RefillUp(g.level, g.cfg.readMaximum, g.cfg.readRate, tick);
        SameMembers(g, h);
        SuspendInv(h);
      case Visit(locked) => VisitInv(g, locked);
      case Finish => FinishInv(g);
      case Query(m) => QueryInv(g, m);
      case BeginJoin(m) => JoinInv(g, m);
      case EndJoin(m) => EndInv(g, s);
      case BeginLeave(m) => LeaveInv(g, m);
      case EndLeave(m) => EndInv(g, s);
    }
  }

  /** Changing the level alone changes nothing about the members. */
  lemma SameMembers(g: Group, h: Group)
    requires h == g.(level := h.level)
    ensures forall m :: h.PhaseOf(m) == g.PhaseOf(m) && h.Held(m) == g.Held(m) && h.Covered(m) == g.Covered(m)
  {}

  lemma FinishInv(g: Group)
    requires g.Inv() && Enabled(g, Finish)
    ensures Do(g, Finish).Inv()
  {
    var h := Do(g, Finish);
    assert forall m :: h.PhaseOf(m) == g.PhaseOf(m) && h.Held(m) == g.Held(m);
    assert forall m :: g.Covered(m) ==> h.Covered(m);
  }

  lemma QueryInv(g: Group, m: Id)
    requires g.Inv() && Enabled(g, Query(m))
    ensures Do(g, Query(m)).Inv()
  {
    var h := Do(g, Query(m));
    assert forall x :: h.PhaseOf(x) == g.PhaseOf(x) && (x != m ==> h.Held(x) == g.Held(x));
  }

  // ----- every run

  ghost predicate Possible(g: Group, run: seq<Step>)
    decreases |run|
  {
    run == [] || (Enabled(g, run[0]) && Possible(Do(g, run[0]), run[1..]))
  }

  ghost function After(g: Group, run: seq<Step>): Group
    requires Possible(g, run)
    decreases |run|
  {
    if run == [] then g else After(Do(g, run[0]), run[1..])
  }

  lemma {:induction false} RunInv(g: Group, run: seq<Step>)
    requires g.Inv() && Possible(g, run)
    ensures After(g, run).Inv()
    decreases |run|
  {
    if run != [] {
      StepInv(g, run[0]);
      RunInv(Do(g, run[0]), run[1..]);
    }
  }

  /** bufferevent_rate_limit_group_new, with the share of
      bufferevent_rate_limit_group_set_min_share. */
  function NewGroup(cfg: Cfg, share: nat, tick: uint32): (g: Group)
    ensures cfg.Valid() && share >= 1 ==>
      g.Inv() && !g.suspended && !g.pending && g.members == [] && g.level == Level(cfg.readRate, tick)
  {
    Group(cfg, MinShare(cfg, share), Level(cfg.readRate, tick), [], false, false, NoLoop, {}, map[])
  }

  /** At least one member can go in every tick. */
  function MinShare(cfg: Cfg, share: nat): (r: nat)
    ensures r <= share && r <= cfg.readRate && r <= cfg.writeRate
    ensures r == share || r == cfg.readRate || r == cfg.writeRate
  {
    var s := if share > cfg.readRate then cfg.readRate else share;
    if s > cfg.writeRate then cfg.writeRate else s
  }

  /** No wakeup is lost: in every state that any run leads to, with no loop under way, a bufferevent
      that is suspended for the group, and not just leaving it, is in the group, and the group is
      suspended or will try to wake it in the next tick. */
  lemma NoLostWakeup(cfg: Cfg, share: nat, tick: uint32, run: seq<Step>, m: Id)
    requires cfg.Valid() && share >= 1 && Possible(NewGroup(cfg, share, tick), run)
    ensures var g := After(NewGroup(cfg, share, tick), run);
      g.loop.NoLoop? && m in g.flagged && !g.PhaseOf(m).Leaving? ==> m in g.members && (g.suspended || g.pending)
  {
    RunInv(NewGroup(cfg, share, tick), run);
  }

  /** An exhausted group is suspended, in every state that any run leads to. */
  lemma ExhaustedIsSuspended(cfg: Cfg, share: nat, tick: uint32, run: seq<Step>)
    requires cfg.Valid() && share >= 1 && Possible(NewGroup(cfg, share, tick), run)
    ensures var g := After(NewGroup(cfg, share, tick), run); g.level.limit <= 0 ==> g.suspended
  {
    RunInv(NewGroup(cfg, share, tick), run);
  }

  // ----- the ledger

  /** What a step takes from the bucket. */
  function Taken(s: Step): int {
    match s
    case Charge(bytes, _) => bytes
    case Decrease(decr, _) => decr
    case _ => 0
  }

  ghost function Charged(run: seq<Step>): int {
    if run == [] then 0 else Taken(run[0]) + Charged(run[1..])
  }

  /** The ticks for which a step refills. */
  function TicksFor(g: Group, s: Step): nat {
    if s.RefillTick? && Elapsed(g.level.last, s.tick) <= INT_MAX then Elapsed(g.level.last, s.tick) else 0
  }

  ghost function TicksIn(g: Group, run: seq<Step>): nat
    requires Possible(g, run)
    decreases |run|
  {
    if run == [] then 0 else TicksFor(g, run[0]) + TicksIn(Do(g, run[0]), run[1..])
  }

  /** What refilling brings, all but what would exceed the burst. */
  ghost function Brought(g: Group, run: seq<Step>): int
    requires Possible(g, run)
    decreases |run|
  {
    if run == [] then 0
    else
      var s := run[0];
      var t := Tokens(TicksFor(g, s), g.cfg.readRate);
      (if s.RefillTick? then Min(t, g.cfg.readMaximum - g.level.limit) else 0) + Brought(Do(g, s), run[1..])
  }

  lemma StepLedger(g: Group, s: Step)
    requires g.Inv() && Enabled(g, s)
    ensures var h := Do(g, s);
      var t := Tokens(TicksFor(g, s), g.cfg.readRate);
      && h.cfg == g.cfg && h.minShare == g.minShare
      && h.level.limit ==
        g.level.limit - Taken(s) + (if s.RefillTick? then Min(t, g.cfg.readMaximum - g.level.limit) else 0)
      && h.level.last == Later(g.level.last, TicksFor(g, s))
  {
    hide Tokens;
    TokensAdd(0, 0, g.cfg.readRate);
    LaterNow(g.level.last);
  }

  /** Over any run the bucket loses what its members read and what is charged to the group directly, and gains
      the rate for every tick, up to the burst. */
  lemma {:induction false} Ledger(g: Group, run: seq<Step>)
    requires g.Inv() && Possible(g, run)
    ensures After(g, run).level.limit == g.level.limit - Charged(run) + Brought(g, run)
    ensures 0 <= Brought(g, run) <= Tokens(TicksIn(g, run), g.cfg.readRate)
    ensures (forall i :: 0 <= i < |run| ==> !run[i].RefillTick?) ==> Brought(g, run) == 0
    ensures After(g, run).level.last == Later(g.level.last, TicksIn(g, run))
    decreases |run|
  {
    hide Tokens, Elapsed, Later;
    LaterNow(g.level.last);
    TokensAdd(0, 0, g.cfg.readRate);
    if run != [] {
      var h := Do(g, run[0]);
      StepInv(g, run[0]);
      StepLedger(g, run[0]);
      Ledger(h, run[1..]);
      TokensAdd(TicksFor(g, run[0]), TicksIn(h, run[1..]), g.cfg.readRate);
      LaterLater(g.level.last, TicksFor(g, run[0]), TicksIn(h, run[1..]));
    }
  }

  /** A group that was charged all it held and all that came in meanwhile is suspended. */
  lemma SpentIsSuspended(cfg: Cfg, share: nat, tick: uint32, run: seq<Step>)
    requires cfg.Valid() && share >= 1 && Possible(NewGroup(cfg, share, tick), run)
    ensures var g := NewGroup(cfg, share, tick);
      && After(g, run).level.limit == cfg.readRate - Charged(run) + Brought(g, run)
      && (Charged(run) >= cfg.readRate + Tokens(TicksIn(g, run), cfg.readRate) ==> After(g, run).suspended)
  {
    hide Tokens;
    var g := NewGroup(cfg, share, tick);
    RunInv(g, run);
    Ledger(g, run);
  }

  // ----- who is suspended

  /** When the group is suspended after a step. */
  lemma SuspendedAfter(g: Group, s: Step)
    requires g.Inv() && Enabled(g, s)
    ensures var h := Do(g, s);
      h.suspended <==>
        match s
        case Charge(_, _) => h.level.limit <= 0
        case Decrease(_, _) => h.level.limit <= 0 || (g.suspended && g.level.limit > 0)
        case RefillTick(_, _) => g.suspended && h.level.limit < g.minShare
        case _ => g.suspended
    ensures var h := Do(g, s);
      !h.loop.NoLoop? && g.loop.NoLoop? ==> forall m :: m in h.loop.rest <==> m in g.members
  {
    hide Refill;
    RotateOnce(g.members, if s.Charge? || s.Decrease? || s.RefillTick? then s.first else 0);
  }

  /** The group is not suspended while it holds the smallest share. */
  ghost predicate Poor(g: Group) {
    g.suspended ==> g.level.limit < g.minShare
  }

  /** Only bytes given back to a suspended group that is not in debt leave it so. */
  lemma PoorStep(g: Group, s: Step)
    requires g.Inv() && Enabled(g, s) && Poor(g)
    ensures Poor(Do(g, s)) <==>
      !(s.Decrease? && g.suspended && g.level.limit > 0 && g.level.limit - s.decr >= g.minShare)
  {
    hide Refill;
    SuspendedAfter(g, s);
    StepLedger(g, s);
  }

  lemma {:induction false} PoorRun(g: Group, run: seq<Step>)
    requires g.Inv() && Possible(g, run) && Poor(g)
    requires forall i :: 0 <= i < |run| && run[i].Decrease? ==> run[i].decr >= 0
    ensures Poor(After(g, run))
    decreases |run|
  {
    if run != [] {
      StepInv(g, run[0]);
      PoorStep(g, run[0]);
      PoorRun(Do(g, run[0]), run[1..]);
    }
  }

  /** Where nothing is given back, no group is ever suspended that holds the smallest share. */
  lemma SuspendedIsPoor(cfg: Cfg, share: nat, tick: uint32, run: seq<Step>)
    requires cfg.Valid() && share >= 1 && Possible(NewGroup(cfg, share, tick), run)
    requires forall i :: 0 <= i < |run| && run[i].Decrease? ==> run[i].decr >= 0
    ensures var g := After(NewGroup(cfg, share, tick), run); g.level.limit >= g.minShare ==> !g.suspended
  {
    PoorRun(NewGroup(cfg, share, tick), run);
  }

  /** For example: a group of 10 bytes a tick and a smallest share of 5 is overdrawn by 9, gets 10 bytes, and
      then 9 are given back: it stays suspended with the full 10 bytes. */
  lemma RefundStaysSuspended()
    ensures var cfg, run := Cfg(10, 10, 10, 10), [Charge(19, 0), Finish, RefillTick(1, 0), Decrease(-9, 0)];
      var g := NewGroup(cfg, 5, 0);
      Possible(g, run) && After(g, run).suspended && After(g, run).level.limit == 10
  {
    var g := NewGroup(Cfg(10, 10, 10, 10), 5, 0);
    var g1 := Do(g, Charge(19, 0));
    var g2 := Do(g1, Finish);
    var g3 := Do(g2, RefillTick(1, 0));
    assert g3.level == Level(1, 1) && g3.suspended;
    var g4 := Do(g3, Decrease(-9, 0));
    assert After(g4, []) == g4;
    assert [RefillTick(1, 0), Decrease(-9, 0)][1..] == [Decrease(-9, 0)];
    assert [Finish, RefillTick(1, 0), Decrease(-9, 0)][1..] == [RefillTick(1, 0), Decrease(-9, 0)];
    assert [Charge(19, 0), Finish, RefillTick(1, 0), Decrease(-9, 0)][1..] ==
      [Finish, RefillTick(1, 0), Decrease(-9, 0)];
  }

  /** Who could not be locked when the group was suspended, and has not asked for its limit since. */
  ghost function Missed(g: Group, s: Step, missed: set<Id>): set<Id>
    requires Enabled(g, s)
  {
    match s
    case Charge(_, _) => if Do(g, s).loop.Suspending? then {} else missed
    case Decrease(_, _) => if Do(g, s).loop.Suspending? then {} else missed
    case Visit(locked) => if g.loop.Suspending? && !locked then missed + {g.loop.rest[0]} else missed
    case Query(m) => missed - {m}
    case _ => missed
  }

  ghost function MissedIn(g: Group, run: seq<Step>, missed: set<Id>): set<Id>
    requires Possible(g, run)
    decreases |run|
  {
    if run == [] then missed else MissedIn(Do(g, run[0]), run[1..], Missed(g, run[0], missed))
  }

  /** The members of a suspended group are suspended, or will be visited, or were missed. */
  ghost predicate AllMarked(g: Group, missed: set<Id>) {
    g.suspended ==> forall m :: m in g.members ==> g.Held(m) || m in missed || (g.loop.Suspending? && m in g.loop.rest)
  }

  lemma MarkedStep(g: Group, s: Step, missed: set<Id>)
    requires g.Inv() && Enabled(g, s) && AllMarked(g, missed)
    ensures AllMarked(Do(g, s), Missed(g, s, missed))
  {
    hide Refill;
    var h := Do(g, s);
    if h.suspended {
      forall m | m in h.members
        ensures h.Held(m) || m in Missed(g, s, missed) || (h.loop.Suspending? && m in h.loop.rest)
      {
        assert m in g.members || s == BeginJoin(m);
        assert s.Visit? ==> g.loop.rest == [g.loop.rest[0]] + g.loop.rest[1..];
        assert s == EndJoin(m) || s == BeginJoin(m) || h.PhaseOf(m) == g.PhaseOf(m);
      }
    }
  }

  lemma {:induction false} MarkedRun(g: Group, run: seq<Step>, missed: set<Id>)
    requires g.Inv() && Possible(g, run) && AllMarked(g, missed)
    ensures AllMarked(After(g, run), MissedIn(g, run, missed))
    decreases |run|
  {
    if run != [] {
      StepInv(g, run[0]);
      MarkedStep(g, run[0], missed);
      MarkedRun(Do(g, run[0]), run[1..], Missed(g, run[0], missed));
    }
  }

  /** In every state that any run leads to, with no loop under way: a member of a suspended group is suspended
      for it, or just joining and about to be, or could not be locked and has not asked for its limit since;
      then it will get none. */
  lemma SuspendedStopsAll(cfg: Cfg, share: nat, tick: uint32, run: seq<Step>, m: Id)
    requires cfg.Valid() && share >= 1 && Possible(NewGroup(cfg, share, tick), run)
    ensures var g := After(NewGroup(cfg, share, tick), run);
      g.loop.NoLoop? && g.suspended && m in g.members ==>
        || m in g.flagged || g.PhaseOf(m) == Joining(true) || m in MissedIn(NewGroup(cfg, share, tick), run, {})
  {
    MarkedRun(NewGroup(cfg, share, tick), run, {});
  }

  // ----- joining and leaving

  lemma {:induction false} WithoutNone(members: seq<Id>, m: Id)
    requires m !in members
    ensures Without(members, m) == members
  {
    if members != [] {
      WithoutNone(members[1..], m);
    }
  }

  /** A bufferevent that joins is in the group, and suspended for it exactly if the group was suspended. */
  lemma Joined(g: Group, m: Id)
    requires g.Inv() && Enabled(g, BeginJoin(m))
    ensures Enabled(Do(g, BeginJoin(m)), EndJoin(m))
    ensures var j := Do(Do(g, BeginJoin(m)), EndJoin(m));
      && j == g.(members := [m] + g.members, flagged := j.flagged, phase := j.phase)
      && j.flagged == (if g.suspended then g.flagged + {m} else g.flagged)
      && forall x :: j.PhaseOf(x) == g.PhaseOf(x)
  {
    assert !g.Held(m);
    assert Do(g, BeginJoin(m)).PhaseOf(m) == Joining(g.suspended);
  }

  lemma Left(j: Group, m: Id)
    requires Enabled(j, BeginLeave(m))
    ensures Enabled(Do(j, BeginLeave(m)), EndLeave(m))
    ensures var h := Do(Do(j, BeginLeave(m)), EndLeave(m));
      && h == j.(members := Without(j.members, m), flagged := j.flagged - {m}, phase := h.phase)
      && forall x :: h.PhaseOf(x) == j.PhaseOf(x)
  {
    assert Do(j, BeginLeave(m)).PhaseOf(m) == Leaving;
  }

  /** When it leaves again, everything is as before. */
  lemma JoinThenLeave(g: Group, m: Id)
    requires g.Inv() && Enabled(g, BeginJoin(m))
    ensures Enabled(Do(g, BeginJoin(m)), EndJoin(m))
    ensures var j := Do(Do(g, BeginJoin(m)), EndJoin(m));
      Enabled(j, BeginLeave(m)) && Enabled(Do(j, BeginLeave(m)), EndLeave(m)) &&
      var h := Do(Do(j, BeginLeave(m)), EndLeave(m));
      h == g.(phase := h.phase) && forall x :: h.PhaseOf(x) == g.PhaseOf(x)
  {
    hide Do;
    Joined(g, m);
    var j := Do(Do(g, BeginJoin(m)), EndJoin(m));
    Left(j, m);
    WithoutNone(g.members, m);
    assert ([m] + g.members)[1..] == g.members;
    assert !g.Held(m);
    assert g.flagged + {m} - {m} == g.flagged == g.flagged - {m};
  }

  // ----- the limit a member sees

  /** bufferevent_get_rlim_max_ for a member whose own limit is own. */
  function QueryLimit(g: Group, m: Id, own: int): int
    requires Enabled(g, Query(m))
  {
    var q := Quotient(g.level.limit, |g.members|);
    var share := if g.suspended then 0 else if q < g.minShare then g.minShare else q;
    Max(0, Min(own, share))
  }

  /** A suspended group leaves its members nothing, and marks the one that asks; otherwise a member
      whose own limit allows it gets at least the smallest share, and all members together get no more
      than the bucket holds unless that is less than the smallest share for each. */
  lemma QueriedLimit(g: Group, m: Id, own: int)
    requires g.Inv() && Enabled(g, Query(m))
    ensures g.suspended ==> QueryLimit(g, m, own) == 0 && m in Do(g, Query(m)).flagged
    ensures !g.suspended && own >= g.minShare ==> QueryLimit(g, m, own) >= g.minShare >= 1
    ensures 0 <= QueryLimit(g, m, own) <= Max(0, own)
    ensures g.level.limit >= g.minShare * |g.members| ==> QueryLimit(g, m, own) * |g.members| <= g.level.limit
  {
    var n, l := |g.members|, g.level.limit;
    assert 0 <= g.minShare * n;
    if l >= g.minShare * n {
      var q := l / n;
      assert q * n <= l;
      assert QueryLimit(g, m, own) <= Max(g.minShare, q);
      assert Max(g.minShare, q) * n <= l;
      MulUp(n, QueryLimit(g, m, own), Max(g.minShare, q));
    }
  }

  /** A member whose own limit allows more gets all of its part of the bucket. */
  lemma QueriedAll(g: Group, m: Id, own: int)
    requires g.Inv() && Enabled(g, Query(m)) && !g.suspended && QueryLimit(g, m, own) < own
    ensures (QueryLimit(g, m, own) + 1) * |g.members| > g.level.limit
  {
    PartOf(g.level.limit, |g.members|, QueryLimit(g, m, own));
  }

  lemma PartOf(l: nat, n: nat, r: nat)
    requires n > 0 && r >= l / n
    ensures (r + 1) * n > l
  {
    var q := l / n;
    assert l == q * n + l % n;
    MulLess(q, r + 1, n);
  }

  lemma MulUp(n: nat, r: nat, k: nat)
    requires r <= k
    ensures r * n <= k * n
  {}

  // ----- waking up

  /** After enough ticks the bucket holds the smallest share again, whatever its debt. */
  lemma RefillsShare(g: Group, d: nat)
    requires g.Inv() && d <= INT_MAX && d >= 1 - g.level.limit / g.cfg.readRate
    ensures Refill(g.level, g.cfg.readMaximum, g.cfg.readRate, Later(g.level.last, d)).limit >= g.minShare
  {
    hide Tokens;
    var rate := g.cfg.readRate;
    RefillLater(g.level, g.cfg.readMaximum, rate, d);
    DebtPaid(g.level.limit, rate, d);
  }

  lemma DebtPaid(limit: int, rate: nat, d: nat)
    requires rate > 0 && d >= 1 - limit / rate
    ensures limit + Tokens(d, rate) >= rate
  {
    var q := limit / rate;
    assert limit == q * rate + limit % rate;
    MulUp(rate, 1, d + q);
    assert (d + q) * rate == d * rate + q * rate;
  }

  /** The rounds of one loop when every try-lock succeeds, and its end. */
  function AllVisits(n: nat): seq<Step> {
    if n == 0 then [Finish] else [Visit(true)] + AllVisits(n - 1)
  }

  lemma {:induction false} UnsuspendAll(g: Group)
    requires g.loop.Unsuspending? && !g.loop.again && forall m :: g.PhaseOf(m).Free?
    ensures Possible(g, AllVisits(|g.loop.rest|))
    ensures var h := After(g, AllVisits(|g.loop.rest|));
      h == g.(loop := NoLoop, pending := false, flagged := h.flagged) && forall m :: m in h.flagged <==>
        m in g.flagged && m !in g.loop.rest
    decreases |g.loop.rest|
  {
    if g.loop.rest == [] {
      assert AllVisits(0)[1..] == [];
    } else {
      var h := Do(g, Visit(true));
      assert forall m :: h.PhaseOf(m) == g.PhaseOf(m);
      UnsuspendAll(h);
      assert AllVisits(|g.loop.rest|)[1..] == AllVisits(|h.loop.rest|);
      assert g.loop.rest == [g.loop.rest[0]] + h.loop.rest;
    }
  }

  /** Once the bucket holds the smallest share, or a wakeup is pending, a tick in which no bufferevent
      is locked wakes every member. */
  lemma TickWakesAll(g: Group, tick: uint32, first: nat)
    requires g.Inv() && g.loop.NoLoop? && forall m :: g.PhaseOf(m).Free?
    requires g.pending || Refill(g.level, g.cfg.readMaximum, g.cfg.readRate, tick).limit >= g.minShare
    requires g.suspended || g.pending
    ensures var run := [RefillTick(tick, first)] + AllVisits(|g.members|);
      Possible(g, run) && After(g, run).flagged == {} && !After(g, run).suspended && !After(g, run).pending
  {
    var run := [RefillTick(tick, first)] + AllVisits(|g.members|);
    assert run[1..] == AllVisits(|g.members|);
    var h := Do(g, run[0]);
    RotateOnce(g.members, first);
    assert forall m :: h.PhaseOf(m) == g.PhaseOf(m);
    UnsuspendAll(h);
    var e := After(g, run);
    forall m
      ensures m !in e.flagged
    {
      if m in e.flagged {
        assert g.Held(m);
      }
    }
  }
}
