/** How long the retry loop of `__swp` can run.

    A store-exclusive fails only because another store took effect after the load-exclusive, or because
    the reservation was lost for no reason.  So the number of exclusive accesses is bounded by the number
    of calls, the number of spurious losses and the number of outside stores, whatever the
    interleaving, and the bound is attained. */
module SwapBound {
  import opened SwapProtocol

  datatype Kind = Calls | Loads | Stores | Fails | Wins | Returns | Losses | Writes {
    predicate Has(e: Event) {
      match this
      case Calls => e.Call?
      case Loads => e.Load?
      case Stores => e.Store?
      case Fails => e.Fails()
      case Wins => e.Wins()
      case Returns => e.Return?
      case Losses => e.Lose?
      case Writes => e.Write?
    }
  }

  function Count(es: seq<Event>, k: Kind): nat {
    if es == [] then 0 else
      var n := |es| - 1;
      Count(es[..n], k) + if k.Has(es[n]) then 1 else 0
  }

  /** Exclusive accesses: every pass through the loop makes two. */
  function Accesses(es: seq<Event>): nat {
    Count(es, Loads) + Count(es, Stores)
  }

  lemma CountExtend(es: seq<Event>, e: Event, k: Kind)
    ensures Count(es + [e], k) == Count(es, k) + if k.Has(e) then 1 else 0
  {
    assert (es + [e])[..|es|] == es;
  }

  lemma {:induction false} CountWhole(es: seq<Event>)
    ensures |es| == Count(es, Calls) + Accesses(es) + Count(es, Returns) + Count(es, Losses) + Count(es, Writes)
    ensures Count(es, Stores) == Count(es, Fails) + Count(es, Wins)
  {
    if es != [] {
      CountWhole(es[..|es| - 1]);
    }
  }

  // ----- who is where

  function Inside(s: State): set<nat> {
    set t | 0 <= t < |s.threads| && (s.threads[t].Ready? || s.threads[t].Loaded?)
  }

  function Holding(s: State): set<nat> {
    set t | 0 <= t < |s.threads| && s.threads[t].Loaded?
  }

  function Leaving(s: State): set<nat> {
    set t | 0 <= t < |s.threads| && s.threads[t].Done?
  }

  lemma {:induction false} SubsetSize(a: set<nat>, b: set<nat>)
    requires a <= b
    ensures |a| <= |b|
    decreases |a|
  {
    if a != {} {
      var x :| x in a;
      SubsetSize(a - {x}, b - {x});
    }
  }

  lemma Sizes(s: State)
    requires Inv(s)
    ensures |s.reserved| <= |Holding(s)| <= |Inside(s)|
  {
    SubsetSize(s.reserved, Holding(s));
    SubsetSize(Holding(s), Inside(s));
  }

  // ----- the bound on all accesses

  /** d(d+1), as the sum 2 + 4 + ... + 2d. */
  function Pairs(d: nat): nat {
    if d == 0 then 0 else Pairs(d - 1) + 2 * d
  }

  lemma {:induction false} PairsIs(d: nat)
    ensures Pairs(d) == d * (d + 1)
  {
    if d > 0 {
      PairsIs(d - 1);
    }
  }

  lemma {:induction false} PairsAtLeast(d: nat)
    ensures Pairs(d) >= 2 * d
  {
    if d > 0 {
      PairsAtLeast(d - 1);
    }
  }

  /** Accesses that `inside` pending calls, `holding` of them between their two accesses and `reserved`
      of them with a reservation, can still cost when nothing disturbs them. */
  function Weight(inside: nat, holding: nat, reserved: nat): int {
    Pairs(inside) - 2 * reserved + holding
  }

  function Potential(s: State): int {
    Weight(|Inside(s)|, |Holding(s)|, |s.reserved|)
  }

  lemma SetsAfter(s: State, e: Event)
    requires Inv(s) && Enabled(s, e)
    ensures
      var u := Apply(s, e);
      match e
      case Call(t, x) => t !in Inside(s) && Inside(u) == Inside(s) + {t} && Holding(u) == Holding(s) && u.reserved == s.reserved
      case Load(t, v) =>
        && t !in Holding(s) && t !in s.reserved
        && Inside(u) == Inside(s) && Holding(u) == Holding(s) + {t} && u.reserved == s.reserved + {t}
      case Store(t, x, v, ok) =>
        && t in Holding(s) && t in Inside(s) && Holding(u) == Holding(s) - {t}
        && Inside(u) == (if ok then Inside(s) - {t} else Inside(s)) && u.reserved == (if ok then {} else s.reserved)
      case Return(t, v) => Inside(u) == Inside(s) && Holding(u) == Holding(s) && u.reserved == s.reserved
      case Lose(t) => t in s.reserved && Inside(u) == Inside(s) && Holding(u) == Holding(s) && u.reserved == s.reserved - {t}
      case Write(x) => Inside(u) == Inside(s) && Holding(u) == Holding(s) && u.reserved == {}
  {
  }

  /** How a step changes the sizes `d` of Inside, `h` of Holding and `r` of the reserved set. */
  predicate Resizes(e: Event, d: nat, h: nat, r: nat, d1: nat, h1: nat, r1: nat) {
    match e
    case Call(_, _) => d1 == d + 1 && h1 == h && r1 == r
    case Load(_, _) => d1 == d && h1 == h + 1 && r1 == r + 1
    case Store(_, _, _, ok) => h == h1 + 1 && if ok then d == d1 + 1 && r1 == 0 else d1 == d && r1 == r
    case Return(_, _) => d1 == d && h1 == h && r1 == r
    case Lose(_) => d1 == d && h1 == h && r == r1 + 1
    case Write(_) => d1 == d && h1 == h && r1 == 0
  }

  lemma SizesAfter(s: State, e: Event)
    requires Inv(s) && Enabled(s, e)
    ensures
      var u := Apply(s, e);
      Resizes(e, |Inside(s)|, |Holding(s)|, |s.reserved|, |Inside(u)|, |Holding(u)|, |u.reserved|)
  {
    SetsAfter(s, e);
  }

  /** What a step can add to the potential, with `d` threads inside. */
  function Gift(e: Event, d: nat): nat {
    if e.Call? then 2 * (d + 1) else if e.Lose? then 2 else if e.Write? then 2 * d else 0
  }

  lemma WeightAfter(e: Event, d: nat, h: nat, r: nat, d1: nat, h1: nat, r1: nat)
    requires r <= d && Resizes(e, d, h, r, d1, h1, r1)
    ensures Weight(d1, h1, r1) + (if e.Load? || e.Store? then 1 else 0) <= Weight(d, h, r) + Gift(e, d)
  {
  }

  /** An access is paid for by the potential; only calls, lost reservations and outside stores raise it. */
  lemma StepCost(s: State, e: Event)
    requires Inv(s) && Enabled(s, e)
    ensures Potential(Apply(s, e)) + (if e.Load? || e.Store? then 1 else 0) <= Potential(s) + Gift(e, |Inside(s)|)
  {
    var u := Apply(s, e);
    SizesAfter(s, e);
    Sizes(s);
    WeightAfter(e, |Inside(s)|, |Holding(s)|, |s.reserved|, |Inside(u)|, |Holding(u)|, |u.reserved|);
  }

  /** Threads inside the loop are the calls that have not won yet; threads between their two accesses
      are the loads whose store is still to come. */
  lemma {:induction false} RunSizes(s: State, es: seq<Event>)
    requires Initial(s) && IsRun(s, es)
    ensures Inv(After(s, es))
    ensures |Inside(After(s, es))| + Count(es, Wins) == Count(es, Calls)
    ensures |Holding(After(s, es))| + Count(es, Stores) == Count(es, Loads)
    decreases |es|
  {
    RunKeepsInv(s, es);
    if es == [] {
      assert Inside(s) == {} && Holding(s) == {};
    } else {
      var n := |es| - 1;
      RunSizes(s, es[..n]);
      SizesAfter(After(s, es[..n]), es[n]);
    }
  }

  /** `calls` calls among `losses` lost reservations and `writes` outside stores. */
  function Bound(calls: nat, losses: nat, writes: nat): nat {
    calls * (calls + 1) + 2 * losses + 2 * calls * writes
  }

  lemma BoundGrows(e: Event, d: nat, calls: nat, losses: nat, writes: nat)
    requires d <= calls
    ensures Bound(calls, losses, writes) + Gift(e, d) <= Bound(
      calls + (if e.Call? then 1 else 0), losses + (if e.Lose? then 1 else 0), writes + (if e.Write? then 1 else 0))
  {
    if e.Call? {
      assert (calls + 1) * (calls + 2) == calls * (calls + 1) + 2 * (calls + 1);
      assert 2 * (calls + 1) * writes == 2 * calls * writes + 2 * writes;
    } else if e.Write? {
      assert 2 * calls * (writes + 1) == 2 * calls * writes + 2 * calls;
    }
  }

  function RunBound(es: seq<Event>): nat {
    Bound(Count(es, Calls), Count(es, Losses), Count(es, Writes))
  }

  /** The gifts of a run, with every call still inside. */
  function Allowance(es: seq<Event>): nat {
    if es == [] then 0 else
      var n := |es| - 1;
      Allowance(es[..n]) + Gift(es[n], Count(es[..n], Calls))
  }

  lemma {:induction false} AllowanceIsWithinBound(es: seq<Event>)
    ensures Allowance(es) <= RunBound(es)
    decreases |es|
  {
    if es != [] {
      var a, e := es[..|es| - 1], es[|es| - 1];
      AllowanceIsWithinBound(a);
      BoundGrows(e, Count(a, Calls), Count(a, Calls), Count(a, Losses), Count(a, Writes));
    }
  }

  lemma {:induction false} RunCost(s: State, es: seq<Event>)
    requires Initial(s) && IsRun(s, es)
    ensures Accesses(es) + Potential(After(s, es)) <= Allowance(es)
    decreases |es|
  {
    if es == [] {
      assert Inside(s) == {} && Holding(s) == {};
    } else {
      var a, e := es[..|es| - 1], es[|es| - 1];
      RunCost(s, a);
      RunSizes(s, a);
      StepCost(After(s, a), e);
    }
  }

  lemma WeightAtLeast(d: nat, h: nat, r: nat)
    requires r <= h <= d
    ensures Weight(d, h, r) >= 0 && Weight(d, h, r) + h >= 2 * d
  {
    PairsAtLeast(d);
  }

  lemma AccessesAreAllowed(s: State, es: seq<Event>)
    requires Initial(s) && IsRun(s, es)
    ensures Accesses(es) <= Allowance(es)
    ensures 2 * Count(es, Fails) + 2 * Count(es, Calls) <= Allowance(es)
  {
    var u := After(s, es);
    RunCost(s, es);
    RunSizes(s, es);
    CountWhole(es);
    Sizes(u);
    WeightAtLeast(|Inside(u)|, |Holding(u)|, |u.reserved|);
  }

  /** Every run: `c` calls make at most c(c+1) exclusive accesses, and at most c(c-1)/2 of their stores
      fail, plus what lost reservations and outside stores add. */
  lemma AccessesAreBounded(s: State, es: seq<Event>)
    requires Initial(s) && IsRun(s, es)
    ensures
      var c, l, w := Count(es, Calls), Count(es, Losses), Count(es, Writes);
      && Count(es, Loads) + Count(es, Stores) <= c * (c + 1) + 2 * l + 2 * c * w
      && 2 * Count(es, Fails) + 2 * c <= c * (c + 1) + 2 * l + 2 * c * w
  {
    AccessesAreAllowed(s, es);
    AllowanceIsWithinBound(es);
  }

  lemma UndisturbedBound(c: nat)
    ensures Bound(c, 0, 0) == c * (c + 1) == c * (c - 1) + 2 * c
  {
  }

  /** Without lost reservations and outside stores: c(c+1) accesses and c(c-1)/2 failures at most. */
  lemma UndisturbedAccesses(s: State, es: seq<Event>)
    requires Initial(s) && IsRun(s, es) && Count(es, Losses) == 0 && Count(es, Writes) == 0
    ensures var c := Count(es, Calls); Accesses(es) <= c * (c + 1) && 2 * Count(es, Fails) <= c * (c - 1)
  {
    AccessesAreBounded(s, es);
    UndisturbedBound(Count(es, Calls));
  }

  // ----- the bound on the failures of one call

  /** Failed stores of thread `t` since its last call. */
  function OwnFails(es: seq<Event>, t: nat): nat {
    if es == [] || (es[|es| - 1].Call? && es[|es| - 1].t == t) then 0 else
      var n := |es| - 1;
      OwnFails(es[..n], t) + if es[n].Fails() && es[n].t == t then 1 else 0
  }

  /** What can have cost thread `t` a reservation since its last call: successful stores, outside stores
      and losses of its own reservation. */
  function Disturbances(es: seq<Event>, t: nat): nat {
    if es == [] || (es[|es| - 1].Call? && es[|es| - 1].t == t) then 0 else
      var n := |es| - 1;
      Disturbances(es[..n], t) + if es[n].Wins() || es[n].Write? || (es[n].Lose? && es[n].t == t) then 1 else 0
  }

  lemma OwnFailsExtend(es: seq<Event>, e: Event, t: nat)
    ensures OwnFails(es + [e], t) ==
            if e.Call? && e.t == t then 0 else OwnFails(es, t) + if e.Fails() && e.t == t then 1 else 0
  {
    assert (es + [e])[..|es|] == es;
  }

  /** A call of the thread starts the count of disturbances anew; the losses of other threads do not count. */
  lemma DisturbancesExtend(es: seq<Event>, e: Event, t: nat)
    ensures Disturbances([], t) == 0
    ensures Disturbances(es + [e], t) ==
            match e
            case Call(u, _) => if u == t then 0 else Disturbances(es, t)
            case Store(_, _, _, ok) => Disturbances(es, t) + if ok then 1 else 0
            case Lose(u) => Disturbances(es, t) + if u == t then 1 else 0
            case Write(_) => Disturbances(es, t) + 1
            case _ => Disturbances(es, t)
  {
    assert (es + [e])[..|es|] == es;
  }

  /** Thread `t` has loaded and lost its reservation: its next store will fail. */
  predicate Stale(s: State, t: nat) {
    t < |s.threads| && s.threads[t].Loaded? && t !in s.reserved
  }

  /** A call fails at most once per disturbance since it began. */
  lemma {:induction false} OwnFailsAreCaused(s: State, es: seq<Event>, t: nat)
    requires Initial(s) && IsRun(s, es) && t in Inside(After(s, es))
    ensures OwnFails(es, t) + (if Stale(After(s, es), t) then 1 else 0) <= Disturbances(es, t)
    decreases |es|
  {
    if es != [] {
      var n := |es| - 1;
      var u, e := After(s, es[..n]), es[n];
      RunSizes(s, es[..n]);
      if !(e.Call? && e.t == t) {
        OwnFailsAreCaused(s, es[..n], t);
      }
    }
  }

  lemma {:induction false} DisturbancesAreFew(es: seq<Event>, t: nat)
    ensures Disturbances(es, t) <= Count(es, Wins) + Count(es, Writes) + Count(es, Losses)
    decreases |es|
  {
    if es != [] {
      DisturbancesAreFew(es[..|es| - 1], t);
    }
  }

  /** The store that succeeds as number k, counting from 0, ends a call with at most k failures, one
      more for each outside store and lost reservation. */
  lemma WinnerFailsAtMostItsRank(s: State, es: seq<Event>, j: nat)
    requires Initial(s) && IsRun(s, es) && j < |es| && es[j].Wins()
    ensures OwnFails(es[..j], es[j].t) <= Count(es[..j], Wins) + Count(es[..j], Writes) + Count(es[..j], Losses)
  {
    RunPrefix(s, es, j + 1);
    assert es[..j + 1][..j] == es[..j];
    OwnFailsAreCaused(s, es[..j], es[j].t);
    DisturbancesAreFew(es[..j], es[j].t);
  }

  // ----- every call can finish

  /** Thread `t` is in a call. */
  predicate Busy(s: State, t: nat) {
    t < |s.threads| && !s.threads[t].Idle?
  }

  /** The next step of a thread that is in a call: the only event of its own that can happen. */
  function Next(s: State, t: nat): (e: Event)
    requires Busy(s, t)
    ensures Enabled(s, e) && e.By(t)
  {
    match s.threads[t]
    case Ready(x) => Load(t, s.mem)
    case Loaded(x, v) => Store(t, x, v, t in s.reserved)
    case Done(v) => Return(t, v)
    case Idle => assert false; Lose(t)
  }

  lemma NextIsOnly(s: State, t: nat, e: Event)
    requires Busy(s, t) && Enabled(s, e) && e.By(t)
    ensures e == Next(s, t)
  {
  }

  lemma LeavingAfter(s: State, e: Event)
    requires Enabled(s, e)
    ensures e.Wins() ==> e.t !in Leaving(s) && Leaving(Apply(s, e)) == Leaving(s) + {e.t}
    ensures e.Return? ==> e.t in Leaving(s) && Leaving(Apply(s, e)) == Leaving(s) - {e.t}
    ensures !e.Wins() && !e.Return? ==> Leaving(Apply(s, e)) == Leaving(s)
  {
  }

  lemma {:induction false} ReturnsAreFew(s: State, es: seq<Event>)
    requires Initial(s) && IsRun(s, es)
    ensures |Leaving(After(s, es))| + Count(es, Returns) == Count(es, Wins)
    decreases |es|
  {
    if es == [] {
      assert Leaving(s) == {};
    } else {
      var n := |es| - 1;
      var u, e := After(s, es[..n]), es[n];
      ReturnsAreFew(s, es[..n]);
      LeavingAfter(u, e);
    }
  }

  /** No more events than this, outside events included, happen in a run with these calls. */
  function LongestRun(es: seq<Event>): nat {
    RunBound(es) + 2 * Count(es, Calls) + Count(es, Losses) + Count(es, Writes)
  }

  lemma LongestRunLength(c: nat, l: nat, w: nat)
    ensures Bound(c, l, w) + 2 * c + l + w == c * (c + 3) + 3 * l + 2 * c * w + w
  {
  }

  lemma RunWithinLongest(s: State, es: seq<Event>)
    requires Initial(s) && IsRun(s, es)
    ensures |es| <= LongestRun(es)
  {
    assert Accesses(es) <= RunBound(es) by {
      AccessesAreAllowed(s, es);
      AllowanceIsWithinBound(es);
    }
    RunSizes(s, es);
    ReturnsAreFew(s, es);
    CountWhole(es);
  }

  /** A run with `c` calls, `l` lost reservations and `w` outside stores. */
  lemma RunsAreShort(s: State, es: seq<Event>)
    requires Initial(s) && IsRun(s, es)
    ensures |es| <= LongestRun(es)
    ensures
      var c, l, w := Count(es, Calls), Count(es, Losses), Count(es, Writes);
      LongestRun(es) == c * (c + 3) + 3 * l + 2 * c * w + w
  {
    RunWithinLongest(s, es);
    LongestRunLength(Count(es, Calls), Count(es, Losses), Count(es, Writes));
  }

  predicate AllIdle(s: State) {
    forall t :: 0 <= t < |s.threads| ==> s.threads[t].Idle?
  }

  /** A scheduler looks at the whole run so far; it may be as unfair as it likes, as long as it picks a
      thread that is in a call when there is one. */
  ghost predicate Schedules(s: State, pick: seq<Event> -> nat) {
    forall es :: IsRun(s, es) && !AllIdle(After(s, es)) ==> Busy(After(s, es), pick(es))
  }

  /** `r` continues the run `es` by steps of the threads that `pick` chooses, each after seeing the run so far. */
  ghost predicate Follows(s: State, es: seq<Event>, pick: seq<Event> -> nat, r: seq<Event>) {
    && es <= r && IsRun(s, r)
    && forall i :: |es| <= i < |r| ==> Picked(s, pick, r[..i], r[i])
  }

  /** After the run `es` the thread that `pick` chooses does `e`. */
  ghost predicate Picked(s: State, pick: seq<Event> -> nat, es: seq<Event>, e: Event) {
    IsRun(s, es) && Busy(After(s, es), pick(es)) && e == Next(After(s, es), pick(es))
  }

  lemma FollowsExtend(s: State, es: seq<Event>, pick: seq<Event> -> nat, r: seq<Event>, e: Event)
    requires Follows(s, es, pick, r) && Picked(s, pick, r, e)
    ensures Follows(s, es, pick, r + [e])
  {
    RunExtend(s, r, e);
    var q := r + [e];
    forall i | |es| <= i < |q| ensures Picked(s, pick, q[..i], q[i]) {
      if i < |r| {
        assert q[..i] == r[..i];
      } else {
        assert q[..i] == r;
      }
    }
  }

  lemma StepsCauseNothing(es: seq<Event>, e: Event)
    requires e.Load? || e.Store? || e.Return?
    ensures LongestRun(es + [e]) == LongestRun(es) && Count(es + [e], Calls) == Count(es, Calls)
  {
    CountExtend(es, e, Calls);
    CountExtend(es, e, Losses);
    CountExtend(es, e, Writes);
  }

  lemma {:induction false} FollowingCausesNothing(s: State, es: seq<Event>, pick: seq<Event> -> nat, r: seq<Event>)
    requires Follows(s, es, pick, r)
    ensures LongestRun(r) == LongestRun(es) && Count(r, Calls) == Count(es, Calls)
    decreases |r|
  {
    if |r| == |es| {
      assert r == es;
    } else {
      var n := |r| - 1;
      var q := r[..n];
      assert r == q + [r[n]];
      assert Picked(s, pick, q, r[n]);
      forall i | |es| <= i < n ensures Picked(s, pick, q[..i], q[i]) {
        assert q[..i] == r[..i];
      }
      FollowingCausesNothing(s, es, pick, q);
      StepsCauseNothing(q, r[n]);
    }
  }

  lemma AllReturned(s: State, es: seq<Event>)
    requires Initial(s) && IsRun(s, es) && AllIdle(After(s, es))
    ensures Count(es, Returns) == Count(es, Calls)
  {
    RunSizes(s, es);
    ReturnsAreFew(s, es);
    assert Inside(After(s, es)) == {} && Leaving(After(s, es)) == {};
  }

  /** Termination, for every scheduler: however far the run `r` has followed it from `es`, `r` is no longer
      than the bound, and either every call has returned or the thread that is picked can go on. */
  lemma EverySchedulerFinishes(s: State, es: seq<Event>, pick: seq<Event> -> nat, r: seq<Event>)
    requires Initial(s) && Schedules(s, pick) && IsRun(s, es) && Follows(s, es, pick, r)
    ensures
      var c, l, w := Count(es, Calls), Count(es, Losses), Count(es, Writes);
      |r| <= c * (c + 3) + 3 * l + 2 * c * w + w
    ensures if AllIdle(After(s, r)) then Count(r, Returns) == Count(es, Calls)
            else Busy(After(s, r), pick(r)) && Follows(s, es, pick, r + [Next(After(s, r), pick(r))])
  {
    RunsAreShort(s, es);
    RunsAreShort(s, r);
    FollowingCausesNothing(s, es, pick, r);
    if AllIdle(After(s, r)) {
      AllReturned(s, r);
    } else {
      FollowsExtend(s, es, pick, r, Next(After(s, r), pick(r)));
    }
  }

  /** So every scheduler brings every call to its return. */
  lemma {:induction false} SchedulerReaches(s: State, es: seq<Event>, pick: seq<Event> -> nat, r: seq<Event>)
      returns (q: seq<Event>)
    requires Initial(s) && Schedules(s, pick) && IsRun(s, es) && Follows(s, es, pick, r)
    ensures Follows(s, es, pick, q) && r <= q && AllIdle(After(s, q)) && Count(q, Returns) == Count(es, Calls)
    decreases LongestRun(es) - |r|
  {
    FollowingCausesNothing(s, es, pick, r);
    RunsAreShort(s, r);
    if AllIdle(After(s, r)) {
      q := r;
      AllReturned(s, r);
    } else {
      var e := Next(After(s, r), pick(r));
      FollowsExtend(s, es, pick, r, e);
      FollowingCausesNothing(s, es, pick, r + [e]);
      RunsAreShort(s, r + [e]);
      q := SchedulerReaches(s, es, pick, r + [e]);
    }
  }

  // ----- the bound is attained

  /** `n` threads run `__swp(0, p)` on a zero word.  Those from `d` on have won, those from `a` to `b` have
      loaded, the others are at the loop head. */
  function Round(n: nat, a: nat, b: nat, d: nat, reserved: set<nat>): State {
    State(0, reserved, seq(n, t => if d <= t then Done(0) else if a <= t < b then Loaded(0, 0) else Ready(0)))
  }

  function Below(k: nat): (r: set<nat>)
    ensures forall t: nat :: t in r <==> t < k
  {
    if k == 0 then {} else Below(k - 1) + {k - 1}
  }

  /** Before thread `k` calls. */
  function Calling(n: nat, k: nat): State {
    State(0, {}, seq(n, t => if t < k then Ready(0) else Idle))
  }

  lemma {:induction false} AllCall(n: nat, k: nat) returns (es: seq<Event>)
    requires k <= n
    ensures IsRun(Calling(n, 0), es) && After(Calling(n, 0), es) == Calling(n, k)
    ensures Count(es, Calls) == k && Accesses(es) == 0 && Count(es, Fails) == 0
    ensures Count(es, Losses) == 0 && Count(es, Writes) == 0
  {
    es := [];
    if k > 0 {
      es := AllCall(n, k - 1);
      es := Extend(Calling(n, 0), es, Call(k - 1, 0), Calling(n, k));
    }
  }

  /** One more event, with its counts. */
  lemma Extend(s: State, es: seq<Event>, e: Event, u: State) returns (r: seq<Event>)
    requires IsRun(s, es) && Enabled(After(s, es), e) && Apply(After(s, es), e) == u
    ensures IsRun(s, r) && After(s, r) == u
    ensures forall k: Kind :: Count(r, k) == Count(es, k) + if k.Has(e) then 1 else 0
  {
    r := es + [e];
    RunExtend(s, es, e);
    forall k: Kind ensures Count(r, k) == Count(es, k) + if k.Has(e) then 1 else 0 {
      CountExtend(es, e, k);
    }
  }

  ghost predicate SameCauses(r: seq<Event>, es: seq<Event>) {
    Count(r, Calls) == Count(es, Calls) && Count(r, Losses) == Count(es, Losses) && Count(r, Writes) == Count(es, Writes)
  }

  lemma LoadStep(n: nat, d: nat, k: nat, next: nat)
    requires k < d <= n && next == k + 1
    ensures var u := Round(n, 0, k, d, Below(k));
      Enabled(u, Load(k, 0)) && Apply(u, Load(k, 0)) == Round(n, 0, next, d, Below(next))
  {
    assert Below(next) == Below(k) + {k};
  }

  /** The threads still inside load one after the other. */
  lemma {:induction false} AllLoad(s: State, es: seq<Event>, n: nat, d: nat, k: nat) returns (r: seq<Event>)
    requires k <= d <= n && IsRun(s, es) && After(s, es) == Round(n, 0, 0, d, {})
    ensures IsRun(s, r) && After(s, r) == Round(n, 0, k, d, Below(k))
    ensures Count(r, Loads) == Count(es, Loads) + k && Count(r, Stores) == Count(es, Stores)
    ensures Count(r, Fails) == Count(es, Fails) && SameCauses(r, es)
  {
    r := es;
    if k == 0 {
      assert Below(0) == {};
    } else {
      r := AllLoad(s, es, n, d, k - 1);
      LoadStep(n, d, k - 1, k);
      r := Extend(s, r, Load(k - 1, 0), Round(n, 0, k, d, Below(k)));
    }
  }

  /** After thread `d` has won, the first `k` of the others fail one after the other. */
  lemma {:induction false} OthersFail(s: State, es: seq<Event>, n: nat, d: nat, k: nat) returns (r: seq<Event>)
    requires k <= d < n && IsRun(s, es) && After(s, es) == Round(n, 0, d, d, {})
    ensures IsRun(s, r) && After(s, r) == Round(n, k, d, d, {})
    ensures Count(r, Stores) == Count(es, Stores) + k && Count(r, Fails) == Count(es, Fails) + k
    ensures Count(r, Loads) == Count(es, Loads) && SameCauses(r, es)
  {
    r := es;
    if k > 0 {
      r := OthersFail(s, es, n, d, k - 1);
      r := Extend(s, r, Store(k - 1, 0, 0, false), Round(n, k, d, d, {}));
    }
  }

  lemma WinStep(n: nat, c: nat, d: nat)
    requires c < n && d == c + 1
    ensures var u, e := Round(n, 0, d, d, Below(d)), Store(c, 0, 0, true);
      Enabled(u, e) && Apply(u, e) == Round(n, 0, c, c, {})
  {
  }

  /** All of the `c + 1` threads inside load, and the last of them wins. */
  lemma LoadAndWin(s: State, es: seq<Event>, n: nat, c: nat) returns (r: seq<Event>)
    requires c < n && IsRun(s, es) && After(s, es) == Round(n, 0, 0, c + 1, {})
    ensures IsRun(s, r) && After(s, r) == Round(n, 0, c, c, {})
    ensures Accesses(r) == Accesses(es) + (c + 2) && Count(r, Fails) == Count(es, Fails) && SameCauses(r, es)
  {
    var q := AllLoad(s, es, n, c + 1, c + 1);
    WinStep(n, c, c + 1);
    r := Extend(s, q, Store(c, 0, 0, true), Round(n, 0, c, c, {}));
  }

  /** After the winner the other `c` threads fail. */
  lemma OneRound(s: State, es: seq<Event>, n: nat, c: nat) returns (r: seq<Event>)
    requires c < n && IsRun(s, es) && After(s, es) == Round(n, 0, 0, c + 1, {})
    ensures IsRun(s, r) && After(s, r) == Round(n, 0, 0, c, {})
    ensures Accesses(r) == Accesses(es) + 2 * (c + 1) && Count(r, Fails) == Count(es, Fails) + c
    ensures SameCauses(r, es)
  {
    var q := LoadAndWin(s, es, n, c);
    r := OthersFail(s, q, n, c, c);
    NextRound(n, c);
  }

  lemma NextRound(n: nat, c: nat)
    ensures Round(n, c, c, c, {}) == Round(n, 0, 0, c, {})
  {
  }

  /** Round after round, each with one thread fewer. */
  lemma {:induction false} Rounds(s: State, es: seq<Event>, n: nat, d: nat) returns (r: seq<Event>)
    requires d <= n && IsRun(s, es) && After(s, es) == Round(n, 0, 0, d, {})
    ensures IsRun(s, r)
    ensures Accesses(r) == Accesses(es) + Pairs(d)
    ensures 2 * Count(r, Fails) + 2 * d == 2 * Count(es, Fails) + Pairs(d)
    ensures SameCauses(r, es)
    decreases d
  {
    r := es;
    if d > 0 {
      r := OneRound(s, es, n, d - 1);
      r := Rounds(s, r, n, d - 1);
    }
  }

  lemma WorstRun(n: nat) returns (s: State, es: seq<Event>)
    ensures Initial(s) && |s.threads| == n && IsRun(s, es)
    ensures Count(es, Calls) == n && Count(es, Losses) == 0 && Count(es, Writes) == 0
    ensures Accesses(es) == Pairs(n) == 2 * Count(es, Fails) + 2 * n
  {
    s := Calling(n, 0);
    es := AllCall(n, n);
    assert Calling(n, n) == Round(n, 0, 0, n, {});
    es := Rounds(s, es, n, n);
  }

  lemma PairsInClosedForm(n: nat, accesses: nat, fails: nat)
    requires accesses == Pairs(n) == 2 * fails + 2 * n
    ensures accesses == n * (n + 1) && 2 * fails == n * (n - 1)
  {
    PairsIs(n);
  }

  /** For every number of threads some undisturbed run makes exactly n(n+1) accesses with n(n-1)/2 failures. */
  lemma BoundIsAttained(n: nat) returns (s: State, es: seq<Event>)
    ensures Initial(s) && |s.threads| == n && IsRun(s, es)
    ensures Count(es, Calls) == n && Count(es, Losses) == 0 && Count(es, Writes) == 0
    ensures Accesses(es) == n * (n + 1) && 2 * Count(es, Fails) == n * (n - 1)
  {
    s, es := WorstRun(n);
    PairsInClosedForm(n, Accesses(es), Count(es, Fails));
  }
}
