/** `__swp` as the loop it is, running on a machine that other threads and agents use at the same time. */
module SwapMachine {
  import opened SwapBound
  import opened SwapProtocol

  /** `e` can happen and is not a step of thread `t`. */
  predicate Possible(s: State, t: nat, e: Event) {
    Enabled(s, e) && !e.By(t)
  }

  /** What can happen of `es`, one event after the other, without thread `t`. */
  function Interference(s: State, t: nat, es: seq<Event>): (r: seq<Event>)
    ensures forall k :: 0 <= k < |r| ==> !r[k].By(t)
    decreases |es|
  {
    if es == [] then []
    else if Possible(s, t, es[0]) then [es[0]] + Interference(Apply(s, es[0]), t, es[1..])
    else Interference(s, t, es[1..])
  }

  /** What happens is a run. */
  lemma {:induction false} InterferenceIsRun(s: State, t: nat, es: seq<Event>)
    ensures IsRun(s, Interference(s, t, es))
    decreases |es|
  {
    if es != [] {
      if Possible(s, t, es[0]) {
        var u := Apply(s, es[0]);
        InterferenceIsRun(u, t, es[1..]);
        OneEvent(s, es[0]);
        RunAppend(s, [es[0]], Interference(u, t, es[1..]));
      } else {
        InterferenceIsRun(s, t, es[1..]);
      }
    }
  }

  /** One more given event happens exactly when it is enabled after what has happened before it and is not
      a step of thread `t`. */
  lemma {:induction false} InterferenceExtend(s: State, t: nat, es: seq<Event>, e: Event)
    ensures IsRun(s, Interference(s, t, es))
    ensures Interference(s, t, es + [e]) == Interference(s, t, es) +
              if Enabled(After(s, Interference(s, t, es)), e) && !e.By(t) then [e] else []
    decreases |es|
  {
    InterferenceIsRun(s, t, es);
    var r := es + [e];
    if es == [] {
      assert r[1..] == [];
    } else {
      assert r[0] == es[0] && r[1..] == es[1..] + [e];
      if Possible(s, t, es[0]) {
        var u := Apply(s, es[0]);
        InterferenceExtend(u, t, es[1..], e);
        OneEvent(s, es[0]);
        RunAppend(s, [es[0]], Interference(u, t, es[1..]));
      } else {
        InterferenceExtend(s, t, es[1..], e);
      }
    }
  }

  /** A run of others happens as given. */
  lemma {:induction false} InterferenceOfRun(s: State, t: nat, es: seq<Event>)
    requires IsRun(s, es) && forall k :: 0 <= k < |es| ==> !es[k].By(t)
    ensures Interference(s, t, es) == es
    decreases |es|
  {
    if es != [] {
      var n := |es| - 1;
      InterferenceOfRun(s, t, es[..n]);
      InterferenceExtend(s, t, es[..n], es[n]);
      assert es == es[..n] + [es[n]];
    }
  }

  lemma InterferenceStep(s: State, t: nat, es: seq<Event>, i: nat, done: seq<Event>)
    requires i < |es|
    ensures done + Interference(s, t, es[i..]) ==
            if Possible(s, t, es[i]) then done + [es[i]] + Interference(Apply(s, es[i]), t, es[i + 1..])
            else done + Interference(s, t, es[i + 1..])
  {
    assert es[i..][1..] == es[i + 1..];
  }

  lemma StepLeavesOthers(s: State, e: Event, t: nat)
    requires Enabled(s, e) && t < |s.threads| && !e.By(t)
    ensures |Apply(s, e).threads| == |s.threads| && Apply(s, e).threads[t] == s.threads[t]
  {
  }

  ghost predicate NoWinOf(t: nat, es: seq<Event>, start: nat, end: int) {
    forall k :: start <= k < end && k < |es| ==> !(es[k].By(t) && es[k].Wins())
  }

  // ----- a history that is driven by given interference

  /** Where the interference before access number `k` begins, when the accesses so far are at `at`. */
  function From(start: nat, at: seq<nat>, k: nat): nat
    requires k <= |at|
  {
    if k == 0 then start else at[k - 1] + 1
  }

  /** From position `i` to `j` the history is what can happen of `given`, and at `j` is access number `k` of
      thread `t`: a load-exclusive when `k` is even, a store-exclusive when it is odd. */
  ghost predicate IsAccess(s: State, es: seq<Event>, t: nat, given: seq<Event>, i: nat, j: nat, k: nat) {
    && i <= j < |es| && es[j].By(t) && (if k % 2 == 0 then es[j].Load? else es[j].Store?)
    && IsRun(s, es[..i]) && es[i..j] == Interference(After(s, es[..i]), t, given)
  }

  /** Access number `k` is where `at` says, after what can happen of `others(k)`. */
  ghost predicate AccessAt(s: State, es: seq<Event>, t: nat, others: nat -> seq<Event>, start: nat, at: seq<nat>, k: nat)
    requires k < |at|
  {
    IsAccess(s, es, t, others(k), From(start, at, k), at[k], k)
  }

  /** From `start` on the accesses of thread `t` are at the positions `at`, and between them happens what can
      happen of `others`, and nothing else. */
  ghost predicate Driven(s: State, es: seq<Event>, t: nat, others: nat -> seq<Event>, start: nat, at: seq<nat>) {
    forall k: nat :: k < |at| ==> AccessAt(s, es, t, others, start, at, k)
  }

  lemma AccessExtend(s: State, es: seq<Event>, r: seq<Event>, t: nat, given: seq<Event>, i: nat, j: nat, k: nat)
    requires IsAccess(s, es, t, given, i, j, k) && es <= r
    ensures IsAccess(s, r, t, given, i, j, k)
  {
    assert r[..i] == es[..i] && r[i..j] == es[i..j];
  }

  lemma DrivenExtend(s: State, es: seq<Event>, r: seq<Event>, t: nat, others: nat -> seq<Event>, start: nat, at: seq<nat>)
    requires Driven(s, es, t, others, start, at) && es <= r
    ensures Driven(s, r, t, others, start, at)
  {
    forall k: nat | k < |at| ensures AccessAt(s, r, t, others, start, at, k) {
      assert AccessAt(s, es, t, others, start, at, k);
      AccessExtend(s, es, r, t, others(k), From(start, at, k), at[k], k);
    }
  }

  lemma NewAccess(s: State, es: seq<Event>, t: nat, given: seq<Event>, a: seq<Event>, e: Event, k: nat)
    requires IsRun(s, es) && a == Interference(After(s, es), t, given)
    requires e.By(t) && if k % 2 == 0 then e.Load? else e.Store?
    ensures IsAccess(s, es + a + [e], t, given, |es|, |es| + |a|, k)
  {
    var r := es + a + [e];
    assert r[..|es|] == es && r[|es|..|es| + |a|] == a;
  }

  /** One more access, after the interference `a`. */
  lemma DrivenStep(s: State, es: seq<Event>, t: nat, others: nat -> seq<Event>, start: nat, at: seq<nat>,
                   a: seq<Event>, e: Event)
    requires Driven(s, es, t, others, start, at) && From(start, at, |at|) == |es| && IsRun(s, es)
    requires a == Interference(After(s, es), t, others(|at|))
    requires e.By(t) && if |at| % 2 == 0 then e.Load? else e.Store?
    ensures Driven(s, es + a + [e], t, others, start, at + [|es| + |a|])
  {
    var r, next := es + a + [e], at + [|es| + |a|];
    DrivenExtend(s, es, r, t, others, start, at);
    NewAccess(s, es, t, others(|at|), a, e, |at|);
    forall k: nat | k < |next| ensures AccessAt(s, r, t, others, start, next, k) {
      if k < |at| {
        assert AccessAt(s, r, t, others, start, at, k);
      }
    }
  }

  /** The accesses of one more pass, with the interference `a` and `b`. */
  lemma DrivenPass(s: State, es: seq<Event>, t: nat, others: nat -> seq<Event>, start: nat, at: seq<nat>,
                   passes: nat, a: seq<Event>, b: seq<Event>, x: Word, v: Word, ok: bool) returns (next: seq<nat>)
    requires Driven(s, es, t, others, start, at) && From(start, at, |at|) == |es| && |at| == 2 * passes
    requires IsRun(s, es) && a == Interference(After(s, es), t, others(2 * passes))
    requires var l := es + a + [Load(t, v)]; IsRun(s, l) && b == Interference(After(s, l), t, others(2 * passes + 1))
    ensures
      var r := es + a + [Load(t, v)] + b + [Store(t, x, v, ok)];
      |next| == 2 * (passes + 1) && Driven(s, r, t, others, start, next) && From(start, next, |next|) == |r|
  {
    var l, one := es + a + [Load(t, v)], at + [|es| + |a|];
    DrivenStep(s, es, t, others, start, at, a, Load(t, v));
    DrivenStep(s, l, t, others, start, one, b, Store(t, x, v, ok));
    next := one + [|l| + |b|];
  }

  /** The history of a call that nothing disturbs. */
  function Undisturbed(t: nat, x: Word, v: Word): seq<Event> {
    [Call(t, x), Load(t, v), Store(t, x, v, true), Return(t, v)]
  }

  /** A store follows its load at once: they have the same value. */
  lemma LoadBeforeStore(s: State, es: seq<Event>, n: nat, t: nat, v: Word)
    requires IsRun(s, es) && |es| == n + 2 && es[n].Load? && es[n].t == t
    requires es[n + 1].Store? && es[n + 1].t == t && es[n + 1].v == v
    ensures es[n] == Load(t, v)
  {
    assert es[..n + 1][..n] == es[..n];
  }

  /** Two accesses with nothing before them. */
  lemma UndisturbedHistory(s: State, entered: seq<Event>, es: seq<Event>, t: nat, others: nat -> seq<Event>,
                           at: seq<nat>, x: Word, v: Word)
    requires entered <= es && IsRun(s, es) && Driven(s, es, t, others, |entered|, at) && |at| == 2
    requires From(|entered|, at, 2) == |es| && others(0) == [] && others(1) == []
    requires es[|es| - 1] == Store(t, x, v, true)
    ensures es == entered + [Load(t, v), Store(t, x, v, true)]
  {
    var n := |entered|;
    assert AccessAt(s, es, t, others, n, at, 0) && AccessAt(s, es, t, others, n, at, 1);
    assert |es[n..at[0]]| == 0 && |es[at[0] + 1..at[1]]| == 0;
    LoadBeforeStore(s, es, n, t, v);
  }

  /** The only win of thread `t` in a pass is the last event, if that is one. */
  lemma OneWinInPass(t: nat, es: seq<Event>, a: seq<Event>, b: seq<Event>, x: Word, v: Word, ok: bool, start: nat)
    requires NoWinOf(t, es, start, |es|)
    requires (forall k :: 0 <= k < |a| ==> !a[k].By(t)) && (forall k :: 0 <= k < |b| ==> !b[k].By(t))
    ensures
      var r := es + a + [Load(t, v)] + b + [Store(t, x, v, ok)];
      NoWinOf(t, r, start, |r| - if ok then 1 else 0) && r[|r| - 1] == Store(t, x, v, ok) && es < r
  {
  }

  /** From position `start` on, the only win of thread `t` is event `at`, which replaces `v` by `x`. */
  ghost predicate OneExchange(s: State, es: seq<Event>, t: nat, x: Word, v: Word, start: nat, at: int) {
    && start < at < |es| && es[at] == Store(t, x, v, true)
    && IsRun(s, es[..at]) && After(s, es[..at]).mem == v
    && NoWinOf(t, es, start, at) && NoWinOf(t, es, at + 1, |es|)
  }

  lemma ReturnAfterWin(s: State, es: seq<Event>, t: nat, x: Word, v: Word, start: nat)
    requires Inv(s) && IsRun(s, es) && start < |es| - 1 && es[|es| - 1] == Store(t, x, v, true)
    requires NoWinOf(t, es, start, |es| - 1)
    ensures OneExchange(s, es + [Return(t, v)], t, x, v, start, |es| - 1)
  {
    var at, r := |es| - 1, es + [Return(t, v)];
    WinReplacesItsValue(s, es, at);
    assert r[..at] == es[..at];
  }

  /** Events of others do not add to the failures of thread `t`. */
  lemma {:induction false} OthersDoNotFail(t: nat, es: seq<Event>, a: seq<Event>)
    requires forall k :: 0 <= k < |a| ==> !a[k].By(t)
    ensures OwnFails(es + a, t) == OwnFails(es, t)
    decreases |a|
  {
    if a == [] {
      assert es + a == es;
    } else {
      var n := |a| - 1;
      OthersDoNotFail(t, es, a[..n]);
      OwnFailsExtend(es + a[..n], a[n], t);
      assert es + a == es + a[..n] + [a[n]];
    }
  }

  /** A pass that fails counts once. */
  lemma FailsInPass(t: nat, es: seq<Event>, a: seq<Event>, b: seq<Event>, x: Word, v: Word)
    requires (forall k :: 0 <= k < |a| ==> !a[k].By(t)) && (forall k :: 0 <= k < |b| ==> !b[k].By(t))
    ensures OwnFails(es + a + [Load(t, v)] + b + [Store(t, x, v, false)], t) == OwnFails(es, t) + 1
  {
    OthersDoNotFail(t, es, a);
    OwnFailsExtend(es + a, Load(t, v), t);
    OthersDoNotFail(t, es + a + [Load(t, v)], b);
    OwnFailsExtend(es + a + [Load(t, v)] + b, Store(t, x, v, false), t);
  }

  // ----- the passes of one call

  /** Since the history `entered` thread `t` has made `passes` passes with argument `x`.  All of them failed,
      or only the last one succeeded and returned `v`. */
  ghost predicate Outcome(entered: seq<Event>, es: seq<Event>, t: nat, x: Word, v: Word,
                          others: nat -> seq<Event>, passes: nat, done: bool) {
    && entered <= es && NoWinOf(t, es, |entered|, |es| - if done then 1 else 0)
    && if done then
         |entered| < |es| && es[|es| - 1] == Store(t, x, v, true)
       else
         OwnFails(es, t) == OwnFails(entered, t) + passes && forall k :: 0 <= k < passes ==> others(2 * k + 1) != []
  }

  /** The same, and the accesses of these passes are at `steps`, driven by the interference `others`. */
  ghost predicate Tried(s: State, entered: seq<Event>, es: seq<Event>, t: nat, x: Word, v: Word,
                        others: nat -> seq<Event>, steps: seq<nat>, passes: nat, done: bool) {
    && Outcome(entered, es, t, x, v, others, passes, done)
    && |steps| == 2 * passes && Driven(s, es, t, others, |entered|, steps) && From(|entered|, steps, |steps|) == |es|
  }

  lemma OwnPassesStart(s: State, es: seq<Event>, t: nat, x: Word, v: Word, others: nat -> seq<Event>)
    ensures Tried(s, es, es, t, x, v, others, [], 0, false)
  {
  }

  lemma OutcomePass(entered: seq<Event>, es: seq<Event>, t: nat, x: Word, earlier: Word, others: nat -> seq<Event>,
                    passes: nat, a: seq<Event>, b: seq<Event>, v: Word, ok: bool)
    requires Outcome(entered, es, t, x, earlier, others, passes, false)
    requires (forall k :: 0 <= k < |a| ==> !a[k].By(t)) && (forall k :: 0 <= k < |b| ==> !b[k].By(t))
    requires others(2 * passes + 1) == [] ==> ok
    ensures Outcome(entered, es + a + [Load(t, v)] + b + [Store(t, x, v, ok)], t, x, v, others, passes + 1, ok)
  {
    OneWinInPass(t, es, a, b, x, v, ok, |entered|);
    FailsInPass(t, es, a, b, x, v);
  }

  lemma TriedPass(s: State, entered: seq<Event>, es: seq<Event>, t: nat, x: Word, earlier: Word,
                  others: nat -> seq<Event>, steps: seq<nat>, passes: nat,
                  a: seq<Event>, b: seq<Event>, v: Word, ok: bool) returns (next: seq<nat>)
    requires Tried(s, entered, es, t, x, earlier, others, steps, passes, false)
    requires IsRun(s, es) && a == Interference(After(s, es), t, others(2 * passes))
    requires
      var l := es + a + [Load(t, v)];
      IsRun(s, l) && b == Interference(After(s, l), t, others(2 * passes + 1))
    requires others(2 * passes + 1) == [] ==> ok
    ensures Tried(s, entered, es + a + [Load(t, v)] + b + [Store(t, x, v, ok)], t, x, v, others, next, passes + 1, ok)
  {
    OutcomePass(entered, es, t, x, earlier, others, passes, a, b, v, ok);
    next := DrivenPass(s, es, t, others, |entered|, steps, passes, a, b, x, v, ok);
  }

  /** Thread `t` called after the history `es`, was disturbed by `others` as given, and has returned `v`; the
      one effect of the call is event `at`. */
  ghost predicate HasReturned(s: State, es: seq<Event>, q: seq<Event>, t: nat, x: Word, v: Word,
                              others: nat -> seq<Event>, steps: seq<nat>, at: int) {
    && es + [Call(t, x)] <= q && q[|q| - 1] == Return(t, v)
    && OneExchange(s, q, t, x, v, |es|, at)
    && Driven(s, q, t, others, |es| + 1, steps) && From(|es| + 1, steps, |steps|) == |q| - 1
  }

  /** Thread `t` called after the history `es`, was disturbed by `others` as given, and has failed `n` times
      without any effect; it has been disturbed at least as often, and between the accesses of each pass. */
  ghost predicate GoesOn(s: State, es: seq<Event>, r: seq<Event>, t: nat, x: Word,
                         others: nat -> seq<Event>, steps: seq<nat>, n: nat) {
    && es + [Call(t, x)] <= r && NoWinOf(t, r, |es|, |r|)
    && Driven(s, r, t, others, |es| + 1, steps) && From(|es| + 1, steps, |steps|) == |r| && |steps| == 2 * n
    && n == OwnFails(r, t) <= Disturbances(r, t)
    && forall k :: 0 <= k < n ==> others(2 * k + 1) != []
  }

  lemma CallReturns(s: State, es: seq<Event>, r: seq<Event>, t: nat, x: Word, v: Word,
                    others: nat -> seq<Event>, steps: seq<nat>, passes: nat)
    requires Inv(s) && IsRun(s, r) && Tried(s, es + [Call(t, x)], r, t, x, v, others, steps, passes, true)
    ensures HasReturned(s, es, r + [Return(t, v)], t, x, v, others, steps, |r| - 1)
  {
    var entered, q := es + [Call(t, x)], r + [Return(t, v)];
    assert entered[|es|] == Call(t, x);
    ReturnAfterWin(s, r, t, x, v, |es|);
    DrivenExtend(s, r, q, t, others, |entered|, steps);
  }

  lemma UndisturbedCall(s: State, es: seq<Event>, r: seq<Event>, t: nat, x: Word, v: Word,
                        others: nat -> seq<Event>, steps: seq<nat>)
    requires IsRun(s, r) && Tried(s, es + [Call(t, x)], r, t, x, v, others, steps, 1, true)
    requires others(0) == [] && others(1) == []
    ensures r + [Return(t, v)] == es + Undisturbed(t, x, v)
  {
    UndisturbedHistory(s, es + [Call(t, x)], r, t, others, steps, x, v);
  }

  lemma CallGoesOn(s: State, es: seq<Event>, r: seq<Event>, t: nat, x: Word, v: Word,
                   others: nat -> seq<Event>, steps: seq<nat>, n: nat)
    requires Initial(s) && IsRun(s, r) && Tried(s, es + [Call(t, x)], r, t, x, v, others, steps, n, false)
    requires t in Inside(After(s, r))
    ensures GoesOn(s, es, r, t, x, others, steps, n)
  {
    assert (es + [Call(t, x)])[|es|] == Call(t, x);
    OwnFailsExtend(es, Call(t, x), t);
    OwnFailsAreCaused(s, r, t);
  }

  class Machine {
    var mem: Word
    var reserved: set<nat>
    var threads: seq<Phase>

    /** Where the machine started and everything that has happened since. */
    ghost var first: State
    ghost var trace: seq<Event>

    function Now(): State
      reads this
    {
      State(mem, reserved, threads)
    }

    /** The machine is where its history has led it. */
    ghost predicate Valid()
      reads this
    {
      Initial(first) && IsRun(first, trace) && After(first, trace) == Now() && Inv(Now())
    }

    constructor (n: nat, x: Word)
      ensures Valid() && mem == x && |threads| == n && trace == [] && first == Now()
    {
      mem := x;
      reserved := {};
      threads := seq(n, _ => Idle);
      first := State(x, {}, seq(n, _ => Idle));
      trace := [];
    }

    ghost method Record(e: Event, before: State)
      requires Initial(first) && IsRun(first, trace) && After(first, trace) == before && Inv(before)
      requires Enabled(before, e) && Apply(before, e) == Now()
      modifies this`trace
      ensures Valid() && trace == old(trace) + [e]
    {
      RunExtend(first, trace, e);
      StepKeepsInv(before, e);
      trace := trace + [e];
    }

    method Enter(t: nat, x: Word)
      requires Valid() && t < |threads| && threads[t].Idle?
      modifies this
      ensures Valid() && first == old(first) && trace == old(trace) + [Call(t, x)]
      ensures Now() == old(Now()).With(t, Ready(x))
    {
      ghost var before := Now();
      threads := threads[t := Ready(x)];
      Record(Call(t, x), before);
    }

    method Leave(t: nat, v: Word)
      requires Valid() && t < |threads| && threads[t] == Done(v)
      modifies this
      ensures Valid() && first == old(first) && trace == old(trace) + [Return(t, v)]
      ensures Now() == old(Now()).With(t, Idle)
    {
      ghost var before := Now();
      threads := threads[t := Idle];
      Record(Return(t, v), before);
    }

    /** Load-exclusive: the value of the word, and a reservation. */
    method LoadExclusive(t: nat) returns (v: Word)
      requires Valid() && t < |threads| && threads[t].Ready?
      modifies this
      ensures v == mem == old(mem) && reserved == old(reserved) + {t}
      ensures threads == old(threads)[t := Loaded(old(threads)[t].arg, v)]
      ensures Valid() && first == old(first) && trace == old(trace) + [Load(t, v)]
    {
      ghost var before := Now();
      v := mem;
      threads := threads[t := Loaded(threads[t].arg, v)];
      reserved := reserved + {t};
      Record(Load(t, v), before);
    }

    /** Store-exclusive: 0 and the word is written when the reservation still stands, 1 and no effect on the
        word otherwise. */
    method StoreExclusive(t: nat, x: Word) returns (status: nat)
      requires Valid() && t < |threads| && threads[t].Loaded? && threads[t].arg == x
      modifies this
      ensures status == if t in old(reserved) then 0 else 1
      ensures mem == if status == 0 then x else old(mem)
      ensures reserved == if status == 0 then {} else old(reserved)
      ensures threads == old(threads)[t := if status == 0 then Done(old(threads)[t].v) else Ready(x)]
      ensures status == 0 ==> old(threads)[t].v == old(mem)
      ensures Valid() && first == old(first) && trace == old(trace) + [Store(t, x, old(threads)[t].v, status == 0)]
    {
      ghost var before := Now();
      ghost var v := threads[t].v;
      if t in reserved {
        status := 0;
        mem := x;
        reserved := {};
        threads := threads[t := Done(threads[t].v)];
      } else {
        status := 1;
        threads := threads[t := Ready(x)];
      }
      Record(Store(t, x, v, status == 0), before);
    }

    /** Another thread or agent does `e` if that is possible; thread `t` can lose its reservation but makes
        no step of its own. */
    method Other(t: nat, e: Event)
      requires Valid() && t < |threads|
      modifies this
      ensures Valid() && first == old(first) && |threads| == old(|threads|) && threads[t] == old(threads)[t]
      ensures if Possible(old(Now()), t, e) then Now() == Apply(old(Now()), e) && trace == old(trace) + [e]
              else Now() == old(Now()) && trace == old(trace)
    {
      var before := Now();
      if Possible(before, t, e) {
        var after := Apply(before, e);
        StepLeavesOthers(before, e, t);
        mem, reserved, threads := after.mem, after.reserved, after.threads;
        Record(e, before);
      }
    }

    /** What of `es` is possible happens, in that order. */
    method Others(t: nat, es: seq<Event>)
      requires Valid() && t < |threads|
      modifies this
      ensures Valid() && first == old(first) && |threads| == old(|threads|) && threads[t] == old(threads)[t]
      ensures trace == old(trace) + Interference(old(Now()), t, es)
      ensures es == [] ==> Now() == old(Now())
    {
      ghost var goal := trace + Interference(Now(), t, es);
      var i := 0;
      assert es[0..] == es;
      while i < |es|
        invariant 0 <= i <= |es|
        invariant Valid() && first == old(first) && |threads| == old(|threads|) && threads[t] == old(threads)[t]
        invariant trace + Interference(Now(), t, es[i..]) == goal
        invariant i == 0 ==> Now() == old(Now())
      {
        InterferenceStep(Now(), t, es, i, trace);
        Other(t, es[i]);
        i := i + 1;
      }
    }

    /** One pass through the loop body, with what happens elsewhere before each of its two accesses. */
    method Pass(t: nat, x: Word, before: seq<Event>, between: seq<Event>)
        returns (v: Word, status: nat, ghost a: seq<Event>, ghost loaded: State, ghost b: seq<Event>)
      requires Valid() && t < |threads| && threads[t] == Ready(x)
      modifies this
      ensures Valid() && first == old(first) && |threads| == old(|threads|)
      ensures status <= 1 && threads[t] == if status == 0 then Done(v) else Ready(x)
      ensures trace == old(trace) + a + [Load(t, v)] + b + [Store(t, x, v, status == 0)]
      ensures a == Interference(old(Now()), t, before) && b == Interference(loaded, t, between)
      ensures IsRun(first, old(trace) + a + [Load(t, v)]) && After(first, old(trace) + a + [Load(t, v)]) == loaded
      ensures before == [] ==> v == old(mem)
      ensures between == [] ==> status == 0 && mem == x
    {
      a := Interference(Now(), t, before);
      Others(t, before);
      v := LoadExclusive(t);
      loaded := Now();
      b := Interference(loaded, t, between);
      Others(t, between);
      status := StoreExclusive(t, x);
    }

    /** The retry loop, followed for up to `n` passes.  `others(k)` is what happens elsewhere before its
        exclusive access number `k`; it need not ever stop.  `done` says that the loop has ended, `passes` how
        many passes it made and `steps` where their accesses are. */
    method Retry(t: nat, x: Word, others: nat -> seq<Event>, n: nat)
        returns (v: Word, done: bool, ghost passes: nat, ghost steps: seq<nat>)
      requires Valid() && t < |threads| && threads[t] == Ready(x)
      modifies this
      ensures Valid() && first == old(first) && |threads| == old(|threads|)
      ensures threads[t] == if done then Done(v) else Ready(x)
      ensures Tried(first, old(trace), trace, t, x, v, others, steps, passes, done)
      ensures if done then passes <= n else passes == n
      ensures n >= 1 && others(0) == [] && others(1) == [] ==> done && v == old(mem) && mem == x && passes == 1
    {
      ghost var entered, word := trace, mem;
      var i, status := 0, 1;
      v, steps := 0, [];
      OwnPassesStart(first, trace, t, x, v, others);
      while status != 0 && i < n
        invariant Valid() && first == old(first) && |threads| == old(|threads|) && status <= 1 && i <= n
        invariant threads[t] == if status == 0 then Done(v) else Ready(x)
        invariant Tried(first, entered, trace, t, x, v, others, steps, i, status == 0)
        invariant i == 0 ==> mem == word
        invariant others(0) == [] && others(1) == [] && i >= 1 ==> i == 1 && status == 0 && v == word && mem == x
      {
        ghost var before, a, loaded, b := trace, [], Now(), [];
        ghost var earlier := v;
        v, status, a, loaded, b := Pass(t, x, others(2 * i), others(2 * i + 1));
        steps := TriedPass(first, entered, before, t, x, earlier, others, steps, i, a, b, v, status == 0);
        i := i + 1;
      }
      done, passes := status == 0, i;
    }

    /** `__swp(x, p)` in thread `t`, followed for up to `n` passes under the interference `others`.  When it
        returns, it has had one effect, at position `at` of the history: there, and nowhere else by this
        call, the word changed from the returned value to `x`.  When it has not returned, it has been
        disturbed at least `n` times. */
    method Swp(t: nat, x: Word, others: nat -> seq<Event>, n: nat)
        returns (v: Word, done: bool, ghost at: nat, ghost steps: seq<nat>)
      requires Valid() && t < |threads| && threads[t].Idle?
      modifies this
      ensures Valid() && first == old(first) && |threads| == old(|threads|)
      ensures threads[t] == if done then Idle else Ready(x)
      ensures done ==> HasReturned(first, old(trace), trace, t, x, v, others, steps, at)
      ensures !done ==> GoesOn(first, old(trace), trace, t, x, others, steps, n)
      ensures n >= 1 && others(0) == [] && others(1) == [] ==>
                done && v == old(mem) && mem == x && trace == old(trace) + Undisturbed(t, x, v)
    {
      Enter(t, x);
      ghost var passes;
      v, done, passes, steps := Retry(t, x, others, n);
      at := |trace| - 1;
      if done {
        CallReturns(first, old(trace), trace, t, x, v, others, steps, passes);
        if others(0) == [] && others(1) == [] {
          UndisturbedCall(first, old(trace), trace, t, x, v, others, steps);
        }
        Leave(t, v);
      } else {
        CallGoesOn(first, old(trace), trace, t, x, v, others, steps, n);
      }
    }
  }
}
