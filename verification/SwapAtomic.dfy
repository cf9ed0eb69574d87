/** The protocol of `__swp` implements an atomic exchange.

    The atomic machine has no monitor and no retries: a call is pending until one indivisible
    exchange finishes it.  Every run of the protocol is a run of the atomic machine with the same
    calls, returns and outside stores, and every run of the atomic machine can be produced by the
    protocol. */
module SwapAtomic {
  import opened SwapProtocol

  datatype APhase = AIdle | Pending(arg: Word) | Finished(v: Word)

  datatype AState = AState(mem: Word, threads: seq<APhase>) {
    function With(t: nat, p: APhase): AState
      requires t < |threads|
    {
      this.(threads := threads[t := p])
    }
  }

  datatype AEvent =
    | ACall(t: nat, arg: Word)
    | Exchange(t: nat, arg: Word, v: Word)
    | AReturn(t: nat, v: Word)
    | AWrite(x: Word)
  {
    predicate By(u: nat) { !AWrite? && t == u }
  }

  predicate AEnabled(s: AState, e: AEvent) {
    match e
    case ACall(t, x) => t < |s.threads| && s.threads[t].AIdle?
    case Exchange(t, x, v) => t < |s.threads| && s.threads[t] == Pending(x) && v == s.mem
    case AReturn(t, v) => t < |s.threads| && s.threads[t] == Finished(v)
    case AWrite(x) => true
  }

  function AApply(s: AState, e: AEvent): AState
    requires AEnabled(s, e)
  {
    match e
    case ACall(t, x) => s.With(t, Pending(x))
    case Exchange(t, x, v) => s.With(t, Finished(v)).(mem := x)
    case AReturn(t, v) => s.With(t, AIdle)
    case AWrite(x) => s.(mem := x)
  }

  predicate IsARun(s: AState, es: seq<AEvent>)
    decreases |es|, 0
  {
    es == [] ||
    var n := |es| - 1;
    IsARun(s, es[..n]) && AEnabled(AAfter(s, es[..n]), es[n])
  }

  function AAfter(s: AState, es: seq<AEvent>): AState
    requires IsARun(s, es)
    decreases |es|, 1
  {
    if es == [] then s else
      var n := |es| - 1;
      AApply(AAfter(s, es[..n]), es[n])
  }

  lemma ARunExtend(s: AState, es: seq<AEvent>, e: AEvent)
    requires IsARun(s, es) && AEnabled(AAfter(s, es), e)
    ensures IsARun(s, es + [e]) && AAfter(s, es + [e]) == AApply(AAfter(s, es), e)
  {
    assert (es + [e])[..|es|] == es;
  }

  // ----- abstraction

  function AbsPhase(p: Phase): APhase {
    match p
    case Idle => AIdle
    case Ready(x) => Pending(x)
    case Loaded(x, _) => Pending(x)
    case Done(v) => Finished(v)
  }

  function Abs(s: State): AState {
    AState(s.mem, seq(|s.threads|, t requires 0 <= t < |s.threads| => AbsPhase(s.threads[t])))
  }

  /** What the atomic machine sees of an event: nothing of loads, failed stores and lost reservations. */
  function AbsEvent(e: Event): seq<AEvent> {
    match e
    case Call(t, x) => [ACall(t, x)]
    case Store(t, x, v, true) => [Exchange(t, x, v)]
    case Return(t, v) => [AReturn(t, v)]
    case Write(x) => [AWrite(x)]
    case _ => []
  }

  function AbsRun(es: seq<Event>): seq<AEvent> {
    if es == [] then [] else AbsRun(es[..|es| - 1]) + AbsEvent(es[|es| - 1])
  }

  lemma StepRefines(s: State, e: Event)
    requires Inv(s) && Enabled(s, e)
    ensures AbsEvent(e) == [] ==> Abs(Apply(s, e)) == Abs(s)
    ensures AbsEvent(e) != [] ==> AEnabled(Abs(s), AbsEvent(e)[0]) && Abs(Apply(s, e)) == AApply(Abs(s), AbsEvent(e)[0])
  {
  }

  /** Every run of the protocol, under any interleaving, is a run of atomic exchanges that ends in the
      same memory value and the same thread states. */
  lemma {:induction false} RunRefines(s: State, es: seq<Event>)
    requires Inv(s) && IsRun(s, es)
    ensures IsARun(Abs(s), AbsRun(es))
    ensures AAfter(Abs(s), AbsRun(es)) == Abs(After(s, es))
    decreases |es|
  {
    if es != [] {
      var n := |es| - 1;
      var u, e := After(s, es[..n]), es[n];
      RunRefines(s, es[..n]);
      RunKeepsInv(s, es[..n]);
      StepRefines(u, e);
      if AbsEvent(e) == [] {
        assert AbsRun(es) == AbsRun(es[..n]);
      } else {
        ARunExtend(Abs(s), AbsRun(es[..n]), AbsEvent(e)[0]);
        assert AbsEvent(e) == [AbsEvent(e)[0]];
      }
    }
  }

  /** Calls, returns and outside stores, as observed from outside, in order. */
  function Visible(es: seq<Event>): seq<AEvent> {
    if es == [] then [] else
      var e := es[|es| - 1];
      Visible(es[..|es| - 1]) +
      if e.Call? then [ACall(e.t, e.arg)] else if e.Return? then [AReturn(e.t, e.v)] else if e.Write? then [AWrite(e.x)] else []
  }

  function AVisible(es: seq<AEvent>): seq<AEvent> {
    if es == [] then [] else
      var e := es[|es| - 1];
      AVisible(es[..|es| - 1]) + if e.Exchange? then [] else [e]
  }

  lemma {:induction false} SameVisible(es: seq<Event>)
    ensures AVisible(AbsRun(es)) == Visible(es)
    decreases |es|
  {
    if es != [] {
      var n := |es| - 1;
      var a, x := AbsRun(es[..n]), AbsEvent(es[n]);
      SameVisible(es[..n]);
      if x == [] {
        assert a + x == a;
      } else {
        assert (a + x)[..|a|] == a && x == [x[0]];
      }
    }
  }

  // ----- each exchange takes effect between the call and the return

  /** Thread `t` called at position `i` with argument `x` and has done nothing since. */
  ghost predicate CalledAt(es: seq<AEvent>, t: nat, x: Word, i: nat) {
    && i < |es| && es[i] == ACall(t, x)
    && forall j :: i < j < |es| ==> !es[j].By(t)
  }

  /** Thread `t` called at position `i`, its one exchange at position `k` returned `v`, and it has done
      nothing else since. */
  ghost predicate ExchangedAt(es: seq<AEvent>, t: nat, v: Word, i: nat, k: nat) {
    && i < k < |es| && es[i].ACall? && es[i].t == t && es[k] == Exchange(t, es[i].arg, v)
    && forall j :: i < j < |es| && j != k ==> !es[j].By(t)
  }

  lemma {:induction false} PendingCall(s: AState, es: seq<AEvent>, t: nat) returns (i: nat)
    requires IsARun(s, es) && t < |AAfter(s, es).threads| && AAfter(s, es).threads[t].Pending?
    requires forall u :: 0 <= u < |s.threads| ==> s.threads[u].AIdle?
    ensures CalledAt(es, t, AAfter(s, es).threads[t].arg, i)
    decreases |es|
  {
    var n := |es| - 1;
    if es[n].By(t) {
      i := n;
    } else {
      i := PendingCall(s, es[..n], t);
    }
  }

  lemma {:induction false} FinishedCall(s: AState, es: seq<AEvent>, t: nat) returns (i: nat, k: nat)
    requires IsARun(s, es) && t < |AAfter(s, es).threads| && AAfter(s, es).threads[t].Finished?
    requires forall u :: 0 <= u < |s.threads| ==> s.threads[u].AIdle?
    ensures ExchangedAt(es, t, AAfter(s, es).threads[t].v, i, k)
    decreases |es|
  {
    var n := |es| - 1;
    if es[n].By(t) {
      i := PendingCall(s, es[..n], t);
      k := n;
    } else {
      i, k := FinishedCall(s, es[..n], t);
    }
  }

  /** When a call returns, the run contains its call and, after it, exactly one exchange of that thread,
      with the call's argument and the returned value: the point where the swap takes effect. */
  lemma EffectBetweenCallAndReturn(s: AState, es: seq<AEvent>, j: nat) returns (i: nat, k: nat)
    requires IsARun(s, es) && j < |es| && es[j].AReturn?
    requires forall u :: 0 <= u < |s.threads| ==> s.threads[u].AIdle?
    ensures ExchangedAt(es[..j], es[j].t, es[j].v, i, k)
  {
    PrefixIsRun(s, es, j + 1);
    assert es[..j + 1][..j] == es[..j];
    i, k := FinishedCall(s, es[..j], es[j].t);
  }

  lemma {:induction false} PrefixIsRun(s: AState, es: seq<AEvent>, j: nat)
    requires IsARun(s, es) && j <= |es|
    ensures IsARun(s, es[..j])
    decreases |es|
  {
    if j < |es| {
      var n := |es| - 1;
      PrefixIsRun(s, es[..n], j);
      assert es[..n][..j] == es[..j];
    } else {
      assert es[..j] == es;
    }
  }

  /** The main theorem: what any run shows to the outside is what a run of indivisible exchanges shows,
      with one exchange between each call and its return. */
  lemma SwapIsAtomic(s: State, es: seq<Event>)
    requires Initial(s) && IsRun(s, es)
    ensures var r := AbsRun(es);
      && IsARun(Abs(s), r) && AAfter(Abs(s), r) == Abs(After(s, es)) && AVisible(r) == Visible(es)
      && forall j :: 0 <= j < |r| && r[j].AReturn? ==> exists i, k :: ExchangedAt(r[..j], r[j].t, r[j].v, i, k)
  {
    RunRefines(s, es);
    SameVisible(es);
    var r := AbsRun(es);
    forall j | 0 <= j < |r| && r[j].AReturn?
      ensures exists i, k :: ExchangedAt(r[..j], r[j].t, r[j].v, i, k)
    {
      var i, k := EffectBetweenCallAndReturn(Abs(s), r, j);
    }
  }

  /** The value stored last, by an exchange or from outside. */
  function LastStored(first: Word, es: seq<AEvent>): Word {
    if es == [] then first else
      match es[|es| - 1]
      case Exchange(_, x, _) => x
      case AWrite(x) => x
      case _ => LastStored(first, es[..|es| - 1])
  }

  /** Every exchange returns the value stored last before it, outside stores included. */
  lemma {:induction false} ExchangeReturnsLastStored(s: AState, es: seq<AEvent>, k: nat)
    requires IsARun(s, es) && k <= |es|
    ensures IsARun(s, es[..k]) && AAfter(s, es[..k]).mem == LastStored(s.mem, es[..k])
    ensures k < |es| && es[k].Exchange? ==> es[k].v == LastStored(s.mem, es[..k])
    decreases |es|, k
  {
    PrefixIsRun(s, es, k);
    if k > 0 {
      ExchangeReturnsLastStored(s, es, k - 1);
      assert es[..k][..k - 1] == es[..k - 1];
    }
    if k < |es| {
      PrefixIsRun(s, es, k + 1);
      assert es[..k + 1][..k] == es[..k];
    }
  }

  // ----- nothing is lost: every atomic run is a run of the protocol

  /** An exchange as an undisturbed pass through the loop. */
  function Expand(e: AEvent): seq<Event> {
    match e
    case ACall(t, x) => [Call(t, x)]
    case Exchange(t, x, v) => [Load(t, v), Store(t, x, v, true)]
    case AReturn(t, v) => [Return(t, v)]
    case AWrite(x) => [Write(x)]
  }

  function ExpandRun(es: seq<AEvent>): seq<Event> {
    if es == [] then [] else ExpandRun(es[..|es| - 1]) + Expand(es[|es| - 1])
  }

  /** States between passes: nobody is inside the loop body. */
  predicate Quiescent(s: State) {
    s.reserved == {} && forall t :: 0 <= t < |s.threads| ==> !s.threads[t].Loaded?
  }

  /** An undisturbed pass through the loop succeeds. */
  lemma UndisturbedPass(s: State, t: nat, x: Word)
    requires Quiescent(s) && t < |s.threads| && s.threads[t] == Ready(x)
    ensures
      var es := [Load(t, s.mem), Store(t, x, s.mem, true)];
      IsRun(s, es) && After(s, es) == s.With(t, Done(s.mem)).(mem := x)
  {
    var a, b := Load(t, s.mem), Store(t, x, s.mem, true);
    OneEvent(s, a);
    RunExtend(s, [a], b);
    assert [a] + [b] == [a, b];
    assert s.threads[t := Loaded(x, s.mem)][t := Done(s.mem)] == s.threads[t := Done(s.mem)];
  }

  lemma ExpandStep(s: State, e: AEvent)
    requires Quiescent(s) && AEnabled(Abs(s), e)
    ensures IsRun(s, Expand(e)) && Quiescent(After(s, Expand(e)))
    ensures Abs(After(s, Expand(e))) == AApply(Abs(s), e)
  {
    if e.Exchange? {
      UndisturbedPass(s, e.t, e.arg);
    } else {
      OneEvent(s, Expand(e)[0]);
    }
  }

  /** Every run of atomic exchanges can be produced by the protocol. */
  lemma {:induction false} AtomicRunRealized(s: State, es: seq<AEvent>)
    requires Quiescent(s) && IsARun(Abs(s), es)
    ensures IsRun(s, ExpandRun(es)) && Quiescent(After(s, ExpandRun(es)))
    ensures Abs(After(s, ExpandRun(es))) == AAfter(Abs(s), es)
    decreases |es|
  {
    if es != [] {
      var n := |es| - 1;
      AtomicRunRealized(s, es[..n]);
      var u := After(s, ExpandRun(es[..n]));
      ExpandStep(u, es[n]);
      RunAppend(s, ExpandRun(es[..n]), Expand(es[n]));
    }
  }

  lemma AbsRunExtend(es: seq<Event>, e: Event)
    ensures AbsRun(es + [e]) == AbsRun(es) + AbsEvent(e)
  {
    assert (es + [e])[..|es|] == es;
  }

  lemma AbsRunExpand(es: seq<Event>, e: AEvent)
    ensures AbsRun(es + Expand(e)) == AbsRun(es) + [e]
  {
    var x := Expand(e);
    AbsRunExtend(es, x[0]);
    if e.Exchange? {
      AbsRunExtend(es + [x[0]], x[1]);
      assert es + [x[0]] + [x[1]] == es + x;
    } else {
      assert es + [x[0]] == es + x;
    }
  }

  /** The protocol run that realizes an atomic run shows the same calls, exchanges, returns and stores. */
  lemma {:induction false} RealizedRunAbstracts(es: seq<AEvent>)
    ensures AbsRun(ExpandRun(es)) == es
    decreases |es|
  {
    if es != [] {
      var n := |es| - 1;
      var a := ExpandRun(es[..n]);
      assert AbsRun(a) == es[..n] by { RealizedRunAbstracts(es[..n]); }
      AbsRunExpand(a, es[n]);
      assert es == es[..n] + [es[n]];
    }
  }
}
