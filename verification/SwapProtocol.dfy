/** `__swp` of arm_acle.h as a protocol: any number of threads, each running the load-exclusive /
    store-exclusive loop, share one memory word and an exclusive monitor.

    A load-exclusive tags the thread.  A store-exclusive succeeds exactly when the thread is still
    tagged; every store that takes effect clears all tags.  A tag may also be lost for no reason, and
    agents outside the protocol may store to the word. */
module SwapProtocol {

  type Word = bv32

  /** Where a thread is: not in a call, at the loop head, between the two exclusive accesses (with its
      local `v`), or past the loop with `v` to return. */
  datatype Phase = Idle | Ready(arg: Word) | Loaded(arg: Word, v: Word) | Done(v: Word)

  datatype State = State(mem: Word, reserved: set<nat>, threads: seq<Phase>) {
    function With(t: nat, p: Phase): State
      requires t < |threads|
    {
      this.(threads := threads[t := p])
    }
  }

  datatype Event =
    | Call(t: nat, arg: Word)
    | Load(t: nat, v: Word)
    | Store(t: nat, arg: Word, v: Word, ok: bool)
    | Return(t: nat, v: Word)
    | Lose(t: nat)
    | Write(x: Word)
  {
    predicate By(u: nat) { (Call? || Load? || Store? || Return?) && t == u }
    predicate Wins() { Store? && ok }
    predicate Fails() { Store? && !ok }
  }

  predicate Enabled(s: State, e: Event) {
    match e
    case Call(t, x) => t < |s.threads| && s.threads[t].Idle?
    case Load(t, v) => t < |s.threads| && s.threads[t].Ready? && v == s.mem
    case Store(t, x, v, ok) => t < |s.threads| && s.threads[t] == Loaded(x, v) && ok == (t in s.reserved)
    case Return(t, v) => t < |s.threads| && s.threads[t] == Done(v)
    case Lose(t) => t in s.reserved
    case Write(x) => true
  }

  function Apply(s: State, e: Event): State
    requires Enabled(s, e)
  {
    match e
    case Call(t, x) => s.With(t, Ready(x))
    case Load(t, v) => s.With(t, Loaded(s.threads[t].arg, v)).(reserved := s.reserved + {t})
    case Store(t, x, v, ok) =>
      if ok then s.With(t, Done(v)).(mem := x, reserved := {})
      else s.With(t, Ready(x)).(reserved := s.reserved - {t})
    case Return(t, v) => s.With(t, Idle)
    case Lose(t) => s.(reserved := s.reserved - {t})
    case Write(x) => s.(mem := x, reserved := {})
  }

  /** `es` can happen one after the other from `s`. */
  predicate IsRun(s: State, es: seq<Event>)
    decreases |es|, 0
  {
    es == [] ||
    var n := |es| - 1;
    IsRun(s, es[..n]) && Enabled(After(s, es[..n]), es[n])
  }

  function After(s: State, es: seq<Event>): State
    requires IsRun(s, es)
    decreases |es|, 1
  {
    if es == [] then s else
      var n := |es| - 1;
      Apply(After(s, es[..n]), es[n])
  }

  predicate Initial(s: State) {
    s.reserved == {} && forall t :: 0 <= t < |s.threads| ==> s.threads[t].Idle?
  }

  lemma RunExtend(s: State, es: seq<Event>, e: Event)
    requires IsRun(s, es) && Enabled(After(s, es), e)
    ensures IsRun(s, es + [e]) && After(s, es + [e]) == Apply(After(s, es), e)
  {
    assert (es + [e])[..|es|] == es;
  }

  lemma {:induction false} RunAppend(s: State, a: seq<Event>, b: seq<Event>)
    requires IsRun(s, a) && IsRun(After(s, a), b)
    ensures IsRun(s, a + b) && After(s, a + b) == After(After(s, a), b)
    decreases |b|
  {
    if b == [] {
      assert a + b == a;
    } else {
      var n := |b| - 1;
      var c := a + b[..n];
      assert IsRun(s, c) && After(s, c) == After(After(s, a), b[..n]) by { RunAppend(s, a, b[..n]); }
      RunExtend(s, c, b[n]);
      assert a + b == c + [b[n]];
    }
  }

  lemma OneEvent(s: State, e: Event)
    requires Enabled(s, e)
    ensures IsRun(s, [e]) && After(s, [e]) == Apply(s, e)
  {
    RunExtend(s, [], e);
    assert [] + [e] == [e];
  }

  /** A run can be cut anywhere. */
  lemma {:induction false} RunSplit(s: State, a: seq<Event>, b: seq<Event>)
    requires IsRun(s, a + b)
    ensures IsRun(s, a) && IsRun(After(s, a), b) && After(s, a + b) == After(After(s, a), b)
    decreases |b|
  {
    var es := a + b;
    if b == [] {
      assert es == a;
    } else {
      var n := |b| - 1;
      assert es[..|es| - 1] == a + b[..n] && es[|es| - 1] == b[n];
      RunSplit(s, a, b[..n]);
    }
  }

  lemma {:induction false} RunPrefix(s: State, es: seq<Event>, j: nat)
    requires IsRun(s, es) && j <= |es|
    ensures IsRun(s, es[..j])
    decreases |es|
  {
    if j < |es| {
      var n := |es| - 1;
      RunPrefix(s, es[..n], j);
      assert es[..n][..j] == es[..j];
    } else {
      assert es[..j] == es;
    }
  }

  // ----- the invariant

  /** A thread that still holds its reservation has the current memory value in its `v`. */
  ghost predicate Inv(s: State) {
    forall t :: t in s.reserved ==> t < |s.threads| && s.threads[t].Loaded? && s.threads[t].v == s.mem
  }

  lemma StepKeepsInv(s: State, e: Event)
    requires Inv(s) && Enabled(s, e)
    ensures Inv(Apply(s, e)) && |Apply(s, e).threads| == |s.threads|
  {
    match e
    case Call(t, x) => OthersKeepInv(s, t, Apply(s, e));
    case Load(t, v) => OthersKeepInv(s, t, Apply(s, e));
    case Store(t, x, v, ok) => if !ok { OthersKeepInv(s, t, Apply(s, e)); }
    case Return(t, v) => OthersKeepInv(s, t, Apply(s, e));
    case Lose(t) =>
    case Write(x) =>
  }

  lemma OthersKeepInv(s: State, t: nat, u: State)
    requires Inv(s) && t < |s.threads| && |u.threads| == |s.threads| && u.mem == s.mem
    requires forall i :: 0 <= i < |s.threads| && i != t ==> u.threads[i] == s.threads[i]
    requires u.reserved - {t} <= s.reserved
    requires t in u.reserved ==> u.threads[t].Loaded? && u.threads[t].v == u.mem
    ensures Inv(u)
  {
    forall i | i in u.reserved
      ensures i < |u.threads| && u.threads[i].Loaded? && u.threads[i].v == u.mem
    {
      if i != t {
        assert i in s.reserved;
      }
    }
  }

  lemma {:induction false} RunKeepsInv(s: State, es: seq<Event>)
    requires Inv(s) && IsRun(s, es)
    ensures Inv(After(s, es)) && |After(s, es).threads| == |s.threads|
    decreases |es|
  {
    if es != [] {
      var n := |es| - 1;
      RunKeepsInv(s, es[..n]);
      StepKeepsInv(After(s, es[..n]), es[n]);
    }
  }

  /** A successful store replaces exactly the value that its call returns. */
  lemma WinReplacesItsValue(s: State, es: seq<Event>, k: nat)
    requires Inv(s) && IsRun(s, es) && k < |es| && es[k].Wins()
    ensures IsRun(s, es[..k]) && After(s, es[..k]).mem == es[k].v
  {
    RunPrefix(s, es, k + 1);
    assert es[..k + 1][..k] == es[..k];
    RunKeepsInv(s, es[..k]);
  }

  // ----- the chain of completed swaps

  datatype Swap = Swap(arg: Word, v: Word)

  /** The completed swaps of a run, in the order of their successful stores. */
  function Swaps(es: seq<Event>): seq<Swap> {
    if es == [] then [] else
      var n := |es| - 1;
      Swaps(es[..n]) + if es[n].Wins() then [Swap(es[n].arg, es[n].v)] else []
  }

  /** The first swap returns `first`, each later one what the one before it stored, and the last one
      stored `last`. */
  predicate Chain(first: Word, c: seq<Swap>, last: Word) {
    if c == [] then first == last else
      var n := |c| - 1;
      Chain(first, c[..n], c[n].v) && last == c[n].arg
  }

  /** Every store that takes effect, from inside or outside, with the value it replaces. */
  function Replacements(s: State, es: seq<Event>): seq<Swap>
    requires IsRun(s, es)
  {
    if es == [] then [] else
      var n := |es| - 1;
      Replacements(s, es[..n]) +
      if es[n].Wins() then [Swap(es[n].arg, es[n].v)]
      else if es[n].Write? then [Swap(es[n].x, After(s, es[..n]).mem)] else []
  }

  /** In every run the stores that take effect form one chain from the initial to the current memory
      value; a completed swap replaces exactly the value it returns. */
  lemma {:induction false} ReplacementsFormChain(s: State, es: seq<Event>)
    requires Inv(s) && IsRun(s, es)
    ensures Chain(s.mem, Replacements(s, es), After(s, es).mem)
    decreases |es|
  {
    if es != [] {
      var n := |es| - 1;
      ReplacementsFormChain(s, es[..n]);
      RunKeepsInv(s, es[..n]);
      var u, c := After(s, es[..n]), Replacements(s, es[..n]);
      if es[n].Wins() {
        ChainExtend(s.mem, c, u.mem, Swap(es[n].arg, es[n].v));
      } else if es[n].Write? {
        ChainExtend(s.mem, c, u.mem, Swap(es[n].x, u.mem));
      } else {
        assert Replacements(s, es) == c;
      }
    }
  }

  lemma ChainExtend(first: Word, c: seq<Swap>, last: Word, x: Swap)
    requires Chain(first, c, last) && x.v == last
    ensures Chain(first, c + [x], x.arg)
  {
    assert (c + [x])[..|c|] == c;
  }

  predicate OnlySwaps(es: seq<Event>) {
    forall k :: 0 <= k < |es| ==> !es[k].Write?
  }

  lemma {:induction false} OnlySwapsReplace(s: State, es: seq<Event>)
    requires IsRun(s, es) && OnlySwaps(es)
    ensures Replacements(s, es) == Swaps(es)
    decreases |es|
  {
    if es != [] {
      OnlySwapsReplace(s, es[..|es| - 1]);
    }
  }

  /** In every run the completed swaps and the outside stores form one chain; without outside stores the
      completed swaps do so themselves. */
  lemma SwapsFormChain(s: State, es: seq<Event>)
    requires Inv(s) && IsRun(s, es)
    ensures Chain(s.mem, Replacements(s, es), After(s, es).mem)
    ensures OnlySwaps(es) ==> Chain(s.mem, Swaps(es), After(s, es).mem)
  {
    ReplacementsFormChain(s, es);
    if OnlySwaps(es) {
      OnlySwapsReplace(s, es);
    }
  }

  /** What a chain is, position by position. */
  lemma {:induction false} ChainAt(first: Word, c: seq<Swap>, last: Word, i: nat)
    requires Chain(first, c, last) && i < |c|
    ensures c[i].v == if i == 0 then first else c[i - 1].arg
    ensures i == |c| - 1 ==> c[i].arg == last
    decreases |c|
  {
    var n := |c| - 1;
    if i < n {
      ChainAt(first, c[..n], c[n].v, i);
    } else if n > 0 {
      ChainAt(first, c[..n], c[n].v, n - 1);
    }
  }

  function Args(c: seq<Swap>): multiset<Word> {
    if c == [] then multiset{} else Args(c[..|c| - 1]) + multiset{c[|c| - 1].arg}
  }

  function Returned(c: seq<Swap>): multiset<Word> {
    if c == [] then multiset{} else Returned(c[..|c| - 1]) + multiset{c[|c| - 1].v}
  }

  lemma {:induction false} ChainConserves(first: Word, c: seq<Swap>, last: Word)
    requires Chain(first, c, last)
    ensures multiset{first} + Args(c) == Returned(c) + multiset{last}
    decreases |c|
  {
    if c != [] {
      var n := |c| - 1;
      ChainConserves(first, c[..n], c[n].v);
      assert multiset{first} + Args(c) == (Returned(c[..n]) + multiset{c[n].v}) + multiset{last};
    }
  }

  /** The outside stores of a run, with the values they replace. */
  function Outside(s: State, es: seq<Event>): seq<Swap>
    requires IsRun(s, es)
  {
    if es == [] then [] else
      var n := |es| - 1;
      Outside(s, es[..n]) + if es[n].Write? then [Swap(es[n].x, After(s, es[..n]).mem)] else []
  }

  lemma SwapAppend(c: seq<Swap>, x: Swap)
    ensures Args(c + [x]) == Args(c) + multiset{x.arg}
    ensures Returned(c + [x]) == Returned(c) + multiset{x.v}
  {
    assert (c + [x])[..|c|] == c;
  }

  lemma MultisetExtend(r: multiset<Word>, a: multiset<Word>, b: multiset<Word>, x: multiset<Word>)
    requires r == a + b
    ensures r + x == (a + x) + b && r + x == a + (b + x)
  {
  }

  lemma MultisetRegroup(x: multiset<Word>, r: multiset<Word>, a: multiset<Word>, b: multiset<Word>)
    requires r == a + b
    ensures x + r == x + a + b
  {
  }

  /** `r` holds the swaps of `a` and `b`. */
  ghost predicate Holds(r: seq<Swap>, a: seq<Swap>, b: seq<Swap>) {
    Args(r) == Args(a) + Args(b) && Returned(r) == Returned(a) + Returned(b)
  }

  lemma HoldsExtend(r: seq<Swap>, a: seq<Swap>, b: seq<Swap>, x: Swap)
    requires Holds(r, a, b)
    ensures Holds(r + [x], a + [x], b) && Holds(r + [x], a, b + [x])
  {
    SwapAppend(r, x);
    SwapAppend(a, x);
    SwapAppend(b, x);
    MultisetExtend(Args(r), Args(a), Args(b), multiset{x.arg});
    MultisetExtend(Returned(r), Returned(a), Returned(b), multiset{x.v});
  }

  /** Every replacement is a completed swap or an outside store. */
  lemma {:induction false} ReplacementsSplit(s: State, es: seq<Event>)
    requires IsRun(s, es)
    ensures Holds(Replacements(s, es), Swaps(es), Outside(s, es))
    decreases |es|
  {
    if es != [] {
      var n := |es| - 1;
      var r, a, b := Replacements(s, es[..n]), Swaps(es[..n]), Outside(s, es[..n]);
      ReplacementsSplit(s, es[..n]);
      if es[n].Wins() {
        HoldsExtend(r, a, b, Swap(es[n].arg, es[n].v));
        assert Outside(s, es) == b;
      } else if es[n].Write? {
        HoldsExtend(r, a, b, Swap(es[n].x, After(s, es[..n]).mem));
        assert Swaps(es) == a;
      } else {
        assert Replacements(s, es) == r && Swaps(es) == a && Outside(s, es) == b;
      }
    }
  }

  /** No value is lost or invented: the initial value, the stored arguments and the values stored from
      outside are the returned values, the values overwritten from outside and the current memory value;
      without outside stores only the values of the calls appear. */
  lemma Conservation(s: State, es: seq<Event>)
    requires Inv(s) && IsRun(s, es)
    ensures multiset{s.mem} + Args(Swaps(es)) + Args(Outside(s, es)) ==
            Returned(Swaps(es)) + Returned(Outside(s, es)) + multiset{After(s, es).mem}
    ensures OnlySwaps(es) ==>
              multiset{s.mem} + Args(Swaps(es)) == Returned(Swaps(es)) + multiset{After(s, es).mem}
  {
    var r, a, b, last := Replacements(s, es), Swaps(es), Outside(s, es), After(s, es).mem;
    SwapsFormChain(s, es);
    ReplacementsSplit(s, es);
    assert multiset{s.mem} + Args(a) + Args(b) == Returned(a) + Returned(b) + multiset{last} by {
      ChainConserves(s.mem, r, last);
      MultisetRegroup(multiset{s.mem}, Args(r), Args(a), Args(b));
    }
    if OnlySwaps(es) {
      ChainConserves(s.mem, a, last);
    }
  }
}
