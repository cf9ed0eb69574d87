/** Left folds of an associative and commutative operator, and the combining networks that compute
    them in a logarithmic number of vector steps. */
module Folds {
  import opened Words

  type Op = (int, int) -> int

  /** A mark that names the operands of one use of a law; it stops the verifier from rearranging
      every expression in sight. */
  ghost predicate At(x: int, y: int, z: int) { true }

  ghost predicate AC(op: Op) {
    && (forall x, y, z {:trigger At(x, y, z)} :: At(x, y, z) ==> op(x, y) == op(y, x))
    && (forall x, y, z {:trigger At(x, y, z)} :: At(x, y, z) ==> op(op(x, y), z) == op(x, op(y, z)))
  }

  lemma Commute(op: Op, x: int, y: int)
    requires AC(op)
    ensures op(x, y) == op(y, x)
  {
    assert At(x, y, 0);
  }

  lemma Associate(op: Op, x: int, y: int, z: int)
    requires AC(op)
    ensures op(op(x, y), z) == op(x, op(y, z))
  {
    assert At(x, y, z);
  }

  lemma Exchange(op: Op, a: int, b: int, c: int, d: int)
    requires AC(op)
    ensures op(op(a, b), op(c, d)) == op(op(a, c), op(b, d))
  {
    Associate(op, a, b, op(c, d));
    Associate(op, b, c, d);
    Commute(op, b, c);
    Associate(op, c, b, d);
    Associate(op, a, c, op(b, d));
  }

  /** `v[0] op v[1] op ...`, from the left. */
  function Fold(op: Op, v: seq<int>): int
    requires v != []
  {
    if |v| == 1 then v[0] else op(Fold(op, v[..|v| - 1]), v[|v| - 1])
  }

  /** `e op s[0] op s[1] op ...`, from the left; `e` when there are no lanes. */
  function FoldFrom(op: Op, e: int, s: seq<int>): int {
    if s == [] then e else op(FoldFrom(op, e, s[..|s| - 1]), s[|s| - 1])
  }

  /** The operator applied lane by lane. */
  function Zip(op: Op, x: seq<int>, y: seq<int>): (r: seq<int>)
    requires |x| == |y|
    ensures |r| == |x|
  {
    seq(|x|, i requires 0 <= i < |x| => op(x[i], y[i]))
  }

  lemma FoldLast(op: Op, v: seq<int>, x: int)
    requires v != []
    ensures Fold(op, v + [x]) == op(Fold(op, v), x)
  {
    assert (v + [x])[..|v|] == v;
  }

  lemma {:induction false} FoldAppend(op: Op, v: seq<int>, u: seq<int>)
    requires AC(op) && v != [] && u != []
    ensures Fold(op, v + u) == op(Fold(op, v), Fold(op, u))
    decreases |u|
  {
    var n := |u| - 1;
    assert v + u == (v + u[..n]) + [u[n]];
    FoldLast(op, v + u[..n], u[n]);
    if n == 0 {
      assert v + u[..n] == v;
    } else {
      FoldAppend(op, v, u[..n]);
      Associate(op, Fold(op, v), Fold(op, u[..n]), u[n]);
    }
  }

  /** Folding lane-wise combined vectors combines their folds. */
  lemma {:induction false} FoldZip(op: Op, x: seq<int>, y: seq<int>)
    requires AC(op) && |x| == |y| > 0
    ensures Fold(op, Zip(op, x, y)) == op(Fold(op, x), Fold(op, y))
    decreases |x|
  {
    var n := |x| - 1;
    if n > 0 {
      FoldZip(op, x[..n], y[..n]);
      assert Zip(op, x, y)[..n] == Zip(op, x[..n], y[..n]);
      Exchange(op, Fold(op, x[..n]), Fold(op, y[..n]), x[n], y[n]);
    }
  }

  /** The lane at any position may be folded last. */
  lemma FoldExtract(op: Op, v: seq<int>, j: nat)
    requires AC(op) && |v| > 1 && j < |v|
    ensures Fold(op, v) == op(Fold(op, v[..j] + v[j + 1..]), v[j])
  {
    var u, t, x := v[..j], v[j + 1..], v[j];
    assert v == u + [x] + t;
    if t == [] {
      assert u + t == u && u + [x] + t == u + [x];
      FoldLast(op, u, x);
    } else {
      FoldAppend(op, u + [x], t);
      if u == [] {
        assert u + [x] == [x] && u + t == t;
        Commute(op, x, Fold(op, t));
      } else {
        FoldLast(op, u, x);
        FoldAppend(op, u, t);
        MoveLast(op, Fold(op, u), x, Fold(op, t));
      }
    }
  }

  lemma MoveLast(op: Op, a: int, x: int, b: int)
    requires AC(op)
    ensures op(op(a, x), b) == op(op(a, b), x)
  {
    Associate(op, a, x, b);
    Commute(op, x, b);
    Associate(op, a, b, x);
  }

  /** The order of the lanes does not matter. */
  lemma {:induction false} FoldPermute(op: Op, v: seq<int>, u: seq<int>)
    requires AC(op) && v != [] && multiset(v) == multiset(u)
    ensures u != [] && Fold(op, v) == Fold(op, u)
    decreases |v|
  {
    var n := |v| - 1;
    var j := SameLane(v, u, n);
    var t := u[..j] + u[j + 1..];
    if n > 0 {
      FoldPermute(op, v[..n], t);
      FoldExtract(op, u, j);
    } else {
      assert |multiset(t)| == 0;
    }
  }

  /** The last lane of `v` is some lane of `u`, and the others are the same lanes. */
  lemma SameLane(v: seq<int>, u: seq<int>, n: nat) returns (j: nat)
    requires |v| == n + 1 && multiset(v) == multiset(u)
    ensures j < |u| == |v| && u[j] == v[n]
    ensures multiset(u[..j] + u[j + 1..]) == multiset(v[..n])
  {
    assert |multiset(v)| == |v| && |multiset(u)| == |u|;
    assert v[n] in multiset(v) && v[n] in multiset(u);
    j :| 0 <= j < |u| && u[j] == v[n];
    RemoveLane(u, j);
    RemoveLane(v, n);
    assert v[..n] + v[n + 1..] == v[..n];
  }

  lemma RemoveLane(u: seq<int>, j: nat)
    requires j < |u|
    ensures multiset(u[..j] + u[j + 1..]) == multiset(u) - multiset{u[j]}
  {
    assert u == u[..j] + [u[j]] + u[j + 1..];
  }

  lemma {:induction false} FoldFromUnit(op: Op, e: int, v: seq<int>)
    requires v != [] && op(e, v[0]) == v[0]
    ensures FoldFrom(op, e, v) == Fold(op, v)
    decreases |v|
  {
    if |v| > 1 {
      FoldFromUnit(op, e, v[..|v| - 1]);
    }
  }

  // ----- the combining networks

  /** Both halves of a vector, combined lane by lane. */
  function Halve(op: Op, v: seq<int>, k: nat): (r: seq<int>)
    requires k > 0 && |v| == Pow2(k)
    ensures |r| == Pow2(k - 1)
  {
    Zip(op, v[..Pow2(k - 1)], v[Pow2(k - 1)..])
  }

  /** The lanes of a vector of `2^k`, each moved to the position whose index differs in bit `j`. */
  function Swap(v: seq<int>, k: nat, j: nat): (r: seq<int>)
    requires j < k && |v| == Pow2(k)
    ensures |r| == |v|
    decreases k
  {
    var h := Pow2(k - 1);
    if j == k - 1 then v[h..] + v[..h] else Swap(v[..h], k - 1, j) + Swap(v[h..], k - 1, j)
  }

  /** Full-width steps that combine each lane with the lane whose index differs in bit `j - 1`, ..., 0. */
  function Butterfly(op: Op, v: seq<int>, k: nat, j: nat): (r: seq<int>)
    requires j <= k && |v| == Pow2(k)
    ensures |r| == |v|
    decreases j
  {
    if j == 0 then v else Butterfly(op, Zip(op, v, Swap(v, k, j - 1)), k, j - 1)
  }

  /** `h` halving steps followed by full-width steps on what is left. */
  function Network(op: Op, v: seq<int>, k: nat, h: nat): (r: seq<int>)
    requires h <= k && |v| == Pow2(k)
    ensures |r| == Pow2(k - h)
    decreases h
  {
    if h == 0 then Butterfly(op, v, k, k) else Network(op, Halve(op, v, k), k - 1, h - 1)
  }

  lemma FoldHalve(op: Op, v: seq<int>, k: nat)
    requires AC(op) && k > 0 && |v| == Pow2(k)
    ensures Fold(op, Halve(op, v, k)) == Fold(op, v)
  {
    var h := Pow2(k - 1);
    assert v == v[..h] + v[h..];
    FoldAppend(op, v[..h], v[h..]);
    FoldZip(op, v[..h], v[h..]);
  }

  /** Steps below the top bit act on the two halves of the vector separately. */
  lemma {:induction false} ButterflyOfHalves(op: Op, a: seq<int>, b: seq<int>, k: nat, j: nat)
    requires j < k && |a| == |b| == Pow2(k - 1)
    ensures Butterfly(op, a + b, k, j) == Butterfly(op, a, k - 1, j) + Butterfly(op, b, k - 1, j)
    decreases j
  {
    if j > 0 {
      var h, v := Pow2(k - 1), a + b;
      assert v[..h] == a && v[h..] == b;
      var s, t := Swap(a, k - 1, j - 1), Swap(b, k - 1, j - 1);
      ZipAppend(op, a, b, s, t);
      ButterflyOfHalves(op, Zip(op, a, s), Zip(op, b, t), k, j - 1);
    }
  }

  lemma ZipAppend(op: Op, a: seq<int>, b: seq<int>, c: seq<int>, d: seq<int>)
    requires |a| == |c| && |b| == |d|
    ensures Zip(op, a + b, c + d) == Zip(op, a, c) + Zip(op, b, d)
  {
  }

  lemma ZipCommute(op: Op, a: seq<int>, b: seq<int>)
    requires AC(op) && |a| == |b|
    ensures Zip(op, a, b) == Zip(op, b, a)
  {
    forall i | 0 <= i < |a| ensures Zip(op, a, b)[i] == Zip(op, b, a)[i] {
      Commute(op, a[i], b[i]);
    }
  }

  /** After the first full-width step both halves of the vector are the halved vector. */
  lemma FirstStep(op: Op, v: seq<int>, k: nat)
    requires AC(op) && k > 0 && |v| == Pow2(k)
    ensures Zip(op, v, Swap(v, k, k - 1)) == Halve(op, v, k) + Halve(op, v, k)
  {
    var lo, hi := v[..Pow2(k - 1)], v[Pow2(k - 1)..];
    assert v == lo + hi;
    ZipAppend(op, lo, hi, hi, lo);
    ZipCommute(op, hi, lo);
  }

  lemma ButterflyRepeats(op: Op, v: seq<int>, k: nat)
    requires AC(op) && k > 0 && |v| == Pow2(k)
    ensures var b := Butterfly(op, Halve(op, v, k), k - 1, k - 1); Butterfly(op, v, k, k) == b + b
  {
    FirstStep(op, v, k);
    ButterflyOfHalves(op, Halve(op, v, k), Halve(op, v, k), k, k - 1);
  }

  /** Every lane of the full-width network ends with the fold of all lanes. */
  lemma {:induction false} ButterflyIsFold(op: Op, v: seq<int>, k: nat, i: nat)
    requires AC(op) && |v| == Pow2(k) && i < |v|
    ensures Butterfly(op, v, k, k)[i] == Fold(op, v)
    decreases k
  {
    if k > 0 {
      var r := Halve(op, v, k);
      var b := Butterfly(op, r, k - 1, k - 1);
      ButterflyRepeats(op, v, k);
      var j := if i < |r| then i else i - |r|;
      assert (b + b)[i] == b[j];
      ButterflyIsFold(op, r, k - 1, j);
      assert Fold(op, r) == Fold(op, v) by { FoldHalve(op, v, k); }
    }
  }

  /** For any number of lanes `2^k` and any number `h` of halving steps, every lane of the result is
      the left fold of the input. */
  lemma {:induction false} NetworkIsFold(op: Op, v: seq<int>, k: nat, h: nat, i: nat)
    requires AC(op) && h <= k && |v| == Pow2(k) && i < Pow2(k - h)
    ensures Network(op, v, k, h)[i] == Fold(op, v)
    decreases h
  {
    if h == 0 {
      ButterflyIsFold(op, v, k, i);
    } else {
      NetworkIsFold(op, Halve(op, v, k), k - 1, h - 1, i);
      FoldHalve(op, v, k);
    }
  }

  // ----- masks

  /** The lanes whose mask bit is set, in order. */
  function Active(m: int, v: seq<int>): (s: seq<int>)
    ensures |s| <= |v|
  {
    if v == [] then [] else
      var n := |v| - 1;
      Active(m, v[..n]) + if Bit(m, n) then [v[n]] else []
  }

  /** The vector with every inactive lane replaced by `e`. */
  function Select(m: int, v: seq<int>, e: int): (r: seq<int>)
    ensures |r| == |v|
  {
    seq(|v|, i requires 0 <= i < |v| => if Bit(m, i) then v[i] else e)
  }

  /** `e` is neutral for results of the operator. */
  ghost predicate Unit(op: Op, e: int) {
    && op(e, e) == e
    && (forall x, y, z {:trigger At(x, y, z)} :: At(x, y, z) ==> op(op(x, y), e) == op(x, y))
  }

  lemma FoldFromUnitRight(op: Op, e: int, s: seq<int>)
    requires Unit(op, e)
    ensures op(FoldFrom(op, e, s), e) == FoldFrom(op, e, s)
  {
    if s != [] {
      assert At(FoldFrom(op, e, s[..|s| - 1]), s[|s| - 1], 0);
    }
  }

  lemma FoldFromLast(op: Op, e: int, s: seq<int>, x: int)
    ensures FoldFrom(op, e, s + [x]) == op(FoldFrom(op, e, s), x)
  {
    assert (s + [x])[..|s|] == s;
  }

  /** Replacing inactive lanes by a unit leaves the fold of the active ones. */
  lemma {:induction false} FoldSelect(op: Op, e: int, m: int, v: seq<int>)
    requires v != [] && Unit(op, e)
    requires forall i :: 0 <= i < |v| ==> op(e, v[i]) == v[i]
    ensures Fold(op, Select(m, v, e)) == FoldFrom(op, e, Active(m, v))
    decreases |v|
  {
    var n := |v| - 1;
    var a := Active(m, v[..n]);
    var x := if Bit(m, n) then v[n] else e;
    assert FoldFrom(op, e, Active(m, v)) == op(FoldFrom(op, e, a), x) by {
      if Bit(m, n) {
        FoldFromLast(op, e, a, v[n]);
      } else {
        assert Active(m, v) == a;
        FoldFromUnitRight(op, e, a);
      }
    }
    assert Select(m, v, e) == Select(m, v[..n], e) + [x];
    if n > 0 {
      FoldSelect(op, e, m, v[..n]);
      FoldLast(op, Select(m, v[..n], e), x);
    } else {
      assert Select(m, v, e) == [x] && a == [];
    }
  }
}
