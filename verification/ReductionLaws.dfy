/** What the integer reductions compute, and the laws that relate them. */
module ReductionLaws {
  import opened Words
  import opened Folds
  import opened Reductions
  import Unpack

  // ----- every reduction is the plain left fold

  lemma FoldIsTotal(o: Operator, w: nat, v: seq<int>)
    requires w > 0 && v != [] && IsWord(w, v[0])
    ensures Fold(Combine(o, w), v) == Total(o, w, v)
  {
    FillIsUnit(o, w, v[0]);
    FoldFromUnit(Combine(o, w), Fill(o, w), v);
  }

  /** A reduction is the left fold of all lanes. */
  lemma ReduceIsTotal(o: Operator, w: nat, v: seq<int>)
    requires Is512(w, v)
    ensures Reduce(o, w, v) == Result(o, w, Total(o, w, v))
  {
    assert Body(o, w, v)[0] == Fold(Combine(o, w), v) by { BodyIsFold(o, w, v, 0); }
    FoldIsTotal(o, w, v);
  }

  lemma FoldOfSelect(o: Operator, w: nat, m: int, v: seq<int>)
    requires w > 0 && v != [] && forall i :: 0 <= i < |v| ==> IsWord(w, v[i])
    ensures Fold(Combine(o, w), Select(m, v, Fill(o, w))) == Total(o, w, Active(m, v))
  {
    var op, e := Combine(o, w), Fill(o, w);
    FillUnit(o, w);
    forall i | 0 <= i < |v| ensures op(e, v[i]) == v[i] {
      FillIsUnit(o, w, v[i]);
    }
    FoldSelect(op, e, m, v);
  }

  /** A masked reduction is the left fold of exactly the lanes whose mask bit is set. */
  lemma MaskReduceIsTotal(o: Operator, w: nat, m: int, v: seq<int>)
    requires Is512(w, v)
    ensures MaskReduce(o, w, m, v) == Result(o, w, Total(o, w, Active(m, v)))
  {
    var x := Masked(o, w, m, v);
    MaskedIs512(o, w, m, v);
    assert Body(o, w, x)[0] == Fold(Combine(o, w), x) by { BodyIsFold(o, w, x, 0); }
    FoldOfSelect(o, w, m, v);
  }

  /** The identity of an operator as a value of the result type: 0, 1, all ones, or the least or
      greatest value of the type. */
  function Identity(o: Operator, w: nat): (r: int)
    requires w > 0
  {
    match o
    case Add | BitOr | MaxU => 0
    case Mul => 1
    case BitAnd => -1
    case MaxS => 0 - Pow2(w - 1)
    case MinS => Pow2(w - 1) - 1
    case MinU => Pow2(w) - 1
  }

  lemma IdentityIsFill(o: Operator, w: nat)
    requires w > 1
    ensures Result(o, w, Fill(o, w)) == Identity(o, w)
  {
    var p: int, h: int := Pow2(w), Pow2(w - 1);
    assert p == 2 * h && h == 2 * Pow2(w - 2);
    match o
    case MaxS =>
      DivModUnique(-(h - 1) - 1, p, -1, h);
      SignedOfWord(w, h);
    case MinS =>
      TruncOfWord(w, h - 1);
      SignedOfWord(w, h - 1);
    case BitAnd =>
      DivModUnique(-1, p, -1, p - 1);
      SignedOfWord(w, p - 1);
    case MinU =>
      DivModUnique(-1, p, -1, p - 1);
    case Mul =>
      SignedOfWord(w, 1);
    case _ =>
      SignedOfWord(w, 0);
  }

  lemma SignedOfWord(w: nat, x: int)
    requires w > 0 && IsWord(w, x)
    ensures ToSigned(w, x) == if x >= Pow2(w - 1) then x - Pow2(w) else x
  {
    TruncOfWord(w, x);
  }

  /** With no active lane the result is the operator's identity. */
  lemma EmptyMask(o: Operator, w: nat, m: int, v: seq<int>)
    requires Is512(w, v) && forall i: nat :: i < |v| ==> !Bit(m, i)
    ensures MaskReduce(o, w, m, v) == Identity(o, w)
  {
    NoneActive(m, v);
    MaskReduceIsTotal(o, w, m, v);
    IdentityIsFill(o, w);
  }

  lemma {:induction false} NoneActive(m: int, v: seq<int>)
    requires forall i: nat :: i < |v| ==> !Bit(m, i)
    ensures Active(m, v) == []
    decreases |v|
  {
    if v != [] {
      NoneActive(m, v[..|v| - 1]);
    }
  }

  // ----- the result types

  /** A value of the signed type of width `w`. */
  predicate IsSigned(w: nat, r: int)
    requires w > 0
  {
    0 - Pow2(w - 1) <= r < Pow2(w - 1)
  }

  /** The value `r` is in the type that the intrinsic for `o` at width `w` returns, unsigned for the
      unsigned extrema and signed for all others, and stands for the word `x`. */
  ghost predicate Represents(o: Operator, w: nat, r: int, x: int)
    requires w > 0
  {
    && (if o == MaxU || o == MinU then 0 <= r < Pow2(w) else IsSigned(w, r))
    && Trunc(w, r) == Trunc(w, x)
  }

  lemma SignedRange(w: nat, x: int)
    requires w > 0
    ensures IsSigned(w, ToSigned(w, x))
    ensures Trunc(w, ToSigned(w, x)) == Trunc(w, x)
  {
    TruncTrunc(w, x);
    TruncToSigned(w, x);
    assert Pow2(w) == 2 * Pow2(w - 1);
  }

  lemma ResultRepresents(o: Operator, w: nat, x: int)
    requires w > 0 && IsWord(w, x)
    ensures Represents(o, w, Result(o, w, x), x)
  {
    SignedRange(w, x);
  }

  /** Every reduction is a value of its declared result type, which stands for the fold of the lanes. */
  lemma ReduceHasItsType(o: Operator, w: nat, m: int, v: seq<int>)
    requires Is512(w, v)
    ensures Represents(o, w, Reduce(o, w, v), Total(o, w, v))
    ensures Represents(o, w, MaskReduce(o, w, m, v), Total(o, w, Active(m, v)))
  {
    ReduceIsTotal(o, w, v);
    MaskReduceIsTotal(o, w, m, v);
    TotalIsWord(o, w, v);
    TotalIsWord(o, w, Active(m, v));
    ResultRepresents(o, w, Total(o, w, v));
    ResultRepresents(o, w, Total(o, w, Active(m, v)));
  }

  lemma TotalIsWord(o: Operator, w: nat, s: seq<int>)
    requires w > 0
    ensures IsWord(w, Total(o, w, s))
  {
    if s == [] {
      FillIsWord(o, w);
    } else {
      ApplyIsWord(o, w, Total(o, w, s[..|s| - 1]), s[|s| - 1]);
    }
  }

  // ----- what the fold is, operator by operator

  lemma {:induction false} TotalAdd(w: nat, s: seq<int>)
    requires w > 0
    ensures Total(Add, w, s) == Trunc(w, Sum(s))
    decreases |s|
  {
    if s == [] {
      TruncOfWord(w, 0);
    } else {
      var n := |s| - 1;
      TotalAdd(w, s[..n]);
      TruncAdd(w, Sum(s[..n]), s[n], Sum(s));
    }
  }

  lemma {:induction false} TotalMul(w: nat, s: seq<int>)
    requires w > 0
    ensures Total(Mul, w, s) == Trunc(w, Product(s))
    decreases |s|
  {
    if s == [] {
      TruncOfWord(w, 1);
    } else {
      var n := |s| - 1;
      TotalMul(w, s[..n]);
      TruncMul(w, Product(s[..n]), s[n], Product(s));
    }
  }

  lemma {:induction false} TotalAnd(w: nat, s: seq<int>, i: nat)
    requires i < w
    ensures Bit(Total(BitAnd, w, s), i) == forall j :: 0 <= j < |s| ==> Bit(s[j], i)
    decreases |s|
  {
    if s == [] {
      AllOnesBit(w, i);
    } else {
      var n := |s| - 1;
      TotalAnd(w, s[..n], i);
      BitBitwise(Both, w, Total(BitAnd, w, s[..n]), s[n], i);
      assert forall j :: 0 <= j < n ==> s[..n][j] == s[j];
    }
  }

  lemma {:induction false} TotalOr(w: nat, s: seq<int>, i: nat)
    requires i < w
    ensures Bit(Total(BitOr, w, s), i) == exists j :: 0 <= j < |s| && Bit(s[j], i)
    decreases |s|
  {
    if s == [] {
      BitZero(i);
    } else {
      var n := |s| - 1;
      TotalOr(w, s[..n], i);
      BitBitwise(Either, w, Total(BitOr, w, s[..n]), s[n], i);
      assert forall j :: 0 <= j < n ==> s[..n][j] == s[j];
    }
  }

  /** The fold of an extremum is one of the lanes, and no lane outranks it. */
  lemma {:induction false} TotalExtremum(o: Operator, w: nat, s: seq<int>)
    requires w > 0 && o.Extremum() && s != [] && forall j :: 0 <= j < |s| ==> IsWord(w, s[j])
    ensures Total(o, w, s) in s
    ensures forall j :: 0 <= j < |s| ==> Rank(o, w, s[j]) <= Rank(o, w, Total(o, w, s))
    decreases |s|
  {
    var n := |s| - 1;
    var u := s[..n];
    assert s == u + [s[n]];
    if n == 0 {
      FillIsUnit(o, w, s[0]);
      assert Total(o, w, u) == Fill(o, w) && Total(o, w, s) == s[0];
    } else {
      TotalExtremum(o, w, u);
      ExtremumStep(o, w, u, s[n]);
    }
  }

  lemma ExtremumStep(o: Operator, w: nat, u: seq<int>, x: int)
    requires w > 0 && o.Extremum() && IsWord(w, x)
    requires Total(o, w, u) in u && IsWord(w, Total(o, w, u))
    requires forall j :: 0 <= j < |u| ==> Rank(o, w, u[j]) <= Rank(o, w, Total(o, w, u))
    ensures Total(o, w, u + [x]) in u || Total(o, w, u + [x]) == x
    ensures forall j :: 0 <= j < |u + [x]| ==> Rank(o, w, (u + [x])[j]) <= Rank(o, w, Total(o, w, u + [x]))
  {
    var t := Total(o, w, u);
    var r := Apply(o, w, t, x);
    assert Total(o, w, u + [x]) == r by { FoldFromLast(Combine(o, w), Fill(o, w), u, x); }
    ExtremumPicks(o, w, t, x);
    RankOfApply(o, w, t, x);
  }

  lemma ExtremumPicks(o: Operator, w: nat, x: int, y: int)
    requires o.Extremum() && IsWord(w, x) && IsWord(w, y)
    ensures Apply(o, w, x, y) == x || Apply(o, w, x, y) == y
  {
    TruncOfWord(w, x);
    TruncOfWord(w, y);
  }

  /** `reduce_add`: the exact sum of the lanes, wrapped once to the result type. */
  lemma ReduceAdd(w: nat, m: int, v: seq<int>)
    requires Is512(w, v)
    ensures Reduce(Add, w, v) == ToSigned(w, Sum(v))
    ensures MaskReduce(Add, w, m, v) == ToSigned(w, Sum(Active(m, v)))
  {
    ReduceIsTotal(Add, w, v);
    MaskReduceIsTotal(Add, w, m, v);
    TotalAdd(w, v);
    TotalAdd(w, Active(m, v));
    TruncTrunc(w, Sum(v));
    TruncTrunc(w, Sum(Active(m, v)));
  }

  /** `reduce_mul`: the exact product of the lanes, wrapped once to the result type. */
  lemma ReduceMul(w: nat, m: int, v: seq<int>)
    requires Is512(w, v)
    ensures Reduce(Mul, w, v) == ToSigned(w, Product(v))
    ensures MaskReduce(Mul, w, m, v) == ToSigned(w, Product(Active(m, v)))
  {
    ReduceIsTotal(Mul, w, v);
    MaskReduceIsTotal(Mul, w, m, v);
    TotalMul(w, v);
    TotalMul(w, Active(m, v));
    TruncTrunc(w, Product(v));
    TruncTrunc(w, Product(Active(m, v)));
  }

  /** Signed conversion keeps every bit of the word. */
  lemma BitToSigned(w: nat, x: int, i: nat)
    requires i < w
    ensures Bit(ToSigned(w, x), i) == Bit(x, i)
  {
    var t := ToSigned(w, x);
    assert Trunc(w, t) == Trunc(w, x) by { TruncToSigned(w, x); }
    BitTrunc(w, t, i);
    BitTrunc(w, x, i);
  }

  lemma TruncToSigned(w: nat, x: int)
    ensures Trunc(w, ToSigned(w, x)) == Trunc(w, x)
  {
    TruncTrunc(w, x);
    var p, u := Pow2(w), Trunc(w, x);
    DivModUnique(u - p, p, -1, u);
  }

  lemma AndBits(w: nat, s: seq<int>, r: int, i: nat)
    requires i < w && r == ToSigned(w, Total(BitAnd, w, s))
    ensures Bit(r, i) == forall j :: 0 <= j < |s| ==> Bit(s[j], i)
    ensures IsSigned(w, r)
  {
    TotalAnd(w, s, i);
    BitToSigned(w, Total(BitAnd, w, s), i);
    SignedRange(w, Total(BitAnd, w, s));
  }

  /** `reduce_and`: bit `i` is set exactly when it is set in every (active) lane, and the result is a value
      of the signed type, so the bits above are copies of its highest bit. */
  lemma ReduceAnd(w: nat, m: int, v: seq<int>, i: nat)
    requires Is512(w, v) && i < w
    ensures Bit(Reduce(BitAnd, w, v), i) == forall j :: 0 <= j < |v| ==> Bit(v[j], i)
    ensures Bit(MaskReduce(BitAnd, w, m, v), i) == forall j :: 0 <= j < |Active(m, v)| ==> Bit(Active(m, v)[j], i)
    ensures IsSigned(w, Reduce(BitAnd, w, v)) && IsSigned(w, MaskReduce(BitAnd, w, m, v))
  {
    ReduceIsTotal(BitAnd, w, v);
    MaskReduceIsTotal(BitAnd, w, m, v);
    AndBits(w, v, Reduce(BitAnd, w, v), i);
    AndBits(w, Active(m, v), MaskReduce(BitAnd, w, m, v), i);
  }

  lemma OrBits(w: nat, s: seq<int>, r: int, i: nat)
    requires i < w && r == ToSigned(w, Total(BitOr, w, s))
    ensures Bit(r, i) == exists j :: 0 <= j < |s| && Bit(s[j], i)
    ensures IsSigned(w, r)
  {
    TotalOr(w, s, i);
    BitToSigned(w, Total(BitOr, w, s), i);
    SignedRange(w, Total(BitOr, w, s));
  }

  /** `reduce_or`: bit `i` is set exactly when it is set in some (active) lane, and the result is a value
      of the signed type, so the bits above are copies of its highest bit. */
  lemma ReduceOr(w: nat, m: int, v: seq<int>, i: nat)
    requires Is512(w, v) && i < w
    ensures Bit(Reduce(BitOr, w, v), i) == exists j :: 0 <= j < |v| && Bit(v[j], i)
    ensures Bit(MaskReduce(BitOr, w, m, v), i) == exists j :: 0 <= j < |Active(m, v)| && Bit(Active(m, v)[j], i)
    ensures IsSigned(w, Reduce(BitOr, w, v)) && IsSigned(w, MaskReduce(BitOr, w, m, v))
  {
    ReduceIsTotal(BitOr, w, v);
    MaskReduceIsTotal(BitOr, w, m, v);
    OrBits(w, v, Reduce(BitOr, w, v), i);
    OrBits(w, Active(m, v), MaskReduce(BitOr, w, m, v), i);
  }

  /** The value of a lane in the type named by the intrinsic. */
  function LaneValue(o: Operator, w: nat, x: int): int {
    if o.UnsignedResult() then x else ToSigned(w, x)
  }

  /** `r` is the value of a lane of `s` and, as `o` asks, the greatest or the least one. */
  ghost predicate IsExtremum(o: Operator, w: nat, s: seq<int>, r: int) {
    && (exists j :: 0 <= j < |s| && r == LaneValue(o, w, s[j]))
    && (forall j :: 0 <= j < |s| ==>
          if o.MaxS? || o.MaxU? then LaneValue(o, w, s[j]) <= r else r <= LaneValue(o, w, s[j]))
  }

  lemma TotalIsExtremum(o: Operator, w: nat, s: seq<int>)
    requires w > 0 && o.Extremum() && s != [] && forall j :: 0 <= j < |s| ==> IsWord(w, s[j])
    ensures IsExtremum(o, w, s, Result(o, w, Total(o, w, s)))
  {
    TotalExtremum(o, w, s);
    var t := Total(o, w, s);
    TruncOfWord(w, t);
    forall j | 0 <= j < |s| ensures Trunc(w, s[j]) == s[j] {
      TruncOfWord(w, s[j]);
    }
  }

  /** `reduce_max` and `reduce_min`, signed or unsigned as named. */
  lemma ReduceExtremum(o: Operator, w: nat, m: int, v: seq<int>)
    requires Is512(w, v) && o.Extremum()
    ensures IsExtremum(o, w, v, Reduce(o, w, v))
    ensures Active(m, v) != [] ==> IsExtremum(o, w, Active(m, v), MaskReduce(o, w, m, v))
  {
    ReduceIsTotal(o, w, v);
    TotalIsExtremum(o, w, v);
    if Active(m, v) != [] {
      MaskReduceIsTotal(o, w, m, v);
      ActiveFromLanes(w, m, v);
      TotalIsExtremum(o, w, Active(m, v));
    }
  }

  lemma {:induction false} ActiveFromLanes(w: nat, m: int, v: seq<int>)
    requires forall j :: 0 <= j < |v| ==> IsWord(w, v[j])
    ensures forall j :: 0 <= j < |Active(m, v)| ==> IsWord(w, Active(m, v)[j])
    decreases |v|
  {
    if v != [] {
      ActiveFromLanes(w, m, v[..|v| - 1]);
    }
  }

  // ----- order independence

  /** Permuting the lanes changes no reduction. */
  lemma ReducePermuted(o: Operator, w: nat, v: seq<int>, u: seq<int>)
    requires Is512(w, v) && Is512(w, u) && multiset(v) == multiset(u)
    ensures Reduce(o, w, v) == Reduce(o, w, u)
  {
    CombineAC(o, w);
    BodyIsFold(o, w, v, 0);
    BodyIsFold(o, w, u, 0);
    FoldPermute(Combine(o, w), v, u);
  }

  /** The fold of the same words in another order, possibly of none. */
  lemma TotalPermuted(o: Operator, w: nat, s: seq<int>, u: seq<int>)
    requires w > 0 && multiset(s) == multiset(u) && forall j :: 0 <= j < |s| ==> IsWord(w, s[j])
    ensures Total(o, w, s) == Total(o, w, u)
  {
    if s == [] {
      assert |multiset(u)| == 0;
    } else {
      CombineAC(o, w);
      FoldPermute(Combine(o, w), s, u);
      assert u[0] in multiset(s);
      FoldIsTotal(o, w, s);
      FoldIsTotal(o, w, u);
    }
  }

  /** A masked reduction depends only on which words its active lanes hold, and how often. */
  lemma MaskReduceByActive(o: Operator, w: nat, m: int, v: seq<int>, n: int, u: seq<int>)
    requires Is512(w, v) && Is512(w, u) && multiset(Active(m, v)) == multiset(Active(n, u))
    ensures MaskReduce(o, w, m, v) == MaskReduce(o, w, n, u)
  {
    MaskReduceIsTotal(o, w, m, v);
    MaskReduceIsTotal(o, w, n, u);
    ActiveFromLanes(w, m, v);
    TotalPermuted(o, w, Active(m, v), Active(n, u));
  }

  /** The lanes of a vector, each with its mask bit. */
  function Marked(m: int, v: seq<int>): (r: seq<(bool, int)>)
    ensures |r| == |v|
  {
    seq(|v|, i requires 0 <= i < |v| => (Bit(m, i), v[i]))
  }

  lemma {:induction false} ActiveCount(m: int, v: seq<int>, x: int)
    ensures multiset(Active(m, v))[x] == multiset(Marked(m, v))[(true, x)]
    decreases |v|
  {
    if v != [] {
      var n := |v| - 1;
      ActiveCount(m, v[..n], x);
      assert Marked(m, v) == Marked(m, v[..n]) + [(Bit(m, n), v[n])];
    }
  }

  /** Permuting the lanes and the mask bits together changes no masked reduction. */
  lemma MaskReducePermuted(o: Operator, w: nat, m: int, v: seq<int>, n: int, u: seq<int>)
    requires Is512(w, v) && Is512(w, u) && multiset(Marked(m, v)) == multiset(Marked(n, u))
    ensures MaskReduce(o, w, m, v) == MaskReduce(o, w, n, u)
  {
    forall x: int ensures multiset(Active(m, v))[x] == multiset(Active(n, u))[x] {
      ActiveCount(m, v, x);
      ActiveCount(n, u, x);
    }
    MaskReduceByActive(o, w, m, v, n, u);
  }

  // ----- combining reductions

  /** The lane operator only looks at the low `w` bits, so results may be combined as they are. */
  lemma ApplyResults(o: Operator, w: nat, x: int, y: int)
    requires IsWord(w, x) && IsWord(w, y)
    ensures Apply(o, w, Result(o, w, x), Result(o, w, y)) == Apply(o, w, x, y)
  {
    if !o.UnsignedResult() {
      var r, s := ToSigned(w, x), ToSigned(w, y);
      TruncToSigned(w, x);
      TruncToSigned(w, y);
      ApplyTruncated(o, w, r, s);
      ApplyTruncated(o, w, x, y);
    }
  }

  lemma ApplyTruncated(o: Operator, w: nat, x: int, y: int)
    ensures Apply(o, w, x, y) == Apply(o, w, Trunc(w, x), Trunc(w, y))
  {
    TruncTrunc(w, x);
    TruncTrunc(w, y);
    match o
    case Add =>
      TruncAdd(w, x, y, x + y);
      TruncAdd(w, y, Trunc(w, x), Trunc(w, x) + y);
    case Mul =>
      TruncMul(w, x, y, x * y);
      TruncMul(w, y, Trunc(w, x), y * Trunc(w, x));
      assert y * Trunc(w, x) == Trunc(w, x) * y;
    case BitAnd =>
      BitwiseTruncated(Both, w, x, y);
    case BitOr =>
      BitwiseTruncated(Either, w, x, y);
    case _ =>
  }

  lemma BitwiseTruncated(f: (bool, bool) -> bool, w: nat, x: int, y: int)
    ensures Bitwise(f, w, x, y) == Bitwise(f, w, Trunc(w, x), Trunc(w, y))
  {
    var l, r := Bitwise(f, w, x, y), Bitwise(f, w, Trunc(w, x), Trunc(w, y));
    forall i: nat | i < w ensures Bit(l, i) == Bit(r, i) {
      BitBitwise(f, w, x, y, i);
      BitBitwise(f, w, Trunc(w, x), Trunc(w, y), i);
      BitTrunc(w, x, i);
      BitTrunc(w, y, i);
    }
    WordExtensionality(w, l, r);
  }

  /** Two reductions combined by the operator are the reduction of the lane-wise combined vectors. */
  lemma ReduceZip(o: Operator, w: nat, v: seq<int>, u: seq<int>)
    requires Is512(w, v) && Is512(w, u)
    ensures Is512(w, Zip(Combine(o, w), v, u))
    ensures Reduce(o, w, Zip(Combine(o, w), v, u)) == Result(o, w, Apply(o, w, Reduce(o, w, v), Reduce(o, w, u)))
  {
    var op := Combine(o, w);
    var z := Zip(op, v, u);
    forall i | 0 <= i < |z| ensures IsWord(w, z[i]) {
      ApplyIsWord(o, w, v[i], u[i]);
    }
    CombineAC(o, w);
    BodyIsFold(o, w, v, 0);
    BodyIsFold(o, w, u, 0);
    BodyIsFold(o, w, z, 0);
    FoldZip(op, v, u);
    FoldIsWord(o, w, v);
    FoldIsWord(o, w, u);
    ApplyResults(o, w, Fold(op, v), Fold(op, u));
  }

  lemma FoldIsWord(o: Operator, w: nat, v: seq<int>)
    requires Is512(w, v)
    ensures IsWord(w, Fold(Combine(o, w), v))
  {
    ApplyIsWord(o, w, Fold(Combine(o, w), v[..|v| - 1]), v[|v| - 1]);
  }

  /** A lane chosen by two masks, combined, is the lane chosen by either. */
  lemma EitherLane(o: Operator, w: nat, b1: bool, b2: bool, x: int)
    requires w > 0 && IsWord(w, x) && (!(b1 && b2) || o.Idempotent())
    ensures var e := Fill(o, w);
      Apply(o, w, if b1 then x else e, if b2 then x else e) == if b1 || b2 then x else e
  {
    FillIsWord(o, w);
    FillIsUnit(o, w, Fill(o, w));
    FillIsUnit(o, w, x);
    if o.Idempotent() {
      ApplySame(o, w, x);
    }
  }

  lemma SelectEither(o: Operator, w: nat, m1: int, m2: int, m: int, v: seq<int>)
    requires w > 0 && forall i :: 0 <= i < |v| ==> IsWord(w, v[i])
    requires forall i: nat :: i < |v| ==> Bit(m, i) == (Bit(m1, i) || Bit(m2, i))
    requires o.Idempotent() || forall i: nat :: i < |v| ==> !(Bit(m1, i) && Bit(m2, i))
    ensures Select(m, v, Fill(o, w)) == Zip(Combine(o, w), Select(m1, v, Fill(o, w)), Select(m2, v, Fill(o, w)))
  {
    forall i: nat | i < |v|
      ensures Select(m, v, Fill(o, w))[i] == Combine(o, w)(Select(m1, v, Fill(o, w))[i], Select(m2, v, Fill(o, w))[i])
    {
      assert o.Idempotent() || !(Bit(m1, i) && Bit(m2, i));
      EitherLane(o, w, Bit(m1, i), Bit(m2, i), v[i]);
    }
  }

  /** Masks of `n` bits with an empty intersection, and the bits of a union. */
  lemma UnionBits(n: nat, m1: int, m2: int, i: nat)
    requires i < n
    ensures Bit(Or(n, m1, m2), i) == (Bit(m1, i) || Bit(m2, i))
    ensures And(n, m1, m2) == 0 ==> !(Bit(m1, i) && Bit(m2, i))
  {
    BitBitwise(Either, n, m1, m2, i);
    BitBitwise(Both, n, m1, m2, i);
    BitZero(i);
  }

  /** Mask splitting: the reduction under the union of two masks combines the two masked reductions,
      for disjoint masks with any operator and for any masks with an idempotent one. */
  lemma MaskSplit(o: Operator, w: nat, m1: int, m2: int, v: seq<int>)
    requires Is512(w, v)
    requires And(|v|, m1, m2) == 0 || o.Idempotent()
    ensures MaskReduce(o, w, Or(|v|, m1, m2), v) ==
            Result(o, w, Apply(o, w, MaskReduce(o, w, m1, v), MaskReduce(o, w, m2, v)))
  {
    var m := Or(|v|, m1, m2);
    forall i: nat | i < |v|
      ensures Bit(m, i) == (Bit(m1, i) || Bit(m2, i)) && (And(|v|, m1, m2) == 0 ==> !(Bit(m1, i) && Bit(m2, i)))
    {
      UnionBits(|v|, m1, m2, i);
    }
    MaskedUnion(o, w, m1, m2, m, v);
  }

  lemma MaskedUnion(o: Operator, w: nat, m1: int, m2: int, m: int, v: seq<int>)
    requires Is512(w, v)
    requires forall i: nat :: i < |v| ==> Bit(m, i) == (Bit(m1, i) || Bit(m2, i))
    requires o.Idempotent() || forall i: nat :: i < |v| ==> !(Bit(m1, i) && Bit(m2, i))
    ensures MaskReduce(o, w, m, v) == Result(o, w, Apply(o, w, MaskReduce(o, w, m1, v), MaskReduce(o, w, m2, v)))
  {
    MaskedIs512(o, w, m1, v);
    MaskedIs512(o, w, m2, v);
    MaskedIs512(o, w, m, v);
    SelectEither(o, w, m1, m2, m, v);
    ReduceZip(o, w, Masked(o, w, m1, v), Masked(o, w, m2, v));
  }

  lemma ApplySame(o: Operator, w: nat, x: int)
    requires o.Idempotent() && IsWord(w, x)
    ensures Apply(o, w, x, x) == x
  {
    TruncOfWord(w, x);
    if o.BitAnd? || o.BitOr? {
      forall i: nat | i < w ensures Bit(Apply(o, w, x, x), i) == Bit(x, i) {
        BitBitwise(Both, w, x, x, i);
        BitBitwise(Either, w, x, x, i);
      }
      WordExtensionality(w, Apply(o, w, x, x), x);
    }
  }

  /** A full reduction combines the reductions under a mask `m` and under its complement `c`. */
  lemma MaskComplement(o: Operator, w: nat, m: int, c: int, v: seq<int>)
    requires Is512(w, v) && forall i: nat :: i < |v| ==> Bit(c, i) == !Bit(m, i)
    ensures Reduce(o, w, v) == Result(o, w, Apply(o, w, MaskReduce(o, w, m, v), MaskReduce(o, w, c, v)))
  {
    forall i: nat | i < |v| ensures Bit(-1, i) {
      MinusOneBit(i);
    }
    MaskedUnion(o, w, m, c, -1, v);
    FullMask(o, w, v);
  }

  /** The mask with every bit set. */
  lemma FullMask(o: Operator, w: nat, v: seq<int>)
    requires Is512(w, v)
    ensures MaskReduce(o, w, -1, v) == Reduce(o, w, v)
  {
    MaskedIs512(o, w, -1, v);
    forall i: nat | i < |v| ensures Bit(-1, i) {
      MinusOneBit(i);
    }
    assert Masked(o, w, -1, v) == v;
  }

  /** The C complement `~m` (and so its low `n` bits) is a complement in that sense. */
  lemma {:induction false} BitComplement(n: nat, m: int, i: nat)
    requires i < n
    ensures Bit(-1 - m, i) == !Bit(m, i)
    ensures Bit(Trunc(n, -1 - m), i) == !Bit(m, i)
    decreases i
  {
    BitTrunc(n, -1 - m, i);
    if i > 0 {
      assert (-1 - m) / 2 == -1 - m / 2;
      BitComplement(n, m / 2, i - 1);
    }
  }

  /** The reduction under a mask and the reduction under its C complement, as an unsigned mask of one bit
      for each lane, combine to the full reduction. */
  lemma MaskNegation(o: Operator, w: nat, m: int, v: seq<int>)
    requires Is512(w, v)
    ensures Reduce(o, w, v) ==
            Result(o, w, Apply(o, w, MaskReduce(o, w, m, v), MaskReduce(o, w, Trunc(|v|, -1 - m), v)))
  {
    forall i: nat | i < |v| ensures Bit(Trunc(|v|, -1 - m), i) == !Bit(m, i) {
      BitComplement(|v|, m, i);
    }
    MaskComplement(o, w, m, Trunc(|v|, -1 - m), v);
  }

  /** Unpacking two vectors rearranges their lanes, so the reductions of the unpacked pair combine to
      what the reductions of the original pair combine to. */
  lemma UnpackPreservesReductions(o: Operator, w: nat, h: nat, a: Unpack.Blocks<int>, b: Unpack.Blocks<int>)
    requires Unpack.Paired(a, b, h) && Is512(w, Unpack.Lanes(a)) && Is512(w, Unpack.Lanes(b))
    ensures Is512(w, Unpack.Lanes(Unpack.UnpackLo(a, b, h))) && Is512(w, Unpack.Lanes(Unpack.UnpackHi(a, b, h)))
    ensures Apply(o, w, Reduce(o, w, Unpack.Lanes(Unpack.UnpackLo(a, b, h))),
                        Reduce(o, w, Unpack.Lanes(Unpack.UnpackHi(a, b, h)))) ==
            Apply(o, w, Reduce(o, w, Unpack.Lanes(a)), Reduce(o, w, Unpack.Lanes(b)))
  {
    UnpackedIs512(w, h, a, b);
    Unpack.UnpackConserves(a, b, h);
    CombinedFold(o, w, Unpack.Lanes(a), Unpack.Lanes(b));
    CombinedFold(o, w, Unpack.Lanes(Unpack.UnpackLo(a, b, h)), Unpack.Lanes(Unpack.UnpackHi(a, b, h)));
    CombineAC(o, w);
    FoldPermute(Combine(o, w), Unpack.Lanes(a) + Unpack.Lanes(b),
                Unpack.Lanes(Unpack.UnpackLo(a, b, h)) + Unpack.Lanes(Unpack.UnpackHi(a, b, h)));
  }

  lemma UnpackedIs512(w: nat, h: nat, a: Unpack.Blocks<int>, b: Unpack.Blocks<int>)
    requires Unpack.Paired(a, b, h) && Is512(w, Unpack.Lanes(a)) && Is512(w, Unpack.Lanes(b))
    ensures Is512(w, Unpack.Lanes(Unpack.UnpackLo(a, b, h))) && Is512(w, Unpack.Lanes(Unpack.UnpackHi(a, b, h)))
  {
    Unpack.UnpackConserves(a, b, h);
    Unpack.LaneCount(a, h);
    var all := multiset(Unpack.Lanes(a)) + multiset(Unpack.Lanes(b));
    assert forall x :: x in all ==> IsWord(w, x);
    WordsFrom(w, h, Unpack.UnpackLo(a, b, h), all);
    WordsFrom(w, h, Unpack.UnpackHi(a, b, h), all);
  }

  lemma WordsFrom(w: nat, h: nat, r: Unpack.Blocks<int>, all: multiset<int>)
    requires forall i :: 0 <= i < |r| ==> |r[i]| == 2 * h
    requires multiset(Unpack.Lanes(r)) <= all && forall x :: x in all ==> IsWord(w, x)
    ensures |Unpack.Lanes(r)| == Unpack.Start(h, |r|)
    ensures forall i :: 0 <= i < |Unpack.Lanes(r)| ==> IsWord(w, Unpack.Lanes(r)[i])
  {
    Unpack.LaneCount(r, h);
    forall i | 0 <= i < |Unpack.Lanes(r)| ensures IsWord(w, Unpack.Lanes(r)[i]) {
      assert Unpack.Lanes(r)[i] in multiset(Unpack.Lanes(r));
    }
  }

  lemma CombinedFold(o: Operator, w: nat, v: seq<int>, u: seq<int>)
    requires Is512(w, v) && Is512(w, u)
    ensures Apply(o, w, Reduce(o, w, v), Reduce(o, w, u)) == Fold(Combine(o, w), v + u)
  {
    var op := Combine(o, w);
    CombineAC(o, w);
    BodyIsFold(o, w, v, 0);
    BodyIsFold(o, w, u, 0);
    FoldAppend(op, v, u);
    FoldIsWord(o, w, v);
    FoldIsWord(o, w, u);
    ApplyResults(o, w, Fold(op, v), Fold(op, u));
  }

  // ----- the two lane views of one vector

  /** The lanes of width `2k` of a vector given by its lanes of width `k`. */
  function Join(k: nat, v: seq<int>): (r: seq<int>)
    ensures |r| == |v| / 2
  {
    if |v| < 2 then [] else Join(k, v[..|v| - 2]) + [Concat(k, v[|v| - 1], v[|v| - 2])]
  }

  /** Wide lane `j` has narrow lane `2j` as its lower and narrow lane `2j + 1` as its upper half. */
  lemma {:induction false} JoinedLane(k: nat, v: seq<int>, j: nat)
    requires |v| % 2 == 0 && 2 * j < |v|
    ensures |Join(k, v)| == |v| / 2
    ensures Join(k, v)[j] == v[2 * j] + Pow2(k) * v[2 * j + 1]
    decreases |v|
  {
    var n := |v| - 2;
    if 2 * j < n {
      JoinedLane(k, v[..n], j);
    }
  }

  /** The same bit by bit: bit `i` of wide lane `j`. */
  lemma JoinedBit(k: nat, v: seq<int>, j: nat, i: nat)
    requires |v| % 2 == 0 && 2 * j < |v| && IsWord(k, v[2 * j])
    ensures Bit(Join(k, v)[j], i) == if i < k then Bit(v[2 * j], i) else Bit(v[2 * j + 1], i - k)
  {
    JoinedLane(k, v, j);
    assert Join(k, v)[j] == Concat(k, v[2 * j + 1], v[2 * j]);
    BitConcat(k, v[2 * j + 1], v[2 * j], i);
  }

  lemma {:induction false} JoinedWords(k: nat, v: seq<int>)
    requires forall j :: 0 <= j < |v| ==> IsWord(k, v[j])
    ensures forall j :: 0 <= j < |Join(k, v)| ==> IsWord(2 * k, Join(k, v)[j])
    decreases |v|
  {
    if |v| >= 2 {
      JoinedWords(k, v[..|v| - 2]);
      ConcatIsWord(k, k, v[|v| - 1], v[|v| - 2]);
    }
  }

  lemma TotalOfPair(o: Operator, w: nat, s: seq<int>, x: int, y: int)
    requires w > 0
    ensures Total(o, w, s + [x, y]) == Apply(o, w, Apply(o, w, Total(o, w, s), x), y)
  {
    assert s + [x, y] == (s + [x]) + [y];
    FoldFromLast(Combine(o, w), Fill(o, w), s, x);
    FoldFromLast(Combine(o, w), Fill(o, w), s + [x], y);
  }

  /** What a bitwise operator does to single bits. */
  function BitRule(o: Operator): (bool, bool) -> bool {
    if o.BitAnd? then Both else Either
  }

  lemma FillBits(o: Operator, k: nat, i: nat)
    requires (o.BitAnd? || o.BitOr?) && i < k
    ensures Bit(Fill(o, k), i) == BitRule(o)(Bit(Fill(o, 2 * k), i), Bit(Fill(o, 2 * k), i + k))
  {
    AllOnesBit(k, i);
    AllOnesBit(2 * k, i);
    AllOnesBit(2 * k, i + k);
    BitZero(i);
    BitZero(i + k);
  }

  /** Folding in two narrow lanes, or the wide lane made of them. */
  lemma JoinedPairBits(o: Operator, k: nat, narrow: int, wide: int, x: int, y: int, i: nat)
    requires (o.BitAnd? || o.BitOr?) && i < k && IsWord(k, x) && IsWord(k, y)
    requires Bit(narrow, i) == BitRule(o)(Bit(wide, i), Bit(wide, i + k))
    ensures Bit(Apply(o, k, Apply(o, k, narrow, x), y), i) ==
            BitRule(o)(Bit(Apply(o, 2 * k, wide, Concat(k, y, x)), i),
                       Bit(Apply(o, 2 * k, wide, Concat(k, y, x)), i + k))
  {
    var f, c := BitRule(o), Concat(k, y, x);
    BitBitwise(f, k, narrow, x, i);
    BitBitwise(f, k, Bitwise(f, k, narrow, x), y, i);
    BitBitwise(f, 2 * k, wide, c, i);
    BitBitwise(f, 2 * k, wide, c, i + k);
    BitConcat(k, y, x, i);
    BitConcat(k, y, x, i + k);
  }

  /** Bit `i` of the fold of narrow lanes combines bits `i` and `i + k` of the fold of wide lanes. */
  lemma {:induction false} TotalOfJoin(o: Operator, k: nat, v: seq<int>, i: nat)
    requires (o.BitAnd? || o.BitOr?) && |v| % 2 == 0 && i < k
    requires forall j :: 0 <= j < |v| ==> IsWord(k, v[j])
    ensures Bit(Total(o, k, v), i) ==
            BitRule(o)(Bit(Total(o, 2 * k, Join(k, v)), i), Bit(Total(o, 2 * k, Join(k, v)), i + k))
    decreases |v|
  {
    if v == [] {
      FillBits(o, k, i);
    } else {
      var n := |v| - 2;
      var u, x, y := v[..n], v[n], v[n + 1];
      var narrow, wide := Total(o, k, u), Total(o, 2 * k, Join(k, u));
      assert Bit(narrow, i) == BitRule(o)(Bit(wide, i), Bit(wide, i + k)) by { TotalOfJoin(o, k, u, i); }
      assert v == u + [x, y];
      assert Total(o, k, v) == Apply(o, k, Apply(o, k, narrow, x), y) by { TotalOfPair(o, k, u, x, y); }
      assert Total(o, 2 * k, Join(k, v)) == Apply(o, 2 * k, wide, Concat(k, y, x)) by {
        FoldFromLast(Combine(o, 2 * k), Fill(o, 2 * k), Join(k, u), Concat(k, y, x));
      }
      JoinedPairBits(o, k, narrow, wide, x, y, i);
    }
  }

  lemma HalvesBit(o: Operator, k: nat, wide: int, r: int, i: nat)
    requires (o.BitAnd? || o.BitOr?) && i < k && r == ToSigned(2 * k, wide)
    ensures Bit(Apply(o, k, r, Shr(r, k)), i) == BitRule(o)(Bit(wide, i), Bit(wide, i + k))
  {
    BitBitwise(BitRule(o), k, r, Shr(r, k), i);
    BitShr(r, k, i);
    BitToSigned(2 * k, wide, i);
    BitToSigned(2 * k, wide, i + k);
  }

  /** The same for whole words, with the wide fold read through its signed result type. */
  lemma HalvesOfTotal(o: Operator, k: nat, v: seq<int>, r: int)
    requires (o.BitAnd? || o.BitOr?) && |v| % 2 == 0 && v != [] && k > 0
    requires forall j :: 0 <= j < |v| ==> IsWord(k, v[j])
    requires r == ToSigned(2 * k, Total(o, 2 * k, Join(k, v)))
    ensures Total(o, k, v) == Apply(o, k, r, Shr(r, k))
  {
    var t, wide, z := Total(o, k, v), Total(o, 2 * k, Join(k, v)), Apply(o, k, r, Shr(r, k));
    forall i: nat | i < k ensures Bit(t, i) == Bit(z, i) {
      TotalOfJoin(o, k, v, i);
      HalvesBit(o, k, wide, r, i);
    }
    ApplyIsWord(o, k, Total(o, k, v[..|v| - 1]), v[|v| - 1]);
    WordExtensionality(k, t, z);
  }

  lemma JoinedIs512(v: seq<int>)
    requires Is512(32, v)
    ensures Is512(64, Join(32, v))
  {
    JoinedWords(32, v);
  }

  /** The 32-bit `and` (`or`) of a vector is the `and` (`or`) of the low and the high half of its
      64-bit reduction `r`: the two networks agree although they see different lanes. */
  lemma CrossWidth(o: Operator, v: seq<int>)
    requires (o.BitAnd? || o.BitOr?) && Is512(32, v)
    ensures Is512(64, Join(32, v))
    ensures var r := Reduce(o, 64, Join(32, v)); Reduce(o, 32, v) == ToSigned(32, Apply(o, 32, r, Shr(r, 32)))
  {
    var u := Join(32, v);
    JoinedIs512(v);
    var r := Reduce(o, 64, u);
    assert r == ToSigned(64, Total(o, 64, u)) by { ReduceIsTotal(o, 64, u); }
    assert Reduce(o, 32, v) == ToSigned(32, Total(o, 32, v)) by { ReduceIsTotal(o, 32, v); }
    HalvesOfTotal(o, 32, v, r);
  }
}
