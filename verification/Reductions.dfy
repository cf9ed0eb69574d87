/** The integer horizontal reductions of avx512fintrin.h and their masked forms.

    A 512-bit vector is seen as its 8 lanes of 64 bits or its 16 lanes of 32 bits, lane 0 first, each
    lane an unsigned bit pattern.  The headers' three bodies (the macro `_mm512_mask_reduce_operator`
    in its integer definitions) are written out step by step; the theorems say that each of them
    computes the plain fold of the lanes, or of the active lanes under a mask. */
module Reductions {
  import opened Words
  import opened Folds
  import Unpack

  // ----- lane operators

  datatype Operator = Add | Mul | BitAnd | BitOr | MaxS | MaxU | MinS | MinU {
    predicate UnsignedResult() { MaxU? || MinU? }

    predicate Extremum() { MaxS? || MaxU? || MinS? || MinU? }

    /** Operators that give `x` for `x op x`. */
    predicate Idempotent() { !Add? && !Mul? }
  }

  /** The value of a bit pattern of width `w` in the signed type of that width. */
  function ToSigned(w: nat, x: int): int {
    var u := Trunc(w, x);
    if 2 * u >= Pow2(w) then u - Pow2(w) else u
  }

  /** One lane of the vector operator `o` at lane width `w`. */
  function Apply(o: Operator, w: nat, x: int, y: int): int {
    match o
    case Add => Trunc(w, x + y)
    case Mul => Trunc(w, x * y)
    case BitAnd => And(w, x, y)
    case BitOr => Or(w, x, y)
    case MaxS => if ToSigned(w, x) >= ToSigned(w, y) then Trunc(w, x) else Trunc(w, y)
    case MaxU => if Trunc(w, x) >= Trunc(w, y) then Trunc(w, x) else Trunc(w, y)
    case MinS => if ToSigned(w, x) <= ToSigned(w, y) then Trunc(w, x) else Trunc(w, y)
    case MinU => if Trunc(w, x) <= Trunc(w, y) then Trunc(w, x) else Trunc(w, y)
  }

  function Combine(o: Operator, w: nat): Op {
    (x, y) => Apply(o, w, x, y)
  }

  // ----- the three network bodies

  /** `__builtin_shufflevector(v, v, indices...)`. */
  function ShuffleOne(v: seq<int>, indices: seq<nat>): (r: seq<int>)
    requires forall k :: 0 <= k < |indices| ==> indices[k] < |v|
    ensures |r| == |indices|
    ensures forall k :: 0 <= k < |r| ==> r[k] == v[indices[k]]
  {
    Unpack.Shuffle(v, v, indices)
  }

  /** 64-bit add, mul, and, or: two extractions, then one exchange of the two remaining lanes. */
  function Halving64(op: Op, v: seq<int>): (t8: seq<int>)
    requires |v| == 8
    ensures |t8| == 2
  {
    var t3 := Zip(op, v[..4], v[4..]);
    var t6 := Zip(op, t3[..2], t3[2..]);
    var t7 := ShuffleOne(t6, [1, 0]);
    Zip(op, t6, t7)
  }

  /** All 32-bit reductions: two extractions, then two exchanges among the four remaining lanes. */
  function Halving32(op: Op, v: seq<int>): (t10: seq<int>)
    requires |v| == 16
    ensures |t10| == 4
  {
    var t3 := Zip(op, v[..8], v[8..]);
    var t6 := Zip(op, t3[..4], t3[4..]);
    var t7 := ShuffleOne(t6, [2, 3, 0, 1]);
    var t8 := Zip(op, t6, t7);
    var t9 := ShuffleOne(t8, [1, 0, 3, 2]);
    Zip(op, t8, t9)
  }

  /** 64-bit min and max: three full-width exchanges. */
  function Exchanging64(op: Op, v: seq<int>): (t6: seq<int>)
    requires |v| == 8
    ensures |t6| == 8
  {
    var t1 := ShuffleOne(v, [4, 5, 6, 7, 0, 1, 2, 3]);
    var t2 := Zip(op, v, t1);
    var t3 := ShuffleOne(t2, [2, 3, 0, 1, 6, 7, 4, 5]);
    var t4 := Zip(op, t2, t3);
    var t5 := ShuffleOne(t4, [1, 0, 3, 2, 5, 4, 7, 6]);
    Zip(op, t4, t5)
  }

  // ----- the intrinsics

  predicate Is512(w: nat, v: seq<int>) {
    && ((w == 64 && |v| == 8) || (w == 32 && |v| == 16))
    && (forall i :: 0 <= i < |v| ==> IsWord(w, v[i]))
  }

  /** The final vector of the body that the header uses for `o` at width `w`. */
  function Body(o: Operator, w: nat, v: seq<int>): (r: seq<int>)
    requires Is512(w, v)
    ensures r != []
  {
    if w == 32 then Halving32(Combine(o, w), v)
    else if o.Extremum() then Exchanging64(Combine(o, w), v)
    else Halving64(Combine(o, w), v)
  }

  /** Conversion of lane 0 to the declared result type. */
  function Result(o: Operator, w: nat, x: int): int {
    if o.UnsignedResult() then x else ToSigned(w, x)
  }

  /** `_mm512_reduce_<o>_ep[iu]<w>`. */
  function Reduce(o: Operator, w: nat, v: seq<int>): int
    requires Is512(w, v)
  {
    Result(o, w, Body(o, w, v)[0])
  }

  /** `_mm512_set1_epi<w>`. */
  function Set1(n: nat, c: int): (r: seq<int>)
    ensures |r| == n
  {
    seq(n, _ => c)
  }

  /** `_mm512_mask_mov_epi<w>`: lane `i` of `v` where bit `i` of the mask is set, else lane `i` of `src`. */
  function MaskMov(src: seq<int>, m: int, v: seq<int>): (r: seq<int>)
    requires |src| == |v|
    ensures |r| == |v|
  {
    seq(|v|, i requires 0 <= i < |v| => if Bit(m, i) then v[i] else src[i])
  }

  /** `_mm512_maskz_mov_epi<w>`. */
  function MaskzMov(m: int, v: seq<int>): (r: seq<int>)
    ensures |r| == |v|
  {
    MaskMov(Set1(|v|, 0), m, v)
  }

  /** The constants the masked bodies put in inactive lanes, as bit patterns. */
  function Fill(o: Operator, w: nat): int
    requires w > 0
  {
    match o
    case Add => 0
    case Mul => 1
    case BitAnd => Trunc(w, -1)
    case BitOr => 0
    case MaxS => Trunc(w, -(Pow2(w - 1) - 1) - 1)
    case MaxU => 0
    case MinS => Trunc(w, Pow2(w - 1) - 1)
    case MinU => Trunc(w, -1)
  }

  function Masked(o: Operator, w: nat, m: int, v: seq<int>): (r: seq<int>)
    requires w > 0
    ensures |r| == |v|
  {
    if o.Add? || o.BitOr? || o.MaxU? then MaskzMov(m, v) else MaskMov(Set1(|v|, Fill(o, w)), m, v)
  }

  /** `_mm512_mask_reduce_<o>_ep[iu]<w>`. */
  function MaskReduce(o: Operator, w: nat, m: int, v: seq<int>): int
    requires Is512(w, v)
  {
    MaskedIs512(o, w, m, v);
    Reduce(o, w, Masked(o, w, m, v))
  }

  lemma FillIsWord(o: Operator, w: nat)
    requires w > 0
    ensures IsWord(w, Fill(o, w))
  {
  }

  lemma MaskedIs512(o: Operator, w: nat, m: int, v: seq<int>)
    requires Is512(w, v)
    ensures Is512(w, Masked(o, w, m, v))
    ensures Masked(o, w, m, v) == Select(m, v, Fill(o, w))
  {
    var r := Masked(o, w, m, v);
    FillIsWord(o, w);
    forall i | 0 <= i < |v| ensures r[i] == (if Bit(m, i) then v[i] else Fill(o, w)) && IsWord(w, r[i]) {
    }
  }

  // ----- the lane operators are associative and commutative, with the fill constant as unit

  lemma TruncTrunc(w: nat, x: int)
    ensures IsWord(w, Trunc(w, x)) && Trunc(w, Trunc(w, x)) == Trunc(w, x)
    ensures ToSigned(w, Trunc(w, x)) == ToSigned(w, x)
  {
    DivModUnique(Trunc(w, x), Pow2(w), 0, Trunc(w, x));
  }

  lemma TruncOfWord(w: nat, x: int)
    requires IsWord(w, x)
    ensures Trunc(w, x) == x
  {
    DivModUnique(x, Pow2(w), 0, x);
  }

  lemma TruncAdd(w: nat, x: int, y: int, sum: int)
    requires sum == x + y
    ensures Trunc(w, Trunc(w, x) + y) == Trunc(w, sum)
    ensures Trunc(w, y + Trunc(w, x)) == Trunc(w, sum)
  {
    var p := Pow2(w);
    var q, s := x / p, (Trunc(w, x) + y) / p;
    assert p * (q + s) == p * q + p * s;
    DivModUnique(sum, p, q + s, (Trunc(w, x) + y) % p);
  }

  lemma TruncMul(w: nat, x: int, y: int, product: int)
    requires product == x * y
    ensures Trunc(w, Trunc(w, x) * y) == Trunc(w, product)
    ensures Trunc(w, y * Trunc(w, x)) == Trunc(w, product)
  {
    var p := Pow2(w);
    var q, r := x / p, x % p;
    var s := (r * y) / p;
    assert x * y == (p * q) * y + r * y by { Distribute(p * q, r, y); }
    assert (p * q) * y == p * (q * y);
    assert p * (q * y) + p * s == p * (q * y + s) by { Distribute(q * y, s, p); }
    assert r * y == y * r;
    DivModUnique(product, p, q * y + s, (r * y) % p);
  }

  lemma Distribute(a: int, b: int, c: int)
    ensures (a + b) * c == a * c + b * c
  {
  }

  lemma BitwiseAC(f: (bool, bool) -> bool, w: nat, x: int, y: int, z: int)
    requires f == Both || f == Either
    ensures Bitwise(f, w, x, y) == Bitwise(f, w, y, x)
    ensures Bitwise(f, w, Bitwise(f, w, x, y), z) == Bitwise(f, w, x, Bitwise(f, w, y, z))
  {
    var l, r := Bitwise(f, w, Bitwise(f, w, x, y), z), Bitwise(f, w, x, Bitwise(f, w, y, z));
    forall i: nat | i < w
      ensures Bit(Bitwise(f, w, x, y), i) == Bit(Bitwise(f, w, y, x), i)
      ensures Bit(l, i) == Bit(r, i)
    {
      BitBitwise(f, w, x, y, i);
      BitBitwise(f, w, y, x, i);
      BitBitwise(f, w, y, z, i);
      BitBitwise(f, w, Bitwise(f, w, x, y), z, i);
      BitBitwise(f, w, x, Bitwise(f, w, y, z), i);
    }
    WordExtensionality(w, Bitwise(f, w, x, y), Bitwise(f, w, y, x));
    WordExtensionality(w, l, r);
  }

  lemma MulAC(w: nat, x: int, y: int, z: int)
    ensures Trunc(w, x * y) == Trunc(w, y * x)
    ensures Trunc(w, Trunc(w, x * y) * z) == Trunc(w, x * Trunc(w, y * z))
  {
    assert x * y == y * x;
    var xyz := (x * y) * z;
    assert xyz == (y * z) * x;
    TruncMul(w, x * y, z, xyz);
    TruncMul(w, y * z, x, xyz);
  }

  /** The order that an extremum follows: its result has the larger rank. */
  function Rank(o: Operator, w: nat, x: int): int {
    match o
    case MaxS => ToSigned(w, x)
    case MinS => -ToSigned(w, x)
    case MinU => -Trunc(w, x)
    case _ => Trunc(w, x)
  }

  lemma RankInjective(o: Operator, w: nat, x: int, y: int)
    requires IsWord(w, x) && IsWord(w, y) && Rank(o, w, x) == Rank(o, w, y)
    ensures x == y
  {
    TruncOfWord(w, x);
    TruncOfWord(w, y);
  }

  lemma RankOfApply(o: Operator, w: nat, x: int, y: int)
    requires o.Extremum()
    ensures IsWord(w, Apply(o, w, x, y))
    ensures Rank(o, w, Apply(o, w, x, y)) == if Rank(o, w, x) >= Rank(o, w, y) then Rank(o, w, x) else Rank(o, w, y)
  {
    TruncTrunc(w, x);
    TruncTrunc(w, y);
  }

  lemma ExtremumAC(o: Operator, w: nat, x: int, y: int, z: int)
    requires o.Extremum()
    ensures Apply(o, w, x, y) == Apply(o, w, y, x)
    ensures Apply(o, w, Apply(o, w, x, y), z) == Apply(o, w, x, Apply(o, w, y, z))
  {
    var xy, yx, yz := Apply(o, w, x, y), Apply(o, w, y, x), Apply(o, w, y, z);
    RankOfApply(o, w, x, y);
    RankOfApply(o, w, y, x);
    RankInjective(o, w, xy, yx);
    RankOfApply(o, w, y, z);
    RankOfApply(o, w, xy, z);
    RankOfApply(o, w, x, yz);
    RankInjective(o, w, Apply(o, w, xy, z), Apply(o, w, x, yz));
  }

  lemma AddAC(w: nat, x: int, y: int, z: int)
    ensures Trunc(w, Trunc(w, x + y) + z) == Trunc(w, x + Trunc(w, y + z))
  {
    var sum := x + y + z;
    TruncAdd(w, x + y, z, sum);
    TruncAdd(w, y + z, x, sum);
  }

  lemma ApplyAC(o: Operator, w: nat, x: int, y: int, z: int)
    ensures Apply(o, w, x, y) == Apply(o, w, y, x)
    ensures Apply(o, w, Apply(o, w, x, y), z) == Apply(o, w, x, Apply(o, w, y, z))
  {
    match o
    case Add => AddAC(w, x, y, z);
    case Mul => MulAC(w, x, y, z);
    case BitAnd => BitwiseAC(Both, w, x, y, z);
    case BitOr => BitwiseAC(Either, w, x, y, z);
    case _ => ExtremumAC(o, w, x, y, z);
  }

  lemma CombineAC(o: Operator, w: nat)
    ensures AC(Combine(o, w))
  {
    forall x, y, z | At(x, y, z)
      ensures Combine(o, w)(x, y) == Combine(o, w)(y, x)
      ensures Combine(o, w)(Combine(o, w)(x, y), z) == Combine(o, w)(x, Combine(o, w)(y, z))
    {
      ApplyAC(o, w, x, y, z);
    }
  }

  lemma ApplyIsWord(o: Operator, w: nat, x: int, y: int)
    ensures IsWord(w, Apply(o, w, x, y))
  {
  }

  // ----- what the fold of a list of lanes means

  function Sum(s: seq<int>): int {
    if s == [] then 0 else Sum(s[..|s| - 1]) + s[|s| - 1]
  }

  function Product(s: seq<int>): int {
    if s == [] then 1 else Product(s[..|s| - 1]) * s[|s| - 1]
  }

  /** The left fold of a list of lanes, starting from the operator's fill constant. */
  function Total(o: Operator, w: nat, s: seq<int>): int
    requires w > 0
  {
    FoldFrom(Combine(o, w), Fill(o, w), s)
  }

  /** The fill constant is neutral for words of its width. */
  lemma FillIsUnit(o: Operator, w: nat, x: int)
    requires w > 0 && IsWord(w, x)
    ensures Apply(o, w, Fill(o, w), x) == x && Apply(o, w, x, Fill(o, w)) == x
  {
    var e := Fill(o, w);
    FillIsWord(o, w);
    TruncOfWord(w, x);
    TruncOfWord(w, e);
    match o
    case BitAnd =>
      AndAllOnes(w, x);
      BitwiseAC(Both, w, x, e, 0);
    case BitOr =>
      OrZero(w, x);
      BitwiseAC(Either, w, x, e, 0);
    case Add =>
    case Mul =>
      assert 1 * x == x && x * 1 == x;
    case _ =>
      FillIsLeast(o, w, x);
      RankOfApply(o, w, e, x);
      RankOfApply(o, w, x, e);
      RankInjective(o, w, Apply(o, w, e, x), x);
      RankInjective(o, w, Apply(o, w, x, e), x);
  }

  /** The fill constant of an extremum has the least rank at its own width and signedness. */
  lemma FillIsLeast(o: Operator, w: nat, x: int)
    requires w > 0 && o.Extremum()
    ensures Rank(o, w, Fill(o, w)) <= Rank(o, w, x)
  {
    var p := Pow2(w);
    TruncTrunc(w, x);
    TruncTrunc(w, Fill(o, w));
    match o
    case MaxS =>
      DivModUnique(-(Pow2(w - 1) - 1) - 1, p, -1, Pow2(w - 1));
      TruncOfWord(w, Pow2(w - 1));
    case MinS =>
      TruncOfWord(w, Pow2(w - 1) - 1);
    case MinU =>
      DivModUnique(-1, p, -1, p - 1);
      TruncOfWord(w, p - 1);
    case _ =>
      TruncOfWord(w, 0);
  }

  lemma {:induction false} AllOnesBit(w: nat, i: nat)
    requires i < w
    ensures Bit(Trunc(w, -1), i)
  {
    BitTrunc(w, -1, i);
    MinusOneBit(i);
  }

  lemma {:induction false} MinusOneBit(i: nat)
    ensures Bit(-1, i)
  {
    if i > 0 {
      MinusOneBit(i - 1);
    }
  }

  lemma AndAllOnes(w: nat, x: int)
    requires IsWord(w, x)
    ensures And(w, Trunc(w, -1), x) == x
  {
    forall i: nat | i < w ensures Bit(And(w, Trunc(w, -1), x), i) == Bit(x, i) {
      BitBitwise(Both, w, Trunc(w, -1), x, i);
      AllOnesBit(w, i);
    }
    WordExtensionality(w, And(w, Trunc(w, -1), x), x);
  }

  lemma OrZero(w: nat, x: int)
    requires IsWord(w, x)
    ensures Or(w, 0, x) == x
  {
    forall i: nat | i < w ensures Bit(Or(w, 0, x), i) == Bit(x, i) {
      BitBitwise(Either, w, 0, x, i);
      BitZero(i);
    }
    WordExtensionality(w, Or(w, 0, x), x);
  }

  lemma FillUnit(o: Operator, w: nat)
    requires w > 0
    ensures Unit(Combine(o, w), Fill(o, w))
  {
    FillIsWord(o, w);
    FillIsUnit(o, w, Fill(o, w));
    forall x, y, z | At(x, y, z) ensures Combine(o, w)(Combine(o, w)(x, y), Fill(o, w)) == Combine(o, w)(x, y) {
      ApplyIsWord(o, w, x, y);
      FillIsUnit(o, w, Apply(o, w, x, y));
    }
  }

  // ----- the bodies are instances of the general network

  lemma Halving64IsNetwork(op: Op, v: seq<int>)
    requires |v| == 8
    ensures Halving64(op, v) == Network(op, v, 3, 2)
  {
    var t3 := Zip(op, v[..4], v[4..]);
    var t6 := Zip(op, t3[..2], t3[2..]);
    assert t3 == Halve(op, v, 3) && t6 == Halve(op, t3, 2);
    assert ShuffleOne(t6, [1, 0]) == Swap(t6, 1, 0);
    assert Network(op, t6, 1, 0) == Butterfly(op, Zip(op, t6, Swap(t6, 1, 0)), 1, 0);
  }

  lemma SwapTwo(v: seq<int>)
    requires |v| == 2
    ensures Swap(v, 1, 0) == [v[1], v[0]]
  {
  }

  lemma SwapPairs(v: seq<int>)
    requires |v| == 4
    ensures Swap(v, 2, 1) == [v[2], v[3], v[0], v[1]]
  {
  }

  lemma SwapInPairs(v: seq<int>)
    requires |v| == 4
    ensures Swap(v, 2, 0) == [v[1], v[0], v[3], v[2]]
  {
    var a, b := v[..2], v[2..];
    SwapTwo(a);
    SwapTwo(b);
    assert Swap(v, 2, 0) == Swap(a, 1, 0) + Swap(b, 1, 0);
  }

  lemma SwapFour(v: seq<int>)
    requires |v| == 4
    ensures Swap(v, 2, 1) == [v[2], v[3], v[0], v[1]]
    ensures Swap(v, 2, 0) == [v[1], v[0], v[3], v[2]]
  {
    SwapPairs(v);
    SwapInPairs(v);
  }

  lemma TwoFours(a: seq<int>, b: seq<int>)
    requires |a| == |b| == 4
    ensures a + b == [a[0], a[1], a[2], a[3], b[0], b[1], b[2], b[3]]
  {
  }

  lemma SwapEight(v: seq<int>)
    requires |v| == 8
    ensures Swap(v, 3, 2) == [v[4], v[5], v[6], v[7], v[0], v[1], v[2], v[3]]
    ensures Swap(v, 3, 1) == [v[2], v[3], v[0], v[1], v[6], v[7], v[4], v[5]]
    ensures Swap(v, 3, 0) == [v[1], v[0], v[3], v[2], v[5], v[4], v[7], v[6]]
  {
    var a, b := v[..4], v[4..];
    SwapFour(a);
    SwapFour(b);
    TwoFours(b, a);
    TwoFours(Swap(a, 2, 1), Swap(b, 2, 1));
    TwoFours(Swap(a, 2, 0), Swap(b, 2, 0));
  }

  lemma ShuffleFour(v: seq<int>, a: nat, b: nat, c: nat, d: nat)
    requires |v| == 4 && a < 4 && b < 4 && c < 4 && d < 4
    ensures ShuffleOne(v, [a, b, c, d]) == [v[a], v[b], v[c], v[d]]
  {
  }

  lemma ShuffleEight(v: seq<int>, a: nat, b: nat, c: nat, d: nat, e: nat, f: nat, g: nat, h: nat)
    requires |v| == 8 && a < 8 && b < 8 && c < 8 && d < 8 && e < 8 && f < 8 && g < 8 && h < 8
    ensures ShuffleOne(v, [a, b, c, d, e, f, g, h]) == [v[a], v[b], v[c], v[d], v[e], v[f], v[g], v[h]]
  {
  }

  lemma FourLaneExchanges(op: Op, t6: seq<int>)
    requires |t6| == 4
    ensures Zip(op, t6, ShuffleOne(t6, [2, 3, 0, 1])) == Zip(op, t6, Swap(t6, 2, 1))
    ensures Zip(op, t6, ShuffleOne(t6, [1, 0, 3, 2])) == Zip(op, t6, Swap(t6, 2, 0))
  {
    SwapFour(t6);
    ShuffleFour(t6, 2, 3, 0, 1);
    ShuffleFour(t6, 1, 0, 3, 2);
  }

  lemma Halving32IsNetwork(op: Op, v: seq<int>)
    requires |v| == 16
    ensures Halving32(op, v) == Network(op, v, 4, 2)
  {
    var t3 := Zip(op, v[..8], v[8..]);
    var t6 := Zip(op, t3[..4], t3[4..]);
    assert t3 == Halve(op, v, 4) && t6 == Halve(op, t3, 3);
    FourLaneExchanges(op, t6);
    var t8 := Zip(op, t6, Swap(t6, 2, 1));
    FourLaneExchanges(op, t8);
    assert Butterfly(op, t6, 2, 2) == Butterfly(op, t8, 2, 1);
    assert Butterfly(op, t8, 2, 1) == Butterfly(op, Zip(op, t8, Swap(t8, 2, 0)), 2, 0);
  }

  lemma EightLaneExchanges(v: seq<int>)
    requires |v| == 8
    ensures ShuffleOne(v, [4, 5, 6, 7, 0, 1, 2, 3]) == Swap(v, 3, 2)
    ensures ShuffleOne(v, [2, 3, 0, 1, 6, 7, 4, 5]) == Swap(v, 3, 1)
    ensures ShuffleOne(v, [1, 0, 3, 2, 5, 4, 7, 6]) == Swap(v, 3, 0)
  {
    SwapEight(v);
    ShuffleEight(v, 4, 5, 6, 7, 0, 1, 2, 3);
    ShuffleEight(v, 2, 3, 0, 1, 6, 7, 4, 5);
    ShuffleEight(v, 1, 0, 3, 2, 5, 4, 7, 6);
  }

  lemma Exchanging64IsNetwork(op: Op, v: seq<int>)
    requires |v| == 8
    ensures Exchanging64(op, v) == Network(op, v, 3, 0)
  {
    EightLaneExchanges(v);
    var t2 := Zip(op, v, Swap(v, 3, 2));
    EightLaneExchanges(t2);
    var t4 := Zip(op, t2, Swap(t2, 3, 1));
    EightLaneExchanges(t4);
    assert Butterfly(op, v, 3, 3) == Butterfly(op, t2, 3, 2);
    assert Butterfly(op, t2, 3, 2) == Butterfly(op, t4, 3, 1);
    assert Butterfly(op, t4, 3, 1) == Butterfly(op, Zip(op, t4, Swap(t4, 3, 0)), 3, 0);
  }

  /** Every lane of the final vector of a body, not only lane 0, holds the fold of the input lanes. */
  lemma BodyIsFold(o: Operator, w: nat, v: seq<int>, i: nat)
    requires Is512(w, v) && i < |Body(o, w, v)|
    ensures Body(o, w, v)[i] == Fold(Combine(o, w), v)
  {
    var op := Combine(o, w);
    CombineAC(o, w);
    if w == 32 {
      Halving32IsNetwork(op, v);
      NetworkIsFold(op, v, 4, 2, i);
    } else if o.Extremum() {
      Exchanging64IsNetwork(op, v);
      NetworkIsFold(op, v, 3, 0, i);
    } else {
      Halving64IsNetwork(op, v);
      NetworkIsFold(op, v, 3, 2, i);
    }
  }
}
