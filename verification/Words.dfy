/** Machine words as mathematical integers with an explicit width.

    A word of width `w` is an integer in `[0, 2^w)`; a shift, a truncation or a bitwise operator is
    written out as arithmetic on that integer.  Bit 0 is the least significant bit.  The lemmas give
    every operator its meaning bit by bit, so that proofs about expressions built from them become
    proofs about bit positions. */
module Words {

  function Pow2(k: nat): (p: nat)
    ensures p >= 1
  {
    if k == 0 then 1 else 2 * Pow2(k - 1)
  }

  predicate IsWord(w: nat, x: int) {
    0 <= x < Pow2(w)
  }

  predicate Bit(x: int, i: nat)
    decreases i
  {
    if i == 0 then x % 2 == 1 else Bit(x / 2, i - 1)
  }

  /** Conversion to an unsigned type of width `w`. */
  function Trunc(w: nat, x: int): int {
    x % Pow2(w)
  }

  /** `x >> k` for an unsigned `x`. */
  function Shr(x: int, k: nat): int {
    x / Pow2(k)
  }

  /** `x << k` in an unsigned type of width `w`. */
  function Shl(w: nat, x: int, k: nat): int {
    Trunc(w, x * Pow2(k))
  }

  /** The word whose upper part is `hi` and whose low `k` bits are `lo`. */
  function Concat(k: nat, hi: int, lo: int): int {
    hi * Pow2(k) + lo
  }

  /** A bitwise operator of width `w`, given its truth table. */
  function Bitwise(f: (bool, bool) -> bool, w: nat, x: int, y: int): (z: int)
    ensures IsWord(w, z)
  {
    if w == 0 then 0
    else (if f(x % 2 == 1, y % 2 == 1) then 1 else 0) + 2 * Bitwise(f, w - 1, x / 2, y / 2)
  }

  predicate Both(a: bool, b: bool) { a && b }
  predicate Either(a: bool, b: bool) { a || b }
  predicate Differ(a: bool, b: bool) { a != b }

  function And(w: nat, x: int, y: int): int { Bitwise(Both, w, x, y) }
  function Or(w: nat, x: int, y: int): int { Bitwise(Either, w, x, y) }
  function Xor(w: nat, x: int, y: int): int { Bitwise(Differ, w, x, y) }

  // ----- division by powers of two

  lemma MulBounds(p: int, d: int)
    requires p >= 0
    ensures d >= 1 ==> p * d >= p
    ensures d <= -1 ==> p * d <= -p
  {
  }

  lemma DivModUnique(a: int, p: int, q: int, r: int)
    requires 0 <= r < p && a == p * q + r
    ensures a / p == q && a % p == r
  {
    var d := a / p - q;
    assert p * d == p * (a / p) - p * q;
    MulBounds(p, d);
  }

  /** Dividing by `2p` is halving and then dividing by `p`. */
  lemma DivModDouble(x: int, p: int)
    requires p >= 1
    ensures x / (2 * p) == (x / 2) / p
    ensures x % (2 * p) == x % 2 + 2 * ((x / 2) % p)
  {
    var h := x / 2;
    var t := p * (h / p);
    assert h == t + h % p;
    assert (2 * p) * (h / p) == 2 * t;
    DivModUnique(x, 2 * p, h / p, x % 2 + 2 * (h % p));
  }

  lemma {:induction false} Pow2Add(j: nat, k: nat)
    ensures Pow2(j + k) == Pow2(j) * Pow2(k)
  {
    if j > 0 {
      Pow2Add(j - 1, k);
      assert Pow2(j + k) == 2 * (Pow2(j - 1) * Pow2(k));
    }
  }

  lemma Pow2Of32()
    ensures Pow2(32) == 0x1_0000_0000
  {
    assert Pow2(8) == 0x100;
    Pow2Add(8, 8);
    Pow2Add(16, 16);
  }

  // ----- the operators, bit by bit

  lemma ShrHalf(x: int, k: nat)
    requires k > 0
    ensures Shr(x, k) == Shr(x / 2, k - 1)
  {
    DivModDouble(x, Pow2(k - 1));
  }

  lemma {:induction false} BitShr(x: int, k: nat, i: nat)
    ensures Bit(Shr(x, k), i) == Bit(x, i + k)
    decreases k
  {
    if k > 0 {
      ShrHalf(x, k);
      BitShr(x / 2, k - 1, i);
    }
  }

  lemma {:induction false} BitTrunc(w: nat, x: int, i: nat)
    ensures Bit(Trunc(w, x), i) == (i < w && Bit(x, i))
  {
    if w == 0 {
      BitZero(i);
    } else {
      DivModDouble(x, Pow2(w - 1));
      if i > 0 {
        BitTrunc(w - 1, x / 2, i - 1);
      }
    }
  }

  /** Bits of the `n`-bit field of `x` that starts at bit `k`. */
  lemma BitField(n: nat, x: int, k: nat, i: nat)
    ensures Bit(Trunc(n, Shr(x, k)), i) == (i < n && Bit(x, i + k))
  {
    BitTrunc(n, Shr(x, k), i);
    BitShr(x, k, i);
  }

  lemma {:induction false} BitZero(i: nat)
    ensures !Bit(0, i)
  {
    if i > 0 {
      BitZero(i - 1);
    }
  }

  lemma ConcatHalf(k: nat, hi: int, lo: int)
    requires k > 0
    ensures Concat(k, hi, lo) / 2 == Concat(k - 1, hi, lo / 2)
    ensures Concat(k, hi, lo) % 2 == lo % 2
  {
    var t := hi * Pow2(k - 1);
    assert Concat(k, hi, lo) == 2 * t + lo;
  }

  lemma {:induction false} BitConcat(k: nat, hi: int, lo: int, i: nat)
    requires IsWord(k, lo)
    ensures Bit(Concat(k, hi, lo), i) == if i < k then Bit(lo, i) else Bit(hi, i - k)
  {
    if k > 0 {
      ConcatHalf(k, hi, lo);
      if i > 0 {
        BitConcat(k - 1, hi, lo / 2, i - 1);
      }
    }
  }

  lemma BitShl(w: nat, x: int, k: nat, i: nat)
    ensures Bit(Shl(w, x, k), i) == (k <= i < w && Bit(x, i - k))
  {
    BitTrunc(w, x * Pow2(k), i);
    BitConcat(k, x, 0, i);
    BitZero(i);
  }

  lemma {:induction false} BitBitwise(f: (bool, bool) -> bool, w: nat, x: int, y: int, i: nat)
    ensures Bit(Bitwise(f, w, x, y), i) == (i < w && f(Bit(x, i), Bit(y, i)))
  {
    if w == 0 {
      BitZero(i);
    } else if i > 0 {
      BitBitwise(f, w - 1, x / 2, y / 2, i - 1);
    }
  }

  /** Words of the same width with the same bits are the same word. */
  lemma {:induction false} WordExtensionality(w: nat, x: int, y: int)
    requires IsWord(w, x) && IsWord(w, y)
    requires forall i: nat :: i < w ==> Bit(x, i) == Bit(y, i)
    ensures x == y
  {
    if w > 0 {
      forall i: nat | i < w - 1 ensures Bit(x / 2, i) == Bit(y / 2, i) {
        assert Bit(x, i + 1) == Bit(y, i + 1);
      }
      WordExtensionality(w - 1, x / 2, y / 2);
      assert Bit(x, 0) == Bit(y, 0);
    }
  }

  lemma ConcatIsWord(j: nat, k: nat, hi: int, lo: int)
    requires IsWord(j, hi) && IsWord(k, lo)
    ensures IsWord(j + k, Concat(k, hi, lo))
  {
    Pow2Add(j, k);
    var p, q := Pow2(j), Pow2(k);
    assert p * q - hi * q == (p - hi) * q;
    MulBounds(q, p - hi);
    MulBounds(q, hi);
  }

  /** Two words differ only below bit `k` exactly when they have the same upper part. */
  lemma {:induction false} XorBelow(w: nat, k: nat, x: int, y: int)
    requires IsWord(w, x) && IsWord(w, y)
    ensures Xor(w, x, y) < Pow2(k) <==> Shr(x, k) == Shr(y, k)
  {
    if k == 0 {
      XorZero(w, x, y);
    } else {
      ShrHalf(x, k);
      ShrHalf(y, k);
      if w > 0 {
        XorBelow(w - 1, k - 1, x / 2, y / 2);
      }
    }
  }

  lemma {:induction false} XorZero(w: nat, x: int, y: int)
    requires IsWord(w, x) && IsWord(w, y)
    ensures Xor(w, x, y) == 0 <==> x == y
  {
    if w > 0 {
      XorZero(w - 1, x / 2, y / 2);
    }
  }
}
