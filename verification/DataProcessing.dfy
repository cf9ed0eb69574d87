/** The data-processing intrinsics of arm_acle.h: rotation and the byte and bit reversals.

    Each function is the expression of the header over words of explicit width; the three compiler
    builtins (byte swap at two widths, bit reversal) are given their instruction's meaning.  Every
    operation turns out to be a permutation of bit positions, and the laws below are about those
    permutations. */
module DataProcessing {
  import opened Words

  // ----- __ror, __rorll

  /** `__ror` is `Ror(32, x, y)` and `__rorll` is `Ror(64, x, y)`. */
  function Ror(w: nat, x: int, y: nat): int
    requires w > 0
  {
    var s := y % w;
    if s == 0 then x else Or(w, Shr(x, s), Shl(w, x, w - s))
  }

  /** Rotation moves bit `(i + y) mod w` to bit `i`. */
  lemma RorBit(w: nat, x: int, y: nat, i: nat)
    requires w > 0 && IsWord(w, x) && i < w
    ensures Bit(Ror(w, x, y), i) == Bit(x, (i + y) % w)
  {
    var s := y % w;
    IndexSum(w, i, y);
    if s != 0 {
      BitBitwise(Either, w, Shr(x, s), Shl(w, x, w - s), i);
      BitShr(x, s, i);
      BitShl(w, x, w - s, i);
      if i + s >= w {
        BitBeyond(w, x, i + s);
      }
    }
  }

  lemma RorIsWord(w: nat, x: int, y: nat)
    requires w > 0 && IsWord(w, x)
    ensures IsWord(w, Ror(w, x, y))
  {
  }

  lemma BitBeyond(w: nat, x: int, i: nat)
    requires IsWord(w, x) && i >= w
    ensures !Bit(x, i)
  {
    assert Trunc(w, x) == x by { DivModUnique(x, Pow2(w), 0, x); }
    BitTrunc(w, x, i);
  }

  /** `(i + y) mod w` from the reduced shift count. */
  lemma IndexSum(w: nat, i: nat, y: nat)
    requires w > 0 && i < w
    ensures (i + y) % w == if i + y % w < w then i + y % w else i + y % w - w
  {
    var q, s := y / w, y % w;
    assert w * (q + 1) == w * q + w;
    if i + s < w {
      DivModUnique(i + y, w, q, i + s);
    } else {
      DivModUnique(i + y, w, q + 1, i + s - w);
    }
  }

  lemma RemainderOfRemainder(w: nat, k: int, q: int, r: nat)
    requires w > 0
    ensures (w * k * q + r) % w == r % w
  {
    var t := k * q;
    assert w * k * q == w * t;
    assert w * t + w * (r / w) == w * (t + r / w);
    DivModUnique(w * t + r, w, t + r / w, r % w);
  }

  lemma IndexSumTwice(w: nat, i: nat, a: nat, b: nat)
    requires w > 0 && i < w
    ensures ((i + b) % w + a) % w == (i + (a + b)) % w
  {
    var q, j := (i + b) / w, (i + b) % w;
    assert i + (a + b) == w * 1 * q + (j + a);
    RemainderOfRemainder(w, 1, q, j + a);
  }

  /** Rotations compose by adding their counts. */
  lemma RorCompose(w: nat, x: int, a: nat, b: nat)
    requires w > 0 && IsWord(w, x)
    ensures Ror(w, Ror(w, x, a), b) == Ror(w, x, a + b)
  {
    var z := Ror(w, x, a);
    forall i: nat | i < w ensures Bit(Ror(w, z, b), i) == Bit(Ror(w, x, a + b), i) {
      RorBit(w, z, b, i);
      RorBit(w, x, a, (i + b) % w);
      RorBit(w, x, a + b, i);
      IndexSumTwice(w, i, a, b);
    }
    WordExtensionality(w, Ror(w, z, b), Ror(w, x, a + b));
  }

  lemma WrappedCount(w: nat, y: nat)
    requires w == 32 || w == 64
    ensures Trunc(32, y) % w == y % w
  {
    var m := Pow2(32);
    Pow2Of32();
    assert y == m * (y / m) + y % m;
    RemainderOfRemainder(w, m / w, y / m, y % m);
  }

  lemma RorCount(w: nat, x: int, a: nat, b: nat)
    requires w > 0 && a % w == b % w
    ensures Ror(w, x, a) == Ror(w, x, b)
  {
  }

  /** The 32-bit sum of two counts may be used even when it wraps: 32 and 64 divide 2^32. */
  lemma RorComposeWrapping(w: nat, x: int, a: nat, b: nat)
    requires (w == 32 || w == 64) && IsWord(w, x) && IsWord(32, a) && IsWord(32, b)
    ensures Ror(w, Ror(w, x, a), b) == Ror(w, x, Trunc(32, a + b))
  {
    RorCompose(w, x, a, b);
    WrappedCount(w, a + b);
    RorCount(w, x, a + b, Trunc(32, a + b));
  }

  /** Every rotation is undone by the complementary one. */
  lemma RorInverse(w: nat, x: int, y: nat)
    requires w > 0 && IsWord(w, x)
    ensures Ror(w, Ror(w, x, y), w - y % w) == x
  {
    RorCompose(w, x, y, w - y % w);
    assert w * (y / w + 1) == w * (y / w) + w;
    DivModUnique(y + (w - y % w), w, y / w + 1, 0);
  }

  // ----- the builtins behind __rev, __revll and __rbit

  /** Reversal of the `n` bytes of a word. */
  function Bswap(n: nat, x: int): int {
    if n == 0 then 0 else Concat(8 * (n - 1), Trunc(8, x), Bswap(n - 1, Shr(x, 8)))
  }

  /** Reversal of the `w` bits of a word. */
  function Rbit(w: nat, x: int): int {
    if w == 0 then 0 else Concat(w - 1, x % 2, Rbit(w - 1, x / 2))
  }

  /** Position of the bit that a reversal of `n` bytes brings to position `i`. */
  function MirrorByte(n: nat, i: nat): (j: nat)
    requires i < 8 * n
    ensures j < 8 * n
  {
    8 * (n - 1 - i / 8) + i % 8
  }

  lemma MirrorInByte(n: nat, k: nat, low: nat, high: nat, i: nat)
    requires k < n && low == 8 * k && high == 8 * (n - 1 - k) && i < 8
    ensures i + low < 8 * n && MirrorByte(n, i + low) == i + high
  {
  }

  lemma MirrorByteInvolution(n: nat, i: nat)
    requires i < 8 * n
    ensures MirrorByte(n, MirrorByte(n, i)) == i
  {
    var k := i / 8;
    MirrorInByte(n, k, 8 * k, 8 * (n - 1 - k), i % 8);
    MirrorInByte(n, n - 1 - k, 8 * (n - 1 - k), 8 * k, i % 8);
  }

  lemma MirrorByteStep(n: nat, i: nat)
    requires i < 8 * n
    ensures MirrorByte(n, i) == if i < 8 * (n - 1) then MirrorByte(n - 1, i) + 8 else i - 8 * (n - 1)
  {
  }

  lemma {:induction false} BswapIsWord(n: nat, x: int)
    ensures IsWord(8 * n, Bswap(n, x))
  {
    if n > 0 {
      BswapIsWord(n - 1, Shr(x, 8));
      ConcatIsWord(8, 8 * (n - 1), Trunc(8, x), Bswap(n - 1, Shr(x, 8)));
    }
  }

  lemma {:induction false} RbitIsWord(w: nat, x: int)
    ensures IsWord(w, Rbit(w, x))
  {
    if w > 0 {
      RbitIsWord(w - 1, x / 2);
      ConcatIsWord(1, w - 1, x % 2, Rbit(w - 1, x / 2));
    }
  }

  lemma {:induction false} BswapBit(n: nat, x: int, i: nat)
    requires i < 8 * n
    ensures Bit(Bswap(n, x), i) == Bit(x, MirrorByte(n, i))
    decreases n
  {
    var k, y := 8 * (n - 1), Bswap(n - 1, Shr(x, 8));
    BswapIsWord(n - 1, Shr(x, 8));
    BitConcat(k, Trunc(8, x), y, i);
    if i < k {
      var j := MirrorByte(n - 1, i);
      BswapBit(n - 1, Shr(x, 8), i);
      BitShr(x, 8, j);
      assert j + 8 == MirrorByte(n, i) by { MirrorByteStep(n, i); }
    } else {
      BitTrunc(8, x, i - k);
      assert i - k == MirrorByte(n, i) by { MirrorByteStep(n, i); }
    }
  }

  lemma {:induction false} RbitBit(w: nat, x: int, i: nat)
    requires i < w
    ensures Bit(Rbit(w, x), i) == Bit(x, w - 1 - i)
    decreases w
  {
    RbitIsWord(w - 1, x / 2);
    BitConcat(w - 1, x % 2, Rbit(w - 1, x / 2), i);
    if i < w - 1 {
      RbitBit(w - 1, x / 2, i);
    }
  }

  lemma BswapByteBit(n: nat, x: int, k: nat, low: nat, high: nat, i: nat)
    requires k < n && low == 8 * k && high == 8 * (n - 1 - k) && i < 8
    ensures Bit(Trunc(8, Shr(Bswap(n, x), low)), i) == Bit(Trunc(8, Shr(x, high)), i)
  {
    BitField(8, Bswap(n, x), low, i);
    BitField(8, x, high, i);
    MirrorInByte(n, k, low, high, i);
    BswapBit(n, x, i + low);
  }

  /** Byte `k` of the reversed word is byte `n - 1 - k` of the word. */
  lemma BswapByte(n: nat, x: int, k: nat)
    requires k < n
    ensures Trunc(8, Shr(Bswap(n, x), 8 * k)) == Trunc(8, Shr(x, 8 * (n - 1 - k)))
  {
    var low, high := 8 * k, 8 * (n - 1 - k);
    var y, z := Trunc(8, Shr(Bswap(n, x), low)), Trunc(8, Shr(x, high));
    forall i: nat | i < 8 ensures Bit(y, i) == Bit(z, i) {
      BswapByteBit(n, x, k, low, high, i);
    }
    WordExtensionality(8, y, z);
  }

  /** Reversing the bytes twice, or the bits twice, gives the word back. */
  lemma BswapInvolution(n: nat, x: int)
    requires IsWord(8 * n, x)
    ensures Bswap(n, Bswap(n, x)) == x
  {
    BswapIsWord(n, Bswap(n, x));
    forall i: nat | i < 8 * n ensures Bit(Bswap(n, Bswap(n, x)), i) == Bit(x, i) {
      BswapBit(n, Bswap(n, x), i);
      BswapBit(n, x, MirrorByte(n, i));
      MirrorByteInvolution(n, i);
    }
    WordExtensionality(8 * n, Bswap(n, Bswap(n, x)), x);
  }

  lemma RbitInvolution(w: nat, x: int)
    requires IsWord(w, x)
    ensures Rbit(w, Rbit(w, x)) == x
  {
    RbitIsWord(w, Rbit(w, x));
    forall i: nat | i < w ensures Bit(Rbit(w, Rbit(w, x)), i) == Bit(x, i) {
      RbitBit(w, Rbit(w, x), i);
      RbitBit(w, x, w - 1 - i);
    }
    WordExtensionality(w, Rbit(w, Rbit(w, x)), x);
  }

  /** Mirroring a position and then advancing by `y` is retreating by `y` and then mirroring. */
  lemma MirroredIndexSum(w: nat, i: nat, y: nat)
    requires w > 0 && i < w
    ensures (w - 1 - i + y) % w == w - 1 - (i + (w - y % w)) % w
  {
    IndexSum(w, w - 1 - i, y);
    IndexSum(w, i, w - y % w);
    if y % w == 0 {
      DivModUnique(w, w, 1, 0);
    } else {
      DivModUnique(w - y % w, w, 0, w - y % w);
    }
  }

  lemma RbitOfRorBit(w: nat, x: int, y: nat, n: nat, i: nat)
    requires w > 0 && IsWord(w, x) && i < w && n == w - y % w
    ensures Bit(Rbit(w, Ror(w, x, y)), i) == Bit(Ror(w, Rbit(w, x), n), i)
  {
    RbitBit(w, Ror(w, x, y), i);
    MirroredIndexSum(w, i, y);
    RorBit(w, x, y, w - 1 - i);
    RbitIsWord(w, x);
    RorBit(w, Rbit(w, x), n, i);
    RbitBit(w, x, (i + n) % w);
  }

  lemma RbitOfRor(w: nat, x: int, y: nat, n: nat)
    requires w > 0 && IsWord(w, x) && n == w - y % w
    ensures Rbit(w, Ror(w, x, y)) == Ror(w, Rbit(w, x), n)
  {
    var l, r := Rbit(w, Ror(w, x, y)), Ror(w, Rbit(w, x), n);
    assert IsWord(w, l) && IsWord(w, r) by {
      RbitIsWord(w, Ror(w, x, y));
      RbitIsWord(w, x);
      RorIsWord(w, Rbit(w, x), n);
    }
    forall i: nat | i < w ensures Bit(l, i) == Bit(r, i) {
      RbitOfRorBit(w, x, y, n, i);
    }
    WordExtensionality(w, l, r);
  }

  /** Bit reversal turns a rotation by `y` into the opposite rotation. */
  lemma RbitConjugatesRor(w: nat, x: int, y: nat)
    requires w > 0 && IsWord(w, x)
    ensures Rbit(w, Ror(w, x, y)) == Ror(w, Rbit(w, x), w - y % w)
  {
    RbitOfRor(w, x, y, w - y % w);
  }

  // ----- __rev16, __rev16ll, __rbitll

  function Rev16(t: int): int {
    Ror(32, Bswap(4, t), 16)
  }

  function Rev16ll(t: int): int {
    Or(64, Shl(64, Rev16(Trunc(32, Shr(t, 32))), 32), Rev16(Trunc(32, t)))
  }

  /** `__rbitll` as compiled for the 32-bit state; the 64-bit state uses `Rbit(64, t)` itself. */
  function Rbitll32(t: int): int {
    Or(64, Shl(64, Rbit(32, Trunc(32, t)), 32), Rbit(32, Trunc(32, Shr(t, 32))))
  }

  /** Position of the bit that a byte swap within each 16-bit halfword brings to position `i`. */
  function OtherByte(i: nat): nat {
    if i / 8 % 2 == 0 then i + 8 else i - 8
  }

  lemma OtherByteInvolution(i: nat)
    ensures OtherByte(OtherByte(i)) == i
  {
  }

  lemma OtherByteSplits(i: nat, h: nat)
    ensures OtherByte(16 * h + i) == 16 * h + OtherByte(i)
    ensures i < 16 ==> OtherByte(i) == MirrorByte(2, i)
    ensures i < 16 * h ==> OtherByte(i) < 16 * h
  {
    assert (16 * h + i) / 8 == 2 * h + i / 8;
  }

  /** Mirroring four bytes and exchanging halfwords, in either order, exchanges neighbouring bytes. */
  lemma OtherByteOfFour(i: nat)
    requires i < 32
    ensures MirrorByte(4, (i + 16) % 32) == OtherByte(i)
    ensures (MirrorByte(4, i) + 16) % 32 == OtherByte(i)
  {
    var b, r := i / 8, i % 8;
    assert i == 8 * b + r;
    if {
      case b == 0 =>
      case b == 1 =>
      case b == 2 =>
      case b == 3 =>
    }
  }

  lemma Rev16IsWord(t: int)
    ensures IsWord(32, Rev16(t))
  {
    BswapIsWord(4, t);
    RorIsWord(32, Bswap(4, t), 16);
  }

  lemma Rev16Bit(t: int, i: nat)
    requires i < 32
    ensures Bit(Rev16(t), i) == Bit(t, OtherByte(i))
  {
    BswapIsWord(4, t);
    RorBit(32, Bswap(4, t), 16, i);
    BswapBit(4, t, (i + 16) % 32);
    OtherByteOfFour(i);
  }

  lemma HalfwordBit(x: int, y: int, h: nat, i: nat)
    requires i < 16 && Bit(y, 16 * h + i) == Bit(x, OtherByte(16 * h + i))
    ensures Bit(Trunc(16, Shr(y, 16 * h)), i) == Bit(Trunc(16, Shr(x, 16 * h)), MirrorByte(2, i))
  {
    OtherByteSplits(i, h);
    var j := MirrorByte(2, i);
    assert OtherByte(16 * h + i) == j + 16 * h;
    BitField(16, y, 16 * h, i);
    BitField(16, x, 16 * h, j);
  }

  /** If `y` is `x` with neighbouring bytes exchanged, each halfword of `y` is that of `x` reversed. */
  lemma HalfwordsSwapped(w: nat, x: int, y: int, h: nat)
    requires 16 * (h + 1) <= w
    requires forall j: nat :: j < w ==> Bit(y, j) == Bit(x, OtherByte(j))
    ensures Trunc(16, Shr(y, 16 * h)) == Bswap(2, Trunc(16, Shr(x, 16 * h)))
  {
    var fx, fy := Trunc(16, Shr(x, 16 * h)), Trunc(16, Shr(y, 16 * h));
    forall i: nat | i < 16 ensures Bit(fy, i) == Bit(fx, MirrorByte(2, i)) {
      HalfwordBit(x, y, h, i);
    }
    BswapByBits(2, fx, fy);
  }

  /** Byte reversal is the only word with mirrored bytes. */
  lemma BswapByBits(n: nat, x: int, y: int)
    requires IsWord(8 * n, y)
    requires forall i: nat :: i < 8 * n ==> Bit(y, i) == Bit(x, MirrorByte(n, i))
    ensures y == Bswap(n, x)
  {
    BswapIsWord(n, x);
    forall i: nat | i < 8 * n ensures Bit(y, i) == Bit(Bswap(n, x), i) {
      BswapBit(n, x, i);
    }
    WordExtensionality(8 * n, y, Bswap(n, x));
  }

  /** `__rev16` swaps the two bytes of each halfword. */
  lemma Rev16SwapsHalfwords(t: int, h: nat)
    requires IsWord(32, t) && h < 2
    ensures Trunc(16, Shr(Rev16(t), 16 * h)) == Bswap(2, Trunc(16, Shr(t, 16 * h)))
  {
    forall j: nat | j < 32 ensures Bit(Rev16(t), j) == Bit(t, OtherByte(j)) {
      Rev16Bit(t, j);
    }
    HalfwordsSwapped(32, t, Rev16(t), h);
  }

  /** Rotating before the byte reversal gives the same word as rotating after it. */
  lemma Rev16EitherOrder(t: int)
    requires IsWord(32, t)
    ensures Rev16(t) == Bswap(4, Ror(32, t, 16))
  {
    var r := Ror(32, t, 16);
    Rev16IsWord(t);
    forall i: nat | i < 32 ensures Bit(Rev16(t), i) == Bit(r, MirrorByte(4, i)) {
      Rev16Bit(t, i);
      var j := MirrorByte(4, i);
      RorBit(32, t, 16, j);
      assert (j + 16) % 32 == OtherByte(i) by { OtherByteOfFour(i); }
    }
    BswapByBits(4, r, Rev16(t));
  }

  /** A word whose bits are those of `x` after exchanging neighbouring bytes twice is `x`. */
  lemma OtherByteTwice(w: nat, x: int, y: int, z: int)
    requires w % 16 == 0 && IsWord(w, x) && IsWord(w, z)
    requires forall j: nat :: j < w ==> Bit(y, j) == Bit(x, OtherByte(j))
    requires forall j: nat :: j < w ==> Bit(z, j) == Bit(y, OtherByte(j))
    ensures z == x
  {
    forall i: nat | i < w ensures Bit(z, i) == Bit(x, i) {
      OtherByteSplits(i, w / 16);
      OtherByteInvolution(i);
    }
    WordExtensionality(w, z, x);
  }

  lemma Rev16Involution(t: int)
    requires IsWord(32, t)
    ensures Rev16(Rev16(t)) == t
  {
    var y := Rev16(t);
    Rev16IsWord(y);
    forall j: nat | j < 32 ensures Bit(y, j) == Bit(t, OtherByte(j)) && Bit(Rev16(y), j) == Bit(y, OtherByte(j)) {
      Rev16Bit(t, j);
      Rev16Bit(y, j);
    }
    OtherByteTwice(32, t, y, Rev16(y));
  }

  /** Bits of the `(hi << 32) | lo` idiom for two 32-bit words. */
  lemma PairBit(hi: int, lo: int, i: nat)
    requires IsWord(32, hi) && IsWord(32, lo) && i < 64
    ensures Bit(Or(64, Shl(64, hi, 32), lo), i) == if i < 32 then Bit(lo, i) else Bit(hi, i - 32)
  {
    BitBitwise(Either, 64, Shl(64, hi, 32), lo, i);
    BitShl(64, hi, 32, i);
    if i >= 32 {
      BitBeyond(32, lo, i);
    }
  }

  lemma Rev16llBit(t: int, i: nat)
    requires i < 64
    ensures Bit(Rev16ll(t), i) == Bit(t, OtherByte(i))
  {
    var hi, lo := Trunc(32, Shr(t, 32)), Trunc(32, t);
    Rev16IsWord(hi);
    Rev16IsWord(lo);
    PairBit(Rev16(hi), Rev16(lo), i);
    if i < 32 {
      OtherByteSplits(i, 2);
      Rev16Bit(lo, i);
      BitTrunc(32, t, OtherByte(i));
    } else {
      OtherByteSplits(i - 32, 2);
      Rev16Bit(hi, i - 32);
      BitField(32, t, 32, OtherByte(i - 32));
    }
  }

  /** `__rev16ll` swaps the two bytes of each of the four halfwords. */
  lemma Rev16llSwapsHalfwords(t: int, h: nat)
    requires IsWord(64, t) && h < 4
    ensures Trunc(16, Shr(Rev16ll(t), 16 * h)) == Bswap(2, Trunc(16, Shr(t, 16 * h)))
  {
    forall j: nat | j < 64 ensures Bit(Rev16ll(t), j) == Bit(t, OtherByte(j)) {
      Rev16llBit(t, j);
    }
    HalfwordsSwapped(64, t, Rev16ll(t), h);
  }

  lemma Rev16llInvolution(t: int)
    requires IsWord(64, t)
    ensures Rev16ll(Rev16ll(t)) == t
  {
    var y := Rev16ll(t);
    forall j: nat | j < 64 ensures Bit(y, j) == Bit(t, OtherByte(j)) && Bit(Rev16ll(y), j) == Bit(y, OtherByte(j)) {
      Rev16llBit(t, j);
      Rev16llBit(y, j);
    }
    OtherByteTwice(64, t, y, Rev16ll(y));
  }

  /** Two 32-bit reversals with the halves exchanged are the 64-bit reversal. */
  lemma Rbitll32IsReversal(t: int)
    requires IsWord(64, t)
    ensures Rbitll32(t) == Rbit(64, t)
  {
    var lo, hi := Trunc(32, t), Trunc(32, Shr(t, 32));
    RbitIsWord(32, lo);
    RbitIsWord(32, hi);
    RbitIsWord(64, t);
    forall i: nat | i < 64 ensures Bit(Rbitll32(t), i) == Bit(Rbit(64, t), i) {
      PairBit(Rbit(32, lo), Rbit(32, hi), i);
      RbitBit(64, t, i);
      if i < 32 {
        RbitBit(32, hi, i);
        BitField(32, t, 32, 31 - i);
      } else {
        RbitBit(32, lo, i - 32);
        BitTrunc(32, t, 63 - i);
      }
    }
    WordExtensionality(64, Rbitll32(t), Rbit(64, t));
  }
}
