/** The unpack (interleave) intrinsics on 512-bit and 256-bit vectors.

    A vector is the sequence of its lanes, lane 0 first.  Each intrinsic is one two-operand shuffle
    with a constant index list, written out as in the header and grouped by 128-bit block.  The
    theorem about repeated unpacking holds for blocks of any power-of-two size and any number of
    blocks. */
module Unpack {
  import opened Words
  import opened DataProcessing

  /** Lane `j` of the two operands laid end to end. */
  function Operand<T>(a: seq<T>, b: seq<T>, j: nat): T
    requires j < |a| + |b|
  {
    if j < |a| then a[j] else b[j - |a|]
  }

  predicate InRange(indices: seq<nat>, bound: nat) {
    forall k :: 0 <= k < |indices| ==> indices[k] < bound
  }

  /** `__builtin_shufflevector(a, b, indices...)`. */
  function Shuffle<T>(a: seq<T>, b: seq<T>, indices: seq<nat>): (r: seq<T>)
    requires InRange(indices, |a| + |b|)
  {
    seq(|indices|, k requires 0 <= k < |indices| => Operand(a, b, indices[k]))
  }

  /** The lanes of `x` and `y`, alternately. */
  function Interleave<T>(x: seq<T>, y: seq<T>): (r: seq<T>)
    requires |x| == |y|
    ensures |r| == 2 * |x|
  {
    if x == [] then [] else [x[0], y[0]] + Interleave(x[1..], y[1..])
  }

  lemma {:induction false} InterleaveAt<T>(x: seq<T>, y: seq<T>, q: nat)
    requires |x| == |y| && q < 2 * |x|
    ensures Interleave(x, y)[q] == if q % 2 == 0 then x[q / 2] else y[q / 2]
    decreases |x|
  {
    if q >= 2 {
      InterleaveAt(x[1..], y[1..], q - 2);
      assert (q - 2) / 2 == q / 2 - 1;
    }
  }

  lemma {:induction false} InterleaveAppend<T>(x: seq<T>, y: seq<T>, u: seq<T>, v: seq<T>)
    requires |x| == |y| && |u| == |v|
    ensures Interleave(x + u, y + v) == Interleave(x, y) + Interleave(u, v)
    decreases |x|
  {
    if x == [] {
      assert x + u == u && y + v == v;
    } else {
      var xu, yv := x + u, y + v;
      InterleaveAppend(x[1..], y[1..], u, v);
      assert xu[1..] == x[1..] + u && yv[1..] == y[1..] + v;
      assert Interleave(xu, yv) == [x[0], y[0]] + (Interleave(x[1..], y[1..]) + Interleave(u, v));
    }
  }

  lemma {:induction false} InterleaveConserves<T>(x: seq<T>, y: seq<T>)
    requires |x| == |y|
    ensures multiset(Interleave(x, y)) == multiset(x) + multiset(y)
    decreases |x|
  {
    if x != [] {
      var r := Interleave(x[1..], y[1..]);
      InterleaveConserves(x[1..], y[1..]);
      HeadConserves(x);
      HeadConserves(y);
      assert multiset([x[0], y[0]] + r) == (multiset{x[0]} + multiset{y[0]}) + multiset(r);
      Exchange(multiset{x[0]}, multiset{y[0]}, multiset(x[1..]), multiset(y[1..]));
    }
  }

  lemma HeadConserves<T>(x: seq<T>)
    requires x != []
    ensures multiset(x) == multiset{x[0]} + multiset(x[1..])
  {
    assert x == [x[0]] + x[1..];
  }

  lemma Exchange<T>(p: multiset<T>, q: multiset<T>, r: multiset<T>, s: multiset<T>)
    ensures (p + q) + (r + s) == (p + r) + (q + s)
  {
  }

  // ----- what the intrinsics compute

  /** A vector as its 128-bit blocks, and two vectors of as many blocks of `2h` lanes each. */
  type Blocks<T> = seq<seq<T>>

  predicate Paired<T>(a: Blocks<T>, b: Blocks<T>, h: nat) {
    && |a| == |b|
    && (forall i :: 0 <= i < |a| ==> |a[i]| == 2 * h)
    && (forall i :: 0 <= i < |b| ==> |b[i]| == 2 * h)
  }

  /** All lanes of a vector. */
  function Lanes<T>(a: Blocks<T>): seq<T> {
    if a == [] then [] else Lanes(a[..|a| - 1]) + a[|a| - 1]
  }

  /** The lower halves of the blocks of `a` and `b`, interleaved block by block. */
  function UnpackLo<T>(a: Blocks<T>, b: Blocks<T>, h: nat): (r: Blocks<T>)
    requires Paired(a, b, h)
    ensures |r| == |a|
    ensures forall i :: 0 <= i < |r| ==> |r[i]| == 2 * h
  {
    seq(|a|, i requires 0 <= i < |a| => Interleave(a[i][..h], b[i][..h]))
  }

  /** The upper halves of the blocks of `a` and `b`, interleaved block by block. */
  function UnpackHi<T>(a: Blocks<T>, b: Blocks<T>, h: nat): (r: Blocks<T>)
    requires Paired(a, b, h)
    ensures |r| == |a|
    ensures forall i :: 0 <= i < |r| ==> |r[i]| == 2 * h
  {
    seq(|a|, i requires 0 <= i < |a| => Interleave(a[i][h..], b[i][h..]))
  }

  /** The two unpacked vectors together hold exactly the lanes of the two operands. */
  lemma {:induction false} UnpackConserves<T>(a: Blocks<T>, b: Blocks<T>, h: nat)
    requires Paired(a, b, h)
    ensures multiset(Lanes(UnpackLo(a, b, h))) + multiset(Lanes(UnpackHi(a, b, h))) ==
            multiset(Lanes(a)) + multiset(Lanes(b))
    decreases |a|
  {
    if a != [] {
      var n := |a| - 1;
      var x, y := a[n], b[n];
      var lo, hi := UnpackLo(a[..n], b[..n], h), UnpackHi(a[..n], b[..n], h);
      UnpackConserves(a[..n], b[..n], h);
      assert UnpackLo(a, b, h)[..n] == lo && UnpackHi(a, b, h)[..n] == hi;
      InterleaveConserves(x[..h], y[..h]);
      InterleaveConserves(x[h..], y[h..]);
      SplitConserves(x, h);
      SplitConserves(y, h);
      Regroup(multiset(Lanes(lo)), multiset(Lanes(hi)), multiset(Lanes(a[..n])), multiset(Lanes(b[..n])),
              multiset(x[..h]), multiset(x[h..]), multiset(y[..h]), multiset(y[h..]));
    }
  }

  lemma SplitConserves<T>(x: seq<T>, h: nat)
    requires h <= |x|
    ensures multiset(x) == multiset(x[..h]) + multiset(x[h..])
  {
    assert x == x[..h] + x[h..];
  }

  lemma Regroup<T>(lo: multiset<T>, hi: multiset<T>, a: multiset<T>, b: multiset<T>,
                   x0: multiset<T>, x1: multiset<T>, y0: multiset<T>, y1: multiset<T>)
    requires lo + hi == a + b
    ensures (lo + (x0 + y0)) + (hi + (x1 + y1)) == (a + (x0 + x1)) + (b + (y0 + y1))
  {
    var x, y := x0 + x1, y0 + y1;
    assert (lo + (x0 + y0)) + (hi + (x1 + y1)) == (lo + hi) + (x + y);
    assert (a + x) + (b + y) == (a + b) + (x + y);
  }

  // ----- repeated unpacking of one block is a rotation of index bits

  /** One unpack step on one block of each operand, laid end to end: a perfect shuffle of `2l` lanes. */
  function Riffle<T>(d: seq<T>, l: nat): (r: seq<T>)
    requires |d| == 2 * l
    ensures |r| == 2 * l
  {
    Interleave(d[..l], d[l..])
  }

  function Riffles<T>(d: seq<T>, l: nat, k: nat): (r: seq<T>)
    requires |d| == 2 * l
    ensures |r| == 2 * l
  {
    if k == 0 then d else Riffle(Riffles(d, l, k - 1), l)
  }

  /** Rotating an index of `m` bits by one halves it and moves its low bit to the top. */
  lemma RorByOne(m: nat, q: nat)
    requires m >= 1 && IsWord(m, q)
    ensures Ror(m, q, 1) == q / 2 + if q % 2 == 1 then Pow2(m - 1) else 0
  {
    if m > 1 {
      var r := Concat(m - 1, q % 2, q / 2);
      ConcatIsWord(1, m - 1, q % 2, q / 2);
      RorIsWord(m, q, 1);
      forall i: nat | i < m ensures Bit(Ror(m, q, 1), i) == Bit(r, i) {
        RorBitByOne(m, q, i);
        BitConcat(m - 1, q % 2, q / 2, i);
      }
      WordExtensionality(m, Ror(m, q, 1), r);
    }
  }

  lemma RorBitByOne(m: nat, q: nat, i: nat)
    requires m > 1 && IsWord(m, q) && i < m
    ensures Bit(Ror(m, q, 1), i) == Bit(q, if i < m - 1 then i + 1 else 0)
  {
    RorBit(m, q, 1, i);
    DivModUnique(1, m, 0, 1);
    IndexSum(m, i, 1);
  }

  lemma RiffleRotatesIndex<T>(d: seq<T>, m: nat, q: nat)
    requires m >= 1 && |d| == Pow2(m) && q < Pow2(m)
    ensures IsWord(m, Ror(m, q, 1))
    ensures Riffle(d, Pow2(m - 1))[q] == d[Ror(m, q, 1)]
  {
    var l := Pow2(m - 1);
    RorIsWord(m, q, 1);
    RorByOne(m, q);
    InterleaveAt(d[..l], d[l..], q);
  }

  /** `k` steps bring to lane `q` the lane whose index is `q` with its `m` bits rotated by `k`. */
  lemma {:induction false} RifflesRotateIndex<T>(d: seq<T>, m: nat, k: nat, q: nat)
    requires m >= 1 && |d| == Pow2(m) && q < Pow2(m)
    ensures IsWord(m, Ror(m, q, k))
    ensures Riffles(d, Pow2(m - 1), k)[q] == d[Ror(m, q, k)]
    decreases k
  {
    RorIsWord(m, q, k);
    if k == 0 {
      assert Ror(m, q, 0) == q by { DivModUnique(0, m, 0, 0); }
    } else {
      var e := Riffles(d, Pow2(m - 1), k - 1);
      var j := Ror(m, q, 1);
      RiffleRotatesIndex(e, m, q);
      RifflesRotateIndex(d, m, k - 1, j);
      assert Ror(m, j, k - 1) == Ror(m, q, k) by { RorCompose(m, q, 1, k - 1); }
    }
  }

  lemma RifflesCycle<T>(d: seq<T>, m: nat)
    requires m >= 1 && |d| == Pow2(m)
    ensures Riffles(d, Pow2(m - 1), m) == d
  {
    forall q | 0 <= q < |d| ensures Riffles(d, Pow2(m - 1), m)[q] == d[q] {
      RifflesRotateIndex(d, m, m, q);
      DivModUnique(m, m, 1, 0);
    }
  }

  // ----- repeated unpacking of whole vectors

  /** `k` times the pair of intrinsics: both operands replaced by their two unpacked vectors. */
  function Steps<T>(a: Blocks<T>, b: Blocks<T>, h: nat, k: nat): (r: (Blocks<T>, Blocks<T>))
    requires Paired(a, b, h)
    ensures Paired(r.0, r.1, h) && |r.0| == |a|
  {
    if k == 0 then (a, b) else
      var s := Steps(a, b, h, k - 1);
      (UnpackLo(s.0, s.1, h), UnpackHi(s.0, s.1, h))
  }

  lemma RiffleHalves<T>(x: seq<T>, y: seq<T>, h: nat)
    requires |x| == |y| == 2 * h
    ensures Riffle(x + y, 2 * h) == Interleave(x[..h], y[..h]) + Interleave(x[h..], y[h..])
  {
    assert (x + y)[..2 * h] == x && (x + y)[2 * h..] == y;
    assert x == x[..h] + x[h..] && y == y[..h] + y[h..];
    InterleaveAppend(x[..h], y[..h], x[h..], y[h..]);
  }

  /** In every block, `k` steps are `k` perfect shuffles of that block of both operands. */
  lemma {:induction false} StepsByBlock<T>(a: Blocks<T>, b: Blocks<T>, h: nat, k: nat, i: nat)
    requires Paired(a, b, h) && i < |a|
    ensures Steps(a, b, h, k).0[i] + Steps(a, b, h, k).1[i] == Riffles(a[i] + b[i], 2 * h, k)
    decreases k
  {
    if k > 0 {
      var s := Steps(a, b, h, k - 1);
      StepsByBlock(a, b, h, k - 1, i);
      RiffleHalves(s.0[i], s.1[i], h);
    }
  }

  /** With blocks of `2h = 2^(m-1)` lanes, `m` steps restore both vectors. */
  lemma StepsCycle<T>(a: Blocks<T>, b: Blocks<T>, h: nat, m: nat)
    requires m >= 2 && 2 * h == Pow2(m - 1) && Paired(a, b, h)
    ensures Steps(a, b, h, m) == (a, b)
  {
    var s := Steps(a, b, h, m);
    forall i | 0 <= i < |a| ensures s.0[i] == a[i] && s.1[i] == b[i] {
      StepsByBlock(a, b, h, m, i);
      RifflesCycle(a[i] + b[i], m);
      SameParts(s.0[i], s.1[i], a[i], b[i]);
    }
    assert s.0 == a && s.1 == b;
  }

  lemma SameParts<T>(x: seq<T>, y: seq<T>, u: seq<T>, v: seq<T>)
    requires x + y == u + v && |x| == |u|
    ensures x == u && y == v
  {
    assert x == (x + y)[..|x|] && y == (x + y)[|x|..];
    assert u == (u + v)[..|u|] && v == (u + v)[|u|..];
  }

  lemma {:induction false} StepsFirst<T>(a: Blocks<T>, b: Blocks<T>, h: nat, k: nat)
    requires Paired(a, b, h)
    ensures Steps(UnpackLo(a, b, h), UnpackHi(a, b, h), h, k) == Steps(a, b, h, k + 1)
    decreases k
  {
    if k > 0 {
      StepsFirst(a, b, h, k - 1);
    } else {
      assert Steps(a, b, h, 0) == (a, b);
    }
  }

  /** One step is undone by `m - 1` further steps. */
  lemma StepsUndo<T>(a: Blocks<T>, b: Blocks<T>, h: nat, m: nat)
    requires m >= 2 && 2 * h == Pow2(m - 1) && Paired(a, b, h)
    ensures Steps(UnpackLo(a, b, h), UnpackHi(a, b, h), h, m - 1) == (a, b)
  {
    StepsFirst(a, b, h, m - 1);
    StepsCycle(a, b, h, m);
  }

  // ----- from index lists to blocks

  /** Indices that alternate `h` lanes of each operand, from lane `base` on; `w` is the lane count. */
  function Row(w: nat, base: nat, h: nat): (r: seq<nat>)
    ensures |r| == 2 * h
  {
    seq(2 * h, i requires 0 <= i < 2 * h => (if i % 2 == 0 then 0 else w) + base + i / 2)
  }

  /** First lane of block `i`. */
  function Start(h: nat, i: nat): nat {
    if i == 0 then 0 else Start(h, i - 1) + 2 * h
  }

  /** The rows for the first `n` blocks, each starting `off` lanes into its block. */
  function UnpackRows(w: nat, h: nat, n: nat, off: nat): (rows: Blocks<nat>) {
    if n == 0 then [] else UnpackRows(w, h, n - 1, off) + [Row(w, Start(h, n - 1) + off, h)]
  }

  lemma {:induction false} LaneCount<T>(a: Blocks<T>, h: nat)
    requires forall j :: 0 <= j < |a| ==> |a[j]| == 2 * h
    ensures |Lanes(a)| == Start(h, |a|)
    decreases |a|
  {
    if a != [] {
      LaneCount(a[..|a| - 1], h);
    }
  }

  /** Block `i` of a vector occupies the lanes from `first`, which is `Start(h, i)`, up to `end`. */
  lemma {:induction false} LanesOfBlock<T>(a: Blocks<T>, h: nat, i: nat, first: nat, end: nat)
    requires (forall j :: 0 <= j < |a| ==> |a[j]| == 2 * h) && i < |a|
    requires first == Start(h, i) && end == first + 2 * h
    ensures end <= |Lanes(a)| && Lanes(a)[first..end] == a[i]
    decreases |a|
  {
    var n := |a| - 1;
    var m := Lanes(a[..n]);
    if i < n {
      LanesOfBlock(a[..n], h, i, first, end);
    } else {
      LaneCount(a[..n], h);
    }
    SliceOfAppend(m, a[n], first, end);
  }

  lemma SliceOfAppend<T>(x: seq<T>, y: seq<T>, p: nat, q: nat)
    requires p <= q <= |x| + |y|
    ensures q <= |x| ==> (x + y)[p..q] == x[p..q]
    ensures p == |x| && q == |x| + |y| ==> (x + y)[p..q] == y
  {
  }

  lemma ShuffleAppend<T>(a: seq<T>, b: seq<T>, x: seq<nat>, y: seq<nat>)
    requires InRange(x, |a| + |b|) && InRange(y, |a| + |b|)
    ensures InRange(x + y, |a| + |b|)
    ensures Shuffle(a, b, x + y) == Shuffle(a, b, x) + Shuffle(a, b, y)
  {
  }

  lemma SliceOfSlice<T>(a: seq<T>, i: nat, j: nat, p: nat, q: nat)
    requires i <= j <= |a| && p <= q <= j - i
    ensures a[i + p..i + q] == a[i..j][p..q]
  {
    forall k | 0 <= k < q - p ensures a[i + p..i + q][k] == a[i..j][p..q][k] {
    }
  }

  /** The part of block `i` that starts `off` lanes into it. */
  lemma PartOfBlock<T>(a: Blocks<T>, h: nat, i: nat, off: nat, base: nat)
    requires (forall j :: 0 <= j < |a| ==> |a[j]| == 2 * h) && i < |a| && off <= h && base == Start(h, i) + off
    ensures base + h <= |Lanes(a)|
    ensures Lanes(a)[base..base + h] == a[i][off..off + h]
  {
    var first, end := Start(h, i), Start(h, i) + 2 * h;
    LanesOfBlock(a, h, i, first, end);
    SliceOfSlice(Lanes(a), first, end, off, off + h);
  }

  ghost predicate Gives<T>(u: seq<T>, v: seq<T>, indices: seq<nat>, x: seq<T>) {
    InRange(indices, |u| + |v|) && Shuffle(u, v, indices) == x
  }

  lemma ShuffleRow<T>(u: seq<T>, v: seq<T>, base: nat, h: nat, x: seq<T>, y: seq<T>)
    requires |u| == |v| && base + h <= |u| && x == u[base..base + h] && y == v[base..base + h]
    ensures Gives(u, v, Row(|u|, base, h), Interleave(x, y))
  {
    var row := Row(|u|, base, h);
    forall k | 0 <= k < 2 * h ensures row[k] < |u| + |v| && Operand(u, v, row[k]) == Interleave(x, y)[k] {
      InterleaveAt(x, y, k);
    }
  }

  /** Shuffling by several rows gives one block after the other. */
  lemma {:induction false} ShuffleByRows<T>(u: seq<T>, v: seq<T>, rows: Blocks<nat>, r: Blocks<T>)
    requires |rows| == |r|
    requires forall i :: 0 <= i < |rows| ==> Gives(u, v, rows[i], r[i])
    ensures Gives(u, v, Lanes(rows), Lanes(r))
    decreases |rows|
  {
    if rows != [] {
      var n := |rows| - 1;
      ShuffleByRows(u, v, rows[..n], r[..n]);
      ShuffleAppend(u, v, Lanes(rows[..n]), rows[n]);
    }
  }

  lemma {:induction false} UnpackRowsAt(w: nat, h: nat, n: nat, off: nat, i: nat)
    requires i < n
    ensures |UnpackRows(w, h, n, off)| == n
    ensures UnpackRows(w, h, n, off)[i] == Row(w, Start(h, i) + off, h)
    decreases n
  {
    if n > 1 {
      UnpackRowsAt(w, h, n - 1, off, if i < n - 1 then i else 0);
    }
  }

  lemma ShuffleOneBlock<T>(a: Blocks<T>, b: Blocks<T>, h: nat, i: nat, off: nat)
    requires Paired(a, b, h) && i < |a| && off <= h && |Lanes(a)| == |Lanes(b)|
    ensures Gives(Lanes(a), Lanes(b), Row(|Lanes(a)|, Start(h, i) + off, h),
                  Interleave(a[i][off..off + h], b[i][off..off + h]))
  {
    var u, v, base := Lanes(a), Lanes(b), Start(h, i) + off;
    var x, y := a[i][off..off + h], b[i][off..off + h];
    PartOfBlock(a, h, i, off, base);
    PartOfBlock(b, h, i, off, base);
    ShuffleRow(u, v, base, h, x, y);
  }

  function UnpackHalf<T>(a: Blocks<T>, b: Blocks<T>, h: nat, off: nat): (r: Blocks<T>)
    requires Paired(a, b, h) && (off == 0 || off == h)
    ensures |r| == |a|
    ensures forall i :: 0 <= i < |r| ==> r[i] == Interleave(a[i][off..off + h], b[i][off..off + h])
  {
    assert forall i :: 0 <= i < |a| ==> a[i][0..h] == a[i][..h] && b[i][0..h] == b[i][..h];
    assert forall i :: 0 <= i < |a| ==> a[i][h..h + h] == a[i][h..] && b[i][h..h + h] == b[i][h..];
    if off == 0 then UnpackLo(a, b, h) else UnpackHi(a, b, h)
  }

  lemma RowsGiveUnpack<T>(a: Blocks<T>, b: Blocks<T>, h: nat, n: nat, w: nat, off: nat, rows: Blocks<nat>)
    requires h > 0 && Paired(a, b, h) && n == |a| && (off == 0 || off == h)
    requires w == Start(h, n) && rows == UnpackRows(w, h, n, off) && |Lanes(a)| == |Lanes(b)| == w
    ensures |rows| == n && |UnpackHalf(a, b, h, off)| == n
    ensures forall i: nat :: i < n ==> Gives(Lanes(a), Lanes(b), rows[i], UnpackHalf(a, b, h, off)[i])
  {
    var r := UnpackHalf(a, b, h, off);
    if n > 0 {
      UnpackRowsAt(w, h, n, off, 0);
    }
    forall i: nat | i < n ensures Gives(Lanes(a), Lanes(b), rows[i], r[i]) {
      assert rows[i] == Row(w, Start(h, i) + off, h) by { UnpackRowsAt(w, h, n, off, i); }
      assert r[i] == Interleave(a[i][off..off + h], b[i][off..off + h]);
      ShuffleOneBlock(a, b, h, i, off);
    }
  }

  /** An index list made of the rows of every block computes an unpack: of the lower halves for
      `off == 0`, of the upper halves for `off == h`. */
  lemma ShuffleIsUnpack<T>(a: Blocks<T>, b: Blocks<T>, h: nat, n: nat, w: nat, off: nat, rows: Blocks<nat>)
    requires h > 0 && Paired(a, b, h) && n == |a| && (off == 0 || off == h)
    requires w == Start(h, n) && rows == UnpackRows(w, h, n, off)
    ensures |Lanes(a)| == |Lanes(b)| == w
    ensures InRange(Lanes(rows), w + w)
    ensures Shuffle(Lanes(a), Lanes(b), Lanes(rows)) == Lanes(UnpackHalf(a, b, h, off))
  {
    LaneCount(a, h);
    LaneCount(b, h);
    RowsGiveUnpack(a, b, h, n, w, off, rows);
    ShuffleByRows(Lanes(a), Lanes(b), rows, UnpackHalf(a, b, h, off));
  }

  // ----- the row patterns at each lane width of a 128-bit block

  lemma RowEpi64(w: nat, p: nat)
    ensures Row(w, p, 1) == [p, w + p]
  {
  }

  lemma RowEpi32(w: nat, p: nat)
    ensures Row(w, p, 2) == [p, w + p, p + 1, w + (p + 1)]
  {
  }

  lemma RowEpi16(w: nat, p: nat)
    ensures Row(w, p, 4) == [p, w + p, p + 1, w + (p + 1), p + 2, w + (p + 2), p + 3, w + (p + 3)]
  {
  }

  lemma RowEpi8(w: nat, p: nat)
    ensures Row(w, p, 8) == [p, w + p, p + 1, w + (p + 1), p + 2, w + (p + 2), p + 3, w + (p + 3),
                             p + 4, w + (p + 4), p + 5, w + (p + 5), p + 6, w + (p + 6), p + 7, w + (p + 7)]
  {
  }

  // ----- the intrinsics

  const MM512_UNPACKLO_EPI8: seq<seq<nat>> :=
    [[0, 64 + 0, 1, 64 + 1, 2, 64 + 2, 3, 64 + 3, 4, 64 + 4, 5, 64 + 5, 6, 64 + 6, 7, 64 + 7],
     [16, 64 + 16, 17, 64 + 17, 18, 64 + 18, 19, 64 + 19, 20, 64 + 20, 21, 64 + 21, 22, 64 + 22, 23, 64 + 23],
     [32, 64 + 32, 33, 64 + 33, 34, 64 + 34, 35, 64 + 35, 36, 64 + 36, 37, 64 + 37, 38, 64 + 38, 39, 64 + 39],
     [48, 64 + 48, 49, 64 + 49, 50, 64 + 50, 51, 64 + 51, 52, 64 + 52, 53, 64 + 53, 54, 64 + 54, 55, 64 + 55]]

  const MM512_UNPACKHI_EPI8: seq<seq<nat>> :=
    [[8, 64 + 8, 9, 64 + 9, 10, 64 + 10, 11, 64 + 11, 12, 64 + 12, 13, 64 + 13, 14, 64 + 14, 15, 64 + 15],
     [24, 64 + 24, 25, 64 + 25, 26, 64 + 26, 27, 64 + 27, 28, 64 + 28, 29, 64 + 29, 30, 64 + 30, 31, 64 + 31],
     [40, 64 + 40, 41, 64 + 41, 42, 64 + 42, 43, 64 + 43, 44, 64 + 44, 45, 64 + 45, 46, 64 + 46, 47, 64 + 47],
     [56, 64 + 56, 57, 64 + 57, 58, 64 + 58, 59, 64 + 59, 60, 64 + 60, 61, 64 + 61, 62, 64 + 62, 63, 64 + 63]]

  lemma Mm512UnpackLoEpi8<T>(a: Blocks<T>, b: Blocks<T>)
    requires Paired(a, b, 8) && |a| == 4
    ensures |Lanes(a)| == |Lanes(b)| == 64
    ensures InRange(Lanes(MM512_UNPACKLO_EPI8), 128)
    ensures Shuffle(Lanes(a), Lanes(b), Lanes(MM512_UNPACKLO_EPI8)) == Lanes(UnpackLo(a, b, 8))
  {
    assert MM512_UNPACKLO_EPI8 == UnpackRows(64, 8, 4, 0) by {
      RowEpi8(64, 0);
      RowEpi8(64, 16);
      RowEpi8(64, 32);
      RowEpi8(64, 48);
    }
    ShuffleIsUnpack(a, b, 8, 4, 64, 0, MM512_UNPACKLO_EPI8);
  }

  lemma Mm512UnpackHiEpi8<T>(a: Blocks<T>, b: Blocks<T>)
    requires Paired(a, b, 8) && |a| == 4
    ensures |Lanes(a)| == |Lanes(b)| == 64
    ensures InRange(Lanes(MM512_UNPACKHI_EPI8), 128)
    ensures Shuffle(Lanes(a), Lanes(b), Lanes(MM512_UNPACKHI_EPI8)) == Lanes(UnpackHi(a, b, 8))
  {
    assert MM512_UNPACKHI_EPI8 == UnpackRows(64, 8, 4, 8) by {
      RowEpi8(64, 8);
      RowEpi8(64, 24);
      RowEpi8(64, 40);
      RowEpi8(64, 56);
    }
    ShuffleIsUnpack(a, b, 8, 4, 64, 8, MM512_UNPACKHI_EPI8);
  }

  const MM512_UNPACKLO_EPI16: seq<seq<nat>> :=
    [[0, 32 + 0, 1, 32 + 1, 2, 32 + 2, 3, 32 + 3],
     [8, 32 + 8, 9, 32 + 9, 10, 32 + 10, 11, 32 + 11],
     [16, 32 + 16, 17, 32 + 17, 18, 32 + 18, 19, 32 + 19],
     [24, 32 + 24, 25, 32 + 25, 26, 32 + 26, 27, 32 + 27]]

  const MM512_UNPACKHI_EPI16: seq<seq<nat>> :=
    [[4, 32 + 4, 5, 32 + 5, 6, 32 + 6, 7, 32 + 7],
     [12, 32 + 12, 13, 32 + 13, 14, 32 + 14, 15, 32 + 15],
     [20, 32 + 20, 21, 32 + 21, 22, 32 + 22, 23, 32 + 23],
     [28, 32 + 28, 29, 32 + 29, 30, 32 + 30, 31, 32 + 31]]

  lemma Mm512UnpackLoEpi16<T>(a: Blocks<T>, b: Blocks<T>)
    requires Paired(a, b, 4) && |a| == 4
    ensures |Lanes(a)| == |Lanes(b)| == 32
    ensures InRange(Lanes(MM512_UNPACKLO_EPI16), 64)
    ensures Shuffle(Lanes(a), Lanes(b), Lanes(MM512_UNPACKLO_EPI16)) == Lanes(UnpackLo(a, b, 4))
  {
    assert MM512_UNPACKLO_EPI16 == UnpackRows(32, 4, 4, 0) by {
      RowEpi16(32, 0);
      RowEpi16(32, 8);
      RowEpi16(32, 16);
      RowEpi16(32, 24);
    }
    ShuffleIsUnpack(a, b, 4, 4, 32, 0, MM512_UNPACKLO_EPI16);
  }

  lemma Mm512UnpackHiEpi16<T>(a: Blocks<T>, b: Blocks<T>)
    requires Paired(a, b, 4) && |a| == 4
    ensures |Lanes(a)| == |Lanes(b)| == 32
    ensures InRange(Lanes(MM512_UNPACKHI_EPI16), 64)
    ensures Shuffle(Lanes(a), Lanes(b), Lanes(MM512_UNPACKHI_EPI16)) == Lanes(UnpackHi(a, b, 4))
  {
    assert MM512_UNPACKHI_EPI16 == UnpackRows(32, 4, 4, 4) by {
      RowEpi16(32, 4);
      RowEpi16(32, 12);
      RowEpi16(32, 20);
      RowEpi16(32, 28);
    }
    ShuffleIsUnpack(a, b, 4, 4, 32, 4, MM512_UNPACKHI_EPI16);
  }

  const MM512_UNPACKLO_EPI32: seq<seq<nat>> :=
    [[0, 16 + 0, 1, 16 + 1],
     [4, 16 + 4, 5, 16 + 5],
     [8, 16 + 8, 9, 16 + 9],
     [12, 16 + 12, 13, 16 + 13]]

  const MM512_UNPACKHI_EPI32: seq<seq<nat>> :=
    [[2, 16 + 2, 3, 16 + 3],
     [6, 16 + 6, 7, 16 + 7],
     [10, 16 + 10, 11, 16 + 11],
     [14, 16 + 14, 15, 16 + 15]]

  lemma Mm512UnpackLoEpi32<T>(a: Blocks<T>, b: Blocks<T>)
    requires Paired(a, b, 2) && |a| == 4
    ensures |Lanes(a)| == |Lanes(b)| == 16
    ensures InRange(Lanes(MM512_UNPACKLO_EPI32), 32)
    ensures Shuffle(Lanes(a), Lanes(b), Lanes(MM512_UNPACKLO_EPI32)) == Lanes(UnpackLo(a, b, 2))
  {
    assert MM512_UNPACKLO_EPI32 == UnpackRows(16, 2, 4, 0) by {
      RowEpi32(16, 0);
      RowEpi32(16, 4);
      RowEpi32(16, 8);
      RowEpi32(16, 12);
    }
    ShuffleIsUnpack(a, b, 2, 4, 16, 0, MM512_UNPACKLO_EPI32);
  }

  lemma Mm512UnpackHiEpi32<T>(a: Blocks<T>, b: Blocks<T>)
    requires Paired(a, b, 2) && |a| == 4
    ensures |Lanes(a)| == |Lanes(b)| == 16
    ensures InRange(Lanes(MM512_UNPACKHI_EPI32), 32)
    ensures Shuffle(Lanes(a), Lanes(b), Lanes(MM512_UNPACKHI_EPI32)) == Lanes(UnpackHi(a, b, 2))
  {
    assert MM512_UNPACKHI_EPI32 == UnpackRows(16, 2, 4, 2) by {
      RowEpi32(16, 2);
      RowEpi32(16, 6);
      RowEpi32(16, 10);
      RowEpi32(16, 14);
    }
    ShuffleIsUnpack(a, b, 2, 4, 16, 2, MM512_UNPACKHI_EPI32);
  }

  const MM512_UNPACKLO_EPI64: seq<seq<nat>> :=
    [[0, 8 + 0],
     [2, 8 + 2],
     [4, 8 + 4],
     [6, 8 + 6]]

  const MM512_UNPACKHI_EPI64: seq<seq<nat>> :=
    [[1, 8 + 1],
     [3, 8 + 3],
     [5, 8 + 5],
     [7, 8 + 7]]

  lemma Mm512UnpackLoEpi64<T>(a: Blocks<T>, b: Blocks<T>)
    requires Paired(a, b, 1) && |a| == 4
    ensures |Lanes(a)| == |Lanes(b)| == 8
    ensures InRange(Lanes(MM512_UNPACKLO_EPI64), 16)
    ensures Shuffle(Lanes(a), Lanes(b), Lanes(MM512_UNPACKLO_EPI64)) == Lanes(UnpackLo(a, b, 1))
  {
    assert MM512_UNPACKLO_EPI64 == UnpackRows(8, 1, 4, 0) by {
      RowEpi64(8, 0);
      RowEpi64(8, 2);
      RowEpi64(8, 4);
      RowEpi64(8, 6);
    }
    ShuffleIsUnpack(a, b, 1, 4, 8, 0, MM512_UNPACKLO_EPI64);
  }

  lemma Mm512UnpackHiEpi64<T>(a: Blocks<T>, b: Blocks<T>)
    requires Paired(a, b, 1) && |a| == 4
    ensures |Lanes(a)| == |Lanes(b)| == 8
    ensures InRange(Lanes(MM512_UNPACKHI_EPI64), 16)
    ensures Shuffle(Lanes(a), Lanes(b), Lanes(MM512_UNPACKHI_EPI64)) == Lanes(UnpackHi(a, b, 1))
  {
    assert MM512_UNPACKHI_EPI64 == UnpackRows(8, 1, 4, 1) by {
      RowEpi64(8, 1);
      RowEpi64(8, 3);
      RowEpi64(8, 5);
      RowEpi64(8, 7);
    }
    ShuffleIsUnpack(a, b, 1, 4, 8, 1, MM512_UNPACKHI_EPI64);
  }

  const MM256_UNPACKLO_EPI8: seq<seq<nat>> :=
    [[0, 32 + 0, 1, 32 + 1, 2, 32 + 2, 3, 32 + 3, 4, 32 + 4, 5, 32 + 5, 6, 32 + 6, 7, 32 + 7],
     [16, 32 + 16, 17, 32 + 17, 18, 32 + 18, 19, 32 + 19, 20, 32 + 20, 21, 32 + 21, 22, 32 + 22, 23, 32 + 23]]

  const MM256_UNPACKHI_EPI8: seq<seq<nat>> :=
    [[8, 32 + 8, 9, 32 + 9, 10, 32 + 10, 11, 32 + 11, 12, 32 + 12, 13, 32 + 13, 14, 32 + 14, 15, 32 + 15],
     [24, 32 + 24, 25, 32 + 25, 26, 32 + 26, 27, 32 + 27, 28, 32 + 28, 29, 32 + 29, 30, 32 + 30, 31, 32 + 31]]

  lemma Mm256UnpackLoEpi8<T>(a: Blocks<T>, b: Blocks<T>)
    requires Paired(a, b, 8) && |a| == 2
    ensures |Lanes(a)| == |Lanes(b)| == 32
    ensures InRange(Lanes(MM256_UNPACKLO_EPI8), 64)
    ensures Shuffle(Lanes(a), Lanes(b), Lanes(MM256_UNPACKLO_EPI8)) == Lanes(UnpackLo(a, b, 8))
  {
    assert MM256_UNPACKLO_EPI8 == UnpackRows(32, 8, 2, 0) by {
      RowEpi8(32, 0);
      RowEpi8(32, 16);
    }
    ShuffleIsUnpack(a, b, 8, 2, 32, 0, MM256_UNPACKLO_EPI8);
  }

  lemma Mm256UnpackHiEpi8<T>(a: Blocks<T>, b: Blocks<T>)
    requires Paired(a, b, 8) && |a| == 2
    ensures |Lanes(a)| == |Lanes(b)| == 32
    ensures InRange(Lanes(MM256_UNPACKHI_EPI8), 64)
    ensures Shuffle(Lanes(a), Lanes(b), Lanes(MM256_UNPACKHI_EPI8)) == Lanes(UnpackHi(a, b, 8))
  {
    assert MM256_UNPACKHI_EPI8 == UnpackRows(32, 8, 2, 8) by {
      RowEpi8(32, 8);
      RowEpi8(32, 24);
    }
    ShuffleIsUnpack(a, b, 8, 2, 32, 8, MM256_UNPACKHI_EPI8);
  }

  const MM256_UNPACKLO_EPI16: seq<seq<nat>> :=
    [[0, 16 + 0, 1, 16 + 1, 2, 16 + 2, 3, 16 + 3],
     [8, 16 + 8, 9, 16 + 9, 10, 16 + 10, 11, 16 + 11]]

  const MM256_UNPACKHI_EPI16: seq<seq<nat>> :=
    [[4, 16 + 4, 5, 16 + 5, 6, 16 + 6, 7, 16 + 7],
     [12, 16 + 12, 13, 16 + 13, 14, 16 + 14, 15, 16 + 15]]

  lemma Mm256UnpackLoEpi16<T>(a: Blocks<T>, b: Blocks<T>)
    requires Paired(a, b, 4) && |a| == 2
    ensures |Lanes(a)| == |Lanes(b)| == 16
    ensures InRange(Lanes(MM256_UNPACKLO_EPI16), 32)
    ensures Shuffle(Lanes(a), Lanes(b), Lanes(MM256_UNPACKLO_EPI16)) == Lanes(UnpackLo(a, b, 4))
  {
    assert MM256_UNPACKLO_EPI16 == UnpackRows(16, 4, 2, 0) by {
      RowEpi16(16, 0);
      RowEpi16(16, 8);
    }
    ShuffleIsUnpack(a, b, 4, 2, 16, 0, MM256_UNPACKLO_EPI16);
  }

  lemma Mm256UnpackHiEpi16<T>(a: Blocks<T>, b: Blocks<T>)
    requires Paired(a, b, 4) && |a| == 2
    ensures |Lanes(a)| == |Lanes(b)| == 16
    ensures InRange(Lanes(MM256_UNPACKHI_EPI16), 32)
    ensures Shuffle(Lanes(a), Lanes(b), Lanes(MM256_UNPACKHI_EPI16)) == Lanes(UnpackHi(a, b, 4))
  {
    assert MM256_UNPACKHI_EPI16 == UnpackRows(16, 4, 2, 4) by {
      RowEpi16(16, 4);
      RowEpi16(16, 12);
    }
    ShuffleIsUnpack(a, b, 4, 2, 16, 4, MM256_UNPACKHI_EPI16);
  }

  const MM256_UNPACKLO_EPI32: seq<seq<nat>> :=
    [[0, 8 + 0, 1, 8 + 1],
     [4, 8 + 4, 5, 8 + 5]]

  const MM256_UNPACKHI_EPI32: seq<seq<nat>> :=
    [[2, 8 + 2, 3, 8 + 3],
     [6, 8 + 6, 7, 8 + 7]]

  lemma Mm256UnpackLoEpi32<T>(a: Blocks<T>, b: Blocks<T>)
    requires Paired(a, b, 2) && |a| == 2
    ensures |Lanes(a)| == |Lanes(b)| == 8
    ensures InRange(Lanes(MM256_UNPACKLO_EPI32), 16)
    ensures Shuffle(Lanes(a), Lanes(b), Lanes(MM256_UNPACKLO_EPI32)) == Lanes(UnpackLo(a, b, 2))
  {
    assert MM256_UNPACKLO_EPI32 == UnpackRows(8, 2, 2, 0) by {
      RowEpi32(8, 0);
      RowEpi32(8, 4);
    }
    ShuffleIsUnpack(a, b, 2, 2, 8, 0, MM256_UNPACKLO_EPI32);
  }

  lemma Mm256UnpackHiEpi32<T>(a: Blocks<T>, b: Blocks<T>)
    requires Paired(a, b, 2) && |a| == 2
    ensures |Lanes(a)| == |Lanes(b)| == 8
    ensures InRange(Lanes(MM256_UNPACKHI_EPI32), 16)
    ensures Shuffle(Lanes(a), Lanes(b), Lanes(MM256_UNPACKHI_EPI32)) == Lanes(UnpackHi(a, b, 2))
  {
    assert MM256_UNPACKHI_EPI32 == UnpackRows(8, 2, 2, 2) by {
      RowEpi32(8, 2);
      RowEpi32(8, 6);
    }
    ShuffleIsUnpack(a, b, 2, 2, 8, 2, MM256_UNPACKHI_EPI32);
  }

  const MM256_UNPACKLO_EPI64: seq<seq<nat>> :=
    [[0, 4 + 0],
     [2, 4 + 2]]

  const MM256_UNPACKHI_EPI64: seq<seq<nat>> :=
    [[1, 4 + 1],
     [3, 4 + 3]]

  lemma Mm256UnpackLoEpi64<T>(a: Blocks<T>, b: Blocks<T>)
    requires Paired(a, b, 1) && |a| == 2
    ensures |Lanes(a)| == |Lanes(b)| == 4
    ensures InRange(Lanes(MM256_UNPACKLO_EPI64), 8)
    ensures Shuffle(Lanes(a), Lanes(b), Lanes(MM256_UNPACKLO_EPI64)) == Lanes(UnpackLo(a, b, 1))
  {
    assert MM256_UNPACKLO_EPI64 == UnpackRows(4, 1, 2, 0) by {
      RowEpi64(4, 0);
      RowEpi64(4, 2);
    }
    ShuffleIsUnpack(a, b, 1, 2, 4, 0, MM256_UNPACKLO_EPI64);
  }

  lemma Mm256UnpackHiEpi64<T>(a: Blocks<T>, b: Blocks<T>)
    requires Paired(a, b, 1) && |a| == 2
    ensures |Lanes(a)| == |Lanes(b)| == 4
    ensures InRange(Lanes(MM256_UNPACKHI_EPI64), 8)
    ensures Shuffle(Lanes(a), Lanes(b), Lanes(MM256_UNPACKHI_EPI64)) == Lanes(UnpackHi(a, b, 1))
  {
    assert MM256_UNPACKHI_EPI64 == UnpackRows(4, 1, 2, 1) by {
      RowEpi64(4, 1);
      RowEpi64(4, 3);
    }
    ShuffleIsUnpack(a, b, 1, 2, 4, 1, MM256_UNPACKHI_EPI64);
  }
}
