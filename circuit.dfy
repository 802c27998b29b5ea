/**
 * The classical bookkeeping of the Circuit class: the amplitude buffer of an
 * n-qubit register, its initial basis state, measurement as a collapse onto
 * the blocks of the buffer that agree with the outcome followed by a
 * rescaling, and reset as the index permutation of a Pauli-X gate.
 *
 * Bit convention: wire 0 is the most significant bit of a basis index, so the
 * value of wire q in index i is (i / 2^(n-q-1)) % 2. This is the parity of the
 * block that i falls in when the buffer is split into 2^(q+1) equal blocks,
 * which is what measure zeroes by.
 */
module QuantumCircuit {
  import opened Wrappers
  import opened Amplitudes

  /** A measurement outcome. */
  type Bit = b: int | 0 <= b <= 1

  function Pow2(k: nat): (r: nat)
    ensures r >= 1
  {
    if k == 0 then 1 else 2 * Pow2(k - 1)
  }

  lemma {:induction false} Pow2Add(a: nat, b: nat)
    ensures Pow2(a + b) == Pow2(a) * Pow2(b)
  {
    if a > 0 {
      Pow2Add(a - 1, b);
      assert Pow2(a + b) == 2 * Pow2(a - 1 + b);
    }
  }

  /**
   * The length of each of the 2^(q+1) blocks that measure splits a buffer of
   * 2^n amplitudes into.
   */
  function BlockSize(n: nat, q: nat): (b: nat)
    requires q < n
    ensures b >= 1 && Pow2(q + 1) * b == Pow2(n)
  {
    Pow2Add(q + 1, n - q - 1);
    Pow2(n - q - 1)
  }

  /** The value of wire q in basis index i. */
  function WireBit(i: nat, n: nat, q: nat): Bit
    requires q < n
  {
    (i / BlockSize(n, q)) % 2
  }

  // Integer facts about blocks of b consecutive indices.

  lemma MulAtLeast(x: int, b: int)
    requires x >= 1 && b > 0
    ensures x * b >= b
  {
    assert x * b == (x - 1) * b + b;
    assert (x - 1) * b >= 0;
  }

  lemma DivUnique(i: int, b: int, c: int, r: int)
    requires b > 0 && 0 <= r < b && i == c * b + r
    ensures i / b == c && i % b == r
  {
    var d, m := i / b, i % b;
    assert i == d * b + m;
    assert (d - c) * b == r - m;
    if d - c >= 1 {
      MulAtLeast(d - c, b);
    } else if c - d >= 1 {
      MulAtLeast(c - d, b);
    }
  }

  /** Index i lies in block c exactly when i / b == c. */
  lemma BlockOf(i: nat, b: nat, c: nat)
    requires b > 0
    ensures c * b <= i < c * b + b <==> i / b == c
  {
    if c * b <= i < c * b + b {
      DivUnique(i, b, c, i - c * b);
    }
  }

  /** Every index of a buffer of count blocks of b falls in one of those blocks. */
  lemma BlockBelow(i: nat, b: nat, count: nat)
    requires b > 0 && i < count * b
    ensures i / b < count
  {
    var c := i / b;
    assert i == c * b + i % b;
    if c >= count {
      MulAtLeast(c - count + 1, b);
    }
  }

  /** Block c of b entries ends inside a buffer of count blocks. */
  lemma BlockEnd(c: nat, b: nat, count: nat)
    requires b > 0 && c < count
    ensures c * b + b <= count * b
  {
    MulAtLeast(count - c, b);
    assert count * b == c * b + (count - c) * b;
  }

  /** Moving an index of an odd block down by one block lands in an even block. */
  lemma ShiftDown(i: nat, b: nat)
    requires b > 0 && (i / b) % 2 == 1
    ensures i >= b && ((i - b) / b) % 2 == 0
  {
    var c, m := i / b, i % b;
    assert i == c * b + m;
    MulAtLeast(c, b);
    assert i - b == (c - 1) * b + m;
    DivUnique(i - b, b, c - 1, m);
  }

  /**
   * In a buffer of an even number of blocks, moving an index of an even block
   * up by one block stays in the buffer and lands in an odd block.
   */
  lemma ShiftUp(i: nat, b: nat, count: nat)
    requires b > 0 && count % 2 == 0 && i < count * b && (i / b) % 2 == 0
    ensures i + b < count * b && ((i + b) / b) % 2 == 1
  {
    var c, m := i / b, i % b;
    assert i == c * b + m;
    BlockBelow(i, b, count);
    assert c + 1 < count;
    BlockEnd(c + 1, b, count);
    assert i + b == (c + 1) * b + m;
    DivUnique(i + b, b, c + 1, m);
  }

  /** A wire reading 1 is cleared by moving the index down one block. */
  lemma FlipDown(i: nat, n: nat, q: nat)
    requires q < n && WireBit(i, n, q) == 1
    ensures i >= BlockSize(n, q) && WireBit(i - BlockSize(n, q), n, q) == 0
  {
    ShiftDown(i, BlockSize(n, q));
  }

  /** A buffer is split into an even number of blocks. */
  lemma BlockCountEven(q: nat)
    ensures Pow2(q + 1) % 2 == 0
  {
    var half := Pow2(q);
    assert Pow2(q + 1) == 2 * half;
    DivUnique(2 * half, 2, half, 0);
  }

  /** A wire reading 0 is set by moving the index up one block, which stays in the buffer. */
  lemma FlipUp(i: nat, n: nat, q: nat)
    requires q < n && i < Pow2(n) && WireBit(i, n, q) == 0
    ensures i + BlockSize(n, q) < Pow2(n) && WireBit(i + BlockSize(n, q), n, q) == 1
  {
    BlockCountEven(q);
    ShiftUp(i, BlockSize(n, q), Pow2(q + 1));
  }

  /**
   * The index that the Pauli-X gate on wire q swaps with i: the same index
   * with the bit of wire q flipped.
   */
  function FlipIndex(i: nat, n: nat, q: nat): (j: nat)
    requires q < n && i < Pow2(n)
    ensures j < Pow2(n)
    ensures WireBit(j, n, q) == 1 - WireBit(i, n, q)
  {
    if WireBit(i, n, q) == 1 then
      FlipDown(i, n, q);
      i - BlockSize(n, q)
    else
      FlipUp(i, n, q);
      i + BlockSize(n, q)
  }

  lemma FlipIndexInvolution(i: nat, n: nat, q: nat)
    requires q < n && i < Pow2(n)
    ensures FlipIndex(FlipIndex(i, n, q), n, q) == i
  {
  }

  /** Adding m whole blocks of b moves an index m blocks on and keeps its offset in the block. */
  lemma AddBlocks(i: nat, b: nat, m: nat)
    requires b > 0
    ensures (i + m * b) / b == i / b + m
  {
    assert i == (i / b) * b + i % b;
    assert i + m * b == (i / b + m) * b + i % b;
    DivUnique(i + m * b, b, i / b + m, i % b);
  }

  lemma MulMono(x: int, y: int, b: int)
    requires x <= y && b > 0
    ensures x * b <= y * b
  {
    if x < y {
      MulAtLeast(y - x, b);
      assert y * b == x * b + (y - x) * b;
    }
  }

  /** The remainder of an even number by an even modulus is even. */
  lemma EvenMod(t: nat, m: nat)
    requires m > 0 && m % 2 == 0 && t % 2 == 0
    ensures (t % m) % 2 == 0 && t % m + 2 <= m
  {
    var a, h := t / m, m / 2;
    assert m == 2 * h;
    assert t == m * a + t % m;
    assert m * a == 2 * (h * a);
    assert t % m == t - 2 * (h * a);
  }

  /** Offset s in sub-block w + 1 of a block of m sub-blocks of b stays inside that block. */
  lemma SubBlock(w: nat, s: nat, b: nat, m: nat)
    requires b > 0 && s < b && w + 1 <= m
    ensures 0 <= w * b + s < m * b
  {
    MulMono(0, w, b);
    MulMono(w + 1, m, b);
    assert (w + 1) * b == w * b + b;
  }

  /** Regrouping t blocks of b as a blocks of m * b and w blocks of b. */
  lemma Regroup(i: int, t: int, s: int, a: int, w: int, b: int, m: int)
    requires i == t * b + s && t == a * m + w
    ensures i == a * (m * b) + (w * b + s)
  {
    assert t * b == (a * m) * b + w * b;
    assert (a * m) * b == a * (m * b);
  }

  /**
   * An index in an even block of b moved up by one block stays in the same
   * block of m * b when m is even.
   */
  lemma CoarseBlockKept(i: nat, b: nat, m: nat)
    requires b > 0 && m > 0 && m % 2 == 0 && (i / b) % 2 == 0
    ensures (i + b) / (m * b) == i / (m * b)
  {
    var t, s := i / b, i % b;
    var a, w := t / m, t % m;
    assert i == t * b + s;
    assert t == a * m + w;
    EvenMod(t, m);
    SubBlock(w, s, b, m);
    SubBlock(w + 1, s, b, m);
    Regroup(i, t, s, a, w, b, m);
    Regroup(i + b, t + 1, s, a, w + 1, b, m);
    DivUnique(i, m * b, a, w * b + s);
    DivUnique(i + b, m * b, a, (w + 1) * b + s);
  }

  /** Moving an index by an even number m of blocks of b keeps the parity of its block. */
  lemma FineBlockParityKept(i: nat, b: nat, m: nat)
    requires b > 0 && m % 2 == 0
    ensures ((i + m * b) / b) % 2 == (i / b) % 2
  {
    AddBlocks(i, b, m);
    var t := i / b;
    assert m == 2 * (m / 2);
    assert (t + 2 * (m / 2)) % 2 == t % 2;
  }

  /** Both wires' block sizes are powers of two, one a multiple 2^d of the other. */
  lemma BlockSizeRatio(n: nat, q: nat, q': nat)
    requires q < q' < n
    ensures BlockSize(n, q) == Pow2(q' - q) * BlockSize(n, q')
    ensures Pow2(q' - q) % 2 == 0
  {
    var d, e := q' - q, n - q' - 1;
    Pow2Add(d, e);
    assert d + e == n - q - 1;
    assert BlockSize(n, q) == Pow2(d + e);
    assert BlockSize(n, q') == Pow2(e);
    BlockCountEven(d - 1);
  }

  /** Setting the bit of wire q leaves the bits of every other wire as they were. */
  lemma OtherWireUp(i: nat, n: nat, q: nat, q': nat)
    requires q < n && q' < n && q' != q && WireBit(i, n, q) == 0
    ensures WireBit(i + BlockSize(n, q), n, q') == WireBit(i, n, q')
  {
    if q' > q {
      BlockSizeRatio(n, q, q');
      FineBlockParityKept(i, BlockSize(n, q'), Pow2(q' - q));
    } else {
      BlockSizeRatio(n, q', q);
      CoarseBlockKept(i, BlockSize(n, q), Pow2(q - q'));
    }
  }

  /** The Pauli-X gate on wire q leaves the bits of every other wire unchanged. */
  lemma FlipKeepsOtherWires(i: nat, n: nat, q: nat, q': nat)
    requires q < n && q' < n && q' != q && i < Pow2(n)
    ensures WireBit(FlipIndex(i, n, q), n, q') == WireBit(i, n, q')
  {
    if WireBit(i, n, q) == 0 {
      OtherWireUp(i, n, q, q');
    } else {
      FlipDown(i, n, q);
      OtherWireUp(i - BlockSize(n, q), n, q, q');
    }
  }
  /** The initial buffer: amplitude 1 at index 0, 0 everywhere else. */
  function Basis(len: nat): seq<Amp>
  {
    seq(len, i => if i == 0 then ONE else ZERO)
  }

  /**
   * The buffer after the zeroing step of measure with outcome r: the blocks
   * whose parity is 1 - r are zero, the others are kept.
   */
  function Collapsed(s: seq<Amp>, n: nat, q: nat, r: Bit): (t: seq<Amp>)
    requires q < n
    ensures |t| == |s|
  {
    seq(|s|, i requires 0 <= i < |s| => if WireBit(i, n, q) == r then s[i] else ZERO)
  }

  /** The buffer after a Pauli-X gate on wire q. */
  function Flipped(s: seq<Amp>, n: nat, q: nat): (t: seq<Amp>)
    requires q < n && |s| == Pow2(n)
    ensures |t| == |s|
  {
    seq(|s|, i requires 0 <= i < |s| => s[FlipIndex(i, n, q)])
  }

  /**
   * The outcome measure uses: the forced result when there is one, otherwise
   * 1 exactly when the uniform draw u falls below the probability p of reading 1.
   */
  function Outcome(result: Option<Bit>, u: real, p: real): (r: Bit)
    ensures result.Some? ==> r == result.value
    ensures result.None? ==> (r == 1 <==> u < p)
    ensures result.None? && 0.0 <= u < 1.0 && p <= 0.0 ==> r == 0
    ensures result.None? && 0.0 <= u < 1.0 && p >= 1.0 ==> r == 1
  {
    match result
    case Some(forced) => forced
    case None => if u < p then 1 else 0
  }

  // Properties of the specification functions.

  /** Index 0 lies in block 0, so every wire reads 0 in it. */
  lemma WireBitZero(n: nat, q: nat)
    requires q < n
    ensures WireBit(0, n, q) == 0
  {
    DivUnique(0, BlockSize(n, q), 0, 0);
  }

  /** The initial buffer has squared norm 1. */
  lemma BasisNormSq(len: nat)
    requires len > 0
    ensures NormSq(Basis(len)) == 1.0
  {
    NormSqSingle(Basis(len), 0);
  }

  /**
   * In the initial buffer every wire reads 0: collapsing onto 0 keeps it and
   * collapsing onto 1 leaves nothing, so forcing result 1 has nothing to
   * normalise.
   */
  lemma BasisCollapse(n: nat, q: nat)
    requires q < n
    ensures Collapsed(Basis(Pow2(n)), n, q, 0) == Basis(Pow2(n))
    ensures NormSq(Collapsed(Basis(Pow2(n)), n, q, 1)) == 0.0
  {
    var s := Basis(Pow2(n));
    WireBitZero(n, q);
    assert Collapsed(s, n, q, 0) == s;
    NormSqAllZero(Collapsed(s, n, q, 1));
  }

  /** The two outcomes of a measurement split the squared norm of the buffer between them. */
  lemma CollapseSplitsNorm(s: seq<Amp>, n: nat, q: nat)
    requires q < n
    ensures NormSq(Collapsed(s, n, q, 0)) + NormSq(Collapsed(s, n, q, 1)) == NormSq(s)
  {
    NormSqSplit(s, Collapsed(s, n, q, 0), Collapsed(s, n, q, 1));
  }

  /**
   * Measuring the same wire again after a measurement with outcome r and a
   * rescaling by any norm collapses onto r without changing the buffer.
   */
  lemma MeasureAgainKeeps(s: seq<Amp>, n: nat, q: nat, r: Bit, norm: real)
    requires q < n && norm > 0.0
    ensures Collapsed(Scaled(Collapsed(s, n, q, r), norm), n, q, r) == Scaled(Collapsed(s, n, q, r), norm)
  {
  }

  /**
   * After a measurement with outcome r and a rescaling, the opposite outcome
   * has squared norm 0: forcing it has nothing to normalise.
   */
  lemma MeasureAgainOpposite(s: seq<Amp>, n: nat, q: nat, r: Bit, norm: real)
    requires q < n && norm > 0.0
    ensures NormSq(Collapsed(Scaled(Collapsed(s, n, q, r), norm), n, q, 1 - r)) == 0.0
  {
    DivZero(norm);
    var other: Bit := 1 - r;
    NormSqAllZero(Collapsed(Scaled(Collapsed(s, n, q, r), norm), n, q, other));
  }

  /** Two Pauli-X gates on the same wire restore the buffer. */
  lemma FlippedInvolution(s: seq<Amp>, n: nat, q: nat)
    requires q < n && |s| == Pow2(n)
    ensures Flipped(Flipped(s, n, q), n, q) == s
  {
    forall i | 0 <= i < |s| ensures Flipped(Flipped(s, n, q), n, q)[i] == s[i] {
      FlipIndexInvolution(i, n, q);
    }
  }

  /**
   * X flips the bit measure tests: measuring r after X on wire q is X after
   * measuring 1 - r.
   */
  lemma CollapseAfterFlip(s: seq<Amp>, n: nat, q: nat, r: Bit)
    requires q < n && |s| == Pow2(n)
    ensures Collapsed(Flipped(s, n, q), n, q, r) == Flipped(Collapsed(s, n, q, 1 - r), n, q)
  {
  }

  // X keeps the squared norm: it swaps every even block of the buffer with
  // the odd block after it.

  /** t swaps the two halves of every pair of blocks of b in s. */
  ghost predicate BlocksSwapped(s: seq<Amp>, t: seq<Amp>, b: nat)
  {
    b > 0 && |t| == |s| &&
    (forall i {:trigger t[i]} :: 0 <= i < |s| && (i / b) % 2 == 0 ==> i + b < |s| && t[i] == s[i + b]) &&
    (forall i {:trigger t[i]} :: 0 <= i < |s| && (i / b) % 2 == 1 ==> i >= b && t[i] == s[i - b])
  }

  /** The first pair of blocks of t is that of s with its two halves exchanged. */
  lemma BlocksSwappedHead(s: seq<Amp>, t: seq<Amp>, b: nat)
    requires BlocksSwapped(s, t, b) && 2 * b <= |s|
    ensures t[..b] == s[b..2 * b] && t[b..2 * b] == s[..b]
  {
    forall i | 0 <= i < b ensures t[i] == s[i + b] {
      DivUnique(i, b, 0, i);
    }
    forall i | b <= i < 2 * b ensures t[i] == s[i - b] {
      DivUnique(i, b, 1, i - b);
    }
  }

  /** Moving an index two blocks on keeps the parity of its block. */
  lemma ParityTwoOn(i: nat, b: nat)
    requires b > 0
    ensures ((i + 2 * b) / b) % 2 == (i / b) % 2
  {
    AddBlocks(i, b, 2);
  }

  /** Dropping the first pair of blocks from both keeps the blocks swapped. */
  lemma BlocksSwappedTail(s: seq<Amp>, t: seq<Amp>, b: nat)
    requires BlocksSwapped(s, t, b) && 2 * b <= |s|
    ensures BlocksSwapped(s[2 * b..], t[2 * b..], b)
  {
    var s', t' := s[2 * b..], t[2 * b..];
    forall i | 0 <= i < |s'| && (i / b) % 2 == 0 ensures i + b < |s'| && t'[i] == s'[i + b] {
      ParityTwoOn(i, b);
      assert t'[i] == t[i + 2 * b];
    }
    forall i | 0 <= i < |s'| && (i / b) % 2 == 1 ensures i >= b && t'[i] == s'[i - b] {
      ParityTwoOn(i, b);
      ShiftDown(i, b);
      assert t'[i] == t[i + 2 * b];
    }
  }

  /** A vector's squared norm, split after its first two blocks of b. */
  lemma NormSqFirstPair(s: seq<Amp>, b: nat)
    requires 2 * b <= |s|
    ensures NormSq(s) == NormSq(s[..b]) + NormSq(s[b..2 * b]) + NormSq(s[2 * b..])
  {
    var m := 2 * b;
    assert s == (s[..b] + s[b..m]) + s[m..];
    NormSqAppend(s[..b] + s[b..m], s[m..]);
    NormSqAppend(s[..b], s[b..m]);
  }

  lemma MulPred(k: nat, m: nat)
    requires k > 0
    ensures k * m >= m && k * m - m == (k - 1) * m
  {
    assert k * m == (k - 1) * m + m;
  }

  /** Swapping the blocks pairwise keeps the squared norm. */
  lemma {:induction false} BlocksSwappedNormSq(s: seq<Amp>, t: seq<Amp>, b: nat, k: nat)
    requires BlocksSwapped(s, t, b) && |s| == k * (2 * b)
    ensures NormSq(t) == NormSq(s)
    decreases k
  {
    if k > 0 {
      MulPred(k, 2 * b);
      BlocksSwappedHead(s, t, b);
      BlocksSwappedTail(s, t, b);
      BlocksSwappedNormSq(s[2 * b..], t[2 * b..], b, k - 1);
      NormSqFirstPair(s, b);
      NormSqFirstPair(t, b);
    }
  }

  /** X on wire q swaps the blocks of 2^(n-q-1) pairwise. */
  lemma FlipSwapsBlocks(s: seq<Amp>, n: nat, q: nat)
    requires q < n && |s| == Pow2(n)
    ensures BlocksSwapped(s, Flipped(s, n, q), BlockSize(n, q))
  {
    var b, t := BlockSize(n, q), Flipped(s, n, q);
    forall i | 0 <= i < |s| && (i / b) % 2 == 0 ensures i + b < |s| && t[i] == s[i + b] {
      assert FlipIndex(i, n, q) == i + b;
    }
    forall i | 0 <= i < |s| && (i / b) % 2 == 1 ensures i >= b && t[i] == s[i - b] {
      assert FlipIndex(i, n, q) == i - b;
    }
  }

  lemma MulSwap(k: nat, b: nat)
    ensures (2 * k) * b == k * (2 * b)
  {
  }

  /** A buffer of 2^n entries holds 2^q pairs of blocks of 2^(n-q-1). */
  lemma BlockPairs(n: nat, q: nat)
    requires q < n
    ensures Pow2(n) == Pow2(q) * (2 * BlockSize(n, q))
  {
    assert Pow2(q + 1) == 2 * Pow2(q);
    MulSwap(Pow2(q), BlockSize(n, q));
  }

  /** X on any wire keeps the squared norm of the buffer. */
  lemma FlippedNormSq(s: seq<Amp>, n: nat, q: nat)
    requires q < n && |s| == Pow2(n)
    ensures NormSq(Flipped(s, n, q)) == NormSq(s)
  {
    FlipSwapsBlocks(s, n, q);
    BlockPairs(n, q);
    BlocksSwappedNormSq(s, Flipped(s, n, q), BlockSize(n, q), Pow2(q));
  }

  // The steps of measure, on the array that np.split and np.concatenate build.

  /** No block comes before the first block of parity 1 - r, which is 1 - r. */
  lemma FirstBlockOfParity(t: nat, r: Bit)
    ensures !(t < 1 - r && t % 2 != r)
  {
  }

  /**
   * Index i is zeroed once the blocks of parity 1 - r below c + 2 are zero
   * exactly when it was zeroed before block c or lies in block c.
   */
  lemma ZeroStepIndex(i: nat, size: nat, c: nat, r: Bit)
    requires size > 0 && c % 2 == 1 - r
    ensures (i / size < c + 2 && (i / size) % 2 != r)
        <==> (i / size < c && (i / size) % 2 != r) || (c * size <= i < c * size + size)
  {
    BlockOf(i, size, c);
  }

  /** A fresh copy of a buffer. */
  method Copy(a: array<Amp>) returns (b: array<Amp>)
    ensures fresh(b) && b[..] == a[..]
  {
    b := new Amp[a.Length];
    for i := 0 to a.Length
      invariant forall k :: 0 <= k < i ==> b[k] == a[k]
    {
      b[i] := a[i];
    }
  }

  /** Zeroes entries start .. start + size - 1 of a, as `chunk *= 0` does. */
  method ZeroBlock(a: array<Amp>, start: nat, size: nat)
    requires start + size <= a.Length
    modifies a
    ensures forall i :: 0 <= i < a.Length ==>
      a[i] == if start <= i < start + size then ZERO else old(a[i])
  {
    for j := start to start + size
      invariant forall i :: 0 <= i < a.Length ==>
        a[i] == if start <= i < j then ZERO else old(a[i])
    {
      a[j] := ZERO;
    }
  }

  /**
   * Part of the zeroing step: the amplitudes of s in blocks of parity
   * 1 - r below block c are zero, the others are kept.
   */
  ghost predicate ZeroedBelow(a: seq<Amp>, s: seq<Amp>, size: nat, c: nat, r: Bit)
    requires size > 0 && |a| == |s|
  {
    forall i :: 0 <= i < |a| ==> a[i] == if i / size < c && (i / size) % 2 != r then ZERO else s[i]
  }

  /** Before the first block of parity 1 - r nothing is zeroed. */
  lemma ZeroedNone(s: seq<Amp>, size: nat, r: Bit)
    requires size > 0
    ensures ZeroedBelow(s, s, size, 1 - r, r)
  {
    forall i | 0 <= i < |s|
      ensures s[i] == if i / size < 1 - r && (i / size) % 2 != r then ZERO else s[i]
    {
      FirstBlockOfParity(i / size, r);
    }
  }

  /** Zeroes block c, the next block of parity 1 - r. */
  method ZeroNextBlock(a: array<Amp>, size: nat, count: nat, c: nat, r: Bit, ghost s: seq<Amp>)
    requires size > 0 && c < count && c % 2 == 1 - r && a.Length == count * size && |s| == a.Length
    requires ZeroedBelow(a[..], s, size, c, r)
    modifies a
    ensures ZeroedBelow(a[..], s, size, c + 2, r)
  {
    BlockEnd(c, size, count);
    ghost var before := a[..];
    ZeroBlock(a, c * size, size);
    forall i | 0 <= i < a.Length
      ensures a[i] == if i / size < c + 2 && (i / size) % 2 != r then ZERO else s[i]
    {
      ZeroStepIndex(i, size, c, r);
      assert before[i] == if i / size < c && (i / size) % 2 != r then ZERO else s[i];
    }
  }

  /** Once every block of parity 1 - r is zero, the buffer is the collapse of s onto r. */
  lemma ZeroedAll(a: seq<Amp>, s: seq<Amp>, n: nat, q: nat, c: nat, r: Bit)
    requires q < n && |s| == Pow2(n) && |a| == |s| && c >= Pow2(q + 1)
    requires ZeroedBelow(a, s, BlockSize(n, q), c, r)
    ensures a == Collapsed(s, n, q, r)
  {
    var size := BlockSize(n, q);
    forall i | 0 <= i < |a| ensures a[i] == Collapsed(s, n, q, r)[i] {
      BlockBelow(i, size, Pow2(q + 1));
    }
  }

  /**
   * The zeroing step of measure: splits a buffer of 2^n amplitudes into
   * 2^(q+1) blocks and zeroes blocks 1 - r, 3 - r, 5 - r, ...
   */
  method ZeroBlocks(a: array<Amp>, n: nat, q: nat, r: Bit)
    requires a.Length == Pow2(n) && q < n
    modifies a
    ensures a[..] == Collapsed(old(a[..]), n, q, r)
  {
    ghost var s := a[..];
    var size, count := BlockSize(n, q), Pow2(q + 1);
    var c := 1 - r;
    ZeroedNone(s, size, r);
    while c < count
      invariant 0 <= c <= count + 1 && c % 2 == 1 - r
      invariant ZeroedBelow(a[..], s, size, c, r)
    {
      ZeroNextBlock(a, size, count, c, r, s);
      c := c + 2;
    }
    ZeroedAll(a[..], s, n, q, c, r);
  }

  /** The rescaling step of measure: divides every amplitude by norm. */
  method Rescale(a: array<Amp>, norm: real)
    requires norm > 0.0
    modifies a
    ensures a[..] == Scaled(old(a[..]), norm)
  {
    for i := 0 to a.Length
      invariant forall k :: 0 <= k < i ==> a[k] == Div(old(a[k]), norm)
      invariant forall k :: i <= k < a.Length ==> a[k] == old(a[k])
    {
      a[i] := Div(a[i], norm);
    }
  }

  /** An n-qubit register and its amplitude buffer. */
  class Circuit {
    /** The number of qubits, fixed at construction. */
    const n: nat
    /** The amplitude buffer, of length 2^n. */
    var state: array<Amp>

    /** The buffer has 2^n entries and is a unit vector. */
    ghost predicate Valid()
      reads this, state
    {
      state.Length == Pow2(n) && NormSq(state[..]) == 1.0
    }

    /** A register of the given number of qubits in the basis state with every qubit 0. */
    constructor (qubits: nat)
      ensures Valid() && n == qubits && fresh(state)
      ensures state[..] == Basis(Pow2(qubits))
      ensures state[0] == ONE && forall i :: 1 <= i < state.Length ==> state[i] == ZERO
    {
      n := qubits;
      var buffer := new Amp[Pow2(qubits)](_ => ZERO);
      buffer[0] := ONE;
      assert buffer[..] == Basis(Pow2(qubits));
      BasisNormSq(Pow2(qubits));
      state := buffer;
    }

    /**
     * Measures wire q. p is the probability of reading 1 on the buffer before
     * the collapse, u the uniform draw used when no result is forced, and
     * norm the Euclidean norm of the buffer after the zeroing step, which
     * must be nonzero. Returns p and the outcome, and installs a new buffer:
     * the collapsed one divided by norm, a unit vector.
     */
    method Measure(q: nat, result: Option<Bit>, u: real, p: real, norm: real)
      returns (prob: real, outcome: Bit)
      requires Valid() && q < n && norm > 0.0
      requires NormSq(Collapsed(state[..], n, q, Outcome(result, u, p))) > 0.0
      requires norm * norm == NormSq(Collapsed(state[..], n, q, Outcome(result, u, p)))
      modifies this
      ensures Valid() && fresh(state)
      ensures prob == p && outcome == Outcome(result, u, p)
      ensures state[..] == Scaled(Collapsed(old(state[..]), n, q, outcome), norm)
      ensures forall i :: 0 <= i < state.Length ==>
        state[i] == if WireBit(i, n, q) == outcome then Div(old(state[i]), norm) else ZERO
      ensures NormSq(state[..]) == 1.0
    {
      prob := p;
      outcome := Outcome(result, u, p);
      Normalised(Collapsed(state[..], n, q, outcome), norm);
      var chunks := Copy(state);
      ZeroBlocks(chunks, n, q, outcome);
      Rescale(chunks, norm);
      state := chunks;
    }

    /**
     * Applies a Pauli-X gate on wire q when flag == 1, replacing the buffer
     * by a new one; otherwise leaves the buffer as it is.
     */
    method Reset(q: nat, flag: int)
      requires Valid() && (flag == 1 ==> q < n)
      modifies this
      ensures Valid()
      ensures flag != 1 ==> state == old(state) && state[..] == old(state[..])
      ensures flag == 1 ==> fresh(state) && state[..] == Flipped(old(state[..]), n, q)
      ensures NormSq(state[..]) == old(NormSq(state[..]))
    {
      if flag == 1 {
        var current := state;
        var next := new Amp[current.Length];
        for i := 0 to current.Length
          invariant forall k :: 0 <= k < i ==> next[k] == current[FlipIndex(k, n, q)]
        {
          next[i] := current[FlipIndex(i, n, q)];
        }
        assert next[..] == Flipped(current[..], n, q);
        FlippedNormSq(current[..], n, q);
        state := next;
      }
    }
  }

  /** Two consecutive resets with flag 1 on the same wire leave the amplitudes as they were. */
  method ResetTwice(c: Circuit, q: nat)
    requires c.Valid() && q < c.n
    modifies c
    ensures c.Valid() && c.state[..] == old(c.state[..])
  {
    c.Reset(q, 1);
    c.Reset(q, 1);
    FlippedInvolution(old(c.state[..]), c.n, q);
  }
}
