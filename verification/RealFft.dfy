/**
 * The in-place radix-2 transform of real signals (`crates/siphon-rtp-dsp/src/fft.rs`), over exact
 * reals. The twiddle table is given: it holds the powers of a root of unity `omega`.
 */
module Fft {
  import opened Arithmetic
  import opened ComplexNumbers
  import opened Dft
  import opened PowersOfTwo
  import opened Spectra

  // ---- The stage invariant -------------------------------------------------------------------

  /** Slot `k` of block `c` holds bin `k` of the transform of the subsequence that block owns. */
  ghost predicate SlotDone(x: seq<Complex>, w: Complex, work: seq<Complex>, size: nat, p: nat, c: nat, k: nat) {
    && c * size + k < |work|
    && work[c * size + k] == StridedDft(x, Pow(w, Pow2(p)), Reverse(c, p), Pow2(p), size, k)
  }

  /** Every block of `size` slots is the transform of its bit-reversed subsequence, stride `2^p`. */
  ghost predicate StageDone(x: seq<Complex>, w: Complex, work: seq<Complex>, size: nat, p: nat) {
    forall c: nat, k: nat :: c < Pow2(p) && k < size ==> SlotDone(x, w, work, size, p, c, k)
  }

  /** The two slots that one butterfly with twiddle `t` writes. */
  ghost predicate Combined(before: seq<Complex>, after: seq<Complex>, half: nat, c: nat, k: nat, t: Complex) {
    && k < half && c * (2 * half) + 2 * half <= |before| == |after|
    && var i := c * (2 * half) + k;
       var product := Mul(before[i + half], t);
       && after[i] == Add(before[i], product)
       && after[i + half] == Sub(before[i], product)
  }

  ghost predicate StageCombined(before: seq<Complex>, after: seq<Complex>, w: Complex, half: nat, p: nat) {
    forall c: nat, k: nat :: c < Pow2(p) && k < half ==>
      Combined(before, after, half, c, k, Pow(w, k * Pow2(p)))
  }

  /** After the permutation alone, the blocks of size one are done. */
  lemma PermutedIsStageZero(x: seq<Complex>, w: Complex, work: seq<Complex>, bits: nat)
    requires |x| == |work| == Pow2(bits)
    requires forall i: nat :: i < |x| ==> work[i] == x[Reverse(i, bits)]
    ensures StageDone(x, w, work, 1, bits)
  {
    hide Mul;
    hide Reverse;
    forall c: nat, k: nat | c < Pow2(bits) && k < 1 ensures SlotDone(x, w, work, 1, bits, c, k) {
      var f := StridedTerm(x, Pow(w, Pow2(bits)), Reverse(c, bits), Pow2(bits), k);
      assert k == 0;
      assert Sum(1, f) == Add(Sum(0, f), f(0));
      PowZero(Pow(w, Pow2(bits)));
      MulOne(At(x, Reverse(c, bits)));
    }
  }

  lemma ReverseChildren(c: nat, p: nat)
    ensures Reverse(2 * c, p + 1) == Reverse(c, p)
    ensures Reverse(2 * c + 1, p + 1) == Reverse(c, p) + Pow2(p)
  {
    hide Reverse;
    hide Pow2;
    ReverseStep(2 * c, p);
    ReverseStep(2 * c + 1, p);
  }

  lemma StageRoot(w: Complex, half: nat, p: nat, n: nat)
    requires n == half * Pow2(p + 1)
    requires Pow(w, n / 2) == Neg(ONE)
    ensures Pow(Pow(w, Pow2(p)), half) == Neg(ONE)
    ensures Pow(Pow(w, Pow2(p)), 2) == Pow(w, Pow2(p + 1))
  {
    hide Mul;
    hide Pow;
    assert n == 2 * (Pow2(p) * half);
    PowPow(w, Pow2(p), half);
    PowPow(w, Pow2(p), 2);
  }

  lemma ChildBlocks(c: nat, half: nat, s: nat, k: nat)
    ensures 2 * c * half == c * (2 * half)
    ensures (2 * c + 1) * half == c * (2 * half) + half
    ensures s * k == k * s
  {
  }

  lemma SlotStep(
      x: seq<Complex>, w: Complex, before: seq<Complex>, after: seq<Complex>, half: nat, p: nat, c: nat, k: nat)
    requires |x| == |before| == half * Pow2(p + 1)
    requires Pow(w, |x| / 2) == Neg(ONE)
    requires c < Pow2(p) && k < half
    requires SlotDone(x, w, before, half, p + 1, 2 * c, k)
    requires SlotDone(x, w, before, half, p + 1, 2 * c + 1, k)
    requires Combined(before, after, half, c, k, Pow(w, k * Pow2(p)))
    ensures SlotDone(x, w, after, 2 * half, p, c, k)
    ensures SlotDone(x, w, after, 2 * half, p, c, k + half)
  {
    hide Mul;
    hide Add;
    hide Sub;
    hide Pow;
    hide StridedDft;
    hide Reverse;
    var s := Pow2(p);
    StageRoot(w, half, p, |x|);
    Butterfly(x, Pow(w, s), Reverse(c, p), s, half, k);
    ReverseChildren(c, p);
    PowPow(w, s, k);
    ChildBlocks(c, half, s, k);
  }

  /** One stage of butterflies doubles the size of the finished blocks. */
  lemma StageStep(x: seq<Complex>, w: Complex, before: seq<Complex>, after: seq<Complex>, half: nat, p: nat)
    requires |x| == |before| == half * Pow2(p + 1)
    requires Pow(w, |x| / 2) == Neg(ONE)
    requires StageDone(x, w, before, half, p + 1)
    requires StageCombined(before, after, w, half, p)
    ensures StageDone(x, w, after, 2 * half, p)
  {
    hide SlotDone;
    hide Combined;
    forall c: nat, k: nat | c < Pow2(p) && k < 2 * half ensures SlotDone(x, w, after, 2 * half, p, c, k) {
      var j := if k < half then k else k - half;
      assert SlotDone(x, w, before, half, p + 1, 2 * c, j);
      assert SlotDone(x, w, before, half, p + 1, 2 * c + 1, j);
      assert Combined(before, after, half, c, j, Pow(w, j * Pow2(p)));
      SlotStep(x, w, before, after, half, p, c, j);
    }
  }

  /** When one block spans the buffer, the buffer is the transform. */
  lemma LastStage(x: seq<Complex>, w: Complex, work: seq<Complex>)
    requires |x| == |work|
    requires StageDone(x, w, work, |x|, 0)
    ensures work == Spectrum(x, w)
  {
    hide Mul;
    hide Sum;
    forall k: nat | k < |x| ensures work[k] == DftAt(x, w, k) {
      assert SlotDone(x, w, work, |x|, 0, 0, k);
      assert Pow2(0) == 1 && Reverse(0, 0) == 0;
      assert Pow(w, 1) == Mul(w, Pow(w, 0));
      MulOne(w);
      StridedIsDft(x, w, k);
    }
  }

  // ---- The transform object ------------------------------------------------------------------

  /** `ShiftOverflow` is the arithmetic overflow of the source's 32-bit shift count above `2^32` points. */
  datatype BuildResult = Built(fft: RealFft) | InvalidFftSize(size: nat) | ShiftOverflow(points: nat)

  /** The table the constructor fills from `cos` and `sin`: `roots[j] == omega^j`. */
  ghost predicate IsTwiddleTable(roots: seq<Complex>, omega: Complex, n: nat) {
    && IsRoot(omega, n)
    && |roots| == n / 2
    && forall j: nat :: j < n / 2 ==> roots[j] == Pow(omega, j)
  }

  class RealFft {
    const n: nat
    const twiddles: seq<Complex>
    const bitrev: seq<nat>
    const work: array<Complex>
    ghost const omega: Complex

    ghost predicate Valid() {
      && n >= 4 && IsPowerOfTwo(n)
      && IsTwiddleTable(twiddles, omega, n)
      && |bitrev| == n
      && (forall i: nat :: i < n ==> bitrev[i] == Reverse(i, TrailingZeros(n)) < n)
      && work.Length == n
    }

    constructor (size: nat, roots: seq<Complex>, reversed: seq<nat>, ghost root: Complex)
      ensures n == size && twiddles == roots && bitrev == reversed && omega == root
      ensures work.Length == size && fresh(work)
    {
      n, twiddles, bitrev, omega := size, roots, reversed, root;
      work := new Complex[size](_ => ZERO);
    }

    static method New(size: nat, roots: seq<Complex>, ghost root: Complex) returns (r: BuildResult)
      requires size >= 4 && IsPowerOfTwo(size) ==> IsTwiddleTable(roots, root, size)
      ensures r.Built? <==> size >= 4 && IsPowerOfTwo(size) && size <= Pow2(32)
      ensures r.InvalidFftSize? <==> size < 4 || !IsPowerOfTwo(size)
      ensures r.Built? ==> r.fft.Valid() && r.fft.n == size && r.fft.omega == root && fresh(r.fft) && fresh(r.fft.work)
      ensures r.InvalidFftSize? ==> r.size == size
      ensures r.ShiftOverflow? ==> r.points == size
    {
      if size < 4 || !IsPowerOfTwo(size) {
        return InvalidFftSize(size);
      }
      if size > Pow2(32) {
        return ShiftOverflow(size);
      }
      var reversed := ReversalTable(size);
      var fft := new RealFft(size, roots, reversed, root);
      return Built(fft);
    }

    /** Reversing in a 32-bit word and shifting down gives the reversal over `log2(n)` bits. */
    static method ReversalTable(size: nat) returns (reversed: seq<nat>)
      requires IsPowerOfTwo(size) && size <= Pow2(32)
      ensures |reversed| == size
      ensures forall i: nat :: i < size ==> reversed[i] == Reverse(i, TrailingZeros(size)) < size
    {
      hide Reverse;
      hide Pow2;
      var bits := TrailingZeros(size);
      PowerOfTwoExponent(size);
      Pow2Order(bits, 32);
      reversed := [];
      for index := 0 to size
        invariant |reversed| == index
        invariant forall i: nat :: i < index ==> reversed[i] == Reverse(i, bits) < size
      {
        ReverseInWord(index, bits);
        reversed := reversed + [Reverse(index, 32) / Pow2(32 - bits)];
      }
    }

    /** The bit-reversal loop: every slot ends up with the sample its reversed index names. */
    method Permute()
      requires Valid()
      modifies work
      ensures forall i: nat :: i < n ==> work[i] == old(work[bitrev[i]])
    {
      ghost var bits := TrailingZeros(n);
      PowerOfTwoExponent(n);
      ghost var x := work[..];
      forall i: nat | i < n ensures bitrev[bitrev[i]] == i { ReverseInvolution(i, bits); }
      for i := 0 to n
        invariant forall k: nat :: k < n ==>
          work[k] == if k < i || bitrev[k] < i then x[bitrev[k]] else x[k]
      {
        var j := bitrev[i];
        if j > i {
          work[i], work[j] := work[j], work[i];
        }
      }
    }

    function Twiddle(inverse: bool, j: nat): Complex
      requires j < |twiddles|
    {
      if inverse then Conj(twiddles[j]) else twiddles[j]
    }

    /** The butterflies of one block. */
    method Block(inverse: bool, start: nat, half: nat, step: nat)
      requires Valid()
      requires start + 2 * half <= n && half * step == n / 2
      modifies work
      ensures forall i: nat :: i < n && !(start <= i < start + 2 * half) ==> work[i] == old(work[i])
      ensures forall k: nat :: k < half ==> Crossed(inverse, old(work[..]), work[..], start, half, step, k)
    {
      hide Mul;
      hide Add;
      hide Sub;
      hide Conj;
      hide Pow;
      hide Reverse;
      hide TrailingZeros;
      hide IsPowerOfTwo;
      hide IsRoot;
      ghost var x := work[..];
      for k := 0 to half
        invariant forall i: nat :: i < n && !(start <= i < start + k) && !(start + half <= i < start + half + k)
                    ==> work[i] == x[i]
        invariant forall j: nat :: j < k ==> Crossed(inverse, x, work[..], start, half, step, j)
      {
        StrideInRange(k, half, step);
        ghost var previous := work[..];
        var upper, lower := work[start + k], work[start + k + half];
        var product := Product(lower, twiddles[k * step], inverse);
        work[start + k] := Add(upper, product);
        work[start + k + half] := Sub(upper, product);
        forall j: nat | j <= k ensures Crossed(inverse, x, work[..], start, half, step, j) {
          assert j < k ==> Crossed(inverse, x, previous, start, half, step, j);
        }
      }
    }

    ghost predicate Crossed(
        inverse: bool, before: seq<Complex>, after: seq<Complex>, start: nat, half: nat, step: nat, k: nat) {
      && start + k + half < |before| == |after| && k * step < |twiddles|
      && var product := Mul(before[start + k + half], Twiddle(inverse, k * step));
         && after[start + k] == Add(before[start + k], product)
         && after[start + k + half] == Sub(before[start + k], product)
    }

    ghost function Root(inverse: bool): Complex {
      if inverse then Conj(omega) else omega
    }

    ghost predicate BlocksCombined(inverse: bool, x: seq<Complex>, work: seq<Complex>, half: nat, p: nat, blocks: nat) {
      forall c: nat, k: nat :: c < blocks && k < half ==>
        Combined(x, work, half, c, k, Pow(Root(inverse), k * Pow2(p)))
    }

    /** One pass over the buffer: every block of `2 * half` slots goes through its butterflies. */
    method Stage(inverse: bool, half: nat, ghost p: nat)
      requires Valid()
      requires half > 0 && n == half * Pow2(p + 1)
      modifies work
      ensures StageCombined(old(work[..]), work[..], Root(inverse), half, p)
    {
      hide Crossed;
      hide Combined;
      hide BlocksCombined;
      hide StageCombined;
      hide Pow2;
      hide Pow;
      hide Reverse;
      hide IsPowerOfTwo;
      hide TrailingZeros;
      hide IsRoot;
      hide IsTwiddleTable;
      var len := 2 * half;
      StageSize(n, half, p);
      var step := n / len;
      var start := 0;
      ghost var blocks := 0;
      ghost var x := work[..];
      NoBlocks(inverse, x, half, p);
      while start < n
        invariant start == blocks * len && blocks <= Pow2(p)
        invariant forall i: nat :: start <= i < n ==> work[i] == x[i]
        invariant BlocksCombined(inverse, x, work[..], half, p, blocks)
        decreases n - start
      {
        ProductBelow(blocks, Pow2(p), len);
        ghost var before := work[..];
        Block(inverse, start, half, step);
        OneMoreBlock(inverse, x, before, work[..], half, p, blocks);
        start := start + len;
        blocks := blocks + 1;
      }
      AllBlocks(blocks, Pow2(p), len);
      EveryBlock(inverse, x, work[..], half, p);
    }

    lemma NoBlocks(inverse: bool, x: seq<Complex>, half: nat, p: nat)
      ensures BlocksCombined(inverse, x, x, half, p, 0)
    {
    }

    lemma EveryBlock(inverse: bool, x: seq<Complex>, work: seq<Complex>, half: nat, p: nat)
      requires BlocksCombined(inverse, x, work, half, p, Pow2(p))
      ensures StageCombined(x, work, Root(inverse), half, p)
    {
      hide Combined;
    }

    lemma OneMoreBlock(
        inverse: bool, x: seq<Complex>, before: seq<Complex>, after: seq<Complex>, half: nat, p: nat, blocks: nat)
      requires Valid() && |x| == |before| == |after| && blocks * (2 * half) + 2 * half <= |x|
      requires BlocksCombined(inverse, x, before, half, p, blocks)
      requires forall i: nat :: blocks * (2 * half) <= i < |x| ==> before[i] == x[i]
      requires forall i: nat :: i < blocks * (2 * half) ==> after[i] == before[i]
      requires forall k: nat :: k < half ==> Crossed(inverse, before, after, blocks * (2 * half), half, Pow2(p), k)
      ensures BlocksCombined(inverse, x, after, half, p, blocks + 1)
    {
      hide Crossed;
      hide Combined;
      hide Pow;
      forall c: nat, k: nat | c <= blocks && k < half
        ensures Combined(x, after, half, c, k, Pow(Root(inverse), k * Pow2(p)))
      {
        if c < blocks {
          assert Combined(x, before, half, c, k, Pow(Root(inverse), k * Pow2(p)));
          ProductBelow(c, blocks, 2 * half);
          CombinedFrame(x, before, after, half, c, k, Pow(Root(inverse), k * Pow2(p)));
        } else {
          CrossedIsCombined(inverse, x, before, after, half, p, c, k);
        }
      }
    }

    lemma CrossedIsCombined(
        inverse: bool, x: seq<Complex>, before: seq<Complex>, after: seq<Complex>, half: nat, p: nat, c: nat, k: nat)
      requires Valid() && k < half && c * (2 * half) + 2 * half <= |x|
      requires Crossed(inverse, before, after, c * (2 * half), half, Pow2(p), k)
      requires |x| == |before| && forall i: nat :: c * (2 * half) <= i < |x| ==> before[i] == x[i]
      ensures Combined(x, after, half, c, k, Pow(Root(inverse), k * Pow2(p)))
    {
      hide Mul;
      hide Pow;
      PowConj(omega, k * Pow2(p));
    }

    lemma RootHalfway(inverse: bool)
      requires Valid()
      ensures Pow(Root(inverse), n / 2) == Neg(ONE)
    {
      PowConj(omega, n / 2);
    }

    /** The whole transform: the quadratic sum in every bin, scaled by `1/n` on the way back. */
    method Transform(inverse: bool)
      requires Valid()
      modifies work
      ensures work[..] == (if inverse then Scaled(Reciprocal(n), Spectrum(old(work[..]), Conj(omega)))
                           else Spectrum(old(work[..]), omega))
    {
      hide StageDone;
      hide StageCombined;
      hide Pow;
      hide Pow2;
      hide Reverse;
      hide Spectrum;
      hide Scaled;
      ghost var x, w := work[..], Root(inverse);
      ghost var p := TrailingZeros(n);
      PowerOfTwoExponent(n);
      RootHalfway(inverse);
      Permute();
      PermutedIsStageZero(x, w, work[..], p);
      var len := 2;
      while len <= n
        invariant len % 2 == 0 && n == len / 2 * Pow2(p)
        invariant StageDone(x, w, work[..], len / 2, p)
        decreases n - len
      {
        StageLeft(n, len, p);
        ghost var before := work[..];
        Stage(inverse, len / 2, p - 1);
        StageStep(x, w, before, work[..], len / 2, p - 1);
        len := 2 * len;
        p := p - 1;
      }
      StagesOver(n, len, p);
      LastStage(x, w, work[..]);
      if inverse { Normalize(); }
    }

    /** Forward: the first `n/2 + 1` bins of the zero-filled or cut input, whatever `work` held. */
    method Forward(input: seq<real>, output: array<Complex>)
      requires Valid() && output != work
      modifies work, output
      ensures forall k: nat :: k < output.Length ==>
        output[k] == if k < n / 2 + 1 then ForwardOf(input, omega, n)[k] else old(output[k])
    {
      hide Pow;
      hide Reverse;
      hide IsPowerOfTwo;
      hide IsTwiddleTable;
      hide DftAt;
      for index := 0 to n
        invariant output[..] == old(output[..])
        invariant forall i: nat :: i < index ==> work[i] == Padded(input, n)[i]
      {
        work[index] := Complex(if index < |input| then input[index] else 0.0, 0.0);
      }
      assert work[..] == Padded(input, n);
      Transform(false);
      var bins := n / 2 + 1;
      var count := if output.Length < bins then output.Length else bins;
      for index := 0 to count
        invariant work[..] == Spectrum(Padded(input, n), omega)
        invariant forall k: nat :: k < output.Length ==>
          output[k] == if k < index then ForwardOf(input, omega, n)[k] else old(output[k])
      {
        output[index] := work[index];
      }
    }

    /** Inverse: the real samples of the Hermitian spectrum the given bins stand for. */
    method Inverse(input: seq<Complex>, output: array<real>)
      requires Valid()
      modifies work, output
      ensures forall m: nat :: m < output.Length ==>
        output[m] == if m < n then InverseOf(HalfSpectrum(input, n), omega, n)[m] else old(output[m])
    {
      hide Pow;
      hide Reverse;
      hide IsTwiddleTable;
      hide DftAt;
      EvenSize();
      ghost var bins := HalfSpectrum(input, n);
      FillAndMirror(input);
      hide Mirrored;
      hide HalfSpectrum;
      Transform(true);
      var count := if output.Length < n then output.Length else n;
      for index := 0 to count
        invariant RealParts(work[..]) == InverseOf(bins, omega, n)
        invariant forall m: nat :: m < output.Length ==>
          output[m] == if m < index then InverseOf(bins, omega, n)[m] else old(output[m])
      {
        output[index] := work[index].re;
      }
    }

    /** The given bins, zeros for missing ones, and the negative frequencies by symmetry. */
    method FillAndMirror(input: seq<Complex>)
      requires Valid() && n % 2 == 0
      modifies work
      ensures work[..] == Mirrored(HalfSpectrum(input, n), n)
    {
      hide Pow;
      hide Reverse;
      hide IsTwiddleTable;
      var half := n / 2;
      ghost var bins := HalfSpectrum(input, n);
      for index := 0 to half + 1
        invariant forall i: nat :: i < index ==> work[i] == bins[i]
      {
        work[index] := if index < |input| then input[index] else ZERO;
      }
      for k := 1 to half
        invariant forall i: nat :: i <= half ==> work[i] == bins[i]
        invariant forall i: nat :: n - k < i < n ==> work[i] == Conj(bins[n - i])
      {
        work[n - k] := Complex(work[k].re, -work[k].im);
      }
    }

    lemma EvenSize()
      requires Valid()
      ensures n % 2 == 0
    {
    }

    /** The two calls in a row give the input back, whatever the buffers held before. */
    method RoundTrip(x: array<real>, bins: array<Complex>, y: array<real>)
      requires Valid() && bins != work
      requires x.Length == y.Length == n && bins.Length == n / 2 + 1 && x != y
      modifies work, bins, y
      ensures y[..] == x[..] == old(x[..])
    {
      hide IsRoot;
      hide DftAt;
      PowerOfTwoExponent(n);
      Forward(x[..], bins);
      assert bins[..] == ForwardOf(x[..], omega, n) == HalfSpectrum(bins[..], n);
      Inverse(bins[..], y);
      InverseOfForward(x[..], omega, TrailingZeros(n) - 1);
    }

    /** The two calls the other way round: exact when and only when DC and Nyquist are real. */
    method BinsRoundTrip(bins: array<Complex>, y: array<real>, back: array<Complex>)
      requires Valid() && bins != work && back != work && bins != back
      requires y.Length == n && bins.Length == back.Length == n / 2 + 1
      modifies work, back, y
      ensures bins[..] == old(bins[..])
      ensures back[..] == bins[..] <==> bins[0].im == 0.0 && bins[n / 2].im == 0.0
    {
      hide IsRoot;
      hide DftAt;
      PowerOfTwoExponent(n);
      assert HalfSpectrum(bins[..], n) == bins[..];
      Inverse(bins[..], y);
      assert y[..] == InverseOf(bins[..], omega, n);
      Forward(y[..], back);
      assert back[..] == ForwardOf(y[..], omega, n);
      ForwardOfInverseIff(bins[..], omega, TrailingZeros(n) - 1);
    }

    method Normalize()
      requires work.Length == n > 0
      modifies work
      ensures work[..] == Scaled(Reciprocal(n), old(work[..]))
    {
      var scale := Reciprocal(n);
      ghost var bins := work[..];
      for i := 0 to n
        invariant forall j: nat :: j < i ==> work[j] == Scale(scale, bins[j])
        invariant forall j: nat :: i <= j < n ==> work[j] == bins[j]
      {
        work[i] := Complex(scale * work[i].re, scale * work[i].im);
      }
    }
  }

  lemma StageSize(n: nat, half: nat, p: nat)
    requires n == half * Pow2(p + 1) && half > 0
    ensures n == 2 * half * Pow2(p)
    ensures n / (2 * half) == Pow2(p)
    ensures half * Pow2(p) == n / 2
  {
    assert n == 2 * half * Pow2(p);
    assert n == 2 * (half * Pow2(p));
    QuotientOf(n, 2 * half, Pow2(p));
  }

  lemma QuotientOf(n: nat, len: nat, q: nat)
    requires n == len * q && len > 0
    ensures n / len == q
  {
    DivideProduct(q, len);
  }

  lemma AllBlocks(blocks: nat, q: nat, len: nat)
    requires blocks <= q && len > 0 && blocks * len >= len * q
    ensures blocks == q
  {
    if blocks < q { ProductBelow(blocks, q, len); }
  }

  lemma StageLeft(n: nat, len: nat, p: nat)
    requires 0 < len <= n && len % 2 == 0 && n == len / 2 * Pow2(p)
    ensures p > 0 && n == len * Pow2(p - 1)
  {
    assert len == 2 * (len / 2);
  }

  lemma HalfBlockTimes(len: nat, p: nat)
    requires len % 2 == 0 && p > 0
    ensures len / 2 * Pow2(p) >= len
  {
    assert len / 2 * Pow2(p) == len * Pow2(p - 1);
    AtLeastOneTimes(Pow2(p - 1), len);
  }

  lemma StagesOver(n: nat, len: nat, p: nat)
    requires n < len && len % 2 == 0 && n == len / 2 * Pow2(p)
    ensures p == 0 && len / 2 == n
  {
    if p > 0 { HalfBlockTimes(len, p); }
  }

  lemma CombinedFrame(x: seq<Complex>, before: seq<Complex>, after: seq<Complex>, half: nat, c: nat, k: nat, t: Complex)
    requires Combined(x, before, half, c, k, t)
    requires |before| == |after|
    requires forall i: nat :: i < c * (2 * half) + 2 * half && i < |before| ==> after[i] == before[i]
    ensures Combined(x, after, half, c, k, t)
  {
    hide Mul;
  }

  /** The product of a butterfly, written out in real arithmetic as the loop computes it. */
  function Product(lower: Complex, twiddle: Complex, inverse: bool): (product: Complex)
    ensures product == Mul(lower, if inverse then Conj(twiddle) else twiddle)
  {
    var twiddleIm := if inverse then -twiddle.im else twiddle.im;
    Complex(lower.re * twiddle.re - lower.im * twiddleIm, lower.re * twiddleIm + lower.im * twiddle.re)
  }

  lemma StrideInRange(k: nat, half: nat, step: nat)
    requires k < half && step > 0
    ensures k * step < half * step
  {
  }
}
