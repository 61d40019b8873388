/**
 * The streaming polyphase resampler (`crates/siphon-rtp-dsp/src/resample.rs`) over exact reals. The
 * prototype low-pass is given tap by tap. The reference is the textbook definition: insert `L - 1`
 * zeros after every input sample, filter with the prototype, keep every `M`-th sample.
 */
module Resampling {
  import opened Arithmetic

  // ---- The textbook definition ----------------------------------------------------------------

  /** The signal at the upsampled rate: sample `j` at position `j * L`, zeros in between. */
  ghost function ZeroStuffed(x: seq<int>, up: nat, position: int): real
    requires up > 0
  {
    if position % up == 0 then SampleAt(x, position / up) else 0.0
  }

  ghost function SampleAt(x: seq<int>, j: int): real {
    if 0 <= j < |x| then x[j] as real else 0.0
  }

  /** The first `count` products of the filter output at `position`. */
  ghost function Fir(h: seq<real>, up: nat, x: seq<int>, position: int, count: nat): real
    requires up > 0 && count <= |h|
  {
    if count == 0 then 0.0
    else Fir(h, up, x, position, count - 1) + h[count - 1] * ZeroStuffed(x, up, position - (count - 1))
  }

  ghost function Reference(h: seq<real>, up: nat, down: nat, x: seq<int>, n: nat): int
    requires up > 0
  {
    RoundClamp(Fir(h, up, x, n * down, |h|))
  }

  /** Round half away from zero, then clamp to the 16-bit range. */
  function RoundClamp(acc: real): (r: int)
    ensures -32768 <= r <= 32767
    ensures -32768.0 <= acc <= 32767.0 ==> -0.5 <= r as real - acc <= 0.5
    ensures -32768.0 < acc < 32767.0 && r as real - acc == 0.5 ==> acc > 0.0
    ensures -32768.0 < acc < 32767.0 && r as real - acc == -0.5 ==> acc < 0.0
    ensures acc > 32767.0 ==> r == 32767
    ensures acc < -32768.0 ==> r == -32768
  {
    var rounded := if acc >= 0.0 then (acc + 0.5).Floor else -((0.5 - acc).Floor);
    if rounded >= 32767 then 32767 else if rounded <= -32768 then -32768 else rounded
  }

  // ---- Polyphase form -------------------------------------------------------------------------

  /** The first `taps` products of branch `phase` against the inputs ending at `newest`. */
  ghost function Branch(h: seq<real>, up: nat, x: seq<int>, phase: nat, newest: int, taps: nat): real
    requires phase < up && taps * up <= |h|
  {
    if taps == 0 then 0.0
    else
      TapInRange(phase, up, taps);
      Branch(h, up, x, phase, newest, taps - 1) + h[phase + (taps - 1) * up] * SampleAt(x, newest - (taps - 1))
  }

  lemma TapInRange(phase: nat, up: nat, taps: nat)
    requires phase < up && taps > 0
    ensures phase + (taps - 1) * up < taps * up
    ensures (taps - 1) * up <= taps * up
  {
    assert taps * up == (taps - 1) * up + up;
  }

  /** Among `L` consecutive filter taps exactly one meets a sample; the rest meet inserted zeros. */
  lemma StuffedValue(x: seq<int>, up: nat, phase: nat, newest: int, tap: nat, u: nat)
    requires phase < up && u < up
    ensures ZeroStuffed(x, up, newest * up + phase - (tap * up + u))
         == if u == phase then SampleAt(x, newest - tap) else 0.0
  {
    var q := newest - tap;
    assert newest * up - tap * up == q * up;
    if u <= phase {
      QuotientAndRest(q, up, phase - u);
    } else {
      assert q * up == (q - 1) * up + up;
      QuotientAndRest(q - 1, up, up + phase - u);
    }
  }

  lemma {:induction false} FirWithinBlock(h: seq<real>, up: nat, x: seq<int>, phase: nat, newest: int, tap: nat, u: nat)
    requires phase < up && u <= up && tap * up + up <= |h|
    ensures Fir(h, up, x, newest * up + phase, tap * up + u)
         == Fir(h, up, x, newest * up + phase, tap * up)
            + if u > phase then h[phase + tap * up] * SampleAt(x, newest - tap) else 0.0
  {
    hide ZeroStuffed;
    hide SampleAt;
    if u != 0 {
      FirWithinBlock(h, up, x, phase, newest, tap, u - 1);
      StuffedValue(x, up, phase, newest, tap, u - 1);
    }
  }

  lemma BranchStep(h: seq<real>, up: nat, x: seq<int>, phase: nat, newest: int, tap: nat)
    requires phase < up && tap * up + up <= |h|
    ensures (tap + 1) * up == tap * up + up
    ensures Branch(h, up, x, phase, newest, tap + 1)
         == Branch(h, up, x, phase, newest, tap) + h[phase + tap * up] * SampleAt(x, newest - tap)
  {
  }

  lemma {:induction false} FirIsBranch(h: seq<real>, up: nat, x: seq<int>, phase: nat, newest: int, taps: nat)
    requires phase < up && taps * up <= |h|
    ensures Fir(h, up, x, newest * up + phase, taps * up) == Branch(h, up, x, phase, newest, taps)
  {
    hide *;
    if taps == 0 {
      NothingYet(h, up, x, phase, newest);
    } else {
      NextBlock(taps, up);
      FirIsBranch(h, up, x, phase, newest, taps - 1);
      FirWithinBlock(h, up, x, phase, newest, taps - 1, up);
      BranchStep(h, up, x, phase, newest, taps - 1);
    }
  }

  lemma NothingYet(h: seq<real>, up: nat, x: seq<int>, phase: nat, newest: int)
    requires phase < up
    ensures Fir(h, up, x, newest * up + phase, 0) == 0.0
    ensures Branch(h, up, x, phase, newest, 0) == 0.0
  {
  }

  lemma NextBlock(taps: nat, up: nat)
    requires taps > 0
    ensures taps * up == (taps - 1) * up + up
  {
  }

  /** The textbook output as one branch of the polyphase filter. */
  lemma ReferenceIsBranch(h: seq<real>, up: nat, down: nat, x: seq<int>, n: nat, taps: nat)
    requires up > 0 && |h| == taps * up
    ensures Reference(h, up, down, x, n)
         == RoundClamp(Branch(h, up, x, n * down % up, n * down / up, taps))
  {
    hide RoundClamp;
    hide Fir;
    hide Branch;
    var position := n * down;
    assert position == position / up * up + position % up;
    FirIsBranch(h, up, x, position % up, position / up, taps);
  }

  lemma {:induction false} BranchCausal(
      h: seq<real>, up: nat, x: seq<int>, more: seq<int>, phase: nat, newest: int, taps: nat)
    requires phase < up && taps * up <= |h| && newest < |x|
    ensures Branch(h, up, x + more, phase, newest, taps) == Branch(h, up, x, phase, newest, taps)
  {
    if taps != 0 {
      TapInRange(phase, up, taps);
      BranchCausal(h, up, x, more, phase, newest, taps - 1);
    }
  }

  /** An output whose source has arrived does not depend on later input. */
  lemma ReferenceCausal(h: seq<real>, up: nat, down: nat, x: seq<int>, more: seq<int>, n: nat, taps: nat)
    requires up > 0 && |h| == taps * up && n * down < |x| * up
    ensures Reference(h, up, down, x + more, n) == Reference(h, up, down, x, n)
  {
    hide RoundClamp;
    ReferenceIsBranch(h, up, down, x, n, taps);
    ReferenceIsBranch(h, up, down, x + more, n, taps);
    SourceArrived(n * down, up, |x|);
    BranchCausal(h, up, x, more, n * down % up, n * down / up, taps);
  }

  lemma SourceArrived(position: nat, up: nat, count: nat)
    requires up > 0
    ensures position < count * up <==> position / up < count
  {
    var q, r := position / up, position % up;
    assert position == q * up + r;
    if q < count {
      assert count * up == q * up + (count - q) * up;
      AtLeastOneTimes(count - q, up);
    } else {
      assert q * up == count * up + (q - count) * up;
    }
  }

  // ---- Reversed rows and the contiguous dot product -----------------------------------------------

  function FirDot(a: seq<real>, b: seq<real>): real
    requires |a| == |b|
  {
    if |a| == 0 then 0.0 else a[0] * b[0] + FirDot(a[1..], b[1..])
  }

  /** The last `m` inputs up to `newest`, oldest first. */
  ghost function Window(x: seq<int>, newest: nat, m: nat): (w: seq<real>)
    requires m <= newest + 1 <= |x|
    ensures |w| == m
  {
    seq(m, p requires 0 <= p < m => x[newest + 1 - m + p] as real)
  }

  /** The last `m` entries of a tap-reversed row: taps `m - 1` down to `0`. */
  ghost function ReversedTaps(h: seq<real>, up: nat, phase: nat, m: nat): (c: seq<real>)
    requires phase < up && m * up <= |h|
    ensures |c| == m
  {
    seq(m, p requires 0 <= p < m => (TapBelow(phase, up, m - 1 - p, m); h[phase + (m - 1 - p) * up]))
  }

  lemma WindowPrefix(x: seq<int>, newest: nat, m: nat, count: nat)
    requires m <= newest + 1 <= |x| && 0 < count <= m
    ensures Window(x, newest, m)[..count] == Window(x, newest - m + count, count)
  {
  }

  lemma TapBelow(phase: nat, up: nat, tap: nat, m: nat)
    requires phase < up && tap < m
    ensures phase + tap * up < m * up
  {
    assert m * up == tap * up + (m - tap) * up;
    AtLeastOneTimes(m - tap, up);
  }

  lemma {:induction false} DotIsBranch(h: seq<real>, up: nat, x: seq<int>, phase: nat, newest: nat, m: nat)
    requires phase < up && m * up <= |h| && m <= newest + 1 <= |x|
    ensures FirDot(Window(x, newest, m), ReversedTaps(h, up, phase, m)) == Branch(h, up, x, phase, newest, m)
  {
    if m != 0 {
      TapInRange(phase, up, m);
      NextBlock(m, up);
      DotIsBranch(h, up, x, phase, newest, m - 1);
      BranchStep(h, up, x, phase, newest, m - 1);
      assert Window(x, newest, m)[1..] == Window(x, newest, m - 1);
      assert ReversedTaps(h, up, phase, m)[1..] == ReversedTaps(h, up, phase, m - 1);
    }
  }

  /** Taps that reach before the start of the stream add nothing. */
  lemma {:induction false} BranchFromStart(
      h: seq<real>, up: nat, x: seq<int>, phase: nat, newest: nat, m: nat, taps: nat)
    requires phase < up && taps * up <= |h| && newest + 1 == m <= taps
    ensures m * up <= |h|
    ensures Branch(h, up, x, phase, newest, taps) == Branch(h, up, x, phase, newest, m)
    decreases taps
  {
    if m < taps {
      NextBlock(taps, up);
      BranchFromStart(h, up, x, phase, newest, m, taps - 1);
      BranchStep(h, up, x, phase, newest, taps - 1);
    }
  }

  ghost predicate LaidOut(rows: seq<real>, h: seq<real>, up: nat, taps: nat, phase: nat, tap: nat) {
    && phase + tap * up < |h|
    && 0 <= phase * taps + (taps - 1 - tap) < |rows|
    && rows[phase * taps + (taps - 1 - tap)] == h[phase + tap * up]
  }

  ghost predicate IsLayout(rows: seq<real>, h: seq<real>, up: nat, taps: nat) {
    && |rows| == |h| == taps * up
    && forall phase: nat, tap: nat :: phase < up && tap < taps ==> LaidOut(rows, h, up, taps, phase, tap)
  }

  lemma RowIndex(phase: nat, up: nat, taps: nat, tap: nat)
    requires phase < up && tap < taps
    ensures phase * taps <= phase * taps + (taps - 1 - tap) < phase * taps + taps <= taps * up
    ensures phase + tap * up < taps * up
  {
    assert taps * up == phase * taps + (up - phase) * taps;
    AtLeastOneTimes(up - phase, taps);
    TapBelow(phase, up, tap, taps);
  }

  lemma LayoutKept(
      rows: seq<real>, h: seq<real>, up: nat, taps: nat, phase: nat, tap: nat, row: nat, value: real, at: nat)
    requires LaidOut(rows, h, up, taps, phase, tap) && tap < taps && at < taps && phase <= row
    requires row * taps + (taps - 1 - at) < |rows|
    requires phase < row || tap < at
    ensures LaidOut(rows[row * taps + (taps - 1 - at) := value], h, up, taps, phase, tap)
  {
    if phase < row { ProductBelow(phase, row, taps); }
  }

  /** The polyphase decomposition: every row holds its branch with the taps reversed. */
  method BuildRows(h: seq<real>, up: nat, taps: nat) returns (rows: seq<real>)
    requires |h| == taps * up
    ensures IsLayout(rows, h, up, taps)
  {
    hide LaidOut;
    rows := seq(|h|, _ => 0.0);
    for phase := 0 to up
      invariant |rows| == |h|
      invariant forall p: nat, t: nat :: p < phase && t < taps ==> LaidOut(rows, h, up, taps, p, t)
    {
      for tap := 0 to taps
        invariant |rows| == |h|
        invariant forall p: nat, t: nat :: p < phase && t < taps ==> LaidOut(rows, h, up, taps, p, t)
        invariant forall t: nat :: t < tap ==> LaidOut(rows, h, up, taps, phase, t)
      {
        RowIndex(phase, up, taps, tap);
        var source := phase + tap * up;
        var coefficient := if source < |h| then h[source] else 0.0;
        var slot := phase * taps + (taps - 1 - tap);
        var next := rows[slot := coefficient];
        forall p: nat, t: nat | p < phase && t < taps ensures LaidOut(next, h, up, taps, p, t)
        {
          LayoutKept(rows, h, up, taps, p, t, phase, coefficient, tap);
        }
        forall t: nat | t < tap ensures LaidOut(next, h, up, taps, phase, t) {
          LayoutKept(rows, h, up, taps, phase, t, phase, coefficient, tap);
        }
        LayoutWritten(rows, h, up, taps, phase, tap);
        rows := next;
      }
    }
  }

  lemma LayoutWritten(rows: seq<real>, h: seq<real>, up: nat, taps: nat, phase: nat, tap: nat)
    requires phase + tap * up < |h| && tap < taps && phase * taps + (taps - 1 - tap) < |rows|
    ensures LaidOut(rows[phase * taps + (taps - 1 - tap) := h[phase + tap * up]], h, up, taps, phase, tap)
  {
  }

  /** The slice of a row that `Filter` uses is the branch's first taps, reversed. */
  lemma RowTail(rows: seq<real>, h: seq<real>, up: nat, taps: nat, phase: nat, m: nat)
    requires IsLayout(rows, h, up, taps) && phase < up && m <= taps
    ensures phase * taps + (taps - m) <= (phase + 1) * taps <= |rows| && m * up <= |h|
    ensures rows[phase * taps + (taps - m)..(phase + 1) * taps] == ReversedTaps(h, up, phase, m)
  {
    RowBounds(phase, up, taps, m);
    var start := phase * taps + (taps - m);
    var tail, expected := rows[start..(phase + 1) * taps], ReversedTaps(h, up, phase, m);
    forall p: nat | p < m ensures tail[p] == expected[p] {
      assert LaidOut(rows, h, up, taps, phase, m - 1 - p);
    }
  }

  lemma RowDot(rows: seq<real>, h: seq<real>, up: nat, taps: nat, x: seq<int>, phase: nat, source: nat, base: nat)
    requires IsLayout(rows, h, up, taps) && phase < up && base < taps && base <= source < |x|
    ensures 0 <= phase * taps + (taps - 1 - base) <= (phase + 1) * taps <= |rows|
    ensures (base + 1) * up <= |h|
    ensures |rows[phase * taps + (taps - 1 - base)..(phase + 1) * taps]| == base + 1
    ensures FirDot(Window(x, source, base + 1), rows[phase * taps + (taps - 1 - base)..(phase + 1) * taps])
         == Branch(h, up, x, phase, source, base + 1)
  {
    hide IsLayout;
    hide FirDot;
    hide Branch;
    hide Window;
    hide ReversedTaps;
    RowTail(rows, h, up, taps, phase, base + 1);
    DotIsBranch(h, up, x, phase, source, base + 1);
  }

  lemma RowBounds(phase: nat, up: nat, taps: nat, m: nat)
    requires phase < up && m <= taps
    ensures phase * taps + taps == (phase + 1) * taps <= taps * up
    ensures m * up <= taps * up
  {
    ProductOrder(m, taps, up);
    ProductOrder(phase + 1, up, taps);
  }

  // ---- The streaming object ----------------------------------------------------------------------

  predicate Divides(d: nat, n: nat) {
    d > 0 && n % d == 0
  }

  lemma DividesRest(d: nat, a: nat, b: nat)
    requires b > 0
    ensures Divides(d, a) && Divides(d, b) <==> Divides(d, b) && Divides(d, a % b)
  {
    if Divides(d, b) {
      var k, q := b / d, a / b;
      assert b == k * d;
      assert a == q * b + a % b;
      assert q * b == q * k * d;
      AddMultiple(a % b, q * k, d);
    }
  }

  lemma AddMultiple(r: nat, k: nat, d: nat)
    requires d > 0
    ensures (k * d + r) % d == r % d
  {
    var q := r / d;
    assert k * d + r == (k + q) * d + r % d;
    QuotientAndRest(k + q, d, r % d);
  }

  /** Euclid's loop: the result divides both and every common divisor divides it. */
  method Gcd(first: nat, second: nat) returns (g: nat)
    ensures g >= 1
    ensures first > 0 || second > 0 ==> Divides(g, first) && Divides(g, second)
    ensures first > 0 || second > 0 ==> forall d: nat :: Divides(d, first) && Divides(d, second) ==> Divides(d, g)
    ensures first == 0 && second == 0 ==> g == 1
  {
    var a, b := first, second;
    while b != 0
      invariant forall d: nat :: Divides(d, a) && Divides(d, b) <==> Divides(d, first) && Divides(d, second)
      invariant a == 0 && b == 0 <==> first == 0 && second == 0
      decreases b
    {
      forall d: nat ensures Divides(d, a) && Divides(d, b) <==> Divides(d, b) && Divides(d, a % b) {
        DividesRest(d, a, b);
      }
      a, b := b, a % b;
    }
    assert a > 0 ==> Divides(a, a) && Divides(a, 0);
    g := if a < 1 then 1 else a;
  }

  ghost function CeilDiv(a: nat, b: nat): nat
    requires b > 0
  {
    (a + b - 1) / b
  }

  lemma CeilDivMeaning(a: nat, b: nat, n: nat)
    requires b > 0
    ensures n >= CeilDiv(a, b) <==> n * b >= a
  {
    var c := CeilDiv(a, b);
    var r := (a + b - 1) % b;
    assert c * b + r == a + b - 1;
    if n >= c { ProductOrder(c, n, b); } else { ProductOrder(n + 1, c, b); }
  }

  /** The first `n` outputs of the textbook resampler for the whole input `x`. */
  ghost function Outputs(h: seq<real>, up: nat, down: nat, x: seq<int>, n: nat): (out: seq<int>)
    requires up > 0
    ensures |out| == n
  {
    seq(n, (k: nat) => Reference(h, up, down, x, k))
  }

  datatype ResamplerResult = Built(resampler: Resampler) | ZeroRate

  class Resampler {
    const inputRate: nat
    const outputRate: nat
    const upsample: nat
    const downsample: nat
    const tapsPerPhase: nat
    const branchesRev: seq<real>
    ghost const prototype: seq<real>
    var history: seq<real>
    var inputsSeen: nat
    var outputIndex: nat
    /** Every sample fed since construction or the last reset. */
    ghost var consumed: seq<int>

    ghost predicate Shaped() {
      && upsample > 0 && downsample > 0 && tapsPerPhase >= 2
      && IsLayout(branchesRev, prototype, upsample, tapsPerPhase)
    }

    ghost predicate Valid()
      reads this
    {
      && Shaped()
      && inputsSeen == |consumed|
      && |history| == (if inputsSeen < tapsPerPhase then inputsSeen else tapsPerPhase)
      && (inputsSeen > 0 ==> history == Window(consumed, inputsSeen - 1, |history|))
      && outputIndex == CeilDiv(inputsSeen * upsample, downsample)
    }

    constructor (inRate: nat, outRate: nat, up: nat, down: nat, taps: nat, rows: seq<real>, ghost h: seq<real>)
      requires up > 0 && down > 0 && taps >= 2 && IsLayout(rows, h, up, taps)
      ensures Valid() && consumed == []
      ensures inputRate == inRate && outputRate == outRate && upsample == up && downsample == down
      ensures tapsPerPhase == taps && prototype == h
    {
      inputRate, outputRate, upsample, downsample := inRate, outRate, up, down;
      tapsPerPhase, branchesRev, prototype := taps, rows, h;
      history, inputsSeen, outputIndex, consumed := [], 0, 0, [];
    }

    /** Builds the reduced ratio and the rows; refuses a zero rate. `lowPass` gives the prototype taps. */
    static method WithTaps(inRate: nat, outRate: nat, taps: nat, lowPass: nat -> real) returns (r: ResamplerResult)
      ensures r.ZeroRate? <==> inRate == 0 || outRate == 0
      ensures r.Built? ==> fresh(r.resampler) && r.resampler.Valid() && r.resampler.consumed == []
      ensures r.Built? ==> var s := r.resampler;
        && s.upsample * inRate == s.downsample * outRate
        && (forall d: nat :: Divides(d, s.upsample) && Divides(d, s.downsample) ==> d == 1)
        && s.tapsPerPhase == (if taps < 2 then 2 else taps)
        && s.prototype == seq(s.tapsPerPhase * s.upsample, lowPass)
    {
      if inRate == 0 || outRate == 0 { return ZeroRate; }
      var divisor := Gcd(inRate, outRate);
      var up, down := outRate / divisor, inRate / divisor;
      ReducedRatio(inRate, outRate, divisor);
      var tapsPerPhase := if taps < 2 then 2 else taps;
      var h := seq(tapsPerPhase * up, lowPass);
      var rows := BuildRows(h, up, tapsPerPhase);
      var resampler := new Resampler(inRate, outRate, up, down, tapsPerPhase, rows, h);
      return Built(resampler);
    }

    /** Forget the stream; the next sample starts a new one. */
    method Reset()
      requires Valid()
      modifies this
      ensures Valid() && consumed == []
    {
      history, inputsSeen, outputIndex := [], 0, 0;
      consumed := [];
    }

    /** Slide the delay line by one sample. */
    method Push(sample: int)
      requires Valid()
      modifies `history, `inputsSeen, `consumed
      ensures consumed == old(consumed) + [sample] && inputsSeen == |consumed|
      ensures |history| == if inputsSeen < tapsPerPhase then inputsSeen else tapsPerPhase
      ensures history == Window(consumed, inputsSeen - 1, |history|)
    {
      if |history| == tapsPerPhase {
        history := history[1..];
      }
      history := history + [sample as real];
      inputsSeen := inputsSeen + 1;
      consumed := consumed + [sample];
    }

    /** One contiguous dot product: the branch over the part of the history up to `source`. */
    method Filter(phase: nat, source: nat) returns (r: int)
      requires Shaped() && phase < upsample && source < inputsSeen == |consumed|
      requires |history| == (if inputsSeen < tapsPerPhase then inputsSeen else tapsPerPhase)
      requires history == Window(consumed, inputsSeen - 1, |history|)
      ensures source < inputsSeen - |history| ==> r == 0
      ensures source >= inputsSeen - |history| ==>
        && (source - (inputsSeen - |history|) + 1) * upsample <= |prototype|
        && r == RoundClamp(Branch(prototype, upsample, consumed, phase, source, source - (inputsSeen - |history|) + 1))
    {
      hide RoundClamp;
      hide IsLayout;
      hide FirDot;
      hide Branch;
      hide Window;
      hide ReversedTaps;
      var historyStart := inputsSeen - |history|;
      if source < historyStart { return 0; }
      var base := source - historyStart;
      var taps := tapsPerPhase;
      RowDot(branchesRev, prototype, upsample, taps, consumed, phase, source, base);
      var coefficients := branchesRev[phase * taps + (taps - 1 - base)..(phase + 1) * taps];
      WindowPrefix(consumed, inputsSeen - 1, |history|, base + 1);
      r := RoundClamp(FirDot(history[..base + 1], coefficients));
    }

    /** At the newest input the whole branch is covered, so the output is the textbook one. */
    method Emit() returns (r: int)
      requires Shaped() && 0 < inputsSeen == |consumed|
      requires |history| == (if inputsSeen < tapsPerPhase then inputsSeen else tapsPerPhase)
      requires history == Window(consumed, inputsSeen - 1, |history|)
      requires outputIndex * downsample / upsample == inputsSeen - 1
      ensures r == Reference(prototype, upsample, downsample, consumed, outputIndex)
    {
      hide RoundClamp;
      hide Branch;
      var position := outputIndex * downsample;
      var phase, source := position % upsample, position / upsample;
      r := Filter(phase, source);
      assert |prototype| == tapsPerPhase * upsample;
      ReferenceIsBranch(prototype, upsample, downsample, consumed, outputIndex, tapsPerPhase);
      if inputsSeen < tapsPerPhase {
        BranchFromStart(prototype, upsample, consumed, phase, source, inputsSeen, tapsPerPhase);
      }
    }

    /** Resample `input`, appending to `output` exactly the outputs that have become due. */
    method Process(input: seq<int>, output: seq<int>) returns (appended: seq<int>)
      requires Valid()
      modifies this
      ensures Valid() && consumed == old(consumed) + input
      ensures old(outputIndex) <= outputIndex
      ensures appended == output + Outputs(prototype, upsample, downsample, consumed, outputIndex)[old(outputIndex)..]
    {
      hide CeilDiv;
      hide IsLayout;
      hide Reference;
      hide Outputs;
      appended := output;
      for i := 0 to |input|
        invariant Valid() && consumed == old(consumed) + input[..i]
        invariant old(outputIndex) <= outputIndex
        invariant appended
               == output + Outputs(prototype, upsample, downsample, consumed, outputIndex)[old(outputIndex)..]
      {
        var step := ProcessSample(input[i]);
        appended := appended + step;
      }
    }

    method ProcessSample(sample: int) returns (emitted: seq<int>)
      requires Valid()
      modifies this
      ensures Valid() && consumed == old(consumed) + [sample]
      ensures old(outputIndex) <= outputIndex
      ensures emitted == Outputs(prototype, upsample, downsample, consumed, outputIndex)[old(outputIndex)..]
      ensures Outputs(prototype, upsample, downsample, old(consumed), old(outputIndex))
           == Outputs(prototype, upsample, downsample, consumed, outputIndex)[..old(outputIndex)]
    {
      hide CeilDiv;
      hide Reference;
      ghost var before, first := consumed, outputIndex;
      Push(sample);
      var newest := inputsSeen - 1;
      CeilDivGrows(upsample, downsample, newest, inputsSeen);
      emitted := [];
      while true
        invariant first <= outputIndex <= CeilDiv(inputsSeen * upsample, downsample)
        invariant emitted == Outputs(prototype, upsample, downsample, consumed, outputIndex)[first..]
        decreases CeilDiv(inputsSeen * upsample, downsample) - outputIndex
        modifies `outputIndex
      {
        SourceIsNewest(upsample, downsample, outputIndex, inputsSeen);
        var position := outputIndex * downsample;
        if position / upsample > newest { break; }
        var r := Emit();
        emitted := emitted + [r];
        outputIndex := outputIndex + 1;
      }
      OutputsCausal(prototype, upsample, downsample, before, [sample], tapsPerPhase, first);
    }

    /** Any splitting of a stream into calls yields the outputs of the whole stream in one piece. */
    method ProcessChunks(chunks: seq<seq<int>>) returns (output: seq<int>)
      requires Valid() && consumed == []
      modifies this
      ensures Valid() && consumed == Concatenated(chunks)
      ensures |output| == CeilDiv(|consumed| * upsample, downsample)
      ensures output == Outputs(prototype, upsample, downsample, Concatenated(chunks), |output|)
    {
      hide CeilDiv;
      hide Reference;
      CeilDivMeaning(0 * upsample, downsample, 0);
      output := [];
      for i := 0 to |chunks|
        invariant Valid() && consumed == Concatenated(chunks[..i])
        invariant output == Outputs(prototype, upsample, downsample, consumed, outputIndex)
      {
        ghost var before, first := consumed, outputIndex;
        output := Process(chunks[i], output);
        assert chunks[..i + 1][..i] == chunks[..i];
        OutputsCausal(prototype, upsample, downsample, before, chunks[i], tapsPerPhase, first);
      }
      assert chunks[..|chunks|] == chunks;
    }
  }

  /** Output `n` has its source at the newest input exactly when it first becomes available. */
  lemma SourceIsNewest(up: nat, down: nat, n: nat, seen: nat)
    requires up > 0 && down > 0 && seen > 0
    requires n >= CeilDiv((seen - 1) * up, down)
    ensures n * down / up >= seen - 1
    ensures n * down / up <= seen - 1 <==> n < CeilDiv(seen * up, down)
  {
    CeilDivMeaning((seen - 1) * up, down, n);
    CeilDivMeaning(seen * up, down, n);
    SourceArrived(n * down, up, seen - 1);
    SourceArrived(n * down, up, seen);
  }

  lemma CeilDivGrows(up: nat, down: nat, seen: nat, more: nat)
    requires down > 0 && seen <= more
    ensures CeilDiv(seen * up, down) <= CeilDiv(more * up, down)
  {
    ProductOrder(seen, more, up);
    CeilDivMeaning(more * up, down, CeilDiv(more * up, down));
    CeilDivMeaning(seen * up, down, CeilDiv(more * up, down));
  }

  /** Later input leaves every output already due unchanged. */
  lemma OutputsCausal(h: seq<real>, up: nat, down: nat, x: seq<int>, more: seq<int>, taps: nat, n: nat)
    requires up > 0 && down > 0 && |h| == taps * up && n <= CeilDiv(|x| * up, down)
    ensures Outputs(h, up, down, x + more, n) == Outputs(h, up, down, x, n)
  {
    hide CeilDiv;
    hide Reference;
    forall k: nat | k < n
      ensures Outputs(h, up, down, x + more, n)[k] == Outputs(h, up, down, x, n)[k]
    {
      CeilDivMeaning(|x| * up, down, k);
      ReferenceCausal(h, up, down, x, more, k, taps);
    }
  }

  ghost function Concatenated(chunks: seq<seq<int>>): seq<int> {
    if |chunks| == 0 then [] else Concatenated(chunks[..|chunks| - 1]) + chunks[|chunks| - 1]
  }

  lemma ReducedRatio(inRate: nat, outRate: nat, g: nat)
    requires inRate > 0 && outRate > 0 && Divides(g, inRate) && Divides(g, outRate)
    requires forall d: nat :: Divides(d, inRate) && Divides(d, outRate) ==> Divides(d, g)
    ensures outRate / g > 0 && inRate / g > 0
    ensures outRate / g * inRate == inRate / g * outRate
    ensures forall d: nat :: Divides(d, outRate / g) && Divides(d, inRate / g) ==> d == 1
  {
    var up, down := outRate / g, inRate / g;
    assert outRate == up * g && inRate == down * g;
    forall d: nat | Divides(d, up) && Divides(d, down) ensures d == 1 {
      ProductDivides(d, up, g);
      ProductDivides(d, down, g);
      NoLargerDivisor(d, g);
    }
  }

  lemma ProductDivides(d: nat, n: nat, g: nat)
    requires Divides(d, n) && g > 0
    ensures Divides(d * g, n * g)
  {
    var k := n / d;
    assert n * g == k * (d * g) + 0;
    QuotientAndRest(k, d * g, 0);
  }

  lemma NoLargerDivisor(d: nat, g: nat)
    requires d > 0 && g > 0 && Divides(d * g, g)
    ensures d == 1
  {
    DivisorAtMost(d * g, g);
    if d >= 2 { ProductBelow(1, d, g); }
  }

  lemma DivisorAtMost(m: nat, n: nat)
    requires n > 0 && Divides(m, n)
    ensures m <= n
  {
    if m > n { RestOfSmaller(n, m); }
  }

  lemma RestOfSmaller(n: nat, m: nat)
    requires n < m
    ensures n % m == n
  {
    QuotientAndRest(0, m, n);
  }
}
