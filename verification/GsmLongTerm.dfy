/**
 * Long-term prediction and RPE grid selection of GSM 06.10 (sections 4.2.11 to 4.2.17;
 * `crates/siphon-rtp-codec/src/gsm_fr.rs`). A sub-frame reads only the 120 words before it, because
 * every lag is at least the sub-frame's length; the functions here take that window.
 */
module GsmLongTerm {
  import opened Arithmetic
  import opened FixedPoint
  import opened GsmMath
  import opened PowersOfTwo

  const GSM_DLB: seq<Word> := [6554, 16384, 26214, 32767]
  const GSM_QLB: seq<Word> := [3277, 11469, 21299, 32767]

  // ---- Lag and gain -----------------------------------------------------------------------------------

  function LtpScale(dmax: Word): (scal: int)
    requires dmax >= 0
    ensures 0 <= scal <= 6
  {
    if dmax == 0 then 0
    else
      NormFits(dmax * 65536);
      var temp := Norm(dmax * 65536);
      if temp > 6 then 0 else 6 - temp
  }

  /** The shift leaves nine bits of magnitude, and drops none it need not. */
  lemma LtpScaleFits(dmax: Word)
    requires dmax >= 0
    ensures var scal := LtpScale(dmax); dmax < 512 * Pow2(scal) && (scal > 0 ==> 256 * Pow2(scal) <= dmax)
  {
    hide Norm;
    hide Pow2;
    SmallPowers();
    if dmax > 0 {
      NormFits(dmax * 65536);
      var n := Norm(dmax * 65536);
      if n <= 6 {
        NineBits(dmax, n);
      } else {
        Pow2Order(7, n);
        ProductOrder(128, Pow2(n), dmax * 65536);
      }
    }
  }

  lemma NineBits(dmax: Word, n: nat)
    requires dmax > 0 && n <= 6 && 0x4000_0000 <= dmax * 65536 * Pow2(n) <= 0x7FFF_FFFF
    ensures 256 * Pow2(6 - n) <= dmax < 512 * Pow2(6 - n)
  {
    SmallPowers();
  }

  function Weights(d: seq<Word>): (wt: seq<Word>)
    ensures |wt| == |d|
  {
    seq(|d|, k requires 0 <= k < |d| => ShiftRight(d[k], LtpScale(Peak(d, |d|))))
  }

  /** Cross-correlation of the sub-frame with the window `lag` samples back, over the first `n` samples. */
  function Cross(wt: seq<Word>, window: seq<Word>, lag: nat, n: nat): int
    requires |wt| == 40 && |window| == 120 && 40 <= lag <= 120 && n <= 40
  {
    if n == 0 then 0 else Cross(wt, window, lag, n - 1) + wt[n - 1] as int * window[119 + n - lag] as int
  }

  function Positive(x: int): int {
    if x > 0 then x else 0
  }

  /** The first lag with the largest positive cross-correlation among 40 to `n - 1`, else 40. */
  function BestLag(wt: seq<Word>, window: seq<Word>, n: nat): (nc: nat)
    requires |wt| == 40 && |window| == 120 && 41 <= n <= 121
    ensures 40 <= nc < n
    ensures forall lag :: 40 <= lag < n ==> Cross(wt, window, lag, 40) <= Positive(Cross(wt, window, nc, 40))
    ensures nc > 40 ==> forall lag :: 40 <= lag < nc ==> Cross(wt, window, lag, 40) < Cross(wt, window, nc, 40)
    ensures nc > 40 ==> Cross(wt, window, nc, 40) > 0
  {
    if n == 41 then 40
    else
      var nc := BestLag(wt, window, n - 1);
      if Cross(wt, window, n - 1, 40) > Positive(Cross(wt, window, nc, 40)) then n - 1 else nc
  }

  /** Energy of the lagged window, with three bits dropped from every word. */
  function Power(window: seq<Word>, lag: nat, n: nat): (p: int)
    requires |window| == 120 && 40 <= lag <= 120 && n <= 40
    ensures 0 <= p <= 0x100_0000 * n
  {
    if n == 0 then 0
    else
      var x: int := window[119 + n - lag] / 8;
      BoundedProduct(x, x, 4096, 4096);
      Power(window, lag, n - 1) + x * x
  }

  /** The first gain threshold that the normalized correlation does not exceed. */
  function GainIndex(r: Word, s: Word): (bc: nat)
    ensures bc <= 3
    ensures forall c :: 0 <= c < bc ==> Mult(s, GSM_DLB[c]) < r
    ensures bc < 3 ==> r <= Mult(s, GSM_DLB[bc])
  {
    if r <= Mult(s, GSM_DLB[0]) then 0 else if r <= Mult(s, GSM_DLB[1]) then 1
    else if r <= Mult(s, GSM_DLB[2]) then 2 else 3
  }

  /** A doubled correlation below the doubled energy, both normalized by the energy's shift. */
  function NormalizedGain(max: int, power: int): (bc: nat)
    requires 0 < max < power <= 0x7FFF_FFFF
    ensures bc <= 3
  {
    NormFits(power);
    var p := Pow2(Norm(power));
    WordAfterShift(max, power, p);
    WordAfterShift(power, power, p);
    GainIndex(max * p / 65536, power * p / 65536)
  }

  lemma WordAfterShift(x: int, top: int, p: nat)
    requires 0 <= x <= top && top * p <= 0x7FFF_FFFF
    ensures InI16(x * p / 65536)
  {
    ProductOrder(x, top, p);
    ProductOrder(0, x, p);
  }

  function ScaledMax(max: int, scal: int): int
    requires 0 <= scal <= 6
  {
    max * 2 / Pow2(6 - scal)
  }

  /** The gain code of a lag: none for no correlation, the largest once it reaches the energy. */
  function Gain(max: int, power: int): (bc: nat)
    requires 0 <= power <= 0x2800_0000
    ensures bc <= 3
  {
    if max <= 0 then 0 else if max >= 2 * power then 3 else NormalizedGain(max, 2 * power)
  }

  datatype LagAndGain = LagAndGain(nc: nat, bc: nat)

  function LtpParams(d: seq<Word>, window: seq<Word>): (p: LagAndGain)
    requires |d| == 40 && |window| == 120
    ensures 40 <= p.nc <= 120 && p.bc <= 3
  {
    var wt := Weights(d);
    var nc := BestLag(wt, window, 121);
    var max := ScaledMax(Positive(Cross(wt, window, nc, 40)), LtpScale(Peak(d, |d|)));
    LagAndGain(nc, Gain(max, Power(window, nc, 40)))
  }

  // ---- The search as loops ------------------------------------------------------------------------------

  method CrossSum(wt: seq<Word>, window: seq<Word>, lag: nat) returns (sum: int)
    requires |wt| == 40 && |window| == 120 && 40 <= lag <= 120
    ensures sum == Cross(wt, window, lag, 40)
  {
    sum := 0;
    for k := 0 to 40
      invariant sum == Cross(wt, window, lag, k)
    {
      sum := sum + wt[k] as int * window[120 + k - lag] as int;
    }
  }

  method SearchLag(wt: seq<Word>, window: seq<Word>) returns (nc: nat, max: int)
    requires |wt| == 40 && |window| == 120
    ensures nc == BestLag(wt, window, 121) && max == Positive(Cross(wt, window, nc, 40))
  {
    hide Cross;
    nc, max := 40, 0;
    for lag := 40 to 121
      invariant lag == 40 ==> nc == 40 && max == 0
      invariant lag > 40 ==> nc == BestLag(wt, window, lag) && max == Positive(Cross(wt, window, nc, 40))
    {
      var sum := CrossSum(wt, window, lag);
      if sum > max {
        nc, max := lag, sum;
      }
    }
  }

  method SumPower(window: seq<Word>, nc: nat) returns (power: int)
    requires |window| == 120 && 40 <= nc <= 120
    ensures power == Power(window, nc, 40)
  {
    power := 0;
    for k := 0 to 40
      invariant power == Power(window, nc, k)
    {
      var temp: int := window[120 + k - nc] / 8;
      power := power + temp * temp;
    }
  }

  method ChooseGain(max: int, power: int) returns (bc: nat)
    requires 0 <= power <= 0x2800_0000
    ensures bc == Gain(max, power)
  {
    if max <= 0 {
      return 0;
    }
    if max >= power * 2 {
      return 3;
    }
    NormFits(power * 2);
    var p := Pow2(Norm(power * 2));
    WordAfterShift(max, power * 2, p);
    WordAfterShift(power * 2, power * 2, p);
    var r: Word, s: Word := max * p / 65536, power * 2 * p / 65536;
    hide Mult;
    hide Norm;
    bc := 3;
    for cand := 0 to 3
      invariant bc == 3 && forall c :: 0 <= c < cand ==> r > Mult(s, GSM_DLB[c])
    {
      if r <= Mult(s, GSM_DLB[cand]) {
        bc := cand;
        return;
      }
    }
  }

  method CalcLtpParams(d: seq<Word>, window: seq<Word>) returns (nc: nat, bc: nat)
    requires |d| == 40 && |window| == 120
    ensures LagAndGain(nc, bc) == LtpParams(d, window)
  {
    hide BestLag;
    hide Gain;
    hide Cross;
    hide Norm;
    hide Pow2;
    var dmax := FindPeak(d);
    var scal := 0;
    if dmax != 0 {
      var shifted: int := dmax as int * 65536;
      NormFits(shifted);
      var temp := Norm(shifted);
      if temp <= 6 { scal := 6 - temp; }
    }
    var wt: seq<Word> := [];
    for k := 0 to 40
      invariant wt == Weights(d)[..k]
    {
      wt := wt + [ShiftRight(d[k], scal)];
    }
    assert wt == Weights(d);
    var max;
    nc, max := SearchLag(wt, window);
    max := max * 2;
    max := max / Pow2(6 - scal);
    var power := SumPower(window, nc);
    bc := ChooseGain(max, power);
  }

  // ---- Weighting filter -----------------------------------------------------------------------------------

  const TAP_AT: seq<nat> := [0, 1, 3, 4, 5, 6, 7, 9, 10]
  const TAP: seq<int> := [-134, -374, 2054, 5741, 8192, 5741, 2054, -374, -134]

  function TapTotal(n: nat): nat
    requires n <= 9
  {
    if n == 0 then 0 else TapTotal(n - 1) + Abs(TAP[n - 1])
  }

  lemma TapsBounded(n: nat)
    requires n <= 9
    ensures TapTotal(n) <= 24798
  {
    assert TapTotal(4) == 8303 && TapTotal(8) == 24664;
    assert TapTotal(5) == 16495 && TapTotal(6) == 22236 && TapTotal(7) == 24290;
  }

  /** The filter sum over the first `n` taps; `e` carries five zeros at each end. */
  function Weighted(e: seq<Word>, k: nat, n: nat): (sum: int)
    requires |e| == 50 && k < 40 && n <= 9
    ensures -32768 * TapTotal(n) <= sum - 4096 <= 32768 * TapTotal(n)
  {
    if n == 0 then 4096
    else
      var x, h := e[k + TAP_AT[n - 1]], TAP[n - 1];
      BoundedProduct(x, h, 32768, Abs(h));
      TapsBounded(n);
      I32(Weighted(e, k, n - 1) + I32(x as int * h))
  }

  function WeightedBlock(e: seq<Word>): (x: seq<Word>)
    requires |e| == 50
    ensures |x| == 40
  {
    seq(40, k requires 0 <= k < 40 => Saturate(Weighted(e, k, 9) / 8192))
  }

  method WeightSample(e: seq<Word>, k: nat) returns (x: Word)
    requires |e| == 50 && k < 40
    ensures x == WeightedBlock(e)[k]
  {
    var sum := 4096;
    for n := 0 to 9
      invariant sum == Weighted(e, k, n)
    {
      BoundedProduct(e[k + TAP_AT[n]], TAP[n], 32768, Abs(TAP[n]));
      TapsBounded(n + 1);
      sum := I32(sum + I32(e[k + TAP_AT[n]] as int * TAP[n]));
    }
    x := Saturate(sum / 8192);
  }

  method WeightingFilter(e: seq<Word>) returns (x: seq<Word>)
    requires |e| == 50
    ensures x == WeightedBlock(e)
  {
    hide WeightedBlock;
    x := [];
    for k := 0 to 40
      invariant x == WeightedBlock(e)[..k]
    {
      var sample := WeightSample(e, k);
      x := x + [sample];
    }
  }

  // ---- Grid -----------------------------------------------------------------------------------------------

  /** Energy of the grid that starts at `m`, over its first `n` pulses, two bits dropped. */
  function GridEnergy(x: seq<Word>, m: nat, n: nat): (e: int)
    requires |x| == 40 && m < 4 && n <= 13
    ensures e >= 0
  {
    if n == 0 then 0
    else
      var temp: int := x[m + 3 * (n - 1)] / 4;
      GridEnergy(x, m, n - 1) + temp * temp
  }

  /** The first of the grids 0 to `n - 1` with the most energy. */
  function BestGrid(x: seq<Word>, n: nat): (mc: nat)
    requires |x| == 40 && 1 <= n <= 4
    ensures mc < n
    ensures forall m :: 0 <= m < n ==> GridEnergy(x, m, 13) <= GridEnergy(x, mc, 13)
    ensures forall m :: 0 <= m < mc ==> GridEnergy(x, m, 13) < GridEnergy(x, mc, 13)
  {
    if n == 1 then 0
    else
      var mc := BestGrid(x, n - 1);
      if GridEnergy(x, n - 1, 13) > GridEnergy(x, mc, 13) then n - 1 else mc
  }

  function Selected(x: seq<Word>, mc: nat): (xm: seq<Word>)
    requires |x| == 40 && mc < 4
    ensures |xm| == 13
  {
    seq(13, i requires 0 <= i < 13 => x[mc + 3 * i])
  }

  /** The pulses back on their grid, zeros between them. */
  function Positioned(mc: nat, xmp: seq<Word>): (ep: seq<Word>)
    requires |xmp| == 13 && mc < 4
    ensures |ep| == 40
  {
    seq(40, j requires 0 <= j < 40 =>
      if j >= mc && (j - mc) % 3 == 0 && (j - mc) / 3 < 13 then xmp[(j - mc) / 3] else 0)
  }

  /** A positioned block holds exactly its pulses on the grid it was given. */
  lemma SelectedOfPositioned(mc: nat, xmp: seq<Word>)
    requires |xmp| == 13 && mc < 4
    ensures Selected(Positioned(mc, xmp), mc) == xmp
  {
    forall i | 0 <= i < 13 ensures Selected(Positioned(mc, xmp), mc)[i] == xmp[i] {
      assert (mc + 3 * i - mc) / 3 == i;
    }
  }

  method GridSum(x: seq<Word>, m: nat) returns (sum: int)
    requires |x| == 40 && m < 4
    ensures sum == 2 * GridEnergy(x, m, 13)
  {
    sum := 0;
    for i := 0 to 13
      invariant sum == GridEnergy(x, m, i)
    {
      var temp: int := x[m + 3 * i] / 4;
      sum := sum + temp * temp;
    }
    sum := sum * 2;
  }

  method SelectGrid(x: seq<Word>) returns (xm: seq<Word>, mc: nat)
    requires |x| == 40
    ensures mc == BestGrid(x, 4) && xm == Selected(x, mc)
  {
    hide GridEnergy;
    var em := 0;
    mc := 0;
    for m := 0 to 4
      invariant m == 0 ==> mc == 0 && em == 0
      invariant m > 0 ==> mc == BestGrid(x, m) && em == 2 * GridEnergy(x, mc, 13)
    {
      var sum := GridSum(x, m);
      if sum > em {
        mc, em := m, sum;
      }
    }
    xm := [];
    for i := 0 to 13
      invariant xm == Selected(x, mc)[..i]
    {
      xm := xm + [x[mc + 3 * i]];
    }
  }

  method PositionGrid(mc: nat, xmp: seq<Word>) returns (ep: seq<Word>)
    requires |xmp| == 13 && mc < 4
    ensures ep == Positioned(mc, xmp)
  {
    var out := new Word[40](_ => 0);
    for i := 0 to 13
      invariant forall j :: 0 <= j < 40 ==>
        out[j] == if j >= mc && (j - mc) % 3 == 0 && (j - mc) / 3 < i then xmp[(j - mc) / 3] else 0
    {
      out[mc + 3 * i] := xmp[i];
    }
    ep := out[..];
  }
}
