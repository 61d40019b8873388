/**
 * G.726 over packets (`crates/siphon-rtp-codec/src/g726.rs`). The decoder takes every whole codeword a
 * payload has room for, so zero padding of a codeword or more is decoded as samples nobody sent. This
 * module shows exactly when that happens, that it always costs the two ends their common state, and so
 * exactly which packet sizes keep a stream in step.
 */
module G726Packets {
  import opened Arithmetic
  import opened BitStream
  import opened FixedPoint
  import opened G726
  import opened G726Codec
  import opened PowersOfTwo

  // ---- Padding ----------------------------------------------------------------------------------------

  /** The padding after `n` codewords is too short to hold another one. */
  predicate Whole(rate: Rate, n: nat) {
    8 * PackedSize(rate, n) - BitsFor(rate, n) < CodewordBits(rate)
  }

  /** Samples a decoder finds in the padding. */
  function Phantoms(rate: Rate, n: nat): (p: nat)
    ensures p <= 3 && (rate != R16 ==> p <= 2) && (n == 0 ==> p == 0)
    ensures p == 0 <==> Whole(rate, n)
  {
    PaddingRoom(rate, n);
    SampleCount(rate, PackedSize(rate, n)) - n
  }

  lemma PaddingRoom(rate: Rate, n: nat)
    ensures n <= SampleCount(rate, PackedSize(rate, n)) <= n + (if rate == R16 then 3 else 2)
    ensures SampleCount(rate, PackedSize(rate, n)) == n <==> Whole(rate, n)
    ensures SampleCount(rate, PackedSize(rate, 0)) == 0
  {
    hide CodewordBits;
    var w := CodewordBits(rate);
    var b := BitsFor(rate, n);
    var pad := 8 * PackedSize(rate, n) - b;
    assert b == n * w && 0 <= pad < 8;
    CountWithPadding(n, w, pad);
    PaddingQuotient(rate, pad);
    NextBits(rate, 0);
    QuotientAndRest(0, w, 0);
  }

  lemma CountWithPadding(n: nat, w: nat, pad: nat)
    requires w > 0
    ensures (n * w + pad) / w == n + pad / w
  {
    assert n * w + pad == (n + pad / w) * w + pad % w;
    QuotientAndRest(n + pad / w, w, pad % w);
  }

  lemma PaddingQuotient(rate: Rate, pad: nat)
    requires pad < 8
    ensures pad / CodewordBits(rate) <= (if rate == R16 then 3 else 2)
    ensures pad / CodewordBits(rate) == 0 <==> pad < CodewordBits(rate)
  {
  }

  /** `k` zero codewords. */
  ghost function Zeros(rate: Rate, k: nat): (codes: seq<nat>)
    ensures |codes| == k && AreCodes(rate, codes) && forall i :: 0 <= i < k ==> codes[i] == 0
  {
    seq(k, _ => 0)
  }

  lemma {:induction false} ZeroBits(width: nat)
    ensures |ToBits(0, width)| == width && forall i :: 0 <= i < width ==> !ToBits(0, width)[i]
  {
    if width != 0 { ZeroBits(width - 1); }
  }

  lemma {:induction false} NoBitsSet(bits: seq<bool>)
    requires forall i :: 0 <= i < |bits| ==> !bits[i]
    ensures FromBits(bits) == 0
  {
    if |bits| != 0 { NoBitsSet(bits[1..]); }
  }

  lemma PackingSize(rate: Rate, codes: seq<nat>, bytes: seq<nat>)
    requires IsPacking(rate, codes, bytes)
    ensures |bytes| == PackedSize(rate, |codes|)
  {
    hide ToBits;
    hide Stream;
  }

  /** Whatever is unpacked beyond the codewords is zero. */
  lemma PaddingIsZero(rate: Rate, codes: seq<nat>, bytes: seq<nat>, k: nat)
    requires IsPacking(rate, codes, bytes) && |codes| <= k < SampleCount(rate, |bytes|)
    ensures UnpackedAt(rate, bytes, k) == 0
  {
    hide ToBits;
    hide Stream;
    hide FromBits;
    hide CodewordBits;
    var width := CodewordBits(rate);
    var bits, pad := Stream(codes, width), |bytes| * 8 - |codes| * width;
    WordFits(rate, |bytes|, k);
    ProductOrder(|codes|, k, width);
    ZeroBits(pad);
    var word := Stream(bytes, 8)[k * width..k * width + width];
    forall i | 0 <= i < |word| ensures !word[i] {
      assert word[i] == (bits + ToBits(0, pad))[k * width + i];
    }
    NoBitsSet(word);
  }

  /** The decoder reads the codewords and then one zero per phantom sample. */
  lemma {:induction false} UnpackedWithPadding(rate: Rate, codes: seq<nat>, bytes: seq<nat>, p: nat)
    requires AreCodes(rate, codes) && IsPacking(rate, codes, bytes) && |codes| + p <= SampleCount(rate, |bytes|)
    ensures Unpacked(rate, bytes, |codes| + p) == codes + Zeros(rate, p)
  {
    hide IsPacking;
    hide UnpackedAt;
    if p == 0 {
      UnpackedIsPrefix(rate, codes, bytes, |codes|);
    } else {
      UnpackedWithPadding(rate, codes, bytes, p - 1);
      PaddingIsZero(rate, codes, bytes, |codes| + p - 1);
      assert Zeros(rate, p) == Zeros(rate, p - 1) + [0];
    }
  }

  /**
   * The payload is one number: octets and codewords are its digits, the least significant first, so the
   * first codeword is in the low bits of the first octet.
   */
  lemma PacketIsNumber(rate: Rate, codes: seq<nat>, bytes: seq<nat>)
    requires AreCodes(rate, codes) && IsPacking(rate, codes, bytes)
    ensures LittleEndian(bytes, 8) == LittleEndian(codes, CodewordBits(rate))
  {
    hide FromBits;
    hide ToBits;
    hide LittleEndian;
    hide Stream;
    var width := CodewordBits(rate);
    var bits := Stream(codes, width);
    var pad := |bytes| * 8 - |bits|;
    CodesBelow(rate, codes);
    BytesBelow(bytes);
    StreamNumber(codes, width);
    StreamNumber(bytes, 8);
    FromBitsJoin(bits, ToBits(0, pad));
    ZeroBits(pad);
    NoBitsSet(ToBits(0, pad));
  }

  lemma CodesBelow(rate: Rate, codes: seq<nat>)
    requires AreCodes(rate, codes)
    ensures forall i :: 0 <= i < |codes| ==> codes[i] < Pow2(CodewordBits(rate))
  {
    assert Pow2(2) == 4 && Pow2(3) == 8;
    assert Pow2(4) == 16 && Pow2(5) == 32;
  }

  lemma BytesBelow(bytes: seq<nat>)
    requires AreBytes(bytes)
    ensures forall i :: 0 <= i < |bytes| ==> bytes[i] < Pow2(8)
  {
    assert Pow2(4) == 16 && Pow2(8) == 256;
  }

  // ---- What a zero codeword does to the state ----------------------------------------------------------

  /** The quantized difference of a codeword in a state. */
  function DifferenceOf(rate: Rate, s: State, code: int): int
    requires IsCode(rate, code) && Ok(s)
  {
    Reconstruct(code >= SignBit(rate), Dqlntab(rate)[code], StepSize(s))
  }

  /** The stored float is the one for plus zero exactly for a difference of plus zero. */
  lemma PlusZeroMark(dq: int)
    requires InI16(dq)
    ensures FloatA(dq) == 32 <==> dq == 0
    ensures dq > 0 ==> FloatA(dq) > 0
  {
    hide FloatOf;
    hide Wrap16;
    var mag := dq % 0x8000;
    if mag != 0 { FloatIsNormalised(mag); }
  }

  lemma NewestDifference(rate: Rate, s: State, code: int)
    requires IsCode(rate, code) && Ok(s)
    ensures Core(rate, s, code).next.dq == [FloatA(DifferenceOf(rate, s, code))] + s.dq[..5]
  {
    hide Reconstruct;
    hide Estimate;
    hide StepSize;
    hide NextA2;
    hide NextA1;
    hide NextB;
    hide FloatA;
    hide FloatB;
    hide Transition;
    hide PredictorZero;
    hide Wrap16;
  }

  lemma DifferenceFits(rate: Rate, s: State, code: int)
    requires IsCode(rate, code) && Ok(s)
    ensures InI16(DifferenceOf(rate, s, code))
    ensures code >= SignBit(rate) ==> DifferenceOf(rate, s, code) < 0
    ensures code < SignBit(rate) ==> 0 <= DifferenceOf(rate, s, code) == Magnitude(rate, code, StepSize(s))
  {
    hide Ok;
    hide StepSize;
    hide Reconstruct;
    hide Magnitude;
    hide Dqlntab;
    StepSizeBounds(s);
    LevelBounds(rate, code);
    ReconstructionLossless(rate, code, StepSize(s));
    ReconstructFits(code >= SignBit(rate), Dqlntab(rate)[code], StepSize(s));
  }

  lemma ReconstructFits(negative: bool, dqln: int, y: int)
    ensures InI16(Reconstruct(negative, dqln, y))
  {
    hide Pow2;
  }

  /** Apart from code 0 above 16 kbit/s, every positive code has a magnitude of at least one. */
  lemma PositiveMagnitude(rate: Rate, code: int, y: int)
    requires IsCode(rate, code) && code < SignBit(rate) && 544 <= y <= 5120
    ensures Magnitude(rate, code, y) == 0 <==> code == 0 && rate != R16
  {
    PositiveLevels(rate, code);
    LevelBounds(rate, code);
    hide Dqlntab;
    hide AntilogOf;
    var dql := Dqlntab(rate)[code] + y / 4;
    if dql >= 0 { AntilogPositive(dql); }
  }

  lemma PositiveLevels(rate: Rate, code: int)
    requires IsCode(rate, code) && code < SignBit(rate)
    ensures |Dqlntab(rate)| == 2 * SignBit(rate)
    ensures Dqlntab(rate)[code] >= -66 || (code == 0 && rate != R16 && Dqlntab(rate)[code] == -2048)
    ensures code == 0 && rate != R16 ==> Dqlntab(rate)[code] == -2048
  {
    hide Witab;
    hide Fitab;
    match rate
    case R16 => case R24 => case R32 =>
    case R40 => assert forall k :: 1 <= k < 16 ==> DQLN_40[k] >= -66;
  }

  lemma AntilogPositive(dql: nat)
    requires dql / 128 <= 14
    ensures AntilogOf(dql) >= 1
  {
    hide Pow2;
    assert Pow2(14) == 0x4000 by { Fourteen(); }
    Pow2Order(14 - dql / 128, 14);
    QuotientBetween((128 + dql % 128) * 128, Pow2(14 - dql / 128), 1, 0x8000) by {
      ProductOrder(1, Pow2(14 - dql / 128), 0x8000);
    }
  }

  lemma Fourteen()
    ensures Pow2(14) == 0x4000
  {
    SmallPowers();
    Pow2Add(7, 7);
  }

  /** Above 16 kbit/s the newest stored difference tells a zero codeword from every other. */
  lemma ZeroCodeMark(rate: Rate, s: State, code: int)
    requires rate != R16 && IsCode(rate, code) && Ok(s)
    ensures Core(rate, s, code).next.dq[0] == 32 <==> code == 0
  {
    hide Core;
    hide Ok;
    hide FloatA;
    hide Magnitude;
    hide StepSize;
    hide DifferenceOf;
    NewestDifference(rate, s, code);
    DifferenceFits(rate, s, code);
    PlusZeroMark(DifferenceOf(rate, s, code));
    StepSizeBounds(s);
    if code < SignBit(rate) { PositiveMagnitude(rate, code, StepSize(s)); }
  }

  /** Above 16 kbit/s the encoder never emits a zero codeword. */
  lemma NeverEmitsZero(rate: Rate, d: int, y: int)
    requires rate != R16 && Abs(d) <= 0x7FFF
    ensures Quantize(rate, d, y) != 0
  {
    hide LogOf;
    hide Passed;
  }

  // ---- 16 kbit/s: zero codewords never come back to the same state ----------------------------------------

  /** The state after `k` zero codewords at 16 kbit/s. */
  ghost function Idle(s: State, k: nat): (t: State)
    requires Ok(s)
    ensures Ok(t)
  {
    StateAfter(R16, s, Zeros(R16, k))
  }

  lemma IdleStep(s: State, k: nat)
    requires Ok(s)
    ensures Idle(s, 0) == s && Idle(s, k + 1) == Core(R16, Idle(s, k), 0).next
  {
    hide Core;
    hide Ok;
    assert Zeros(R16, k + 1) == Zeros(R16, k) + [0];
    StateAppend(R16, s, Zeros(R16, k), 0);
  }

  lemma {:induction false} IdleAdd(s: State, j: nat, k: nat)
    requires Ok(s)
    ensures Idle(s, j + k) == Idle(Idle(s, j), k)
  {
    hide Ok;
    hide Idle;
    hide Core;
    if k == 0 {
      IdleStep(Idle(s, j), 0);
    } else {
      IdleAdd(s, j, k - 1);
      IdleStep(s, j + k - 1);
      IdleStep(Idle(s, j), k - 1);
    }
  }

  /** One zero codeword: a transition resets the poles, otherwise they drift slowly and `b[0]` rises. */
  lemma IdleMoves(s: State)
    requires Ok(s)
    ensures var t, tr := Core(R16, s, 0).next, Transition(s, DifferenceOf(R16, s, 0));
            && t.dq[0] > 0 && (t.td ==> t.a2 < -11776)
            && (tr ==> s.td && t.a2 == 0)
            && (!tr ==> t.a2 >= s.a2 - 600)
            && (!tr && s.dq[0] >= 0 ==> t.b[0] == Wrap16(s.b[0] - s.b[0] / 256 + 128))
  {
    hide Core;
    hide FloatA;
    hide Magnitude;
    hide StepSize;
    hide Transition;
    hide DifferenceOf;
    hide Wrap16;
    NewestDifference(R16, s, 0);
    DifferenceFits(R16, s, 0);
    StepSizeBounds(s);
    PositiveMagnitude(R16, 0, StepSize(s));
    var dq := DifferenceOf(R16, s, 0);
    assert 0 < dq < 0x8000;
    PlusZeroMark(dq);
    IdlePoles(s);
    if !Transition(s, dq) && s.dq[0] >= 0 { IdleZero(s); }
  }

  lemma IdlePoles(s: State)
    requires Ok(s) && 0 < DifferenceOf(R16, s, 0) < 0x8000
    ensures var t, tr := Core(R16, s, 0).next, Transition(s, DifferenceOf(R16, s, 0));
            && (t.td ==> t.a2 < -11776) && (tr ==> s.td && t.a2 == 0) && (!tr ==> t.a2 >= s.a2 - 600)
  {
    hide Reconstruct;
    hide Estimate;
    hide StepSize;
    hide NextA1;
    hide NextB;
    hide FloatA;
    hide FloatB;
    hide PredictorZero;
  }

  lemma IdleZero(s: State)
    requires Ok(s) && 0 < DifferenceOf(R16, s, 0) < 0x8000
    requires !Transition(s, DifferenceOf(R16, s, 0)) && s.dq[0] >= 0
    ensures Core(R16, s, 0).next.b[0] == Wrap16(s.b[0] - s.b[0] / 256 + 128)
  {
    hide Reconstruct;
    hide Estimate;
    hide StepSize;
    hide NextA1;
    hide NextA2;
    hide FloatA;
    hide FloatB;
    hide Transition;
    hide PredictorZero;
    hide Wrap16;
  }

  lemma IdleMovesAt(s: State, k: nat)
    requires Ok(s)
    ensures var t, next := Idle(s, k), Idle(s, k + 1);
            var tr := Transition(t, DifferenceOf(R16, t, 0));
            && |t.dq| == |t.b| == |next.dq| == |next.b| == 6 && InI16(t.b[0])
            && next.dq[0] > 0 && (next.td ==> next.a2 < -11776)
            && (tr ==> t.td && next.a2 == 0)
            && (!tr ==> next.a2 >= t.a2 - 600)
            && (!tr && t.dq[0] >= 0 ==> next.b[0] == Wrap16(t.b[0] - t.b[0] / 256 + 128))
  {
    hide Core;
    hide Idle;
    hide Transition;
    hide DifferenceOf;
    hide Wrap16;
    IdleStep(s, k);
    IdleMoves(Idle(s, k));
  }

  /** From any point on, the second pole falls by at most 600 per zero codeword. */
  lemma {:induction false} PoleDrift(s: State, j: nat, k: nat)
    requires Ok(s) && j <= k
    ensures Idle(s, k).a2 >= (if Idle(s, j).a2 < 0 then Idle(s, j).a2 else 0) - 600 * (k - j)
  {
    hide Idle;
    hide Ok;
    hide Transition;
    hide DifferenceOf;
    if j < k {
      PoleDrift(s, j, k - 1);
      IdleMovesAt(s, k - 1);
    }
  }

  /** In a cycle of six there is no room for a transition. */
  lemma NoTransitionInCycle(s: State, k: nat)
    requires Ok(s) && Idle(s, 6) == s && k < 6
    ensures !Transition(Idle(s, k), DifferenceOf(R16, Idle(s, k), 0))
  {
    hide Idle;
    hide Ok;
    hide Transition;
    hide DifferenceOf;
    IdleStep(s, 0);
    IdleMovesAt(s, k);
    IdleMovesAt(s, if k == 0 then 5 else k - 1);
    PoleDrift(s, k + 1, 6);
    PoleDrift(s, 0, k);
  }

  /** The first zero coefficient of an idle run. */
  ghost function FirstZero(s: State, k: nat): (b: int)
    requires Ok(s)
    ensures InI16(b)
  {
    Idle(s, k).b[0]
  }

  lemma PositiveInCycle(s: State, k: nat)
    requires Ok(s) && Idle(s, 6) == s && k < 6
    ensures |Idle(s, k).dq| == 6 && Idle(s, k).dq[0] > 0
  {
    hide Idle;
    hide Ok;
    hide Core;
    hide Transition;
    IdleStep(s, 0);
    IdleMovesAt(s, if k == 0 then 5 else k - 1);
  }

  lemma FirstZeroMoves(s: State, k: nat)
    requires Ok(s) && |Idle(s, k).dq| == 6 && Idle(s, k).dq[0] >= 0
    requires !Transition(Idle(s, k), DifferenceOf(R16, Idle(s, k), 0))
    ensures FirstZero(s, k + 1) == Wrap16(FirstZero(s, k) - FirstZero(s, k) / 256 + 128)
  {
    hide Idle;
    hide Ok;
    hide Transition;
    hide DifferenceOf;
    hide Wrap16;
    IdleMovesAt(s, k);
  }

  lemma CycleStep(s: State, k: nat)
    requires Ok(s) && Idle(s, 6) == s && k < 6
    ensures FirstZero(s, k + 1) == Wrap16(FirstZero(s, k) - FirstZero(s, k) / 256 + 128)
  {
    hide *;
    NoTransitionInCycle(s, k);
    PositiveInCycle(s, k);
    FirstZeroMoves(s, k);
  }

  /** In a cycle `b[0]` rises by 1 to 256 at every step, so it cannot be where it was. */
  lemma {:induction false} ZeroDrift(s: State, k: nat)
    requires Ok(s) && Idle(s, 6) == s && k <= 6
    ensures k <= (FirstZero(s, k) - FirstZero(s, 0)) % 65536 <= 256 * k
  {
    hide Idle;
    hide Ok;
    hide Wrap16;
    hide FirstZero;
    if k > 0 {
      ZeroDrift(s, k - 1);
      CycleStep(s, k - 1);
      Rises(FirstZero(s, k - 1), FirstZero(s, 0));
    }
  }

  lemma Rises(b: int, base: int)
    requires InI16(b) && (b - base) % 65536 <= 1280
    ensures (b - base) % 65536 + 1 <= (Wrap16(b - b / 256 + 128) - base) % 65536 <= (b - base) % 65536 + 256
  {
  }

  lemma NoSixCycle(s: State)
    requires Ok(s)
    ensures Idle(s, 6) != s
  {
    hide Ok;
    hide Core;
    IdleStep(s, 0);
    hide Idle;
    if Idle(s, 6) == s { ZeroDrift(s, 6); }
  }

  /** A cycle of one, two or three is one of six. */
  lemma SixCycle(s: State, p: nat)
    requires Ok(s) && 1 <= p <= 3 && Idle(s, p) == s
    ensures Idle(s, 6) == s
  {
    hide Ok;
    hide Idle;
    if p == 1 {
      IdleAdd(s, 1, 1);
      IdleAdd(s, 2, 2);
      IdleAdd(s, 4, 2);
    } else if p == 2 {
      IdleAdd(s, 2, 2);
      IdleAdd(s, 4, 2);
    } else {
      IdleAdd(s, 3, 3);
    }
  }

  /** One, two or three zero codewords always change the state. */
  lemma IdleAlwaysMoves(s: State, p: nat)
    requires Ok(s) && 1 <= p <= 3
    ensures Idle(s, p) != s
  {
    hide Ok;
    hide Idle;
    NoSixCycle(s);
    if Idle(s, p) == s { SixCycle(s, p); }
  }

  // ---- One packet -----------------------------------------------------------------------------------------

  /** The decoder's state after a whole payload, phantom samples included. */
  ghost function AfterPayload(rate: Rate, s: State, payload: seq<nat>): (t: State)
    requires Ok(s)
    ensures Ok(t)
  {
    StateAfter(rate, s, Unpacked(rate, payload, SampleCount(rate, |payload|)))
  }

  ghost function AfterPacket(rate: Rate, s: State, pcm: seq<int>): (t: State)
    requires Ok(s) && ArePcm(pcm)
    ensures Ok(t)
  {
    StateAfter(rate, s, CodesOf(rate, s, pcm))
  }

  lemma {:induction false} StateAfterZeros(rate: Rate, s: State, codes: seq<nat>, p: nat)
    requires Ok(s) && AreCodes(rate, codes)
    ensures AreCodes(rate, codes + Zeros(rate, p))
    ensures StateAfter(rate, s, codes + Zeros(rate, p)) == StateAfter(rate, StateAfter(rate, s, codes), Zeros(rate, p))
  {
    hide Ok;
    hide Core;
    hide IsCode;
    hide StateAfter;
    if p == 0 {
      assert codes + Zeros(rate, 0) == codes && Zeros(rate, 0) == [];
      NoCodes(rate, StateAfter(rate, s, codes));
    } else {
      var front := codes + Zeros(rate, p - 1);
      StateAfterZeros(rate, s, codes, p - 1);
      ZeroIsCode(rate);
      assert codes + Zeros(rate, p) == front + [0] && Zeros(rate, p) == Zeros(rate, p - 1) + [0];
      StateAppend(rate, s, front, 0);
      StateAppend(rate, StateAfter(rate, s, codes), Zeros(rate, p - 1), 0);
    }
  }

  lemma ZeroIsCode(rate: Rate)
    ensures IsCode(rate, 0)
  {
  }

  /** The newest stored difference after a sequence of codewords shows whether the last one was zero. */
  lemma LastCodeShows(rate: Rate, s: State, codes: seq<nat>)
    requires rate != R16 && Ok(s) && AreCodes(rate, codes) && |codes| > 0
    ensures |StateAfter(rate, s, codes).dq| == 6
    ensures StateAfter(rate, s, codes).dq[0] == 32 <==> codes[|codes| - 1] == 0
  {
    hide Core;
    var n := |codes| - 1;
    ZeroCodeMark(rate, StateAfter(rate, s, codes[..n]), codes[n]);
  }

  lemma LastEmitted(rate: Rate, s: State, pcm: seq<int>)
    requires rate != R16 && Ok(s) && ArePcm(pcm) && |pcm| > 0
    ensures CodesOf(rate, s, pcm)[|pcm| - 1] != 0
  {
    hide Quantize;
    hide Estimate;
    hide StepSize;
    hide StateAfter;
    var n := |pcm| - 1;
    var before := StateAfter(rate, s, CodesOf(rate, s, pcm[..n]));
    EstimateInRange(before);
    NeverEmitsZero(rate, pcm[n] / 4 - Estimate(before), StepSize(before));
  }

  lemma EstimateInRange(s: State)
    requires Ok(s)
    ensures -0x4000 <= Estimate(s) < 0x4000
  {
    hide PredictorZero;
    hide PredictorPole;
  }

  /** Phantom samples always move the decoder away from the encoder. */
  lemma PhantomsDiverge(rate: Rate, s: State, pcm: seq<int>, p: nat)
    requires Ok(s) && ArePcm(pcm) && |pcm| > 0 && 1 <= p <= 3
    ensures AreCodes(rate, CodesOf(rate, s, pcm) + Zeros(rate, p))
    ensures StateAfter(rate, s, CodesOf(rate, s, pcm) + Zeros(rate, p)) != AfterPacket(rate, s, pcm)
  {
    hide Ok;
    hide Core;
    hide CodesOf;
    hide StateAfter;
    hide AreCodes;
    var codes := CodesOf(rate, s, pcm);
    StateAfterZeros(rate, s, codes, p);
    if rate == R16 {
      IdleAlwaysMoves(StateAfter(rate, s, codes), p);
    } else {
      LastCodeShows(rate, s, codes);
      LastEmitted(rate, s, pcm);
      LastCodeShows(rate, s, codes + Zeros(rate, p));
    }
  }

  /**
   * The exact condition for one packet: at every rate, from every state and for every buffer, the decoder
   * ends in the encoder's state if and only if the padding is shorter than a codeword.
   */
  lemma PacketKeepsStepIff(rate: Rate, s: State, pcm: seq<int>, payload: seq<nat>)
    requires Ok(s) && ArePcm(pcm) && IsPacking(rate, CodesOf(rate, s, pcm), payload)
    ensures AfterPayload(rate, s, payload) == AfterPacket(rate, s, pcm) <==> Whole(rate, |pcm|)
  {
    hide Ok;
    hide CodesOf;
    hide StateAfter;
    hide IsPacking;
    hide AreCodes;
    hide Whole;
    hide AfterPayload;
    var codes, p := CodesOf(rate, s, pcm), Phantoms(rate, |pcm|);
    PayloadState(rate, s, pcm, payload);
    if p == 0 {
      assert codes + Zeros(rate, 0) == codes;
    } else {
      PhantomsDiverge(rate, s, pcm, p);
    }
  }

  lemma PayloadState(rate: Rate, s: State, pcm: seq<int>, payload: seq<nat>)
    requires Ok(s) && ArePcm(pcm) && IsPacking(rate, CodesOf(rate, s, pcm), payload)
    ensures var codes := CodesOf(rate, s, pcm) + Zeros(rate, Phantoms(rate, |pcm|));
            AreCodes(rate, codes) && AfterPayload(rate, s, payload) == StateAfter(rate, s, codes)
  {
    hide Ok;
    hide CodesOf;
    hide StateAfter;
    hide IsPacking;
    hide AreCodes;
    hide Whole;
    hide SampleCount;
    hide PackedSize;
    hide Unpacked;
    hide Zeros;
    hide ArePcm;
    hide CodewordBits;
    var codes := CodesOf(rate, s, pcm);
    PackingSize(rate, codes, payload);
    UnpackedWithPadding(rate, codes, payload, Phantoms(rate, |pcm|));
  }

  /** One sample in a packet of its own loses the common state at 16, 24 and 32 kbit/s, whatever it is. */
  lemma OneSampleLosesStep(rate: Rate, s: State, sample: int, payload: seq<nat>)
    requires rate != R40 && Ok(s) && InI16(sample) && IsPacking(rate, CodesOf(rate, s, [sample]), payload)
    ensures AfterPayload(rate, s, payload) != AfterPacket(rate, s, [sample])
  {
    hide Ok;
    hide CodesOf;
    hide IsPacking;
    hide AfterPayload;
    hide AfterPacket;
    PacketKeepsStepIff(rate, s, [sample], payload);
  }

  // ---- A stream of packets ----------------------------------------------------------------------------------

  ghost predicate ArePackets(packets: seq<seq<int>>) {
    forall j :: 0 <= j < |packets| ==> ArePcm(packets[j])
  }

  /** The encoder's state after the first `n` packets. */
  ghost function EncoderAfter(rate: Rate, s: State, packets: seq<seq<int>>, n: nat): (t: State)
    requires Ok(s) && ArePackets(packets) && n <= |packets|
    ensures Ok(t)
  {
    hide AfterPacket;
    hide Ok;
    if n == 0 then s else AfterPacket(rate, EncoderAfter(rate, s, packets, n - 1), packets[n - 1])
  }

  /** The decoder's state after the first `n` payloads. */
  ghost function DecoderAfter(rate: Rate, s: State, payloads: seq<seq<nat>>, n: nat): (t: State)
    requires Ok(s) && n <= |payloads|
    ensures Ok(t)
  {
    hide AfterPayload;
    hide Ok;
    if n == 0 then s else AfterPayload(rate, DecoderAfter(rate, s, payloads, n - 1), payloads[n - 1])
  }

  /** Each payload packs the codewords of its packet, chosen in the encoder's running state. */
  ghost predicate Carries(rate: Rate, s: State, packets: seq<seq<int>>, payloads: seq<seq<nat>>)
    requires Ok(s) && ArePackets(packets)
  {
    && |payloads| == |packets|
    && forall j :: 0 <= j < |packets| ==> CarriesAt(rate, s, packets, payloads[j], j)
  }

  ghost predicate CarriesAt(rate: Rate, s: State, packets: seq<seq<int>>, payload: seq<nat>, j: nat)
    requires Ok(s) && ArePackets(packets) && j < |packets|
  {
    IsPacking(rate, CodesOf(rate, EncoderAfter(rate, s, packets, j), packets[j]), payload)
  }

  ghost predicate InStepAt(rate: Rate, s: State, packets: seq<seq<int>>, payloads: seq<seq<nat>>, n: nat)
    requires Ok(s) && ArePackets(packets) && n <= |packets| == |payloads|
  {
    DecoderAfter(rate, s, payloads, n) == EncoderAfter(rate, s, packets, n)
  }

  /** Whole packets keep every later packet in step as well. */
  lemma {:induction false} WholeStaysInStep(
      rate: Rate, s: State, packets: seq<seq<int>>, payloads: seq<seq<nat>>, n: nat)
    requires Ok(s) && ArePackets(packets) && Carries(rate, s, packets, payloads) && n <= |packets|
    requires forall j :: 0 <= j < n ==> Whole(rate, |packets[j]|)
    ensures InStepAt(rate, s, packets, payloads, n)
  {
    hide Ok;
    hide Whole;
    hide AfterPacket;
    hide AfterPayload;
    hide IsPacking;
    hide CodesOf;
    if n > 0 {
      WholeStaysInStep(rate, s, packets, payloads, n - 1);
      assert CarriesAt(rate, s, packets, payloads[n - 1], n - 1);
      PacketKeepsStepIff(rate, EncoderAfter(rate, s, packets, n - 1), packets[n - 1], payloads[n - 1]);
    }
  }

  /** The first packet that is not whole loses the common state. */
  lemma FirstBrokenLosesStep(rate: Rate, s: State, packets: seq<seq<int>>, payloads: seq<seq<nat>>, n: nat)
    requires Ok(s) && ArePackets(packets) && Carries(rate, s, packets, payloads) && n < |packets|
    requires InStepAt(rate, s, packets, payloads, n) && InStepAt(rate, s, packets, payloads, n + 1)
    ensures Whole(rate, |packets[n]|)
  {
    hide Ok;
    hide Whole;
    hide AfterPacket;
    hide AfterPayload;
    hide IsPacking;
    hide CodesOf;
    assert CarriesAt(rate, s, packets, payloads[n], n);
    PacketKeepsStepIff(rate, EncoderAfter(rate, s, packets, n), packets[n], payloads[n]);
  }

  /**
   * Lock-step over a stream: the two ends agree after every packet if and only if every packet's padding
   * is shorter than a codeword, which a caller can tell from the packet sizes.
   */
  lemma StreamInStepIff(rate: Rate, s: State, packets: seq<seq<int>>, payloads: seq<seq<nat>>)
    requires Ok(s) && ArePackets(packets) && Carries(rate, s, packets, payloads)
    ensures (forall n :: 0 <= n <= |packets| ==> InStepAt(rate, s, packets, payloads, n))
       <==> (forall j :: 0 <= j < |packets| ==> Whole(rate, |packets[j]|))
  {
    hide Ok;
    hide Whole;
    hide InStepAt;
    hide CarriesAt;
    if forall j :: 0 <= j < |packets| ==> Whole(rate, |packets[j]|) {
      forall n | 0 <= n <= |packets| ensures InStepAt(rate, s, packets, payloads, n) {
        WholeStaysInStep(rate, s, packets, payloads, n);
      }
    }
    if forall n :: 0 <= n <= |packets| ==> InStepAt(rate, s, packets, payloads, n) {
      forall j | 0 <= j < |packets| ensures Whole(rate, |packets[j]|) {
        assert InStepAt(rate, s, packets, payloads, j) && InStepAt(rate, s, packets, payloads, j + 1);
        FirstBrokenLosesStep(rate, s, packets, payloads, j);
      }
    }
  }

  // ---- The objects ----------------------------------------------------------------------------------------

  /**
   * Encoder and decoder side by side over any buffer, from any common state: the decoder writes what the
   * encoder rebuilt for itself, and their states agree afterwards exactly for a whole packet.
   */
  method RoundTrip(encoder: Codec, decoder: Codec, pcm: seq<int>, wire: array<nat>, speech: array<int>)
      returns (sent: nat, heard: nat, ghost rebuilt: seq<int>)
    requires encoder != decoder && encoder.Valid() && decoder.Valid() && ArePcm(pcm)
    requires encoder.rate == decoder.rate && encoder.View() == decoder.View()
    requires wire.Length >= PackedSize(encoder.rate, |pcm|)
    requires speech.Length >= SampleCount(encoder.rate, PackedSize(encoder.rate, |pcm|))
    modifies encoder, decoder, wire, speech
    ensures encoder.Valid() && decoder.Valid()
    ensures heard == |pcm| + Phantoms(encoder.rate, |pcm|) <= speech.Length && |rebuilt| == |pcm|
    ensures forall k: nat :: k < |pcm| ==> speech[k] == Wrap16(rebuilt[k] * 4)
    ensures encoder.View() == decoder.View() <==> Whole(encoder.rate, |pcm|)
  {
    hide Ok;
    hide Core;
    hide IsPacking;
    hide PackedSize;
    hide SampleCount;
    hide DecodedSample;
    hide Whole;
    hide Reconstructions;
    hide CodesOf;
    hide StateAfter;
    ghost var s, rate := encoder.View(), encoder.rate;
    ghost var codes := CodesOf(rate, s, pcm);
    var packed;
    packed, rebuilt := encoder.Encode(pcm, wire);
    sent := packed.count;
    ghost var octets := wire[..sent];
    PackingIsBytes(rate, codes, octets);
    PackingSize(rate, codes, octets);
    var decoded := decoder.Decode(wire[..sent], speech);
    heard := decoded.count;
    ghost var phantoms := Phantoms(rate, |pcm|);
    PacketKeepsStepIff(rate, s, pcm, octets);
    forall k: nat | k < |pcm| ensures speech[k] == Wrap16(rebuilt[k] * 4) {
      LockStep(rate, s, pcm, octets, k);
    }
  }

  /** A stream of whole packets keeps the two objects in step, packet after packet. */
  method Transmit(encoder: Codec, decoder: Codec, packets: seq<seq<int>>)
    requires encoder != decoder && encoder.Valid() && decoder.Valid() && ArePackets(packets)
    requires encoder.rate == decoder.rate && encoder.View() == decoder.View()
    requires forall j :: 0 <= j < |packets| ==> Whole(encoder.rate, |packets[j]|)
    modifies encoder, decoder
    ensures encoder.Valid() && decoder.Valid() && encoder.View() == decoder.View()
  {
    hide Ok;
    hide Whole;
    hide PackedSize;
    hide SampleCount;
    for j := 0 to |packets|
      invariant encoder.Valid() && decoder.Valid() && encoder.View() == decoder.View()
    {
      var pcm := packets[j];
      var wire := new nat[PackedSize(encoder.rate, |pcm|)];
      var speech := new int[SampleCount(encoder.rate, PackedSize(encoder.rate, |pcm|))];
      ghost var rebuilt;
      var sent, heard;
      sent, heard, rebuilt := RoundTrip(encoder, decoder, pcm, wire, speech);
    }
  }
}
