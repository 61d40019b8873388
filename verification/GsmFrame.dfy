/**
 * The 76 parameters of a GSM 06.10 frame and their 33-byte RTP form (section 4.5.8 of RFC 3551;
 * `crates/siphon-rtp-codec/src/gsm_fr.rs`). Masks and shifts become remainders and quotients, which
 * agree with them on every 16-bit parameter, negative ones included.
 */
module GsmFrame {
  import opened Arithmetic

  datatype Frame = Frame(
    larc: seq<int>, nc: seq<int>, bc: seq<int>, mc: seq<int>, xmaxc: seq<int>, xmc: seq<int>)

  /** The parameters of one sub-frame. */
  datatype Pulses = Pulses(nc: int, bc: int, mc: int, xmaxc: int, x: seq<int>)

  predicate Shaped(f: Frame) {
    |f.larc| == 8 && |f.nc| == |f.bc| == |f.mc| == |f.xmaxc| == 4 && |f.xmc| == 52
  }

  function SubFrame(f: Frame, s: nat): (p: Pulses)
    requires Shaped(f) && s < 4
    ensures |p.x| == 13
  {
    Pulses(f.nc[s], f.bc[s], f.mc[s], f.xmaxc[s], f.xmc[13 * s..13 * s + 13])
  }

  /** The widths of the eight log-area ratios: 6, 6, 5, 5, 4, 4, 3 and 3 bits. */
  const LAR_LEVELS := [64, 64, 32, 32, 16, 16, 8, 8]

  predicate LarsFit(larc: seq<int>) {
    |larc| == 8 && forall i :: 0 <= i < 8 ==> 0 <= larc[i] < LAR_LEVELS[i]
  }

  /** Lag 7 bits, gain 2, grid 2, block maximum 6, thirteen pulses of 3. */
  predicate PulsesFit(p: Pulses) {
    && 0 <= p.nc < 128 && 0 <= p.bc < 4 && 0 <= p.mc < 4 && 0 <= p.xmaxc < 64
    && |p.x| == 13 && forall i :: 0 <= i < 13 ==> 0 <= p.x[i] < 8
  }

  /** Every parameter fits its wire field. */
  predicate Fits(f: Frame) {
    Shaped(f) && LarsFit(f.larc) && forall s :: 0 <= s < 4 ==> PulsesFit(SubFrame(f, s))
  }

  predicate Byte(b: int) {
    0 <= b < 256
  }

  predicate Bytes(c: seq<int>) {
    forall i :: 0 <= i < |c| ==> Byte(c[i])
  }

  /** `size` consecutive values of `v` in units of `unit`: a shift by one power of two, masked by another. */
  function Field(v: int, unit: nat, size: nat): (f: int)
    requires unit > 0 && size > 0
    ensures 0 <= f < size
  {
    v / unit % size
  }

  // ---- Packing --------------------------------------------------------------------------------------

  function PackLars(l: seq<int>): (c: seq<int>)
    requires |l| == 8
    ensures |c| == 5
  {
    [ 13 * 16 + Field(l[0], 4, 16),
      Field(l[0], 1, 4) * 64 + Field(l[1], 1, 64),
      Field(l[2], 1, 32) * 8 + Field(l[3], 4, 8),
      Field(l[3], 1, 4) * 64 + Field(l[4], 1, 16) * 4 + Field(l[5], 4, 4),
      Field(l[5], 1, 4) * 64 + Field(l[6], 1, 8) * 8 + Field(l[7], 1, 8)]
  }

  function PackPulses(p: Pulses): (c: seq<int>)
    requires |p.x| == 13
    ensures |c| == 7
  {
    var x := p.x;
    [ Field(p.nc, 1, 128) * 2 + Field(p.bc, 2, 2),
      Field(p.bc, 1, 2) * 128 + Field(p.mc, 1, 4) * 32 + Field(p.xmaxc, 2, 32),
      Field(p.xmaxc, 1, 2) * 128 + Field(x[0], 1, 8) * 16 + Field(x[1], 1, 8) * 2 + Field(x[2], 4, 2),
      Field(x[2], 1, 4) * 64 + Field(x[3], 1, 8) * 8 + Field(x[4], 1, 8),
      Field(x[5], 1, 8) * 32 + Field(x[6], 1, 8) * 4 + Field(x[7], 2, 4),
      Field(x[7], 1, 2) * 128 + Field(x[8], 1, 8) * 16 + Field(x[9], 1, 8) * 2 + Field(x[10], 4, 2),
      Field(x[10], 1, 4) * 64 + Field(x[11], 1, 8) * 8 + Field(x[12], 1, 8)]
  }

  function Pack(f: Frame): (c: seq<int>)
    requires Shaped(f)
    ensures |c| == 33
  {
    PackLars(f.larc) + PackPulses(SubFrame(f, 0)) + PackPulses(SubFrame(f, 1))
    + PackPulses(SubFrame(f, 2)) + PackPulses(SubFrame(f, 3))
  }

  // ---- Unpacking ------------------------------------------------------------------------------------

  function UnpackLars(c: seq<int>): (l: seq<int>)
    requires |c| == 5
    ensures |l| == 8
  {
    [ Field(c[0], 1, 16) * 4 + Field(c[1], 64, 4),
      Field(c[1], 1, 64),
      Field(c[2], 8, 32),
      Field(c[2], 1, 8) * 4 + Field(c[3], 64, 4),
      Field(c[3], 4, 16),
      Field(c[3], 1, 4) * 4 + Field(c[4], 64, 4),
      Field(c[4], 8, 8),
      Field(c[4], 1, 8)]
  }

  function UnpackPulses(c: seq<int>): (p: Pulses)
    requires |c| == 7
    ensures |p.x| == 13
  {
    Pulses(
      Field(c[0], 2, 128),
      Field(c[0], 1, 2) * 2 + Field(c[1], 128, 2),
      Field(c[1], 32, 4),
      Field(c[1], 1, 32) * 2 + Field(c[2], 128, 2),
      [ Field(c[2], 16, 8),
        Field(c[2], 2, 8),
        Field(c[2], 1, 2) * 4 + Field(c[3], 64, 4),
        Field(c[3], 8, 8),
        Field(c[3], 1, 8),
        Field(c[4], 32, 8),
        Field(c[4], 4, 8),
        Field(c[4], 1, 4) * 2 + Field(c[5], 128, 2),
        Field(c[5], 16, 8),
        Field(c[5], 2, 8),
        Field(c[5], 1, 2) * 4 + Field(c[6], 64, 4),
        Field(c[6], 8, 8),
        Field(c[6], 1, 8)])
  }

  function SubBytes(c: seq<int>, s: nat): (b: seq<int>)
    requires |c| == 33 && s < 4
    ensures |b| == 7
  {
    c[5 + 7 * s..12 + 7 * s]
  }

  function Assemble(larc: seq<int>, p: seq<Pulses>): (f: Frame)
    requires |larc| == 8 && |p| == 4 && forall s :: 0 <= s < 4 ==> |p[s].x| == 13
    ensures Shaped(f)
  {
    Frame(larc, [p[0].nc, p[1].nc, p[2].nc, p[3].nc], [p[0].bc, p[1].bc, p[2].bc, p[3].bc],
          [p[0].mc, p[1].mc, p[2].mc, p[3].mc], [p[0].xmaxc, p[1].xmaxc, p[2].xmaxc, p[3].xmaxc],
          p[0].x + p[1].x + p[2].x + p[3].x)
  }

  function Unpack(c: seq<int>): (f: Frame)
    requires |c| == 33
    ensures Shaped(f)
  {
    Assemble(UnpackLars(c[..5]),
             [UnpackPulses(SubBytes(c, 0)), UnpackPulses(SubBytes(c, 1)),
              UnpackPulses(SubBytes(c, 2)), UnpackPulses(SubBytes(c, 3))])
  }

  // ---- Fields of a byte -----------------------------------------------------------------------------

  lemma Fields2(a: int, b: int, m: nat, n: nat)
    requires 0 <= a < m && 0 <= b < n
    ensures 0 <= a * n + b < m * n && Field(a * n + b, n, m) == a && Field(a * n + b, 1, n) == b
  {
    ProductBelow(a, m, n);
    ProductOrder(0, a, n);
    QuotientAndRest(a, n, b);
    Unsplit(a, m);
  }

  /** Three adjacent fields of a byte, most significant first, come apart again. */
  lemma Fields3(a: int, b: int, c: int, l: nat, m: nat, n: nat)
    requires 0 <= a < l && 0 <= b < m && 0 <= c < n
    ensures var v := a * (m * n) + b * n + c;
            0 <= v < l * (m * n) && Field(v, m * n, l) == a && Field(v, n, m) == b && Field(v, 1, n) == c
  {
    Fields2(b, c, m, n);
    Fields2(a, b * n + c, l, m * n);
    Middle(a, b, c, m, n);
  }

  lemma Middle(a: int, b: int, c: int, m: nat, n: nat)
    requires 0 <= a && 0 <= b < m && 0 <= c < n
    ensures var v := a * (m * n) + b * n + c; v / n == a * m + b && v / n % m == b && v % n == c
  {
    assert a * (m * n) + b * n + c == (a * m + b) * n + c;
    ProductOrder(0, a, m);
    QuotientAndRest(a * m + b, n, c);
    QuotientAndRest(a, m, b);
  }

  lemma Fields4(a: int, b: int, c: int, d: int, k: nat, l: nat, m: nat, n: nat)
    requires 0 <= a < k && 0 <= b < l && 0 <= c < m && 0 <= d < n
    ensures var v := a * (l * (m * n)) + b * (m * n) + c * n + d;
            && 0 <= v < k * (l * (m * n)) && Field(v, l * (m * n), k) == a
            && Field(v, m * n, l) == b && Field(v, n, m) == c && Field(v, 1, n) == d
  {
    hide Field;
    Fields2(c, d, m, n);
    Fields3(a, b, c * n + d, k, l, m * n);
    ProductOrder(0, a, l);
    assert a * (l * (m * n)) + b * (m * n) == (a * l + b) * (m * n);
    Fields3(a * l + b, c, d, a * l + b + 1, m, n);
  }

  /** A parameter split over two bytes is put together again. */
  lemma Rejoined(v: int, unit: nat, size: nat)
    requires unit > 0 && size > 0 && 0 <= v < size * unit
    ensures Field(v, unit, size) * unit + Field(v, 1, unit) == v
  {
    var q := v / unit;
    QuotientBetween(v, unit, 0, size);
    Unsplit(q, size);
    assert v == q * unit + v % unit;
  }

  lemma Unsplit(v: int, size: nat)
    requires 0 <= v < size
    ensures Field(v, 1, size) == v
  {
  }

  // ---- Round trips ----------------------------------------------------------------------------------

  lemma LarsRoundTrip(l: seq<int>)
    requires LarsFit(l)
    ensures Bytes(PackLars(l)) && UnpackLars(PackLars(l)) == l
  {
    hide Field;
    assert 0 <= l[0] < 64 && 0 <= l[1] < 64 && 0 <= l[2] < 32 && 0 <= l[3] < 32;
    assert 0 <= l[4] < 16 && 0 <= l[5] < 16 && 0 <= l[6] < 8 && 0 <= l[7] < 8;
    Rejoined(l[0], 4, 16);
    Rejoined(l[3], 4, 8);
    Rejoined(l[5], 4, 4);
    Unsplit(l[1], 64);
    Unsplit(l[2], 32);
    Unsplit(l[4], 16);
    Unsplit(l[6], 8);
    Unsplit(l[7], 8);
    Fields2(13, Field(l[0], 4, 16), 16, 16);
    Fields2(Field(l[0], 1, 4), l[1], 4, 64);
    Fields2(l[2], Field(l[3], 4, 8), 32, 8);
    Fields3(Field(l[3], 1, 4), l[4], Field(l[5], 4, 4), 4, 16, 4);
    Fields3(Field(l[5], 1, 4), l[6], l[7], 4, 8, 8);
  }

  /** The sub-frame's scalars and its first five pulses, which fill the first four bytes. */
  lemma PulsesHead(p: Pulses)
    requires PulsesFit(p)
    ensures var c := PackPulses(p);
            var q := UnpackPulses(c);
            && Bytes(c[..4]) && q.nc == p.nc && q.bc == p.bc && q.mc == p.mc && q.xmaxc == p.xmaxc
            && q.x[..5] == p.x[..5]
  {
    hide PackPulses;
    hide UnpackPulses;
    hide PulsesFit;
    PulsesScalars(p);
    PulsesFirst(p);
  }

  lemma PulsesScalars(p: Pulses)
    requires PulsesFit(p)
    ensures var c := PackPulses(p);
            var q := UnpackPulses(c);
            && Byte(c[0]) && Byte(c[1]) && q.nc == p.nc && q.bc == p.bc && q.mc == p.mc && q.xmaxc == p.xmaxc
  {
    hide Field;
    var x := p.x;
    PulsesUnsplit(p);
    Rejoined(p.bc, 2, 2);
    Rejoined(p.xmaxc, 2, 32);
    Fields2(p.nc, Field(p.bc, 2, 2), 128, 2);
    Fields3(Field(p.bc, 1, 2), p.mc, Field(p.xmaxc, 2, 32), 2, 4, 32);
    Fields4(Field(p.xmaxc, 1, 2), x[0], x[1], Field(x[2], 4, 2), 2, 8, 8, 2);
  }

  lemma PulsesFirst(p: Pulses)
    requires PulsesFit(p)
    ensures var c := PackPulses(p); Byte(c[2]) && Byte(c[3]) && UnpackPulses(c).x[..5] == p.x[..5]
  {
    hide Field;
    var x := p.x;
    PulsesUnsplit(p);
    Rejoined(x[2], 4, 2);
    Fields4(Field(p.xmaxc, 1, 2), x[0], x[1], Field(x[2], 4, 2), 2, 8, 8, 2);
    Fields3(Field(x[2], 1, 4), x[3], x[4], 4, 8, 8);
  }

  /** The other eight pulses, which fill the last three. */
  lemma PulsesTail(p: Pulses)
    requires PulsesFit(p)
    ensures var c := PackPulses(p); Bytes(c[4..]) && UnpackPulses(c).x[5..] == p.x[5..]
  {
    hide Field;
    var x := p.x;
    PulsesUnsplit(p);
    Rejoined(x[7], 2, 4);
    Rejoined(x[10], 4, 2);
    Fields3(x[5], x[6], Field(x[7], 2, 4), 8, 8, 4);
    Fields4(Field(x[7], 1, 2), x[8], x[9], Field(x[10], 4, 2), 2, 8, 8, 2);
    Fields3(Field(x[10], 1, 4), x[11], x[12], 4, 8, 8);
  }

  lemma PulsesUnsplit(p: Pulses)
    requires PulsesFit(p)
    ensures Field(p.nc, 1, 128) == p.nc && Field(p.mc, 1, 4) == p.mc
    ensures forall i :: 0 <= i < 13 ==> Field(p.x[i], 1, 8) == p.x[i]
  {
  }

  lemma PulsesRoundTrip(p: Pulses)
    requires PulsesFit(p)
    ensures Bytes(PackPulses(p)) && UnpackPulses(PackPulses(p)) == p
  {
    hide PackPulses;
    hide UnpackPulses;
    PulsesHead(p);
    PulsesTail(p);
    var c, q := PackPulses(p), UnpackPulses(PackPulses(p));
    assert q.x == q.x[..5] + q.x[5..] && p.x == p.x[..5] + p.x[5..];
    assert c == c[..4] + c[4..];
  }

  // ---- Any 33 bytes ---------------------------------------------------------------------------------

  lemma Whole3(v: int, l: nat, m: nat, n: nat)
    requires l > 0 && m > 0 && n > 0 && 0 <= v < l * (m * n)
    ensures Field(v, m * n, l) * (m * n) + Field(v, n, m) * n + Field(v, 1, n) == v
  {
    ProductBelow(0, m, n);
    Rejoined(v, m * n, l);
    var q, r := Field(v, m * n, l), v % (m * n);
    QuotientBetween(r, n, 0, m);
    assert r == r / n * n + r % n;
    Middle(q, r / n, r % n, m, n);
  }

  lemma Whole4(v: int, k: nat, l: nat, m: nat, n: nat)
    requires k > 0 && l > 0 && m > 0 && n > 0 && 0 <= v < k * (l * (m * n))
    ensures Field(v, l * (m * n), k) * (l * (m * n)) + Field(v, m * n, l) * (m * n) + Field(v, n, m) * n
            + Field(v, 1, n) == v
  {
    ProductBelow(0, m, n);
    Whole3(v, k, l, m * n);
    var q, r := v / (m * n), v % (m * n);
    assert v == q * (m * n) + r;
    QuotientBetween(v, m * n, 0, k * l) by { assert k * l * (m * n) == k * (l * (m * n)); }
    QuotientBetween(r, n, 0, m);
    assert r == r / n * n + r % n;
    Middle(q, r / n, r % n, m, n);
  }

  /** Unpacking puts every field of a sub-frame in range and loses nothing, whatever the bytes. */
  lemma PulsesOfBytes(c: seq<int>)
    requires |c| == 7 && Bytes(c)
    ensures PulsesFit(UnpackPulses(c)) && PackPulses(UnpackPulses(c)) == c
  {
    hide Field;
    hide PackPulses;
    hide UnpackPulses;
    var d := PackPulses(UnpackPulses(c));
    assert forall i :: 0 <= i < 7 ==> Byte(c[i]);
    HeadOfBytes(c);
    TailOfBytes(c);
    assert c == c[..4] + c[4..] && d == d[..4] + d[4..];
  }

  lemma HeadOfBytes(c: seq<int>)
    requires |c| == 7 && Bytes(c)
    ensures PulsesFit(UnpackPulses(c)) && PackPulses(UnpackPulses(c))[..4] == c[..4]
  {
    hide PackPulses;
    hide UnpackPulses;
    hide PulsesFit;
    FirstTwoBytes(c);
    NextTwoBytes(c);
  }

  lemma FirstTwoBytes(c: seq<int>)
    requires |c| == 7 && Bytes(c)
    ensures PulsesFit(UnpackPulses(c))
    ensures PackPulses(UnpackPulses(c))[0] == c[0] && PackPulses(UnpackPulses(c))[1] == c[1]
  {
    hide Field;
    assert Byte(c[0]) && Byte(c[1]) && Byte(c[2]);
    PulsesUnsplit(UnpackPulses(c));
    Rejoined(c[0], 2, 128);
    Whole3(c[1], 2, 4, 32);
    Fields2(Field(c[0], 1, 2), Field(c[1], 128, 2), 2, 2);
    Fields2(Field(c[1], 1, 32), Field(c[2], 128, 2), 32, 2);
  }

  lemma NextTwoBytes(c: seq<int>)
    requires |c| == 7 && Bytes(c)
    ensures PulsesFit(UnpackPulses(c))
    ensures PackPulses(UnpackPulses(c))[2] == c[2] && PackPulses(UnpackPulses(c))[3] == c[3]
  {
    hide Field;
    assert Byte(c[1]) && Byte(c[2]) && Byte(c[3]);
    PulsesUnsplit(UnpackPulses(c));
    Whole4(c[2], 2, 8, 8, 2);
    Whole3(c[3], 4, 8, 8);
    Fields2(Field(c[1], 1, 32), Field(c[2], 128, 2), 32, 2);
    Fields2(Field(c[2], 1, 2), Field(c[3], 64, 4), 2, 4);
  }

  lemma TailOfBytes(c: seq<int>)
    requires |c| == 7 && Bytes(c)
    ensures PulsesFit(UnpackPulses(c)) && PackPulses(UnpackPulses(c))[4..] == c[4..]
  {
    hide PackPulses;
    hide UnpackPulses;
    hide PulsesFit;
    FifthByte(c);
    LastTwoBytes(c);
  }

  lemma FifthByte(c: seq<int>)
    requires |c| == 7 && Bytes(c)
    ensures PulsesFit(UnpackPulses(c)) && PackPulses(UnpackPulses(c))[4] == c[4]
  {
    hide Field;
    assert Byte(c[4]) && Byte(c[5]);
    PulsesUnsplit(UnpackPulses(c));
    Whole3(c[4], 8, 8, 4);
    Fields2(Field(c[4], 1, 4), Field(c[5], 128, 2), 4, 2);
  }

  lemma LastTwoBytes(c: seq<int>)
    requires |c| == 7 && Bytes(c)
    ensures PulsesFit(UnpackPulses(c))
    ensures PackPulses(UnpackPulses(c))[5] == c[5] && PackPulses(UnpackPulses(c))[6] == c[6]
  {
    hide Field;
    assert Byte(c[4]) && Byte(c[5]) && Byte(c[6]);
    PulsesUnsplit(UnpackPulses(c));
    Whole4(c[5], 2, 8, 8, 2);
    Whole3(c[6], 4, 8, 8);
    Fields2(Field(c[4], 1, 4), Field(c[5], 128, 2), 4, 2);
    Fields2(Field(c[5], 1, 2), Field(c[6], 64, 4), 2, 4);
  }

  /** The five header bytes come back except for the magic nibble, which packing always writes. */
  lemma LarsOfBytes(c: seq<int>)
    requires |c| == 5 && Bytes(c)
    ensures LarsFit(UnpackLars(c)) && PackLars(UnpackLars(c)) == c[0 := 13 * 16 + c[0] % 16]
  {
    hide Field;
    assert Byte(c[0]) && Byte(c[1]) && Byte(c[2]) && Byte(c[3]) && Byte(c[4]);
    var l := UnpackLars(c);
    assert Field(c[0], 1, 16) == c[0] % 16 by { LowNibble(c[0]); }
    Rejoined(c[1], 64, 4);
    Rejoined(c[2], 8, 32);
    Whole3(c[3], 4, 16, 4);
    Whole3(c[4], 4, 8, 8);
    Fields2(Field(c[0], 1, 16), Field(c[1], 64, 4), 16, 4);
    Fields2(Field(c[2], 1, 8), Field(c[3], 64, 4), 8, 4);
    Fields2(Field(c[3], 1, 4), Field(c[4], 64, 4), 4, 4);
    Unsplit(l[1], 64);
    Unsplit(l[2], 32);
    Unsplit(l[4], 16);
    Unsplit(l[6], 8);
    Unsplit(l[7], 8);
  }

  lemma LowNibble(v: int)
    ensures Field(v, 1, 16) == v % 16
  {
  }

  // ---- Whole frames ---------------------------------------------------------------------------------

  lemma AssembledParts(larc: seq<int>, p: seq<Pulses>, s: nat)
    requires |larc| == 8 && |p| == 4 && (forall k :: 0 <= k < 4 ==> |p[k].x| == 13) && s < 4
    ensures SubFrame(Assemble(larc, p), s) == p[s] && Assemble(larc, p).larc == larc
  {
    assert p[0].x + p[1].x + p[2].x + p[3].x == p[0].x + (p[1].x + (p[2].x + p[3].x));
  }

  lemma ReassembledFrame(f: Frame)
    requires Shaped(f)
    ensures Assemble(f.larc, [SubFrame(f, 0), SubFrame(f, 1), SubFrame(f, 2), SubFrame(f, 3)]) == f
  {
    assert f.xmc == f.xmc[0..13] + f.xmc[13..26] + f.xmc[26..39] + f.xmc[39..52];
  }

  lemma PackedParts(f: Frame, s: nat)
    requires Shaped(f) && s < 4
    ensures Pack(f)[..5] == PackLars(f.larc) && SubBytes(Pack(f), s) == PackPulses(SubFrame(f, s))
  {
    hide PackLars;
    hide PackPulses;
  }

  lemma PackedWhole(c: seq<int>)
    requires |c| == 33
    ensures c == c[..5] + SubBytes(c, 0) + SubBytes(c, 1) + SubBytes(c, 2) + SubBytes(c, 3)
  {
  }

  /** Every frame whose parameters fit their fields survives the wire. */
  lemma UnpackOfPack(f: Frame)
    requires Fits(f)
    ensures Bytes(Pack(f)) && Unpack(Pack(f)) == f
  {
    hide PackLars;
    hide PackPulses;
    hide UnpackLars;
    hide UnpackPulses;
    hide PulsesFit;
    hide SubFrame;
    hide Assemble;
    forall s | 0 <= s < 4
      ensures Pack(f)[..5] == PackLars(f.larc)
      ensures SubBytes(Pack(f), s) == PackPulses(SubFrame(f, s)) && Bytes(PackPulses(SubFrame(f, s)))
      ensures UnpackPulses(PackPulses(SubFrame(f, s))) == SubFrame(f, s)
    {
      PackedParts(f, s);
      PulsesRoundTrip(SubFrame(f, s));
    }
    PackedParts(f, 0);
    LarsRoundTrip(f.larc);
    ReassembledFrame(f);
  }

  /** Any 33 bytes unpack to parameters that fit. */
  lemma UnpackFits(c: seq<int>)
    requires |c| == 33 && Bytes(c)
    ensures Fits(Unpack(c))
  {
    hide UnpackLars;
    hide UnpackPulses;
    hide PulsesFit;
    hide LarsFit;
    hide SubFrame;
    hide Assemble;
    LarsOfBytes(c[..5]);
    var p := [UnpackPulses(SubBytes(c, 0)), UnpackPulses(SubBytes(c, 1)),
              UnpackPulses(SubBytes(c, 2)), UnpackPulses(SubBytes(c, 3))];
    forall s | 0 <= s < 4 ensures PulsesFit(SubFrame(Unpack(c), s)) && Unpack(c).larc == UnpackLars(c[..5]) {
      PulsesOfBytes(SubBytes(c, s));
      AssembledParts(UnpackLars(c[..5]), p, s);
    }
    AssembledParts(UnpackLars(c[..5]), p, 0);
  }

  /** Packing what was unpacked gives the bytes back exactly when they carried the magic nibble. */
  lemma PackOfUnpackIff(c: seq<int>)
    requires |c| == 33 && Bytes(c)
    ensures Pack(Unpack(c)) == c <==> c[0] / 16 == 13
  {
    hide PackLars;
    hide PackPulses;
    hide UnpackLars;
    hide UnpackPulses;
    hide SubFrame;
    hide Assemble;
    var p := [UnpackPulses(SubBytes(c, 0)), UnpackPulses(SubBytes(c, 1)),
              UnpackPulses(SubBytes(c, 2)), UnpackPulses(SubBytes(c, 3))];
    var l := UnpackLars(c[..5]);
    AssembledParts(l, p, 0);
    AssembledParts(l, p, 1);
    AssembledParts(l, p, 2);
    AssembledParts(l, p, 3);
    LarsOfBytes(c[..5]);
    PulsesOfBytes(SubBytes(c, 0));
    PulsesOfBytes(SubBytes(c, 1));
    PulsesOfBytes(SubBytes(c, 2));
    PulsesOfBytes(SubBytes(c, 3));
    PackedWhole(c);
    var d := Pack(Unpack(c));
    assert d == c[..5][0 := 13 * 16 + c[0] % 16] + SubBytes(c, 0) + SubBytes(c, 1) + SubBytes(c, 2) + SubBytes(c, 3);
    assert d == c[0 := 13 * 16 + c[0] % 16];
  }

  // ---- The wire as one number -------------------------------------------------------------------------

  /** Bytes as one number, most significant first. */
  function BigEndian(c: seq<int>): int {
    if |c| == 0 then 0 else BigEndian(c[..|c| - 1]) * 256 + c[|c| - 1]
  }

  lemma OneMoreByte(c: seq<int>, k: nat)
    requires k < |c|
    ensures BigEndian(c[..0]) == 0 && BigEndian(c[..k + 1]) == BigEndian(c[..k]) * 256 + c[k]
  {
    assert c[..k + 1][..k] == c[..k];
  }

  lemma FiveBytes(c: seq<int>)
    requires |c| == 5
    ensures BigEndian(c) == (((c[0] * 256 + c[1]) * 256 + c[2]) * 256 + c[3]) * 256 + c[4]
  {
    hide BigEndian;
    OneMoreByte(c, 0); OneMoreByte(c, 1); OneMoreByte(c, 2); OneMoreByte(c, 3); OneMoreByte(c, 4);
    assert c[..5] == c;
  }

  lemma SevenBytes(c: seq<int>)
    requires |c| == 7
    ensures BigEndian(c) == (BigEndian(c[..5]) * 256 + c[5]) * 256 + c[6]
  {
    hide BigEndian;
    OneMoreByte(c, 5); OneMoreByte(c, 6);
    assert c[..7] == c;
  }

  /** The header is the magic 13 and the eight ratios, most significant first, in fields of their widths. */
  lemma LarsOnWire(l: seq<int>)
    requires LarsFit(l)
    ensures BigEndian(PackLars(l))
         == (((((((13 * 64 + l[0]) * 64 + l[1]) * 32 + l[2]) * 32 + l[3]) * 16 + l[4]) * 16 + l[5]) * 8 + l[6]) * 8
            + l[7]
  {
    hide Field;
    FiveBytes(PackLars(l));
    hide BigEndian;
    Rejoined(l[0], 4, 16);
    Unsplit(l[1], 64);
    Unsplit(l[2], 32);
    Rejoined(l[3], 4, 8);
    Unsplit(l[4], 16);
    Rejoined(l[5], 4, 4);
    Unsplit(l[6], 8);
    Unsplit(l[7], 8);
  }

  /** The thirteen pulses of a sub-frame as one number of 39 bits. */
  function PulseNumber(x: seq<int>): int {
    if |x| == 0 then 0 else PulseNumber(x[..|x| - 1]) * 8 + x[|x| - 1]
  }

  lemma OneMorePulse(x: seq<int>, k: nat)
    requires k < |x|
    ensures PulseNumber(x[..0]) == 0 && PulseNumber(x[..k + 1]) == PulseNumber(x[..k]) * 8 + x[k]
  {
    assert x[..k + 1][..k] == x[..k];
  }

  lemma FirstDigits(x: seq<int>)
    requires |x| == 13
    ensures PulseNumber(x[..5]) == (((x[0] * 8 + x[1]) * 8 + x[2]) * 8 + x[3]) * 8 + x[4]
  {
    hide PulseNumber;
    OneMorePulse(x, 0); OneMorePulse(x, 1); OneMorePulse(x, 2); OneMorePulse(x, 3); OneMorePulse(x, 4);
  }

  lemma MiddleDigits(x: seq<int>)
    requires |x| == 13
    ensures PulseNumber(x[..9]) == (((PulseNumber(x[..5]) * 8 + x[5]) * 8 + x[6]) * 8 + x[7]) * 8 + x[8]
  {
    hide PulseNumber;
    OneMorePulse(x, 5); OneMorePulse(x, 6); OneMorePulse(x, 7); OneMorePulse(x, 8);
  }

  lemma LastDigits(x: seq<int>)
    requires |x| == 13
    ensures PulseNumber(x[..13]) == (((PulseNumber(x[..9]) * 8 + x[9]) * 8 + x[10]) * 8 + x[11]) * 8 + x[12]
  {
    hide PulseNumber;
    OneMorePulse(x, 9); OneMorePulse(x, 10); OneMorePulse(x, 11); OneMorePulse(x, 12);
  }

  /** A sub-frame is its lag, gain, grid, block maximum and pulses, most significant first. */
  lemma PulsesOnWire(p: Pulses)
    requires PulsesFit(p)
    ensures BigEndian(PackPulses(p))
         == (((p.nc * 4 + p.bc) * 4 + p.mc) * 64 + p.xmaxc) * 0x80_0000_0000 + PulseNumber(p.x)
  {
    hide Field;
    var c, x := PackPulses(p), p.x;
    FiveBytes(c[..5]);
    SevenBytes(c);
    hide BigEndian;
    FirstDigits(x);
    MiddleDigits(x);
    LastDigits(x);
    assert x[..13] == x;
    hide PulseNumber;
    PulsesUnsplit(p);
    Rejoined(p.bc, 2, 2);
    Rejoined(p.xmaxc, 2, 32);
    Rejoined(x[2], 4, 2);
    Rejoined(x[7], 2, 4);
    Rejoined(x[10], 4, 2);
  }
}
