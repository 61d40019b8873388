/** Words of a fixed width as one stream of bits, least significant bit first (section 4.5.4 of RFC 3551). */
module BitStream {
  import opened Arithmetic
  import opened PowersOfTwo

  function ToBits(v: nat, width: nat): (bits: seq<bool>)
    ensures |bits| == width
  {
    if width == 0 then [] else [v % 2 == 1] + ToBits(v / 2, width - 1)
  }

  function FromBits(bits: seq<bool>): nat {
    if |bits| == 0 then 0 else (if bits[0] then 1 else 0) + 2 * FromBits(bits[1..])
  }

  lemma {:induction false} FromToBits(v: nat, width: nat)
    requires v < Pow2(width)
    ensures FromBits(ToBits(v, width)) == v
  {
    if width != 0 { FromToBits(v / 2, width - 1); }
  }

  lemma {:induction false} FromBitsBound(bits: seq<bool>)
    ensures FromBits(bits) < Pow2(|bits|)
  {
    if |bits| != 0 { FromBitsBound(bits[1..]); }
  }

  /** A word on top of another: its bits follow. */
  lemma {:induction false} JoinBits(low: nat, high: nat, j: nat, k: nat)
    requires low < Pow2(j)
    ensures ToBits(low + high * Pow2(j), j + k) == ToBits(low, j) + ToBits(high, k)
  {
    if j == 0 {
      assert ToBits(low, 0) == [];
      assert low + high * Pow2(0) == high;
    } else {
      var v := low + high * Pow2(j);
      HalfOfJoin(low, high, Pow2(j - 1));
      JoinBits(low / 2, high, j - 1, k);
      assert ToBits(v, j + k) == [v % 2 == 1] + ToBits(v / 2, j + k - 1);
      assert ToBits(low, j) == [low % 2 == 1] + ToBits(low / 2, j - 1);
    }
  }

  lemma HalfOfJoin(low: nat, high: nat, h: nat)
    ensures (low + high * (2 * h)) % 2 == low % 2
    ensures (low + high * (2 * h)) / 2 == low / 2 + high * h
  {
    assert high * (2 * h) == 2 * (high * h);
  }

  ghost function Stream(words: seq<nat>, width: nat): (bits: seq<bool>)
    ensures |bits| == |words| * width
  {
    if |words| == 0 then [] else Stream(words[..|words| - 1], width) + ToBits(words[|words| - 1], width)
  }

  lemma StreamAppend(words: seq<nat>, word: nat, width: nat)
    ensures Stream(words + [word], width) == Stream(words, width) + ToBits(word, width)
  {
    assert (words + [word])[..|words|] == words;
  }

  lemma {:induction false} StreamSlice(words: seq<nat>, width: nat, i: nat)
    requires i < |words|
    ensures i * width + width <= |words| * width
    ensures Stream(words, width)[i * width..i * width + width] == ToBits(words[i], width)
  {
    hide ToBits;
    hide Stream;
    ProductBelow(i, |words|, width);
    var n := |words| - 1;
    var front, last := Stream(words[..n], width), ToBits(words[n], width);
    StreamSplit(words, width);
    if i < n {
      StreamSlice(words[..n], width, i);
      SliceOfFront(front, last, i * width, i * width + width);
    } else {
      SliceOfBack(front, last);
    }
  }

  lemma StreamSplit(words: seq<nat>, width: nat)
    requires |words| > 0
    ensures Stream(words, width) == Stream(words[..|words| - 1], width) + ToBits(words[|words| - 1], width)
  {
  }

  lemma SliceOfFront<T>(a: seq<T>, b: seq<T>, from: nat, to: nat)
    requires from <= to <= |a|
    ensures (a + b)[from..to] == a[from..to]
  {
  }

  lemma SliceOfBack<T>(a: seq<T>, b: seq<T>)
    ensures (a + b)[|a|..|a| + |b|] == b
  {
  }

  /** The `i`-th word of a stream. */
  ghost function WordAt(bits: seq<bool>, width: nat, i: nat): nat
    requires i * width + width <= |bits|
  {
    FromBits(bits[i * width..i * width + width])
  }

  /** Words packed into a stream come back, whatever follows them. */
  lemma WordsComeBack(words: seq<nat>, width: nat, rest: seq<bool>, i: nat)
    requires i < |words| && words[i] < Pow2(width)
    ensures i * width + width <= |Stream(words, width) + rest|
    ensures WordAt(Stream(words, width) + rest, width, i) == words[i]
  {
    hide Stream;
    hide ToBits;
    hide FromBits;
    StreamSlice(words, width, i);
    var all := Stream(words, width) + rest;
    assert all[i * width..i * width + width] == Stream(words, width)[i * width..i * width + width];
    FromToBits(words[i], width);
  }

  // ---- The packing accumulator ------------------------------------------------------------------

  ghost predicate AreBytes(words: seq<nat>) {
    forall i :: 0 <= i < |words| ==> words[i] < 256
  }

  lemma Pow2Eight(k: nat)
    requires k >= 8
    ensures Pow2(k) == Pow2(k - 8) * 256 && Pow2(8) == 256
  {
    Pow2Add(k - 8, 8);
  }

  /** One octet off the bottom of the accumulator. */
  lemma TakeOctet(acc: nat, accBits: nat)
    requires accBits >= 8 && acc < Pow2(accBits)
    ensures acc / 256 < Pow2(accBits - 8)
    ensures ToBits(acc, accBits) == ToBits(acc % 256, 8) + ToBits(acc / 256, accBits - 8)
  {
    hide ToBits;
    Pow2Eight(accBits);
    JoinBits(acc % 256, acc / 256, 8, accBits - 8);
  }

  /** A word on top of the accumulator: the bits are disjoint, so `|` is addition. */
  lemma PutOnTop(acc: nat, accBits: nat, word: nat, width: nat)
    requires acc < Pow2(accBits) && word < Pow2(width)
    ensures acc + word * Pow2(accBits) < Pow2(accBits + width)
    ensures ToBits(acc + word * Pow2(accBits), accBits + width) == ToBits(acc, accBits) + ToBits(word, width)
  {
    hide ToBits;
    JoinBits(acc, word, accBits, width);
    Pow2Add(accBits, width);
    ProductBelow(word, Pow2(width), Pow2(accBits));
  }

  /** Push one word into the accumulator and flush every full octet. */
  method PushWord(acc: nat, accBits: nat, word: nat, width: nat, out: array<nat>, index: nat)
      returns (acc': nat, accBits': nat, index': nat)
    requires acc < Pow2(accBits) && accBits < 8 && word < Pow2(width)
    requires 8 * index + accBits + width < 8 * out.Length + 8 && index <= out.Length && AreBytes(out[..index])
    modifies out
    ensures accBits' < 8 && acc' < Pow2(accBits') && index <= index' <= out.Length && AreBytes(out[..index'])
    ensures 8 * index' + accBits' == 8 * index + accBits + width
    ensures Stream(out[..index'], 8) + ToBits(acc', accBits')
         == Stream(old(out[..index]), 8) + ToBits(acc, accBits) + ToBits(word, width)
    ensures forall k :: index' <= k < out.Length ==> out[k] == old(out[k])
  {
    hide ToBits;
    hide Stream;
    hide Pow2;
    PutOnTop(acc, accBits, word, width);
    acc', accBits', index' := acc + word * Pow2(accBits), accBits + width, index;
    ghost var goal := Stream(out[..index], 8) + ToBits(acc, accBits) + ToBits(word, width);
    while accBits' >= 8
      invariant index <= index' <= out.Length && AreBytes(out[..index'])
      invariant acc' < Pow2(accBits') && 8 * index' + accBits' == 8 * index + accBits + width
      invariant Stream(out[..index'], 8) + ToBits(acc', accBits') == goal
      invariant forall k :: index' <= k < out.Length ==> out[k] == old(out[k])
      decreases accBits'
    {
      TakeOctet(acc', accBits');
      ghost var done := out[..index'];
      out[index'] := acc' % 256;
      assert out[..index' + 1] == done + [acc' % 256];
      StreamAppend(done, acc' % 256, 8);
      acc', accBits', index' := acc' / 256, accBits' - 8, index' + 1;
    }
  }

  /** The accumulator holds the stream bits between the words taken and the octets read. */
  ghost predicate Holds(payload: seq<nat>, acc: nat, accBits: nat, index: nat) {
    && accBits <= 8 * index && index <= |payload| && acc < Pow2(accBits)
    && ToBits(acc, accBits) == Stream(payload, 8)[8 * index - accBits..8 * index]
  }

  lemma ReadOctet(payload: seq<nat>, acc: nat, accBits: nat, index: nat)
    requires AreBytes(payload) && Holds(payload, acc, accBits, index) && index < |payload|
    ensures Holds(payload, acc + payload[index] * Pow2(accBits), accBits + 8, index + 1)
  {
    hide ToBits;
    hide Stream;
    hide Pow2;
    Pow2Eight(8);
    PutOnTop(acc, accBits, payload[index], 8);
    StreamSlice(payload, 8, index);
    var bits := Stream(payload, 8);
    assert bits[8 * index - accBits..8 * index + 8]
        == bits[8 * index - accBits..8 * index] + bits[8 * index..8 * index + 8];
  }

  lemma TakeWord(payload: seq<nat>, acc: nat, accBits: nat, index: nat, width: nat)
    requires Holds(payload, acc, accBits, index) && width <= accBits
    ensures acc % Pow2(width) < Pow2(width) && acc % Pow2(width) >= 0 && acc / Pow2(width) >= 0
    ensures ToBits(acc % Pow2(width), width) == Stream(payload, 8)[8 * index - accBits..8 * index - accBits + width]
    ensures Holds(payload, acc / Pow2(width), accBits - width, index)
  {
    hide ToBits;
    hide Stream;
    hide Pow2;
    SplitWord(acc, accBits, width);
    var from, bits := 8 * index - accBits, Stream(payload, 8);
    assert bits[from..8 * index][..width] == bits[from..from + width];
    assert bits[from..8 * index][width..] == bits[from + width..8 * index];
  }

  lemma SplitWord(acc: nat, accBits: nat, width: nat)
    requires acc < Pow2(accBits) && width <= accBits
    ensures 0 <= acc / Pow2(width) < Pow2(accBits - width)
    ensures ToBits(acc, accBits) == ToBits(acc % Pow2(width), width) + ToBits(acc / Pow2(width), accBits - width)
  {
    hide ToBits;
    Pow2Add(accBits - width, width);
    QuotientBetween(acc, Pow2(width), 0, Pow2(accBits - width));
    var q, r := acc / Pow2(width), acc % Pow2(width);
    assert acc == r + q * Pow2(width);
    JoinBits(r, q, width, accBits - width);
  }

  /** Take one word out of the accumulator, reading octets as needed; never past the payload. */
  method PullWord(payload: seq<nat>, acc: nat, accBits: nat, index: nat, width: nat)
      returns (word: nat, acc': nat, accBits': nat, index': nat)
    requires AreBytes(payload) && Holds(payload, acc, accBits, index) && accBits < 8
    requires 8 * index - accBits + width <= 8 * |payload|
    ensures Holds(payload, acc', accBits', index') && accBits' < 8
    ensures 8 * index' - accBits' == 8 * index - accBits + width
    ensures word < Pow2(width)
    ensures ToBits(word, width) == Stream(payload, 8)[8 * index - accBits..8 * index - accBits + width]
  {
    hide Holds;
    hide ToBits;
    hide Stream;
    hide Pow2;
    acc', accBits', index' := acc, accBits, index;
    while accBits' < width
      invariant Holds(payload, acc', accBits', index') && accBits' < width + 8
      invariant 8 * index' - accBits' == 8 * index - accBits
      decreases width - accBits'
    {
      ReadOctet(payload, acc', accBits', index');
      acc', accBits', index' := acc' + payload[index'] * Pow2(accBits'), accBits' + 8, index' + 1;
    }
    TakeWord(payload, acc', accBits', index', width);
    word, acc', accBits' := acc' % Pow2(width), acc' / Pow2(width), accBits' - width;
  }

  // ---- The stream as one number ---------------------------------------------------------------------------

  /** Words as one number, least significant first. */
  ghost function LittleEndian(words: seq<nat>, width: nat): nat {
    if |words| == 0 then 0
    else LittleEndian(words[..|words| - 1], width) + words[|words| - 1] * Pow2((|words| - 1) * width)
  }

  lemma {:induction false} FromBitsJoin(low: seq<bool>, high: seq<bool>)
    ensures FromBits(low + high) == FromBits(low) + FromBits(high) * Pow2(|low|)
  {
    if |low| == 0 {
      assert low + high == high;
    } else {
      assert (low + high)[0] == low[0] && (low + high)[1..] == low[1..] + high;
      FromBitsJoin(low[1..], high);
      DoubledWeight(FromBits(high), Pow2(|low| - 1));
    }
  }

  lemma DoubledWeight(x: nat, p: nat)
    ensures x * (2 * p) == 2 * (x * p)
  {
  }

  /** The bits of a stream are the digits of the number that its words make. */
  lemma {:induction false} StreamNumber(words: seq<nat>, width: nat)
    requires forall i :: 0 <= i < |words| ==> words[i] < Pow2(width)
    ensures FromBits(Stream(words, width)) == LittleEndian(words, width)
  {
    hide FromBits;
    hide ToBits;
    hide Pow2;
    if |words| == 0 {
      NoDigits();
    } else {
      var front, last := words[..|words| - 1], words[|words| - 1];
      StreamNumber(front, width);
      FromBitsJoin(Stream(front, width), ToBits(last, width));
      FromToBits(last, width);
    }
  }

  lemma NoDigits()
    ensures FromBits([]) == 0
  {
  }
}
