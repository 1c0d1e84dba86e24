/** What corruption of an encoded frame the decoder is certain to reject. */
module LinkErrors {
  import opened Primitives
  import opened Crc
  import opened CrcDetection
  import opened CrcBursts
  import opened CrcBlocks
  import Link

  /** The bits in which two byte strings of one length differ. */
  function Flips(a: Bytes, b: Bytes): (e: seq<bv8>)
    requires |a| == |b|
    ensures |e| == |a|
  {
    Diff(Bits(a), Bits(b))
  }

  /** An error pattern over the encoding of `n` payload bytes that every block checksum misses. */
  predicate BlocksMissed(e: seq<bv8>, n: nat)
    decreases n
  {
    if n == 0 then e == []
    else
      var m := Min(BLOCK_SIZE, n) + 2;
      |e| >= m && Missed(e[..m]) && BlocksMissed(e[m..], n - m + 2)
  }

  lemma AllZeroSplit(e: seq<bv8>, m: nat)
    requires m <= |e|
    ensures AllZero(e) <==> AllZero(e[..m]) && AllZero(e[m..])
  {
    forall i | 0 <= i < |e|
      ensures e[i] == if i < m then e[..m][i] else e[m..][i - m]
    {
    }
  }

  lemma FlipsConcat(a: Bytes, b: Bytes, c: Bytes, d: Bytes)
    requires |a| == |c| && |b| == |d|
    ensures Flips(a + b, c + d) == Flips(a, c) + Flips(b, d)
  {
    hide BitsOf;
    BitsConcat(a, b);
    BitsConcat(c, d);
  }

  lemma {:induction false} EncodedBlocksDifference(p: Bytes, q: Bytes)
    requires |p| == |q|
    ensures |EncodeBlocks(p)| == |EncodeBlocks(q)|
    ensures BlocksMissed(Flips(EncodeBlocks(p), EncodeBlocks(q)), |p|)
    decreases |p|
  {
    hide BitsOf, CrcBytes, Codeword, Missed, Diff;
    EncodeBlocksLength(p);
    EncodeBlocksLength(q);
    if p == [] {
      assert q == [];
    } else {
      var n := Min(BLOCK_SIZE, |p|);
      var v, w := p[..n] + CrcBytes(p[..n]), q[..n] + CrcBytes(q[..n]);
      CrcIsCodeword(p[..n]);
      CrcIsCodeword(q[..n]);
      DifferenceIsMissed(Bits(v), Bits(w));
      EncodedBlocksDifference(p[n..], q[n..]);
      FlipsConcat(v, EncodeBlocks(p[n..]), w, EncodeBlocks(q[n..]));
    }
  }

  lemma {:induction false} BlocksMissedWeight(e: seq<bv8>, n: nat)
    requires BlocksMissed(e, n) && !AllZero(e)
    ensures Weight(e) >= 4
    decreases n
  {
    hide Missed, Weight;
    if n > 0 {
      var m := Min(BLOCK_SIZE, n) + 2;
      assert e == e[..m] + e[m..];
      WeightConcat(e[..m], e[m..]);
      AllZeroSplit(e, m);
      if AllZero(e[..m]) {
        BlocksMissedWeight(e[m..], n - m + 2);
      } else {
        MissedHasWeightFour(e[..m]);
      }
    }
  }

  lemma {:induction false} BlocksMissedBurst(e: seq<bv8>, n: nat, k: nat)
    requires BlocksMissed(e, n) && Burst(e, k)
    ensures AllZero(e)
    decreases n
  {
    hide Missed, Burst;
    if n > 0 {
      var m := Min(BLOCK_SIZE, n) + 2;
      assert e == e[..m] + e[m..];
      BurstSuffix(e[..m], e[m..], k);
      MissedIsNoBurst(e[..m], k);
      BlocksMissedBurst(e[m..], n - m + 2, if k >= 8 * m then k - 8 * m else 0);
      AllZeroSplit(e, m);
    }
  }

  /** Two accepted strings of one length differ by a pattern that every checksum misses. */
  lemma AcceptedDifference(a: Bytes, b: Bytes) returns (n: nat)
    requires |a| == |b| && Link.Decode(a).Ok? && Link.Decode(b).Ok?
    ensures |a| >= 10 && Missed(Flips(a, b)[..10]) && BlocksMissed(Flips(a, b)[10..], n)
  {
    hide BitsOf, CrcBytes, Codeword, Missed, Diff, EncodeBlocks, EncodedLen, Link.Encode, Link.Header, Link.Decode;
    var f, g := Link.Decode(a).value, Link.Decode(b).value;
    Link.EncodeOfDecode(a, f);
    Link.EncodeOfDecode(b, g);
    Link.EncodeLength(f);
    Link.EncodeLength(g);
    n := |f.payload|;
    if |f.payload| < |g.payload| {
      EncodedLenIncreases(|f.payload|, |g.payload|);
    } else if |g.payload| < |f.payload| {
      EncodedLenIncreases(|g.payload|, |f.payload|);
    }
    var v, w := Link.Header(f) + CrcBytes(Link.Header(f)), Link.Header(g) + CrcBytes(Link.Header(g));
    CrcIsCodeword(Link.Header(f));
    CrcIsCodeword(Link.Header(g));
    DifferenceIsMissed(Bits(v), Bits(w));
    EncodedBlocksDifference(f.payload, g.payload);
    assert a == v + a[10..] && b == w + b[10..];
    FlipsConcat(v, a[10..], w, b[10..]);
    assert Flips(a, b)[..10] == Flips(v, w) && Flips(a, b)[10..] == Flips(a[10..], b[10..]);
  }

  lemma XorByteZero(x: bv8, y: bv8)
    ensures XorByte(x, y) == 0 <==> x == y
  {
  }

  lemma NoFlips(a: Bytes, b: Bytes)
    requires |a| == |b|
    ensures AllZero(Flips(a, b)) <==> a == b
  {
    hide BitsOf, XorByte;
    var v, w := Bits(a), Bits(b);
    forall i | 0 <= i < |a|
      ensures Flips(a, b)[i] == 0 <==> v[i] == w[i]
    {
      XorByteZero(v[i], w[i]);
    }
    if AllZero(Flips(a, b)) {
      BitsInjective(a, b);
    }
  }

  /** Any two frames of one length differ in at least four bits. */
  lemma MinimumDistance(a: Bytes, b: Bytes)
    requires |a| == |b| && a != b && Link.Decode(a).Ok? && Link.Decode(b).Ok?
    ensures Weight(Flips(a, b)) >= 4
  {
    hide Missed, Weight, Link.Decode, Flips;
    var n := AcceptedDifference(a, b);
    NoFlips(a, b);
    var e := Flips(a, b);
    assert e == e[..10] + e[10..];
    WeightConcat(e[..10], e[10..]);
    AllZeroSplit(e, 10);
    if AllZero(e[..10]) {
      BlocksMissedWeight(e[10..], n);
    } else {
      MissedHasWeightFour(e[..10]);
    }
  }

  /** One, two or three flipped bits anywhere in a frame are always noticed. */
  lemma FewFlipsRejected(f: Link.LinkFrame, b: Bytes)
    requires |f.payload| <= Link.MAX_PAYLOAD && |b| == |Link.Encode(f)|
    requires 1 <= Weight(Flips(Link.Encode(f), b)) <= 3
    ensures Link.Decode(b).Err?
  {
    hide Weight, Link.Decode, Link.Encode, Flips;
    Link.DecodeOfEncode(f);
    var a := Link.Encode(f);
    NoFlips(a, b);
    WeightZero(Flips(a, b));
    if Link.Decode(b).Ok? {
      MinimumDistance(a, b);
    }
  }

  /** An error burst that fits in sixteen consecutive bits is always noticed. */
  lemma BurstRejected(f: Link.LinkFrame, b: Bytes, k: nat)
    requires |f.payload| <= Link.MAX_PAYLOAD && |b| == |Link.Encode(f)| && b != Link.Encode(f)
    requires Burst(Flips(Link.Encode(f), b), k)
    ensures Link.Decode(b).Err?
  {
    hide Missed, Burst, Link.Decode, Link.Encode, Flips;
    Link.DecodeOfEncode(f);
    var a := Link.Encode(f);
    if Link.Decode(b).Ok? {
      var n := AcceptedDifference(a, b);
      var e := Flips(a, b);
      assert e == e[..10] + e[10..];
      BurstSuffix(e[..10], e[10..], k);
      MissedIsNoBurst(e[..10], k);
      BlocksMissedBurst(e[10..], n, if k >= 80 then k - 80 else 0);
      AllZeroSplit(e, 10);
      NoFlips(a, b);
    }
  }

  /** Corruption confined to two adjacent bytes is always noticed, wherever the bytes lie. */
  lemma AdjacentBytesRejected(f: Link.LinkFrame, b: Bytes, i: nat)
    requires |f.payload| <= Link.MAX_PAYLOAD && |b| == |Link.Encode(f)| && b != Link.Encode(f)
    requires forall j :: 0 <= j < |b| && j != i && j != i + 1 ==> b[j] == Link.Encode(f)[j]
    ensures Link.Decode(b).Err?
  {
    hide Link.Decode, Link.Encode, BitsOf, Odd, Shrs, Widen;
    var a := Link.Encode(f);
    var e := Flips(a, b);
    forall p: nat | p < 8 * |e| && BitAt(e, p)
      ensures 8 * i <= p < 8 * i + 16
    {
      if p / 8 != i && p / 8 != i + 1 {
        assert Bits(a)[p / 8] == Bits(b)[p / 8];
        XorByteZero(Bits(a)[p / 8], Bits(b)[p / 8]);
        assert e[p / 8] == 0;
        NoBitOfZero(p % 8);
      }
    }
    BurstRejected(f, b, 8 * i);
  }

  lemma NoBitOfZero(j: nat)
    ensures !Odd(Shrs(j, Widen(0)))
  {
    WidenZero(0);
    ShrsOfZero(j);
    ShrZero();
  }

  // Odd numbers of flipped bits.

  lemma {:induction false} EncodedBlocksEven(data: Bytes)
    ensures Weight(Bits(EncodeBlocks(data))) % 2 == 0
    decreases |data|
  {
    hide BitsOf, CrcBytes, Codeword, Ones;
    if data != [] {
      var n := Min(BLOCK_SIZE, |data|);
      var w, tail := data[..n] + CrcBytes(data[..n]), EncodeBlocks(data[n..]);
      CrcIsCodeword(data[..n]);
      CodewordHasEvenWeight(Bits(w));
      EncodedBlocksEven(data[n..]);
      BitsConcat(w, tail);
      WeightConcat(Bits(w), Bits(tail));
    }
  }

  /** Every byte string the decoder accepts has an even number of one bits. */
  lemma AcceptedHasEvenWeight(b: Bytes)
    requires Link.Decode(b).Ok?
    ensures Weight(Bits(b)) % 2 == 0
  {
    hide BitsOf, CrcBytes, Codeword, Weight, EncodeBlocks, Link.Header, Link.Decode;
    var f := Link.Decode(b).value;
    Link.EncodeOfDecode(b, f);
    var w, tail := Link.Header(f) + CrcBytes(Link.Header(f)), EncodeBlocks(f.payload);
    CrcIsCodeword(Link.Header(f));
    CodewordHasEvenWeight(Bits(w));
    EncodedBlocksEven(f.payload);
    assert b == w + tail;
    BitsConcat(w, tail);
    WeightConcat(Bits(w), Bits(tail));
  }

  lemma WeightUnfold(w: seq<bv8>)
    requires w != []
    ensures Parity(Weight(w)) == (Parity(Ones(Widen(w[0]))) != Parity(Weight(w[1..])))
  {
    hide Ones, Parity;
    ParityOfSum(Ones(Widen(w[0])), Weight(w[1..]));
  }

  lemma XorByteParity(x: bv8, y: bv8)
    ensures Parity(Ones(Widen(XorByte(x, y)))) == (Parity(Ones(Widen(x))) != Parity(Ones(Widen(y))))
  {
    hide Ones, Parity, Xor, XorByte, Widen;
    XorWiden(x, y);
    OnesXor(Widen(x), Widen(y));
  }

  lemma {:induction false} WeightDiff(v: seq<bv8>, w: seq<bv8>)
    requires |v| == |w|
    ensures Parity(Weight(Diff(v, w))) == (Parity(Weight(v)) != Parity(Weight(w)))
  {
    if v == [] {
      assert Weight(w) == 0;
    } else {
      hide Ones, Widen, Parity, Weight, XorByte;
      assert Diff(v, w)[0] == XorByte(v[0], w[0]) && Diff(v, w)[1..] == Diff(v[1..], w[1..]);
      XorByteParity(v[0], w[0]);
      WeightUnfold(v);
      WeightUnfold(w);
      WeightUnfold(Diff(v, w));
      WeightDiff(v[1..], w[1..]);
    }
  }

  /** An odd number of flipped bits, anywhere in a frame, is always noticed. */
  lemma OddFlipsRejected(f: Link.LinkFrame, b: Bytes)
    requires |f.payload| <= Link.MAX_PAYLOAD && |b| == |Link.Encode(f)|
    requires Weight(Flips(Link.Encode(f), b)) % 2 == 1
    ensures Link.Decode(b).Err?
  {
    hide Weight, Link.Decode, Link.Encode, BitsOf;
    Link.DecodeOfEncode(f);
    AcceptedHasEvenWeight(Link.Encode(f));
    WeightDiff(Bits(Link.Encode(f)), Bits(b));
    if Link.Decode(b).Ok? {
      AcceptedHasEvenWeight(b);
    }
  }
}
