/** Which errors a checksum on a block of at most sixteen data bytes can never miss. */
module CrcDetection {
  import opened Crc

  // The checksum test as a syndrome.

  /** What the register holds after any block followed by its checksum. */
  const RESIDUE: bv16 := Steps(16, 0xffff)

  function High(hi: bv8): bv16 { Widen(hi) << 8 }

  function Join(lo: bv8, hi: bv8): bv16 { Xor(Widen(lo), High(hi)) }

  lemma JoinBytes(lo: bv8, hi: bv8)
    ensures (Join(lo, hi) & 0xff) as bv8 == lo && (Join(lo, hi) >> 8) as bv8 == hi
  {
    assert ((lo as bv16) ^ ((hi as bv16) << 8)) & 0xff == lo as bv16;
    assert ((lo as bv16) ^ ((hi as bv16) << 8)) >> 8 == hi as bv16;
  }

  lemma SplitJoin(c: bv16)
    ensures Join((c & 0xff) as bv8, (c >> 8) as bv8) == c
  {
    assert (((c & 0xff) as bv8) as bv16) ^ ((((c >> 8) as bv8) as bv16) << 8) == c;
  }

  lemma LittleEndianJoin(c: bv16, lo: bv8, hi: bv8)
    ensures [lo, hi] == LittleEndian(c) <==> c == Join(lo, hi)
  {
    hide Join;
    JoinBytes(lo, hi);
    SplitJoin(c);
  }

  lemma StepsFour(n: nat, r: bv16)
    ensures Steps(n + 4, r) == Steps(n, Step(Step(Step(Step(r)))))
  {
    hide Step;
    assert Steps(n + 2, Step(Step(r))) == Steps(n, Step(Step(Step(Step(r)))));
  }

  lemma StepsHigh(hi: bv8)
    ensures Steps(8, High(hi)) == Widen(hi)
  {
    var r := High(hi);
    var s := Step(Step(Step(Step(r))));
    StepsFour(4, r);
    StepsFour(0, s);
    assert Step(Step(Step(Step(s)))) == Widen(hi);
  }

  /** Two bytes fed one after the other act like one sixteen-bit word. */
  lemma WordForm(r: bv16, lo: bv8, hi: bv8)
    ensures Absorb(Absorb(r, lo), hi) == Steps(16, Xor(r, Join(lo, hi)))
  {
    hide Xor, Steps, Widen, High;
    var a := Xor(r, Widen(lo));
    XorAssociative(r, Widen(lo), High(hi));
    StepsCompose(8, 8, Xor(a, High(hi)));
    StepsLinear(8, a, High(hi));
    StepsHigh(hi);
  }

  lemma SyndromeOfPair(r: bv16, lo: bv8, hi: bv8)
    ensures Xor(r, 0xffff) == Join(lo, hi) <==> Feed(r, [lo, hi]) == RESIDUE
  {
    hide Xor, Steps, Absorb, Join, Feed;
    var c := Join(lo, hi);
    FeedTwo(r, lo, hi);
    WordForm(r, lo, hi);
    XorFlip(r, c);
    if Steps(16, Xor(r, c)) == Steps(16, 0xffff) {
      StepsInjective(16, Xor(r, c), 0xffff);
    }
  }

  /** A word is a codeword exactly when it leaves the residue in the register. */
  lemma SyndromeOfCodeword(w: seq<bv8>)
    requires |w| >= 2
    ensures Codeword(w) <==> Feed(0, w) == RESIDUE
  {
    hide Xor, Steps, LittleEndian, Join, Feed;
    var n := |w| - 2;
    var lo, hi := w[n], w[n + 1];
    assert w == w[..n] + [lo, hi] && w[n..] == [lo, hi];
    FeedConcat(0, w[..n], [lo, hi]);
    SyndromeOfPair(Feed(0, w[..n]), lo, hi);
    LittleEndianJoin(Checksum(w[..n]), lo, hi);
  }

  lemma FeedTwo(r: bv16, lo: bv8, hi: bv8)
    ensures Feed(r, [lo, hi]) == Absorb(Absorb(r, lo), hi)
  {
    assert [lo, hi][1..] == [hi];
    assert Feed(Absorb(r, lo), [hi]) == Absorb(Absorb(r, lo), hi);
  }

  lemma XorFlip(r: bv16, c: bv16)
    ensures Xor(r, 0xffff) == c <==> Xor(r, c) == 0xffff
  {
    hide Xor;
    XorAssociative(r, r, c);
    XorAssociative(r, r, 0xffff);
    XorZero(r);
    XorZero(c);
    XorZero(0xffff);
  }

  // Even weight.

  /** A block together with its checksum has an even number of one bits, whatever its length. */
  lemma CodewordHasEvenWeight(w: seq<bv8>)
    requires Codeword(w)
    ensures Weight(w) % 2 == 0
  {
    hide Steps, Ones, LittleEndian, Checksum, Feed, Weight;
    SyndromeOfCodeword(w);
    FeedParity(0, w);
    StepsParity(16, 0xffff);
    OnesOfConstants();
  }

  lemma OnesOfConstants()
    ensures Ones(0) == 0 && Ones(0xffff) == 16
  {
    assert LowOnes(12, 0) == 0;
    assert LowOnes(4, 0xf) == 4;
    assert LowOnes(7, 0x7f) == 7;
    assert LowOnes(10, 0x3ff) == 10;
    assert LowOnes(13, 0x1fff) == 13;
  }

  // Errors the syndrome does not see.

  /** An error pattern that turns codewords into codewords. */
  predicate Missed(e: seq<bv8>) { Feed(0, e) == 0 }

  lemma DifferenceIsMissed(w: seq<bv8>, v: seq<bv8>)
    requires |w| == |v| && Codeword(w) && Codeword(v)
    ensures Missed(Diff(w, v))
  {
    hide Xor, Steps, LittleEndian, Checksum;
    SyndromeOfCodeword(w);
    SyndromeOfCodeword(v);
    FeedLinear(0, 0, w, v);
    XorZero(0);
    XorZero(RESIDUE);
  }

  lemma MissedHasEvenWeight(e: seq<bv8>)
    requires Missed(e)
    ensures Weight(e) % 2 == 0
  {
    hide Ones, Feed, Weight;
    FeedParity(0, e);
    OnesOfConstants();
  }

  lemma {:induction false} WeightConcat(a: seq<bv8>, b: seq<bv8>)
    ensures Weight(a + b) == Weight(a) + Weight(b)
  {
    hide Ones;
    if a == [] {
      assert a + b == b;
    } else {
      assert (a + b)[1..] == a[1..] + b;
      WeightConcat(a[1..], b);
    }
  }

  lemma {:induction false} LowOnesZero(n: nat, x: bv16)
    requires Shrs(n, x) == 0
    ensures LowOnes(n, x) == 0 <==> x == 0
    decreases n
  {
    if n > 0 {
      LowOnesZero(n - 1, Shr(x));
      assert x == 0 <==> Shr(x) == 0 && !Odd(x);
    }
  }

  lemma ByteOnes(y: bv8)
    ensures Shrs(8, Widen(y)) == 0 && LowOnes(8, Widen(y)) == Ones(Widen(y))
    ensures Ones(Widen(y)) == 0 <==> y == 0
  {
    var x := Widen(y);
    assert Shrs(8, x) == 0 by {
      ShrsFour(4, x);
      ShrsFour(0, x >> 4);
    }
    assert Widen(y) == 0 <==> y == 0;
    hide Shr, Odd, Widen;
    LowOnesExtend(8, 8, x);
    LowOnesZero(8, x);
  }

  lemma {:induction false} WeightZero(e: seq<bv8>)
    ensures Weight(e) == 0 <==> AllZero(e)
  {
    hide Ones, Widen;
    if e != [] {
      ByteOnes(e[0]);
      WeightZero(e[1..]);
      assert AllZero(e) <==> e[0] == 0 && AllZero(e[1..]);
    }
  }

  lemma SingleOne(x: bv16)
    requires Odd(x) && Shr(x) == 0
    ensures x == 1
  {
  }

  /** A single one bit is shifted down to the unit register. */
  lemma {:induction false} OneBit(n: nat, x: bv16) returns (l: nat)
    requires LowOnes(n, x) == 1 && Shrs(n, x) == 0
    ensures l < n && Steps(l, x) == 1
    decreases n
  {
    hide Odd, Shr, Xor;
    if Odd(x) {
      LowOnesZero(n - 1, Shr(x));
      SingleOne(x);
      l := 0;
    } else {
      l := OneBit(n - 1, Shr(x));
      l := l + 1;
    }
  }

  // Two flipped bits: the unit register does not come back within one block.

  predicate AvoidsUnit(n: nat, r: bv16)
    decreases n
  {
    n == 0 || (Step(r) != 1 && AvoidsUnit(n - 1, Step(r)))
  }

  lemma {:induction false} AvoidsUnitMeaning(n: nat, r: bv16, k: nat)
    requires AvoidsUnit(n, r) && 1 <= k <= n
    ensures Steps(k, r) != 1
    decreases n
  {
    hide Step;
    if k > 1 {
      AvoidsUnitMeaning(n - 1, Step(r), k - 1);
    } else {
      assert Steps(0, Step(r)) == Step(r);
    }
  }

  predicate QuadAvoidsUnit(r: bv16, s: bv16) {
    var a := Step(r);
    var b := Step(a);
    var c := Step(b);
    a != 1 && b != 1 && c != 1 && s != 1 && Step(c) == s
  }

  lemma QuadExtends(n: nat, r: bv16, s: bv16)
    requires QuadAvoidsUnit(r, s) && AvoidsUnit(n, s)
    ensures AvoidsUnit(n + 4, r)
  {
    hide Step;
    assert AvoidsUnit(n + 2, Step(Step(r)));
  }

  lemma OctetAvoidsUnit(n: nat, r: bv16, s: bv16)
    requires QuadAvoidsUnit(r, Step(Step(Step(Step(r)))))
    requires QuadAvoidsUnit(Step(Step(Step(Step(r)))), s)
    requires AvoidsUnit(n, s)
    ensures AvoidsUnit(n + 8, r)
  {
    hide Step, AvoidsUnit, QuadAvoidsUnit;
    var m := Step(Step(Step(Step(r))));
    QuadExtends(n, m, s);
    QuadExtends(n + 4, r, m);
  }

  lemma UnitOrbitEnd()
    ensures AvoidsUnit(48, 0xece7)
  {
    OctetAvoidsUnit(0, 0x8000, 0x0080);
    OctetAvoidsUnit(8, 0x4d8c, 0x8000);
    OctetAvoidsUnit(16, 0x6e18, 0x4d8c);
    OctetAvoidsUnit(24, 0x3ef0, 0x6e18);
    OctetAvoidsUnit(32, 0x5f3b, 0x3ef0);
    OctetAvoidsUnit(40, 0xece7, 0x5f3b);
  }

  lemma UnitOrbitMiddle()
    ensures AvoidsUnit(96, 0xb5e7)
  {
    hide AvoidsUnit;
    UnitOrbitEnd();
    OctetAvoidsUnit(48, 0x168e, 0xece7);
    OctetAvoidsUnit(56, 0xc362, 0x168e);
    OctetAvoidsUnit(64, 0xdec1, 0xc362);
    OctetAvoidsUnit(72, 0x1612, 0xdec1);
    OctetAvoidsUnit(80, 0x5f62, 0x1612);
    OctetAvoidsUnit(88, 0xb5e7, 0x5f62);
  }

  /** The register orbit of the unit does not meet the unit again within 144 shifts. */
  lemma UnitOrbit()
    ensures AvoidsUnit(144, 1)
  {
    hide AvoidsUnit;
    UnitOrbitMiddle();
    OctetAvoidsUnit(96, 0x2306, 0xb5e7);
    OctetAvoidsUnit(104, 0xc2e8, 0x2306);
    OctetAvoidsUnit(112, 0x19b8, 0xc2e8);
    OctetAvoidsUnit(120, 0xab4e, 0x19b8);
    OctetAvoidsUnit(128, 0x365e, 0xab4e);
    OctetAvoidsUnit(136, 0x0001, 0x365e);
  }

  /** A register on the unit's orbit is not cleared by a later single flipped bit. */
  lemma {:induction false} FarBit(k: nat, e: seq<bv8>)
    requires 1 <= k && k + 8 * |e| <= 144 && Weight(e) == 1
    ensures Feed(Steps(k, 1), e) != 0
    decreases |e|
  {
    hide Ones, Widen, Xor, Steps, AvoidsUnit;
    var r, y := Steps(k, 1), e[0];
    ByteOnes(y);
    if y == 0 {
      AbsorbZero(r);
      StepsCompose(k, 8, 1);
      FarBit(k + 8, e[1..]);
    } else {
      WeightZero(e[1..]);
      if Xor(r, Widen(y)) == 0 {
        XorEqual(r, Widen(y));
        var l := OneBit(8, Widen(y));
        StepsCompose(k, l, 1);
        UnitOrbit();
        AvoidsUnitMeaning(144, 1, k + l);
      }
      StepsKernel(8, Xor(r, Widen(y)));
      FeedZeros(Absorb(r, y), e[1..]);
    }
  }

  /** Two flipped bits anywhere in a block and its checksum are never missed. */
  lemma {:induction false} MissedHasNotWeightTwo(e: seq<bv8>)
    requires |e| <= 18 && Weight(e) == 2
    ensures !Missed(e)
  {
    hide Ones, Widen, Xor, Steps;
    var y := e[0];
    ByteOnes(y);
    XorZero(Widen(y));
    if y == 0 {
      AbsorbZero(0);
      StepsKernel(8, 0);
      MissedHasNotWeightTwo(e[1..]);
    } else if Ones(Widen(y)) == 2 {
      WeightZero(e[1..]);
      StepsKernel(8, Widen(y));
      WidenZero(y);
      FeedZeros(Absorb(0, y), e[1..]);
    } else {
      var j := OneBit(8, Widen(y));
      StepsCompose(j, 8 - j, Widen(y));
      FarBit(8 - j, e[1..]);
    }
  }

  lemma WidenZero(y: bv8)
    ensures Widen(y) == 0 <==> y == 0
  {
  }

  /** The minimum distance of the block code. */
  lemma MissedHasWeightFour(e: seq<bv8>)
    requires |e| <= 18 && Missed(e) && !AllZero(e)
    ensures Weight(e) >= 4
  {
    MissedHasEvenWeight(e);
    WeightZero(e);
    if Weight(e) == 2 {
      MissedHasNotWeightTwo(e);
    }
  }
}
