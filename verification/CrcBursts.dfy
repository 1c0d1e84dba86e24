/** Error bursts of up to sixteen bits, at any bit position, are never missed by a block. */
module CrcBursts {
  import opened Crc
  import opened CrcDetection

  /** Bit `p` of an error pattern, counting from the low bit of its first byte. */
  predicate BitAt(e: seq<bv8>, p: nat)
    requires p < 8 * |e|
  {
    Odd(Shrs(p % 8, Widen(e[p / 8])))
  }

  /** Every flipped bit lies among the sixteen bits that start at bit `k`. */
  ghost predicate Burst(e: seq<bv8>, k: nat) {
    forall p: nat :: p < 8 * |e| && BitAt(e, p) ==> k <= p < k + 16
  }

  lemma {:induction false} ShrsCompose(m: nat, n: nat, x: bv16)
    ensures Shrs(m + n, x) == Shrs(n, Shrs(m, x))
    decreases m
  {
    if m > 0 {
      ShrsCompose(m - 1, n, Shr(x));
    }
  }

  lemma {:induction false} NoLowOnes(n: nat, x: bv16)
    requires forall j: nat :: j < n ==> !Odd(Shrs(j, x))
    ensures LowOnes(n, x) == 0
    decreases n
  {
    hide Odd, Shr;
    if n > 0 {
      assert !Odd(Shrs(0, x));
      assert forall j: nat :: j < n - 1 ==> Shrs(j, Shr(x)) == Shrs(j + 1, x);
      NoLowOnes(n - 1, Shr(x));
    }
  }

  lemma {:induction false} NoLowOnesXor(n: nat, a: bv16, b: bv16)
    requires LowOnes(n, a) == 0 && LowOnes(n, b) == 0
    ensures LowOnes(n, Xor(a, b)) == 0
    decreases n
  {
    hide Odd, Shr, Xor;
    if n > 0 {
      XorShr(a, b);
      XorOdd(a, b);
      NoLowOnesXor(n - 1, Shr(a), Shr(b));
    }
  }

  /** While the low bits are zero the register only shifts. */
  lemma {:induction false} ShiftOut(n: nat, x: bv16)
    requires LowOnes(n, x) == 0
    ensures Steps(n, x) == Shrs(n, x)
    decreases n
  {
    hide Odd, Shr, Xor;
    if n > 0 {
      ShiftOut(n - 1, Shr(x));
    }
  }

  lemma HighHasNoLowOnes(n: nat, y: bv8)
    requires n <= 8
    ensures LowOnes(n, High(y)) == 0
  {
    forall j: nat | j < n
      ensures !Odd(Shrs(j, High(y)))
    {
      var h := High(y);
      if j >= 4 {
        ShrsCompose(4, j - 4, h);
        ShrsFour(0, h);
      }
      assert forall x: bv16 :: Shrs(1, x) == Shr(x) && Shrs(2, x) == Shr(Shr(x)) && Shrs(3, x) == Shr(Shr(Shr(x)));
    }
    NoLowOnes(n, High(y));
  }

  lemma ByteBeyondZero(k: nat, z: bv8)
    requires k <= 8
    requires forall j: nat :: k <= j < 8 ==> !Odd(Shrs(j, Widen(z)))
    ensures Shrs(k, Widen(z)) == 0
  {
    hide Odd, Shr, Widen;
    var t := Shrs(k, Widen(z));
    forall j: nat | j < 8 - k
      ensures !Odd(Shrs(j, t))
    {
      ShrsCompose(k, j, Widen(z));
    }
    NoLowOnes(8 - k, t);
    ByteOnes(z);
    ShrsCompose(k, 8 - k, Widen(z));
    LowOnesZero(8 - k, t);
  }

  lemma {:induction false} ShrsOfZero(n: nat)
    ensures Shrs(n, 0) == 0
    decreases n
  {
    hide Shr;
    ShrZero();
    if n > 0 {
      ShrsOfZero(n - 1);
    }
  }

  lemma ShlShr(y: bv16)
    requires y < 0x8000
    ensures Shr(y << 1) == y && !Odd(y << 1)
  {
  }

  lemma BelowTopBit(y: bv16)
    requires Shrs(15, y) == 0
    ensures y < 0x8000
  {
    ShrsFour(11, y);
    ShrsFour(7, y >> 4);
    ShrsFour(3, (y >> 4) >> 4);
    var t := ((y >> 4) >> 4) >> 4;
    assert Shrs(3, t) == Shr(Shr(Shr(t)));
  }

  /** Undoes `n` plain shifts of a register that is small enough. */
  lemma {:induction false} ShiftBack(n: nat, k: nat, z: bv16) returns (w: bv16)
    requires k + n <= 16 && Shrs(k, z) == 0
    ensures Shrs(n, w) == z && LowOnes(n, w) == 0 && Shrs(k + n, w) == 0
    decreases n
  {
    hide Odd, Shr;
    if n == 0 {
      w := z;
    } else {
      var y := ShiftBack(n - 1, k, z);
      ShrsCompose(k + n - 1, 16 - k - n, y);
      ShrsOfZero(16 - k - n);
      BelowTopBit(y);
      ShlShr(y);
      w := y << 1;
    }
  }

  /** A burst that starts at bit `k` of the first byte and ends before bit `k` of the third. */
  lemma Window(k: nat, u: bv16, z: bv16)
    requires k <= 8 && LowOnes(k, u) == 0 && Shrs(k, z) == 0
    requires Steps(16, u) == z && Shrs(16, u) == 0
    ensures u == 0 && z == 0
  {
    hide Odd, Shr, Xor;
    var v := Shrs(k, u);
    StepsCompose(k, 16 - k, u);
    ShiftOut(k, u);
    var w := ShiftBack(16 - k, k, z);
    ShiftOut(16 - k, w);
    StepsInjective(16 - k, v, w);
    ShrsCompose(k, 16 - k, u);
    StepsKernel(16, u);
  }

  lemma ShrsSixteen(u: bv16)
    ensures Shrs(16, u) == 0
  {
    ShrsFour(12, u);
    ShrsFour(8, u >> 4);
    ShrsFour(4, u >> 8);
    ShrsFour(0, u >> 12);
  }

  lemma FeedThree(x: bv8, y: bv8, z: bv8)
    ensures Feed(0, [x, y, z]) == 0 ==> Steps(16, Join(x, y)) == Widen(z)
  {
    hide Xor, Steps, Widen, Join, Absorb;
    var r := Absorb(Absorb(0, x), y);
    FeedConcat(0, [x, y], [z]);
    assert [x, y] + [z] == [x, y, z];
    FeedTwo(0, x, y);
    assert Feed(r, [z]) == Absorb(r, z);
    WordForm(0, x, y);
    XorZero(Join(x, y));
    AbsorbKernel(r, z);
  }

  lemma AbsorbKernel(r: bv16, z: bv8)
    ensures Absorb(r, z) == 0 <==> r == Widen(z)
  {
    hide Xor, Steps, Widen;
    StepsKernel(8, Xor(r, Widen(z)));
    XorEqual(r, Widen(z));
  }

  lemma JoinZero(x: bv8, y: bv8)
    requires Join(x, y) == 0
    ensures x == 0 && y == 0
  {
    hide Join;
    JoinBytes(x, y);
  }

  lemma ThreeBytes(k: nat, x: bv8, y: bv8, z: bv8)
    requires k < 8 && Feed(0, [x, y, z]) == 0
    requires forall j: nat :: j < k ==> !Odd(Shrs(j, Widen(x)))
    requires forall j: nat :: k <= j < 8 ==> !Odd(Shrs(j, Widen(z)))
    ensures x == 0 && y == 0 && z == 0
  {
    hide Xor, Steps, Widen, Odd, Shr, High, LowOnes, Feed;
    NoLowOnes(k, Widen(x));
    HighHasNoLowOnes(k, y);
    NoLowOnesXor(k, Widen(x), High(y));
    ByteBeyondZero(k, z);
    FeedThree(x, y, z);
    ShrsSixteen(Join(x, y));
    Window(k, Join(x, y), Widen(z));
    JoinZero(x, y);
    WidenZero(z);
  }

  lemma ByteOfNoBits(y: bv8)
    requires forall j: nat :: j < 8 ==> !Odd(Shrs(j, Widen(y)))
    ensures y == 0
  {
    hide Odd, Shr;
    NoLowOnes(8, Widen(y));
    ByteOnes(y);
    LowOnesZero(8, Widen(y));
    WidenZero(y);
  }

  lemma ByteOutsideBurst(e: seq<bv8>, k: nat, i: nat)
    requires Burst(e, k) && i < |e| && (8 * i + 8 <= k || k + 16 <= 8 * i)
    ensures e[i] == 0
  {
    hide Odd, Shr, Widen, Shrs;
    forall j: nat | j < 8
      ensures !Odd(Shrs(j, Widen(e[i])))
    {
      assert !BitAt(e, 8 * i + j);
    }
    ByteOfNoBits(e[i]);
  }

  lemma BurstSuffix(a: seq<bv8>, b: seq<bv8>, k: nat)
    requires Burst(a + b, k)
    ensures Burst(a, k)
    ensures Burst(b, if k >= 8 * |a| then k - 8 * |a| else 0)
  {
    hide Odd, Shr, Widen, Shrs;
    var e, n := a + b, 8 * |a|;
    forall p: nat | p < 8 * |a| && BitAt(a, p)
      ensures k <= p < k + 16
    {
      assert BitAt(e, p);
    }
    forall p: nat | p < 8 * |b| && BitAt(b, p)
      ensures k <= p + n < k + 16
    {
      assert (p + n) / 8 == p / 8 + |a| && (p + n) % 8 == p % 8;
      assert BitAt(e, p + n);
    }
  }

  lemma PaddedBurst(e: seq<bv8>, k: nat)
    requires Burst(e, k)
    ensures Burst(e + [0, 0, 0], k)
  {
    hide Odd, Shr, Shrs;
    var d := e + [0, 0, 0];
    forall p: nat | p < 8 * |d| && BitAt(d, p)
      ensures k <= p < k + 16
    {
      if p < 8 * |e| {
        assert BitAt(e, p);
      } else {
        assert d[p / 8] == 0;
        WidenZero(0);
        ShrsOfZero(p % 8);
        ShrZero();
      }
    }
  }

  /** No error burst of at most sixteen bits is missed, whatever the block length. */
  lemma {:induction false} MissedIsNoBurst(e: seq<bv8>, k: nat)
    requires Missed(e) && Burst(e, k)
    ensures AllZero(e)
    decreases |e|
  {
    hide Burst, Absorb;
    if e == [] {
    } else if k >= 8 {
      ByteOutsideBurst(e, k, 0);
      AbsorbZero(0);
      StepsKernel(8, 0);
      assert e == e[..1] + e[1..];
      BurstSuffix(e[..1], e[1..], k);
      MissedIsNoBurst(e[1..], k - 8);
    } else {
      var d := e + [0, 0, 0];
      PaddedBurst(e, k);
      FeedConcat(0, e, [0, 0, 0]);
      FeedZeros(0, [0, 0, 0]);
      FrontBurst(d, k);
      assert forall i :: 0 <= i < |e| ==> e[i] == d[i];
    }
  }

  lemma FrontBurst(d: seq<bv8>, k: nat)
    requires Missed(d) && Burst(d, k) && k < 8 && |d| >= 3
    ensures AllZero(d)
  {
    hide Odd, Shr, Widen, Shrs, Feed;
    forall i | 3 <= i < |d|
      ensures d[i] == 0
    {
      ByteOutsideBurst(d, k, i);
    }
    assert d == [d[0], d[1], d[2]] + d[3..];
    FeedConcat(0, [d[0], d[1], d[2]], d[3..]);
    FeedZeros(Feed(0, [d[0], d[1], d[2]]), d[3..]);
    forall j: nat | j < 8
      ensures j < k ==> !Odd(Shrs(j, Widen(d[0])))
      ensures k <= j ==> !Odd(Shrs(j, Widen(d[2])))
    {
      assert j < k ==> !BitAt(d, j);
      assert k <= j ==> !BitAt(d, 16 + j);
    }
    ThreeBytes(k, d[0], d[1], d[2]);
  }
}
