/**
 The DNP3 checksum as an algebra: the register is a linear, injective and parity-preserving
 machine, and these facts decide which corruptions of a block it can miss.
 */
module Crc {

  const POLYNOMIAL: bv16 := 0xa6bc

  // The register operations have names so that the algebra below can be carried out without
  // looking at bits: each proof hides the operations it only uses through their laws.

  function Xor(a: bv16, b: bv16): bv16 { a ^ b }

  function Shr(a: bv16): bv16 { a >> 1 }

  predicate Odd(a: bv16) { a & 1 != 0 }

  function Widen(x: bv8): bv16 { x as bv16 }

  function XorByte(x: bv8, y: bv8): bv8 { x ^ y }

  /** One shift of the register. */
  function Step(r: bv16): bv16 {
    if Odd(r) then Xor(Shr(r), POLYNOMIAL) else Shr(r)
  }

  function Steps(n: nat, r: bv16): bv16
    decreases n
  {
    if n == 0 then r else Steps(n - 1, Step(r))
  }

  function Absorb(r: bv16, x: bv8): bv16 { Steps(8, Xor(r, Widen(x))) }

  function Feed(r: bv16, w: seq<bv8>): bv16
    decreases |w|
  {
    if w == [] then r else Feed(Absorb(r, w[0]), w[1..])
  }

  /** The checksum of one protected block. */
  function Checksum(block: seq<bv8>): bv16 { Xor(Feed(0, block), 0xffff) }

  function LittleEndian(c: bv16): seq<bv8> { [(c & 0xff) as bv8, (c >> 8) as bv8] }

  /** A block followed by its checksum. */
  predicate Codeword(w: seq<bv8>) {
    |w| >= 2 && w[|w| - 2..] == LittleEndian(Checksum(w[..|w| - 2]))
  }

  // Bit counts and error patterns.

  /** Number of one bits among the low `n` bits of `x`. */
  function LowOnes(n: nat, x: bv16): nat
    decreases n
  {
    if n == 0 then 0 else (if Odd(x) then 1 else 0) + LowOnes(n - 1, Shr(x))
  }

  function Ones(x: bv16): nat { LowOnes(16, x) }

  function Weight(w: seq<bv8>): nat {
    if w == [] then 0 else Ones(Widen(w[0])) + Weight(w[1..])
  }

  function Diff(w: seq<bv8>, v: seq<bv8>): (e: seq<bv8>)
    requires |w| == |v|
    ensures |e| == |w|
  {
    seq(|w|, i requires 0 <= i < |w| => XorByte(w[i], v[i]))
  }

  predicate AllZero(w: seq<bv8>) { forall i :: 0 <= i < |w| ==> w[i] == 0 }

  // The laws of the register operations.

  lemma XorShr(a: bv16, b: bv16)
    ensures Shr(Xor(a, b)) == Xor(Shr(a), Shr(b))
  {
    assert (a ^ b) >> 1 == (a >> 1) ^ (b >> 1);
  }

  lemma XorOdd(a: bv16, b: bv16)
    ensures Odd(Xor(a, b)) == (Odd(a) != Odd(b))
  {
  }

  lemma XorAssociative(a: bv16, b: bv16, c: bv16)
    ensures Xor(Xor(a, b), c) == Xor(a, Xor(b, c))
  {
    assert (a ^ b) ^ c == a ^ (b ^ c);
  }

  lemma XorCommutative(a: bv16, b: bv16)
    ensures Xor(a, b) == Xor(b, a)
  {
  }

  lemma XorZero(a: bv16)
    ensures Xor(a, 0) == a == Xor(0, a) && Xor(a, a) == 0
  {
  }

  lemma XorEqual(a: bv16, b: bv16)
    ensures Xor(a, b) == 0 <==> a == b
  {
    hide Xor;
    XorAssociative(a, b, b);
    XorZero(a);
    XorZero(b);
  }

  lemma XorWiden(x: bv8, y: bv8)
    ensures Widen(XorByte(x, y)) == Xor(Widen(x), Widen(y))
  {
  }

  lemma XorSwap(a: bv16, b: bv16, c: bv16, d: bv16)
    ensures Xor(Xor(a, b), Xor(c, d)) == Xor(Xor(a, c), Xor(b, d))
  {
    hide Xor;
    XorAssociative(a, b, Xor(c, d));
    XorAssociative(b, c, d);
    XorAssociative(c, b, d);
    XorCommutative(b, c);
    XorAssociative(a, c, Xor(b, d));
  }

  // Linearity.

  lemma StepLinear(a: bv16, b: bv16)
    ensures Step(Xor(a, b)) == Xor(Step(a), Step(b))
  {
    hide Xor, Shr, Odd;
    var x, y := Shr(a), Shr(b);
    XorShr(a, b);
    XorOdd(a, b);
    XorSwap(x, POLYNOMIAL, y, POLYNOMIAL);
    XorZero(POLYNOMIAL);
    XorZero(Xor(x, y));
    XorAssociative(x, y, POLYNOMIAL);
    XorAssociative(x, POLYNOMIAL, y);
    XorCommutative(POLYNOMIAL, y);
  }

  lemma {:induction false} StepsLinear(n: nat, a: bv16, b: bv16)
    ensures Steps(n, Xor(a, b)) == Xor(Steps(n, a), Steps(n, b))
    decreases n
  {
    hide Xor, Step;
    if n > 0 {
      StepLinear(a, b);
      StepsLinear(n - 1, Step(a), Step(b));
    }
  }

  /** The register is linear over exclusive-or, for words of every length. */
  lemma {:induction false} FeedLinear(r: bv16, s: bv16, w: seq<bv8>, v: seq<bv8>)
    requires |w| == |v|
    ensures Feed(Xor(r, s), Diff(w, v)) == Xor(Feed(r, w), Feed(s, v))
    decreases |w|
  {
    hide Xor, XorByte, Steps, Widen;
    if w != [] {
      var x, y := Widen(w[0]), Widen(v[0]);
      XorWiden(w[0], v[0]);
      XorSwap(r, s, x, y);
      StepsLinear(8, Xor(r, x), Xor(s, y));
      assert Diff(w, v)[1..] == Diff(w[1..], v[1..]);
      FeedLinear(Absorb(r, w[0]), Absorb(s, v[0]), w[1..], v[1..]);
    }
  }

  // Injectivity.

  lemma StepKernel(a: bv16)
    ensures Step(a) == 0 <==> a == 0
  {
  }

  lemma {:induction false} StepsKernel(n: nat, a: bv16)
    ensures Steps(n, a) == 0 <==> a == 0
    decreases n
  {
    hide Step;
    if n > 0 {
      StepKernel(a);
      StepsKernel(n - 1, Step(a));
    }
  }

  /** No two registers are merged by shifting. */
  lemma StepsInjective(n: nat, a: bv16, b: bv16)
    requires Steps(n, a) == Steps(n, b)
    ensures a == b
  {
    hide Xor, Steps;
    StepsLinear(n, a, b);
    XorEqual(Steps(n, a), Steps(n, b));
    StepsKernel(n, Xor(a, b));
    XorEqual(a, b);
  }

  lemma {:induction false} StepsCompose(m: nat, n: nat, r: bv16)
    ensures Steps(m + n, r) == Steps(n, Steps(m, r))
    decreases m
  {
    hide Step;
    if m > 0 {
      StepsCompose(m - 1, n, Step(r));
    }
  }

  lemma {:induction false} FeedConcat(r: bv16, w: seq<bv8>, v: seq<bv8>)
    ensures Feed(r, w + v) == Feed(Feed(r, w), v)
    decreases |w|
  {
    hide Absorb;
    if w == [] {
      assert w + v == v;
    } else {
      assert (w + v)[1..] == w[1..] + v;
      FeedConcat(Absorb(r, w[0]), w[1..], v);
    }
  }

  lemma AbsorbZero(r: bv16)
    ensures Absorb(r, 0) == Steps(8, r)
  {
    hide Xor, Steps;
    XorZero(r);
  }

  lemma {:induction false} FeedZeros(r: bv16, w: seq<bv8>)
    requires AllZero(w)
    ensures Feed(r, w) == 0 <==> r == 0
    decreases |w|
  {
    hide Absorb, Steps;
    if w != [] {
      AbsorbZero(r);
      StepsKernel(8, r);
      FeedZeros(Absorb(r, w[0]), w[1..]);
    }
  }

  // Parity.

  predicate Parity(n: nat) { n % 2 == 1 }

  lemma ParityOfSum(m: nat, n: nat)
    ensures Parity(m + n) == (Parity(m) != Parity(n))
  {
  }

  lemma {:induction false} LowOnesXor(n: nat, a: bv16, b: bv16)
    ensures Parity(LowOnes(n, Xor(a, b))) == (Parity(LowOnes(n, a)) != Parity(LowOnes(n, b)))
    decreases n
  {
    hide Xor, Odd, Shr, Parity;
    SmallParities();
    if n > 0 {
      XorShr(a, b);
      XorOdd(a, b);
      LowOnesXor(n - 1, Shr(a), Shr(b));
      ParityOfSum(if Odd(a) then 1 else 0, LowOnes(n - 1, Shr(a)));
      ParityOfSum(if Odd(b) then 1 else 0, LowOnes(n - 1, Shr(b)));
      ParityOfSum(if Odd(Xor(a, b)) then 1 else 0, LowOnes(n - 1, Shr(Xor(a, b))));
    }
  }

  lemma SmallParities()
    ensures !Parity(0) && Parity(1) && Parity(9) && !Parity(16)
  {
  }

  lemma OnesXor(a: bv16, b: bv16)
    ensures Parity(Ones(Xor(a, b))) == (Parity(Ones(a)) != Parity(Ones(b)))
  {
    hide Xor, LowOnes;
    LowOnesXor(16, a, b);
  }

  lemma OnesPolynomial()
    ensures Ones(POLYNOMIAL) == 9
  {
    assert LowOnes(2, 0x2) == 1;
    assert LowOnes(5, 0x14) == 2;
    assert LowOnes(8, 0xa6) == 4;
    assert LowOnes(11, 0x535) == 6;
    assert LowOnes(14, 0x29af) == 9;
  }

  function Shrs(n: nat, x: bv16): bv16
    decreases n
  {
    if n == 0 then x else Shrs(n - 1, Shr(x))
  }

  lemma {:induction false} LowOnesExtend(n: nat, m: nat, x: bv16)
    requires Shrs(n, x) == 0
    ensures LowOnes(n + m, x) == LowOnes(n, x)
    decreases n + m
  {
    hide Odd, Shr;
    if n > 0 {
      LowOnesExtend(n - 1, m, Shr(x));
    } else if m > 0 {
      ShrZero();
      LowOnesExtend(0, m - 1, 0);
    }
  }

  lemma ShrZero()
    ensures Shr(0) == 0 && !Odd(0)
  {
  }

  lemma ShrsFour(n: nat, x: bv16)
    ensures Shrs(n + 4, x) == Shrs(n, x >> 4)
  {
    assert Shrs(n + 2, Shr(Shr(x))) == Shrs(n, x >> 4);
  }

  /** Shifting right drops the low bit and no other. */
  lemma OnesUnfold(r: bv16)
    ensures Ones(r) == (if Odd(r) then 1 else 0) + Ones(Shr(r))
  {
    hide Odd;
    ShrsFour(12, r);
    ShrsFour(8, r >> 4);
    ShrsFour(4, r >> 8);
    ShrsFour(0, r >> 12);
    LowOnesExtend(15, 1, Shr(r));
  }

  lemma StepParity(r: bv16)
    ensures Parity(Ones(Step(r))) == Parity(Ones(r))
  {
    hide Xor, Odd, Ones, Shr, Parity;
    SmallParities();
    OnesUnfold(r);
    OnesPolynomial();
    OnesXor(Shr(r), POLYNOMIAL);
    ParityOfSum(if Odd(r) then 1 else 0, Ones(Shr(r)));
  }

  lemma {:induction false} StepsParity(n: nat, r: bv16)
    ensures Parity(Ones(Steps(n, r))) == Parity(Ones(r))
    decreases n
  {
    hide Step, Ones, Parity;
    if n > 0 {
      StepParity(r);
      StepsParity(n - 1, Step(r));
    }
  }

  /** The register holds the parity of everything it has been fed. */
  lemma {:induction false} FeedParity(r: bv16, w: seq<bv8>)
    ensures Parity(Ones(Feed(r, w))) == (Parity(Ones(r)) != Parity(Weight(w)))
    decreases |w|
  {
    hide Xor, Steps, Ones, Widen, Parity;
    SmallParities();
    if w != [] {
      var x := Widen(w[0]);
      OnesXor(r, x);
      StepsParity(8, Xor(r, x));
      FeedParity(Absorb(r, w[0]), w[1..]);
      ParityOfSum(Ones(x), Weight(w[1..]));
    }
  }
}
