/** Checksums over byte strings: one block, and the stream of sixteen-byte blocks of a frame. */
module CrcBlocks {
  import opened Primitives
  import opened Crc
  import opened CrcDetection

  const BLOCK_SIZE := 16

  function BitsOf(b: u8): bv8 { b as bv8 }

  function ByteOf(x: bv8): u8 { x as int }

  function Bits(w: Bytes): (r: seq<bv8>)
    ensures |r| == |w|
  {
    seq(|w|, i requires 0 <= i < |w| => BitsOf(w[i]))
  }

  function Crc16(block: Bytes): bv16 { Checksum(Bits(block)) }

  function CrcBytes(block: Bytes): (r: Bytes)
    ensures |r| == 2
  {
    var c := LittleEndian(Crc16(block));
    [ByteOf(c[0]), ByteOf(c[1])]
  }

  function VerifyCrc(block: Bytes, crc: Bytes): Outcome<()> {
    if |crc| != 2 then Err(InvalidLength(2, |crc|))
    else if Join(BitsOf(crc[0]), BitsOf(crc[1])) == Crc16(block) then Ok(())
    else Err(InvalidCrc)
  }

  // Bytes and bits.

  lemma ByteOfBits(x: bv8)
    ensures BitsOf(ByteOf(x)) == x
  {
  }

  /** Conversion to bits and back is the identity; the ranges keep the solver's case analysis small. */
  lemma ByteRoundTrip(b: u8)
    ensures (b as bv8) as int == b
  {
    if b < 16 {
    } else if b < 32 {
    } else if b < 64 {
    } else if b < 96 {
    } else if b < 128 {
    } else if b < 160 {
    } else if b < 192 {
    } else if b < 224 {
    }
  }

  lemma BitsOfByte(b: u8)
    ensures ByteOf(BitsOf(b)) == b
  {
    ByteRoundTrip(b);
  }

  lemma BitsConcat(a: Bytes, b: Bytes)
    ensures Bits(a + b) == Bits(a) + Bits(b)
  {
  }

  lemma BitsInjective(a: Bytes, b: Bytes)
    requires Bits(a) == Bits(b)
    ensures a == b
  {
    hide BitsOf, ByteOf;
    forall i | 0 <= i < |a|
      ensures a[i] == b[i]
    {
      BitsOfByte(a[i]);
      BitsOfByte(b[i]);
      assert Bits(a)[i] == Bits(b)[i];
    }
  }

  lemma LittleEndianLength(c: bv16)
    ensures |LittleEndian(c)| == 2
  {
  }

  /** A checksum is accepted exactly when block and checksum form a codeword, and only one is. */
  lemma VerifyAcceptsCodewords(block: Bytes, crc: Bytes)
    requires |crc| == 2
    ensures VerifyCrc(block, crc).Ok? <==> Codeword(Bits(block + crc))
    ensures VerifyCrc(block, crc).Ok? <==> crc == CrcBytes(block)
  {
    hide Join, LittleEndian, Checksum, BitsOf, ByteOf;
    var c := Crc16(block);
    LittleEndianLength(c);
    var lo, hi := BitsOf(crc[0]), BitsOf(crc[1]);
    BitsConcat(block, crc);
    assert Bits(block + crc)[|block|..] == [lo, hi];
    assert Bits(block + crc)[..|block|] == Bits(block);
    LittleEndianJoin(c, lo, hi);
    BitsOfByte(crc[0]);
    BitsOfByte(crc[1]);
    var d := LittleEndian(c);
    ByteOfBits(d[0]);
    ByteOfBits(d[1]);
    assert d == [d[0], d[1]];
  }

  lemma CrcIsCodeword(block: Bytes)
    ensures Codeword(Bits(block + CrcBytes(block)))
  {
    VerifyAcceptsCodewords(block, CrcBytes(block));
  }

  /** The checksum loop of the source: every bit of every byte is shifted into the register. */
  method ComputeCrc16(block: Bytes) returns (crc: bv16)
    ensures crc == Crc16(block)
  {
    hide Step, Steps, Absorb, BitsOf, Xor;
    crc := 0;
    var i := 0;
    assert block[0..] == block;
    while i < |block|
      invariant 0 <= i <= |block|
      invariant Feed(crc, Bits(block[i..])) == Feed(0, Bits(block))
    {
      ghost var start := crc;
      assert Bits(block[i..])[1..] == Bits(block[i + 1..]);
      AbsorbIsXorThenShift(start, block[i]);
      crc := crc ^ (block[i] as bv8) as bv16;
      var bit := 0;
      while bit < 8
        invariant 0 <= bit <= 8
        invariant Steps(8 - bit, crc) == Absorb(start, BitsOf(block[i]))
      {
        StepsUnfold(8 - bit, crc);
        if crc & 0x0001 != 0 {
          crc := (crc >> 1) ^ 0xa6bc;
        } else {
          crc := crc >> 1;
        }
        bit := bit + 1;
      }
      StepsNone(crc);
      i := i + 1;
    }
    assert Bits(block[i..]) == [];
    Complement(crc);
    crc := !crc;
  }

  lemma AbsorbIsXorThenShift(r: bv16, b: u8)
    ensures Absorb(r, BitsOf(b)) == Steps(8, r ^ (b as bv8) as bv16)
  {
    hide Steps;
  }

  lemma StepsUnfold(n: nat, r: bv16)
    requires n > 0
    ensures Steps(n, r) == Steps(n - 1, if r & 1 != 0 then (r >> 1) ^ 0xa6bc else r >> 1)
  {
    assert Step(r) == if r & 1 != 0 then (r >> 1) ^ 0xa6bc else r >> 1;
    hide Step;
  }

  lemma StepsNone(r: bv16)
    ensures Steps(0, r) == r
  {
  }

  lemma Complement(r: bv16)
    ensures !r == Xor(r, 0xffff)
  {
  }

  // Data blocks.

  function EncodeBlocks(data: Bytes): Bytes
    decreases |data|
  {
    if data == [] then []
    else
      var n := Min(BLOCK_SIZE, |data|);
      data[..n] + CrcBytes(data[..n]) + EncodeBlocks(data[n..])
  }

  /** Decodes `remaining` data bytes that start at `offset`; nothing may follow them. */
  function DecodeBlocksAt(encoded: Bytes, offset: nat, remaining: nat): Outcome<Bytes>
    requires offset <= |encoded|
    decreases remaining
  {
    if remaining == 0 then
      if offset != |encoded| then Err(InvalidLength(offset, |encoded|)) else Ok([])
    else
      var n := Min(BLOCK_SIZE, remaining);
      if |encoded| - offset < n + 2 then Err(UnexpectedEof)
      else
        var block := encoded[offset..offset + n];
        var _ :- VerifyCrc(block, encoded[offset + n..offset + n + 2]);
        Prepend(block, DecodeBlocksAt(encoded, offset + n + 2, remaining - n))
  }

  function DecodeBlocks(encoded: Bytes, payloadLen: nat): Outcome<Bytes> {
    DecodeBlocksAt(encoded, 0, payloadLen)
  }

  /** Number of encoded bytes for a payload length. */
  function EncodedLen(payloadLen: nat): nat {
    if payloadLen == 0 then 0 else payloadLen + (payloadLen + BLOCK_SIZE - 1) / BLOCK_SIZE * 2
  }

  lemma {:induction false} EncodeBlocksLength(data: Bytes)
    ensures |EncodeBlocks(data)| == EncodedLen(|data|)
    decreases |data|
  {
    if data != [] {
      var n := Min(BLOCK_SIZE, |data|);
      EncodeBlocksLength(data[n..]);
    }
  }

  lemma EncodedLenIncreases(m: nat, n: nat)
    requires m < n
    ensures EncodedLen(m) < EncodedLen(n)
  {
  }

  lemma EncodeBlocksAt(data: Bytes, i: nat)
    requires i < |data|
    ensures var chunk := data[i..Min(i + BLOCK_SIZE, |data|)];
      EncodeBlocks(data[i..]) == chunk + CrcBytes(chunk) + EncodeBlocks(data[i + |chunk|..])
  {
    var chunk := data[i..Min(i + BLOCK_SIZE, |data|)];
    assert data[i..][..|chunk|] == chunk;
    assert data[i..][|chunk|..] == data[i + |chunk|..];
  }

  lemma EncodeBlocksFirst(block: Bytes, rest: Bytes)
    requires 0 < |block| <= BLOCK_SIZE && (|block| < BLOCK_SIZE ==> rest == [])
    ensures EncodeBlocks(block + rest) == block + CrcBytes(block) + EncodeBlocks(rest)
  {
    hide CrcBytes;
    var n := |block|;
    assert (block + rest)[..n] == block && (block + rest)[n..] == rest;
  }

  lemma {:induction false} BlocksRoundTripAt(prefix: Bytes, data: Bytes)
    ensures DecodeBlocksAt(prefix + EncodeBlocks(data), |prefix|, |data|) == Ok(data)
    decreases |data|
  {
    hide VerifyCrc;
    if data != [] {
      var n := Min(BLOCK_SIZE, |data|);
      var block, crc, tail := data[..n], CrcBytes(data[..n]), EncodeBlocks(data[n..]);
      var e := prefix + EncodeBlocks(data);
      assert e == prefix + block + crc + tail;
      assert e[|prefix|..|prefix| + n] == block;
      assert e[|prefix| + n..|prefix| + n + 2] == crc;
      VerifyAcceptsCodewords(block, crc);
      BlocksRoundTripAt(prefix + block + crc, data[n..]);
      assert block + data[n..] == data;
    }
  }

  lemma {:induction false} BlocksRoundTrip(data: Bytes)
    ensures DecodeBlocks(EncodeBlocks(data), |data|) == Ok(data)
  {
    assert [] + EncodeBlocks(data) == EncodeBlocks(data);
    BlocksRoundTripAt([], data);
  }

  lemma {:induction false} BlocksCanonicalAt(encoded: Bytes, offset: nat, remaining: nat)
    requires offset <= |encoded| && DecodeBlocksAt(encoded, offset, remaining).Ok?
    ensures var data := DecodeBlocksAt(encoded, offset, remaining).value;
      |data| == remaining && encoded[offset..] == EncodeBlocks(data)
    decreases remaining
  {
    hide VerifyCrc, CrcBytes, EncodeBlocks;
    NoBlocks();
    if remaining > 0 {
      var n := Min(BLOCK_SIZE, remaining);
      var block, crc := encoded[offset..offset + n], encoded[offset + n..offset + n + 2];
      VerifyAcceptsCodewords(block, crc);
      BlocksCanonicalAt(encoded, offset + n + 2, remaining - n);
      var rest := DecodeBlocksAt(encoded, offset + n + 2, remaining - n).value;
      EncodeBlocksFirst(block, rest);
      assert encoded[offset..] == block + crc + encoded[offset + n + 2..];
    }
  }

  /** The block decoder accepts nothing but what the encoder writes. */
  lemma BlocksCanonical(encoded: Bytes, payloadLen: nat, data: Bytes)
    requires DecodeBlocks(encoded, payloadLen) == Ok(data)
    ensures |data| == payloadLen && encoded == EncodeBlocks(data)
  {
    BlocksCanonicalAt(encoded, 0, payloadLen);
    assert encoded[0..] == encoded;
  }

  method EncodeCrcBlocks(data: Bytes, out: Bytes) returns (r: Bytes)
    ensures r == out + EncodeBlocks(data)
  {
    hide CrcBytes, EncodeBlocks;
    r := out;
    var i := 0;
    assert data[0..] == data;
    while i < |data|
      invariant 0 <= i <= |data|
      invariant r + EncodeBlocks(data[i..]) == out + EncodeBlocks(data)
    {
      var chunk := data[i..Min(i + BLOCK_SIZE, |data|)];
      EncodeBlocksAt(data, i);
      r := r + chunk;
      r := AppendCrc(chunk, r);
      i := i + |chunk|;
    }
    NoBlocks();
    assert data[i..] == [];
  }

  lemma NoBlocks()
    ensures EncodeBlocks([]) == []
  {
  }

  method AppendCrc(block: Bytes, out: Bytes) returns (r: Bytes)
    ensures r == out + CrcBytes(block)
  {
    var crc := ComputeCrc16(block);
    r := out + [ByteOf((crc & 0xff) as bv8), ByteOf((crc >> 8) as bv8)];
  }

  method DecodeCrcBlocks(encoded: Bytes, payloadLen: nat) returns (r: Outcome<Bytes>)
    ensures r == DecodeBlocks(encoded, payloadLen)
  {
    hide VerifyCrc;
    var decoded: Bytes := [];
    var offset := 0;
    PrependConcat([], [], DecodeBlocks(encoded, payloadLen));
    while |decoded| < payloadLen
      invariant |decoded| <= payloadLen && 0 <= offset <= |encoded|
      invariant DecodeBlocks(encoded, payloadLen) == Prepend(decoded, DecodeBlocksAt(encoded, offset, payloadLen - |decoded|))
      decreases payloadLen - |decoded|
    {
      var n := Min(payloadLen - |decoded|, BLOCK_SIZE);
      if |encoded| - offset < n + 2 {
        return Err(UnexpectedEof);
      }
      var block := encoded[offset..offset + n];
      var crc := encoded[offset + n..offset + n + 2];
      var _ :- CheckCrc(block, crc);
      offset := offset + n + 2;
      PrependConcat(decoded, block, DecodeBlocksAt(encoded, offset, payloadLen - |decoded| - n));
      decoded := decoded + block;
    }
    if offset != |encoded| {
      return Err(InvalidLength(offset, |encoded|));
    }
    PrependToNothing(decoded);
    return Ok(decoded);
  }

  method CheckCrc(block: Bytes, crc: Bytes) returns (r: Outcome<()>)
    ensures r == VerifyCrc(block, crc)
  {
    if |crc| != 2 {
      return Err(InvalidLength(2, |crc|));
    }
    var actual := Join(BitsOf(crc[0]), BitsOf(crc[1]));
    var expected := ComputeCrc16(block);
    return if actual == expected then Ok(()) else Err(InvalidCrc);
  }
}
