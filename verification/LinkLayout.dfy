/** The bytes of a link frame, position by position and in plain numbers. */
module LinkLayout {
  import opened Primitives
  import opened CrcBlocks
  import opened Link

  // Blocks of sixteen bytes.

  /** Two checksum bytes for every sixteen data bytes or part of them. */
  lemma {:induction false} BlocksLength(data: Bytes)
    ensures |EncodeBlocks(data)| == |data| + 2 * ((|data| + 15) / 16)
    decreases |data|
  {
    hide CrcBytes;
    if data != [] {
      var n := Min(16, |data|);
      assert |data[..n] + CrcBytes(data[..n])| == n + 2;
      BlocksLength(data[n..]);
    }
  }

  lemma FirstBlock(data: Bytes)
    requires data != []
    ensures var e, n := EncodeBlocks(data), Min(16, |data|);
      && n + 2 <= |e| && e[..n] == data[..n] && e[n..n + 2] == CrcBytes(data[..n]) && e[n + 2..] == EncodeBlocks(data[n..])
  {
    hide CrcBytes;
  }

  /** Data byte i stands behind the checksums of the whole blocks before it. */
  lemma {:induction false} BlocksByteAt(data: Bytes, i: nat)
    requires i < |data|
    ensures 18 * (i / 16) + i % 16 < |EncodeBlocks(data)|
    ensures EncodeBlocks(data)[18 * (i / 16) + i % 16] == data[i]
    decreases |data|
  {
    hide EncodeBlocks, CrcBytes;
    FirstBlock(data);
    var e := EncodeBlocks(data);
    if i < 16 {
      assert e[i] == data[..Min(16, |data|)][i];
    } else {
      BlocksByteAt(data[16..], i - 16);
      var at := 18 * ((i - 16) / 16) + (i - 16) % 16;
      assert (i - 16) / 16 == i / 16 - 1 && (i - 16) % 16 == i % 16;
      assert e[18..][at] == e[at + 18];
    }
  }

  /** Block g is followed by the two checksum bytes of exactly its own bytes. */
  lemma {:induction false} BlocksChecksumAt(data: Bytes, g: nat)
    requires 16 * g < |data|
    ensures var end := if 16 * g + 16 <= |data| then 16 * g + 16 else |data|;
      var at := end + 2 * g;
      at + 2 <= |EncodeBlocks(data)| && EncodeBlocks(data)[at..at + 2] == CrcBytes(data[16 * g..end])
    decreases |data|
  {
    hide EncodeBlocks, CrcBytes;
    FirstBlock(data);
    var e := EncodeBlocks(data);
    var end := if 16 * g + 16 <= |data| then 16 * g + 16 else |data|;
    if g == 0 {
      assert data[0..end] == data[..end];
    } else {
      BlocksChecksumAt(data[16..], g - 1);
      var at := end - 16 + 2 * (g - 1);
      assert data[16..][16 * (g - 1)..end - 16] == data[16 * g..end];
      assert e[18..][at..at + 2] == e[at + 18..at + 20];
    }
  }

  // The header.

  /** The control byte: direction 128, primary 64, frame count bit 32, its valid bit 16, function code below. */
  lemma ControlByte(c: ControlField)
    ensures var b := EncodeControl(c);
      && (b / 128 == 1 <==> c.direction == OutstationToMaster)
      && (b / 64 % 2 == 1 <==> c.func.Primary?)
      && (b / 32 % 2 == 1 <==> c.fcb)
      && (b / 16 % 2 == 1 <==> c.fcv)
      && b % 16 ==
         match c.func
         case Primary(ResetLinkStates) => 0
         case Primary(ResetUserProcess) => 1
         case Primary(TestLinkStates) => 2
         case Primary(ConfirmedUserData) => 3
         case Primary(UnconfirmedUserData) => 4
         case Primary(RequestLinkStatus) => 9
         case Secondary(Ack) => 0
         case Secondary(Nack) => 1
         case Secondary(LinkStatus) => 11
         case Secondary(NotSupported) => 15
  {
    var code := match c.func case Primary(f) => PrimaryCode(f) case Secondary(f) => SecondaryCode(f);
    ControlBits(EncodeControl(c), Bit(c.direction.OutstationToMaster?), Bit(c.func.Primary?), Bit(c.fcb), Bit(c.fcv), code);
  }

  /** A frame: two start bytes, length, control, two addresses low byte first, checksum, payload blocks. */
  lemma FrameLayout(f: LinkFrame)
    requires |f.payload| <= 250
    ensures var b := Encode(f);
      && |b| == 10 + |f.payload| + 2 * ((|f.payload| + 15) / 16)
      && b[0] == 0x05 && b[1] == 0x64 && b[2] == 5 + |f.payload| && b[3] == EncodeControl(f.control)
      && Word(b[4], b[5]) == f.destination && Word(b[6], b[7]) == f.source
      && b[8..10] == CrcBytes(b[..8])
      && (forall i :: 0 <= i < |f.payload| ==> b[10 + (18 * (i / 16) + i % 16)] == f.payload[i])
  {
    hide CrcBytes, EncodeControl, EncodeBlocks;
    var b := Encode(f);
    EncodeLength(f);
    BlocksLength(f.payload);
    assert forall k :: 0 <= k < 8 ==> b[k] == Header(f)[k];
    forall i | 0 <= i < |f.payload|
      ensures b[10 + (18 * (i / 16) + i % 16)] == f.payload[i]
    {
      BlocksByteAt(f.payload, i);
      assert b[10..][18 * (i / 16) + i % 16] == EncodeBlocks(f.payload)[18 * (i / 16) + i % 16];
    }
  }

  // Rejected bytes.

  /** The length a frame must have whose third byte is `length`. */
  function FrameLength(length: nat): int { 10 + (length - 5) + 2 * ((length - 5 + 15) / 16) }

  /** What the decoder says of bytes that are no frame, in the order of its tests. */
  lemma DecodeErrors(b: Bytes)
    ensures |b| < 10 ==> Decode(b) == Err(UnexpectedEof)
    ensures |b| >= 10 && !(b[0] == 0x05 && b[1] == 0x64) ==> Decode(b) == Err(InvalidStartBytes)
    ensures |b| >= 10 && b[0] == 0x05 && b[1] == 0x64 ==>
      && (b[2] < 5 ==> Decode(b) == Err(InvalidLength(5, b[2])))
      && (b[2] >= 5 && b[8..10] != CrcBytes(b[..8]) ==> Decode(b) == Err(InvalidCrc))
      && (b[2] >= 5 && b[8..10] == CrcBytes(b[..8]) && |b| != FrameLength(b[2]) ==>
            Decode(b) == Err(InvalidLength(FrameLength(b[2]), |b|)))
      && (b[2] >= 5 && b[8..10] == CrcBytes(b[..8]) && |b| == FrameLength(b[2]) ==>
            if b[3] / 64 % 2 == 1 && b[3] % 16 !in {0, 1, 2, 3, 4, 9} then
              Decode(b) == Err(UnknownValue("primary link function", b[3] % 16))
            else if b[3] / 64 % 2 == 0 && b[3] % 16 !in {0, 1, 11, 15} then
              Decode(b) == Err(UnknownValue("secondary link function", b[3] % 16))
            else Decode(b).Ok? || Decode(b) == Err(InvalidCrc))
  {
    hide CrcBytes, VerifyCrc, DecodeBlocksAt, DecodeControl;
    if |b| >= 10 {
      assert b[..2] == START_BYTES <==> b[0] == 0x05 && b[1] == 0x64;
      if b[..2] == START_BYTES && b[2] >= 5 {
        VerifyAcceptsCodewords(b[..8], b[8..10]);
        VerifyError(b[..8], b[8..10]);
        ControlError(b[3]);
        if |b| == FrameLength(b[2]) {
          BlocksError(b[10..], 0, b[2] - 5);
        }
      }
    }
  }

  lemma VerifyError(block: Bytes, crc: Bytes)
    requires |crc| == 2
    ensures VerifyCrc(block, crc).Err? ==> VerifyCrc(block, crc) == Err(InvalidCrc)
  {
  }

  lemma ControlError(value: u8)
    ensures DecodeControl(value) ==
      if value / 64 % 2 == 1 && value % 16 !in {0, 1, 2, 3, 4, 9} then Err(UnknownValue("primary link function", value % 16))
      else if value / 64 % 2 == 0 && value % 16 !in {0, 1, 11, 15} then Err(UnknownValue("secondary link function", value % 16))
      else Ok(DecodeControl(value).value)
  {
  }

  /** Of enough bytes only a checksum can be wrong. */
  lemma {:induction false} BlocksError(encoded: Bytes, offset: nat, remaining: nat)
    requires |encoded| == offset + remaining + 2 * ((remaining + 15) / 16)
    ensures DecodeBlocksAt(encoded, offset, remaining).Err? ==> DecodeBlocksAt(encoded, offset, remaining) == Err(InvalidCrc)
    decreases remaining
  {
    hide VerifyCrc;
    if remaining > 0 {
      var n := Min(16, remaining);
      VerifyError(encoded[offset..offset + n], encoded[offset + n..offset + n + 2]);
      BlocksError(encoded, offset + n + 2, remaining - n);
    }
  }
}
