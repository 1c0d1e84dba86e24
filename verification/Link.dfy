/** Data link frames: control field, header, checksummed payload. */
module Link {
  import opened Primitives
  import opened CrcBlocks

  const START_BYTES: Bytes := [0x05, 0x64]
  const MIN_LENGTH_FIELD := 5
  const MAX_LENGTH_FIELD := 255
  const MAX_PAYLOAD := MAX_LENGTH_FIELD - MIN_LENGTH_FIELD

  datatype Direction = MasterToOutstation | OutstationToMaster

  datatype PrimaryFunction =
    | ResetLinkStates
    | ResetUserProcess
    | TestLinkStates
    | ConfirmedUserData
    | UnconfirmedUserData
    | RequestLinkStatus

  datatype SecondaryFunction = Ack | Nack | LinkStatus | NotSupported

  datatype LinkFunction = Primary(primary: PrimaryFunction) | Secondary(secondary: SecondaryFunction)

  datatype ControlField = ControlField(direction: Direction, fcb: bool, fcv: bool, func: LinkFunction)

  datatype LinkFrame = LinkFrame(control: ControlField, destination: u16, source: u16, payload: Bytes)

  // Control field.

  function PrimaryCode(f: PrimaryFunction): u8 {
    match f
    case ResetLinkStates => 0
    case ResetUserProcess => 1
    case TestLinkStates => 2
    case ConfirmedUserData => 3
    case UnconfirmedUserData => 4
    case RequestLinkStatus => 9
  }

  function ParsePrimary(code: u8): Outcome<PrimaryFunction> {
    match code
    case 0 => Ok(ResetLinkStates)
    case 1 => Ok(ResetUserProcess)
    case 2 => Ok(TestLinkStates)
    case 3 => Ok(ConfirmedUserData)
    case 4 => Ok(UnconfirmedUserData)
    case 9 => Ok(RequestLinkStatus)
    case _ => Err(UnknownValue("primary link function", code))
  }

  function SecondaryCode(f: SecondaryFunction): u8 {
    match f
    case Ack => 0
    case Nack => 1
    case LinkStatus => 11
    case NotSupported => 15
  }

  function ParseSecondary(code: u8): Outcome<SecondaryFunction> {
    match code
    case 0 => Ok(Ack)
    case 1 => Ok(Nack)
    case 11 => Ok(LinkStatus)
    case 15 => Ok(NotSupported)
    case _ => Err(UnknownValue("secondary link function", code))
  }

  /** The fields occupy disjoint bits of the byte, so the bitwise or of the source is a sum. */
  function EncodeControl(c: ControlField): u8 {
    var (prm, code) := match c.func
      case Primary(f) => (0x40, PrimaryCode(f))
      case Secondary(f) => (0x00, SecondaryCode(f));
    (if c.direction.OutstationToMaster? then 0x80 else 0) + prm +
    (if c.fcb then 0x20 else 0) + (if c.fcv then 0x10 else 0) + code
  }

  function DecodeControl(value: u8): Outcome<ControlField> {
    var direction := if value / 0x80 == 0 then MasterToOutstation else OutstationToMaster;
    var fcb := value / 0x20 % 2 != 0;
    var fcv := value / 0x10 % 2 != 0;
    var code: u8 := value % 0x10;
    if value / 0x40 % 2 != 0 then
      var f :- ParsePrimary(code);
      Ok(ControlField(direction, fcb, fcv, Primary(f)))
    else
      var f :- ParseSecondary(code);
      Ok(ControlField(direction, fcb, fcv, Secondary(f)))
  }

  /** The five fields of a control byte do not disturb each other. */
  lemma ControlBits(value: u8, d: int, p: int, f: int, v: int, code: int)
    requires 0 <= d < 2 && 0 <= p < 2 && 0 <= f < 2 && 0 <= v < 2 && 0 <= code < 0x10
    ensures value == 0x80 * d + 0x40 * p + 0x20 * f + 0x10 * v + code <==>
      value / 0x80 == d && value / 0x40 % 2 == p && value / 0x20 % 2 == f && value / 0x10 % 2 == v && value % 0x10 == code
  {
    var q := value / 0x10;
    assert value == 0x10 * q + value % 0x10;
    assert value / 0x80 == q / 8 && value / 0x40 == q / 4 && value / 0x20 == q / 2;
    assert q == 8 * (q / 8) + 4 * (q / 4 % 2) + 2 * (q / 2 % 2) + q % 2;
  }

  function Bit(b: bool): int { if b then 1 else 0 }

  lemma FunctionCodes(code: u8)
    ensures forall f :: ParsePrimary(code) == Ok(f) <==> PrimaryCode(f) == code
    ensures forall f :: ParseSecondary(code) == Ok(f) <==> SecondaryCode(f) == code
  {
  }

  lemma ControlRoundTrip(c: ControlField)
    ensures DecodeControl(EncodeControl(c)) == Ok(c)
  {
    hide ParsePrimary, ParseSecondary;
    var code := match c.func case Primary(f) => PrimaryCode(f) case Secondary(f) => SecondaryCode(f);
    ControlBits(EncodeControl(c), Bit(c.direction.OutstationToMaster?), Bit(c.func.Primary?), Bit(c.fcb), Bit(c.fcv), code);
    FunctionCodes(code);
  }

  lemma ControlCanonical(value: u8, c: ControlField)
    requires DecodeControl(value) == Ok(c)
    ensures EncodeControl(c) == value
  {
    hide ParsePrimary, ParseSecondary, PrimaryCode, SecondaryCode;
    FunctionCodes(value % 0x10);
    ControlBits(value, value / 0x80, value / 0x40 % 2, value / 0x20 % 2, value / 0x10 % 2, value % 0x10);
  }

  // Frames.

  function NewFrame(control: ControlField, destination: u16, source: u16, payload: Bytes): Outcome<LinkFrame> {
    if |payload| + MIN_LENGTH_FIELD > MAX_LENGTH_FIELD
    then Err(InvalidLength(MAX_PAYLOAD, |payload|))
    else Ok(LinkFrame(control, destination, source, payload))
  }

  function PrimaryControl(direction: Direction, f: PrimaryFunction): ControlField {
    ControlField(direction, false, false, Primary(f))
  }

  function UserData(direction: Direction, destination: u16, source: u16, payload: Bytes): Outcome<LinkFrame> {
    NewFrame(PrimaryControl(direction, UnconfirmedUserData), destination, source, payload)
  }

  function AckFrame(direction: Direction, destination: u16, source: u16, fcb: bool): LinkFrame {
    LinkFrame(ControlField(direction, fcb, false, Secondary(Ack)), destination, source, [])
  }

  function LinkStatusFrame(destination: u16, source: u16): LinkFrame {
    LinkFrame(ControlField(OutstationToMaster, false, false, Secondary(LinkStatus)), destination, source, [0xff])
  }

  function Header(f: LinkFrame): (h: Bytes)
    ensures |h| == 8
  {
    START_BYTES + [(MIN_LENGTH_FIELD + |f.payload|) % 0x100, EncodeControl(f.control)] +
    U16Bytes(f.destination) + U16Bytes(f.source)
  }

  function Encode(f: LinkFrame): Bytes {
    Header(f) + CrcBytes(Header(f)) + EncodeBlocks(f.payload)
  }

  function Decode(input: Bytes): Outcome<LinkFrame> {
    if |input| < 10 then Err(UnexpectedEof)
    else if input[..2] != START_BYTES then Err(InvalidStartBytes)
    else if input[2] < MIN_LENGTH_FIELD then Err(InvalidLength(MIN_LENGTH_FIELD, input[2]))
    else
      var _ :- VerifyCrc(input[..8], input[8..10]);
      var payloadLen := input[2] - MIN_LENGTH_FIELD;
      var expected := 10 + EncodedLen(payloadLen);
      if |input| != expected then Err(InvalidLength(expected, |input|))
      else
        var control :- DecodeControl(input[3]);
        var payload :- DecodeBlocks(input[10..], payloadLen);
        Ok(LinkFrame(control, U16At(input[4..]), U16At(input[6..]), payload))
  }

  lemma EncodeLength(f: LinkFrame)
    ensures |Encode(f)| == 10 + EncodedLen(|f.payload|)
    ensures Encode(f)[..8] == Header(f) && Encode(f)[8..10] == CrcBytes(Header(f)) && Encode(f)[10..] == EncodeBlocks(f.payload)
  {
    hide CrcBytes, EncodeBlocks, EncodedLen;
    EncodeBlocksLength(f.payload);
  }

  /** Decoding undoes encoding exactly for the payloads a length byte can describe. */
  lemma DecodeOfEncode(f: LinkFrame)
    ensures Decode(Encode(f)) == Ok(f) <==> |f.payload| <= MAX_PAYLOAD
  {
    hide CrcBytes, EncodeBlocks, VerifyCrc, DecodeBlocks, DecodeControl, EncodeControl;
    var b, h := Encode(f), Header(f);
    EncodeLength(f);
    assert b[2] == h[2] && b[3] == h[3] && b[..2] == h[..2];
    if |f.payload| <= MAX_PAYLOAD {
      assert b[4..] == U16Bytes(f.destination) + b[6..];
      assert b[6..] == U16Bytes(f.source) + b[8..];
      U16RoundTrip(f.destination, b[6..]);
      U16RoundTrip(f.source, b[8..]);
      VerifyAcceptsCodewords(h, CrcBytes(h));
      ControlRoundTrip(f.control);
      BlocksRoundTrip(f.payload);
    } else if b[2] >= MIN_LENGTH_FIELD {
      EncodedLenIncreases(b[2] - MIN_LENGTH_FIELD, |f.payload|);
    }
  }

  /** The decoder accepts nothing but encoder output, so every frame has one wire form. */
  lemma EncodeOfDecode(b: Bytes, f: LinkFrame)
    requires Decode(b) == Ok(f)
    ensures Encode(f) == b && |f.payload| <= MAX_PAYLOAD
  {
    hide CrcBytes, EncodeBlocks, VerifyCrc, DecodeBlocks, DecodeControl, EncodeControl, EncodedLen;
    var n := b[2] - MIN_LENGTH_FIELD;
    VerifyAcceptsCodewords(b[..8], b[8..10]);
    ControlCanonical(b[3], f.control);
    BlocksCanonical(b[10..], n, f.payload);
    U16Canonical(b[4..]);
    U16Canonical(b[6..]);
    assert b[4..][..2] == b[4..6] && b[6..][..2] == b[6..8];
    assert b[..8] == b[..2] + [b[2], b[3]] + b[4..6] + b[6..8];
    assert b[..8] == Header(f);
    assert b == b[..8] + b[8..10] + b[10..];
  }

  method EncodeFrame(f: LinkFrame) returns (out: Bytes)
    ensures out == Encode(f)
  {
    hide EncodeBlocks, CrcBytes;
    var length := (MIN_LENGTH_FIELD + |f.payload|) % 0x100;
    var header: Bytes := START_BYTES;
    header := header + [length];
    header := header + [EncodeControl(f.control)];
    header := header + U16Bytes(f.destination);
    header := header + U16Bytes(f.source);
    assert header == Header(f);
    out := AppendCrc(header, header);
    out := EncodeCrcBlocks(f.payload, out);
  }

  method DecodeFrame(input: Bytes) returns (r: Outcome<LinkFrame>)
    ensures r == Decode(input)
  {
    hide VerifyCrc, DecodeBlocks, DecodeControl, EncodedLen;
    if |input| < 10 {
      return Err(UnexpectedEof);
    }
    if input[..2] != START_BYTES {
      return Err(InvalidStartBytes);
    }
    var length := input[2];
    if !(MIN_LENGTH_FIELD <= length <= MAX_LENGTH_FIELD) {
      return Err(InvalidLength(MIN_LENGTH_FIELD, length));
    }
    var _ :- CheckCrc(input[..8], input[8..10]);
    var payloadLen := length - MIN_LENGTH_FIELD;
    var expected := 10 + EncodedLen(payloadLen);
    if |input| != expected {
      return Err(InvalidLength(expected, |input|));
    }
    // Five bytes are there to be read, so none of these reads can fail.
    var reader := new Reader(input[3..8]);
    var value := reader.ReadU8();
    var control :- DecodeControl(value.value);
    var destination := reader.ReadU16();
    var source := reader.ReadU16();
    var payload :- DecodeCrcBlocks(input[10..], payloadLen);
    return Ok(LinkFrame(control, destination.value, source.value, payload));
  }
}
