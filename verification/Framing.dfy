/** Cutting a byte stream into link frames, as the serial reader does. */
module Framing {
  import opened Primitives
  import CrcBlocks
  import opened Link

  datatype StreamError = Protocol(error: ProtocolError) | Io

  type Framed = Result<(LinkFrame, Bytes), StreamError>

  /** One read from the front of a stream: the frame and what is left, or an error. */
  function ReadFrame(s: Bytes): Framed {
    if |s| < 10 then Err(Io)
    else if s[..2] != START_BYTES then Err(Protocol(InvalidStartBytes))
    else if s[2] < MIN_LENGTH_FIELD then Err(Protocol(InvalidLength(MIN_LENGTH_FIELD, s[2])))
    else
      var n := 10 + CrcBlocks.EncodedLen(s[2] - MIN_LENGTH_FIELD);
      if |s| < n then Err(Io)
      else match Decode(s[..n])
        case Ok(f) => Ok((f, s[n..]))
        case Err(e) => Err(Protocol(e))
  }

  /** Reads frames until the stream is empty or a read fails. */
  function ReadFrames(s: Bytes): (seq<LinkFrame>, Bytes)
    decreases |s|
  {
    match ReadFrame(s)
    case Err(_) => ([], s)
    case Ok((f, rest)) =>
      var (frames, tail) := ReadFrames(rest);
      ([f] + frames, tail)
  }

  /** What a list of frames looks like on the wire. */
  function Wire(frames: seq<LinkFrame>): Bytes {
    if frames == [] then [] else Encode(frames[0]) + Wire(frames[1..])
  }

  predicate Sendable(frames: seq<LinkFrame>) {
    forall f :: f in frames ==> |f.payload| <= MAX_PAYLOAD
  }

  /** How many bytes a read takes whose third byte is `length`, and when it fails. */
  lemma ReadFrameErrors(s: Bytes)
    ensures |s| < 10 ==> ReadFrame(s) == Err(Io)
    ensures |s| >= 10 && !(s[0] == 0x05 && s[1] == 0x64) ==> ReadFrame(s) == Err(Protocol(InvalidStartBytes))
    ensures |s| >= 10 && s[0] == 0x05 && s[1] == 0x64 ==>
      if s[2] < 5 then ReadFrame(s) == Err(Protocol(InvalidLength(5, s[2])))
      else
        var n := s[2] as int + 5 + 2 * ((s[2] as int + 10) / 16);
        if |s| < n then ReadFrame(s) == Err(Io)
        else Decode(s[..n]).Err? ==> ReadFrame(s) == Err(Protocol(Decode(s[..n]).error))
  {
    hide Decode;
    if |s| >= 10 {
      assert s[..2] == START_BYTES <==> s[0] == 0x05 && s[1] == 0x64;
    }
  }

  lemma ReadFrameOfEncode(f: LinkFrame, rest: Bytes)
    requires |f.payload| <= MAX_PAYLOAD
    ensures ReadFrame(Encode(f) + rest) == Ok((f, rest))
  {
    hide Encode, Decode, CrcBlocks.EncodedLen;
    EncodeLength(f);
    DecodeOfEncode(f);
    var b, s := Encode(f), Encode(f) + rest;
    assert b[..8][2] == MIN_LENGTH_FIELD + |f.payload| && b[..8][..2] == START_BYTES;
    assert s[..|b|] == b && s[|b|..] == rest && s[..2] == b[..8][..2];
  }

  /** A read returns a frame exactly when the stream starts with that frame's encoding. */
  lemma ReadFrameIsInverse(s: Bytes, f: LinkFrame, rest: Bytes)
    ensures ReadFrame(s) == Ok((f, rest)) <==> s == Encode(f) + rest && |f.payload| <= MAX_PAYLOAD
  {
    hide Encode, Decode, CrcBlocks.EncodedLen;
    if ReadFrame(s) == Ok((f, rest)) {
      var n := 10 + CrcBlocks.EncodedLen(s[2] - MIN_LENGTH_FIELD);
      EncodeOfDecode(s[..n], f);
      assert s == s[..n] + s[n..];
    }
    if s == Encode(f) + rest && |f.payload| <= MAX_PAYLOAD {
      ReadFrameOfEncode(f, rest);
    }
  }

  /** No frame's encoding is a proper prefix of another's. */
  lemma PrefixFree(f: LinkFrame, g: LinkFrame)
    requires |f.payload| <= MAX_PAYLOAD && |g.payload| <= MAX_PAYLOAD
    requires Encode(f) <= Encode(g)
    ensures f == g
  {
    hide Encode, ReadFrame;
    var s := Encode(g);
    assert s == Encode(f) + s[|Encode(f)|..] && s == Encode(g) + [];
    ReadFrameIsInverse(s, f, s[|Encode(f)|..]);
    ReadFrameIsInverse(s, g, []);
  }

  /** Frames written back to back are read back one by one, with nothing left over. */
  lemma {:induction false} ReadFramesOfWire(frames: seq<LinkFrame>, tail: Bytes)
    requires Sendable(frames) && ReadFrame(tail).Err?
    ensures ReadFrames(Wire(frames) + tail) == (frames, tail)
    decreases |frames|
  {
    hide Encode, ReadFrame;
    if frames == [] {
      assert Wire(frames) + tail == tail;
    } else {
      var s, rest := Wire(frames) + tail, Wire(frames[1..]) + tail;
      assert s == Encode(frames[0]) + rest;
      ReadFrameIsInverse(s, frames[0], rest);
      ReadFramesOfWire(frames[1..], tail);
      assert frames == [frames[0]] + frames[1..];
    }
  }

  /** Different lists of frames never look alike on the wire. */
  lemma WireInjective(a: seq<LinkFrame>, b: seq<LinkFrame>)
    requires Sendable(a) && Sendable(b) && Wire(a) == Wire(b)
    ensures a == b
  {
    hide ReadFrames, Wire;
    assert ReadFrame([]).Err?;
    assert Wire(a) + [] == Wire(a) && Wire(b) + [] == Wire(b);
    ReadFramesOfWire(a, []);
    ReadFramesOfWire(b, []);
  }

  /** The blocking byte source of the reader. */
  class ByteStream {
    const data: Bytes
    var pos: nat

    ghost predicate Valid()
      reads this
    {
      pos <= |data|
    }

    ghost function Rest(): Bytes
      reads this
      requires Valid()
    {
      data[pos..]
    }

    constructor (data: Bytes)
      ensures Valid() && Rest() == data
    {
      this.data := data;
      pos := 0;
    }

    method ReadExact(len: nat) returns (r: Result<Bytes, StreamError>)
      requires Valid()
      modifies this
      ensures Valid()
      ensures |old(Rest())| < len ==> r == Err(Io)
      ensures |old(Rest())| >= len ==> r == Ok(old(Rest())[..len]) && Rest() == old(Rest())[len..]
    {
      if |data| - pos < len {
        pos := |data|;
        return Err(Io);
      }
      pos := pos + len;
      assert data[pos - len..pos] == old(Rest())[..len];
      return Ok(data[pos - len..pos]);
    }
  }

  method ReadFrameBlocking(reader: ByteStream) returns (r: Result<LinkFrame, StreamError>)
    requires reader.Valid()
    modifies reader
    ensures reader.Valid()
    ensures match ReadFrame(old(reader.Rest()))
      case Ok((f, rest)) => r == Ok(f) && reader.Rest() == rest
      case Err(e) => r == Err(e)
  {
    hide Decode, CrcBlocks.EncodedLen;
    ghost var s := reader.Rest();
    var fixed :- reader.ReadExact(10);
    if fixed[..2] != START_BYTES {
      return Err(Protocol(InvalidStartBytes));
    }
    var length := fixed[2];
    if length < 5 {
      return Err(Protocol(InvalidLength(5, length)));
    }
    var restLen := CrcBlocks.EncodedLen(length - 5);
    var rest :- reader.ReadExact(restLen);
    var encoded := fixed;
    encoded := encoded + rest;
    assert encoded == s[..10 + restLen];
    var decoded := DecodeFrame(encoded);
    match decoded {
      case Ok(f) => return Ok(f);
      case Err(e) => return Err(Protocol(e));
    }
  }
}
