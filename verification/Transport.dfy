/** Transport segments: cutting application bytes into numbered segments and putting them back. */
module Transport {
  import opened Primitives

  const MAX_TRANSPORT_PAYLOAD := 249

  datatype TransportHeader = TransportHeader(fir: bool, fin: bool, sequence: u8)

  datatype Segment = Segment(header: TransportHeader, payload: Bytes)

  function NewHeader(fir: bool, fin: bool, sequence: u8): TransportHeader {
    TransportHeader(fir, fin, sequence % 0x40)
  }

  function EncodeHeader(h: TransportHeader): u8 {
    (if h.fir then 0x80 else 0) + (if h.fin then 0x40 else 0) + h.sequence % 0x40
  }

  function DecodeHeader(value: u8): TransportHeader {
    TransportHeader(value / 0x80 != 0, value / 0x40 % 2 != 0, value % 0x40)
  }

  function EncodeSegment(s: Segment): Bytes { [EncodeHeader(s.header)] + s.payload }

  function DecodeSegment(input: Bytes): Outcome<Segment> {
    if input == [] then Err(UnexpectedEof)
    else if |input| > MAX_TRANSPORT_PAYLOAD + 1 then Err(InvalidLength(MAX_TRANSPORT_PAYLOAD + 1, |input|))
    else Ok(Segment(DecodeHeader(input[0]), input[1..]))
  }

  predicate WellFormed(s: Segment) {
    s.header.sequence < 0x40 && |s.payload| <= MAX_TRANSPORT_PAYLOAD
  }

  /** A segment survives the wire exactly when its number has six bits and its payload fits. */
  lemma SegmentRoundTrip(s: Segment)
    ensures DecodeSegment(EncodeSegment(s)) == Ok(s) <==> WellFormed(s)
  {
    assert EncodeSegment(s)[1..] == s.payload;
    var h, v := s.header, EncodeHeader(s.header);
    assert v / 0x80 != 0 <==> h.fir;
    assert v / 0x40 % 2 != 0 <==> h.fin;
    assert v % 0x40 == h.sequence % 0x40;
  }

  lemma SegmentCanonical(b: Bytes, s: Segment)
    requires DecodeSegment(b) == Ok(s)
    ensures EncodeSegment(s) == b && WellFormed(s)
  {
    assert b[0] == b[0] / 0x80 * 0x80 + b[0] / 0x40 % 2 * 0x40 + b[0] % 0x40;
    assert b == [b[0]] + b[1..];
  }

  /** The header byte: first 128, last 64, the number below; then the payload. */
  lemma SegmentLayout(s: Segment)
    ensures var b := EncodeSegment(s);
      && |b| == 1 + |s.payload| && b[1..] == s.payload
      && (b[0] / 128 == 1 <==> s.header.fir) && (b[0] / 64 % 2 == 1 <==> s.header.fin) && b[0] % 64 == s.header.sequence % 64
  {
    assert EncodeSegment(s)[1..] == s.payload;
  }

  /** Bytes that are no segment: none at all, or more than 250. */
  lemma SegmentErrors(b: Bytes)
    ensures DecodeSegment(b).Ok? <==> 1 <= |b| <= 250
    ensures |b| == 0 ==> DecodeSegment(b) == Err(UnexpectedEof)
    ensures |b| > 250 ==> DecodeSegment(b) == Err(InvalidLength(250, |b|))
  {
  }

  // Segmentation.

  function SegmentCount(application: Bytes): nat {
    if application == [] then 1 else (|application| + MAX_TRANSPORT_PAYLOAD - 1) / MAX_TRANSPORT_PAYLOAD
  }

  function Chunk(application: Bytes, i: nat): Bytes
    requires i < SegmentCount(application)
  {
    application[MAX_TRANSPORT_PAYLOAD * i..Min(MAX_TRANSPORT_PAYLOAD * (i + 1), |application|)]
  }

  /** The index is truncated to a byte and added with wrap-around before the header masks it. */
  function Fragment(application: Bytes, start: u8): (segments: seq<Segment>)
    ensures |segments| == SegmentCount(application)
  {
    var n := SegmentCount(application);
    seq(n, i requires 0 <= i < n =>
      Segment(NewHeader(i == 0, i + 1 == n, (start + i % 0x100) % 0x100), Chunk(application, i)))
  }

  lemma SixBits(a: nat, k: nat)
    ensures (a + 0x40 * k) % 0x40 == a % 0x40
  {
  }

  lemma TruncatedSum(a: u8, n: nat)
    ensures (a + n % 0x100) % 0x100 % 0x40 == (a + n) % 0x40
  {
    var t := a + n % 0x100;
    var k := 4 * (n / 0x100) + 4 * (t / 0x100);
    assert a + n == t % 0x100 + 0x40 * k;
    SixBits(t % 0x100, k);
  }

  /** The session's next segment number: one byte of arithmetic, then a six-bit mask. */
  function NextSequence(sequence: u8, segments: nat): u8 {
    (sequence + segments % 0x100) % 0x100 % 0x40
  }

  lemma NextSixBits(a: nat)
    ensures (a % 0x40 + 1) % 0x40 == (a + 1) % 0x40
  {
    SixBits(a % 0x40 + 1, a / 0x40);
  }

  /** Segments are numbered modulo 64 without a break, despite the narrower arithmetic. */
  lemma FragmentAt(application: Bytes, start: u8, i: nat)
    requires i < SegmentCount(application)
    ensures var s := Fragment(application, start)[i];
      && s.header == TransportHeader(i == 0, i + 1 == SegmentCount(application), (start + i) % 0x40)
      && s.payload == Chunk(application, i) && WellFormed(s)
  {
    TruncatedSum(start, i);
  }

  /** Every segment but the last is full: its header byte and 249 bytes of the message in order. */
  lemma SegmentsAreFull(application: Bytes, start: u8, i: nat)
    requires i < SegmentCount(application)
    ensures 249 * i <= |application|
    ensures var payload := Fragment(application, start)[i].payload;
      if i + 1 < SegmentCount(application) then 249 * (i + 1) < |application| && payload == application[249 * i..249 * (i + 1)]
      else |payload| <= 249 && payload == application[249 * i..]
  {
    hide Fragment;
    FragmentAt(application, start, i);
  }

  // Reassembly.

  datatype ReassemblerState = ReassemblerState(expected: Option<u8>, buffer: Bytes)

  const IDLE := ReassemblerState(None, [])

  function Push(st: ReassemblerState, s: Segment): (ReassemblerState, Outcome<Option<Bytes>>) {
    var h := s.header;
    if !h.fir && st.expected.None? then (st, Err(InvalidFragment))
    else
      var expected := if h.fir then h.sequence else st.expected.value;
      var buffer := (if h.fir then [] else st.buffer) + s.payload;
      if h.sequence != expected then (IDLE, Err(InvalidSequence(expected, h.sequence)))
      else if h.fin then (IDLE, Ok(Some(buffer)))
      else (ReassemblerState(Some((expected + 1) % 0x40), buffer), Ok(None))
  }

  /** Pushes a list of segments and collects what each push returns. */
  function PushEach(st: ReassemblerState, segments: seq<Segment>): (ReassemblerState, seq<Outcome<Option<Bytes>>>)
    decreases |segments|
  {
    if segments == [] then (st, [])
    else
      var (next, r) := Push(st, segments[0]);
      var (last, rs) := PushEach(next, segments[1..]);
      (last, [r] + rs)
  }

  /** The reassembler's position once the first `i` segments of a message are in. */
  function Partial(application: Bytes, start: u8, i: nat): ReassemblerState
    requires i < SegmentCount(application)
  {
    ReassemblerState(Some((start + i) % 0x40), application[..MAX_TRANSPORT_PAYLOAD * i])
  }

  /** One more segment of a message, in its turn. */
  lemma PushNext(st: ReassemblerState, application: Bytes, start: u8, i: nat)
    requires i < SegmentCount(application)
    requires i > 0 ==> st == Partial(application, start, i)
    ensures Push(st, Fragment(application, start)[i]) ==
      if i + 1 == SegmentCount(application) then (IDLE, Ok(Some(application)))
      else (Partial(application, start, i + 1), Ok(None))
  {
    hide Fragment;
    FragmentAt(application, start, i);
    NextSixBits(start + i);
    var before := application[..MAX_TRANSPORT_PAYLOAD * i];
    assert before + Chunk(application, i) == application[..Min(MAX_TRANSPORT_PAYLOAD * (i + 1), |application|)];
    if i + 1 == SegmentCount(application) {
      assert application[..|application|] == application;
    }
    if i == 0 {
      assert before == [];
    }
  }

  /** `pending` pushes that deliver nothing and then one that delivers the message. */
  function Delivery(pending: nat, application: Bytes): seq<Outcome<Option<Bytes>>> {
    if pending == 0 then [Ok(Some(application))] else [Ok(None)] + Delivery(pending - 1, application)
  }

  lemma {:induction false} PushRemaining(st: ReassemblerState, application: Bytes, start: u8, i: nat)
    requires i < SegmentCount(application)
    requires i > 0 ==> st == Partial(application, start, i)
    ensures var n := SegmentCount(application);
      PushEach(st, Fragment(application, start)[i..]) == (IDLE, Delivery(n - 1 - i, application))
    decreases SegmentCount(application) - i
  {
    hide Fragment, Push, SegmentCount, Chunk;
    var n, segments := SegmentCount(application), Fragment(application, start);
    PushNext(st, application, start, i);
    assert segments[i..][0] == segments[i] && segments[i..][1..] == segments[i + 1..];
    if i + 1 < n {
      PushRemaining(Partial(application, start, i + 1), application, start, i + 1);
    } else {
      assert segments[i + 1..] == [];
      assert PushEach(IDLE, []) == (IDLE, []);
      assert Delivery(0, application) == [Ok(Some(application))] + [];
    }
  }

  /** Whatever was left in the reassembler, a whole message comes out once, at its last segment. */
  lemma FragmentReassembles(st: ReassemblerState, application: Bytes, start: u8)
    ensures PushEach(st, Fragment(application, start)) ==
      (IDLE, Delivery(SegmentCount(application) - 1, application))
  {
    hide Fragment, PushEach;
    PushRemaining(st, application, start, 0);
    assert Fragment(application, start)[0..] == Fragment(application, start);
  }

  class Reassembler {
    var expectedSequence: Option<u8>
    var buffer: Bytes

    ghost function State(): ReassemblerState
      reads this
    {
      ReassemblerState(expectedSequence, buffer)
    }

    constructor ()
      ensures State() == IDLE
    {
      expectedSequence := None;
      buffer := [];
    }

    method Reset()
      modifies this
      ensures State() == IDLE
    {
      expectedSequence := None;
      buffer := [];
    }

    method PushSegment(segment: Segment) returns (r: Outcome<Option<Bytes>>)
      modifies this
      ensures (State(), r) == Push(old(State()), segment)
    {
      if segment.header.fir {
        buffer := [];
        expectedSequence := Some(segment.header.sequence);
      } else if expectedSequence.None? {
        return Err(InvalidFragment);
      }
      var expected := expectedSequence.value;
      if segment.header.sequence != expected {
        Reset();
        return Err(InvalidSequence(expected, segment.header.sequence));
      }
      buffer := buffer + segment.payload;
      expectedSequence := Some((expected as int + 1) % 0x100 % 0x40);
      SixBits((expected as int + 1) % 0x100, (expected as int + 1) / 0x100 * 4);
      if segment.header.fin {
        var complete := buffer;
        buffer := [];
        expectedSequence := None;
        return Ok(Some(complete));
      }
      return Ok(None);
    }
  }
}
