/** What the two session roles share: frame queues, session errors, user data frames. */
module Channel {
  import opened Primitives
  import opened Link
  import opened Transport

  datatype SessionError = Protocol(error: ProtocolError) | ChannelEmpty

  /** A pair of frame queues: what the peer has sent, and what has been sent to it. */
  class FrameChannel {
    var inbox: seq<LinkFrame>
    var outbox: seq<LinkFrame>

    constructor (inbox: seq<LinkFrame>)
      ensures this.inbox == inbox && outbox == []
    {
      this.inbox := inbox;
      outbox := [];
    }

    method SendFrame(frame: LinkFrame)
      modifies this`outbox
      ensures outbox == old(outbox) + [frame]
    {
      outbox := outbox + [frame];
    }

    method ReceiveFrame() returns (r: Result<LinkFrame, SessionError>)
      modifies this`inbox
      ensures if old(inbox) == [] then r == Err(ChannelEmpty) && inbox == []
        else r == Ok(old(inbox)[0]) && inbox == old(inbox)[1..]
    {
      if inbox == [] {
        return Err(ChannelEmpty);
      }
      r := Ok(inbox[0]);
      inbox := inbox[1..];
    }
  }

  /** One user data frame for each segment; the first frame that cannot be built ends it. */
  function BuildFrames(direction: Direction, destination: u16, source: u16, segments: seq<Segment>): Outcome<seq<LinkFrame>> {
    if segments == [] then Ok([])
    else
      var first :- UserData(direction, destination, source, EncodeSegment(segments[0]));
      var rest :- BuildFrames(direction, destination, source, segments[1..]);
      Ok([first] + rest)
  }

  function DataFrame(direction: Direction, destination: u16, source: u16, segment: Segment): LinkFrame {
    LinkFrame(PrimaryControl(direction, UnconfirmedUserData), destination, source, EncodeSegment(segment))
  }

  function DataFrames(direction: Direction, destination: u16, source: u16, segments: seq<Segment>): seq<LinkFrame> {
    if segments == [] then []
    else [DataFrame(direction, destination, source, segments[0])] + DataFrames(direction, destination, source, segments[1..])
  }

  lemma {:induction false} DataFramesConcat(direction: Direction, destination: u16, source: u16, a: seq<Segment>, b: seq<Segment>)
    ensures DataFrames(direction, destination, source, a + b) ==
      DataFrames(direction, destination, source, a) + DataFrames(direction, destination, source, b)
  {
    hide DataFrame;
    if a == [] {
      assert a + b == b;
    } else {
      assert (a + b)[1..] == a[1..] + b;
      DataFramesConcat(direction, destination, source, a[1..], b);
    }
  }

  predicate AllWellFormed(segments: seq<Segment>) { forall s :: s in segments ==> WellFormed(s) }

  /** Every segment of a message fits one link frame, so building frames never fails. */
  lemma {:induction false} BuildFramesSucceeds(direction: Direction, destination: u16, source: u16, segments: seq<Segment>)
    requires AllWellFormed(segments)
    ensures BuildFrames(direction, destination, source, segments) == Ok(DataFrames(direction, destination, source, segments))
  {
    if segments != [] {
      assert WellFormed(segments[0]);
      assert AllWellFormed(segments[1..]);
      BuildFramesSucceeds(direction, destination, source, segments[1..]);
    }
  }

  /** A full segment exactly fills a link frame. */
  lemma FullSegmentFillsFrame(application: Bytes, start: u8, i: nat)
    requires i + 1 < SegmentCount(application)
    ensures |EncodeSegment(Fragment(application, start)[i])| == 250 == MAX_PAYLOAD
  {
    hide Fragment;
    SegmentsAreFull(application, start, i);
  }

  lemma FragmentsAreWellFormed(application: Bytes, start: u8)
    ensures AllWellFormed(Fragment(application, start))
  {
    hide Fragment, WellFormed;
    var segments := Fragment(application, start);
    forall s | s in segments
      ensures WellFormed(s)
    {
      var i :| 0 <= i < |segments| && segments[i] == s;
      FragmentAt(application, start, i);
    }
  }

  /** Does the sessions' addition of two bytes, the number and the truncated segment count, stay a byte? */
  predicate AdditionFits(sequence: u8, segments: nat) { sequence + segments % 0x100 <= 0xff }

  /** The segment counts that no six-bit number overflows with are those of at most 192, modulo 256. */
  lemma SequenceAdditionFits(segments: nat)
    ensures (forall sequence: u8 :: sequence < 0x40 ==> AdditionFits(sequence, segments)) <==> segments % 0x100 <= 192
  {
    assert AdditionFits(0x3f, segments) <==> segments % 0x100 <= 192;
  }

  lemma NextSequenceAdds(sequence: u8, segments: nat)
    ensures NextSequence(sequence, segments) == (sequence + segments) % 0x40 < 0x40
  {
    TruncatedSum(sequence, segments);
  }

  method MakeFrames(direction: Direction, destination: u16, source: u16, segments: seq<Segment>)
    returns (r: Outcome<seq<LinkFrame>>)
    ensures r == BuildFrames(direction, destination, source, segments)
  {
    var frames: seq<LinkFrame> := [];
    var i := 0;
    assert segments[0..] == segments;
    PrependConcat([], [], BuildFrames(direction, destination, source, segments));
    while i < |segments|
      invariant 0 <= i <= |segments|
      invariant Prepend(frames, BuildFrames(direction, destination, source, segments[i..])) == BuildFrames(direction, destination, source, segments)
    {
      assert segments[i..][0] == segments[i] && segments[i..][1..] == segments[i + 1..];
      var frame :- UserData(direction, destination, source, EncodeSegment(segments[i]));
      PrependConcat(frames, [frame], BuildFrames(direction, destination, source, segments[i + 1..]));
      frames := frames + [frame];
      i := i + 1;
    }
    assert segments[i..] == [];
    PrependToNothing(frames);
    return Ok(frames);
  }
}
