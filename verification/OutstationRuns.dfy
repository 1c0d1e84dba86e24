/** What an outstation session does over whole runs of frames. */
module OutstationRuns {
  import opened Primitives
  import opened Link
  import opened Transport
  import opened Channel
  import opened Outstation
  import LossyChannel

  /** A run: the final state and the reply to each frame. */
  function Run(address: u16, st: State, frames: seq<LinkFrame>): (State, seq<Reply>)
    decreases |frames|
  {
    if frames == [] then (st, [])
    else
      var (next, reply) := HandleFrame(address, st, frames[0]);
      var (last, replies) := Run(address, next, frames[1..]);
      (last, [reply] + replies)
  }

  /** Everything a run sends; a failed frame sends nothing. */
  function Sends(replies: seq<Reply>): seq<LinkFrame> {
    if replies == [] then []
    else (if replies[0].Ok? then replies[0].value else []) + Sends(replies[1..])
  }

  // Frames for other stations.

  function Addressed(address: u16, frames: seq<LinkFrame>): seq<LinkFrame> {
    if frames == [] then []
    else (if frames[0].destination == address then [frames[0]] else []) + Addressed(address, frames[1..])
  }

  function AddressedReplies(address: u16, frames: seq<LinkFrame>, replies: seq<Reply>): seq<Reply>
    requires |replies| == |frames|
  {
    if frames == [] then []
    else (if frames[0].destination == address then [replies[0]] else []) + AddressedReplies(address, frames[1..], replies[1..])
  }

  lemma {:induction false} RunLength(address: u16, st: State, frames: seq<LinkFrame>)
    ensures |Run(address, st, frames).1| == |frames|
    decreases |frames|
  {
    hide HandleFrame;
    if frames != [] {
      RunLength(address, HandleFrame(address, st, frames[0]).0, frames[1..]);
    }
  }

  /** Deleting the frames addressed elsewhere changes no state, no reply and nothing that is sent. */
  lemma {:induction false} ForeignFramesIgnored(address: u16, st: State, frames: seq<LinkFrame>)
    ensures |Run(address, st, frames).1| == |frames|
    ensures var (last, replies) := Run(address, st, frames);
      && Run(address, st, Addressed(address, frames)) == (last, AddressedReplies(address, frames, replies))
      && Sends(AddressedReplies(address, frames, replies)) == Sends(replies)
    decreases |frames|
  {
    hide HandleFrame;
    RunLength(address, st, frames);
    if frames != [] {
      var f, tail := frames[0], frames[1..];
      var (next, reply) := HandleFrame(address, st, f);
      ForeignFramesIgnored(address, next, tail);
      var mine, replies := Addressed(address, tail), Run(address, next, tail).1;
      assert ([reply] + replies)[1..] == replies;
      if f.destination == address {
        assert ([f] + mine)[1..] == mine;
      } else {
        ForeignFrame(address, st, f);
        assert [] + mine == mine && [] + Sends(replies) == Sends(replies);
        assert [] + AddressedReplies(address, tail, replies) == AddressedReplies(address, tail, replies);
      }
    }
  }

  lemma ForeignFrame(address: u16, st: State, frame: LinkFrame)
    requires frame.destination != address
    ensures HandleFrame(address, st, frame) == (st, Ok([]))
  {
  }

  // Link resets.

  predicate IsReset(address: u16, frame: LinkFrame) {
    frame.destination == address && frame.control.func == Primary(ResetLinkStates)
  }

  lemma {:induction false} DatabaseKept(address: u16, st: State, frames: seq<LinkFrame>)
    ensures Run(address, st, frames).0.database == st.database
    decreases |frames|
  {
    hide Push, Fragment, BuildFrames, Respond, DecodeSegment;
    if frames != [] {
      DatabaseKept(address, HandleFrame(address, st, frames[0]).0, frames[1..]);
    }
  }

  lemma {:induction false} RunConcat(address: u16, st: State, a: seq<LinkFrame>, b: seq<LinkFrame>)
    ensures var (mid, x) := Run(address, st, a);
      var (last, y) := Run(address, mid, b);
      Run(address, st, a + b) == (last, x + y)
    decreases |a|
  {
    hide HandleFrame;
    if a == [] {
      assert a + b == b && [] + Run(address, st, b).1 == Run(address, st, b).1;
    } else {
      assert (a + b)[1..] == a[1..] + b;
      var (next, reply) := HandleFrame(address, st, a[0]);
      RunConcat(address, next, a[1..], b);
      var (mid, x) := Run(address, next, a[1..]);
      ConcatAssociative([reply], x, Run(address, mid, b).1);
    }
  }

  /**
   Whatever came before an addressed reset, every later frame is answered as a new session
   over the same database would answer it.
   */
  lemma ResetForgets(address: u16, st: State, before: seq<LinkFrame>, reset: LinkFrame, after: seq<LinkFrame>)
    requires IsReset(address, reset)
    ensures var (last, replies) := Run(address, Start(st.database), after);
      Run(address, st, before + [reset] + after) == (last, Run(address, st, before + [reset]).1 + replies)
  {
    hide HandleFrame, Run, IsReset;
    DatabaseKept(address, st, before);
    var mid := Run(address, st, before).0;
    ResetFrame(address, mid, reset);
    RunOne(address, mid, reset);
    RunConcat(address, st, before, [reset]);
    RunConcat(address, st, before + [reset], after);
  }

  lemma RunOne(address: u16, st: State, frame: LinkFrame)
    ensures Run(address, st, [frame]) == (HandleFrame(address, st, frame).0, [HandleFrame(address, st, frame).1])
  {
    hide HandleFrame;
    var none: seq<LinkFrame> := [];
    var (next, reply) := HandleFrame(address, st, frame);
    assert [frame][1..] == none;
    assert Run(address, next, none) == (next, []);
    assert [reply] + [] == [reply];
  }

  lemma ResetFrame(address: u16, st: State, frame: LinkFrame)
    requires IsReset(address, frame)
    ensures HandleFrame(address, st, frame).0 == Start(st.database)
  {
  }

  // Numbering of what the session sends.

  predicate IsUserData(f: LinkFrame) { f.control.func == Primary(UnconfirmedUserData) }

  /** The transport payloads among a list of frames. */
  function UserPayloads(frames: seq<LinkFrame>): seq<Bytes> {
    if frames == [] then []
    else (if IsUserData(frames[0]) then [frames[0].payload] else []) + UserPayloads(frames[1..])
  }

  function EncodeSegments(segments: seq<Segment>): seq<Bytes> {
    if segments == [] then [] else [EncodeSegment(segments[0])] + EncodeSegments(segments[1..])
  }

  /** The response message a frame brings about, if it completes a request that is answered. */
  function Answered(address: u16, st: State, frame: LinkFrame): seq<Bytes> {
    if frame.destination == address && (IsUserData(frame) || frame.control.func == Primary(ConfirmedUserData)) then
      match DecodeSegment(frame.payload)
      case Err(_) => []
      case Ok(segment) =>
        match Push(st.reassembler, segment).1
        case Ok(Some(bytes)) =>
          var encoded := Respond(st.database, bytes);
          if encoded.Ok? then [encoded.value] else []
        case _ => []
    else []
  }

  /** The response messages of a whole run, in order. */
  function Responses(address: u16, st: State, frames: seq<LinkFrame>): seq<Bytes>
    decreases |frames|
  {
    if frames == [] then []
    else Answered(address, st, frames[0]) + Responses(address, HandleFrame(address, st, frames[0]).0, frames[1..])
  }

  lemma {:induction false} UserPayloadsConcat(a: seq<LinkFrame>, b: seq<LinkFrame>)
    ensures UserPayloads(a + b) == UserPayloads(a) + UserPayloads(b)
  {
    if a == [] {
      assert a + b == b;
    } else {
      assert (a + b)[1..] == a[1..] + b;
      UserPayloadsConcat(a[1..], b);
      ConcatAssociative(if IsUserData(a[0]) then [a[0].payload] else [], UserPayloads(a[1..]), UserPayloads(b));
    }
  }

  lemma {:induction false} EncodeSegmentsConcat(a: seq<Segment>, b: seq<Segment>)
    ensures EncodeSegments(a + b) == EncodeSegments(a) + EncodeSegments(b)
  {
    hide EncodeSegment;
    if a == [] {
      assert a + b == b;
    } else {
      assert (a + b)[1..] == a[1..] + b;
      EncodeSegmentsConcat(a[1..], b);
    }
  }

  lemma {:induction false} DataFramePayloads(direction: Direction, destination: u16, source: u16, segments: seq<Segment>)
    ensures UserPayloads(DataFrames(direction, destination, source, segments)) == EncodeSegments(segments)
  {
    hide EncodeSegment;
    if segments != [] {
      var frames := DataFrames(direction, destination, source, segments);
      assert frames[1..] == DataFrames(direction, destination, source, segments[1..]);
      DataFramePayloads(direction, destination, source, segments[1..]);
    }
  }

  lemma SendResponsePayloads(address: u16, st: State, destination: u16, encoded: Bytes, toolStyle: bool)
    ensures var (next, reply) := SendResponse(address, st, destination, encoded, toolStyle);
      && next == st.(transportSequence := LossyChannel.NumberAfter([encoded], st.transportSequence))
      && reply.Ok? && UserPayloads(reply.value) == EncodeSegments(LossyChannel.Sent([encoded], st.transportSequence))
  {
    hide Fragment, BuildFrames, NextSequence, DataFrames;
    LossyChannel.SentOne(encoded, st.transportSequence);
    var segments := Fragment(encoded, st.transportSequence);
    var direction := if toolStyle then MasterToOutstation else OutstationToMaster;
    FragmentsAreWellFormed(encoded, st.transportSequence);
    BuildFramesSucceeds(direction, destination, address, segments);
    DataFramePayloads(direction, destination, address, segments);
  }

  /** One frame: what is sent is the answered message, numbered on from the session's number. */
  lemma FrameNumbering(address: u16, st: State, frame: LinkFrame)
    requires !IsReset(address, frame)
    ensures var (next, reply) := HandleFrame(address, st, frame);
      var messages := Answered(address, st, frame);
      && next.transportSequence == LossyChannel.NumberAfter(messages, st.transportSequence)
      && UserPayloads(if reply.Ok? then reply.value else []) == EncodeSegments(LossyChannel.Sent(messages, st.transportSequence))
  {
    hide SendResponse, Push, Respond, DecodeSegment, NextSequence, Fragment;
    if frame.destination == address && (IsUserData(frame) || frame.control.func == Primary(ConfirmedUserData)) {
      UserDataNumbering(address, st, frame);
      var reply := HandleUserData(address, st, frame).1;
      if reply.Ok? {
        var ack := AckFrame(OutstationToMaster, frame.source, address, frame.control.fcb);
        assert ([ack] + reply.value)[1..] == reply.value;
      }
    }
  }

  lemma UserDataNumbering(address: u16, st: State, frame: LinkFrame)
    requires frame.destination == address && (IsUserData(frame) || frame.control.func == Primary(ConfirmedUserData))
    ensures var (next, reply) := HandleUserData(address, st, frame);
      var messages := Answered(address, st, frame);
      && next.transportSequence == LossyChannel.NumberAfter(messages, st.transportSequence)
      && UserPayloads(if reply.Ok? then reply.value else []) == EncodeSegments(LossyChannel.Sent(messages, st.transportSequence))
  {
    hide SendResponse, Push, Respond, DecodeSegment, NextSequence, Fragment;
    var segment := DecodeSegment(frame.payload);
    if segment.Ok? {
      var (pushed, complete) := Push(st.reassembler, segment.value);
      if complete.Ok? && complete.value.Some? {
        var encoded := Respond(st.database, complete.value.value);
        if encoded.Ok? {
          SendResponsePayloads(address, st.(reassembler := pushed), frame.source, encoded.value,
            frame.control.direction.OutstationToMaster?);
        }
      }
    }
  }

  /**
   Between link resets the transport segments a session emits, over all its responses, are
   those of one uninterrupted numbering modulo 64.
   */
  lemma {:induction false} NumberingContinues(address: u16, st: State, frames: seq<LinkFrame>)
    requires forall f :: f in frames ==> !IsReset(address, f)
    ensures var (last, replies) := Run(address, st, frames);
      var messages := Responses(address, st, frames);
      && UserPayloads(Sends(replies)) == EncodeSegments(LossyChannel.Sent(messages, st.transportSequence))
      && last.transportSequence == LossyChannel.NumberAfter(messages, st.transportSequence)
    decreases |frames|
  {
    hide HandleFrame, EncodeSegments, UserPayloads, Answered;
    if frames == [] {
      NothingSent();
    } else {
      var (next, reply) := HandleFrame(address, st, frames[0]);
      FrameNumbering(address, st, frames[0]);
      NumberingContinues(address, next, frames[1..]);
      var replies := Run(address, next, frames[1..]).1;
      assert ([reply] + replies)[1..] == replies;
      UserPayloadsConcat(if reply.Ok? then reply.value else [], Sends(replies));
      var first, rest := Answered(address, st, frames[0]), Responses(address, next, frames[1..]);
      LossyChannel.SentConcat(first, rest, st.transportSequence);
      EncodeSegmentsConcat(LossyChannel.Sent(first, st.transportSequence), LossyChannel.Sent(rest, next.transportSequence));
    }
  }

  lemma NothingSent()
    ensures UserPayloads([]) == [] && EncodeSegments([]) == []
  {
  }

  /** The session's segment number always has six bits. */
  lemma {:induction false} NumberStaysSixBit(address: u16, st: State, frames: seq<LinkFrame>)
    requires st.transportSequence < 0x40
    ensures Run(address, st, frames).0.transportSequence < 0x40
    decreases |frames|
  {
    hide Push, Fragment, BuildFrames, Respond, DecodeSegment;
    if frames != [] {
      NumberStaysSixBit(address, HandleFrame(address, st, frames[0]).0, frames[1..]);
    }
  }

  /** In no run from the start does the addition overflow on a response of at most 192 segments, modulo 256. */
  lemma AdditionNeverOverflows(address: u16, db: Database, frames: seq<LinkFrame>, frame: LinkFrame)
    ensures var st := Run(address, Start(db), frames).0;
      forall m :: m in Answered(address, st, frame) && SegmentCount(m) % 0x100 <= 192 ==>
        AdditionFits(st.transportSequence, SegmentCount(m))
  {
    hide Run, Answered, SegmentCount, AdditionFits;
    NumberStaysSixBit(address, Start(db), frames);
    var st := Run(address, Start(db), frames).0;
    forall m | m in Answered(address, st, frame) && SegmentCount(m) % 0x100 <= 192
      ensures AdditionFits(st.transportSequence, SegmentCount(m))
    {
      SequenceAdditionFits(SegmentCount(m));
    }
  }

  // What each link function is answered with.

  function Opposite(d: Direction): Direction { if d == MasterToOutstation then OutstationToMaster else MasterToOutstation }

  function Reply(f: LinkFrame, address: u16, direction: Direction, fcb: bool, func: SecondaryFunction, payload: Bytes): LinkFrame {
    LinkFrame(ControlField(direction, fcb, false, Secondary(func)), f.source, address, payload)
  }

  /**
   Resets are acknowledged against their direction and make a new session, tests are acknowledged
   in the old direction with their frame count bit, status requests get the link status, and all
   other functions that carry no data are ignored. Confirmed data is handled as unconfirmed data
   is, and acknowledged first unless it fails.
   */
  lemma LinkReplies(address: u16, st: State, f: LinkFrame)
    requires f.destination == address
    ensures var r := HandleFrame(address, st, f);
      match f.control.func
      case Primary(ResetLinkStates) =>
        r == (State(st.database, 0, IDLE), Ok([Reply(f, address, Opposite(f.control.direction), false, Ack, [])]))
      case Primary(TestLinkStates) => r == (st, Ok([Reply(f, address, MasterToOutstation, f.control.fcb, Ack, [])]))
      case Primary(RequestLinkStatus) => r == (st, Ok([Reply(f, address, OutstationToMaster, false, LinkStatus, [0xff])]))
      case Primary(ConfirmedUserData) =>
        var same := HandleFrame(address, st, f.(control := f.control.(func := Primary(UnconfirmedUserData))));
        && r.0 == same.0
        && r.1 == if same.1.Err? then same.1 else Ok([Reply(f, address, OutstationToMaster, f.control.fcb, Ack, [])] + same.1.value)
      case Primary(UnconfirmedUserData) => true
      case _ => r == (st, Ok([]))
  {
    hide Push, BuildFrames, Fragment, Respond, DecodeSegment, NextSequence;
  }

  /** User data that fails sends nothing and keeps the database and the number; a payload that is no segment changes nothing. */
  lemma FailedData(address: u16, st: State, f: LinkFrame)
    requires f.destination == address && IsUserData(f)
    ensures var (next, reply) := HandleFrame(address, st, f);
      && (reply.Err? ==> next.database == st.database && next.transportSequence == st.transportSequence)
      && (f.payload == [] ==> next == st && reply == Err(UnexpectedEof))
      && (|f.payload| > 250 ==> next == st && reply == Err(InvalidLength(250, |f.payload|)))
  {
    hide Push, Fragment, Respond, DecodeSegment, NextSequence, SendResponse;
    SegmentErrors(f.payload);
    var segment := DecodeSegment(f.payload);
    if segment.Ok? {
      var (pushed, complete) := Push(st.reassembler, segment.value);
      if complete.Ok? && complete.value.Some? && Respond(st.database, complete.value.value).Ok? {
        SendResponsePayloads(address, st.(reassembler := pushed), f.source, Respond(st.database, complete.value.value).value,
          f.control.direction.OutstationToMaster?);
      }
    }
  }

  // Where replies go.

  /** A reply frame: from this station, back to the sender, small enough for one link frame. */
  predicate Returns(address: u16, frame: LinkFrame, r: LinkFrame) {
    && r.source == address == frame.destination
    && r.destination == frame.source
    && |r.payload| <= MAX_PAYLOAD
    && (frame.control.func in {Primary(ResetLinkStates), Primary(UnconfirmedUserData)} ==>
          r.control.direction != frame.control.direction)
  }

  lemma {:induction false} DataFramesReturn(direction: Direction, address: u16, frame: LinkFrame, segments: seq<Segment>)
    requires AllWellFormed(segments) && frame.destination == address && direction != frame.control.direction
    ensures forall r :: r in DataFrames(direction, frame.source, address, segments) ==> Returns(address, frame, r)
  {
    hide WellFormed;
    if segments != [] {
      assert WellFormed(segments[0]);
      SegmentRoundTrip(segments[0]);
      DataFramesReturn(direction, address, frame, segments[1..]);
    }
  }

  lemma UserDataReturns(address: u16, st: State, frame: LinkFrame)
    requires frame.destination == address
    ensures var reply := HandleUserData(address, st, frame).1;
      reply.Ok? ==> forall r :: r in reply.value ==> Returns(address, frame, r)
  {
    hide Push, Respond, DecodeSegment, NextSequence, Fragment, BuildFrames, Returns;
    var segment := DecodeSegment(frame.payload);
    if segment.Ok? {
      var (pushed, complete) := Push(st.reassembler, segment.value);
      if complete.Ok? && complete.value.Some? {
        var encoded := Respond(st.database, complete.value.value);
        if encoded.Ok? {
          var segments := Fragment(encoded.value, st.transportSequence);
          var direction := if frame.control.direction.OutstationToMaster? then MasterToOutstation else OutstationToMaster;
          FragmentsAreWellFormed(encoded.value, st.transportSequence);
          BuildFramesSucceeds(direction, frame.source, address, segments);
          DataFramesReturn(direction, address, frame, segments);
        }
      }
    }
  }

  /** Every frame of every reply goes back to the station that asked, and can be sent. */
  lemma RepliesGoBack(address: u16, st: State, frame: LinkFrame)
    ensures var reply := HandleFrame(address, st, frame).1;
      reply.Ok? ==> forall r :: r in reply.value ==> Returns(address, frame, r)
  {
    hide HandleUserData;
    if frame.destination == address {
      UserDataReturns(address, st, frame);
    }
  }

  /** In a run nothing is sent that some received frame did not ask for. */
  lemma {:induction false} SendsGoBack(address: u16, st: State, frames: seq<LinkFrame>)
    ensures forall r :: r in Sends(Run(address, st, frames).1) ==> exists f :: f in frames && Returns(address, f, r)
    decreases |frames|
  {
    hide HandleFrame, Returns;
    if frames != [] {
      var (next, reply) := HandleFrame(address, st, frames[0]);
      var replies := Run(address, next, frames[1..]).1;
      assert ([reply] + replies)[1..] == replies;
      RepliesGoBack(address, st, frames[0]);
      SendsGoBack(address, next, frames[1..]);
      forall r | r in Sends(Run(address, st, frames).1)
        ensures exists f :: f in frames && Returns(address, f, r)
      {
        if r !in Sends(replies) {
          assert frames[0] in frames && Returns(address, frames[0], r);
        }
      }
    }
  }
}
