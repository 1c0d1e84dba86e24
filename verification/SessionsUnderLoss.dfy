/** Both sessions joined by channels that drop frames. */
module SessionsUnderLoss {
  import opened Primitives
  import opened Link
  import opened Transport
  import opened Channel
  import opened LossyChannel
  import opened ExactDelivery
  import opened EndToEnd
  import opened OutstationRuns
  import AppRoundTrip
  import App
  import Master
  import MasterRuns
  import Outstation

  // Dropped frames are dropped segments.

  lemma {:induction false} KeptDataFrames(
    direction: Direction, destination: u16, source: u16, segments: seq<Segment>, mask: seq<bool>)
    requires |mask| == |segments|
    ensures |DataFrames(direction, destination, source, segments)| == |segments|
    ensures Kept(DataFrames(direction, destination, source, segments), mask) ==
      DataFrames(direction, destination, source, Kept(segments, mask))
    decreases |segments|
  {
    hide DataFrame;
    if segments != [] {
      var frames := DataFrames(direction, destination, source, segments);
      assert frames[1..] == DataFrames(direction, destination, source, segments[1..]);
      KeptDataFrames(direction, destination, source, segments[1..], mask[1..]);
      DataFramesConcat(direction, destination, source, if mask[0] then [segments[0]] else [], Kept(segments[1..], mask[1..]));
    }
  }

  lemma KeptWellFormed(segments: seq<Segment>, mask: seq<bool>)
    requires |mask| == |segments| && AllWellFormed(segments)
    ensures AllWellFormed(Kept(segments, mask))
  {
    hide Kept, WellFormed, Positions;
    KeptAtPositions(segments, mask);
  }

  // The outstation's end.

  /** The responses to a list of complete requests, in order; a request that fails has none. */
  function Answers(db: Outstation.Database, requests: seq<Bytes>): seq<Bytes> {
    if requests == [] then []
    else
      var first := Outstation.Respond(db, requests[0]);
      (if first.Ok? then [first.value] else []) + Answers(db, requests[1..])
  }

  lemma {:induction false} AnswersConcat(db: Outstation.Database, a: seq<Bytes>, b: seq<Bytes>)
    ensures Answers(db, a + b) == Answers(db, a) + Answers(db, b)
    decreases |a|
  {
    hide Outstation.Respond;
    if a == [] {
      assert a + b == b;
    } else {
      assert (a + b)[1..] == a[1..] + b;
      AnswersConcat(db, a[1..], b);
    }
  }

  lemma AnswersOne(db: Outstation.Database, m: Bytes)
    ensures var r := Outstation.Respond(db, m);
      Answers(db, [m]) == if r.Ok? then [r.value] else []
  {
    hide Outstation.Respond;
    assert [m][1..] == [];
  }

  /** One frame of user data: the session's reassembler takes its segment, and answers what that completes. */
  lemma FrameIsPush(address: u16, st: Outstation.State, direction: Direction, source: u16, segment: Segment)
    requires WellFormed(segment)
    ensures var frame := DataFrame(direction, address, source, segment);
      var (pushed, out) := Received(st.reassembler, [segment]);
      var next := Outstation.HandleFrame(address, st, frame).0;
      && Answered(address, st, frame) == Answers(st.database, out)
      && next.reassembler == pushed && next.database == st.database
  {
    hide Push, DecodeSegment, EncodeSegment, Outstation.Respond, Fragment, BuildFrames, NextSequence, Received, Answers, WellFormed;
    DataFrameCarries(direction, address, source, segment);
    ReceivedOne(st.reassembler, segment);
    var r := Push(st.reassembler, segment).1;
    if r.Ok? && r.value.Some? {
      AnswersOne(st.database, r.value.value);
    } else {
      NoAnswers(st.database);
    }
  }

  lemma NoAnswers(db: Outstation.Database)
    ensures Answers(db, []) == []
  {
  }

  /** A run of user data from one station: the responses are those to the messages its segments complete. */
  lemma {:induction false} ResponsesAreAnswers(
    address: u16, st: Outstation.State, direction: Direction, source: u16, segments: seq<Segment>)
    requires AllWellFormed(segments)
    ensures Responses(address, st, DataFrames(direction, address, source, segments)) ==
      Answers(st.database, Received(st.reassembler, segments).1)
    decreases |segments|
  {
    hide Outstation.HandleFrame, Answered, Answers, Push, DataFrame, WellFormed;
    if segments == [] {
      NoAnswers(st.database);
    } else {
      var s, rest := segments[0], segments[1..];
      assert segments == [s] + rest;
      assert WellFormed(s) && AllWellFormed(rest);
      var frame, frames := DataFrame(direction, address, source, s), DataFrames(direction, address, source, rest);
      assert ([frame] + frames)[1..] == frames;
      var next := Outstation.HandleFrame(address, st, frame).0;
      FrameIsPush(address, st, direction, source, s);
      ResponsesAreAnswers(address, next, direction, source, rest);
      ReceivedConcat(st.reassembler, [s], rest);
      AnswersConcat(st.database, Received(st.reassembler, [s]).1, Received(next.reassembler, rest).1);
    }
  }

  /**
   The master's requests over a channel that drops frames without letting a splice through: the
   outstation answers exactly the requests that lost no frame.
   */
  lemma LossyRequests(
    cfg: Master.MasterConfig, m: Master.State, fragments: seq<App.ApplicationFragment>, o: Outstation.State, mask: seq<bool>)
    requires o.reassembler == IDLE && |mask| == TotalSegments(MasterRuns.Messages(fragments))
    ensures var messages, frames := MasterRuns.Messages(fragments), MasterRuns.SendAll(cfg, m, fragments).1;
      && |Sent(messages, m.transportSequence)| == |frames| == |mask|
      && (!HasSplice(Sent(messages, m.transportSequence), mask) ==>
            Responses(cfg.outstation, o, Kept(frames, mask)) == Answers(o.database, Survivors(messages, mask)))
  {
    hide Received, Kept, Sent, Survivors, HasSplice, MasterRuns.SendAll, MasterRuns.Messages, Responses, Answers,
         AllWellFormed, DataFrames, TotalSegments;
    var messages, direction := MasterRuns.Messages(fragments), Master.RequestDirection(cfg.linkStyle);
    var segments := Sent(messages, m.transportSequence);
    MasterRuns.SendsContinueNumbering(cfg, m, fragments);
    DeliveryIsExact(messages, m.transportSequence, mask);
    SentIsWellFormed(messages, m.transportSequence);
    KeptWellFormed(segments, mask);
    KeptDataFrames(direction, cfg.outstation, cfg.master, segments, mask);
    ResponsesAreAnswers(cfg.outstation, o, direction, cfg.master, Kept(segments, mask));
  }

  // The master's end.

  /** Everything the master's receive loop returns until the channel is empty. */
  function ReceiveAll(cfg: Master.MasterConfig, st: ReassemblerState, inbox: seq<LinkFrame>): seq<Master.Received>
    decreases |inbox|
  {
    var (next, rest, r) := Master.ReceiveApplication(cfg, st, inbox);
    if r == Err(ChannelEmpty) then [] else [r] + ReceiveAll(cfg, next, rest)
  }

  function DecodeAll(messages: seq<Bytes>): seq<Master.Received> {
    if messages == [] then [] else [Decoded(messages[0])] + DecodeAll(messages[1..])
  }

  lemma {:induction false} DecodeAllLength(messages: seq<Bytes>)
    ensures |DecodeAll(messages)| == |messages|
  {
    hide Decoded;
    if messages != [] {
      DecodeAllLength(messages[1..]);
    }
  }

  /** No expected number, no bytes held: what every reassembler keeps. */
  predicate Settled(st: ReassemblerState) { st.expected.None? ==> st == IDLE }

  /** One frame of user data: the receive loop goes on as after its push, or returns what that completes. */
  lemma FrameReceived(
    cfg: Master.MasterConfig, st: ReassemblerState, direction: Direction, source: u16, segment: Segment, rest: seq<LinkFrame>)
    requires WellFormed(segment) && Settled(st)
    ensures var (pushed, out) := Received(st, [segment]);
      var inbox := [DataFrame(direction, cfg.master, source, segment)] + rest;
      && Settled(pushed) && |out| <= 1
      && Master.ReceiveApplication(cfg, st, inbox) ==
           (if out == [] then Master.ReceiveApplication(cfg, pushed, rest) else (pushed, rest, Decoded(out[0])))
  {
    hide DecodeSegment, EncodeSegment, Received, App.DecodeFragment, WellFormed;
    DataFrameCarries(direction, cfg.master, source, segment);
    ReceivedOne(st, segment);
    var frame := DataFrame(direction, cfg.master, source, segment);
    assert ([frame] + rest)[0] == frame && ([frame] + rest)[1..] == rest;
  }

  /** The receive loop returns exactly what the segments of user data complete, decoded. */
  lemma {:induction false} ReceiveAllDecodes(
    cfg: Master.MasterConfig, st: ReassemblerState, direction: Direction, source: u16, segments: seq<Segment>)
    requires AllWellFormed(segments) && Settled(st)
    ensures ReceiveAll(cfg, st, DataFrames(direction, cfg.master, source, segments)) == DecodeAll(Received(st, segments).1)
    decreases |segments|
  {
    hide Push, DataFrame, WellFormed, Master.ReceiveApplication, Decoded, Settled;
    if segments == [] {
      NothingToReceive(cfg, st);
    } else {
      var s, rest := segments[0], segments[1..];
      assert segments == [s] + rest;
      assert WellFormed(s) && AllWellFormed(rest);
      var frames := DataFrames(direction, cfg.master, source, rest);
      var (pushed, out) := Received(st, [s]);
      FrameReceived(cfg, st, direction, source, s, frames);
      ReceiveAllDecodes(cfg, pushed, direction, source, rest);
      ReceivedConcat(st, [s], rest);
      var more := Received(pushed, rest).1;
      if out == [] {
        assert [] + more == more;
      } else {
        NeverEmpty(out[0]);
        assert (out + more)[0] == out[0] && (out + more)[1..] == more;
      }
    }
  }

  lemma NothingToReceive(cfg: Master.MasterConfig, st: ReassemblerState)
    ensures Master.ReceiveApplication(cfg, st, []) == (st, [], Err(ChannelEmpty))
  {
  }

  lemma NeverEmpty(m: Bytes)
    ensures Decoded(m) != Err(ChannelEmpty)
  {
    hide App.DecodeFragment;
  }

  /** Frames for other stations do not change what the receive loop returns. */
  lemma {:induction false} ForeignFramesNotReceived(cfg: Master.MasterConfig, st: ReassemblerState, inbox: seq<LinkFrame>)
    ensures ReceiveAll(cfg, st, Addressed(cfg.master, inbox)) == ReceiveAll(cfg, st, inbox)
    decreases |inbox|
  {
    hide Master.ReceiveApplication, Addressed;
    MasterRuns.ForeignFramesSkipped(cfg, st, inbox);
    var (next, rest, r) := Master.ReceiveApplication(cfg, st, inbox);
    if r != Err(ChannelEmpty) {
      ForeignFramesNotReceived(cfg, next, rest);
    }
  }

  predicate FromMaster(cfg: Master.MasterConfig, f: LinkFrame) {
    IsUserData(f) && f.source == cfg.master && f.control.direction == Master.RequestDirection(cfg.linkStyle)
  }

  function ReplyDirection(cfg: Master.MasterConfig): Direction {
    if cfg.linkStyle.Tool? then MasterToOutstation else OutstationToMaster
  }

  /** One frame from the master is answered by the data frames of its response, and nothing else. */
  lemma AnswerFrames(cfg: Master.MasterConfig, st: Outstation.State, f: LinkFrame)
    requires f.destination == cfg.outstation ==> FromMaster(cfg, f)
    ensures var (next, reply) := Outstation.HandleFrame(cfg.outstation, st, f);
      var messages := Answered(cfg.outstation, st, f);
      && next.transportSequence == NumberAfter(messages, st.transportSequence)
      && (if reply.Ok? then reply.value else []) ==
           DataFrames(ReplyDirection(cfg), cfg.master, cfg.outstation, Sent(messages, st.transportSequence))
  {
    hide Push, Outstation.Respond, DecodeSegment, NextSequence, Fragment, BuildFrames, DataFrame;
    if f.destination == cfg.outstation {
      var segment := DecodeSegment(f.payload);
      if segment.Ok? {
        var complete := Push(st.reassembler, segment.value).1;
        if complete.Ok? && complete.value.Some? {
          var encoded := Outstation.Respond(st.database, complete.value.value);
          if encoded.Ok? {
            SentOne(encoded.value, st.transportSequence);
            FragmentsAreWellFormed(encoded.value, st.transportSequence);
            BuildFramesSucceeds(ReplyDirection(cfg), cfg.master, cfg.outstation, Fragment(encoded.value, st.transportSequence));
          }
        }
      }
    }
  }

  /** Everything a run of the master's frames makes the outstation send is the data frames of its responses. */
  lemma {:induction false} SendsAreResponses(cfg: Master.MasterConfig, st: Outstation.State, frames: seq<LinkFrame>)
    requires forall f :: f in frames && f.destination == cfg.outstation ==> FromMaster(cfg, f)
    ensures Sends(Run(cfg.outstation, st, frames).1) ==
      DataFrames(ReplyDirection(cfg), cfg.master, cfg.outstation, Sent(Responses(cfg.outstation, st, frames), st.transportSequence))
    decreases |frames|
  {
    hide Outstation.HandleFrame, Answered, DataFrame, FromMaster;
    if frames != [] {
      var (next, reply) := Outstation.HandleFrame(cfg.outstation, st, frames[0]);
      AnswerFrames(cfg, st, frames[0]);
      SendsAreResponses(cfg, next, frames[1..]);
      var replies := Run(cfg.outstation, next, frames[1..]).1;
      assert ([reply] + replies)[1..] == replies;
      var first, rest := Answered(cfg.outstation, st, frames[0]), Responses(cfg.outstation, next, frames[1..]);
      SentConcat(first, rest, st.transportSequence);
      DataFramesConcat(ReplyDirection(cfg), cfg.master, cfg.outstation,
        Sent(first, st.transportSequence), Sent(rest, next.transportSequence));
    }
  }

  /**
   The outstation's responses to the master's frames, over a channel that drops frames: the
   master's receive loop returns exactly the responses that lost no frame, decoded and in order,
   if and only if the losses let no splice through.
   */
  lemma LossyResponses(cfg: Master.MasterConfig, o: Outstation.State, frames: seq<LinkFrame>, mask: seq<bool>)
    requires forall f :: f in frames && f.destination == cfg.outstation ==> FromMaster(cfg, f)
    requires |mask| == TotalSegments(Responses(cfg.outstation, o, frames))
    ensures var responses, sent := Responses(cfg.outstation, o, frames), Sends(Run(cfg.outstation, o, frames).1);
      && |Sent(responses, o.transportSequence)| == |sent| == |mask|
      && (ReceiveAll(cfg, IDLE, Kept(sent, mask)) == DecodeAll(Survivors(responses, mask)) <==>
            !HasSplice(Sent(responses, o.transportSequence), mask))
  {
    hide Received, Kept, Sent, Survivors, HasSplice, Run, Responses, ReceiveAll, DecodeAll, AllWellFormed, DataFrames,
         TotalSegments, FromMaster;
    var responses, s := Responses(cfg.outstation, o, frames), o.transportSequence;
    SendsAreResponses(cfg, o, frames);
    Deliveries(responses, s, mask);
    SentIsWellFormed(responses, s);
    KeptWellFormed(Sent(responses, s), mask);
    KeptDataFrames(ReplyDirection(cfg), cfg.master, cfg.outstation, Sent(responses, s), mask);
    ReceiveAllDecodes(cfg, IDLE, ReplyDirection(cfg), cfg.outstation, Kept(Sent(responses, s), mask));
    DecodeAllLength(Received(IDLE, Kept(Sent(responses, s), mask)).1);
    DecodeAllLength(Survivors(responses, mask));
  }

  // Both directions.

  lemma {:induction false} FromMasterFrames(cfg: Master.MasterConfig, segments: seq<Segment>)
    ensures forall f :: f in DataFrames(Master.RequestDirection(cfg.linkStyle), cfg.outstation, cfg.master, segments) ==> FromMaster(cfg, f)
  {
    if segments != [] {
      FromMasterFrames(cfg, segments[1..]);
    }
  }

  /** The frames of the master that reach the outstation when `up` says which are kept. */
  function Arriving(cfg: Master.MasterConfig, m: Master.State, fragments: seq<App.ApplicationFragment>, up: seq<bool>): seq<LinkFrame> {
    var frames := MasterRuns.SendAll(cfg, m, fragments).1;
    if |up| == |frames| then Kept(frames, up) else []
  }

  /**
   A whole conversation with losses both ways and no splice either way: the master gets exactly
   the decoded responses that lost no frame, to exactly the requests that lost none.
   */
  lemma LossyConversation(
    cfg: Master.MasterConfig, m: Master.State, fragments: seq<App.ApplicationFragment>, o: Outstation.State, up: seq<bool>, down: seq<bool>)
    requires o.reassembler == IDLE
    ensures var messages := MasterRuns.Messages(fragments);
      Unspliced(messages, m.transportSequence, up) ==>
        var responses := Answers(o.database, Survivors(messages, up));
        Unspliced(responses, o.transportSequence, down) ==>
          var sent := Sends(Run(cfg.outstation, o, Arriving(cfg, m, fragments, up)).1);
          && |sent| == |down|
          && ReceiveAll(cfg, IDLE, Kept(sent, down)) == DecodeAll(Survivors(responses, down))
  {
    hide Kept, Sent, Survivors, HasSplice, MasterRuns.SendAll, MasterRuns.Messages, Responses, Answers, Run, Sends,
         ReceiveAll, DecodeAll, DataFrames, TotalSegments, FromMaster;
    var messages := MasterRuns.Messages(fragments);
    if Unspliced(messages, m.transportSequence, up) && Unspliced(Answers(o.database, Survivors(messages, up)), o.transportSequence, down) {
      var segments := Sent(messages, m.transportSequence);
      LossyRequests(cfg, m, fragments, o, up);
      MasterRuns.SendsContinueNumbering(cfg, m, fragments);
      KeptDataFrames(Master.RequestDirection(cfg.linkStyle), cfg.outstation, cfg.master, segments, up);
      FromMasterFrames(cfg, Kept(segments, up));
      LossyResponses(cfg, o, Arriving(cfg, m, fragments, up), down);
    }
  }

  // One poll.

  /** The frames of an integrity poll. */
  function PollFrames(cfg: Master.MasterConfig, m: Master.State): seq<LinkFrame> {
    var frames := Master.SendIntegrityPoll(cfg, m.(reassembler := IDLE)).1;
    if frames.Ok? then frames.value else []
  }

  function PollBytes(cfg: Master.MasterConfig, sequence: u8): Bytes {
    var encoded := App.EncodeFragment(Master.PollRequest(cfg.linkStyle, sequence));
    if encoded.Ok? then encoded.value else []
  }

  lemma PollIsOneFrame(cfg: Master.MasterConfig, m: Master.State)
    ensures SegmentCount(PollBytes(cfg, m.appSequence)) == 1
    ensures PollFrames(cfg, m) ==
      DataFrames(Master.RequestDirection(cfg.linkStyle), cfg.outstation, cfg.master, Fragment(PollBytes(cfg, m.appSequence), m.transportSequence))
    ensures |PollFrames(cfg, m)| == 1
  {
    hide Fragment, BuildFrames, DataFrames, App.EncodeFragment, Master.PollRequest, NextSequence, SegmentCount;
    var bytes, direction := PollBytes(cfg, m.appSequence), Master.RequestDirection(cfg.linkStyle);
    MasterRuns.PollIsOneSegment(cfg.linkStyle, m.appSequence);
    FragmentsAreWellFormed(bytes, m.transportSequence);
    BuildFramesSucceeds(direction, cfg.outstation, cfg.master, Fragment(bytes, m.transportSequence));
    KeptDataFrames(direction, cfg.outstation, cfg.master, Fragment(bytes, m.transportSequence), [true]);
  }

  /**
   The one frame of a poll: against the usual direction in the tool style, to the outstation,
   with the transport number and the poll's own number modulo 16.
   */
  lemma PollFrameLayout(cfg: Master.MasterConfig, m: Master.State)
    requires m.transportSequence < 64
    ensures PollFrames(cfg, m) ==
      [LinkFrame(
         ControlField(if cfg.linkStyle.Tool? then OutstationToMaster else MasterToOutstation, false, false, Primary(UnconfirmedUserData)),
         cfg.outstation, cfg.master,
         [0xc0 + m.transportSequence, 0xc0 + m.appSequence % 16, 0x01, 0x3c, 0x01, 0x06] +
         if cfg.linkStyle.Tool? then MasterRuns.TOOL_SCANS else [])]
  {
    hide PollFrames, Fragment, App.EncodeFragment, Master.PollRequest, SegmentCount;
    var bytes := PollBytes(cfg, m.appSequence);
    PollIsOneFrame(cfg, m);
    MasterRuns.PollRequestBytes(cfg.linkStyle, m.appSequence);
    OneSegment(bytes, m.transportSequence);
    var scans: Bytes := if cfg.linkStyle.Tool? then MasterRuns.TOOL_SCANS else [];
    var head: Bytes := [0xc0 + m.appSequence % 16, 0x01, 0x3c, 0x01, 0x06];
    assert [0xc0 + m.transportSequence] + (head + scans) ==
      [0xc0 + m.transportSequence, 0xc0 + m.appSequence % 16, 0x01, 0x3c, 0x01, 0x06] + scans;
    OneFrame(Master.RequestDirection(cfg.linkStyle), cfg.outstation, cfg.master, Fragment(bytes, m.transportSequence));
  }

  lemma OneFrame(direction: Direction, destination: u16, source: u16, segments: seq<Segment>)
    requires |segments| == 1
    ensures DataFrames(direction, destination, source, segments) ==
      [LinkFrame(ControlField(direction, false, false, Primary(UnconfirmedUserData)), destination, source, EncodeSegment(segments[0]))]
  {
    assert segments[1..] == [];
  }

  lemma OneSegment(m: Bytes, s: u8)
    requires SegmentCount(m) == 1 && s < 64
    ensures var f := Fragment(m, s);
      |f| == 1 && EncodeSegment(f[0]) == [0xc0 + s] + m
  {
    hide Fragment;
    FragmentAt(m, s, 0);
    SegmentsAreFull(m, s, 0);
    assert m[0..] == m;
  }

  /** The outstation's response to a poll that arrives, whatever it held before. */
  lemma PollResponses(cfg: Master.MasterConfig, m: Master.State, o: Outstation.State)
    requires AppRoundTrip.AllEncodable(Outstation.IntegrityObjects(o.database))
    ensures var response := App.EncodeFragment(ExpectedResponse(o.database, m.appSequence));
      response.Ok? && Responses(cfg.outstation, o, PollFrames(cfg, m)) == [response.value]
    ensures forall f :: f in PollFrames(cfg, m) ==> FromMaster(cfg, f)
  {
    hide Fragment, DataFrames, App.EncodeFragment, Master.PollRequest, SegmentCount, ExpectedResponse, Outstation.IntegrityObjects,
         Responses, Received, Outstation.Respond, AllWellFormed, PollBytes, PollFrames, AppRoundTrip.AllEncodable, FromMaster, Answers;
    var bytes, direction := PollBytes(cfg, m.appSequence), Master.RequestDirection(cfg.linkStyle);
    var segments := Fragment(bytes, m.transportSequence);
    PollIsOneFrame(cfg, m);
    ExpectedIsNormal(o.database, m.appSequence);
    AppRoundTrip.FragmentEncodes(ExpectedResponse(o.database, m.appSequence));
    FromMasterFrames(cfg, segments);
    FragmentsAreWellFormed(bytes, m.transportSequence);
    ResponsesAreAnswers(cfg.outstation, o, direction, cfg.master, segments);
    assert segments[0..] == segments;
    WholeIsReceived(o.reassembler, bytes, m.transportSequence, 0);
    AnswersOne(o.database, bytes);
    PollBytesAnswered(cfg, m.appSequence, o.database);
  }

  lemma NoResponses(address: u16, o: Outstation.State)
    ensures Responses(address, o, []) == []
  {
  }

  lemma PollBytesAnswered(cfg: Master.MasterConfig, sequence: u8, db: Outstation.Database)
    ensures Outstation.Respond(db, PollBytes(cfg, sequence)) == App.EncodeFragment(ExpectedResponse(db, sequence))
  {
    hide App.EncodeFragment, Outstation.Respond, Master.PollRequest, ExpectedResponse;
    PollRequestSurvives(cfg.linkStyle, sequence);
    Answering(db, cfg.linkStyle, sequence);
  }

  /** The master waits for the first response the receive loop returns. */
  lemma FirstResponse(cfg: Master.MasterConfig, st: ReassemblerState, inbox: seq<LinkFrame>)
    ensures var all := ReceiveAll(cfg, st, inbox);
      var received := Master.AwaitResponse(cfg, st, inbox).2;
      && (all == [] ==> received == Err(ChannelEmpty))
      && (all != [] && (all[0].Ok? ==> App.IncludesIin(all[0].value.func)) ==> received == all[0])
  {
    hide Master.ReceiveApplication, App.IncludesIin;
  }

  /**
   An integrity poll over channels that drop frames, from any two session states: if the request
   and the whole response arrived, the master ends with the response, decoded; otherwise it finds
   the channel empty. With a database that fits the first is the whole database under the poll's number.
   */
  lemma PollUnderLoss(cfg: Master.MasterConfig, m: Master.State, o: Outstation.State, up: bool, down: seq<bool>)
    requires AppRoundTrip.AllEncodable(Outstation.IntegrityObjects(o.database))
    ensures |PollFrames(cfg, m)| == 1 && App.EncodeFragment(ExpectedResponse(o.database, m.appSequence)).Ok?
    ensures var arriving := if up then PollFrames(cfg, m) else [];
      var sent := Sends(Run(cfg.outstation, o, arriving).1);
      Unspliced(Responses(cfg.outstation, o, arriving), o.transportSequence, down) ==>
        && |sent| == |down|
        && var received := Master.AwaitResponse(cfg, IDLE, Kept(sent, down)).2;
        && received ==
           (if up && All(down) then Decoded(App.EncodeFragment(ExpectedResponse(o.database, m.appSequence)).value) else Err(ChannelEmpty))
        && (DatabaseFits(o.database) && up && All(down) ==> received == Ok(ExpectedResponse(o.database, m.appSequence)))
  {
    hide Kept, Sent, Survivors, HasSplice, Responses, Run, Sends, ReceiveAll, Decoded, All, SegmentCount, App.EncodeFragment, Fragment,
         ExpectedResponse, DatabaseFits, Outstation.IntegrityObjects, AppRoundTrip.AllEncodable, FromMaster, PollFrames, Master.AwaitResponse;
    PollIsOneFrame(cfg, m);
    PollResponses(cfg, m, o);
    NoResponses(cfg.outstation, o);
    var arriving := if up then PollFrames(cfg, m) else [];
    var response := App.EncodeFragment(ExpectedResponse(o.database, m.appSequence)).value;
    if Unspliced(Responses(cfg.outstation, o, arriving), o.transportSequence, down) {
      LossyResponses(cfg, o, arriving, down);
      FirstResponse(cfg, IDLE, Kept(Sends(Run(cfg.outstation, o, arriving).1), down));
      if up {
        SentOne(response, o.transportSequence);
        SurvivorsOne(response, down);
      } else {
        NothingSurvives(down);
      }
      ResponseSurvives(o.database, m.appSequence, response);
      DecodeOne(response);
    }
  }

  lemma NothingSurvives(mask: seq<bool>)
    ensures TotalSegments([]) == 0 && (mask == [] ==> Survivors([], mask) == []) && DecodeAll([]) == []
  {
  }

  lemma DecodeOne(m: Bytes)
    ensures DecodeAll([m]) == [Decoded(m)] && DecodeAll([]) == []
  {
    hide Decoded;
    assert [m][1..] == [];
  }
}
