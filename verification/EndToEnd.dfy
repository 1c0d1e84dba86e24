/** Master and outstation joined through all layers, down to the bytes on the wire. */
module EndToEnd {
  import opened Primitives
  import opened Link
  import opened Transport
  import opened Channel
  import opened AppRoundTrip
  import App
  import ExactDelivery
  import Framing
  import LossyChannel
  import Master
  import Outstation
  import OutstationRuns

  // Messages in data frames.

  lemma DataFrameCarries(direction: Direction, destination: u16, source: u16, segment: Segment)
    requires WellFormed(segment)
    ensures DecodeSegment(DataFrame(direction, destination, source, segment).payload) == Ok(segment)
    ensures |DataFrame(direction, destination, source, segment).payload| <= MAX_PAYLOAD
  {
    SegmentRoundTrip(segment);
  }

  lemma {:induction false} DataFramesSendable(direction: Direction, destination: u16, source: u16, segments: seq<Segment>)
    requires AllWellFormed(segments)
    ensures Framing.Sendable(DataFrames(direction, destination, source, segments))
  {
    hide WellFormed;
    if segments != [] {
      DataFrameCarries(direction, destination, source, segments[0]);
      DataFramesSendable(direction, destination, source, segments[1..]);
    }
  }

  /** What a request message, complete at the outstation, makes of the session. */
  function AfterRequest(address: u16, st: Outstation.State, master: u16, request: Bytes, toolStyle: bool)
    : (Outstation.State, Outstation.Reply)
  {
    var idle := st.(reassembler := IDLE);
    match Outstation.Respond(st.database, request)
    case Err(e) => (idle, Err(e))
    case Ok(encoded) => Outstation.SendResponse(address, idle, master, encoded, toolStyle)
  }

  lemma AfterRequestForgets(address: u16, st: Outstation.State, r: ReassemblerState, master: u16, request: Bytes, toolStyle: bool)
    ensures AfterRequest(address, st.(reassembler := r), master, request, toolStyle) ==
      AfterRequest(address, st, master, request, toolStyle)
  {
  }

  lemma RequestStep(address: u16, st: Outstation.State, direction: Direction, master: u16, m: Bytes, s: u8, i: nat)
    requires i < SegmentCount(m) && (i > 0 ==> st.reassembler == Partial(m, s, i))
    ensures Outstation.HandleFrame(address, st, DataFrame(direction, address, master, Fragment(m, s)[i])) ==
      if i + 1 == SegmentCount(m) then AfterRequest(address, st, master, m, direction.OutstationToMaster?)
      else (st.(reassembler := Partial(m, s, i + 1)), Ok([]))
  {
    hide Fragment, Push, DecodeSegment, EncodeSegment, Outstation.Respond, Outstation.SendResponse, Partial;
    FragmentAt(m, s, i);
    DataFrameCarries(direction, address, master, Fragment(m, s)[i]);
    PushNext(st.reassembler, m, s, i);
  }

  lemma {:induction false} RequestTail(address: u16, st: Outstation.State, direction: Direction, master: u16, m: Bytes, s: u8, i: nat)
    requires i < SegmentCount(m) && (i > 0 ==> st.reassembler == Partial(m, s, i))
    ensures var (last, replies) := OutstationRuns.Run(address, st, DataFrames(direction, address, master, Fragment(m, s)[i..]));
      var (after, reply) := AfterRequest(address, st, master, m, direction.OutstationToMaster?);
      last == after && OutstationRuns.Sends(replies) == if reply.Ok? then reply.value else []
    decreases SegmentCount(m) - i
  {
    hide Fragment, SegmentCount, Outstation.HandleFrame, AfterRequest, Partial, DataFrame;
    var segments := Fragment(m, s);
    assert segments[i..][0] == segments[i] && segments[i..][1..] == segments[i + 1..];
    var frame := DataFrame(direction, address, master, segments[i]);
    var frames := DataFrames(direction, address, master, segments[i + 1..]);
    assert ([frame] + frames)[1..] == frames;
    var (next, reply) := Outstation.HandleFrame(address, st, frame);
    RequestStep(address, st, direction, master, m, s, i);
    var replies := OutstationRuns.Run(address, next, frames).1;
    assert ([reply] + replies)[1..] == replies;
    if i + 1 < SegmentCount(m) {
      RequestTail(address, next, direction, master, m, s, i + 1);
      AfterRequestForgets(address, st, next.reassembler, master, m, direction.OutstationToMaster?);
      assert [] + OutstationRuns.Sends(replies) == OutstationRuns.Sends(replies);
    } else {
      assert segments[i + 1..] == [];
      assert replies == [];
    }
  }

  /** All frames of a request: the session ends as after the request, whatever it held before. */
  lemma RequestArrives(address: u16, st: Outstation.State, direction: Direction, master: u16, m: Bytes, s: u8)
    ensures var (last, replies) := OutstationRuns.Run(address, st, DataFrames(direction, address, master, Fragment(m, s)));
      var (after, reply) := AfterRequest(address, st, master, m, direction.OutstationToMaster?);
      last == after && OutstationRuns.Sends(replies) == if reply.Ok? then reply.value else []
  {
    hide Fragment, OutstationRuns.Run, AfterRequest;
    RequestTail(address, st, direction, master, m, s, 0);
    assert Fragment(m, s)[0..] == Fragment(m, s);
  }

  /** What the master returns once the bytes of a fragment are complete. */
  function Decoded(m: Bytes): Master.Received {
    match App.DecodeFragment(m)
    case Ok(f) => Ok(f)
    case Err(e) => Err(Protocol(e))
  }

  lemma {:induction false} ResponseTail(
    cfg: Master.MasterConfig, st: ReassemblerState, direction: Direction, source: u16, m: Bytes, s: u8, i: nat, tail: seq<LinkFrame>)
    requires i < SegmentCount(m) && (i > 0 ==> st == Partial(m, s, i))
    ensures Master.ReceiveApplication(cfg, st, DataFrames(direction, cfg.master, source, Fragment(m, s)[i..]) + tail) ==
      (IDLE, tail, Decoded(m))
    decreases SegmentCount(m) - i
  {
    hide Fragment, SegmentCount, Push, DecodeSegment, EncodeSegment, Partial, App.DecodeFragment;
    var segments := Fragment(m, s);
    assert segments[i..][0] == segments[i] && segments[i..][1..] == segments[i + 1..];
    var frame := DataFrame(direction, cfg.master, source, segments[i]);
    var inbox := DataFrames(direction, cfg.master, source, segments[i..]) + tail;
    var rest := DataFrames(direction, cfg.master, source, segments[i + 1..]) + tail;
    assert inbox == [frame] + rest;
    assert inbox[0] == frame && inbox[1..] == rest;
    FragmentAt(m, s, i);
    DataFrameCarries(direction, cfg.master, source, segments[i]);
    PushNext(st, m, s, i);
    if i + 1 < SegmentCount(m) {
      ResponseTail(cfg, Partial(m, s, i + 1), direction, source, m, s, i + 1, tail);
    } else {
      assert segments[i + 1..] == [];
      assert rest == tail;
    }
  }

  /** All frames of a response: the master decodes exactly its bytes, whatever it held before. */
  lemma ResponseArrives(
    cfg: Master.MasterConfig, st: ReassemblerState, direction: Direction, source: u16, m: Bytes, s: u8, tail: seq<LinkFrame>)
    ensures Master.ReceiveApplication(cfg, st, DataFrames(direction, cfg.master, source, Fragment(m, s)) + tail) ==
      (IDLE, tail, Decoded(m))
  {
    hide Fragment, Master.ReceiveApplication, Decoded;
    ResponseTail(cfg, st, direction, source, m, s, 0, tail);
    assert Fragment(m, s)[0..] == Fragment(m, s);
  }

  /** A waiting master skips every fragment that is no response, function 129 or 130, and returns the first that is, or an error. */
  lemma AwaitSkipsRequests(
    cfg: Master.MasterConfig, st: ReassemblerState, direction: Direction, source: u16, m: Bytes, s: u8, tail: seq<LinkFrame>)
    ensures var inbox := DataFrames(direction, cfg.master, source, Fragment(m, s)) + tail;
      var f := App.DecodeFragment(m);
      Master.AwaitResponse(cfg, st, inbox) ==
        if f.Err? then (IDLE, tail, Err(Protocol(f.error)))
        else if App.EncodeFunction(f.value.func) in {129, 130} then (IDLE, tail, Ok(f.value))
        else Master.AwaitResponse(cfg, IDLE, tail)
  {
    hide Fragment, DataFrames, Master.ReceiveApplication, App.DecodeFragment;
    ResponseArrives(cfg, st, direction, source, m, s, tail);
  }

  // The poll.

  lemma PollRequestSurvives(style: Master.LinkStyle, sequence: u8)
    ensures var f := Master.PollRequest(style, sequence);
      && App.EncodeFragment(f).Ok? && App.DecodeFragment(App.EncodeFragment(f).value) == Ok(f)
  {
    hide App.DecodeFragment, App.EncodeHeader, App.FragmentHeader;
    var f := Master.PollRequest(style, sequence);
    var os := f.objects;
    ScansEncode(os);
    FragmentRoundTrip(f);
    assert NormalObjects(os) == os by { ScansAreNormal(os); }
  }

  predicate IsScan(o: App.AppObject) { o.IntegrityPoll? || (o.ClassScan? && o.scan != App.Class0) }

  lemma {:induction false} ScansEncode(os: seq<App.AppObject>)
    requires forall o :: o in os ==> IsScan(o)
    ensures App.EncodeObjects(os).Ok? && |App.EncodeObjects(os).value| == 3 * |os| && NoneWraps(os)
  {
    if os != [] {
      assert IsScan(os[0]);
      ScansEncode(os[1..]);
    }
  }

  lemma {:induction false} ScansAreNormal(os: seq<App.AppObject>)
    requires forall o :: o in os ==> NormalObject(o) == o
    ensures NormalObjects(os) == os
  {
    if os != [] {
      ScansAreNormal(os[1..]);
      assert os == [os[0]] + os[1..];
    }
  }

  lemma PollIsAnswered(db: Outstation.Database, style: Master.LinkStyle, sequence: u8)
    ensures Outstation.HandleApplication(db, Master.PollRequest(style, sequence)) == Ok(ExpectedResponse(db, sequence))
  {
    hide Outstation.IntegrityObjects;
    var request := Master.PollRequest(style, sequence);
    assert request.objects[0] == App.IntegrityPoll;
    assert App.IntegrityPoll in request.objects && Outstation.AsksForStatic(App.IntegrityPoll);
  }

  /** The response an integrity poll should bring: the whole database under the poll's sequence. */
  function ExpectedResponse(db: Outstation.Database, sequence: u8): App.ApplicationFragment {
    App.ApplicationFragment(App.AppControl(true, true, false, false, sequence % 16), App.Response, 0, Outstation.IntegrityObjects(db))
  }

  /** No point list of the database is a run past index 65535. */
  predicate DatabaseFits(db: Outstation.Database) { NoneWraps(Outstation.IntegrityObjects(db)) }

  lemma ResponseSurvives(db: Outstation.Database, sequence: u8, m: Bytes)
    requires App.EncodeFragment(ExpectedResponse(db, sequence)) == Ok(m)
    ensures Decoded(m) == Ok(ExpectedResponse(db, sequence)) <==> DatabaseFits(db)
    ensures Decoded(m).Ok? ==> Decoded(m).value.func == App.Response
  {
    hide App.DecodeFragment, App.EncodeFragment, ExpectedResponse, NoneWraps, Normal;
    FragmentRoundTrip(ExpectedResponse(db, sequence));
    ExpectedIsNormal(db, sequence);
    ExpectedFunction(db, sequence, m);
  }

  lemma ExpectedIsNormal(db: Outstation.Database, sequence: u8)
    ensures Normal(ExpectedResponse(db, sequence)) == ExpectedResponse(db, sequence)
    ensures ExpectedResponse(db, sequence).objects == Outstation.IntegrityObjects(db)
  {
    hide Outstation.IntegrityObjects, NormalObject;
    forall o | o in Outstation.IntegrityObjects(db)
      ensures NormalObject(o) == o
    {
      NoScanInDatabase(db, o);
    }
    ScansAreNormal(Outstation.IntegrityObjects(db));
  }

  lemma NoScanInDatabase(db: Outstation.Database, o: App.AppObject)
    requires o in Outstation.IntegrityObjects(db)
    ensures NormalObject(o) == o
  {
  }

  lemma ExpectedFunction(db: Outstation.Database, sequence: u8, m: Bytes)
    requires App.EncodeFragment(ExpectedResponse(db, sequence)) == Ok(m)
    ensures Decoded(m).Ok? ==> Decoded(m).value.func == App.Response
  {
    hide App.DecodeFragment, App.FragmentHeader, App.EncodeObjects, NormalObjects, Outstation.IntegrityObjects;
    var f := ExpectedResponse(db, sequence);
    FragmentBody(f, App.EncodeObjects(f.objects).value);
  }

  /** Frames written as bytes and read back from the byte stream. */
  function Transmit(frames: seq<LinkFrame>): seq<LinkFrame> { Framing.ReadFrames(Framing.Wire(frames)).0 }

  lemma TransmitIsExact(direction: Direction, destination: u16, source: u16, m: Bytes, s: u8)
    ensures var frames := DataFrames(direction, destination, source, Fragment(m, s));
      Transmit(frames) == frames
  {
    hide Fragment, DataFrames, Framing.ReadFrames, Framing.Wire, Framing.Sendable;
    var frames := DataFrames(direction, destination, source, Fragment(m, s));
    FragmentsAreWellFormed(m, s);
    DataFramesSendable(direction, destination, source, Fragment(m, s));
    Framing.ReadFramesOfWire(frames, []);
    assert Framing.Wire(frames) + [] == Framing.Wire(frames);
  }

  /** Everything a session ever sends survives the byte stream. */
  lemma RunSurvivesTheWire(address: u16, st: Outstation.State, frames: seq<LinkFrame>)
    ensures var sent := OutstationRuns.Sends(OutstationRuns.Run(address, st, frames).1);
      Transmit(sent) == sent
  {
    hide Framing.ReadFrames, Framing.Wire, OutstationRuns.Run, OutstationRuns.Sends;
    var sent := OutstationRuns.Sends(OutstationRuns.Run(address, st, frames).1);
    OutstationRuns.SendsGoBack(address, st, frames);
    Framing.ReadFramesOfWire(sent, []);
    assert Framing.Wire(sent) + [] == Framing.Wire(sent);
  }

  /**
   An integrity poll through every layer: request frames, bytes, frames, reassembly, response,
   and back. Whatever both sessions held before, the master ends with the outstation's whole
   database under its own sequence number exactly when no list runs past index 65535.
   Every list has at most 255 points or is a run; no other database can be encoded.
   */
  lemma PollDeliversDatabase(cfg: Master.MasterConfig, m: Master.State, o: Outstation.State, tail: seq<LinkFrame>)
    requires AllEncodable(Outstation.IntegrityObjects(o.database))
    ensures Master.SendIntegrityPoll(cfg, m.(reassembler := IDLE)).1.Ok?
    ensures var request := Transmit(Master.SendIntegrityPoll(cfg, m.(reassembler := IDLE)).1.value);
      var response := Transmit(OutstationRuns.Sends(OutstationRuns.Run(cfg.outstation, o, request).1));
      var (_, rest, received) := Master.AwaitResponse(cfg, IDLE, response + tail);
      (received == Ok(ExpectedResponse(o.database, m.appSequence)) <==> DatabaseFits(o.database)) &&
      (DatabaseFits(o.database) ==> rest == tail)
  {
    hide Fragment, BuildFrames, DataFrames, Transmit, App.EncodeFragment, App.DecodeFragment, Master.PollRequest,
         ExpectedResponse, DatabaseFits, NextSequence, OutstationRuns.Run, Master.ReceiveApplication, AllEncodable;
    ExpectedIsNormal(o.database, m.appSequence);
    FragmentEncodes(ExpectedResponse(o.database, m.appSequence));
    var request := Master.PollRequest(cfg.linkStyle, m.appSequence);
    PollRequestSurvives(cfg.linkStyle, m.appSequence);
    var bytes, response := App.EncodeFragment(request).value, App.EncodeFragment(ExpectedResponse(o.database, m.appSequence)).value;
    var direction := Master.RequestDirection(cfg.linkStyle);
    FragmentsAreWellFormed(bytes, m.transportSequence);
    BuildFramesSucceeds(direction, cfg.outstation, cfg.master, Fragment(bytes, m.transportSequence));
    TransmitIsExact(direction, cfg.outstation, cfg.master, bytes, m.transportSequence);
    RequestArrives(cfg.outstation, o, direction, cfg.master, bytes, m.transportSequence);
    Answering(o.database, cfg.linkStyle, m.appSequence);
    var back := if direction.OutstationToMaster? then MasterToOutstation else OutstationToMaster;
    FragmentsAreWellFormed(response, o.transportSequence);
    BuildFramesSucceeds(back, cfg.master, cfg.outstation, Fragment(response, o.transportSequence));
    TransmitIsExact(back, cfg.master, cfg.outstation, response, o.transportSequence);
    ResponseArrives(cfg, IDLE, back, cfg.outstation, response, o.transportSequence, tail);
    ResponseSurvives(o.database, m.appSequence, response);
  }

  /** A database with a long list that is no run cannot be encoded: the poll brings no frame at all. */
  lemma PollOfUnencodableDatabase(cfg: Master.MasterConfig, m: Master.State, o: Outstation.State)
    requires !AllEncodable(Outstation.IntegrityObjects(o.database))
    ensures Master.SendIntegrityPoll(cfg, m).1.Ok?
    ensures OutstationRuns.Sends(OutstationRuns.Run(cfg.outstation, o, Master.SendIntegrityPoll(cfg, m).1.value).1) == []
  {
    hide Fragment, BuildFrames, DataFrames, App.EncodeFragment, App.DecodeFragment, Master.PollRequest,
         ExpectedResponse, NextSequence, OutstationRuns.Run, AllEncodable, Outstation.IntegrityObjects;
    var request := Master.PollRequest(cfg.linkStyle, m.appSequence);
    PollRequestSurvives(cfg.linkStyle, m.appSequence);
    var bytes := App.EncodeFragment(request).value;
    var direction := Master.RequestDirection(cfg.linkStyle);
    FragmentsAreWellFormed(bytes, m.transportSequence);
    BuildFramesSucceeds(direction, cfg.outstation, cfg.master, Fragment(bytes, m.transportSequence));
    RequestArrives(cfg.outstation, o, direction, cfg.master, bytes, m.transportSequence);
    Answering(o.database, cfg.linkStyle, m.appSequence);
    ExpectedIsNormal(o.database, m.appSequence);
    FragmentEncodes(ExpectedResponse(o.database, m.appSequence));
  }

  lemma Answering(db: Outstation.Database, style: Master.LinkStyle, sequence: u8)
    requires App.EncodeFragment(Master.PollRequest(style, sequence)).Ok?
    ensures Outstation.Respond(db, App.EncodeFragment(Master.PollRequest(style, sequence)).value) ==
      App.EncodeFragment(ExpectedResponse(db, sequence))
  {
    hide App.EncodeFragment, App.DecodeFragment, Master.PollRequest, Outstation.HandleApplication, Outstation.MakeResponse;
    PollRequestSurvives(style, sequence);
    PollIsAnswered(db, style, sequence);
  }

  // Responses over a lossy channel.

  function DecodePayloads(payloads: seq<Bytes>): seq<Segment> {
    if payloads == [] then []
    else
      var first := DecodeSegment(payloads[0]);
      (if first.Ok? then [first.value] else []) + DecodePayloads(payloads[1..])
  }

  lemma {:induction false} DecodeKept(segments: seq<Segment>, mask: seq<bool>)
    requires |segments| == |mask| && AllWellFormed(segments)
    ensures |OutstationRuns.EncodeSegments(segments)| == |segments|
    ensures DecodePayloads(LossyChannel.Kept(OutstationRuns.EncodeSegments(segments), mask)) == LossyChannel.Kept(segments, mask)
  {
    hide DecodeSegment, EncodeSegment, WellFormed;
    if segments != [] {
      var b, rest := EncodeSegment(segments[0]), OutstationRuns.EncodeSegments(segments[1..]);
      assert WellFormed(segments[0]) && AllWellFormed(segments[1..]);
      SegmentRoundTrip(segments[0]);
      DecodeKept(segments[1..], mask[1..]);
      assert ([b] + rest)[1..] == rest;
      var kept := LossyChannel.Kept(rest, mask[1..]);
      assert ([b] + kept)[1..] == kept && [] + kept == kept;
    }
  }

  lemma {:induction false} SentIsWellFormed(messages: seq<Bytes>, s: u8)
    ensures AllWellFormed(LossyChannel.Sent(messages, s))
  {
    hide Fragment, WellFormed, NextSequence, SegmentCount;
    if messages != [] {
      FragmentsAreWellFormed(messages[0], s);
      SentIsWellFormed(messages[1..], NextSequence(s, SegmentCount(messages[0])));
    }
  }

  /** Encoded messages of one numbering over a channel that drops some: exact unless it lets a splice through. */
  lemma LossyMessages(messages: seq<Bytes>, s: u8, mask: seq<bool>)
    requires |mask| == LossyChannel.TotalSegments(messages)
    ensures |LossyChannel.Sent(messages, s)| == |mask|
    ensures var payloads := OutstationRuns.EncodeSegments(LossyChannel.Sent(messages, s));
      && |payloads| == |mask|
      && (LossyChannel.Received(IDLE, DecodePayloads(LossyChannel.Kept(payloads, mask))).1 == LossyChannel.Survivors(messages, mask)
          <==> !ExactDelivery.HasSplice(LossyChannel.Sent(messages, s), mask))
  {
    hide LossyChannel.Received, LossyChannel.Kept, LossyChannel.Sent, LossyChannel.Survivors,
         ExactDelivery.HasSplice, DecodePayloads, OutstationRuns.EncodeSegments, AllWellFormed;
    ExactDelivery.DeliveryIsExact(messages, s, mask);
    SentIsWellFormed(messages, s);
    DecodeKept(LossyChannel.Sent(messages, s), mask);
  }

  /**
   Over any run without a link reset, if the channel loses some of the data frames of the
   outstation, a fresh reassembler at the far end gets exactly the responses that lost no frame,
   unaltered and in order, if and only if the losses let no splice through.
   */
  lemma LossyResponsePayloads(address: u16, st: Outstation.State, frames: seq<LinkFrame>, mask: seq<bool>)
    requires forall f :: f in frames ==> !OutstationRuns.IsReset(address, f)
    requires |mask| == LossyChannel.TotalSegments(OutstationRuns.Responses(address, st, frames))
    ensures var payloads := OutstationRuns.UserPayloads(OutstationRuns.Sends(OutstationRuns.Run(address, st, frames).1));
      var messages := OutstationRuns.Responses(address, st, frames);
      && |LossyChannel.Sent(messages, st.transportSequence)| == |payloads| == |mask|
      && (LossyChannel.Received(IDLE, DecodePayloads(LossyChannel.Kept(payloads, mask))).1 == LossyChannel.Survivors(messages, mask)
          <==> !ExactDelivery.HasSplice(LossyChannel.Sent(messages, st.transportSequence), mask))
  {
    hide LossyChannel.Received, LossyChannel.Kept, LossyChannel.Sent, LossyChannel.Survivors, ExactDelivery.HasSplice,
         OutstationRuns.Run, OutstationRuns.Responses, DecodePayloads, OutstationRuns.EncodeSegments, AllWellFormed;
    OutstationRuns.NumberingContinues(address, st, frames);
    LossyMessages(OutstationRuns.Responses(address, st, frames), st.transportSequence, mask);
  }
}
