/** Exactly when the sessions' addition of transport numbers overflows a byte. */
module SequenceOverflow {
  import opened Primitives
  import opened Link
  import opened Transport
  import opened Channel
  import opened Outstation
  import opened OutstationRuns
  import App
  import EndToEnd
  import LossyChannel
  import Master
  import MasterRuns

  // The outstation.

  /** Does answering this frame add a segment count that the session's number overflows with? */
  ghost predicate OverflowsAt(address: u16, st: State, frame: LinkFrame) {
    exists m :: m in Answered(address, st, frame) && !AdditionFits(st.transportSequence, SegmentCount(m))
  }

  ghost predicate SomeRunOverflows(address: u16, db: Database) {
    exists frames: seq<LinkFrame>, frame: LinkFrame :: OverflowsAt(address, Run(address, Start(db), frames).0, frame)
  }

  /** The response to an integrity poll with sequence 0. */
  function PollResponse(db: Database): Outcome<Bytes> { App.EncodeFragment(EndToEnd.ExpectedResponse(db, 0)) }

  predicate TooLong(db: Database) {
    var response := PollResponse(db);
    response.Ok? && SegmentCount(response.value) % 0x100 > 192
  }

  lemma ResponseLength(sequence: u8, objects: seq<App.AppObject>)
    ensures var response := App.EncodeFragment(MakeResponse(sequence, objects));
      && (response.Ok? <==> App.EncodeObjects(objects).Ok?)
      && (response.Ok? ==> |response.value| == 4 + |App.EncodeObjects(objects).value|)
  {
    hide App.EncodeObjects;
  }

  lemma NoObjectsLength(sequence: u8)
    ensures App.EncodeFragment(MakeResponse(sequence, [])).Ok?
    ensures SegmentCount(App.EncodeFragment(MakeResponse(sequence, [])).value) == 1
  {
    ResponseLength(sequence, []);
  }

  lemma PollIsMadeResponse(db: Database)
    ensures EndToEnd.ExpectedResponse(db, 0) == MakeResponse(0, IntegrityObjects(db))
  {
    hide IntegrityObjects;
  }

  /** A response is one segment, or as long as the response to a poll. */
  lemma RespondLength(db: Database, request: Bytes, m: Bytes)
    requires Respond(db, request) == Ok(m)
    ensures SegmentCount(m) == 1 || (PollResponse(db).Ok? && |m| == |PollResponse(db).value|)
  {
    hide App.DecodeFragment, App.EncodeFragment, IntegrityObjects, SegmentCount, App.EncodeObjects, MakeResponse;
    PollIsMadeResponse(db);
    var f := App.DecodeFragment(request).value;
    var sequence := f.control.sequence;
    NoObjectsLength(sequence);
    ResponseLength(sequence, IntegrityObjects(db));
    ResponseLength(0, IntegrityObjects(db));
  }

  lemma AnsweredRespond(address: u16, st: State, frame: LinkFrame, m: Bytes) returns (request: Bytes)
    requires m in Answered(address, st, frame)
    ensures Respond(st.database, request) == Ok(m)
  {
    hide Push, DecodeSegment, Respond;
    request := Push(st.reassembler, DecodeSegment(frame.payload).value).1.value.value;
  }

  // Every number below 64 is reachable.

  /** An empty write request. */
  const WRITE: Bytes := [0xc0, 0x02]

  function RequestFrame(address: u16, request: Bytes): LinkFrame {
    DataFrame(MasterToOutstation, address, 0, Segment(NewHeader(true, true, 0), request))
  }

  lemma RequestFrameIsFragment(address: u16, request: Bytes)
    requires SegmentCount(request) == 1
    ensures RequestFrame(address, request) == DataFrame(MasterToOutstation, address, 0, Fragment(request, 0)[0])
    ensures WellFormed(Segment(NewHeader(true, true, 0), request))
  {
    hide Fragment;
    FragmentAt(request, 0, 0);
  }

  /** What a one-frame request that is answered makes of the session. */
  lemma RequestFrameAnswered(address: u16, st: State, request: Bytes, response: Bytes)
    requires SegmentCount(request) == 1 && Respond(st.database, request) == Ok(response)
    ensures Answered(address, st, RequestFrame(address, request)) == [response]
    ensures HandleFrame(address, st, RequestFrame(address, request)).0 ==
      State(st.database, NextSequence(st.transportSequence, SegmentCount(response)), IDLE)
  {
    hide Respond, Fragment, HandleFrame, NextSequence, DecodeSegment, EncodeSegment, BuildFrames;
    RequestFrameIsFragment(address, request);
    EndToEnd.RequestStep(address, st, MasterToOutstation, 0, request, 0, 0);
    SegmentRoundTrip(Segment(NewHeader(true, true, 0), request));
    assert [] + request == request;
  }

  lemma WriteIsAnswered(db: Database)
    ensures SegmentCount(WRITE) == 1
    ensures Respond(db, WRITE) == App.EncodeFragment(MakeResponse(0, []))
  {
    hide App.EncodeFragment;
    assert WRITE[2..] == [];
    assert App.DecodeObjects([]) == Ok([]);
  }

  function Writes(address: u16, n: nat): seq<LinkFrame> { seq(n, _ => RequestFrame(address, WRITE)) }

  /** After n empty write requests a new session's number is n. */
  lemma {:induction false} NumberReached(address: u16, db: Database, n: nat)
    requires n < 0x40
    ensures Run(address, Start(db), Writes(address, n)).0 == State(db, n, IDLE)
  {
    hide HandleFrame, Respond, App.EncodeFragment, SegmentCount, NextSequence;
    if n > 0 {
      NumberReached(address, db, n - 1);
      var st, frame := State(db, n - 1, IDLE), RequestFrame(address, WRITE);
      assert Writes(address, n) == Writes(address, n - 1) + [frame];
      RunConcat(address, Start(db), Writes(address, n - 1), [frame]);
      RunOne(address, st, frame);
      WriteIsAnswered(db);
      NoObjectsLength(0);
      RequestFrameAnswered(address, st, WRITE, Respond(db, WRITE).value);
      NextSequenceAdds(n - 1, 1);
    } else {
      assert Writes(address, 0) == [];
    }
  }

  /** The bytes of a standard integrity poll with sequence 0. */
  function Poll(): Bytes
  {
    var encoded := App.EncodeFragment(Master.PollRequest(Master.Standard, 0));
    if encoded.Ok? then encoded.value else []
  }

  /** The number 63 and a poll whose response is too long. */
  lemma TooLongOverflows(address: u16, db: Database)
    requires TooLong(db)
    ensures var st := Run(address, Start(db), Writes(address, 63)).0;
      && st.transportSequence == 63
      && Answered(address, st, RequestFrame(address, Poll())) == [PollResponse(db).value]
      && OverflowsAt(address, st, RequestFrame(address, Poll()))
  {
    hide Run, App.EncodeFragment, Master.PollRequest, Respond, Answered, SegmentCount, EndToEnd.ExpectedResponse;
    NumberReached(address, db, 63);
    MasterRuns.PollIsOneSegment(Master.Standard, 0);
    EndToEnd.Answering(db, Master.Standard, 0);
    RequestFrameAnswered(address, State(db, 63, IDLE), Poll(), PollResponse(db).value);
  }

  /**
   Some run of a new session overflows exactly when the response to a poll can be encoded and its
   segment count, truncated to a byte, is above 192. Only the database decides.
   */
  lemma OverflowsIffTooLong(address: u16, db: Database)
    ensures SomeRunOverflows(address, db) <==> TooLong(db)
  {
    hide Run, Answered, PollResponse, AdditionFits;
    if TooLong(db) {
      TooLongOverflows(address, db);
    }
    forall frames: seq<LinkFrame>, frame: LinkFrame | OverflowsAt(address, Run(address, Start(db), frames).0, frame)
      ensures TooLong(db)
    {
      OverflowIsTooLong(address, db, frames, frame);
    }
  }

  lemma OverflowIsTooLong(address: u16, db: Database, frames: seq<LinkFrame>, frame: LinkFrame)
    requires OverflowsAt(address, Run(address, Start(db), frames).0, frame)
    ensures TooLong(db)
  {
    hide Run, Answered, PollResponse, AdditionFits, Respond;
    var st := Run(address, Start(db), frames).0;
    var m :| m in Answered(address, st, frame) && !AdditionFits(st.transportSequence, SegmentCount(m));
    DatabaseKept(address, Start(db), frames);
    NumberStaysSixBit(address, Start(db), frames);
    SequenceAdditionFits(SegmentCount(m));
    var request := AnsweredRespond(address, st, frame, m);
    RespondLength(db, request, m);
    SameLengthSameCount(m, if PollResponse(db).Ok? then PollResponse(db).value else m);
  }

  lemma SameLengthSameCount(a: Bytes, b: Bytes)
    ensures |a| == |b| ==> SegmentCount(a) == SegmentCount(b)
  {
  }

  // A database that overflows.

  function AnalogRun(n: nat): App.AnalogPoints
    requires n <= 0x1_0000
  {
    seq(n, k requires 0 <= k < n => App.Point(k, 0x01, 0))
  }

  /** 9560 analog inputs. */
  const LONG_DATABASE := Database([], [], AnalogRun(9560), [], [])

  lemma {:induction false} AnalogBodiesLength(points: seq<App.Point>)
    requires App.AllFit(App.Analog, points)
    ensures |App.Bodies(App.Analog, points)| == 5 * |points|
  {
    if points != [] {
      AnalogBodiesLength(points[1..]);
    }
  }

  lemma LongResponse()
    ensures PollResponse(LONG_DATABASE).Ok? && SegmentCount(PollResponse(LONG_DATABASE).value) == 193
  {
    hide App.Bodies, App.EncodeFragment;
    var points := AnalogRun(9560);
    var objects := [App.AnalogInputs(points)];
    AnalogBodiesLength(points);
    assert IntegrityObjects(LONG_DATABASE) == objects;
    assert App.Consecutive(points);
    assert objects[1..] == [];
    ResponseLength(0, objects);
  }

  /** 63 write requests and a poll of 9560 analog inputs add 63 and 193: one more than a byte holds. */
  lemma LongDatabaseOverflows(address: u16)
    ensures var st := Run(address, Start(LONG_DATABASE), Writes(address, 63)).0;
      var response := Answered(address, st, RequestFrame(address, Poll()));
      |response| == 1 && st.transportSequence == 63 && SegmentCount(response[0]) == 193 && !AdditionFits(63, 193)
  {
    hide Run, Answered, PollResponse;
    LongResponse();
    TooLongOverflows(address, LONG_DATABASE);
  }

  // The master.

  lemma {:induction false} NumberAfterSixBits(messages: seq<Bytes>, s: u8)
    requires s < 0x40
    ensures LossyChannel.NumberAfter(messages, s) < 0x40
  {
    if messages != [] {
      NumberAfterSixBits(messages[1..], NextSequence(s, SegmentCount(messages[0])));
    }
  }

  /**
   From any number below 64, after any sends, the number is below 64, and no send of at most 192
   segments, modulo 256, overflows.
   */
  lemma MasterAdditionFits(cfg: Master.MasterConfig, st: Master.State, fragments: seq<App.ApplicationFragment>, m: Bytes)
    requires st.transportSequence < 0x40
    ensures var last := MasterRuns.SendAll(cfg, st, fragments).0;
      && last.transportSequence < 0x40
      && (SegmentCount(m) % 0x100 <= 192 ==> AdditionFits(last.transportSequence, SegmentCount(m)))
  {
    hide MasterRuns.SendAll, SegmentCount, AdditionFits;
    MasterRuns.SendsContinueNumbering(cfg, st, fragments);
    NumberAfterSixBits(MasterRuns.Messages(fragments), st.transportSequence);
    SequenceAdditionFits(SegmentCount(m));
  }

  /** Do some sends of a new session lead to a number that sending `m` overflows? */
  ghost predicate SomeSendsOverflow(cfg: Master.MasterConfig, m: Bytes) {
    exists fragments: seq<App.ApplicationFragment> ::
      !AdditionFits(MasterRuns.SendAll(cfg, Master.START, fragments).0.transportSequence, SegmentCount(m))
  }

  /** After n standard polls the number is n. */
  lemma {:induction false} PollsNumber(n: nat, s: u8)
    requires s + n < 0x40
    ensures LossyChannel.NumberAfter(MasterRuns.Messages(seq(n, _ => Master.PollRequest(Master.Standard, 0))), s) == s + n
    decreases n
  {
    hide App.EncodeFragment, Master.PollRequest, SegmentCount, NextSequence;
    var f := Master.PollRequest(Master.Standard, 0);
    var polls := seq(n, _ => f);
    if n > 0 {
      MasterRuns.PollIsOneSegment(Master.Standard, 0);
      var m := App.EncodeFragment(f).value;
      assert polls[1..] == seq(n - 1, _ => f);
      assert MasterRuns.Messages(polls)[1..] == MasterRuns.Messages(polls[1..]);
      NextSequenceAdds(s, 1);
      PollsNumber(n - 1, s + 1);
    }
  }

  lemma MasterOverflowsIff(cfg: Master.MasterConfig, m: Bytes)
    ensures SomeSendsOverflow(cfg, m) <==> SegmentCount(m) % 0x100 > 192
  {
    hide MasterRuns.SendAll, SegmentCount, MasterRuns.Messages, LossyChannel.NumberAfter;
    forall fragments: seq<App.ApplicationFragment>
      ensures SegmentCount(m) % 0x100 <= 192 ==>
        AdditionFits(MasterRuns.SendAll(cfg, Master.START, fragments).0.transportSequence, SegmentCount(m))
    {
      MasterAdditionFits(cfg, Master.START, fragments, m);
    }
    var polls := seq(63, _ => Master.PollRequest(Master.Standard, 0));
    MasterRuns.SendsContinueNumbering(cfg, Master.START, polls);
    PollsNumber(63, 0);
    assert AdditionFits(MasterRuns.SendAll(cfg, Master.START, polls).0.transportSequence, SegmentCount(m)) <==>
      SegmentCount(m) % 0x100 <= 192;
  }
}
