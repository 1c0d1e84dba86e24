/** What a master session does over a whole run of sends. */
module MasterRuns {
  import opened Primitives
  import opened Link
  import opened Transport
  import opened Channel
  import opened Master
  import opened EndToEnd
  import App
  import OutstationRuns
  import LossyChannel

  /** A run of sends: the final state and every frame handed to the channel. */
  function SendAll(cfg: MasterConfig, st: State, fragments: seq<App.ApplicationFragment>): (State, seq<LinkFrame>)
    decreases |fragments|
  {
    if fragments == [] then (st, [])
    else
      var (next, frames) := SendApplication(cfg, st, fragments[0]);
      var (last, rest) := SendAll(cfg, next, fragments[1..]);
      (last, (if frames.Ok? then frames.value else []) + rest)
  }

  /** The encoded messages; a fragment that cannot be encoded sends nothing. */
  function Messages(fragments: seq<App.ApplicationFragment>): seq<Bytes> {
    if fragments == [] then []
    else
      var first := App.EncodeFragment(fragments[0]);
      (if first.Ok? then [first.value] else []) + Messages(fragments[1..])
  }

  lemma OneSend(cfg: MasterConfig, st: State, f: App.ApplicationFragment)
    ensures var (next, frames) := SendApplication(cfg, st, f);
      var encoded := App.EncodeFragment(f);
      var messages := if encoded.Ok? then [encoded.value] else [];
      && (frames.Ok? <==> encoded.Ok?)
      && next == st.(transportSequence := LossyChannel.NumberAfter(messages, st.transportSequence))
      && (if frames.Ok? then frames.value else []) ==
           DataFrames(RequestDirection(cfg.linkStyle), cfg.outstation, cfg.master, LossyChannel.Sent(messages, st.transportSequence))
  {
    hide App.EncodeFragment, Fragment, BuildFrames, NextSequence, DataFrame;
    var encoded := App.EncodeFragment(f);
    if encoded.Ok? {
      LossyChannel.SentOne(encoded.value, st.transportSequence);
      var segments := Fragment(encoded.value, st.transportSequence);
      FragmentsAreWellFormed(encoded.value, st.transportSequence);
      BuildFramesSucceeds(RequestDirection(cfg.linkStyle), cfg.outstation, cfg.master, segments);
    }
  }

  /** The segments of successive sends continue one numbering modulo 64, and nothing else changes. */
  lemma {:induction false} SendsContinueNumbering(cfg: MasterConfig, st: State, fragments: seq<App.ApplicationFragment>)
    ensures var (last, frames) := SendAll(cfg, st, fragments);
      && frames == DataFrames(RequestDirection(cfg.linkStyle), cfg.outstation, cfg.master,
           LossyChannel.Sent(Messages(fragments), st.transportSequence))
      && last == st.(transportSequence := LossyChannel.NumberAfter(Messages(fragments), st.transportSequence))
    decreases |fragments|
  {
    hide SendApplication, App.EncodeFragment, DataFrame;
    if fragments != [] {
      var (next, frames) := SendApplication(cfg, st, fragments[0]);
      OneSend(cfg, st, fragments[0]);
      SendsContinueNumbering(cfg, next, fragments[1..]);
      var encoded := App.EncodeFragment(fragments[0]);
      var first, rest := if encoded.Ok? then [encoded.value] else [], Messages(fragments[1..]);
      LossyChannel.SentConcat(first, rest, st.transportSequence);
      DataFramesConcat(RequestDirection(cfg.linkStyle), cfg.outstation, cfg.master,
        LossyChannel.Sent(first, st.transportSequence), LossyChannel.Sent(rest, next.transportSequence));
    }
  }

  // The bytes of a poll.

  lemma ScanFirst(o: App.AppObject, variation: u8, os: seq<App.AppObject>, rest: Bytes, all: Bytes)
    requires all == [0x3c, variation, 0x06] + rest
    requires o.IntegrityPoll? || o.ClassScan?
    requires variation == if o.IntegrityPoll? then 1 else App.ClassVariation(o.scan)
    requires App.EncodeObjects(os) == Ok(rest)
    ensures App.EncodeObjects([o] + os) == Ok(all)
  {
    assert ([o] + os)[1..] == os;
    assert App.EncodeHeader(App.ObjectHeader(60, variation, App.AllObjects)) == [0x3c, variation, 0x06];
  }

  lemma EncodeNothing()
    ensures App.EncodeObjects([]) == Ok([])
  {
  }

  /** Class 1 to 3 scans, which a tool adds to its poll. */
  const TOOL_SCANS: Bytes := [0x3c, 0x02, 0x06, 0x3c, 0x03, 0x06, 0x3c, 0x04, 0x06]

  lemma ToolScansEncode()
    ensures App.EncodeObjects([App.ClassScan(App.Class1), App.ClassScan(App.Class2), App.ClassScan(App.Class3)]) == Ok(TOOL_SCANS)
  {
    hide App.EncodeObjects;
    var b, c, d := App.ClassScan(App.Class1), App.ClassScan(App.Class2), App.ClassScan(App.Class3);
    EncodeNothing();
    ScanFirst(d, 4, [], [], [0x3c, 0x04, 0x06]);
    assert [d] + [] == [d] && [c] + [d] == [c, d] && [b] + [c, d] == [b, c, d];
    ScanFirst(c, 3, [d], [0x3c, 0x04, 0x06], [0x3c, 0x03, 0x06, 0x3c, 0x04, 0x06]);
    ScanFirst(b, 2, [c, d], [0x3c, 0x03, 0x06, 0x3c, 0x04, 0x06], TOOL_SCANS);
  }

  /** A read under the poll's number modulo 16, of class 0 or of all four classes. */
  lemma PollRequestBytes(style: LinkStyle, sequence: u8)
    ensures App.EncodeFragment(PollRequest(style, sequence)) ==
      Ok([0xc0 + sequence % 16, 0x01, 0x3c, 0x01, 0x06] + if style.Tool? then TOOL_SCANS else [])
  {
    hide App.EncodeObjects;
    var f := PollRequest(style, sequence);
    var rest: Bytes := if style.Tool? then TOOL_SCANS else [];
    var body: Bytes := [0x3c, 0x01, 0x06] + rest;
    EncodeNothing();
    ToolScansEncode();
    assert f.objects == [App.IntegrityPoll] + f.objects[1..];
    ScanFirst(App.IntegrityPoll, 1, f.objects[1..], rest, body);
    assert App.FragmentHeader(f) == [0xc0 + sequence % 16, 0x01];
    assert [0xc0 + sequence % 16, 0x01] + body == [0xc0 + sequence % 16, 0x01, 0x3c, 0x01, 0x06] + rest;
  }

  // Runs of integrity polls.

  /** The state after `n` polls from a new session. */
  function Polled(cfg: MasterConfig, n: nat): State {
    if n == 0 then START else SendIntegrityPoll(cfg, Polled(cfg, n - 1)).0
  }

  lemma PollIsOneSegment(style: LinkStyle, sequence: u8)
    ensures var encoded := App.EncodeFragment(PollRequest(style, sequence));
      encoded.Ok? && SegmentCount(encoded.value) == 1
  {
    hide App.EncodeObjects, App.EncodeObject;
    var f := PollRequest(style, sequence);
    forall o | o in f.objects
      ensures IsScan(o)
    {
    }
    ScansEncode(f.objects);
    assert |f.objects| <= 4;
  }

  lemma OnePoll(cfg: MasterConfig, st: State)
    ensures SendIntegrityPoll(cfg, st).0 ==
      State(NextSequence(st.transportSequence, 1), (st.appSequence + 1) % 0x100 % 0x10, st.pollsSent + 1, st.reassembler)
  {
    hide App.EncodeFragment, PollRequest, Fragment, BuildFrames, NextSequence, SegmentCount;
    PollIsOneSegment(cfg.linkStyle, st.appSequence);
  }

  lemma NextFourBits(n: nat)
    ensures (n % 0x10 + 1) % 0x100 % 0x10 == (n + 1) % 0x10
  {
    var q, d := n / 0x10, n % 0x10;
    assert n + 1 == if d == 0xf then 0x10 * (q + 1) else 0x10 * q + (d + 1);
  }

  lemma NumbersStep(n: nat)
    ensures NextSequence(n % 0x40, 1) == (n + 1) % 0x40
  {
    hide NextSequence;
    NextSequenceAdds(n % 0x40, 1);
    NextSixBits(n);
  }

  /** Poll number n (from 0) carries application sequence n mod 16 in segment n mod 64, whatever the style. */
  lemma {:induction false} PollNumbering(cfg: MasterConfig, n: nat)
    ensures Polled(cfg, n) == State(n % 0x40, n % 0x10, n, IDLE)
  {
    hide SendIntegrityPoll, NextSequence;
    if n > 0 {
      PollNumbering(cfg, n - 1);
      OnePoll(cfg, Polled(cfg, n - 1));
      NumbersStep(n - 1);
      NextFourBits(n - 1);
    }
  }

  // Frames for other stations.

  /** Deleting the frames addressed elsewhere changes neither the reassembler nor what is received. */
  lemma {:induction false} ForeignFramesSkipped(cfg: MasterConfig, st: ReassemblerState, inbox: seq<LinkFrame>)
    ensures var (next, rest, r) := ReceiveApplication(cfg, st, inbox);
      ReceiveApplication(cfg, st, OutstationRuns.Addressed(cfg.master, inbox)) == (next, OutstationRuns.Addressed(cfg.master, rest), r)
    decreases |inbox|
  {
    hide Push, DecodeSegment, App.DecodeFragment;
    if inbox != [] {
      var frame, rest := inbox[0], inbox[1..];
      var addressed := OutstationRuns.Addressed(cfg.master, rest);
      if frame.destination == cfg.master {
        assert ([frame] + addressed)[1..] == addressed;
        var segment := DecodeSegment(frame.payload);
        if segment.Ok? {
          var (pushed, complete) := Push(st, segment.value);
          if complete.Ok? {
            ForeignFramesSkipped(cfg, pushed, rest);
          } else {
            ForeignFramesSkipped(cfg, IDLE, rest);
          }
        }
      } else {
        assert [] + addressed == addressed;
        ForeignFramesSkipped(cfg, st, rest);
      }
    }
  }

  /** The same while waiting for a response. */
  lemma {:induction false} ForeignFramesNotAwaited(cfg: MasterConfig, st: ReassemblerState, inbox: seq<LinkFrame>)
    ensures var (next, rest, r) := AwaitResponse(cfg, st, inbox);
      AwaitResponse(cfg, st, OutstationRuns.Addressed(cfg.master, inbox)) == (next, OutstationRuns.Addressed(cfg.master, rest), r)
    decreases |inbox|
  {
    hide ReceiveApplication, OutstationRuns.Addressed;
    ForeignFramesSkipped(cfg, st, inbox);
    var (next, rest, r) := ReceiveApplication(cfg, st, inbox);
    if r.Ok? && !App.IncludesIin(r.value.func) {
      ForeignFramesNotAwaited(cfg, IDLE, rest);
    }
  }

  /** An addressed frame whose payload is no segment ends the receive loop with its error. */
  lemma BadSegmentReported(cfg: MasterConfig, st: ReassemblerState, frame: LinkFrame, rest: seq<LinkFrame>)
    requires frame.destination == cfg.master && !(1 <= |frame.payload| <= 250)
    ensures ReceiveApplication(cfg, st, [frame] + rest) ==
      (st, rest, Err(Protocol(if frame.payload == [] then UnexpectedEof else InvalidLength(250, |frame.payload|))))
  {
    hide Push, DecodeSegment;
    SegmentErrors(frame.payload);
    assert ([frame] + rest)[1..] == rest;
  }
}
