/** The master session: polls out, responses in. */
module Master {
  import opened Primitives
  import opened Link
  import opened Transport
  import opened Channel
  import App
  import AppDecoder
  import AppEncoder

  datatype LinkStyle = Standard | Tool

  datatype MasterConfig = MasterConfig(master: u16, outstation: u16, linkStyle: LinkStyle)

  datatype State = State(transportSequence: u8, appSequence: u8, pollsSent: nat, reassembler: ReassemblerState)

  const START := State(0, 0, 0, IDLE)

  type Received = Result<App.ApplicationFragment, SessionError>

  function MakeRequest(sequence: u8, objects: seq<App.AppObject>): App.ApplicationFragment {
    App.ApplicationFragment(App.NewControl(true, true, false, false, sequence), App.Read, 0, objects)
  }

  /** The request of an integrity poll: tools add the three event classes. */
  function PollRequest(style: LinkStyle, sequence: u8): App.ApplicationFragment {
    match style
    case Standard => MakeRequest(sequence, [App.IntegrityPoll])
    case Tool =>
      MakeRequest(sequence,
        [App.IntegrityPoll, App.ClassScan(App.Class1), App.ClassScan(App.Class2), App.ClassScan(App.Class3)])
  }

  function RequestDirection(style: LinkStyle): Direction {
    if style.Tool? then OutstationToMaster else MasterToOutstation
  }

  /** New state and the frames handed to the channel. */
  function SendApplication(cfg: MasterConfig, st: State, f: App.ApplicationFragment): (State, Outcome<seq<LinkFrame>>) {
    match App.EncodeFragment(f)
    case Err(e) => (st, Err(e))
    case Ok(encoded) =>
      var segments := Fragment(encoded, st.transportSequence);
      (st.(transportSequence := NextSequence(st.transportSequence, |segments|)),
       BuildFrames(RequestDirection(cfg.linkStyle), cfg.outstation, cfg.master, segments))
  }

  function SendIntegrityPoll(cfg: MasterConfig, st: State): (State, Outcome<seq<LinkFrame>>) {
    SendApplication(cfg,
      st.(appSequence := (st.appSequence + 1) % 0x100 % 0x10, pollsSent := st.pollsSent + 1),
      PollRequest(cfg.linkStyle, st.appSequence))
  }

  /** Reads frames until one completes a fragment: reassembler, unread frames, outcome. */
  function ReceiveApplication(cfg: MasterConfig, st: ReassemblerState, inbox: seq<LinkFrame>)
    : (r: (ReassemblerState, seq<LinkFrame>, Received))
    ensures |r.1| <= |inbox| && (r.2 != Err(ChannelEmpty) ==> |r.1| < |inbox|)
    decreases |inbox|
  {
    if inbox == [] then (st, [], Err(ChannelEmpty))
    else
      var frame, rest := inbox[0], inbox[1..];
      if frame.destination != cfg.master then ReceiveApplication(cfg, st, rest)
      else
        match DecodeSegment(frame.payload)
        case Err(e) => (st, rest, Err(Protocol(e)))
        case Ok(segment) =>
          var (pushed, complete) := Push(st, segment);
          match complete
          case Ok(Some(bytes)) =>
            (match App.DecodeFragment(bytes)
             case Ok(f) => (pushed, rest, Ok(f))
             case Err(e) => (pushed, rest, Err(Protocol(e))))
          case Ok(None) => ReceiveApplication(cfg, pushed, rest)
          case Err(e) =>
            if e.InvalidSequence? || e.InvalidFragment? then ReceiveApplication(cfg, IDLE, rest)
            else (pushed, rest, Err(Protocol(e)))
  }

  /** Skips fragments until a response arrives. */
  function AwaitResponse(cfg: MasterConfig, st: ReassemblerState, inbox: seq<LinkFrame>)
    : (ReassemblerState, seq<LinkFrame>, Received)
    decreases |inbox|
  {
    var (next, rest, r) := ReceiveApplication(cfg, st, inbox);
    if r.Ok? && !App.IncludesIin(r.value.func) then AwaitResponse(cfg, IDLE, rest) else (next, rest, r)
  }

  class MasterSession {
    const cfg: MasterConfig
    var transportSequence: u8
    var appSequence: u8
    var pollsSent: nat
    const reassembler: Reassembler

    ghost function Current(): State
      reads this, reassembler
    {
      State(transportSequence, appSequence, pollsSent, reassembler.State())
    }

    constructor (cfg: MasterConfig)
      ensures this.cfg == cfg && Current() == START && fresh(reassembler)
    {
      this.cfg := cfg;
      transportSequence, appSequence, pollsSent := 0, 0, 0;
      reassembler := new Reassembler();
    }

    method NextAppSequence() returns (current: u8)
      modifies this`appSequence
      ensures current == old(appSequence) && appSequence == (current + 1) % 0x100 % 0x10
    {
      current := appSequence;
      appSequence := (appSequence as int + 1) % 0x100 % 0x10;
    }

    method Send(channel: FrameChannel, f: App.ApplicationFragment) returns (r: Outcome<()>)
      modifies this`transportSequence, channel`outbox
      ensures var (next, frames) := SendApplication(cfg, old(Current()), f);
        Current() == next &&
        match frames
        case Ok(sent) => r == Ok(()) && channel.outbox == old(channel.outbox) + sent
        case Err(e) => r == Err(e) && channel.outbox == old(channel.outbox)
    {
      hide Fragment, NextSequence, App.EncodeFragment, BuildFrames, DataFrames, DataFrame, UserData, WellFormed, EncodeSegment,
           RequestDirection;
      var encoded :- AppEncoder.WriteFragment(f);
      var segments := Fragment(encoded, transportSequence);
      FragmentsAreWellFormed(encoded, transportSequence);
      ghost var direction := RequestDirection(cfg.linkStyle);
      BuildFramesSucceeds(direction, cfg.outstation, cfg.master, segments);
      transportSequence := NextSequence(transportSequence, |segments|);
      var i := 0;
      DataFramesFrom(direction, cfg.outstation, cfg.master, segments, 0);
      while i < |segments|
        invariant 0 <= i <= |segments|
        invariant transportSequence == NextSequence(old(transportSequence), |segments|)
        invariant channel.outbox + DataFrames(direction, cfg.outstation, cfg.master, segments[i..]) ==
          old(channel.outbox) + DataFrames(direction, cfg.outstation, cfg.master, segments)
      {
        DataFramesFrom(direction, cfg.outstation, cfg.master, segments, i);
        UserDataFits(direction, cfg.outstation, cfg.master, segments[i]);
        var built := UserData(RequestDirection(cfg.linkStyle), cfg.outstation, cfg.master, EncodeSegment(segments[i]));
        channel.SendFrame(built.value);
        i := i + 1;
      }
      DataFramesFrom(direction, cfg.outstation, cfg.master, segments, i);
      return Ok(());
    }

    method SendPoll(channel: FrameChannel) returns (r: Outcome<()>)
      modifies this, channel`outbox
      ensures var (next, frames) := SendIntegrityPoll(cfg, old(Current()));
        Current() == next &&
        match frames
        case Ok(sent) => r == Ok(()) && channel.outbox == old(channel.outbox) + sent
        case Err(e) => r == Err(e) && channel.outbox == old(channel.outbox)
    {
      hide SendApplication, PollRequest;
      var sequence := NextAppSequence();
      var request := PollRequest(cfg.linkStyle, sequence);
      pollsSent := pollsSent + 1;
      r := Send(channel, request);
    }

    method Receive(channel: FrameChannel) returns (r: Received)
      modifies reassembler, channel`inbox
      ensures (reassembler.State(), channel.inbox, r) ==
        ReceiveApplication(cfg, old(reassembler.State()), old(channel.inbox))
    {
      hide Push, DecodeSegment, App.DecodeFragment;
      while true
        invariant ReceiveApplication(cfg, reassembler.State(), channel.inbox) ==
          ReceiveApplication(cfg, old(reassembler.State()), old(channel.inbox))
        decreases |channel.inbox|
      {
        var frame :- channel.ReceiveFrame();
        if frame.destination != cfg.master {
          continue;
        }
        var segment := DecodeSegment(frame.payload);
        if segment.Err? {
          return Err(Protocol(segment.error));
        }
        var complete := reassembler.PushSegment(segment.value);
        match complete {
          case Ok(Some(bytes)) =>
            var decoded := AppDecoder.ReadFragment(bytes);
            return match decoded case Ok(f) => Ok(f) case Err(e) => Err(Protocol(e));
          case Ok(None) =>
            continue;
          case Err(e) =>
            if e.InvalidSequence? || e.InvalidFragment? {
              reassembler.Reset();
              continue;
            }
            return Err(Protocol(e));
        }
      }
    }

    method Poll(channel: FrameChannel) returns (r: Received)
      modifies this, reassembler, channel
      ensures var (next, frames) := SendIntegrityPoll(cfg, old(Current()).(reassembler := IDLE));
        match frames
        case Err(e) => r == Err(Protocol(e)) && Current() == next && channel.outbox == old(channel.outbox)
        case Ok(sent) =>
          var (after, rest, received) := AwaitResponse(cfg, IDLE, old(channel.inbox));
          r == received && Current() == next.(reassembler := after) &&
          channel.outbox == old(channel.outbox) + sent && channel.inbox == rest
    {
      hide ReceiveApplication, SendApplication, PollRequest;
      reassembler.Reset();
      var sent := SendPoll(channel);
      if sent.Err? {
        return Err(Protocol(sent.error));
      }
      label Sent:
      while true
        invariant AwaitResponse(cfg, reassembler.State(), channel.inbox) == AwaitResponse(cfg, IDLE, old(channel.inbox))
        invariant channel.outbox == old@Sent(channel.outbox)
        invariant Current() == old@Sent(Current()).(reassembler := reassembler.State())
        decreases |channel.inbox|
      {
        var response :- Receive(channel);
        if App.IncludesIin(response.func) {
          return Ok(response);
        }
        reassembler.Reset();
      }
    }
  }

  lemma DataFramesFrom(direction: Direction, destination: u16, source: u16, segments: seq<Segment>, i: nat)
    requires i <= |segments|
    ensures DataFrames(direction, destination, source, segments[i..]) ==
      if i == |segments| then []
      else [DataFrame(direction, destination, source, segments[i])] + DataFrames(direction, destination, source, segments[i + 1..])
    ensures i == 0 ==> segments[i..] == segments
  {
    if i < |segments| {
      assert segments[i..][0] == segments[i] && segments[i..][1..] == segments[i + 1..];
    }
  }

  lemma UserDataFits(direction: Direction, destination: u16, source: u16, segment: Segment)
    requires WellFormed(segment)
    ensures UserData(direction, destination, source, EncodeSegment(segment)) == Ok(DataFrame(direction, destination, source, segment))
  {
  }
}
