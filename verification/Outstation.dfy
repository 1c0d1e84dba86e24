/** The outstation session: one link frame in, response frames out. */
module Outstation {
  import opened Primitives
  import opened Link
  import opened Transport
  import opened Channel
  import App
  import AppDecoder
  import AppEncoder

  datatype Database = Database(
    binaryInputs: App.BinaryPoints,
    binaryOutputs: App.BinaryPoints,
    analogInputs: App.AnalogPoints,
    analogOutputs: App.AnalogPoints,
    counters: App.CounterPoints)

  /** The non-empty point lists, in a fixed order. */
  function IntegrityObjects(db: Database): seq<App.AppObject> {
    (if db.binaryInputs != [] then [App.BinaryInputs(db.binaryInputs)] else []) +
    (if db.binaryOutputs != [] then [App.BinaryOutputs(db.binaryOutputs)] else []) +
    (if db.analogInputs != [] then [App.AnalogInputs(db.analogInputs)] else []) +
    (if db.analogOutputs != [] then [App.AnalogOutputs(db.analogOutputs)] else []) +
    (if db.counters != [] then [App.Counters(db.counters)] else [])
  }

  lemma InFive<T>(x: T, a: seq<T>, b: seq<T>, c: seq<T>, d: seq<T>, e: seq<T>)
    ensures x in a + b + c + d + e <==> x in a || x in b || x in c || x in d || x in e
  {
  }

  /** What the database reports: each of its lists under its own kind, whole, exactly when it is not empty. */
  predicate Reports(db: Database, o: App.AppObject) {
    match o
    case BinaryInputs(ps) => ps == db.binaryInputs && ps != []
    case BinaryOutputs(ps) => ps == db.binaryOutputs && ps != []
    case AnalogInputs(ps) => ps == db.analogInputs && ps != []
    case AnalogOutputs(ps) => ps == db.analogOutputs && ps != []
    case Counters(ps) => ps == db.counters && ps != []
    case _ => false
  }

  lemma IntegrityObjectsAreTheLists(db: Database, o: App.AppObject)
    ensures o in IntegrityObjects(db) <==> Reports(db, o)
  {
    InFive(o,
      if db.binaryInputs != [] then [App.BinaryInputs(db.binaryInputs)] else [],
      if db.binaryOutputs != [] then [App.BinaryOutputs(db.binaryOutputs)] else [],
      if db.analogInputs != [] then [App.AnalogInputs(db.analogInputs)] else [],
      if db.analogOutputs != [] then [App.AnalogOutputs(db.analogOutputs)] else [],
      if db.counters != [] then [App.Counters(db.counters)] else []);
  }

  lemma SameReports(a: Database, b: Database)
    requires forall o :: Reports(a, o) == Reports(b, o)
    ensures a == b
  {
    assert Reports(a, App.BinaryInputs(a.binaryInputs)) == Reports(b, App.BinaryInputs(a.binaryInputs));
    assert Reports(a, App.BinaryInputs(b.binaryInputs)) == Reports(b, App.BinaryInputs(b.binaryInputs));
    assert Reports(a, App.BinaryOutputs(a.binaryOutputs)) == Reports(b, App.BinaryOutputs(a.binaryOutputs));
    assert Reports(a, App.BinaryOutputs(b.binaryOutputs)) == Reports(b, App.BinaryOutputs(b.binaryOutputs));
    assert Reports(a, App.AnalogInputs(a.analogInputs)) == Reports(b, App.AnalogInputs(a.analogInputs));
    assert Reports(a, App.AnalogInputs(b.analogInputs)) == Reports(b, App.AnalogInputs(b.analogInputs));
    assert Reports(a, App.AnalogOutputs(a.analogOutputs)) == Reports(b, App.AnalogOutputs(a.analogOutputs));
    assert Reports(a, App.AnalogOutputs(b.analogOutputs)) == Reports(b, App.AnalogOutputs(b.analogOutputs));
    assert Reports(a, App.Counters(a.counters)) == Reports(b, App.Counters(a.counters));
    assert Reports(a, App.Counters(b.counters)) == Reports(b, App.Counters(b.counters));
  }

  /** Nothing of the database is lost: different databases are reported differently. */
  lemma IntegrityObjectsInjective(a: Database, b: Database)
    requires IntegrityObjects(a) == IntegrityObjects(b)
    ensures a == b
  {
    hide IntegrityObjects;
    forall o
      ensures Reports(a, o) == Reports(b, o)
    {
      IntegrityObjectsAreTheLists(a, o);
      IntegrityObjectsAreTheLists(b, o);
    }
    SameReports(a, b);
  }

  datatype State = State(database: Database, transportSequence: u8, reassembler: ReassemblerState)

  function Start(db: Database): State { State(db, 0, IDLE) }

  type Reply = Outcome<seq<LinkFrame>>

  predicate AsksForStatic(o: App.AppObject) { o.IntegrityPoll? || o.ClassScan? }

  function MakeResponse(sequence: u8, objects: seq<App.AppObject>): App.ApplicationFragment {
    App.ApplicationFragment(App.NewControl(true, true, false, false, sequence), App.Response, 0, objects)
  }

  function HandleApplication(db: Database, request: App.ApplicationFragment): Outcome<App.ApplicationFragment> {
    var sequence := request.control.sequence;
    match request.func
    case Read =>
      var includeStatic := exists o :: o in request.objects && AsksForStatic(o);
      Ok(MakeResponse(sequence, if includeStatic then IntegrityObjects(db) else []))
    case RecordCurrentTime => Ok(MakeResponse(sequence, []))
    case Write => Ok(MakeResponse(sequence, []))
    case other => Err(UnknownValue("unsupported outstation function", App.EncodeFunction(other)))
  }

  /** Does the request ask for static data: a read with an integrity poll or a scan of any class among its objects? */
  predicate AsksForDatabase(request: App.ApplicationFragment) {
    request.func == App.Read && exists o :: o in request.objects && (o.IntegrityPoll? || o.ClassScan?)
  }

  /**
   Reads, writes and time recordings are answered, everything else is an error. The answer is one
   whole response under the request's own number, with the non-empty lists of the database if
   they were asked for and with nothing otherwise.
   */
  lemma ResponseMirrorsRequest(db: Database, request: App.ApplicationFragment)
    ensures var r := HandleApplication(db, request);
      if request.func == App.Read || request.func == App.Write || request.func == App.RecordCurrentTime then
        && r.Ok?
        && r.value.control == App.AppControl(true, true, false, false, request.control.sequence % 16)
        && r.value.func == App.Response && r.value.iin == 0
        && (forall o :: o in r.value.objects <==> AsksForDatabase(request) && Reports(db, o))
      else r == Err(UnknownValue("unsupported outstation function", App.EncodeFunction(request.func)))
  {
    hide IntegrityObjects, Reports, App.EncodeFunction;
    forall o
      ensures o in IntegrityObjects(db) <==> Reports(db, o)
    {
      IntegrityObjectsAreTheLists(db, o);
    }
  }

  /** The order of the lists in a response. */
  function Rank(o: App.AppObject): nat {
    match o
    case BinaryInputs(_) => 0
    case BinaryOutputs(_) => 1
    case AnalogInputs(_) => 2
    case AnalogOutputs(_) => 3
    case Counters(_) => 4
    case _ => 5
  }

  predicate InOrder(objects: seq<App.AppObject>, low: nat, high: nat) {
    && (forall i :: 0 <= i < |objects| ==> low <= Rank(objects[i]) < high)
    && (forall i, j :: 0 <= i < j < |objects| ==> Rank(objects[i]) < Rank(objects[j]))
  }

  lemma InOrderConcat(a: seq<App.AppObject>, b: seq<App.AppObject>, low: nat, middle: nat, high: nat)
    requires low <= middle <= high && InOrder(a, low, middle) && InOrder(b, middle, high)
    ensures InOrder(a + b, low, high)
  {
    hide Rank;
  }

  /** Each kind of list is reported at most once, binary before analog before counters, inputs before outputs. */
  lemma IntegrityObjectsInOrder(db: Database)
    ensures InOrder(IntegrityObjects(db), 0, 5)
  {
    hide InOrder;
    var a := if db.binaryInputs != [] then [App.BinaryInputs(db.binaryInputs)] else [];
    var b := if db.binaryOutputs != [] then [App.BinaryOutputs(db.binaryOutputs)] else [];
    var c := if db.analogInputs != [] then [App.AnalogInputs(db.analogInputs)] else [];
    var d := if db.analogOutputs != [] then [App.AnalogOutputs(db.analogOutputs)] else [];
    var e := if db.counters != [] then [App.Counters(db.counters)] else [];
    OneInOrder(a, 0);
    OneInOrder(b, 1);
    OneInOrder(c, 2);
    OneInOrder(d, 3);
    OneInOrder(e, 4);
    InOrderConcat(a, b, 0, 1, 2);
    InOrderConcat(a + b, c, 0, 2, 3);
    InOrderConcat(a + b + c, d, 0, 3, 4);
    InOrderConcat(a + b + c + d, e, 0, 4, 5);
  }

  lemma OneInOrder(objects: seq<App.AppObject>, rank: nat)
    requires |objects| <= 1 && forall o :: o in objects ==> Rank(o) == rank
    ensures InOrder(objects, rank, rank + 1)
  {
    hide Rank;
  }

  /** From complete request bytes to encoded response bytes. */
  function Respond(db: Database, bytes: Bytes): Outcome<Bytes> {
    var request :- App.DecodeFragment(bytes);
    var response :- HandleApplication(db, request);
    App.EncodeFragment(response)
  }

  function SendResponse(address: u16, st: State, destination: u16, encoded: Bytes, toolStyle: bool): (State, Reply) {
    var segments := Fragment(encoded, st.transportSequence);
    (st.(transportSequence := NextSequence(st.transportSequence, |segments|)),
     BuildFrames(if toolStyle then MasterToOutstation else OutstationToMaster, destination, address, segments))
  }

  function HandleUserData(address: u16, st: State, frame: LinkFrame): (State, Reply) {
    match DecodeSegment(frame.payload)
    case Err(e) => (st, Err(e))
    case Ok(segment) =>
      var (pushed, complete) := Push(st.reassembler, segment);
      var next := st.(reassembler := pushed);
      match complete
      case Err(e) => (next, Err(e))
      case Ok(None) => (next, Ok([]))
      case Ok(Some(bytes)) =>
        match Respond(st.database, bytes)
        case Err(e) => (next, Err(e))
        case Ok(encoded) =>
          SendResponse(address, next, frame.source, encoded, frame.control.direction.OutstationToMaster?)
  }

  function HandleFrame(address: u16, st: State, frame: LinkFrame): (State, Reply) {
    if frame.destination != address then (st, Ok([]))
    else
      match frame.control.func
      case Primary(ResetLinkStates) =>
        var direction := if frame.control.direction.OutstationToMaster? then MasterToOutstation else OutstationToMaster;
        (Start(st.database), Ok([AckFrame(direction, frame.source, address, false)]))
      case Primary(TestLinkStates) =>
        (st, Ok([AckFrame(MasterToOutstation, frame.source, address, frame.control.fcb)]))
      case Primary(RequestLinkStatus) =>
        (st, Ok([LinkStatusFrame(frame.source, address)]))
      case Primary(UnconfirmedUserData) =>
        HandleUserData(address, st, frame)
      case Primary(ConfirmedUserData) =>
        var (next, reply) := HandleUserData(address, st, frame);
        var ack := AckFrame(OutstationToMaster, frame.source, address, frame.control.fcb);
        (next, if reply.Ok? then Ok([ack] + reply.value) else reply)
      case _ => (st, Ok([]))
  }

  class OutstationSession {
    const address: u16
    var database: Database
    var transportSequence: u8
    const reassembler: Reassembler

    ghost function Current(): State
      reads this, reassembler
    {
      State(database, transportSequence, reassembler.State())
    }

    constructor (address: u16, db: Database)
      ensures this.address == address && Current() == Start(db) && fresh(reassembler)
    {
      this.address := address;
      database := db;
      transportSequence := 0;
      reassembler := new Reassembler();
    }

    method Handle(frame: LinkFrame) returns (r: Reply)
      modifies this, reassembler
      ensures (Current(), r) == HandleFrame(address, old(Current()), frame)
    {
      hide Push, BuildFrames, Fragment, Respond, DecodeSegment, NextSequence;
      if frame.destination != address {
        return Ok([]);
      }
      match frame.control.func {
        case Primary(ResetLinkStates) =>
          reassembler.Reset();
          transportSequence := 0;
          var ack := if frame.control.direction == OutstationToMaster
            then AckFrame(MasterToOutstation, frame.source, address, false)
            else AckFrame(OutstationToMaster, frame.source, address, false);
          return Ok([ack]);
        case Primary(TestLinkStates) =>
          return Ok([AckFrame(MasterToOutstation, frame.source, address, frame.control.fcb)]);
        case Primary(RequestLinkStatus) =>
          return Ok([LinkStatusFrame(frame.source, address)]);
        case Primary(UnconfirmedUserData) =>
          r := HandleData(frame);
        case Primary(ConfirmedUserData) =>
          var responses := [AckFrame(OutstationToMaster, frame.source, address, frame.control.fcb)];
          var more :- HandleData(frame);
          return Ok(responses + more);
        case _ =>
          return Ok([]);
      }
    }

    method HandleData(frame: LinkFrame) returns (r: Reply)
      modifies this, reassembler
      ensures (Current(), r) == HandleUserData(address, old(Current()), frame)
    {
      hide Push, BuildFrames, Fragment, DecodeSegment, NextSequence, App.DecodeFragment, App.EncodeFragment, HandleApplication;
      var toolStyle := frame.control.direction == OutstationToMaster;
      var segment :- DecodeSegment(frame.payload);
      var complete :- reassembler.PushSegment(segment);
      if complete.None? {
        return Ok([]);
      }
      var request :- AppDecoder.ReadFragment(complete.value);
      var response :- Answer(request);
      r := SendEncoded(frame.source, response, toolStyle);
    }

    method Answer(request: App.ApplicationFragment) returns (r: Outcome<App.ApplicationFragment>)
      ensures r == HandleApplication(database, request)
    {
      var sequence := request.control.sequence;
      match request.func {
        case Read =>
          var includeStatic := exists o :: o in request.objects && AsksForStatic(o);
          var objects := [];
          if includeStatic {
            objects := CollectObjects();
          }
          return Ok(MakeResponse(sequence, objects));
        case RecordCurrentTime =>
          return Ok(MakeResponse(sequence, []));
        case Write =>
          return Ok(MakeResponse(sequence, []));
        case other =>
          return Err(UnknownValue("unsupported outstation function", App.EncodeFunction(other)));
      }
    }

    method CollectObjects() returns (objects: seq<App.AppObject>)
      ensures objects == IntegrityObjects(database)
    {
      objects := [];
      if database.binaryInputs != [] {
        objects := objects + [App.BinaryInputs(database.binaryInputs)];
      }
      if database.binaryOutputs != [] {
        objects := objects + [App.BinaryOutputs(database.binaryOutputs)];
      }
      if database.analogInputs != [] {
        objects := objects + [App.AnalogInputs(database.analogInputs)];
      }
      if database.analogOutputs != [] {
        objects := objects + [App.AnalogOutputs(database.analogOutputs)];
      }
      if database.counters != [] {
        objects := objects + [App.Counters(database.counters)];
      }
    }

    method SendEncoded(destination: u16, response: App.ApplicationFragment, toolStyle: bool) returns (r: Reply)
      modifies this`transportSequence
      ensures match App.EncodeFragment(response)
        case Err(e) => r == Err(e) && transportSequence == old(transportSequence)
        case Ok(encoded) => (Current(), r) == SendResponse(address, old(Current()), destination, encoded, toolStyle)
    {
      hide BuildFrames, Fragment, NextSequence, App.EncodeFragment;
      var encoded :- AppEncoder.WriteFragment(response);
      var segments := Fragment(encoded, transportSequence);
      transportSequence := NextSequence(transportSequence, |segments|);
      if toolStyle {
        r := MakeFrames(MasterToOutstation, destination, address, segments);
      } else {
        r := MakeFrames(OutstationToMaster, destination, address, segments);
      }
    }
  }
}
