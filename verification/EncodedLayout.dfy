/** The bytes of an encoded fragment, position by position and in plain numbers. */
module EncodedLayout {
  import opened Primitives
  import opened App
  import AppRoundTrip

  // Point lists.

  /** Where record k of a range starts: one flags byte, and four value bytes unless the points are binary. */
  function RangeAt(valued: bool, k: nat): nat { if valued then 5 * k else k }

  /** The same with two index bytes in front of each record. */
  function PrefixedAt(valued: bool, k: nat): nat { if valued then 7 * k else 3 * k }

  predicate RangeRecord(valued: bool, p: Point, r: Bytes) {
    && |r| == RangeAt(valued, 1)
    && r[0] == p.flags
    && (valued ==> LongWord(r[1], r[2], r[3], r[4]) == if p.value < 0 then p.value + 4294967296 else p.value)
  }

  predicate PrefixedRecord(valued: bool, p: Point, r: Bytes) {
    |r| == PrefixedAt(valued, 1) && Word(r[0], r[1]) == p.index && RangeRecord(valued, p, r[2..])
  }

  lemma WordOfBytes(v: u16)
    ensures var r := U16Bytes(v); |r| == 2 && Word(r[0], r[1]) == v
  {
  }

  lemma LongWordOfBytes(v: u32)
    ensures var r := U32Bytes(v); |r| == 4 && LongWord(r[0], r[1], r[2], r[3]) == v
  {
    U32RoundTrip(v, []);
    assert U32Bytes(v) + [] == U32Bytes(v);
  }

  lemma BodyIsRecord(kind: Kind, p: Point)
    requires Fits(kind, p)
    ensures RangeRecord(!kind.Binary?, p, PointBody(kind, p))
    ensures PrefixedRecord(!kind.Binary?, p, U16Bytes(p.index) + PointBody(kind, p))
  {
    hide U16Bytes, U32Bytes, Word, LongWord;
    var body := PointBody(kind, p);
    WordOfBytes(p.index);
    match kind
    case Binary =>
    case Analog => LongWordOfBytes(TwosComplement(p.value));
    case Counter => LongWordOfBytes(p.value);
    assert (U16Bytes(p.index) + body)[2..] == body;
  }

  /** Record k of a body is point k. */
  lemma {:induction false} BodiesRecord(kind: Kind, ps: seq<Point>, k: nat)
    requires AllFit(kind, ps) && k < |ps|
    ensures var valued, b := !kind.Binary?, Bodies(kind, ps);
      RangeAt(valued, k + 1) <= |b| && RangeRecord(valued, ps[k], b[RangeAt(valued, k)..RangeAt(valued, k + 1)])
    decreases |ps|
  {
    hide PointBody, RangeRecord, PrefixedRecord;
    var valued, body, b := !kind.Binary?, PointBody(kind, ps[0]), Bodies(kind, ps);
    BodyIsRecord(kind, ps[0]);
    RecordLength(valued, ps[0], body);
    assert b == body + Bodies(kind, ps[1..]);
    if k == 0 {
      assert b[..|body|] == body;
    } else {
      BodiesRecord(kind, ps[1..], k - 1);
      assert b[|body|..] == Bodies(kind, ps[1..]);
      assert b[|body|..][RangeAt(valued, k - 1)..RangeAt(valued, k)] == b[RangeAt(valued, k)..RangeAt(valued, k + 1)];
    }
  }

  lemma RecordLength(valued: bool, p: Point, r: Bytes)
    ensures RangeRecord(valued, p, r) ==> |r| == RangeAt(valued, 1)
    ensures PrefixedRecord(valued, p, r) ==> |r| == PrefixedAt(valued, 1)
  {
  }

  lemma {:induction false} BodiesLength(kind: Kind, ps: seq<Point>)
    requires AllFit(kind, ps)
    ensures |Bodies(kind, ps)| == RangeAt(!kind.Binary?, |ps|)
    ensures |PrefixedBodies(kind, ps)| == PrefixedAt(!kind.Binary?, |ps|)
    decreases |ps|
  {
    hide PointBody, RangeRecord, PrefixedRecord, U16Bytes;
    if ps != [] {
      BodyIsRecord(kind, ps[0]);
      RecordLength(!kind.Binary?, ps[0], PointBody(kind, ps[0]));
      RecordLength(!kind.Binary?, ps[0], U16Bytes(ps[0].index) + PointBody(kind, ps[0]));
      BodiesLength(kind, ps[1..]);
    }
  }

  lemma {:induction false} PrefixedBodiesRecord(kind: Kind, ps: seq<Point>, k: nat)
    requires AllFit(kind, ps) && k < |ps|
    ensures var valued, b := !kind.Binary?, PrefixedBodies(kind, ps);
      PrefixedAt(valued, k + 1) <= |b| && PrefixedRecord(valued, ps[k], b[PrefixedAt(valued, k)..PrefixedAt(valued, k + 1)])
    decreases |ps|
  {
    hide PointBody, RangeRecord, PrefixedRecord, U16Bytes;
    var valued, b := !kind.Binary?, PrefixedBodies(kind, ps);
    var body := U16Bytes(ps[0].index) + PointBody(kind, ps[0]);
    BodyIsRecord(kind, ps[0]);
    RecordLength(valued, ps[0], body);
    assert b == body + PrefixedBodies(kind, ps[1..]);
    if k == 0 {
      assert b[..|body|] == body;
    } else {
      PrefixedBodiesRecord(kind, ps[1..], k - 1);
      assert b[|body|..] == PrefixedBodies(kind, ps[1..]);
      assert b[|body|..][PrefixedAt(valued, k - 1)..PrefixedAt(valued, k)] == b[PrefixedAt(valued, k)..PrefixedAt(valued, k + 1)];
    }
  }

  /** Do the indices count up by one, past 65535 starting over? */
  predicate CountsUp(ps: seq<Point>) {
    ps != [] && forall k :: 0 <= k < |ps| ==> ps[k].index == (ps[0].index + k) % 65536
  }

  /** Qualifier 0x01 with first and last index, then one record a point. */
  predicate RangeForm(valued: bool, ps: seq<Point>, b: Bytes) {
    && ps != [] && |b| == 7 + RangeAt(valued, |ps|) && b[2] == 0x01
    && Word(b[3], b[4]) == ps[0].index && Word(b[5], b[6]) == ps[|ps| - 1].index
    && forall k :: 0 <= k < |ps| ==> RangeRecord(valued, ps[k], b[7 + RangeAt(valued, k)..7 + RangeAt(valued, k + 1)])
  }

  /** Qualifier 0x28 with the count, then index and record of each point. */
  predicate PrefixedForm(valued: bool, ps: seq<Point>, b: Bytes) {
    && |b| == 4 + PrefixedAt(valued, |ps|) && b[2] == 0x28 && b[3] == |ps|
    && forall k :: 0 <= k < |ps| ==> PrefixedRecord(valued, ps[k], b[4 + PrefixedAt(valued, k)..4 + PrefixedAt(valued, k + 1)])
  }

  lemma RangeHeader(group: u8, variation: u8, start: u16, stop: u16)
    ensures var h := EncodeHeader(ObjectHeader(group, variation, Range16(start, stop)));
      && |h| == 7 && h[0] == group && h[1] == variation && h[2] == 0x01 && Word(h[3], h[4]) == start && Word(h[5], h[6]) == stop
  {
  }

  lemma RangeLayout(kind: Kind, group: u8, variation: u8, ps: seq<Point>)
    requires AllFit(kind, ps) && CountsUp(ps)
    ensures var b := EncodePoints(kind, group, variation, ps);
      b.Ok? && |b.value| >= 7 && b.value[0] == group && b.value[1] == variation && RangeForm(!kind.Binary?, ps, b.value)
  {
    hide EncodeHeader, Bodies, PrefixedBodies, RangeRecord, Word;
    var valued := !kind.Binary?;
    assert Consecutive(ps);
    var h := EncodeHeader(ObjectHeader(group, variation, Range16(ps[0].index, ps[|ps| - 1].index)));
    var b, bodies := EncodePoints(kind, group, variation, ps).value, Bodies(kind, ps);
    RangeHeader(group, variation, ps[0].index, ps[|ps| - 1].index);
    BodiesLength(kind, ps);
    assert b == h + bodies;
    forall k | 0 <= k < |ps|
      ensures RangeRecord(valued, ps[k], b[7 + RangeAt(valued, k)..7 + RangeAt(valued, k + 1)])
    {
      BodiesRecord(kind, ps, k);
      assert b[7 + RangeAt(valued, k)..7 + RangeAt(valued, k + 1)] == bodies[RangeAt(valued, k)..RangeAt(valued, k + 1)];
    }
  }

  lemma PrefixedLayout(kind: Kind, group: u8, variation: u8, ps: seq<Point>)
    requires AllFit(kind, ps) && !CountsUp(ps)
    ensures var b := EncodePoints(kind, group, variation, ps);
      if |ps| > 255 then b == Err(InvalidLength(255, |ps|))
      else b.Ok? && |b.value| >= 4 && b.value[0] == group && b.value[1] == variation && PrefixedForm(!kind.Binary?, ps, b.value)
  {
    hide Bodies, PrefixedBodies, PrefixedRecord;
    var valued := !kind.Binary?;
    assert ps == [] || !Consecutive(ps);
    if |ps| <= 255 {
      var h := EncodeHeader(ObjectHeader(group, variation, CountAndPrefix16(|ps|)));
      var b, bodies := EncodePoints(kind, group, variation, ps).value, PrefixedBodies(kind, ps);
      assert h == [group, variation, 0x28, |ps|];
      BodiesLength(kind, ps);
      assert b == h + bodies;
      forall k | 0 <= k < |ps|
        ensures PrefixedRecord(valued, ps[k], b[4 + PrefixedAt(valued, k)..4 + PrefixedAt(valued, k + 1)])
      {
        PrefixedBodiesRecord(kind, ps, k);
        assert b[4 + PrefixedAt(valued, k)..4 + PrefixedAt(valued, k + 1)] == bodies[PrefixedAt(valued, k)..PrefixedAt(valued, k + 1)];
      }
    }
  }

  // Objects.

  /** The points of an object that is a point list. */
  function PointsIn(o: AppObject): seq<Point> {
    match o
    case BinaryInputs(ps) => ps
    case BinaryOutputs(ps) => ps
    case AnalogInputs(ps) => ps
    case AnalogOutputs(ps) => ps
    case Counters(ps) => ps
    case DoubleBitBinaryInputs(ps) => ps
    case _ => []
  }

  predicate IsPointList(o: AppObject) { !o.Time? && !o.ClassScan? && !o.IntegrityPoll? }

  predicate HasValues(o: AppObject) { o.AnalogInputs? || o.AnalogOutputs? || o.Counters? }

  /** The first two bytes of every object. */
  function GroupAndVariation(o: AppObject): (nat, nat) {
    match o
    case BinaryInputs(_) => (1, 2)
    case DoubleBitBinaryInputs(_) => (3, 2)
    case BinaryOutputs(_) => (10, 2)
    case Counters(_) => (20, 1)
    case AnalogInputs(_) => (30, 1)
    case AnalogOutputs(_) => (40, 1)
    case Time(_) => (50, 1)
    case IntegrityPoll => (60, 1)
    case ClassScan(Class0) => (60, 1)
    case ClassScan(Class1) => (60, 2)
    case ClassScan(Class2) => (60, 3)
    case ClassScan(Class3) => (60, 4)
  }

  /** A point list of more than 255 points is an error unless its indices count up; everything else has this layout. */
  lemma ObjectLayout(o: AppObject)
    ensures var e := EncodeObject(o);
      var ps := PointsIn(o);
      if IsPointList(o) && !CountsUp(ps) && |ps| > 255 then e == Err(InvalidLength(255, |ps|))
      else
        && e.Ok? && |e.value| >= 3
        && (e.value[0] as nat, e.value[1] as nat) == GroupAndVariation(o)
        && (IsPointList(o) ==> if CountsUp(ps) then RangeForm(HasValues(o), ps, e.value) else PrefixedForm(HasValues(o), ps, e.value))
        && (o.ClassScan? || o.IntegrityPoll? ==> e.value[2..] == [0x06])
        && (o.Time? ==>
              && |e.value| == 10 && e.value[2..4] == [0x07, 0x01]
              && LongWord(e.value[4], e.value[5], e.value[6], e.value[7]) + 4294967296 * Word(e.value[8], e.value[9]) == o.time)
  {
    hide EncodePoints, RangeForm, PrefixedForm, CountsUp;
    match o
    case BinaryInputs(ps) => PointsLayout(Binary, 1, 2, ps);
    case DoubleBitBinaryInputs(ps) => PointsLayout(Binary, 3, 2, ps);
    case BinaryOutputs(ps) => PointsLayout(Binary, 10, 2, ps);
    case AnalogInputs(ps) => PointsLayout(Analog, 30, 1, ps);
    case AnalogOutputs(ps) => PointsLayout(Analog, 40, 1, ps);
    case Counters(ps) => PointsLayout(Counter, 20, 1, ps);
    case Time(t) => TimeLayout(t);
    case _ =>
  }

  lemma PointsLayout(kind: Kind, group: u8, variation: u8, ps: seq<Point>)
    requires AllFit(kind, ps)
    ensures var b := EncodePoints(kind, group, variation, ps);
      if !CountsUp(ps) && |ps| > 255 then b == Err(InvalidLength(255, |ps|))
      else
        && b.Ok? && |b.value| >= 3 && b.value[0] == group && b.value[1] == variation
        && if CountsUp(ps) then RangeForm(!kind.Binary?, ps, b.value) else PrefixedForm(!kind.Binary?, ps, b.value)
  {
    hide EncodePoints, RangeForm, PrefixedForm, CountsUp;
    if CountsUp(ps) {
      RangeLayout(kind, group, variation, ps);
    } else {
      PrefixedLayout(kind, group, variation, ps);
    }
  }

  lemma TimeLayout(t: Timestamp)
    ensures var b := EncodeHeader(ObjectHeader(50, 1, Count8(1))) + TimestampBytes(t);
      && |b| == 10 && b[..4] == [50, 1, 0x07, 0x01]
      && LongWord(b[4], b[5], b[6], b[7]) + 4294967296 * Word(b[8], b[9]) == t
  {
    hide U16Bytes, U32Bytes, LongWord, Word;
    LongWordOfBytes(t % 0x1_0000_0000);
    WordOfBytes(t / 0x1_0000_0000);
  }

  // Fragments.

  function FunctionNumber(f: FunctionCode): nat {
    match f
    case Confirm => 0
    case Read => 1
    case Write => 2
    case Select => 3
    case Operate => 4
    case DirectOperate => 5
    case Freeze => 7
    case EnableUnsolicited => 20
    case DisableUnsolicited => 21
    case AssignClass => 22
    case DelayMeasure => 23
    case RecordCurrentTime => 24
    case Response => 129
    case UnsolicitedResponse => 130
  }

  /** Control bits 128, 64, 32, 16 and a number below, the function number, the indications of a response low byte first. */
  lemma FragmentHeaderLayout(f: ApplicationFragment)
    ensures var h, response := FragmentHeader(f), FunctionNumber(f.func) >= 129;
      && |h| == (if response then 4 else 2)
      && (h[0] / 128 == 1 <==> f.control.fir) && (h[0] / 64 % 2 == 1 <==> f.control.fin)
      && (h[0] / 32 % 2 == 1 <==> f.control.con) && (h[0] / 16 % 2 == 1 <==> f.control.uns)
      && h[0] % 16 == f.control.sequence % 16
      && h[1] as nat == FunctionNumber(f.func)
      && (response ==> Word(h[2], h[3]) == f.iin)
  {
    hide U16Bytes;
    WordOfBytes(f.iin);
    ControlLayout(f.control);
  }

  lemma ControlLayout(c: AppControl)
    ensures var b := EncodeControl(c);
      && (b / 128 == 1 <==> c.fir) && (b / 64 % 2 == 1 <==> c.fin) && (b / 32 % 2 == 1 <==> c.con) && (b / 16 % 2 == 1 <==> c.uns)
      && b % 16 == c.sequence % 16
  {
    var high := (if c.fir then 8 else 0) + (if c.fin then 4 else 0) + (if c.con then 2 else 0) + (if c.uns then 1 else 0);
    AppRoundTrip.Nibbles(EncodeControl(c), high, c.sequence % 0x10);
  }

  /** Object i of an encoded fragment follows the encodings of the objects before it. */
  lemma {:induction false} ObjectsConcat(a: seq<AppObject>, o: AppObject, b: seq<AppObject>)
    requires EncodeObjects(a + [o] + b).Ok?
    ensures EncodeObjects(a).Ok? && EncodeObject(o).Ok? && EncodeObjects(b).Ok?
    ensures EncodeObjects(a + [o] + b).value == EncodeObjects(a).value + EncodeObject(o).value + EncodeObjects(b).value
    decreases |a|
  {
    hide EncodeObject;
    var all := a + [o] + b;
    if a == [] {
      assert all[0] == o && all[1..] == b;
      assert [] + EncodeObject(o).value == EncodeObject(o).value;
    } else {
      assert all[1..] == a[1..] + [o] + b;
      ObjectsConcat(a[1..], o, b);
    }
  }

  /** A fragment is its header and its objects, each where the ones before it end. */
  lemma FragmentLayout(f: ApplicationFragment, i: nat)
    requires EncodeFragment(f).Ok? && i < |f.objects|
    ensures var b, h := EncodeFragment(f).value, FragmentHeader(f);
      var before, e := EncodeObjects(f.objects[..i]), EncodeObject(f.objects[i]);
      && before.Ok? && e.Ok? && h <= b
      && |h| + |before.value| + |e.value| <= |b|
      && b[|h| + |before.value|..|h| + |before.value| + |e.value|] == e.value
  {
    hide EncodeObject, EncodeObjects, FragmentHeader;
    assert f.objects == f.objects[..i] + [f.objects[i]] + f.objects[i + 1..];
    ObjectsConcat(f.objects[..i], f.objects[i], f.objects[i + 1..]);
    var h, x, e, y := FragmentHeader(f), EncodeObjects(f.objects[..i]).value, EncodeObject(f.objects[i]).value, EncodeObjects(f.objects[i + 1..]).value;
    assert EncodeFragment(f).value == h + (x + e + y);
  }
}
