/** Decoding an encoded fragment gives the fragment back, up to a normal form. */
module AppRoundTrip {
  import opened Primitives
  import opened App

  // Control, function code and header.

  lemma Nibbles(v: u8, q: nat, s: nat)
    requires v == 0x10 * q + s && s < 0x10
    ensures v / 0x80 == q / 8 && v / 0x40 == q / 4 && v / 0x20 == q / 2 && v / 0x10 == q && v % 0x10 == s
  {
    assert v / 0x10 == q;
  }

  lemma ControlRoundTrip(c: AppControl)
    ensures DecodeControl(EncodeControl(c)) == c.(sequence := c.sequence % 0x10)
  {
    var high := (if c.fir then 8 else 0) + (if c.fin then 4 else 0) + (if c.con then 2 else 0) + (if c.uns then 1 else 0);
    Nibbles(EncodeControl(c), high, c.sequence % 0x10);
  }

  lemma FunctionRoundTrip(f: FunctionCode)
    ensures DecodeFunction(EncodeFunction(f)) == Ok(f)
  {
  }

  lemma QualifierRoundTrip(q: Qualifier, rest: Bytes)
    ensures DecodeQualifier(QualifierCode(q), QualifierBody(q) + rest) == Ok((q, rest))
  {
    hide U16At, U16Bytes, U32At, U32Bytes;
    match q
    case Range16(start, stop) =>
      var s := QualifierBody(q) + rest;
      LengthsOfIntegers(start, 0);
      LengthsOfIntegers(stop, 0);
      assert s == U16Bytes(start) + (U16Bytes(stop) + rest) && s[2..] == U16Bytes(stop) + rest && s[4..] == rest;
      U16RoundTrip(start, U16Bytes(stop) + rest);
      U16RoundTrip(stop, rest);
    case Count16(n) =>
      LengthsOfIntegers(n, 0);
      U16RoundTrip(n, rest);
    case Indexed32(i) =>
      LengthsOfIntegers(0, i);
      U32RoundTrip(i, rest);
    case _ =>
      assert (QualifierBody(q) + rest)[|QualifierBody(q)|..] == rest;
  }

  lemma LengthsOfIntegers(v: u16, w: u32)
    ensures |U16Bytes(v)| == 2 && |U32Bytes(w)| == 4
  {
  }

  lemma HeaderRoundTrip(h: ObjectHeader, rest: Bytes)
    ensures DecodeHeader(EncodeHeader(h) + rest) == Ok((h, rest))
  {
    hide DecodeQualifier, QualifierCode, QualifierBody;
    var s := EncodeHeader(h) + rest;
    assert s[3..] == QualifierBody(h.qualifier) + rest;
    QualifierRoundTrip(h.qualifier, rest);
  }

  // Point lists.

  /** The variations the encoder writes carry four-byte values. */
  predicate Wide(kind: Kind, variation: u8) { kind.Analog? ==> variation != 2 }

  lemma PointRoundTrip(kind: Kind, variation: u8, source: IndexSource, p: Point, prefix: Bytes, rest: Bytes)
    requires Fits(kind, p) && Wide(kind, variation) && |prefix| == PrefixSize(source)
    requires IndexFrom(source, prefix + PointBody(kind, p) + rest) == p.index
    ensures ReadPoint(PointFormat(kind, variation, 0), source, prefix + PointBody(kind, p) + rest) == Ok((p, rest))
  {
    hide U32Bytes, U32At, SignedAt, IndexFrom;
    var n, body := |prefix|, PointBody(kind, p);
    var s := prefix + body + rest;
    assert s[n] == p.flags && s[n + 1..] == ValueBytes(kind, p) + rest && s[n + |body|..] == rest;
    match kind
    case Binary =>
    case Analog =>
      LengthsOfIntegers(0, TwosComplement(p.value));
      I32RoundTrip(p.value, rest);
    case Counter =>
      LengthsOfIntegers(0, p.value);
      U32RoundTrip(p.value, rest);
  }

  lemma ReadPointsCons(fmt: PointFormat, source: IndexSource, p: Point, ps: seq<Point>, s: Bytes, tail: Bytes, rest: Bytes)
    requires ReadPoint(fmt, source, s) == Ok((p, tail))
    requires ReadPoints(fmt, Advance(source), |ps|, tail) == Ok((ps, rest))
    ensures ReadPoints(fmt, source, |ps| + 1, s) == Ok(([p] + ps, rest))
  {
    hide ReadPoint, Advance;
  }

  lemma {:induction false} BodiesRoundTrip(kind: Kind, variation: u8, start: nat, ps: seq<Point>, rest: Bytes)
    requires AllFit(kind, ps) && Wide(kind, variation) && start + |ps| <= 0x1_0000
    requires forall k :: 0 <= k < |ps| ==> ps[k].index == start + k
    ensures ReadPoints(PointFormat(kind, variation, 0), Counting(start), |ps|, Bodies(kind, ps) + rest) == Ok((ps, rest))
    decreases |ps|
  {
    hide ReadPoint, PointBody;
    if ps == [] {
      assert Bodies(kind, ps) + rest == rest;
    } else {
      hide ReadPoints;
      var s, tail := Bodies(kind, ps) + rest, Bodies(kind, ps[1..]) + rest;
      assert s == [] + PointBody(kind, ps[0]) + tail;
      PointRoundTrip(kind, variation, Counting(start), ps[0], [], tail);
      BodiesRoundTrip(kind, variation, start + 1, ps[1..], rest);
      ReadPointsCons(PointFormat(kind, variation, 0), Counting(start), ps[0], ps[1..], s, tail, rest);
      assert ps == [ps[0]] + ps[1..];
    }
  }

  lemma PrefixedPointRoundTrip(kind: Kind, variation: u8, p: Point, rest: Bytes)
    requires Fits(kind, p) && Wide(kind, variation)
    ensures ReadPoint(PointFormat(kind, variation, 0), Prefix16, U16Bytes(p.index) + PointBody(kind, p) + rest) == Ok((p, rest))
  {
    hide ReadPoint, PointBody, U16Bytes, U16At;
    var i, body := U16Bytes(p.index), PointBody(kind, p);
    LengthsOfIntegers(p.index, 0);
    ConcatAssociative(i, body, rest);
    U16RoundTrip(p.index, body + rest);
    PointRoundTrip(kind, variation, Prefix16, p, i, rest);
  }

  lemma PrefixedBodiesCons(kind: Kind, ps: seq<Point>, rest: Bytes)
    requires AllFit(kind, ps) && ps != []
    ensures Fits(kind, ps[0]) && AllFit(kind, ps[1..])
    ensures PrefixedBodies(kind, ps) + rest ==
      U16Bytes(ps[0].index) + PointBody(kind, ps[0]) + (PrefixedBodies(kind, ps[1..]) + rest)
  {
    hide PointBody, U16Bytes, Fits;
    ConcatAssociative(U16Bytes(ps[0].index) + PointBody(kind, ps[0]), PrefixedBodies(kind, ps[1..]), rest);
  }

  lemma {:induction false} PrefixedRoundTrip(kind: Kind, variation: u8, ps: seq<Point>, rest: Bytes)
    requires AllFit(kind, ps) && Wide(kind, variation)
    ensures ReadPoints(PointFormat(kind, variation, 0), Prefix16, |ps|, PrefixedBodies(kind, ps) + rest) == Ok((ps, rest))
    decreases |ps|
  {
    hide *;
    if ps == [] {
      PrefixedNothing(kind, PointFormat(kind, variation, 0), rest);
    } else {
      PrefixedBodiesCons(kind, ps, rest);
      var tail := PrefixedBodies(kind, ps[1..]) + rest;
      PrefixedPointRoundTrip(kind, variation, ps[0], tail);
      PrefixedRoundTrip(kind, variation, ps[1..], rest);
      assert Advance(Prefix16) == Prefix16 by { NoAdvance(); }
      ReadPointsCons(PointFormat(kind, variation, 0), Prefix16, ps[0], ps[1..], PrefixedBodies(kind, ps) + rest, tail, rest);
      assert ps == [ps[0]] + ps[1..];
    }
  }

  lemma PrefixedNothing(kind: Kind, fmt: PointFormat, rest: Bytes)
    ensures PrefixedBodies(kind, []) + rest == rest
    ensures ReadPoints(fmt, Prefix16, 0, rest) == Ok(([], rest))
  {
  }

  lemma NoAdvance()
    ensures Advance(Prefix16) == Prefix16
  {
  }

  lemma PointsHeader(kind: Kind, group: u8, variation: u8, ps: seq<Point>, rest: Bytes) returns (q: Qualifier, body: Bytes)
    requires AllFit(kind, ps) && EncodePoints(kind, group, variation, ps).Ok?
    ensures DecodeHeader(EncodePoints(kind, group, variation, ps).value + rest) == Ok((ObjectHeader(group, variation, q), body))
    ensures match ContiguousRange(ps)
      case Some((start, stop)) => q == Range16(start, stop) && body == Bodies(kind, ps) + rest
      case None => |ps| <= 0xff && q == CountAndPrefix16(|ps|) && body == PrefixedBodies(kind, ps) + rest
  {
    hide DecodeHeader, EncodeHeader, Bodies, PrefixedBodies, ContiguousRange;
    var bodies: Bytes;
    match ContiguousRange(ps) {
      case Some((start, stop)) =>
        q := Range16(start, stop);
        bodies := Bodies(kind, ps);
      case None =>
        q := CountAndPrefix16(|ps|);
        bodies := PrefixedBodies(kind, ps);
    }
    body := bodies + rest;
    ConcatAssociative(EncodeHeader(ObjectHeader(group, variation, q)), bodies, rest);
    HeaderRoundTrip(ObjectHeader(group, variation, q), body);
  }

  /** A list comes back from its encoding exactly when it is not a run past index 65535. */
  lemma PointsRoundTrip(kind: Kind, group: u8, variation: u8, ps: seq<Point>, rest: Bytes) returns (q: Qualifier, body: Bytes)
    requires AllFit(kind, ps) && Wide(kind, variation) && EventSuffix(group, variation) == 0
    requires EncodePoints(kind, group, variation, ps).Ok?
    ensures DecodeHeader(EncodePoints(kind, group, variation, ps).value + rest) == Ok((ObjectHeader(group, variation, q), body))
    ensures if Wraps(ps)
      then DecodePoints(kind, group, variation, q, body).Ok? ==> |DecodePoints(kind, group, variation, q, body).value.0| != |ps|
      else DecodePoints(kind, group, variation, q, body) == Ok((ps, rest))
  {
    hide DecodeHeader, EncodeHeader, Bodies, PrefixedBodies, ReadPoints, EncodePoints;
    q, body := PointsHeader(kind, group, variation, ps, rest);
    if ContiguousRange(ps).Some? {
      var start, n := ps[0].index, |ps|;
      assert q.stop == (start + (n - 1)) % 0x1_0000;
      if !Wraps(ps) {
        BodiesRoundTrip(kind, variation, start, ps, rest);
      }
    } else {
      PrefixedRoundTrip(kind, variation, ps, rest);
    }
  }

  // Objects.

  /** Is the object a point list that runs past index 65535? */
  predicate ObjectWraps(o: AppObject) {
    match o
    case BinaryInputs(ps) => Wraps(ps)
    case BinaryOutputs(ps) => Wraps(ps)
    case AnalogInputs(ps) => Wraps(ps)
    case AnalogOutputs(ps) => Wraps(ps)
    case Counters(ps) => Wraps(ps)
    case DoubleBitBinaryInputs(ps) => Wraps(ps)
    case _ => false
  }

  predicate NoneWraps(objects: seq<AppObject>) { forall o :: o in objects ==> !ObjectWraps(o) }

  /** A class 0 scan and an integrity poll look the same on the wire. */
  function NormalObject(o: AppObject): AppObject {
    if o == ClassScan(Class0) then IntegrityPoll else o
  }

  function NormalObjects(objects: seq<AppObject>): seq<AppObject> {
    if objects == [] then [] else [NormalObject(objects[0])] + NormalObjects(objects[1..])
  }

  function ObjectDecoded(s: Bytes): Outcome<(AppObject, Bytes)> {
    var (h, body) :- DecodeHeader(s);
    DecodeObject(h, body)
  }

  lemma EncodePointsStart(kind: Kind, group: u8, variation: u8, ps: seq<Point>)
    requires AllFit(kind, ps) && EncodePoints(kind, group, variation, ps).Ok?
    ensures var b := EncodePoints(kind, group, variation, ps).value; |b| >= 3 && b[0] == group
  {
    hide Bodies, PrefixedBodies, QualifierBody, ContiguousRange;
  }

  lemma EncodeObjectStart(o: AppObject)
    requires EncodeObject(o).Ok?
    ensures |EncodeObject(o).value| >= 3 && EncodeObject(o).value[0] != 0
  {
    hide EncodePoints;
    match o
    case BinaryInputs(ps) => EncodePointsStart(Binary, 1, 2, ps);
    case DoubleBitBinaryInputs(ps) => EncodePointsStart(Binary, 3, 2, ps);
    case BinaryOutputs(ps) => EncodePointsStart(Binary, 10, 2, ps);
    case AnalogInputs(ps) => EncodePointsStart(Analog, 30, 1, ps);
    case AnalogOutputs(ps) => EncodePointsStart(Analog, 40, 1, ps);
    case Counters(ps) => EncodePointsStart(Counter, 20, 1, ps);
    case _ =>
  }

  /** An object comes back from its encoding exactly when it is not a wrapping list. */
  lemma ObjectRoundTrip(o: AppObject, rest: Bytes)
    requires EncodeObject(o).Ok?
    ensures var r := ObjectDecoded(EncodeObject(o).value + rest);
      if ObjectWraps(o) then r.Ok? ==> r.value.0 != NormalObject(o) else r == Ok((NormalObject(o), rest))
  {
    hide EncodePoints, DecodePoints, DecodeHeader, EncodeHeader, Wraps, TimestampBytes, TimestampAt;
    match o
    case BinaryInputs(ps) => var q, body := PointsRoundTrip(Binary, 1, 2, ps, rest);
    case DoubleBitBinaryInputs(ps) => var q, body := PointsRoundTrip(Binary, 3, 2, ps, rest);
    case BinaryOutputs(ps) =>
      var q, body := PointsRoundTrip(Binary, 10, 2, ps, rest);
      assert DecodePoints(Binary, 10, 2, q, body) == DecodePoints(Binary, 1, 2, q, body) by { SameSuffix(q, body); }
    case AnalogInputs(ps) => var q, body := PointsRoundTrip(Analog, 30, 1, ps, rest);
    case AnalogOutputs(ps) => var q, body := PointsRoundTrip(Analog, 40, 1, ps, rest);
    case Counters(ps) => var q, body := PointsRoundTrip(Counter, 20, 1, ps, rest);
    case Time(t) => TimeRoundTrip(t, rest);
    case ClassScan(c) =>
      HeaderRoundTrip(ObjectHeader(60, ClassVariation(c), AllObjects), rest);
    case IntegrityPoll =>
      HeaderRoundTrip(ObjectHeader(60, 1, AllObjects), rest);
  }

  lemma SameSuffix(q: Qualifier, s: Bytes)
    ensures DecodePoints(Binary, 10, 2, q, s) == DecodePoints(Binary, 1, 2, q, s)
  {
  }

  lemma TimeRoundTrip(t: Timestamp, rest: Bytes)
    ensures ObjectDecoded(EncodeObject(Time(t)).value + rest) == Ok((Time(t), rest))
  {
    hide DecodeHeader, EncodeHeader, TimestampAt;
    var h, body := ObjectHeader(50, 1, Count8(1)), TimestampBytes(t) + rest;
    ConcatAssociative(EncodeHeader(h), TimestampBytes(t), rest);
    HeaderRoundTrip(h, body);
    TimestampRoundTrip(t, rest);
    assert body[6..] == rest;
  }

  lemma DecodeObjectsUnfold(s: Bytes)
    requires |s| >= 3 && s[0] != 0
    ensures DecodeObjects(s) ==
      var first := ObjectDecoded(s);
      if first.Err? then Err(first.error)
      else
        var more := DecodeObjects(first.value.1);
        if more.Err? then more else Ok([first.value.0] + more.value)
  {
    hide DecodeHeader, DecodeObject;
    assert SkipZeros(s) == s;
  }

  /** Any number and mix of objects comes back in normal form exactly when no list wraps. */
  lemma {:induction false} ObjectsRoundTrip(objects: seq<AppObject>)
    requires EncodeObjects(objects).Ok?
    ensures DecodeObjects(EncodeObjects(objects).value) == Ok(NormalObjects(objects)) <==> NoneWraps(objects)
    decreases |objects|
  {
    hide EncodeObject, ObjectDecoded, DecodeObjects, ObjectWraps, NormalObject, NoneWraps;
    NoneWrapsNothing();
    if objects == [] {
      NoObjects();
    } else {
      var o, tail := objects[0], objects[1..];
      var b, rest := EncodeObject(o).value, EncodeObjects(tail).value;
      EncodeObjectStart(o);
      ObjectRoundTrip(o, rest);
      DecodeObjectsUnfold(b + rest);
      ObjectsRoundTrip(tail);
      NoneWrapsCons(objects);
      var first := ObjectDecoded(b + rest);
      if first.Ok? && DecodeObjects(first.value.1).Ok? {
        ConsEqual(first.value.0, NormalObject(o), DecodeObjects(first.value.1).value, NormalObjects(tail));
      }
    }
  }

  lemma NoneWrapsCons(objects: seq<AppObject>)
    requires objects != []
    ensures NoneWraps(objects) <==> !ObjectWraps(objects[0]) && NoneWraps(objects[1..])
  {
    hide ObjectWraps;
    assert objects == [objects[0]] + objects[1..];
  }

  lemma NoneWrapsNothing()
    ensures NoneWraps([])
  {
  }

  lemma NoObjects()
    ensures DecodeObjects([]) == Ok([])
  {
  }

  // Fragments.

  /** What a fragment means on the wire: four-bit sequence, indications in responses only. */
  function Normal(f: ApplicationFragment): ApplicationFragment {
    ApplicationFragment(
      f.control.(sequence := f.control.sequence % 0x10), f.func,
      if IncludesIin(f.func) then f.iin else 0, NormalObjects(f.objects))
  }

  lemma FragmentBody(f: ApplicationFragment, body: Bytes)
    ensures DecodeFragment(FragmentHeader(f) + body) ==
      var objects := DecodeObjects(body);
      if objects.Err? then Err(objects.error) else Ok(Normal(f).(objects := objects.value))
  {
    hide DecodeFunction, EncodeFunction, DecodeControl, EncodeControl, DecodeObjects, NormalObjects, U16Bytes, U16At;
    var input := FragmentHeader(f) + body;
    ControlRoundTrip(f.control);
    FunctionRoundTrip(f.func);
    if IncludesIin(f.func) {
      LengthsOfIntegers(f.iin, 0);
      U16RoundTrip(f.iin, body);
      assert input[2..] == U16Bytes(f.iin) + body && input[4..] == body;
    } else {
      assert input[2..] == body;
    }
  }

  /**
   Decoding undoes encoding up to the normal form, exactly when no point list of the fragment
   is a run past index 65535.
   */
  lemma FragmentRoundTrip(f: ApplicationFragment)
    requires EncodeFragment(f).Ok?
    ensures DecodeFragment(EncodeFragment(f).value) == Ok(Normal(f)) <==> NoneWraps(f.objects)
  {
    hide DecodeFragment, FragmentHeader, NoneWraps;
    FragmentBody(f, EncodeObjects(f.objects).value);
    ObjectsRoundTrip(f.objects);
  }

  /** The smallest wrapping run: the encoder writes the range 65535 to 0, which the decoder refuses. */
  lemma WrappingRunIsLost(control: AppControl)
    ensures var f := ApplicationFragment(control, Response, 0, [BinaryInputs([Point(0xffff, 0x81, 0), Point(0, 0x81, 0)])]);
      && EncodeFragment(f).Ok?
      && DecodeFragment(EncodeFragment(f).value) == Err(InvalidLength(0xffff, 0))
  {
    hide DecodeFragment, FragmentHeader, EncodePoints, EncodeHeader, DecodeHeader, DecodeObject;
    var ps := [Point(0xffff, 0x81, 0), Point(0, 0x81, 0)];
    var f := ApplicationFragment(control, Response, 0, [BinaryInputs(ps)]);
    assert Consecutive(ps);
    WrappingEncodes(ps);
    var b := EncodePoints(Binary, 1, 2, ps).value;
    var none: seq<AppObject> := [];
    assert f.objects[1..] == none && EncodeObjects(none) == Ok([]);
    assert b + [] == b;
    FragmentBody(f, b);
    var q, body := PointsHeader(Binary, 1, 2, ps, []);
    EncodeObjectStart(BinaryInputs(ps));
    DecodeObjectsUnfold(b);
    WrappingRefused(body);
  }

  lemma WrappingEncodes(ps: seq<Point>)
    requires AllFit(Binary, ps) && Consecutive(ps) && ps != []
    ensures EncodePoints(Binary, 1, 2, ps).Ok?
  {
  }

  lemma WrappingRefused(body: Bytes)
    ensures DecodeObject(ObjectHeader(1, 2, Range16(0xffff, 0)), body) == Err(InvalidLength(0xffff, 0))
  {
  }

  // What can be encoded.

  predicate PointsEncodable(ps: seq<Point>) { |ps| <= 0xff || Consecutive(ps) }

  /** A list of more than 255 points has to be a run. */
  predicate ObjectEncodable(o: AppObject) {
    match o
    case BinaryInputs(ps) => PointsEncodable(ps)
    case DoubleBitBinaryInputs(ps) => PointsEncodable(ps)
    case BinaryOutputs(ps) => PointsEncodable(ps)
    case AnalogInputs(ps) => PointsEncodable(ps)
    case AnalogOutputs(ps) => PointsEncodable(ps)
    case Counters(ps) => PointsEncodable(ps)
    case _ => true
  }

  predicate AllEncodable(objects: seq<AppObject>) { forall o :: o in objects ==> ObjectEncodable(o) }

  lemma ObjectEncodes(o: AppObject)
    ensures EncodeObject(o).Ok? <==> ObjectEncodable(o)
  {
    hide EncodeHeader, Bodies, PrefixedBodies, Consecutive;
  }

  lemma {:induction false} ObjectsEncode(objects: seq<AppObject>)
    ensures EncodeObjects(objects).Ok? <==> AllEncodable(objects)
  {
    hide EncodeObject, ObjectEncodable;
    if objects != [] {
      ObjectEncodes(objects[0]);
      ObjectsEncode(objects[1..]);
      assert objects[0] in objects && forall o :: o in objects <==> o == objects[0] || o in objects[1..];
    }
  }

  /** Encoding fails for no other reason than a long list that is no run. */
  lemma FragmentEncodes(f: ApplicationFragment)
    ensures EncodeFragment(f).Ok? <==> AllEncodable(f.objects)
  {
    hide EncodeObjects, AllEncodable;
    ObjectsEncode(f.objects);
  }

  // Transcoding.

  lemma DecodedObjectIsNormal(h: ObjectHeader, s: Bytes)
    requires DecodeObject(h, s).Ok?
    ensures NormalObject(DecodeObject(h, s).value.0) == DecodeObject(h, s).value.0
  {
    hide DecodePoints, DecodePacked, SkipBody;
  }

  lemma NormalObjectsCons(o: AppObject, os: seq<AppObject>)
    ensures NormalObjects([o] + os) == [NormalObject(o)] + NormalObjects(os)
  {
    hide NormalObject;
    assert ([o] + os)[1..] == os;
  }

  lemma {:induction false} DecodedObjectsAreNormal(s: Bytes)
    requires DecodeObjects(s).Ok?
    ensures NormalObjects(DecodeObjects(s).value) == DecodeObjects(s).value
    decreases |s|
  {
    hide DecodeHeader, DecodeObject, NormalObject, SkipZeros;
    var t := SkipZeros(s);
    if |s| >= 3 && |t| >= 3 {
      var (h, body) := DecodeHeader(t).value;
      var (o, rest) := DecodeObject(h, body).value;
      DecodedObjectIsNormal(h, body);
      DecodedObjectsAreNormal(rest);
      NormalObjectsCons(o, DecodeObjects(rest).value);
    }
  }

  lemma DecodedControlIsNormal(v: u8)
    ensures DecodeControl(v).sequence < 0x10
  {
  }

  /** Every decoded fragment is in normal form already. */
  lemma DecodedIsNormal(b: Bytes)
    requires DecodeFragment(b).Ok?
    ensures Normal(DecodeFragment(b).value) == DecodeFragment(b).value
  {
    hide DecodeObjects, NormalObjects, DecodeFunction, DecodeControl, U16At;
    DecodedControlIsNormal(b[0]);
    DecodedObjectsAreNormal(b[if IncludesIin(DecodeFunction(b[1]).value) then 4 else 2..]);
  }

  /**
   Re-encoding what was decoded, from any qualifier, event group or packed form, keeps its
   meaning, exactly when no decoded list wraps.
   */
  lemma TranscodingKeepsMeaning(b: Bytes, f: ApplicationFragment)
    requires DecodeFragment(b) == Ok(f) && EncodeFragment(f).Ok?
    ensures DecodeFragment(EncodeFragment(f).value) == Ok(f) <==> NoneWraps(f.objects)
  {
    hide DecodeFragment, EncodeFragment, Normal, NoneWraps;
    DecodedIsNormal(b);
    FragmentRoundTrip(f);
  }

  // Padding.

  lemma PaddingIgnored(n: nat, s: Bytes)
    ensures DecodeObjects(Zeros(4 * n) + s) == DecodeObjects(s)
  {
    hide DecodeHeader, DecodeObject, SkipZeros;
    SkipZerosDropsPadding(n, s);
    if n == 0 {
      assert Zeros(0) + s == s;
    } else if |s| < 3 {
      SkipZerosShort(s);
    }
  }

  lemma SkipZerosShort(s: Bytes)
    requires |s| < 4
    ensures SkipZeros(s) == s
  {
  }

  /** The encoded objects with `pads[i]` runs of four zero bytes before object i and `last` at the end. */
  function PaddedObjects(objects: seq<AppObject>, pads: seq<nat>, last: nat): Outcome<Bytes>
    requires |pads| == |objects|
  {
    if objects == [] then Ok(Zeros(4 * last))
    else
      var first :- EncodeObject(objects[0]);
      var rest :- PaddedObjects(objects[1..], pads[1..], last);
      Ok(Zeros(4 * pads[0]) + (first + rest))
  }

  lemma {:induction false} PaddedObjectsRoundTrip(objects: seq<AppObject>, pads: seq<nat>, last: nat)
    requires |pads| == |objects| && EncodeObjects(objects).Ok? && NoneWraps(objects)
    ensures PaddedObjects(objects, pads, last).Ok?
    ensures DecodeObjects(PaddedObjects(objects, pads, last).value) == Ok(NormalObjects(objects))
    decreases |objects|
  {
    hide EncodeObject, ObjectDecoded, DecodeObjects, ObjectWraps, NormalObject;
    if objects == [] {
      NoObjects();
      PaddingIgnored(last, []);
      assert Zeros(4 * last) + [] == Zeros(4 * last);
    } else {
      var o, tail := objects[0], objects[1..];
      PaddedObjectsRoundTrip(tail, pads[1..], last);
      var b, rest := EncodeObject(o).value, PaddedObjects(tail, pads[1..], last).value;
      PaddingIgnored(pads[0], b + rest);
      EncodeObjectStart(o);
      ObjectRoundTrip(o, rest);
      DecodeObjectsUnfold(b + rest);
    }
  }

  /** Zero padding before, between and after the objects of a fragment changes nothing. */
  lemma PaddingInvariance(f: ApplicationFragment, pads: seq<nat>, last: nat)
    requires |pads| == |f.objects| && EncodeFragment(f).Ok? && NoneWraps(f.objects)
    ensures PaddedObjects(f.objects, pads, last).Ok?
    ensures DecodeFragment(FragmentHeader(f) + PaddedObjects(f.objects, pads, last).value) == DecodeFragment(EncodeFragment(f).value)
  {
    hide DecodeFragment, FragmentHeader, NoneWraps, DecodeObjects;
    PaddedObjectsRoundTrip(f.objects, pads, last);
    ObjectsRoundTrip(f.objects);
    FragmentBody(f, PaddedObjects(f.objects, pads, last).value);
    FragmentBody(f, EncodeObjects(f.objects).value);
  }
}
