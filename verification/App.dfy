/** Application fragments as values: control, function, object headers and object bodies. */
module App {
  import opened Primitives

  datatype AppControl = AppControl(fir: bool, fin: bool, con: bool, uns: bool, sequence: u8)

  datatype FunctionCode =
    | Confirm | Read | Write | Select | Operate | DirectOperate | Freeze
    | EnableUnsolicited | DisableUnsolicited | AssignClass | DelayMeasure | RecordCurrentTime
    | Response | UnsolicitedResponse

  datatype Qualifier =
    | Range8(start8: u8, stop8: u8)
    | Range16(start: u16, stop: u16)
    | AllObjects
    | Count8(count8: u8)
    | Count16(count16: u16)
    | CountAndPrefix16(count: u8)
    | Indexed32(index: u32)
    | CountAndPrefix32(count: u8)

  datatype ObjectHeader = ObjectHeader(group: u8, variation: u8, qualifier: Qualifier)

  datatype DataClass = Class0 | Class1 | Class2 | Class3

  /** The five point records of the source in one shape; a binary point has no value of its own. */
  datatype Point = Point(index: u16, flags: u8, value: int)

  datatype Kind = Binary | Analog | Counter

  /** The values the source's field types allow: none, an i32, a u32. */
  predicate Fits(kind: Kind, p: Point) {
    match kind
    case Binary => p.value == 0
    case Analog => -0x8000_0000 <= p.value < 0x8000_0000
    case Counter => 0 <= p.value < 0x1_0000_0000
  }

  predicate AllFit(kind: Kind, points: seq<Point>) {
    forall p :: p in points ==> Fits(kind, p)
  }

  type BinaryPoints = ps: seq<Point> | AllFit(Binary, ps)
  type AnalogPoints = ps: seq<Point> | AllFit(Analog, ps)
  type CounterPoints = ps: seq<Point> | AllFit(Counter, ps)

  datatype AppObject =
    | BinaryInputs(binaryInputs: BinaryPoints)
    | BinaryOutputs(binaryOutputs: BinaryPoints)
    | AnalogInputs(analogInputs: AnalogPoints)
    | AnalogOutputs(analogOutputs: AnalogPoints)
    | Counters(counters: CounterPoints)
    | DoubleBitBinaryInputs(doubleBits: BinaryPoints)
    | Time(time: Timestamp)
    | ClassScan(scan: DataClass)
    | IntegrityPoll

  datatype ApplicationFragment =
    ApplicationFragment(control: AppControl, func: FunctionCode, iin: u16, objects: seq<AppObject>)

  // Control and function codes.

  function NewControl(fir: bool, fin: bool, con: bool, uns: bool, sequence: u8): AppControl {
    AppControl(fir, fin, con, uns, sequence % 0x10)
  }

  function EncodeControl(c: AppControl): u8 {
    (if c.fir then 0x80 else 0) + (if c.fin then 0x40 else 0) + (if c.con then 0x20 else 0) +
    (if c.uns then 0x10 else 0) + c.sequence % 0x10
  }

  function DecodeControl(v: u8): AppControl {
    AppControl(v / 0x80 != 0, v / 0x40 % 2 != 0, v / 0x20 % 2 != 0, v / 0x10 % 2 != 0, v % 0x10)
  }

  function EncodeFunction(f: FunctionCode): u8 {
    match f
    case Confirm => 0
    case Read => 1
    case Write => 2
    case Select => 3
    case Operate => 4
    case DirectOperate => 5
    case Freeze => 7
    case EnableUnsolicited => 20
    case DisableUnsolicited => 21
    case AssignClass => 22
    case DelayMeasure => 23
    case RecordCurrentTime => 24
    case Response => 129
    case UnsolicitedResponse => 130
  }

  function DecodeFunction(v: u8): Outcome<FunctionCode> {
    match v
    case 0 => Ok(Confirm)
    case 1 => Ok(Read)
    case 2 => Ok(Write)
    case 3 => Ok(Select)
    case 4 => Ok(Operate)
    case 5 => Ok(DirectOperate)
    case 7 => Ok(Freeze)
    case 20 => Ok(EnableUnsolicited)
    case 21 => Ok(DisableUnsolicited)
    case 22 => Ok(AssignClass)
    case 23 => Ok(DelayMeasure)
    case 24 => Ok(RecordCurrentTime)
    case 129 => Ok(Response)
    case 130 => Ok(UnsolicitedResponse)
    case _ => Err(UnknownValue("application function", v))
  }

  predicate IncludesIin(f: FunctionCode) { f.Response? || f.UnsolicitedResponse? }

  function ClassVariation(c: DataClass): u8 {
    match c
    case Class0 => 1
    case Class1 => 2
    case Class2 => 3
    case Class3 => 4
  }

  function ParseClass(variation: u8): Outcome<DataClass> {
    match variation
    case 1 => Ok(Class0)
    case 2 => Ok(Class1)
    case 3 => Ok(Class2)
    case 4 => Ok(Class3)
    case _ => Err(UnknownValue("class variation", variation))
  }

  // Qualifiers and object headers.

  function QualifierCode(q: Qualifier): u8 {
    match q
    case Range8(_, _) => 0x00
    case Range16(_, _) => 0x01
    case AllObjects => 0x06
    case Count8(_) => 0x07
    case Count16(_) => 0x08
    case CountAndPrefix16(_) => 0x28
    case CountAndPrefix32(_) => 0x38
    case Indexed32(_) => 0x14
  }

  function QualifierCount(q: Qualifier): Outcome<nat> {
    match q
    case Count8(n) => Ok(n)
    case CountAndPrefix16(n) => Ok(n)
    case CountAndPrefix32(n) => Ok(n)
    case Count16(n) => Ok(n)
    case _ => Err(UnknownValue("object qualifier without count", QualifierCode(q)))
  }

  predicate IsSimulatorIndexed(code: u8) {
    || code in {0x38, 0x58, 0x61, 0x82, 0x8f, 0x9f, 0xa2, 0xad, 0xb2, 0xd8, 0xf8}
    || (code % 0x10 == 0x0f && code / 0x10 >= 0x8)
    || (code / 0x10 >= 0xa && 0x0c <= code % 0x10 <= 0x0e)
  }

  predicate IsCountAndPrefix16(code: u8) {
    && !IsSimulatorIndexed(code)
    && (code in {0x17, 0x22, 0x28} || (code % 0x10 == 0x02 && code / 0x10 <= 0x0a))
  }

  function QualifierBody(q: Qualifier): Bytes {
    match q
    case Range8(start, stop) => [start, stop]
    case Range16(start, stop) => U16Bytes(start) + U16Bytes(stop)
    case AllObjects => []
    case Count8(n) => [n]
    case CountAndPrefix16(n) => [n]
    case Count16(n) => U16Bytes(n)
    case CountAndPrefix32(n) => [n]
    case Indexed32(i) => U32Bytes(i)
  }

  function EncodeHeader(h: ObjectHeader): Bytes {
    [h.group, h.variation, QualifierCode(h.qualifier)] + QualifierBody(h.qualifier)
  }

  function DecodeQualifier(code: u8, s: Bytes): (r: Outcome<(Qualifier, Bytes)>)
    ensures r.Ok? ==> |r.value.1| <= |s|
  {
    if code == 0x00 then
      if |s| < 2 then Err(UnexpectedEof) else Ok((Range8(s[0], s[1]), s[2..]))
    else if code == 0x01 then
      if |s| < 4 then Err(UnexpectedEof) else Ok((Range16(U16At(s), U16At(s[2..])), s[4..]))
    else if code == 0x06 then Ok((AllObjects, s))
    else if code == 0x07 then
      if |s| < 1 then Err(UnexpectedEof) else Ok((Count8(s[0]), s[1..]))
    else if code == 0x08 then
      if |s| < 2 then Err(UnexpectedEof) else Ok((Count16(U16At(s)), s[2..]))
    else if code == 0x14 then
      if |s| < 4 then Err(UnexpectedEof) else Ok((Indexed32(U32At(s)), s[4..]))
    else if IsSimulatorIndexed(code) then
      if |s| < 1 then Err(UnexpectedEof) else Ok((CountAndPrefix32(s[0]), s[1..]))
    else if IsCountAndPrefix16(code) then
      if |s| < 1 then Err(UnexpectedEof) else Ok((CountAndPrefix16(s[0]), s[1..]))
    else Err(UnknownValue("object qualifier", code))
  }

  function DecodeHeader(s: Bytes): (r: Outcome<(ObjectHeader, Bytes)>)
    ensures r.Ok? ==> |r.value.1| + 3 <= |s|
  {
    if |s| < 3 then Err(UnexpectedEof)
    else
      var (q, rest) :- DecodeQualifier(s[2], s[3..]);
      Ok((ObjectHeader(s[0], s[1], q), rest))
  }

  // Point lists.

  function ValueBytes(kind: Kind, p: Point): Bytes
    requires Fits(kind, p)
  {
    match kind
    case Binary => []
    case Analog => U32Bytes(TwosComplement(p.value))
    case Counter => U32Bytes(p.value)
  }

  function PointBody(kind: Kind, p: Point): Bytes
    requires Fits(kind, p)
  {
    [p.flags] + ValueBytes(kind, p)
  }

  function Bodies(kind: Kind, points: seq<Point>): Bytes
    requires AllFit(kind, points)
  {
    if points == [] then [] else PointBody(kind, points[0]) + Bodies(kind, points[1..])
  }

  function PrefixedBodies(kind: Kind, points: seq<Point>): Bytes
    requires AllFit(kind, points)
  {
    if points == [] then []
    else U16Bytes(points[0].index) + PointBody(kind, points[0]) + PrefixedBodies(kind, points[1..])
  }

  /** Do the indices count up by one, modulo 2^16? */
  predicate Consecutive(points: seq<Point>) {
    forall k :: 0 <= k < |points| ==> points[k].index == (points[0].index + k) % 0x1_0000
  }

  function ContiguousRange(points: seq<Point>): Option<(u16, u16)> {
    if points != [] && Consecutive(points)
    then Some((points[0].index, points[|points| - 1].index))
    else None
  }

  /** A consecutive run that passes index 65535. */
  predicate Wraps(points: seq<Point>) {
    points != [] && Consecutive(points) && points[0].index + |points| > 0x1_0000
  }

  function EncodePoints(kind: Kind, group: u8, variation: u8, points: seq<Point>): Outcome<Bytes>
    requires AllFit(kind, points)
  {
    match ContiguousRange(points)
    case Some((start, stop)) =>
      Ok(EncodeHeader(ObjectHeader(group, variation, Range16(start, stop))) + Bodies(kind, points))
    case None =>
      if |points| > 0xff then Err(InvalidLength(0xff, |points|))
      else Ok(EncodeHeader(ObjectHeader(group, variation, CountAndPrefix16(|points|))) + PrefixedBodies(kind, points))
  }

  function EncodeObject(o: AppObject): Outcome<Bytes> {
    match o
    case BinaryInputs(ps) => EncodePoints(Binary, 1, 2, ps)
    case DoubleBitBinaryInputs(ps) => EncodePoints(Binary, 3, 2, ps)
    case BinaryOutputs(ps) => EncodePoints(Binary, 10, 2, ps)
    case AnalogInputs(ps) => EncodePoints(Analog, 30, 1, ps)
    case AnalogOutputs(ps) => EncodePoints(Analog, 40, 1, ps)
    case Counters(ps) => EncodePoints(Counter, 20, 1, ps)
    case Time(t) => Ok(EncodeHeader(ObjectHeader(50, 1, Count8(1))) + TimestampBytes(t))
    case ClassScan(c) => Ok(EncodeHeader(ObjectHeader(60, ClassVariation(c), AllObjects)))
    case IntegrityPoll => Ok(EncodeHeader(ObjectHeader(60, 1, AllObjects)))
  }

  // Reading points.

  predicate IsEventGroup(group: u8) { group in {2, 4, 22, 32, 42} }

  function EventSuffix(group: u8, variation: u8): nat {
    if IsEventGroup(group) && (variation == 2 || variation == 3) then 6 else 0
  }

  /** Where a point's index comes from: counted up in the header's range, or read before the point. */
  datatype IndexSource = Counting(next: nat) | Prefix16 | Prefix32

  datatype PointFormat = PointFormat(kind: Kind, variation: u8, suffix: nat)

  function PrefixSize(source: IndexSource): nat {
    match source
    case Counting(_) => 0
    case Prefix16 => 2
    case Prefix32 => 4
  }

  function ClampIndex(i: nat): u16 { Min(i, 0xffff) }

  function IndexFrom(source: IndexSource, s: Bytes): u16
    requires |s| >= PrefixSize(source)
  {
    match source
    case Counting(next) => ClampIndex(next)
    case Prefix16 => U16At(s)
    case Prefix32 => ClampIndex(U32At(s))
  }

  function Advance(source: IndexSource): IndexSource {
    match source
    case Counting(next) => Counting(next + 1)
    case _ => source
  }

  function ValueSize(kind: Kind, variation: u8): nat {
    match kind
    case Binary => 0
    case Analog => if variation == 2 then 2 else 4
    case Counter => 4
  }

  function ValueAt(kind: Kind, variation: u8, s: Bytes): int
    requires |s| >= ValueSize(kind, variation)
  {
    match kind
    case Binary => 0
    case Analog => if variation == 2 then SignedWordAt(s) else SignedAt(s)
    case Counter => U32At(s)
  }

  function ReadPoint(fmt: PointFormat, source: IndexSource, s: Bytes): (r: Outcome<(Point, Bytes)>)
    ensures r.Ok? ==> Fits(fmt.kind, r.value.0) && |r.value.1| < |s|
  {
    var p := PrefixSize(source);
    var n := p + 1 + ValueSize(fmt.kind, fmt.variation) + fmt.suffix;
    if |s| < n then Err(UnexpectedEof)
    else Ok((Point(IndexFrom(source, s), s[p], ValueAt(fmt.kind, fmt.variation, s[p + 1..])), s[n..]))
  }

  function ReadPoints(fmt: PointFormat, source: IndexSource, n: nat, s: Bytes): (r: Outcome<(seq<Point>, Bytes)>)
    ensures r.Ok? ==> AllFit(fmt.kind, r.value.0) && |r.value.0| == n && |r.value.1| <= |s|
    decreases n
  {
    if n == 0 then Ok(([], s))
    else
      var (p, t) :- ReadPoint(fmt, source, s);
      var (ps, u) :- ReadPoints(fmt, Advance(source), n - 1, t);
      Ok(([p] + ps, u))
  }

  function SaturatingSub(a: nat, b: nat): nat { if a < b then 0 else a - b }

  /** How a qualifier lays out the points of an object: index source and count. */
  function PointLayout(kind: Kind, q: Qualifier): Outcome<(IndexSource, nat)> {
    match q
    case Range16(start, stop) =>
      if stop < start then Err(InvalidLength(start, stop)) else Ok((Counting(start), stop - start + 1))
    case Range8(start, stop) => Ok((Counting(start), SaturatingSub(stop, start) + 1))
    case Indexed32(i) => Ok((Counting(ClampIndex(i)), 1))
    case CountAndPrefix32(n) => Ok((Prefix32, n))
    case Count8(n) => Ok((if kind.Binary? then Counting(0) else Prefix16, n))
    case Count16(n) => Ok((if kind.Binary? then Counting(0) else Prefix16, n))
    case CountAndPrefix16(n) => Ok((Prefix16, n))
    case AllObjects => Err(UnknownValue("object qualifier without count", QualifierCode(q)))
  }

  function DecodePoints(kind: Kind, group: u8, variation: u8, q: Qualifier, s: Bytes): (r: Outcome<(seq<Point>, Bytes)>)
    ensures r.Ok? ==> AllFit(kind, r.value.0) && |r.value.1| <= |s|
  {
    var (source, n) :- PointLayout(kind, q);
    ReadPoints(PointFormat(kind, variation, EventSuffix(group, variation)), source, n, s)
  }

  // Packed points.

  function ShiftRight(b: u8, n: nat): u8 {
    if n == 0 then b else ShiftRight(b / 2, n - 1)
  }

  /** Flags of one packed point: one bit of the byte, or two for a double-bit input. */
  function PackedFlags(double: bool, b: u8, slot: nat): u8 {
    if double then
      match ShiftRight(b, slot * 2) % 4
      case 2 => 0x81
      case 1 => 0x41
      case 3 => 0xc1
      case _ => 0x01
    else if ShiftRight(b, slot) % 2 != 0 then 0x81 else 0x00
  }

  function Slots(double: bool): nat { if double then 4 else 8 }

  /** Point k of a packed range sits in slot k mod 8 (or 4) of byte k div 8 (or 4). */
  function PackedPoint(double: bool, start: nat, s: Bytes, k: nat): Point
    requires start + k < 0x1_0000 && k / Slots(double) < |s|
  {
    Point(start + k, PackedFlags(double, s[k / Slots(double)], k % Slots(double)), 0)
  }

  function PackedBytes(double: bool, count: nat): nat {
    (count + Slots(double) - 1) / Slots(double)
  }

  lemma PackedIndex(double: bool, count: nat, k: nat)
    requires k < count
    ensures k / Slots(double) < PackedBytes(double, count)
  {
  }

  function PackedPoints(double: bool, start: nat, count: nat, s: Bytes): (r: Outcome<(seq<Point>, Bytes)>)
    requires start + count <= 0x1_0000
    ensures r.Ok? ==> AllFit(Binary, r.value.0) && |r.value.0| == count && |r.value.1| <= |s|
  {
    var need := PackedBytes(double, count);
    if |s| < need then Err(UnexpectedEof)
    else
      Ok((seq(count, k requires 0 <= k < count => PackedIndex(double, count, k); PackedPoint(double, start, s, k)), s[need..]))
  }

  function DecodePacked(double: bool, q: Qualifier, s: Bytes): (r: Outcome<(seq<Point>, Bytes)>)
    ensures r.Ok? ==> AllFit(Binary, r.value.0) && |r.value.1| <= |s|
  {
    match q
    case Range16(start, stop) =>
      if stop < start then Err(InvalidLength(start, stop)) else PackedPoints(double, start, stop - start + 1, s)
    case Range8(start, stop) => PackedPoints(double, start, SaturatingSub(stop, start) + 1, s)
    case _ => DecodePoints(Binary, if double then 3 else 1, 2, q, s)
  }

  // Objects and fragments.

  function SkipBody(q: Qualifier, s: Bytes): (r: Outcome<Bytes>)
    ensures r.Ok? ==> |r.value| <= |s|
  {
    match q
    case Range8(start, stop) =>
      var n := SaturatingSub(stop, start) + 1;
      if |s| < n then Err(UnexpectedEof) else Ok(s[n..])
    case AllObjects => Ok(s)
    case _ => Err(UnknownValue("unsupported padding object qualifier", QualifierCode(q)))
  }

  function DecodeTime(q: Qualifier, s: Bytes): (r: Outcome<(AppObject, Bytes)>)
    ensures r.Ok? ==> |r.value.1| <= |s|
  {
    var n :- QualifierCount(q);
    if n != 1 then Err(InvalidLength(1, n))
    else if |s| < 6 then Err(UnexpectedEof)
    else Ok((Time(TimestampAt(s)), s[6..]))
  }

  function DecodeObject(h: ObjectHeader, s: Bytes): (r: Outcome<(AppObject, Bytes)>)
    ensures r.Ok? ==> |r.value.1| <= |s|
  {
    var g, v, q := h.group, h.variation, h.qualifier;
    if g == 0 then
      var rest :- SkipBody(q, s);
      Ok((BinaryInputs([]), rest))
    else if g == 1 || g == 2 then
      var (ps, rest) :- if g == 1 && v == 1 then DecodePacked(false, q, s) else DecodePoints(Binary, g, v, q, s);
      Ok((BinaryInputs(ps), rest))
    else if g == 3 || g == 4 then
      var (ps, rest) :- if g == 3 && v == 1 then DecodePacked(true, q, s) else DecodePoints(Binary, g, v, q, s);
      Ok((DoubleBitBinaryInputs(ps), rest))
    else if g == 10 then
      var (ps, rest) :- DecodePoints(Binary, 1, 2, q, s);
      Ok((BinaryOutputs(ps), rest))
    else if 20 <= g <= 22 then
      var (ps, rest) :- DecodePoints(Counter, g, v, q, s);
      Ok((Counters(ps), rest))
    else if g == 30 || g == 32 then
      var (ps, rest) :- DecodePoints(Analog, g, v, q, s);
      Ok((AnalogInputs(ps), rest))
    else if g == 40 || g == 42 then
      var (ps, rest) :- DecodePoints(Analog, g, v, q, s);
      Ok((AnalogOutputs(ps), rest))
    else if g == 50 && v == 1 then DecodeTime(q, s)
    else if g == 60 then
      if v == 1 then Ok((IntegrityPoll, s))
      else
        var c :- ParseClass(v);
        Ok((ClassScan(c), s))
    else Err(UnknownValue("object group", g))
  }

  function EncodeObjects(objects: seq<AppObject>): Outcome<Bytes> {
    if objects == [] then Ok([])
    else
      var first :- EncodeObject(objects[0]);
      var rest :- EncodeObjects(objects[1..]);
      Ok(first + rest)
  }

  function DecodeObjects(s: Bytes): Outcome<seq<AppObject>>
    decreases |s|
  {
    if |s| < 3 then Ok([])
    else
      var t := SkipZeros(s);
      if |t| < 3 then Ok([])
      else
        var (h, body) :- DecodeHeader(t);
        var (o, rest) :- DecodeObject(h, body);
        var os :- DecodeObjects(rest);
        Ok([o] + os)
  }

  function FragmentHeader(f: ApplicationFragment): Bytes {
    [EncodeControl(f.control), EncodeFunction(f.func)] + if IncludesIin(f.func) then U16Bytes(f.iin) else []
  }

  function EncodeFragment(f: ApplicationFragment): Outcome<Bytes> {
    var body :- EncodeObjects(f.objects);
    Ok(FragmentHeader(f) + body)
  }

  function DecodeFragment(input: Bytes): Outcome<ApplicationFragment> {
    if |input| < 2 then Err(UnexpectedEof)
    else
      var func :- DecodeFunction(input[1]);
      if IncludesIin(func) && |input| < 4 then Err(UnexpectedEof)
      else
        var iin := if IncludesIin(func) then U16At(input[2..]) else 0;
        var objects :- DecodeObjects(input[if IncludesIin(func) then 4 else 2..]);
        Ok(ApplicationFragment(DecodeControl(input[0]), func, iin, objects))
  }
}
