/** What the decoder reads where, position by position and in plain numbers. */
module DecodedLayout {
  import opened Primitives
  import opened App
  import opened AppLayout
  import opened EncodedLayout

  // Packed points.

  /** The value of each bit of a byte, and of each pair of bits. */
  const BIT_VALUES := [1, 2, 4, 8, 16, 32, 64, 128]
  const PAIR_VALUES := [1, 4, 16, 64]

  lemma ShiftRightTwice(b: u8, n: nat)
    requires n >= 2
    ensures ShiftRight(b, n) == ShiftRight(b / 4, n - 2)
  {
    assert ShiftRight(b, n) == ShiftRight(b / 2, n - 1);
    assert b / 2 / 2 == b / 4;
  }

  lemma ShiftRightValues(b: u8)
    ensures forall i :: 0 <= i < 8 ==> ShiftRight(b, i) == b / BIT_VALUES[i]
  {
    ShiftRightTwice(b, 2);
    ShiftRightTwice(b, 3);
    ShiftRightTwice(b, 4);
    ShiftRightTwice(b, 5);
    ShiftRightTwice(b, 6);
    ShiftRightTwice(b, 7);
    ShiftRightTwice(b / 4, 2);
    ShiftRightTwice(b / 4, 3);
    ShiftRightTwice(b / 4, 4);
    ShiftRightTwice(b / 4, 5);
    ShiftRightTwice(b / 16, 2);
    ShiftRightTwice(b / 16, 3);
    assert b / 4 / 4 == b / 16 && b / 16 / 4 == b / 64;
  }

  /** A single-bit input is on, with the online flag, exactly when its bit is set. */
  lemma PackedBit(b: u8, i: nat)
    requires i < 8
    ensures PackedFlags(false, b, i) == if b / BIT_VALUES[i] % 2 == 1 then 0x81 else 0x00
  {
    ShiftRightValues(b);
  }

  /** The four states of a double-bit input: intermediate, off, on, indeterminate. */
  lemma PackedPair(b: u8, i: nat)
    requires i < 4
    ensures PackedFlags(true, b, i) == [0x01, 0x41, 0x81, 0xc1][b / PAIR_VALUES[i] % 4]
  {
    ShiftRightValues(b);
  }

  /** Point k of packed single-bit inputs: bit k mod 8 of byte k div 8, eight points a byte. */
  lemma PackedBits(start: nat, count: nat, s: Bytes)
    requires start + count <= 65536
    ensures var r := PackedPoints(false, start, count, s);
      if |s| < (count + 7) / 8 then r == Err(UnexpectedEof)
      else
        && r.Ok? && |r.value.0| == count && r.value.1 == s[(count + 7) / 8..]
        && forall k :: 0 <= k < count ==>
             r.value.0[k] == Point(start + k, if s[k / 8] / BIT_VALUES[k % 8] % 2 == 1 then 0x81 else 0x00, 0)
  {
    hide PackedFlags;
    if |s| >= (count + 7) / 8 {
      forall k | 0 <= k < count
        ensures k / 8 < |s|
        ensures PackedPoints(false, start, count, s).value.0[k] ==
          Point(start + k, if s[k / 8] / BIT_VALUES[k % 8] % 2 == 1 then 0x81 else 0x00, 0)
      {
        PackedIndex(false, count, k);
        PackedBit(s[k / 8], k % 8);
      }
    }
  }

  /** Point k of packed double-bit inputs: pair k mod 4 of byte k div 4, four points a byte. */
  lemma PackedPairs(start: nat, count: nat, s: Bytes)
    requires start + count <= 65536
    ensures var r := PackedPoints(true, start, count, s);
      if |s| < (count + 3) / 4 then r == Err(UnexpectedEof)
      else
        && r.Ok? && |r.value.0| == count && r.value.1 == s[(count + 3) / 4..]
        && forall k :: 0 <= k < count ==>
             r.value.0[k] == Point(start + k, [0x01, 0x41, 0x81, 0xc1][s[k / 4] / PAIR_VALUES[k % 4] % 4], 0)
  {
    hide PackedFlags;
    if |s| >= (count + 3) / 4 {
      forall k | 0 <= k < count
        ensures k / 4 < |s|
        ensures PackedPoints(true, start, count, s).value.0[k] ==
          Point(start + k, [0x01, 0x41, 0x81, 0xc1][s[k / 4] / PAIR_VALUES[k % 4] % 4], 0)
      {
        PackedIndex(true, count, k);
        PackedPair(s[k / 4], k % 4);
      }
    }
  }

  /** Only ranges are packed; a one-byte range that ends before it starts has one point. */
  lemma PackedRanges(double: bool, q: Qualifier, s: Bytes)
    ensures match q
      case Range8(start, stop) => DecodePacked(double, q, s) == PackedPoints(double, start, if stop < start then 1 else stop - start + 1, s)
      case Range16(start, stop) =>
        DecodePacked(double, q, s) ==
        if stop < start then Err(InvalidLength(start, stop)) else PackedPoints(double, start, stop - start + 1, s)
      case _ => DecodePacked(double, q, s) == DecodePoints(Binary, if double then 3 else 1, 2, q, s)
  {
  }

  // Points that are not packed.

  /** Index bytes in front of a point: a plain count has them for analog points and counters only. */
  function IndexWidth(kind: Kind, q: Qualifier): nat {
    match q
    case CountAndPrefix32(_) => 4
    case CountAndPrefix16(_) => 2
    case Count8(_) => if kind == Binary then 0 else 2
    case Count16(_) => if kind == Binary then 0 else 2
    case _ => 0
  }

  function ValueWidth(kind: Kind, variation: u8): nat {
    if kind == Binary then 0 else if kind == Analog && variation == 2 then 2 else 4
  }

  /** Six bytes of event time, skipped, after the points of five groups in variations 2 and 3. */
  function TimeWidth(group: u8, variation: u8): nat {
    if group in {2, 4, 22, 32, 42} && variation in {2, 3} then 6 else 0
  }

  function PointWidth(kind: Kind, group: u8, variation: u8, q: Qualifier): nat {
    IndexWidth(kind, q) + 1 + ValueWidth(kind, variation) + TimeWidth(group, variation)
  }

  function PointCount(q: Qualifier): int {
    match q
    case Range8(start, stop) => if stop < start then 1 else stop - start + 1
    case Range16(start, stop) => stop - start + 1
    case Indexed32(_) => 1
    case Count8(n) => n
    case Count16(n) => n
    case CountAndPrefix16(n) => n
    case CountAndPrefix32(n) => n
    case AllObjects => 0
  }

  function Signed(v: int, width: int): int { if v < width / 2 then v else v - width }

  /** The record of point k: counted or prefixed index, flags, value. */
  predicate IsRecord(kind: Kind, variation: u8, q: Qualifier, k: nat, r: Bytes, p: Point)
    requires |r| >= IndexWidth(kind, q) + 1 + ValueWidth(kind, variation)
  {
    var w := IndexWidth(kind, q);
    && p.index ==
       (match q
        case Range8(start, _) => start + k
        case Range16(start, _) => start + k
        case Indexed32(index) => Min(index, 65535)
        case CountAndPrefix32(_) => Min(LongWord(r[0], r[1], r[2], r[3]), 65535)
        case CountAndPrefix16(_) => Word(r[0], r[1])
        case _ => if kind == Binary then k else Word(r[0], r[1]))
    && p.flags == r[w]
    && p.value ==
       (if kind == Binary then 0
        else if kind == Counter then LongWord(r[w + 1], r[w + 2], r[w + 3], r[w + 4])
        else if variation == 2 then Signed(Word(r[w + 1], r[w + 2]), 65536)
        else Signed(LongWord(r[w + 1], r[w + 2], r[w + 3], r[w + 4]), 4294967296))
  }

  lemma NumbersAt(s: Bytes)
    ensures |s| >= 2 ==> U16At(s) == Word(s[0], s[1]) && SignedWordAt(s) == Signed(Word(s[0], s[1]), 65536)
    ensures |s| >= 4 ==> U32At(s) == LongWord(s[0], s[1], s[2], s[3]) && SignedAt(s) == Signed(LongWord(s[0], s[1], s[2], s[3]), 4294967296)
  {
  }

  /** The reader's own layout of a point is this one. */
  lemma LayoutAgrees(kind: Kind, group: u8, variation: u8, q: Qualifier)
    requires q != AllObjects && (q.Range16? ==> q.start <= q.stop)
    ensures var layout := PointLayout(kind, q);
      && layout.Ok? && layout.value.1 == PointCount(q)
      && RecordSize(PointFormat(kind, variation, EventSuffix(group, variation)), layout.value.0) == PointWidth(kind, group, variation, q)
      && PrefixSize(layout.value.0) == IndexWidth(kind, q)
  {
  }

  lemma RecordAgrees(kind: Kind, group: u8, variation: u8, q: Qualifier, k: nat, r: Bytes)
    requires q != AllObjects && (q.Range16? ==> q.start <= q.stop) && k < PointCount(q)
    requires |r| >= PointWidth(kind, group, variation, q)
    ensures var fmt := PointFormat(kind, variation, EventSuffix(group, variation));
      var source := PointLayout(kind, q).value.0;
      |r| >= RecordSize(fmt, source) && IsRecord(kind, variation, q, k, r, PointAt(fmt, source, k, r))
  {
    hide U16At, U32At, SignedAt, SignedWordAt, Word, LongWord, EventSuffix;
    LayoutAgrees(kind, group, variation, q);
    NumbersAt(r);
    NumbersAt(r[IndexWidth(kind, q) + 1..]);
  }

  /** A point list is its records side by side, and fails only where they run out or the header is wrong. */
  lemma PointsAreRecords(kind: Kind, group: u8, variation: u8, q: Qualifier, s: Bytes)
    ensures var r, n := DecodePoints(kind, group, variation, q, s), PointCount(q);
      var w := PointWidth(kind, group, variation, q);
      if q == AllObjects then r == Err(UnknownValue("object qualifier without count", 0x06))
      else if q.Range16? && q.stop < q.start then r == Err(InvalidLength(q.start, q.stop))
      else if |s| < Offset(w, n) then r == Err(UnexpectedEof)
      else
        && r.Ok? && |r.value.0| == n && r.value.1 == s[Offset(w, n)..]
        && forall k :: 0 <= k < n ==>
             && Offset(w, k) + w <= |s|
             && IsRecord(kind, variation, q, k, s[Offset(w, k)..Offset(w, k) + w], r.value.0[k])
  {
    hide ReadPoints, EventSuffix, RecordSize, IsRecord, Offset, PrefixSize, IndexWidth, ValueWidth, TimeWidth;
    if q != AllObjects && (q.Range16? ==> q.start <= q.stop) {
      LayoutAgrees(kind, group, variation, q);
      var fmt, w := PointFormat(kind, variation, EventSuffix(group, variation)), PointWidth(kind, group, variation, q);
      var (source, n) := PointLayout(kind, q).value;
      ReadPointsConsumes(fmt, source, n, s);
      if |s| >= Offset(w, n) {
        forall k | 0 <= k < n
          ensures Offset(w, k) + w <= |s|
          ensures IsRecord(kind, variation, q, k, s[Offset(w, k)..Offset(w, k) + w], DecodePoints(kind, group, variation, q, s).value.0[k])
        {
          ReadPointsRecord(fmt, source, n, s, k);
          var at := Offset(w, k);
          RecordAgrees(kind, group, variation, q, k, s[at..at + w]);
          PointAtPrefix(fmt, source, k, s[at..], w);
          assert s[at..][..w] == s[at..at + w];
        }
      }
    }
  }

  lemma PointAtPrefix(fmt: PointFormat, source: IndexSource, k: nat, s: Bytes, w: nat)
    requires w == RecordSize(fmt, source) <= |s|
    ensures PointAt(fmt, source, k, s[..w]) == PointAt(fmt, source, k, s)
  {
  }

  // Qualifiers.

  /** Vendor codes read as a one-byte count of points with four-byte indices. */
  const LONG_INDEX_CODES: set<u8> :=
    {0x38, 0x58, 0x61, 0x82, 0x8f, 0x9f, 0xa2, 0xac, 0xad, 0xae, 0xaf, 0xb2, 0xbc, 0xbd, 0xbe, 0xbf, 0xcc, 0xcd, 0xce, 0xcf,
     0xd8, 0xdc, 0xdd, 0xde, 0xdf, 0xec, 0xed, 0xee, 0xef, 0xf8, 0xfc, 0xfd, 0xfe, 0xff}

  /** The codes read as a one-byte count of points with two-byte indices. */
  const SHORT_INDEX_CODES: set<u8> := {0x02, 0x12, 0x17, 0x22, 0x28, 0x32, 0x42, 0x52, 0x62, 0x72, 0x92}

  lemma IndexCodes(code: u8)
    ensures IsSimulatorIndexed(code) <==> code in LONG_INDEX_CODES
    ensures IsCountAndPrefix16(code) <==> code in SHORT_INDEX_CODES
  {
    var low, high := code % 0x10, code / 0x10;
    assert code == 0x10 * high + low;
  }

  /** The qualifier of each of the 256 codes, and the header bytes it reads. */
  lemma QualifierTable(code: u8, s: Bytes)
    ensures var need := if code in {0x01, 0x14} then 4 else if code in {0x00, 0x08} then 2 else if code == 0x06 then 0 else 1;
      var r := DecodeQualifier(code, s);
      if code !in {0x00, 0x01, 0x06, 0x07, 0x08, 0x14} + LONG_INDEX_CODES + SHORT_INDEX_CODES then
        r == Err(UnknownValue("object qualifier", code))
      else if |s| < need then r == Err(UnexpectedEof)
      else
        && r.Ok? && r.value.1 == s[need..]
        && r.value.0 ==
           if code == 0x00 then Range8(s[0], s[1])
           else if code == 0x01 then Range16(Word(s[0], s[1]), Word(s[2], s[3]))
           else if code == 0x06 then AllObjects
           else if code == 0x07 then Count8(s[0])
           else if code == 0x08 then Count16(Word(s[0], s[1]))
           else if code == 0x14 then Indexed32(LongWord(s[0], s[1], s[2], s[3]))
           else if code in LONG_INDEX_CODES then CountAndPrefix32(s[0])
           else CountAndPrefix16(s[0])
  {
    hide IsSimulatorIndexed, IsCountAndPrefix16;
    IndexCodes(code);
  }

  // Objects.

  /** The object holds exactly these points and reading goes on where they end, or it fails as they do. */
  predicate Holds(o: Outcome<(AppObject, Bytes)>, points: Outcome<(seq<Point>, Bytes)>) {
    if points.Err? then o.Err? && o.error == points.error
    else o.Ok? && IsPointList(o.value.0) && PointsIn(o.value.0) == points.value.0 && o.value.1 == points.value.1
  }

  /** What each group and variation is read as: which object, from which points. */
  lemma ObjectTable(h: ObjectHeader, s: Bytes)
    ensures var g, v, q, o := h.group, h.variation, h.qualifier, DecodeObject(h, s);
      && (g in {1, 2} ==> o.Ok? ==> o.value.0.BinaryInputs?)
      && (g in {3, 4} ==> o.Ok? ==> o.value.0.DoubleBitBinaryInputs?)
      && (g == 10 ==> o.Ok? ==> o.value.0.BinaryOutputs?)
      && (g in {20, 21, 22} ==> o.Ok? ==> o.value.0.Counters?)
      && (g in {30, 32} ==> o.Ok? ==> o.value.0.AnalogInputs?)
      && (g in {40, 42} ==> o.Ok? ==> o.value.0.AnalogOutputs?)
      && (g in {1, 3} && v == 1 ==> Holds(o, DecodePacked(g == 3, q, s)))
      && (g in {1, 2, 3, 4} && !(g in {1, 3} && v == 1) ==> Holds(o, DecodePoints(Binary, g, v, q, s)))
      && (g == 10 ==> Holds(o, DecodePoints(Binary, 1, 2, q, s)))
      && (g in {20, 21, 22} ==> Holds(o, DecodePoints(Counter, g, v, q, s)))
      && (g in {30, 32, 40, 42} ==> Holds(o, DecodePoints(Analog, g, v, q, s)))
  {
    hide DecodePoints, DecodePacked, SkipBody, DecodeTime;
  }

  /** The objects without points: skipped padding, time, class scans; and the groups nobody reads. */
  lemma OtherObjects(h: ObjectHeader, s: Bytes)
    ensures var g, v, q, o := h.group, h.variation, h.qualifier, DecodeObject(h, s);
      && (g == 0 ==>
            match q
            case AllObjects => o == Ok((BinaryInputs([]), s))
            case Range8(start, stop) =>
              var n := if stop < start then 1 else stop - start + 1;
              if |s| < n then o == Err(UnexpectedEof) else o == Ok((BinaryInputs([]), s[n..]))
            case _ => o == Err(UnknownValue("unsupported padding object qualifier", QualifierCode(q))))
      && (g == 50 && v == 1 ==>
            match q
            case Count8(n) => TimeRead(o, n, s)
            case Count16(n) => TimeRead(o, n, s)
            case CountAndPrefix16(n) => TimeRead(o, n, s)
            case CountAndPrefix32(n) => TimeRead(o, n, s)
            case _ => o == Err(UnknownValue("object qualifier without count", QualifierCode(q))))
      && (g == 60 ==>
            o == if v == 1 then Ok((IntegrityPoll, s))
                 else if v == 2 then Ok((ClassScan(Class1), s))
                 else if v == 3 then Ok((ClassScan(Class2), s))
                 else if v == 4 then Ok((ClassScan(Class3), s))
                 else Err(UnknownValue("class variation", v)))
      && (g !in {0, 1, 2, 3, 4, 10, 20, 21, 22, 30, 32, 40, 42, 60} && !(g == 50 && v == 1) ==>
            o == Err(UnknownValue("object group", g)))
  {
    hide DecodePoints, DecodePacked, U16At, U32At;
    NumbersAt(s);
    if |s| >= 6 {
      NumbersAt(s[4..]);
    }
  }

  /** One timestamp of six bytes, the low byte first. */
  predicate TimeRead(o: Outcome<(AppObject, Bytes)>, n: nat, s: Bytes) {
    if n != 1 then o == Err(InvalidLength(1, n))
    else if |s| < 6 then o == Err(UnexpectedEof)
    else o == Ok((Time(LongWord(s[0], s[1], s[2], s[3]) + 4294967296 * Word(s[4], s[5])), s[6..]))
  }

  // Fragments.

  /** Reading on after padding: nothing from fewer than three bytes, otherwise a header, its object and the rest. */
  function ReadOn(s: Bytes): Outcome<seq<AppObject>> {
    if |s| < 3 then Ok([])
    else
      var (q, body) :- DecodeQualifier(s[2], s[3..]);
      var (o, rest) :- DecodeObject(ObjectHeader(s[0], s[1], q), body);
      var more :- DecodeObjects(rest);
      Ok([o] + more)
  }

  lemma ReadAfterPadding(s: Bytes)
    ensures DecodeObjects(s) == ReadOn(SkipZeros(s))
  {
    hide DecodeQualifier, DecodeObject, SkipZeros;
    if |s| < 3 {
      NotSkipped(s);
    }
  }

  lemma NotSkipped(s: Bytes)
    requires !(|s| >= 4 && s[..4] == [0, 0, 0, 0])
    ensures SkipZeros(s) == s
  {
  }

  /** Four zero bytes in front of anything are skipped; what does not start with four is read. */
  lemma ObjectsStep(s: Bytes)
    ensures DecodeObjects(s) == if |s| >= 4 && s[..4] == [0, 0, 0, 0] then DecodeObjects(s[4..]) else ReadOn(s)
  {
    hide ReadOn, DecodeObjects, SkipZeros;
    ReadAfterPadding(s);
    if |s| >= 4 && s[..4] == [0, 0, 0, 0] {
      SkipZerosAt(s, 0);
      assert s[0..] == s && s[0..4] == s[..4];
      ReadAfterPadding(s[4..]);
    } else {
      NotSkipped(s);
    }
  }

  /** The numbers of the functions that are read. */
  lemma FunctionTable(v: u8)
    ensures var f := DecodeFunction(v);
      if v in {0, 1, 2, 3, 4, 5, 7, 20, 21, 22, 23, 24, 129, 130} then f.Ok? && FunctionNumber(f.value) == v
      else f == Err(UnknownValue("application function", v))
  {
  }

  lemma ControlBits(v: u8)
    ensures var c := DecodeControl(v);
      && (c.fir <==> v / 128 == 1) && (c.fin <==> v / 64 % 2 == 1) && (c.con <==> v / 32 % 2 == 1) && (c.uns <==> v / 16 % 2 == 1)
      && c.sequence == v % 16
  {
  }

  /** Control, function, the indications of a response low byte first, objects. */
  lemma FragmentRead(b: Bytes)
    ensures var r := DecodeFragment(b);
      if |b| < 2 then r == Err(UnexpectedEof)
      else if DecodeFunction(b[1]).Err? then r == Err(DecodeFunction(b[1]).error)
      else if b[1] >= 129 && |b| < 4 then r == Err(UnexpectedEof)
      else
        var objects := DecodeObjects(if b[1] >= 129 then b[4..] else b[2..]);
        if objects.Err? then r == Err(objects.error)
        else
          && r.Ok? && r.value.control == DecodeControl(b[0]) && FunctionNumber(r.value.func) == b[1]
          && r.value.iin == (if b[1] >= 129 then Word(b[2], b[3]) else 0)
          && r.value.objects == objects.value
  {
    hide DecodeObjects, DecodeControl, U16At;
    if |b| >= 2 {
      FunctionTable(b[1]);
      NumbersAt(b[2..]);
    }
  }
}
