/** The cursor-driven decoder of application fragments, proved against the decoding functions. */
module AppDecoder {
  import opened Primitives
  import opened App

  /** A read through the cursor has the outcome, and leaves the input, that the function says. */
  ghost predicate Agrees<T(!new)>(spec: Outcome<(T, Bytes)>, r: Outcome<T>, rest: Bytes) {
    match spec
    case Ok((v, s)) => r == Ok(v) && rest == s
    case Err(e) => r == Err(e)
  }

  method ReadHeader(input: Reader) returns (r: Outcome<ObjectHeader>)
    requires input.Valid()
    modifies input
    ensures input.Valid() && Agrees(DecodeHeader(old(input.Rest())), r, input.Rest())
  {
    hide IsSimulatorIndexed, IsCountAndPrefix16;
    var group :- input.ReadU8();
    var variation :- input.ReadU8();
    var code :- input.ReadU8();
    ghost var s := input.Rest();
    assert s == old(input.Rest())[3..];
    var qualifier: Qualifier;
    if code == 0x00 {
      var start :- input.ReadU8();
      var stop :- input.ReadU8();
      qualifier := Range8(start, stop);
    } else if code == 0x01 {
      var start :- input.ReadU16();
      var stop :- input.ReadU16();
      qualifier := Range16(start, stop);
    } else if code == 0x06 {
      qualifier := AllObjects;
    } else if code == 0x07 {
      var n :- input.ReadU8();
      qualifier := Count8(n);
    } else if code == 0x08 {
      var n :- input.ReadU16();
      qualifier := Count16(n);
    } else if code == 0x14 {
      var i :- input.ReadU32();
      qualifier := Indexed32(i);
    } else if IsSimulatorIndexed(code) {
      var n :- input.ReadU8();
      qualifier := CountAndPrefix32(n);
    } else if IsCountAndPrefix16(code) {
      var n :- input.ReadU8();
      qualifier := CountAndPrefix16(n);
    } else {
      return Err(UnknownValue("object qualifier", code));
    }
    return Ok(ObjectHeader(group, variation, qualifier));
  }

  // One point.

  method ReadValue(kind: Kind, variation: u8, input: Reader) returns (r: Outcome<int>)
    requires input.Valid()
    modifies input
    ensures input.Valid()
    ensures var s, n := old(input.Rest()), ValueSize(kind, variation);
      if |s| < n then r == Err(UnexpectedEof) else r == Ok(ValueAt(kind, variation, s)) && input.Rest() == s[n..]
  {
    match kind {
      case Binary =>
        return Ok(0);
      case Analog =>
        if variation == 2 {
          var bytes :- input.ReadExact(2);
          return Ok(SignedWordAt(bytes));
        }
        var bytes :- input.ReadExact(4);
        return Ok(SignedAt(bytes));
      case Counter =>
        var v :- input.ReadU32();
        return Ok(v);
    }
  }

  /** The part of a point after its index: flags, value, event suffix. */
  method ReadBody(fmt: PointFormat, input: Reader) returns (r: Outcome<(u8, int)>)
    requires input.Valid()
    modifies input
    ensures input.Valid()
    ensures var s, n := old(input.Rest()), 1 + ValueSize(fmt.kind, fmt.variation) + fmt.suffix;
      if |s| < n then r == Err(UnexpectedEof)
      else r == Ok((s[0], ValueAt(fmt.kind, fmt.variation, s[1..]))) && input.Rest() == s[n..]
  {
    hide ValueSize, ValueAt;
    var flags :- input.ReadU8();
    var value :- ReadValue(fmt.kind, fmt.variation, input);
    if fmt.suffix != 0 {
      var _ :- input.ReadExact(fmt.suffix);
    }
    return Ok((flags, value));
  }

  // Lists of points.

  function PrependPoints(values: seq<Point>, r: Outcome<(seq<Point>, Bytes)>): Outcome<(seq<Point>, Bytes)> {
    if r.Ok? then Ok((values + r.value.0, r.value.1)) else r
  }

  lemma ReadPointsUnfold(values: seq<Point>, fmt: PointFormat, source: IndexSource, n: nat, s: Bytes)
    requires n > 0
    ensures PrependPoints(values, ReadPoints(fmt, source, n, s)) ==
      var first := ReadPoint(fmt, source, s);
      if first.Err? then Err(first.error)
      else PrependPoints(values + [first.value.0], ReadPoints(fmt, Advance(source), n - 1, first.value.1))
  {
    hide ReadPoint;
    var first := ReadPoint(fmt, source, s);
    if first.Ok? {
      var more := ReadPoints(fmt, Advance(source), n - 1, first.value.1);
      if more.Ok? {
        ConcatAssociative(values, [first.value.0], more.value.0);
      }
    }
  }

  lemma ReadPointsEnds(values: seq<Point>, fmt: PointFormat, source: IndexSource, s: Bytes)
    ensures PrependPoints(values, ReadPoints(fmt, source, 0, s)) == Ok((values, s))
    ensures forall n: nat :: PrependPoints([], ReadPoints(fmt, source, n, s)) == ReadPoints(fmt, source, n, s)
  {
    assert values + [] == values;
    assert forall ps: seq<Point> :: [] + ps == ps;
  }

  /** The source's wrapping_add of an offset truncated to the same width. */
  function WrappingAdd(start: nat, offset: nat, width: int): int
    requires width > 0
  {
    (start + offset % width) % width
  }

  lemma WrappingAddStays(start: nat, offset: nat, width: int)
    requires (width == 0x100 || width == 0x1_0000) && start + offset < width
    ensures WrappingAdd(start, offset, width) == start + offset
  {
  }

  /** Indices counted up from the header, in arithmetic that wraps at `width`; it never does. */
  method ReadCounted(fmt: PointFormat, start: u16, width: int, count: nat, input: Reader) returns (r: Outcome<seq<Point>>)
    requires input.Valid() && (width == 0x100 || width == 0x1_0000) && start + count <= width
    modifies input
    ensures input.Valid() && Agrees(ReadPoints(fmt, Counting(start), count, old(input.Rest())), r, input.Rest())
  {
    hide ReadPoints, ValueSize, ValueAt, PrependPoints, WrappingAdd;
    ghost var target := ReadPoints(fmt, Counting(start), count, input.Rest());
    var values: seq<Point> := [];
    var offset := 0;
    ReadPointsEnds([], fmt, Counting(start), input.Rest());
    while offset < count
      invariant 0 <= offset <= count && input.Valid()
      invariant PrependPoints(values, ReadPoints(fmt, Counting(start + offset), count - offset, input.Rest())) == target
    {
      ReadPointsUnfold(values, fmt, Counting(start + offset), count - offset, input.Rest());
      WrappingAddStays(start, offset, width);
      var index := WrappingAdd(start, offset, width);
      var body :- ReadBody(fmt, input);
      values := values + [Point(index, body.0, body.1)];
      offset := offset + 1;
    }
    ReadPointsEnds(values, fmt, Counting(start + offset), input.Rest());
    return Ok(values);
  }

  /** Indices read before each point, two bytes or four; wide ones saturate. */
  method ReadPrefixed(fmt: PointFormat, wide: bool, count: nat, input: Reader) returns (r: Outcome<seq<Point>>)
    requires input.Valid()
    modifies input
    ensures input.Valid()
    ensures Agrees(ReadPoints(fmt, if wide then Prefix32 else Prefix16, count, old(input.Rest())), r, input.Rest())
  {
    hide ReadPoints, ValueSize, ValueAt, PrependPoints, U16At, U32At;
    ghost var source := if wide then Prefix32 else Prefix16;
    ghost var target := ReadPoints(fmt, source, count, input.Rest());
    var values: seq<Point> := [];
    var done := 0;
    ReadPointsEnds([], fmt, source, input.Rest());
    while done < count
      invariant 0 <= done <= count && input.Valid()
      invariant PrependPoints(values, ReadPoints(fmt, source, count - done, input.Rest())) == target
    {
      ghost var s := input.Rest();
      ReadPointsUnfold(values, fmt, source, count - done, s);
      var index: u16;
      if wide {
        var i :- input.ReadU32();
        index := ClampIndex(i);
      } else {
        index :- input.ReadU16();
      }
      var body :- ReadBody(fmt, input);
      assert s[PrefixSize(source)..][1..] == s[PrefixSize(source) + 1..];
      values := values + [Point(index, body.0, body.1)];
      done := done + 1;
    }
    ReadPointsEnds(values, fmt, source, input.Rest());
    return Ok(values);
  }

  method ReadPointList(kind: Kind, group: u8, variation: u8, q: Qualifier, input: Reader) returns (r: Outcome<seq<Point>>)
    requires input.Valid()
    modifies input
    ensures input.Valid()
    ensures Agrees(DecodePoints(kind, group, variation, q, old(input.Rest())), r, input.Rest())
  {
    hide ReadPoints;
    var fmt := PointFormat(kind, variation, EventSuffix(group, variation));
    match q {
      case Range16(start, stop) =>
        if stop < start {
          return Err(InvalidLength(start, stop));
        }
        r := ReadCounted(fmt, start, 0x1_0000, stop - start + 1, input);
      case Range8(start, stop) =>
        r := ReadCounted(fmt, start, 0x100, SaturatingSub(stop, start) + 1, input);
      case Indexed32(i) =>
        r := ReadCounted(fmt, ClampIndex(i), 0x1_0000, 1, input);
      case CountAndPrefix32(n) =>
        r := ReadPrefixed(fmt, true, n, input);
      case CountAndPrefix16(n) =>
        r := ReadPrefixed(fmt, false, n, input);
      case Count8(n) =>
        if kind.Binary? {
          r := ReadCounted(fmt, 0, 0x1_0000, n, input);
        } else {
          r := ReadPrefixed(fmt, false, n, input);
        }
      case Count16(n) =>
        if kind.Binary? {
          r := ReadCounted(fmt, 0, 0x1_0000, n, input);
        } else {
          r := ReadPrefixed(fmt, false, n, input);
        }
      case AllObjects =>
        return Err(UnknownValue("object qualifier without count", QualifierCode(q)));
    }
  }

  // Packed points.

  /** How many points precede a slot: the source's `byte_offset * 8 + bit`. */
  function PackedOffset(double: bool, byte: nat, slot: nat): nat {
    if double then byte * 4 + slot else byte * 8 + slot
  }

  lemma SlotOf(double: bool, byte: nat, slot: nat)
    requires slot < Slots(double)
    ensures PackedOffset(double, byte, slot) / Slots(double) == byte
    ensures PackedOffset(double, byte, slot) % Slots(double) == slot
  {
  }

  lemma BytesNeeded(double: bool, count: nat, bytes: nat)
    ensures PackedOffset(double, bytes, 0) < count <==> bytes < PackedBytes(double, count)
  {
  }

  /** The points unpacked so far are the flat reading of the bytes. */
  ghost predicate Unpacked(double: bool, start: nat, s: Bytes, values: seq<Point>) {
    && start + |values| <= 0x1_0000
    && forall k :: 0 <= k < |values| ==> k / Slots(double) < |s| && values[k] == PackedPoint(double, start, s, k)
  }

  lemma UnpackedExtends(double: bool, start: nat, s: Bytes, values: seq<Point>, byte: nat, slot: nat)
    requires Unpacked(double, start, s, values) && slot < Slots(double) && byte < |s|
    requires |values| == PackedOffset(double, byte, slot) && start + |values| < 0x1_0000
    ensures Unpacked(double, start, s, values + [Point(start + |values|, PackedFlags(double, s[byte], slot), 0)])
  {
    hide PackedFlags;
    SlotOf(double, byte, slot);
  }

  lemma UnpackedIsFlat(double: bool, start: nat, count: nat, s: Bytes, values: seq<Point>, bytes: nat)
    requires start + count <= 0x1_0000 && |values| == count && bytes <= |s|
    requires count <= PackedOffset(double, bytes, 0) && (bytes > 0 ==> PackedOffset(double, bytes - 1, 0) < count)
    requires Unpacked(double, start, s, values)
    ensures PackedPoints(double, start, count, s) == Ok((values, s[bytes..]))
  {
    hide PackedFlags;
    BytesNeeded(double, count, bytes);
    if bytes > 0 {
      BytesNeeded(double, count, bytes - 1);
    }
    assert PackedPoints(double, start, count, s).value.0 == values;
  }

  lemma NothingUnpacked(double: bool, start: u16, s: Bytes)
    ensures Unpacked(double, start, s, [])
  {
  }

  /** Nested loops over bytes and slots; neither the offset arithmetic nor the index wraps. */
  method ReadPacked(double: bool, start: u16, width: int, count: nat, input: Reader) returns (r: Outcome<seq<Point>>)
    requires input.Valid() && (width == 0x100 || width == 0x1_0000) && start + count <= width
    modifies input
    ensures input.Valid() && Agrees(PackedPoints(double, start, count, old(input.Rest())), r, input.Rest())
  {
    hide PackedFlags, WrappingAdd, Unpacked;
    ghost var s := input.Rest();
    var values: seq<Point> := [];
    var remaining := count;
    var byteOffset := 0;
    NothingUnpacked(double, start, s);
    while remaining > 0
      invariant input.Valid() && 0 <= byteOffset <= |s| && input.Rest() == s[byteOffset..]
      invariant 0 <= remaining == count - |values|
      invariant |values| == Min(count, PackedOffset(double, byteOffset, 0))
      invariant byteOffset > 0 ==> PackedOffset(double, byteOffset - 1, 0) < count
      invariant Unpacked(double, start, s, values)
    {
      BytesNeeded(double, count, byteOffset);
      var byte :- input.ReadU8();
      var slot := 0;
      while slot < Slots(double)
        invariant input.Valid() && input.Rest() == s[byteOffset + 1..]
        invariant 0 <= slot <= Slots(double) && 0 <= remaining == count - |values|
        invariant |values| == Min(count, PackedOffset(double, byteOffset, slot))
        invariant Unpacked(double, start, s, values)
      {
        if remaining == 0 {
          break;
        }
        var offset := PackedOffset(double, byteOffset, slot);
        assert offset < width;
        UnpackedExtends(double, start, s, values, byteOffset, slot);
        WrappingAddStays(start, offset, width);
        values := values + [Point(WrappingAdd(start, offset, width), PackedFlags(double, byte, slot), 0)];
        remaining := remaining - 1;
        slot := slot + 1;
      }
      byteOffset := byteOffset + 1;
      assert byteOffset < width;
    }
    UnpackedIsFlat(double, start, count, s, values, byteOffset);
    return Ok(values);
  }

  method ReadPackedList(double: bool, q: Qualifier, input: Reader) returns (r: Outcome<seq<Point>>)
    requires input.Valid()
    modifies input
    ensures input.Valid() && Agrees(DecodePacked(double, q, old(input.Rest())), r, input.Rest())
  {
    hide DecodePoints, PackedPoints;
    match q {
      case Range16(start, stop) =>
        if stop < start {
          return Err(InvalidLength(start, stop));
        }
        r := ReadPacked(double, start, 0x1_0000, stop - start + 1, input);
      case Range8(start, stop) =>
        r := ReadPacked(double, start, 0x100, SaturatingSub(stop, start) + 1, input);
      case _ =>
        r := ReadPointList(Binary, if double then 3 else 1, 2, q, input);
    }
  }

  // Objects and fragments.

  method SkipObjectBody(q: Qualifier, input: Reader) returns (r: Outcome<()>)
    requires input.Valid()
    modifies input
    ensures input.Valid()
    ensures match SkipBody(q, old(input.Rest()))
      case Ok(rest) => r == Ok(()) && input.Rest() == rest
      case Err(e) => r == Err(e)
  {
    match q {
      case Range8(start, stop) =>
        ghost var s := input.Rest();
        var count := SaturatingSub(stop, start) + 1;
        var done := 0;
        while done < count
          invariant input.Valid() && 0 <= done <= count && done <= |s| && input.Rest() == s[done..]
        {
          var _ :- input.ReadU8();
          done := done + 1;
        }
        return Ok(());
      case AllObjects =>
        return Ok(());
      case _ =>
        return Err(UnknownValue("unsupported padding object qualifier", QualifierCode(q)));
    }
  }

  method ReadTime(q: Qualifier, input: Reader) returns (r: Outcome<AppObject>)
    requires input.Valid()
    modifies input
    ensures input.Valid() && Agrees(DecodeTime(q, old(input.Rest())), r, input.Rest())
  {
    hide QualifierCount;
    ghost var s := input.Rest();
    var n :- QualifierCount(q);
    if n != 1 {
      return Err(InvalidLength(1, n));
    }
    var bytes :- input.ReadExact(6);
    TimestampPrefix(s);
    return Ok(Time(TimestampAt(bytes)));
  }

  lemma TimestampPrefix(s: Bytes)
    requires |s| >= 6
    ensures TimestampAt(s[..6]) == TimestampAt(s)
  {
  }

  method ReadObject(h: ObjectHeader, input: Reader) returns (r: Outcome<AppObject>)
    requires input.Valid()
    modifies input
    ensures input.Valid() && Agrees(DecodeObject(h, old(input.Rest())), r, input.Rest())
  {
    hide DecodePoints, DecodePacked, SkipBody, DecodeTime;
    var g, v, q := h.group, h.variation, h.qualifier;
    if g == 0 {
      var _ :- SkipObjectBody(q, input);
      return Ok(BinaryInputs([]));
    } else if g == 1 || g == 2 {
      var ps := ReadBinaryGroup(g == 1 && v == 1, false, g, v, q, input);
      return if ps.Err? then Err(ps.error) else Ok(BinaryInputs(ps.value));
    } else if g == 3 || g == 4 {
      var ps := ReadBinaryGroup(g == 3 && v == 1, true, g, v, q, input);
      return if ps.Err? then Err(ps.error) else Ok(DoubleBitBinaryInputs(ps.value));
    } else if g == 10 {
      var ps: Outcome<seq<Point>>;
      if v == 1 {
        ps := ReadOutputPacked(q, input);
      } else {
        ps := ReadPointList(Binary, 1, 2, q, input);
      }
      return if ps.Err? then Err(ps.error) else Ok(BinaryOutputs(ps.value));
    } else if 20 <= g <= 22 {
      var ps := ReadPointList(Counter, g, v, q, input);
      return if ps.Err? then Err(ps.error) else Ok(Counters(ps.value));
    } else if g == 30 || g == 32 {
      var ps := ReadPointList(Analog, g, v, q, input);
      return if ps.Err? then Err(ps.error) else Ok(AnalogInputs(ps.value));
    } else if g == 40 || g == 42 {
      var ps := ReadPointList(Analog, g, v, q, input);
      return if ps.Err? then Err(ps.error) else Ok(AnalogOutputs(ps.value));
    } else if g == 50 && v == 1 {
      r := ReadTime(q, input);
    } else if g == 60 && v == 1 {
      return Ok(IntegrityPoll);
    } else if g == 60 {
      var c :- ParseClass(v);
      return Ok(ClassScan(c));
    } else {
      return Err(UnknownValue("object group", g));
    }
  }

  method ReadBinaryGroup(packed: bool, double: bool, group: u8, variation: u8, q: Qualifier, input: Reader)
    returns (r: Outcome<seq<Point>>)
    requires input.Valid()
    modifies input
    ensures input.Valid()
    ensures var s := old(input.Rest());
      Agrees(if packed then DecodePacked(double, q, s) else DecodePoints(Binary, group, variation, q, s), r, input.Rest())
    ensures r.Ok? ==> AllFit(Binary, r.value)
  {
    hide DecodePoints, DecodePacked;
    if packed {
      r := ReadPackedList(double, q, input);
    } else {
      r := ReadPointList(Binary, group, variation, q, input);
    }
  }

  /** The separate indexed form of packed outputs reads what the general form reads. */
  method ReadOutputPacked(q: Qualifier, input: Reader) returns (r: Outcome<seq<Point>>)
    requires input.Valid()
    modifies input
    ensures input.Valid() && Agrees(DecodePoints(Binary, 1, 2, q, old(input.Rest())), r, input.Rest())
  {
    if q.Indexed32? {
      ghost var fmt := PointFormat(Binary, 2, 0);
      ghost var s := input.Rest();
      ReadPointsUnfold([], fmt, Counting(ClampIndex(q.index)), 1, s);
      ReadPointsEnds([], fmt, Counting(ClampIndex(q.index)), s);
      var flags :- input.ReadU8();
      var p := Point(ClampIndex(q.index), flags, 0);
      ReadPointsEnds([p], fmt, Counting(ClampIndex(q.index) + 1), input.Rest());
      return Ok([p]);
    }
    r := ReadPointList(Binary, 1, 2, q, input);
  }

  lemma DecodeObjectsStep(done: seq<AppObject>, s: Bytes)
    ensures Prepend([], DecodeObjects(s)) == DecodeObjects(s)
    ensures |s| < 3 || |SkipZeros(s)| < 3 ==> Prepend(done, DecodeObjects(s)) == Ok(done)
    ensures |s| >= 3 && |SkipZeros(s)| >= 3 ==> (
      var h := DecodeHeader(SkipZeros(s));
      Prepend(done, DecodeObjects(s)) ==
        if h.Err? then Err(h.error)
        else
          var o := DecodeObject(h.value.0, h.value.1);
          if o.Err? then Err(o.error) else Prepend(done + [o.value.0], DecodeObjects(o.value.1)))
  {
    hide DecodeHeader, DecodeObject, SkipZeros;
    assert done + [] == done;
    assert forall os: seq<AppObject> :: [] + os == os;
    var t := SkipZeros(s);
    if |s| >= 3 && |t| >= 3 && DecodeHeader(t).Ok? {
      var (h, body) := DecodeHeader(t).value;
      if DecodeObject(h, body).Ok? {
        var (o, rest) := DecodeObject(h, body).value;
        if DecodeObjects(rest).Ok? {
          ConcatAssociative(done, [o], DecodeObjects(rest).value);
        }
      }
    }
  }

  method ReadFragment(input: Bytes) returns (r: Outcome<ApplicationFragment>)
    ensures r == DecodeFragment(input)
  {
    hide DecodeObjects, DecodeHeader, DecodeObject, SkipZeros, DecodeFunction, DecodeControl, Prepend;
    var reader := new Reader(input);
    var control :- reader.ReadU8();
    var code :- reader.ReadU8();
    var func :- DecodeFunction(code);
    var iin: u16 := 0;
    if IncludesIin(func) {
      iin :- reader.ReadU16();
    }
    ghost var body := reader.Rest();
    var objects: seq<AppObject> := [];
    DecodeObjectsStep([], body);
    while reader.Remaining() >= 3
      invariant reader.Valid()
      invariant Prepend(objects, DecodeObjects(reader.Rest())) == DecodeObjects(body)
      decreases |reader.Rest()|
    {
      DecodeObjectsStep(objects, reader.Rest());
      reader.SkipPaddingZeros();
      if reader.Remaining() < 3 {
        return Ok(ApplicationFragment(DecodeControl(control), func, iin, objects));
      }
      var header :- ReadHeader(reader);
      var object_ :- ReadObject(header, reader);
      objects := objects + [object_];
    }
    DecodeObjectsStep(objects, reader.Rest());
    return Ok(ApplicationFragment(DecodeControl(control), func, iin, objects));
  }
}
