/** The encoder of application fragments as it appends to a buffer, proved against the encoding functions. */
module AppEncoder {
  import opened Primitives
  import opened App

  method FindContiguousRange(points: seq<Point>) returns (r: Option<(u16, u16)>)
    ensures r == ContiguousRange(points)
  {
    if points == [] {
      return None;
    }
    var start := points[0].index;
    var offset := 0;
    while offset < |points|
      invariant 0 <= offset <= |points|
      invariant forall k :: 0 <= k < offset ==> points[k].index == (start + k) % 0x1_0000
    {
      if points[offset].index != (start + offset % 0x1_0000) % 0x1_0000 {
        assert !Consecutive(points);
        return None;
      }
      offset := offset + 1;
    }
    return Some((start, points[|points| - 1].index));
  }

  lemma BodiesAt(kind: Kind, points: seq<Point>, i: nat)
    requires AllFit(kind, points) && i < |points|
    ensures Bodies(kind, points[i..]) == PointBody(kind, points[i]) + Bodies(kind, points[i + 1..])
    ensures PrefixedBodies(kind, points[i..]) ==
      U16Bytes(points[i].index) + PointBody(kind, points[i]) + PrefixedBodies(kind, points[i + 1..])
  {
    hide PointBody, U16Bytes;
    assert points[i..][0] == points[i] && points[i..][1..] == points[i + 1..];
  }

  /** Ranged objects carry bodies only; prefixed ones an index before each body. */
  method AppendBodies(kind: Kind, prefixed: bool, points: seq<Point>, out: Bytes) returns (r: Bytes)
    requires AllFit(kind, points)
    ensures r == out + if prefixed then PrefixedBodies(kind, points) else Bodies(kind, points)
  {
    hide Bodies, PrefixedBodies, PointBody, U16Bytes, Fits;
    r := out;
    var i := 0;
    ghost var target := out + if prefixed then PrefixedBodies(kind, points) else Bodies(kind, points);
    assert points[0..] == points;
    while i < |points|
      invariant 0 <= i <= |points|
      invariant r + (if prefixed then PrefixedBodies(kind, points[i..]) else Bodies(kind, points[i..])) == target
    {
      BodiesAt(kind, points, i);
      var p := points[i];
      if prefixed {
        r := r + U16Bytes(p.index);
      }
      r := r + PointBody(kind, p);
      i := i + 1;
    }
    assert points[i..] == [];
    NoBodies(kind);
  }

  lemma NoBodies(kind: Kind)
    ensures Bodies(kind, []) == [] && PrefixedBodies(kind, []) == []
  {
  }

  method AppendPoints(kind: Kind, group: u8, variation: u8, points: seq<Point>, out: Bytes) returns (r: Outcome<Bytes>)
    requires AllFit(kind, points)
    ensures match EncodePoints(kind, group, variation, points)
      case Ok(b) => r == Ok(out + b)
      case Err(e) => r == Err(e)
  {
    hide Bodies, PrefixedBodies, EncodeHeader, ContiguousRange;
    var range := FindContiguousRange(points);
    var appended := out;
    match range {
      case Some((start, stop)) =>
        appended := appended + EncodeHeader(ObjectHeader(group, variation, Range16(start, stop)));
        appended := AppendBodies(kind, false, points, appended);
      case None =>
        if |points| > 0xff {
          return Err(InvalidLength(0xff, |points|));
        }
        appended := appended + EncodeHeader(ObjectHeader(group, variation, CountAndPrefix16(|points|)));
        appended := AppendBodies(kind, true, points, appended);
    }
    assert appended == out + EncodePoints(kind, group, variation, points).value;
    return Ok(appended);
  }

  method AppendObject(o: AppObject, out: Bytes) returns (r: Outcome<Bytes>)
    ensures match EncodeObject(o)
      case Ok(b) => r == Ok(out + b)
      case Err(e) => r == Err(e)
  {
    hide EncodePoints, EncodeHeader, TimestampBytes;
    match o {
      case BinaryInputs(ps) => r := AppendPoints(Binary, 1, 2, ps, out);
      case DoubleBitBinaryInputs(ps) => r := AppendPoints(Binary, 3, 2, ps, out);
      case BinaryOutputs(ps) => r := AppendPoints(Binary, 10, 2, ps, out);
      case AnalogInputs(ps) => r := AppendPoints(Analog, 30, 1, ps, out);
      case AnalogOutputs(ps) => r := AppendPoints(Analog, 40, 1, ps, out);
      case Counters(ps) => r := AppendPoints(Counter, 20, 1, ps, out);
      case Time(t) =>
        ConcatAssociative(out, EncodeHeader(ObjectHeader(50, 1, Count8(1))), TimestampBytes(t));
        r := Ok(out + EncodeHeader(ObjectHeader(50, 1, Count8(1))) + TimestampBytes(t));
      case ClassScan(c) => r := Ok(out + EncodeHeader(ObjectHeader(60, ClassVariation(c), AllObjects)));
      case IntegrityPoll => r := Ok(out + EncodeHeader(ObjectHeader(60, 1, AllObjects)));
    }
  }

  lemma EncodeObjectsAt(out: Bytes, objects: seq<AppObject>, i: nat)
    requires i < |objects|
    ensures Prepend(out, EncodeObjects(objects[i..])) ==
      var first := EncodeObject(objects[i]);
      if first.Err? then Err(first.error) else Prepend(out + first.value, EncodeObjects(objects[i + 1..]))
  {
    hide EncodeObject;
    assert objects[i..][0] == objects[i] && objects[i..][1..] == objects[i + 1..];
    var first, rest := EncodeObject(objects[i]), EncodeObjects(objects[i + 1..]);
    if first.Ok? && rest.Ok? {
      ConcatAssociative(out, first.value, rest.value);
    }
  }

  method WriteFragment(f: ApplicationFragment) returns (r: Outcome<Bytes>)
    ensures r == EncodeFragment(f)
  {
    hide EncodeObjects, EncodeObject, EncodeControl, EncodeFunction, U16Bytes;
    var out: Bytes := [];
    out := out + [EncodeControl(f.control)];
    out := out + [EncodeFunction(f.func)];
    if IncludesIin(f.func) {
      out := out + U16Bytes(f.iin);
    }
    assert out == FragmentHeader(f);
    var i := 0;
    assert f.objects[0..] == f.objects;
    while i < |f.objects|
      invariant 0 <= i <= |f.objects|
      invariant Prepend(out, EncodeObjects(f.objects[i..])) == Prepend(FragmentHeader(f), EncodeObjects(f.objects))
    {
      EncodeObjectsAt(out, f.objects, i);
      out :- AppendObject(f.objects[i], out);
      i := i + 1;
    }
    assert f.objects[i..] == [];
    EncodeNoObjects(out);
    return Ok(out);
  }

  lemma EncodeNoObjects(out: Bytes)
    ensures Prepend(out, EncodeObjects([])) == Ok(out)
  {
    assert out + [] == out;
  }
}
