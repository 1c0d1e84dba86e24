/** Where each point of a decoded list lies in the bytes, stated without recursion. */
module AppLayout {
  import opened Primitives
  import opened App

  function RecordSize(fmt: PointFormat, source: IndexSource): nat {
    PrefixSize(source) + 1 + ValueSize(fmt.kind, fmt.variation) + fmt.suffix
  }

  /** Point k of a list: its index is counted or read, its flags and value follow. */
  function PointAt(fmt: PointFormat, source: IndexSource, k: nat, record: Bytes): Point
    requires |record| >= RecordSize(fmt, source)
  {
    var p := PrefixSize(source);
    Point(
      match source
        case Counting(next) => ClampIndex(next + k)
        case Prefix16 => U16At(record)
        case Prefix32 => ClampIndex(U32At(record)),
      record[p],
      ValueAt(fmt.kind, fmt.variation, record[p + 1..]))
  }

  /** The bytes from point k on. */
  function Offset(size: nat, k: nat): nat { size * k }

  lemma OffsetStep(size: nat, k: nat)
    ensures Offset(size, 0) == 0 && Offset(size, k + 1) == size + Offset(size, k)
  {
  }

  lemma ReadPointIsFlat(fmt: PointFormat, source: IndexSource, s: Bytes)
    ensures ReadPoint(fmt, source, s) ==
      if |s| < RecordSize(fmt, source) then Err(UnexpectedEof)
      else Ok((PointAt(fmt, source, 0, s), s[RecordSize(fmt, source)..]))
  {
    hide ValueSize, ValueAt, U16At, U32At;
  }

  /** A list of n points is read exactly when n records are there, and consumes those and no more. */
  lemma {:induction false} ReadPointsConsumes(fmt: PointFormat, source: IndexSource, n: nat, s: Bytes)
    ensures var r, end := ReadPoints(fmt, source, n, s), Offset(RecordSize(fmt, source), n);
      if |s| < end then r == Err(UnexpectedEof) else r.Ok? && |r.value.0| == n && r.value.1 == s[end..]
    decreases n
  {
    hide ValueSize, ReadPoint, PointAt, Offset;
    var size := RecordSize(fmt, source);
    OffsetStep(size, 0);
    if n > 0 {
      OffsetStep(size, n - 1);
      ReadPointIsFlat(fmt, source, s);
      if |s| >= size {
        ReadPointsConsumes(fmt, Advance(source), n - 1, s[size..]);
      }
    }
  }

  /** Point k of a list is the k-th record, whatever the qualifier, kind or event suffix. */
  lemma {:induction false} ReadPointsRecord(fmt: PointFormat, source: IndexSource, n: nat, s: Bytes, k: nat)
    requires ReadPoints(fmt, source, n, s).Ok? && k < n
    ensures var size := RecordSize(fmt, source);
      Offset(size, k) + size <= |s| &&
      ReadPoints(fmt, source, n, s).value.0[k] == PointAt(fmt, source, k, s[Offset(size, k)..])
    decreases n
  {
    hide ValueSize, ValueAt, ReadPoint, U16At, U32At, Offset;
    var size := RecordSize(fmt, source);
    OffsetStep(size, 0);
    ReadPointIsFlat(fmt, source, s);
    if k == 0 {
      assert s[0..] == s;
    } else {
      var t := s[size..];
      ReadPointsRecord(fmt, Advance(source), n - 1, t, k - 1);
      OffsetStep(size, k - 1);
      assert t[Offset(size, k - 1)..] == s[Offset(size, k)..];
    }
  }
}
