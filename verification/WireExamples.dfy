/** Wire examples that the repository's own tests pin down, proved of the model. */
module WireExamples {
  import opened Primitives
  import opened Crc
  import opened CrcDetection
  import opened CrcBlocks
  import Link
  import App
  import Master
  import MasterRuns

  function Octet(r: bv16): bv16 { Step(Step(Step(Step(Step(Step(Step(Step(r)))))))) }

  lemma FeedOne(r: bv16, w: seq<bv8>, i: nat, s: bv16)
    requires i < |w| && Octet(r ^ (w[i] as bv16)) == s
    ensures Feed(r, w[i..]) == Feed(s, w[i + 1..])
  {
    var x := r ^ (w[i] as bv16);
    assert w[i..][0] == w[i] && w[i..][1..] == w[i + 1..];
    assert Xor(r, Widen(w[i])) == x;
    hide Step, Xor, Widen;
    StepsFour(4, x);
    StepsFour(0, Step(Step(Step(Step(x)))));
    assert Steps(0, Octet(x)) == Octet(x);
  }

  /** The checksum of a reset header. */
  lemma HeaderChecksum()
    ensures Checksum([0x05, 0x64, 0x05, 0xc0, 0x01, 0x00, 0x00, 0x04]) == 0x21e9
  {
    var w: seq<bv8> := [0x05, 0x64, 0x05, 0xc0, 0x01, 0x00, 0x00, 0x04];
    FeedOne(0xc116, w, 7, 0xde16);
    FeedOne(0x3033, w, 6, 0xc116);
    FeedOne(0x8f6e, w, 5, 0x3033);
    FeedOne(0x7da1, w, 4, 0x8f6e);
    FeedOne(0xffb6, w, 3, 0x7da1);
    FeedOne(0x3f0d, w, 2, 0xffb6);
    FeedOne(0xef26, w, 1, 0x3f0d);
    FeedOne(0x0000, w, 0, 0xef26);
    assert w[0..] == w && w[8..] == [];
  }

  lemma ToolResetChecksum()
    ensures Checksum([0x05, 0x64, 0x05, 0xc0, 0x0a, 0x00, 0x01, 0x00]) == 0xacb1
  {
    var w: seq<bv8> := [0x05, 0x64, 0x05, 0xc0, 0x0a, 0x00, 0x01, 0x00];
    FeedOne(0x1040, w, 7, 0x534e);
    FeedOne(0xef0c, w, 6, 0x1040);
    FeedOne(0x2a05, w, 5, 0xef0c);
    FeedOne(0x7da1, w, 4, 0x2a05);
    FeedOne(0xffb6, w, 3, 0x7da1);
    FeedOne(0x3f0d, w, 2, 0xffb6);
    FeedOne(0xef26, w, 1, 0x3f0d);
    FeedOne(0x0000, w, 0, 0xef26);
    assert w[0..] == w && w[8..] == [];
  }

  /** The whole tool-style reset frame from station 1 to station 10. */
  lemma ToolResetFrame()
    ensures Link.Encode(Link.LinkFrame(Link.PrimaryControl(Link.OutstationToMaster, Link.ResetLinkStates), 10, 1, [])) ==
      [0x05, 0x64, 0x05, 0xc0, 0x0a, 0x00, 0x01, 0x00, 0xb1, 0xac]
  {
    hide Checksum;
    var f := Link.LinkFrame(Link.PrimaryControl(Link.OutstationToMaster, Link.ResetLinkStates), 10, 1, []);
    var h: Bytes := [0x05, 0x64, 0x05, 0xc0, 0x0a, 0x00, 0x01, 0x00];
    assert Link.Header(f) == h;
    assert Bits(h) == [0x05, 0x64, 0x05, 0xc0, 0x0a, 0x00, 0x01, 0x00];
    ToolResetChecksum();
    assert CrcBytes(h) == [0xb1, 0xac];
  }

  /** The integrity poll of a tool-style master. */
  lemma ToolPollBytes()
    ensures App.EncodeFragment(Master.PollRequest(Master.Tool, 0)) ==
      Ok([0xc0, 0x01, 0x3c, 0x01, 0x06, 0x3c, 0x02, 0x06, 0x3c, 0x03, 0x06, 0x3c, 0x04, 0x06])
  {
    hide App.EncodeFragment, Master.PollRequest;
    MasterRuns.PollRequestBytes(Master.Tool, 0);
    var head: Bytes := [0xc0, 0x01, 0x3c, 0x01, 0x06];
    assert head + MasterRuns.TOOL_SCANS == [0xc0, 0x01, 0x3c, 0x01, 0x06, 0x3c, 0x02, 0x06, 0x3c, 0x03, 0x06, 0x3c, 0x04, 0x06];
  }

  /** A single binary input is written as a range. */
  lemma SingleInputBytes()
    ensures App.EncodeObject(App.BinaryInputs([App.Point(0, 0x81, 0)])) ==
      Ok([0x01, 0x02, 0x01, 0x00, 0x00, 0x00, 0x00, 0x81])
  {
    var ps := [App.Point(0, 0x81, 0)];
    assert App.Consecutive(ps);
    assert App.EncodeHeader(App.ObjectHeader(1, 2, App.Range16(0, 0))) == [0x01, 0x02, 0x01, 0x00, 0x00, 0x00, 0x00];
    assert ps[1..] == [];
    assert App.Bodies(App.Binary, ps) == [0x81];
    assert [0x01, 0x02, 0x01, 0x00, 0x00, 0x00, 0x00] + [0x81] == [0x01, 0x02, 0x01, 0x00, 0x00, 0x00, 0x00, 0x81];
  }

  lemma OneObject(h: App.ObjectHeader, s: Bytes, body: Bytes, o: App.AppObject)
    requires |s| >= 3 && SkipZeros(s) == s
    requires App.DecodeHeader(s) == Ok((h, body)) && App.DecodeObject(h, body) == Ok((o, []))
    ensures App.DecodeObjects(s) == Ok([o])
  {
    hide App.DecodeHeader, App.DecodeObject;
    assert App.DecodeObjects([]) == Ok([]);
    assert [o] + [] == [o];
  }

  lemma OnePoint(fmt: App.PointFormat, source: App.IndexSource, s: Bytes, p: App.Point)
    requires App.ReadPoint(fmt, source, s) == Ok((p, []))
    ensures App.ReadPoints(fmt, source, 1, s) == Ok(([p], []))
  {
    hide App.ReadPoint;
    assert [p] + [] == [p];
    assert App.ReadPoints(fmt, App.Advance(source), 0, []) == Ok(([], []));
  }

  /** A vendor analog event: qualifier 0x8f, four-byte index prefix, six bytes of time skipped. */
  lemma VendorAnalogEvent()
    ensures App.DecodeObjects(
      [0x20, 0x03, 0x8f, 0x01, 0x00, 0x00, 0x00, 0x00, 0x01, 0x00, 0x00, 0x80, 0x3f, 0x00, 0x00, 0x00, 0x00, 0x00, 0x00]) ==
      Ok([App.AnalogInputs([App.Point(0, 0x01, 0x3f80_0000)])])
  {
    hide *;
    var s: Bytes :=
      [0x20, 0x03, 0x8f, 0x01, 0x00, 0x00, 0x00, 0x00, 0x01, 0x00, 0x00, 0x80, 0x3f, 0x00, 0x00, 0x00, 0x00, 0x00, 0x00];
    var body: Bytes := [0x00, 0x00, 0x00, 0x00, 0x01, 0x00, 0x00, 0x80, 0x3f, 0x00, 0x00, 0x00, 0x00, 0x00, 0x00];
    var h := App.ObjectHeader(0x20, 3, App.CountAndPrefix32(1));
    var p := App.Point(0, 0x01, 0x3f80_0000);
    VendorHeader(s, body);
    NoPadding(s);
    VendorPoint(body);
    VendorObject(body, p);
    OneObject(h, s, body, App.AnalogInputs([p]));
  }

  lemma NoPadding(s: Bytes)
    requires s != [] && s[0] != 0
    ensures SkipZeros(s) == s
  {
  }

  lemma VendorObject(body: Bytes, p: App.Point)
    requires App.Fits(App.Analog, p)
    requires App.ReadPoint(App.PointFormat(App.Analog, 3, 6), App.Prefix32, body) == Ok((p, []))
    ensures App.DecodeObject(App.ObjectHeader(0x20, 3, App.CountAndPrefix32(1)), body) == Ok((App.AnalogInputs([p]), []))
  {
    hide App.ReadPoint, App.ReadPoints, App.DecodePacked, App.SkipBody, App.DecodeTime;
    OnePoint(App.PointFormat(App.Analog, 3, 6), App.Prefix32, body, p);
  }

  lemma VendorHeader(s: Bytes, body: Bytes)
    requires s == [0x20, 0x03, 0x8f, 0x01] + body
    ensures |s| >= 3
    ensures App.DecodeHeader(s) == Ok((App.ObjectHeader(0x20, 3, App.CountAndPrefix32(1)), body))
  {
    assert s[3..] == [0x01] + body && s[3..][1..] == body;
  }

  lemma VendorPoint(body: Bytes)
    requires body == [0x00, 0x00, 0x00, 0x00, 0x01, 0x00, 0x00, 0x80, 0x3f, 0x00, 0x00, 0x00, 0x00, 0x00, 0x00]
    ensures App.ReadPoint(App.PointFormat(App.Analog, 3, 6), App.Prefix32, body) == Ok((App.Point(0, 0x01, 0x3f80_0000), []))
  {
    assert body[5..][0] == 0x00 && body[5..][1] == 0x00 && body[5..][2] == 0x80 && body[5..][3] == 0x3f;
  }
}
