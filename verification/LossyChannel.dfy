/** A run of messages sent through one session over a channel that drops segments. */
module LossyChannel {
  import opened Primitives
  import opened Transport

  /** Everything a session sends for a list of messages, starting at a segment number. */
  function Sent(messages: seq<Bytes>, sequence: u8): seq<Segment> {
    if messages == [] then []
    else Fragment(messages[0], sequence) + Sent(messages[1..], NextSequence(sequence, SegmentCount(messages[0])))
  }

  /** What the channel lets through. */
  function Kept<T>(segments: seq<T>, mask: seq<bool>): seq<T>
    requires |segments| == |mask|
  {
    if segments == [] then []
    else (if mask[0] then [segments[0]] else []) + Kept(segments[1..], mask[1..])
  }

  /** The messages a reassembler completes while a list of segments is pushed. */
  function Received(st: ReassemblerState, segments: seq<Segment>): (ReassemblerState, seq<Bytes>)
    decreases |segments|
  {
    if segments == [] then (st, [])
    else
      var (next, r) := Push(st, segments[0]);
      var (last, rs) := Received(next, segments[1..]);
      (last, (if r.Ok? && r.value.Some? then [r.value.value] else []) + rs)
  }

  predicate All(mask: seq<bool>) { forall i :: 0 <= i < |mask| ==> mask[i] }

  function TotalSegments(messages: seq<Bytes>): nat {
    if messages == [] then 0 else SegmentCount(messages[0]) + TotalSegments(messages[1..])
  }

  /** The messages that lost no segment. */
  function Survivors(messages: seq<Bytes>, mask: seq<bool>): seq<Bytes>
    requires |mask| == TotalSegments(messages)
  {
    if messages == [] then []
    else
      var n := SegmentCount(messages[0]);
      (if All(mask[..n]) then [messages[0]] else []) + Survivors(messages[1..], mask[n..])
  }

  predicate SomeKept(mask: seq<bool>, i: nat) {
    exists j :: i <= j < i + 0x40 && j < |mask| && mask[j]
  }

  /** No 64 segments in a row are lost. */
  ghost predicate NoLongGap(mask: seq<bool>) {
    forall i: nat :: i + 0x40 <= |mask| ==> SomeKept(mask, i)
  }

  // The same condition counted along the mask.

  function Gap(gap: nat, mask: seq<bool>): nat
    decreases |mask|
  {
    if mask == [] then gap else Gap(if mask[0] then 0 else gap + 1, mask[1..])
  }

  predicate GapsBelow(gap: nat, mask: seq<bool>)
    decreases |mask|
  {
    gap < 0x40 && (mask == [] || GapsBelow(if mask[0] then 0 else gap + 1, mask[1..]))
  }

  lemma {:induction false} GapsBelowSplit(gap: nat, a: seq<bool>, b: seq<bool>)
    ensures GapsBelow(gap, a + b) <==> GapsBelow(gap, a) && GapsBelow(Gap(gap, a), b)
    decreases |a|
  {
    if a == [] {
      assert a + b == b;
    } else {
      assert (a + b)[1..] == a[1..] + b;
      GapsBelowSplit(if a[0] then 0 else gap + 1, a[1..], b);
    }
  }

  lemma {:induction false} NoLongGapCounted(mask: seq<bool>, at: nat, gap: nat)
    requires NoLongGap(mask) && gap <= at <= |mask| && gap < 0x40
    requires forall j :: at - gap <= j < at ==> !mask[j]
    ensures GapsBelow(gap, mask[at..])
    decreases |mask| - at
  {
    hide NoLongGap;
    if at < |mask| {
      assert mask[at..][1..] == mask[at + 1..];
      if !mask[at] && gap + 1 == 0x40 {
        NoSixtyFour(mask, at + 1);
      }
      NoLongGapCounted(mask, at + 1, if mask[at] then 0 else gap + 1);
    }
  }

  lemma NoSixtyFour(mask: seq<bool>, at: nat)
    requires NoLongGap(mask) && 0x40 <= at <= |mask|
    ensures exists j :: at - 0x40 <= j < at && mask[j]
  {
    assert SomeKept(mask, at - 0x40);
  }

  // What the reassembler can be in the middle of.

  /** Behind the sender: idle, or waiting for a number the sender passed `gap` segments ago. */
  predicate Behind(st: ReassemblerState, next: nat, gap: nat) {
    st.expected.None? ||
    (1 <= gap < 0x40 && st.expected.value < 0x40 && (st.expected.value + gap) % 0x40 == next % 0x40)
  }

  lemma NumbersDiffer(e: nat, gap: nat, next: nat)
    requires e < 0x40 && 1 <= gap < 0x40 && (e + gap) % 0x40 == next % 0x40
    ensures e != next % 0x40
    ensures (e + (gap + 1)) % 0x40 == (next + 1) % 0x40
  {
    NextSixBits(e + gap);
    NextSixBits(next);
  }

  lemma BehindDrop(st: ReassemblerState, next: nat, gap: nat)
    requires Behind(st, next, gap) && gap + 1 < 0x40
    ensures Behind(st, next + 1, gap + 1)
  {
    if st.expected.Some? {
      NumbersDiffer(st.expected.value, gap, next);
    }
  }

  lemma BehindReject(st: ReassemblerState, s: Segment, next: nat, gap: nat)
    requires Behind(st, next, gap) && !s.header.fir && s.header.sequence == next % 0x40
    ensures Push(st, s).0.expected.None? && Push(st, s).1.Err?
  {
    if st.expected.Some? {
      NumbersDiffer(st.expected.value, gap, next);
    }
  }

  /** A message that has lost a segment delivers nothing more. */
  lemma {:induction false} BrokenTail(m: Bytes, s: u8, i: nat, mask: seq<bool>, st: ReassemblerState, gap: nat)
    requires 0 < i && i + |mask| == SegmentCount(m)
    requires Behind(st, s + i, gap) && GapsBelow(gap, mask)
    ensures var (last, out) := Received(st, Kept(Fragment(m, s)[i..], mask));
      out == [] && Behind(last, s + SegmentCount(m), Gap(gap, mask))
    decreases |mask|
  {
    hide Push, Fragment, Behind, SegmentCount;
    var segments := Fragment(m, s);
    if mask != [] {
      assert segments[i..][0] == segments[i] && segments[i..][1..] == segments[i + 1..];
      FragmentAt(m, s, i);
      if mask[0] {
        var received := Kept(segments[i..], mask);
        assert received[0] == segments[i] && received[1..] == Kept(segments[i + 1..], mask[1..]);
        BehindReject(st, segments[i], s + i, gap);
        var next := Push(st, segments[i]).0;
        IdleBehind(next, s + i + 1, 0);
        BrokenTail(m, s, i + 1, mask[1..], next, 0);
      } else {
        assert Kept(segments[i..], mask) == Kept(segments[i + 1..], mask[1..]);
        BehindDrop(st, s + i, gap);
        BrokenTail(m, s, i + 1, mask[1..], st, gap + 1);
      }
    }
  }

  lemma IdleBehind(st: ReassemblerState, next: nat, gap: nat)
    requires st.expected.None?
    ensures Behind(st, next, gap)
  {
  }

  lemma PartialDrop(m: Bytes, s: u8, i: nat)
    requires i < SegmentCount(m)
    ensures Behind(Partial(m, s, i), s + i + 1, 1)
  {
    NextSixBits(s + i);
  }

  /** Every segment before `i` has arrived: the message is delivered iff the others arrive too. */
  lemma {:induction false} WholeTail(m: Bytes, s: u8, i: nat, mask: seq<bool>, st: ReassemblerState, gap: nat)
    requires i < SegmentCount(m) && i + |mask| == SegmentCount(m)
    requires if i == 0 then Behind(st, s, gap) else gap == 0 && st == Partial(m, s, i)
    requires GapsBelow(gap, mask)
    ensures var (last, out) := Received(st, Kept(Fragment(m, s)[i..], mask));
      out == (if All(mask) then [m] else []) && Behind(last, s + SegmentCount(m), Gap(gap, mask))
    decreases |mask|
  {
    hide Push, Fragment, Behind, SegmentCount, All;
    var segments := Fragment(m, s);
    assert segments[i..][0] == segments[i] && segments[i..][1..] == segments[i + 1..];
    AllUnfold(mask);
    if mask[0] {
      var received := Kept(segments[i..], mask);
      assert received[0] == segments[i] && received[1..] == Kept(segments[i + 1..], mask[1..]);
      PushNext(st, m, s, i);
      if i + 1 < SegmentCount(m) {
        WholeTail(m, s, i + 1, mask[1..], Partial(m, s, i + 1), 0);
      } else {
        assert mask[1..] == [] && segments[i + 1..] == [];
        NothingLost();
        IdleBehind(IDLE, s + i + 1, 0);
      }
    } else {
      assert Kept(segments[i..], mask) == Kept(segments[i + 1..], mask[1..]);
      if i == 0 {
        BehindDrop(st, s, gap);
      } else {
        PartialDrop(m, s, i);
      }
      BrokenTail(m, s, i + 1, mask[1..], st, gap + 1);
    }
  }

  lemma NothingLost()
    ensures All([])
  {
  }

  lemma AllUnfold(mask: seq<bool>)
    requires mask != []
    ensures All(mask) <==> mask[0] && All(mask[1..])
  {
    assert forall i :: 0 <= i < |mask[1..]| ==> mask[1..][i] == mask[i + 1];
    assert forall i :: 0 < i < |mask| ==> mask[i] == mask[1..][i - 1];
  }

  lemma {:induction false} KeptConcat<T>(a: seq<T>, b: seq<T>, m: seq<bool>, n: seq<bool>)
    requires |a| == |m| && |b| == |n|
    ensures Kept(a + b, m + n) == Kept(a, m) + Kept(b, n)
  {
    if a == [] {
      assert a + b == b && m + n == n;
    } else {
      assert (a + b)[1..] == a[1..] + b && (m + n)[1..] == m[1..] + n;
      KeptConcat(a[1..], b, m[1..], n);
      ConcatAssociative(if m[0] then [a[0]] else [], Kept(a[1..], m[1..]), Kept(b, n));
    }
  }

  lemma {:induction false} ReceivedConcat(st: ReassemblerState, a: seq<Segment>, b: seq<Segment>)
    ensures var (mid, x) := Received(st, a);
      var (last, y) := Received(mid, b);
      Received(st, a + b) == (last, x + y)
    decreases |a|
  {
    hide Push;
    if a == [] {
      assert a + b == b;
      assert [] + Received(st, b).1 == Received(st, b).1;
    } else {
      assert (a + b)[1..] == a[1..] + b;
      var (next, r) := Push(st, a[0]);
      ReceivedConcat(next, a[1..], b);
      var (mid, x) := Received(next, a[1..]);
      ConcatAssociative(if r.Ok? && r.value.Some? then [r.value.value] else [], x, Received(mid, b).1);
    }
  }

  lemma {:induction false} SentLength(messages: seq<Bytes>, s: u8)
    ensures |Sent(messages, s)| == TotalSegments(messages)
  {
    hide Fragment;
    if messages != [] {
      SentLength(messages[1..], NextSequence(s, SegmentCount(messages[0])));
    }
  }

  /** The session's segment number after a list of messages. */
  function NumberAfter(messages: seq<Bytes>, sequence: u8): u8 {
    if messages == [] then sequence
    else NumberAfter(messages[1..], NextSequence(sequence, SegmentCount(messages[0])))
  }

  lemma {:induction false} SentConcat(a: seq<Bytes>, b: seq<Bytes>, s: u8)
    ensures Sent(a + b, s) == Sent(a, s) + Sent(b, NumberAfter(a, s))
    ensures NumberAfter(a + b, s) == NumberAfter(b, NumberAfter(a, s))
    decreases |a|
  {
    hide Fragment, SegmentCount, NextSequence;
    if a == [] {
      assert a + b == b;
    } else {
      assert (a + b)[1..] == a[1..] + b;
      SentConcat(a[1..], b, NextSequence(s, SegmentCount(a[0])));
    }
  }

  lemma SentOne(m: Bytes, s: u8)
    ensures Sent([m], s) == Fragment(m, s)
    ensures NumberAfter([m], s) == NextSequence(s, SegmentCount(m))
  {
    hide Fragment;
    var none: seq<Bytes> := [];
    assert [m][1..] == none && Sent(none, NextSequence(s, SegmentCount(m))) == [];
  }

  lemma NextSequenceBehind(s: u8, n: nat, st: ReassemblerState, gap: nat)
    requires Behind(st, s + n, gap)
    ensures Behind(st, NextSequence(s, n), gap)
  {
    TruncatedSum(s, n);
    SixBits((s + n) % 0x40, 0);
  }

  lemma {:induction false} SurvivorsFrom(messages: seq<Bytes>, s: u8, mask: seq<bool>, st: ReassemblerState, gap: nat)
    requires |mask| == TotalSegments(messages) && GapsBelow(gap, mask) && Behind(st, s, gap)
    ensures |Sent(messages, s)| == |mask|
    ensures Received(st, Kept(Sent(messages, s), mask)).1 == Survivors(messages, mask)
    decreases |messages|
  {
    hide Push, Fragment, Behind, SegmentCount, All, NextSequence;
    SentLength(messages, s);
    if messages != [] {
      var m := messages[0];
      var n := SegmentCount(m);
      var a, b := Fragment(m, s), Sent(messages[1..], NextSequence(s, n));
      var (mid, x) := Received(st, Kept(a, mask[..n]));
      assert mask == mask[..n] + mask[n..] && a[0..] == a;
      SentLength(messages[1..], NextSequence(s, n));
      GapsBelowSplit(gap, mask[..n], mask[n..]);
      SegmentsExist(m);
      WholeTail(m, s, 0, mask[..n], st, gap);
      NextSequenceBehind(s, n, mid, Gap(gap, mask[..n]));
      SurvivorsFrom(messages[1..], NextSequence(s, n), mask[n..], mid, Gap(gap, mask[..n]));
      KeptConcat(a, b, mask[..n], mask[n..]);
      ReceivedConcat(st, Kept(a, mask[..n]), Kept(b, mask[n..]));
    }
  }

  lemma SegmentsExist(m: Bytes)
    ensures SegmentCount(m) > 0
  {
  }

  /**
   Over a channel that never loses 64 segments in a row, a run of messages arrives as exactly
   the messages that lost nothing, unaltered and in order.
   */
  lemma LossyChannelIsExact(messages: seq<Bytes>, s: u8, mask: seq<bool>)
    requires |mask| == TotalSegments(messages) && NoLongGap(mask)
    ensures |Sent(messages, s)| == |mask|
    ensures Received(IDLE, Kept(Sent(messages, s), mask)).1 == Survivors(messages, mask)
  {
    hide Received, Kept, Sent, Survivors, NoLongGap;
    NoLongGapCounted(mask, 0, 0);
    assert mask[0..] == mask;
    IdleBehind(IDLE, s, 0);
    SurvivorsFrom(messages, s, mask, IDLE, 0);
  }

  // The bound of 64 is tight.

  /** The message that comes out when segments 1 to 64 of `m` are lost. */
  function Spliced(m: Bytes, end: nat): Bytes
    requires MAX_TRANSPORT_PAYLOAD * 65 <= end <= |m|
  {
    m[..MAX_TRANSPORT_PAYLOAD] + m[MAX_TRANSPORT_PAYLOAD * 65..end]
  }

  lemma {:induction false} SplicedTail(m: Bytes, s: u8, i: nat)
    requires 65 <= i < SegmentCount(m)
    ensures Received(
      ReassemblerState(Some((s + i) % 0x40), Spliced(m, MAX_TRANSPORT_PAYLOAD * i)), Fragment(m, s)[i..]).1 == [Spliced(m, |m|)]
    decreases SegmentCount(m) - i
  {
    hide Fragment;
    var segments := Fragment(m, s);
    var st := ReassemblerState(Some((s + i) % 0x40), Spliced(m, MAX_TRANSPORT_PAYLOAD * i));
    assert segments[i..][0] == segments[i] && segments[i..][1..] == segments[i + 1..];
    FragmentAt(m, s, i);
    NextSixBits(s + i);
    var end := Min(MAX_TRANSPORT_PAYLOAD * (i + 1), |m|);
    assert m[MAX_TRANSPORT_PAYLOAD * 65..MAX_TRANSPORT_PAYLOAD * i] + Chunk(m, i) == m[MAX_TRANSPORT_PAYLOAD * 65..end];
    assert st.buffer + Chunk(m, i) == Spliced(m, end);
    if i + 1 < SegmentCount(m) {
      SplicedTail(m, s, i + 1);
    } else {
      assert segments[i + 1..] == [];
    }
  }

  /** Losing exactly 64 segments in a row can deliver a message that was never sent. */
  lemma SixtyFourLostGoUnnoticed(m: Bytes, s: u8)
    requires SegmentCount(m) >= 66
    ensures var segments := Fragment(m, s);
      Received(IDLE, [segments[0]] + segments[65..]).1 == [Spliced(m, |m|)] && Spliced(m, |m|) != m
  {
    hide Fragment;
    var segments := Fragment(m, s);
    var h := [segments[0]] + segments[65..];
    PushNext(IDLE, m, s, 0);
    SixBits(s + 1, 1);
    var next := Push(IDLE, segments[0]).0;
    assert next == ReassemblerState(Some((s + 65) % 0x40), Spliced(m, MAX_TRANSPORT_PAYLOAD * 65));
    assert h[0] == segments[0] && h[1..] == segments[65..];
    SplicedTail(m, s, 65);
  }
}
