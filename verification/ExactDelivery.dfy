/** Exactly when a channel that drops segments delivers exactly the messages that lost none. */
module ExactDelivery {
  import opened Primitives
  import opened Transport
  import opened TransportRuns
  import opened LossyChannel

  // Kept positions.

  /** The positions the channel lets through, in order. */
  function Positions(mask: seq<bool>): (kept: seq<nat>)
    ensures forall k :: 0 <= k < |kept| ==> kept[k] < |mask|
    ensures forall k, l :: 0 <= k < l < |kept| ==> kept[k] < kept[l]
  {
    if mask == [] then []
    else
      var n := |mask| - 1;
      Positions(mask[..n]) + if mask[n] then [n] else []
  }

  lemma {:induction false} PositionsAreKept(mask: seq<bool>, p: nat)
    ensures p in Positions(mask) <==> p < |mask| && mask[p]
  {
    if mask != [] {
      PositionsAreKept(mask[..|mask| - 1], p);
    }
  }

  lemma {:induction false} PositionsPrefix(a: seq<bool>, b: seq<bool>)
    ensures Positions(a) <= Positions(a + b)
    decreases |b|
  {
    if b == [] {
      assert a + b == a;
    } else {
      var n := |b| - 1;
      assert (a + b)[..|a + b| - 1] == a + b[..n];
      PositionsPrefix(a, b[..n]);
    }
  }

  lemma {:induction false} KeptAtPositions<T>(segments: seq<T>, mask: seq<bool>)
    requires |segments| == |mask|
    ensures |Kept(segments, mask)| == |Positions(mask)|
    ensures forall k :: 0 <= k < |Positions(mask)| ==> Kept(segments, mask)[k] == segments[Positions(mask)[k]]
    decreases |mask|
  {
    hide Kept;
    if mask == [] {
      KeptNone<T>();
    } else {
      var n := |mask| - 1;
      assert segments == segments[..n] + segments[n..] && mask == mask[..n] + mask[n..];
      KeptAtPositions(segments[..n], mask[..n]);
      KeptConcat(segments[..n], segments[n..], mask[..n], mask[n..]);
      KeptOne(segments[n..], mask[n..]);
    }
  }

  lemma KeptNone<T>()
    ensures Kept<T>([], []) == []
  {
  }

  lemma KeptOne<T>(segments: seq<T>, mask: seq<bool>)
    requires |segments| == |mask| == 1
    ensures Kept(segments, mask) == if mask[0] then segments else []
  {
    assert segments == [segments[0]];
  }

  /** Kept positions i to j lie side by side exactly when nothing between them is dropped. */
  lemma {:induction false} SideBySide(mask: seq<bool>, i: nat, j: nat)
    requires i <= j < |Positions(mask)|
    ensures var kept := Positions(mask);
      && kept[j] - kept[i] >= j - i
      && (kept[j] - kept[i] == j - i <==> All(mask[kept[i]..kept[j] + 1]))
    decreases j - i
  {
    hide Positions;
    var kept := Positions(mask);
    PositionsAreKept(mask, kept[j]);
    if i < j {
      SideBySide(mask, i, j - 1);
      var p, q := kept[j - 1], kept[j];
      var gap := p + 1 < q;
      if gap {
        NothingBetween(mask, j);
        assert mask[kept[i]..q + 1][p + 1 - kept[i]] == mask[p + 1];
      } else {
        assert mask[kept[i]..q + 1] == mask[kept[i]..p + 1] + [mask[q]];
        AllExtends(mask[kept[i]..p + 1], mask[q]);
      }
    }
  }

  lemma AllExtends(mask: seq<bool>, kept: bool)
    ensures All(mask + [kept]) <==> All(mask) && kept
  {
    assert forall k :: 0 <= k < |mask| ==> (mask + [kept])[k] == mask[k];
    assert (mask + [kept])[|mask|] == kept;
  }

  lemma NothingBetween(mask: seq<bool>, j: nat)
    requires 0 < j < |Positions(mask)| && Positions(mask)[j - 1] + 1 < Positions(mask)[j]
    ensures !mask[Positions(mask)[j - 1] + 1]
  {
    hide Positions;
    var p := Positions(mask)[j - 1] + 1;
    PositionsAreKept(mask, p);
  }

  // Numbering.

  /** Over all messages, the segment at position p carries the number s + p modulo 64. */
  lemma {:induction false} SentNumber(messages: seq<Bytes>, s: u8, p: nat)
    requires p < |Sent(messages, s)|
    ensures Sent(messages, s)[p].header.sequence == (s + p) % 0x40
    decreases |messages|
  {
    hide Fragment, SegmentCount, NextSequence;
    var m, n := messages[0], SegmentCount(messages[0]);
    if p < n {
      FragmentAt(m, s, p);
    } else {
      SentNumber(messages[1..], NextSequence(s, n), p - n);
      TruncatedSumPlus(s, n, p - n);
    }
  }

  lemma TruncatedSumPlus(s: u8, n: nat, k: nat)
    ensures (NextSequence(s, n) + k) % 0x40 == (s + (n + k)) % 0x40
  {
    TruncatedSum(s, n);
    SixBits((s + n) % 0x40 + k, (s + n) / 0x40);
  }

  lemma SameNumber(s: nat, p: nat, q: nat)
    requires p < q
    ensures (s + q) % 0x40 == ((s + p) % 0x40 + 1) % 0x40 <==> (q - p) % 0x40 == 1
  {
    NextSixBits(s + p);
    var d := q - p;
    assert s + q == (s + p + 1) + (d - 1);
    Shifted(s + p + 1, d - 1);
    Shifted(1, d - 1);
  }

  lemma Shifted(a: nat, d: nat)
    ensures (a + d) % 0x40 == a % 0x40 <==> d % 0x40 == 0
  {
    var x, y := a % 0x40, d % 0x40;
    SixBits(x + y, a / 0x40 + d / 0x40);
  }

  // Splices.

  /** To a receiver position q follows position p: their numbers do, modulo 64. */
  predicate Follows(p: nat, q: nat) { p < q && (q - p) % 0x40 == 1 }

  /**
   Kept positions i to j look like one message to a receiver: only the first is a first segment,
   only the last is a last one, and each follows its neighbour modulo 64.
   */
  ghost predicate Joins(segments: seq<Segment>, mask: seq<bool>, i: nat, j: nat)
    requires |segments| == |mask|
  {
    var kept := Positions(mask);
    && i <= j < |kept|
    && segments[kept[i]].header.fir
    && (forall k :: i < k <= j ==> !segments[kept[k]].header.fir && Follows(kept[k - 1], kept[k]))
    && (forall k :: i <= k < j ==> !segments[kept[k]].header.fin)
    && segments[kept[j]].header.fin
  }

  /** They look like one message although something between them was dropped. */
  ghost predicate Splices(segments: seq<Segment>, mask: seq<bool>, i: nat, j: nat)
    requires |segments| == |mask|
  {
    Joins(segments, mask, i, j) && Positions(mask)[j] - Positions(mask)[i] > j - i
  }

  ghost predicate HasSplice(segments: seq<Segment>, mask: seq<bool>)
    requires |segments| == |mask|
  {
    exists i: nat, j: nat :: Splices(segments, mask, i, j)
  }

  /** A choice of dropped segments for a list of messages that lets no splice through. */
  ghost predicate Unspliced(messages: seq<Bytes>, s: u8, mask: seq<bool>) {
    |mask| == TotalSegments(messages) == |Sent(messages, s)| && !HasSplice(Sent(messages, s), mask)
  }

  predicate Numbered(segments: seq<Segment>, s: nat) {
    forall p :: 0 <= p < |segments| ==> segments[p].header.sequence == (s + p) % 0x40
  }

  /** The complete chains of the reassembler's history are the joins that end at the last kept position. */
  lemma CompleteIsJoin(segments: seq<Segment>, mask: seq<bool>, s: nat, i: nat)
    requires |segments| == |mask| && Numbered(segments, s) && Positions(mask) != []
    ensures Complete(Kept(segments, mask), i) <==> Joins(segments, mask, i, |Positions(mask)| - 1)
  {
    hide Kept, Positions, Numbered, Follows;
    var h, kept := Kept(segments, mask), Positions(mask);
    KeptAtPositions(segments, mask);
    forall k | 0 < k < |kept|
      ensures h[k].header.sequence == (h[k - 1].header.sequence + 1) % 0x40 <==> Follows(kept[k - 1], kept[k])
    {
      assert kept[k - 1] < kept[k];
      NumberFollows(segments, s, kept[k - 1], kept[k]);
    }
  }

  lemma NumberFollows(segments: seq<Segment>, s: nat, p: nat, q: nat)
    requires Numbered(segments, s) && p < q < |segments|
    ensures segments[q].header.sequence == (segments[p].header.sequence + 1) % 0x40 <==> Follows(p, q)
  {
    SameNumber(s, p, q);
  }

  // Joins that end with the last message.

  /** From position `before` on the segments are those of one message. */
  predicate LastMessage(segments: seq<Segment>, before: nat) {
    && before < |segments|
    && (forall p :: before <= p < |segments| ==> (segments[p].header.fir <==> p == before))
    && (forall p :: before <= p < |segments| ==> (segments[p].header.fin <==> p == |segments| - 1))
  }

  /** A join ending at the last position starts with the last message or before it. */
  lemma JoinStart(segments: seq<Segment>, mask: seq<bool>, before: nat, i: nat)
    requires |segments| == |mask| && LastMessage(segments, before) && Positions(mask) != []
    requires Joins(segments, mask, i, |Positions(mask)| - 1)
    ensures Positions(mask)[i] <= before
    ensures mask[before] ==> Positions(mask)[i] == before
  {
    hide Positions;
    var kept := Positions(mask);
    PositionsAreKept(mask, before);
  }

  lemma LastKept(mask: seq<bool>)
    requires mask != [] && mask[|mask| - 1]
    ensures Positions(mask) != [] && Positions(mask)[|Positions(mask)| - 1] == |mask| - 1
  {
  }

  /** Such a join is a splice exactly when the last message has lost a segment. */
  lemma JoinSplices(segments: seq<Segment>, mask: seq<bool>, before: nat, i: nat)
    requires |segments| == |mask| && LastMessage(segments, before) && mask[|mask| - 1] && Positions(mask) != []
    requires Joins(segments, mask, i, |Positions(mask)| - 1)
    ensures Splices(segments, mask, i, |Positions(mask)| - 1) <==> !All(mask[before..])
  {
    hide Positions, All;
    var kept, j := Positions(mask), |Positions(mask)| - 1;
    JoinStart(segments, mask, before, i);
    LastKept(mask);
    SideBySide(mask, i, j);
    assert mask[kept[i]..kept[j] + 1] == mask[kept[i]..];
    AllAt(mask[before..], 0);
    AllAt(mask[kept[i]..], before - kept[i]);
  }

  lemma AllAt(mask: seq<bool>, k: nat)
    requires k < |mask|
    ensures All(mask) ==> mask[k]
  {
  }

  /** A message that arrives whole is delivered, whatever the reassembler held. */
  lemma {:induction false} WholeIsReceived(st: ReassemblerState, m: Bytes, s: u8, i: nat)
    requires i < SegmentCount(m) && (i > 0 ==> st == Partial(m, s, i))
    ensures Received(st, Fragment(m, s)[i..]).1 == [m]
    decreases SegmentCount(m) - i
  {
    hide Fragment, Push, SegmentCount, Partial;
    var segments := Fragment(m, s);
    assert segments[i..][0] == segments[i] && segments[i..][1..] == segments[i + 1..];
    PushNext(st, m, s, i);
    if i + 1 < SegmentCount(m) {
      WholeIsReceived(Partial(m, s, i + 1), m, s, i + 1);
    } else {
      assert segments[i + 1..] == [];
    }
  }

  /** Without a last segment nothing is delivered. */
  lemma {:induction false} NoLastNoDelivery(st: ReassemblerState, h: seq<Segment>)
    requires forall k :: 0 <= k < |h| ==> !h[k].header.fin
    ensures Received(st, h).1 == []
    decreases |h|
  {
    if h != [] {
      NoLastNoDelivery(Push(st, h[0]).0, h[1..]);
    }
  }

  lemma {:induction false} ReceivedState(h: seq<Segment>)
    ensures Received(IDLE, h).0 == Run(h)
    decreases |h|
  {
    hide Push;
    if h != [] {
      var n := |h| - 1;
      ReceivedState(h[..n]);
      assert h == h[..n] + [h[n]];
      ReceivedConcat(IDLE, h[..n], [h[n]]);
      ReceivedOne(Run(h[..n]), h[n]);
    }
  }

  lemma ReceivedOne(st: ReassemblerState, s: Segment)
    ensures var (next, r) := Push(st, s);
      Received(st, [s]) == (next, if r.Ok? && r.value.Some? then [r.value.value] else [])
  {
    hide Push;
    var (next, r) := Push(st, s);
    var none: seq<Bytes> := [];
    assert Received(next, []) == (next, none);
    assert [s][1..] == [];
    var out := if r.Ok? && r.value.Some? then [r.value.value] else [];
    assert out + none == out;
  }

  /** One more segment delivers iff it completes a chain. */
  lemma LastDelivers(h: seq<Segment>, s: Segment)
    ensures var out := Received(Run(h), [s]).1;
      |out| <= 1 && (out != [] <==> exists i: nat :: Complete(h + [s], i))
  {
    hide Push, Run, Complete;
    ReceivedOne(Run(h), s);
    var r := Push(Run(h), s).1;
    if r.Ok? && r.value.Some? {
      PushDeliversCompleteChains(h, s, r.value.value);
    }
    if i: nat :| Complete(h + [s], i) {
      CompleteStarts(h + [s], i);
      PushDeliversCompleteChains(h, s, Payloads((h + [s])[i..]));
    }
  }

  lemma CompleteStarts(h: seq<Segment>, i: nat)
    requires Complete(h, i)
    ensures i < |h|
  {
  }

  // One more message after any history.

  ghost predicate SplicesAtEnd(segments: seq<Segment>, mask: seq<bool>, i: nat)
    requires |segments| == |mask|
  {
    mask != [] && mask[|mask| - 1] && Positions(mask) != [] && Splices(segments, mask, i, |Positions(mask)| - 1)
  }

  lemma FragmentIsLastMessage(prior: seq<Segment>, m: Bytes, s: u8)
    ensures LastMessage(prior + Fragment(m, s), |prior|)
  {
    hide Fragment, SegmentCount;
    SegmentsExist(m);
    var segments := prior + Fragment(m, s);
    forall p | |prior| <= p < |segments|
      ensures (segments[p].header.fir <==> p == |prior|) && (segments[p].header.fin <==> p == |segments| - 1)
    {
      assert segments[p] == Fragment(m, s)[p - |prior|];
      FragmentAt(m, s, p - |prior|);
    }
  }

  /** What a damaged message brings out, if anything, is a splice. */
  lemma DamagedDelivers(prior: seq<Segment>, a: seq<bool>, m: Bytes, s: u8, t: seq<bool>, start: nat)
    requires |prior| == |a| && |t| == SegmentCount(m) && !All(t)
    requires Numbered(prior + Fragment(m, s), start)
    ensures var out := Received(Run(Kept(prior, a)), Kept(Fragment(m, s), t)).1;
      |out| <= 1 && (out != [] <==> exists i: nat :: SplicesAtEnd(prior + Fragment(m, s), a + t, i))
  {
    hide Fragment, SegmentCount, Kept, Run, Received, All, Positions, Complete, Splices, Joins;
    SegmentsExist(m);
    var f, n := Fragment(m, s), |t| - 1;
    var segments, mask := prior + f, a + t;
    FragmentIsLastMessage(prior, m, s);
    assert f == f[..n] + [f[n]] && t == t[..n] + [t[n]];
    KeptConcat(f[..n], [f[n]], t[..n], [t[n]]);
    KeptOne([f[n]], [t[n]]);
    var h, g := Kept(prior, a), Kept(f[..n], t[..n]);
    NoLastBefore(m, s, n, t[..n]);
    NoLastNoDelivery(Run(h), g);
    assert mask[|mask| - 1] == t[n];
    if t[n] {
      assert Kept(f, t) == g + [f[n]];
      RunConcat(h, g);
      ReceivedConcat(Run(h), g, [f[n]]);
      LastDelivers(h + g, f[n]);
      KeptConcat(prior, f, a, t);
      assert h + g + [f[n]] == Kept(segments, mask);
      LastKept(mask);
      assert mask[|prior|..] == t;
      forall i: nat
        ensures Complete(Kept(segments, mask), i) <==> SplicesAtEnd(segments, mask, i)
      {
        CompleteIsJoin(segments, mask, start, i);
        SplicesJoin(segments, mask, i);
        if Joins(segments, mask, i, |Positions(mask)| - 1) {
          JoinSplices(segments, mask, |prior|, i);
        }
      }
    } else {
      assert Kept(f, t) == g + [] == g;
    }
  }

  lemma SplicesJoin(segments: seq<Segment>, mask: seq<bool>, i: nat)
    requires |segments| == |mask| && Positions(mask) != []
    ensures Splices(segments, mask, i, |Positions(mask)| - 1) ==> Joins(segments, mask, i, |Positions(mask)| - 1)
  {
    hide Joins, Positions;
  }

  lemma NoLastBefore(m: Bytes, s: u8, n: nat, t: seq<bool>)
    requires n == |t| == SegmentCount(m) - 1
    ensures forall k :: 0 <= k < |Kept(Fragment(m, s)[..n], t)| ==> !Kept(Fragment(m, s)[..n], t)[k].header.fin
  {
    hide Fragment, SegmentCount, Kept, Positions;
    var f := Fragment(m, s)[..n];
    KeptAtPositions(f, t);
    forall k | 0 <= k < |Kept(f, t)|
      ensures !Kept(f, t)[k].header.fin
    {
      FragmentAt(m, s, Positions(t)[k]);
    }
  }

  lemma RunConcat(h: seq<Segment>, g: seq<Segment>)
    ensures Received(Run(h), g).0 == Run(h + g)
  {
    hide Received, Run;
    ReceivedState(h);
    ReceivedState(h + g);
    ReceivedConcat(IDLE, h, g);
  }

  /** The splices of a longer run are the earlier ones and those the last message ends. */
  lemma SpliceOfLonger(prior: seq<Segment>, a: seq<bool>, m: Bytes, s: u8, t: seq<bool>)
    requires |prior| == |a| && |t| == SegmentCount(m)
    ensures HasSplice(prior + Fragment(m, s), a + t) <==>
      HasSplice(prior, a) || exists i: nat :: SplicesAtEnd(prior + Fragment(m, s), a + t, i)
  {
    hide Fragment, SegmentCount, Splices;
    var segments, mask := prior + Fragment(m, s), a + t;
    FragmentIsLastMessage(prior, m, s);
    forall i: nat, j: nat
      ensures Splices(prior, a, i, j) ==> Splices(segments, mask, i, j)
      ensures Splices(segments, mask, i, j) ==> Splices(prior, a, i, j) || SplicesAtEnd(segments, mask, i)
    {
      SpliceInPrefix(prior, a, segments, mask, i, j);
      if j >= |Positions(a)| && Splices(segments, mask, i, j) {
        SpliceBeyond(prior, a, segments, mask, i, j);
      }
    }
  }

  lemma SpliceInPrefix(prior: seq<Segment>, a: seq<bool>, segments: seq<Segment>, mask: seq<bool>, i: nat, j: nat)
    requires |prior| == |a| && |segments| == |mask| && prior <= segments && a <= mask
    ensures Splices(prior, a, i, j) <==> j < |Positions(a)| && Splices(segments, mask, i, j)
  {
    hide Positions, Follows;
    assert mask == a + mask[|a|..];
    PositionsPrefix(a, mask[|a|..]);
    if i <= j < |Positions(a)| {
      forall k | i <= k <= j
        ensures Positions(mask)[k] == Positions(a)[k] && segments[Positions(mask)[k]] == prior[Positions(a)[k]]
      {
      }
    }
  }

  lemma SpliceBeyond(prior: seq<Segment>, a: seq<bool>, segments: seq<Segment>, mask: seq<bool>, i: nat, j: nat)
    requires |prior| == |a| && |segments| == |mask| && prior <= segments && a <= mask && LastMessage(segments, |prior|)
    requires j >= |Positions(a)| && Splices(segments, mask, i, j)
    ensures SplicesAtEnd(segments, mask, i) && j == |Positions(mask)| - 1
  {
    hide Positions;
    var kept := Positions(mask);
    assert mask == a + mask[|a|..];
    PositionsPrefix(a, mask[|a|..]);
    PositionsAreKept(mask, kept[j]);
    PositionsAreKept(a, kept[j]);
    assert kept[j] == |mask| - 1;
  }

  // Any number of messages.

  lemma SurvivorsCons(m: Bytes, messages: seq<Bytes>, t: seq<bool>, mask: seq<bool>)
    requires |t| == SegmentCount(m) && |mask| == TotalSegments(messages)
    ensures TotalSegments([m] + messages) == |t + mask|
    ensures Survivors([m] + messages, t + mask) == (if All(t) then [m] else []) + Survivors(messages, mask)
  {
    hide All, SegmentCount;
    assert ([m] + messages)[1..] == messages;
    assert (t + mask)[..|t|] == t && (t + mask)[|t|..] == mask;
  }

  lemma {:induction false} SurvivorsConcat(x: seq<Bytes>, y: seq<Bytes>, a: seq<bool>, b: seq<bool>)
    requires |a| == TotalSegments(x) && |b| == TotalSegments(y)
    ensures TotalSegments(x + y) == |a + b|
    ensures Survivors(x + y, a + b) == Survivors(x, a) + Survivors(y, b)
    decreases |x|
  {
    hide All, SegmentCount;
    if x == [] {
      assert x + y == y && a + b == b;
    } else {
      hide Survivors;
      var m, n := x[0], SegmentCount(x[0]);
      var t, rest := a[..n], a[n..];
      assert x == [m] + x[1..] && a == t + rest;
      assert x + y == [m] + (x[1..] + y) && a + b == t + (rest + b);
      SurvivorsConcat(x[1..], y, rest, b);
      SurvivorsCons(m, x[1..], t, rest);
      SurvivorsCons(m, x[1..] + y, t, rest + b);
      ConcatAssociative(if All(t) then [m] else [], Survivors(x[1..], rest), Survivors(y, b));
    }
  }

  lemma SurvivorsOne(m: Bytes, mask: seq<bool>)
    requires |mask| == SegmentCount(m)
    ensures TotalSegments([m]) == |mask|
    ensures Survivors([m], mask) == if All(mask) then [m] else []
  {
    hide All;
    assert [m][1..] == [] && mask[..|mask|] == mask;
  }

  lemma NothingSent(s: u8)
    ensures TotalSegments([]) == 0
    ensures Received(IDLE, Kept(Sent([], s), [])).1 == [] && Survivors([], []) == [] && !HasSplice(Sent([], s), [])
  {
  }

  /** The last message is delivered if it arrived whole; otherwise only a splice can be. */
  lemma LastOutcome(init: seq<Bytes>, s: u8, m: Bytes, a: seq<bool>, t: seq<bool>)
    requires |a| == |Sent(init, s)| && |t| == SegmentCount(m)
    ensures var f := Fragment(m, NumberAfter(init, s));
      var out := Received(Run(Kept(Sent(init, s), a)), Kept(f, t)).1;
      var spliced := exists i: nat :: SplicesAtEnd(Sent(init, s) + f, a + t, i);
      if All(t) then out == [m] && !spliced else out != [] <==> spliced
  {
    hide Received, Kept, Sent, SegmentCount, Fragment, All, Run, SplicesAtEnd, Numbered;
    var prior, s1 := Sent(init, s), NumberAfter(init, s);
    var f := Fragment(m, s1);
    if All(t) {
      KeptAll(f, t);
      SegmentsExist(m);
      assert f[0..] == f;
      WholeIsReceived(Run(Kept(prior, a)), m, s1, 0);
      forall i: nat
        ensures !SplicesAtEnd(prior + f, a + t, i)
      {
        WholeIsNoSplice(prior, a, m, s1, t, i);
      }
    } else {
      SentConcat(init, [m], s);
      SentOne(m, s1);
      SentNumbered(init + [m], s);
      DamagedDelivers(prior, a, m, s1, t, s);
    }
  }

  lemma SentNumbered(messages: seq<Bytes>, s: u8)
    ensures Numbered(Sent(messages, s), s)
  {
    hide Sent;
    forall p: nat | p < |Sent(messages, s)|
      ensures Sent(messages, s)[p].header.sequence == (s + p) % 0x40
    {
      SentNumber(messages, s, p);
    }
  }

  lemma {:induction false} KeptAll<T>(segments: seq<T>, mask: seq<bool>)
    requires |segments| == |mask| && All(mask)
    ensures Kept(segments, mask) == segments
  {
    if mask != [] {
      KeptAll(segments[1..], mask[1..]);
      assert segments == [segments[0]] + segments[1..];
    }
  }

  lemma WholeIsNoSplice(prior: seq<Segment>, a: seq<bool>, m: Bytes, s: u8, t: seq<bool>, i: nat)
    requires |prior| == |a| && |t| == SegmentCount(m) && All(t)
    ensures !SplicesAtEnd(prior + Fragment(m, s), a + t, i)
  {
    hide Fragment, SegmentCount, Positions, All, Splices;
    var segments, mask := prior + Fragment(m, s), a + t;
    FragmentIsLastMessage(prior, m, s);
    assert mask[|prior|..] == t;
    if SplicesAtEnd(segments, mask, i) {
      SplicesJoin(segments, mask, i);
      JoinSplices(segments, mask, |prior|, i);
    }
  }

  /** A receiver never gets less than the undamaged messages; it gets more exactly when there is a splice. */
  lemma {:induction false} Deliveries(messages: seq<Bytes>, s: u8, mask: seq<bool>)
    requires |mask| == TotalSegments(messages)
    ensures |Sent(messages, s)| == |mask|
    ensures var out, whole := Received(IDLE, Kept(Sent(messages, s), mask)).1, Survivors(messages, mask);
      if HasSplice(Sent(messages, s), mask) then |out| > |whole| else out == whole
    decreases |messages|
  {
    hide Received, Kept, Sent, Survivors, HasSplice, SegmentCount, Fragment, SplicesAtEnd, All, TotalSegments;
    SentLength(messages, s);
    if messages == [] {
      NothingSent(s);
      assert mask == [];
    } else {
      var k := |messages| - 1;
      var init, m := messages[..k], messages[k];
      var prior, s1 := Sent(init, s), NumberAfter(init, s);
      assert messages == init + [m];
      SentConcat(init, [m], s);
      SentOne(m, s1);
      SentLength(init, s);
      var a, t := mask[..|prior|], mask[|prior|..];
      assert mask == a + t;
      Deliveries(init, s, a);
      SurvivorsOne(m, t);
      SurvivorsConcat(init, [m], a, t);
      KeptConcat(prior, Fragment(m, s1), a, t);
      ReceivedConcat(IDLE, Kept(prior, a), Kept(Fragment(m, s1), t));
      ReceivedState(Kept(prior, a));
      SpliceOfLonger(prior, a, m, s1, t);
      LastOutcome(init, s, m, a, t);
    }
  }

  /**
   A run of messages over a channel that drops segments arrives as exactly the messages that
   lost nothing if and only if no splice is let through; with one, too much arrives.
   */
  lemma DeliveryIsExact(messages: seq<Bytes>, s: u8, mask: seq<bool>)
    requires |mask| == TotalSegments(messages)
    ensures |Sent(messages, s)| == |mask|
    ensures Received(IDLE, Kept(Sent(messages, s), mask)).1 == Survivors(messages, mask) <==> !HasSplice(Sent(messages, s), mask)
  {
    hide Received, Kept, Sent, Survivors, HasSplice;
    Deliveries(messages, s, mask);
  }

  // Conditions on the dropped positions alone.

  /** No two neighbouring kept positions are a multiple of 64 dropped segments apart. */
  ghost predicate NoCycleLost(mask: seq<bool>) {
    var kept := Positions(mask);
    forall k :: 0 < k < |kept| && kept[k] - kept[k - 1] > 1 ==> !Follows(kept[k - 1], kept[k])
  }

  /** A sufficient condition that does not look at where messages begin and end. */
  lemma NoCycleNoSplice(segments: seq<Segment>, mask: seq<bool>)
    requires |segments| == |mask| && NoCycleLost(mask)
    ensures !HasSplice(segments, mask)
  {
    hide Positions;
    forall i: nat, j: nat | Joins(segments, mask, i, j)
      ensures !Splices(segments, mask, i, j)
    {
      SmallSteps(mask, i, j);
    }
  }

  lemma {:induction false} SmallSteps(mask: seq<bool>, i: nat, j: nat)
    requires i <= j < |Positions(mask)| && NoCycleLost(mask)
    requires forall k :: i < k <= j ==> Follows(Positions(mask)[k - 1], Positions(mask)[k])
    ensures Positions(mask)[j] - Positions(mask)[i] == j - i
    decreases j - i
  {
    hide Positions;
    if i < j {
      SmallSteps(mask, i, j - 1);
      assert Positions(mask)[j - 1] < Positions(mask)[j];
    }
  }

  /** Losing fewer than 64 segments in a row is enough. */
  lemma NoLongGapNoCycle(mask: seq<bool>)
    requires NoLongGap(mask)
    ensures NoCycleLost(mask)
  {
    hide Positions, NoLongGap;
    var kept := Positions(mask);
    forall k | 0 < k < |kept| && kept[k] - kept[k - 1] > 1
      ensures !Follows(kept[k - 1], kept[k])
    {
      if kept[k] - kept[k - 1] > 0x40 {
        NoSixtyFour(mask, kept[k]);
        var p :| kept[k] - 0x40 <= p < kept[k] && mask[p];
        BetweenDropped(mask, k, p);
      }
    }
  }

  lemma BetweenDropped(mask: seq<bool>, k: nat, p: nat)
    requires 0 < k < |Positions(mask)| && Positions(mask)[k - 1] < p < Positions(mask)[k]
    ensures !mask[p]
  {
    hide Positions;
    PositionsAreKept(mask, p);
  }

  // One stretch lost inside a message.

  /** The first segment arrives, `lost` segments do not, `rest` segments do. */
  function OneGap(lost: nat, rest: nat): seq<bool> { [true] + seq(lost, _ => false) + seq(rest, _ => true) }

  lemma {:induction false} OneGapPositions(lost: nat, rest: nat)
    ensures Positions(OneGap(lost, rest)) == [0] + seq(rest, k requires 0 <= k => lost + 1 + k)
    decreases lost + rest
  {
    var mask := OneGap(lost, rest);
    var init := mask[..|mask| - 1];
    if rest > 0 {
      assert init == OneGap(lost, rest - 1);
      OneGapPositions(lost, rest - 1);
    } else if lost > 0 {
      assert init == OneGap(lost - 1, 0);
      OneGapPositions(lost - 1, 0);
    } else {
      assert init == [] && Positions([]) == [];
    }
  }

  lemma OneGapSteps(lost: nat, rest: nat, k: nat)
    requires 0 < k <= rest
    ensures var kept := Positions(OneGap(lost, rest));
      && |kept| == rest + 1 && kept[0] == 0 && kept[k] == lost + k
      && (kept[k] - kept[k - 1] == 1 || (k == 1 && kept[k] - kept[k - 1] == lost + 1))
      && (lost % 0x40 == 0 ==> Follows(kept[k - 1], kept[k]))
      && (lost % 0x40 != 0 && k == 1 ==> !Follows(kept[k - 1], kept[k]))
  {
    hide Positions, OneGap;
    OneGapPositions(lost, rest);
  }

  lemma OneGapNoCycle(lost: nat, rest: nat)
    requires lost % 0x40 != 0
    ensures NoCycleLost(OneGap(lost, rest))
  {
    hide Positions, OneGap, Follows;
    OneGapPositions(lost, rest);
    var kept := Positions(OneGap(lost, rest));
    forall k | 0 < k < |kept| && kept[k] - kept[k - 1] > 1
      ensures !Follows(kept[k - 1], kept[k])
    {
      OneGapSteps(lost, rest, k);
    }
  }

  /**
   When a message loses one stretch of segments after its first, a message that was never sent
   comes out exactly if their number is a multiple of 64.
   */
  lemma OneGapIsSpliced(m: Bytes, s: u8, lost: nat)
    requires 0 < lost && lost + 2 <= SegmentCount(m)
    ensures var mask := OneGap(lost, SegmentCount(m) - lost - 1);
      && |Fragment(m, s)| == |mask|
      && (Received(IDLE, Kept(Fragment(m, s), mask)).1 == [] <==> lost % 0x40 != 0)
  {
    hide Fragment, Received, Kept, SegmentCount, Positions, All, HasSplice, Joins, Sent, Survivors, NoCycleLost;
    var rest := SegmentCount(m) - lost - 1;
    var f, mask := Fragment(m, s), OneGap(lost, rest);
    SentOne(m, s);
    SurvivorsOne(m, mask);
    AllAt(mask, 1);
    DeliveryIsExact([m], s, mask);
    if lost % 0x40 == 0 {
      OneGapJoins(m, s, lost);
      OneGapSteps(lost, rest, rest);
      SpliceFound(f, mask, 0, rest);
    } else {
      OneGapNoCycle(lost, rest);
      NoCycleNoSplice(f, mask);
    }
  }

  lemma SpliceFound(segments: seq<Segment>, mask: seq<bool>, i: nat, j: nat)
    requires |segments| == |mask| && Splices(segments, mask, i, j)
    ensures HasSplice(segments, mask)
  {
    hide Splices;
  }

  lemma OneGapJoins(m: Bytes, s: u8, lost: nat)
    requires lost % 0x40 == 0 && lost + 2 <= SegmentCount(m)
    ensures var rest := SegmentCount(m) - lost - 1;
      |OneGap(lost, rest)| == |Fragment(m, s)| && Joins(Fragment(m, s), OneGap(lost, rest), 0, rest)
  {
    hide Fragment, SegmentCount, Positions, Follows, WellFormed, Chunk;
    var rest := SegmentCount(m) - lost - 1;
    var f, kept := Fragment(m, s), Positions(OneGap(lost, rest));
    OneGapSteps(lost, rest, rest);
    forall k | 0 <= k <= rest
      ensures f[kept[k]].header.fir <==> k == 0
      ensures f[kept[k]].header.fin <==> k == rest
      ensures 0 < k ==> Follows(kept[k - 1], kept[k])
    {
      if k > 0 {
        OneGapSteps(lost, rest, k);
      }
      FragmentAt(m, s, kept[k]);
    }
  }
}
