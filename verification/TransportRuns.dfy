/** The reassembler over whole runs: what a history of pushed segments determines. */
module TransportRuns {
  import opened Primitives
  import opened Transport

  // What a history of pushed segments says.

  /** The reassembler after a whole history of pushes, from the start. */
  function Run(h: seq<Segment>): ReassemblerState {
    if h == [] then IDLE else Push(Run(h[..|h| - 1]), h[|h| - 1]).0
  }

  function Payloads(h: seq<Segment>): Bytes {
    if h == [] then [] else Payloads(h[..|h| - 1]) + h[|h| - 1].payload
  }

  /** From position `j` on, the history is one first segment and its consecutive successors. */
  ghost predicate Chain(h: seq<Segment>, j: nat) {
    && j < |h| && h[j].header.fir
    && (forall i :: j < i < |h| ==>
          !h[i].header.fir && h[i].header.sequence == (h[i - 1].header.sequence + 1) % 0x40)
    && (forall i :: j <= i < |h| - 1 ==> !h[i].header.fin)
  }

  ghost predicate Open(h: seq<Segment>, j: nat) {
    Chain(h, j) && !h[|h| - 1].header.fin
  }

  ghost predicate Complete(h: seq<Segment>, j: nat) {
    Chain(h, j) && h[|h| - 1].header.fin
  }

  lemma ChainExtends(h: seq<Segment>, s: Segment, j: nat)
    ensures Chain(h + [s], j) <==>
      if j == |h| then s.header.fir
      else Open(h, j) && !s.header.fir && s.header.sequence == (h[|h| - 1].header.sequence + 1) % 0x40
  {
    var k := h + [s];
    if j < |h| && Chain(k, j) {
      assert forall i :: 0 <= i < |h| ==> k[i] == h[i];
      assert k[|h|] == s && !k[|h| - 1].header.fin;
    }
  }

  lemma PayloadsExtend(h: seq<Segment>, s: Segment, j: nat)
    requires j <= |h|
    ensures Payloads((h + [s])[j..]) == Payloads(h[j..]) + s.payload
  {
    var k := (h + [s])[j..];
    assert k[..|k| - 1] == h[j..] && k[|k| - 1] == s;
  }

  /** A chain in the history determines what the last push returned. */
  lemma {:induction false} PushOnChain(h: seq<Segment>, s: Segment, j: nat)
    requires Chain(h + [s], j)
    ensures var x := Payloads((h + [s])[j..]);
      Push(Run(h), s) ==
        if s.header.fin then (IDLE, Ok(Some(x)))
        else (ReassemblerState(Some((s.header.sequence + 1) % 0x40), x), Ok(None))
    decreases |h|
  {
    hide Chain;
    ChainExtends(h, s, j);
    ChainStarts(h + [s], j);
    PayloadsExtend(h, s, j);
    if j == |h| {
      assert h[j..] == [];
    } else {
      var g, t := h[..|h| - 1], h[|h| - 1];
      assert h == g + [t];
      PushOnChain(g, t, j);
    }
  }

  lemma ChainStarts(h: seq<Segment>, j: nat)
    requires Chain(h, j)
    ensures j < |h|
  {
  }

  /** A reassembler that expects a segment has an open chain behind it; an idle one holds nothing. */
  lemma {:induction false} OpenChainBehind(h: seq<Segment>) returns (j: nat)
    ensures Run(h).expected.Some? ==> Open(h, j)
    ensures Run(h).expected.None? ==> Run(h) == IDLE
    decreases |h|
  {
    hide Chain;
    j := 0;
    if h != [] {
      var g, s := h[..|h| - 1], h[|h| - 1];
      assert h == g + [s];
      j := OpenChainBehind(g);
      if s.header.fir {
        j := |g|;
      } else if Run(g).expected.Some? {
        ChainStarts(g, j);
        var t := g[|g| - 1];
        assert g == g[..|g| - 1] + [t];
        PushOnChain(g[..|g| - 1], t, j);
      }
      ChainExtends(g, s, j);
    }
  }

  /** Between pushes the state is exactly the open chain that ends the history, or idle. */
  lemma RunIsOpenChain(h: seq<Segment>)
    ensures Run(h).expected.Some? <==> exists j: nat :: Open(h, j)
    ensures forall j: nat :: Open(h, j) ==> Run(h) == AfterChain(h, j)
    ensures Run(h).expected.None? ==> Run(h) == IDLE
  {
    hide Chain, Run, Payloads, Open;
    var k := OpenChainBehind(h);
    forall j: nat | Open(h, j)
      ensures Run(h) == AfterChain(h, j) && Run(h).expected.Some?
    {
      OpenChainState(h, j);
    }
  }

  /** The state an open chain leaves: the next number expected and the payload gathered so far. */
  function AfterChain(h: seq<Segment>, j: nat): ReassemblerState {
    if j < |h| then ReassemblerState(Some((h[|h| - 1].header.sequence + 1) % 0x40), Payloads(h[j..])) else IDLE
  }

  lemma OpenChainState(h: seq<Segment>, j: nat)
    requires Open(h, j)
    ensures Run(h) == AfterChain(h, j) && Run(h).expected.Some?
  {
    hide Chain;
    ChainStarts(h, j);
    assert h == h[..|h| - 1] + [h[|h| - 1]];
    PushOnChain(h[..|h| - 1], h[|h| - 1], j);
  }

  lemma PushBehind(h: seq<Segment>, s: Segment) returns (j: nat)
    ensures Push(Run(h), s).1.Ok? ==> Chain(h + [s], j)
    ensures Push(Run(h), s).1 == Err(InvalidFragment) <==> !s.header.fir && !exists i: nat :: Open(h, i)
  {
    hide Chain, Run, Payloads, Open;
    RunIsOpenChain(h);
    j := OpenChainBehind(h);
    if s.header.fir {
      j := |h|;
    } else if Run(h).expected.Some? {
      OpenStarts(h, j);
    }
    ChainExtends(h, s, j);
  }

  lemma OpenStarts(h: seq<Segment>, j: nat)
    requires Open(h, j)
    ensures j < |h| && Run(h) == AfterChain(h, j)
  {
    hide Run, Payloads;
    OpenChainState(h, j);
  }

  /** A push delivers exactly the payload of a chain that the pushed segment completes. */
  lemma PushDeliversCompleteChains(h: seq<Segment>, s: Segment, x: Bytes)
    ensures Push(Run(h), s).1 == Ok(Some(x)) <==>
      exists j: nat :: Complete(h + [s], j) && j <= |h| && x == Payloads((h + [s])[j..])
    ensures Push(Run(h), s).1 == Ok(None) <==> exists j: nat :: Open(h + [s], j)
    ensures Push(Run(h), s).1 == Err(InvalidFragment) <==> !s.header.fir && !exists j: nat :: Open(h, j)
  {
    hide Chain, Run, Payloads, Push;
    var k := h + [s];
    forall j: nat | Chain(k, j)
      ensures j <= |h| && Push(Run(h), s).1 == if s.header.fin then Ok(Some(Payloads(k[j..]))) else Ok(None)
    {
      ChainStarts(k, j);
      PushOnChain(h, s, j);
    }
    var j := PushBehind(h, s);
    if Push(Run(h), s).1 == Ok(None) {
      assert Open(k, j);
    }
  }

  /**
   A segment that is no first one is out of sequence exactly when there is an open chain that it
   does not follow; the error names both numbers and the reassembler forgets the chain. Without
   an open chain nothing changes.
   */
  lemma PushRejects(h: seq<Segment>, s: Segment, j: nat)
    requires Open(h, j)
    ensures j < |h|
    ensures var expected := (h[|h| - 1].header.sequence + 1) % 64;
      if !s.header.fir && s.header.sequence != expected
      then Push(Run(h), s) == (IDLE, Err(InvalidSequence(expected, s.header.sequence)))
      else Push(Run(h), s).1.Ok?
  {
    hide Run, Payloads, Chain, Open;
    OpenStarts(h, j);
  }

  lemma PushIdle(h: seq<Segment>, s: Segment)
    requires !s.header.fir && !exists j: nat :: Open(h, j)
    ensures Push(Run(h), s) == (Run(h), Err(InvalidFragment)) && Run(h) == IDLE
  {
    hide Run, Payloads, Chain, Open;
    RunIsOpenChain(h);
  }
}
