// emitDone (cmd/root.go) as a whole: the goroutine that requests the missing
// block heights from the node, then forwards every decoded block to the
// writer, closing `done` once the block at the chain tip has been sent.

module Root {
  import opened Gaps
  import opened Completion

  /** The channels emitDone works on. heightsIn and blocksOut are what has
      been sent on those channels so far; done is whether the `done` channel
      has been closed. The chain tip and the block decoder are fixed for the
      run. R is the type of a raw block as the node delivers it. */
  class Emitter<R, P> {
    const chainTip: int
    const decodeBlock: (R, string) -> BlockResultDB<P>
    var heightsIn: seq<int>
    var blocksOut: seq<BlockResultDB<P>>
    var done: bool

    /** Fresh channels for a run against the tip observed at start. */
    constructor (chainTip: int, decodeBlock: (R, string) -> BlockResultDB<P>)
      ensures this.chainTip == chainTip && this.decodeBlock == decodeBlock
      ensures heightsIn == [] && blocksOut == [] && !done
    {
      this.chainTip := chainTip;
      this.decodeBlock := decodeBlock;
      heightsIn := [];
      blocksOut := [];
      done := false;
    }

    /** The request half: sorts the stored-height snapshot in place, picks
        the start height, and sends every height from there to the tip that
        `contains` (as written) does not report. */
    method RequestMissing(heights: array<int>)
      modifies this`heightsIn, heights
      ensures Sorted(heights[..]) && multiset(heights[..]) == multiset(old(heights[..]))
      ensures heightsIn == old(heightsIn) + Requests(old(heights[..]), chainTip)
    {
      var start: int;
      if heights.Length == 0 {
        start := 1;
      } else {
        SortInts(heights);
        start := heights[0];
        SortedHeadIsMin(heights[..], old(heights[..]));
      }
      var snapshot := heights[..];
      assert start == StartHeight(old(heights[..]));
      assert Indices(snapshot) == Indices(old(heights[..]));
      ghost var wanted := Missing(start, chainTip, Indices(snapshot));
      var i := start;
      while i <= chainTip
        invariant heights[..] == snapshot
        invariant heightsIn + Missing(i, chainTip, Indices(snapshot)) == old(heightsIn) + wanted
        decreases chainTip - i
      {
        var present := Contains(i, snapshot);
        if !present {
          heightsIn := heightsIn + [i];
        }
        i := i + 1;
      }
    }

    /** The forwarding half: decodes each received block for the chain,
        sends it on blocksOut and closes `done` when its height is the tip.
        A second tip block closes `done` again, which panics and ends the
        loop; panicked reports that. */
    method ForwardBlocks(blocksIn: seq<R>) returns (panicked: bool)
      modifies this`blocksOut, this`done
      ensures Progress(blocksOut, done, panicked) ==
        Forward(Progress(old(blocksOut), old(done), false), DecodeAll(blocksIn, decodeBlock), chainTip)
    {
      ghost var target := Forward(Progress(blocksOut, done, false), DecodeAll(blocksIn, decodeBlock), chainTip);
      panicked := false;
      var i := 0;
      while i < |blocksIn|
        invariant 0 <= i <= |blocksIn|
        invariant !panicked
        invariant Forward(Progress(blocksOut, done, false), DecodeAll(blocksIn[i..], decodeBlock), chainTip) == target
      {
        assert blocksIn[i..][1..] == blocksIn[i + 1..];
        var outBlock := decodeBlock(blocksIn[i], ChainId);
        blocksOut := blocksOut + [outBlock];
        if outBlock.height == chainTip {
          if done {
            panicked := true;
            return;
          }
          done := true;
        }
        i := i + 1;
      }
    }

    /** emitDone: the request half, then the forwarding half. */
    method EmitDone(heights: array<int>, blocksIn: seq<R>) returns (panicked: bool)
      modifies this, heights
      ensures Sorted(heights[..]) && multiset(heights[..]) == multiset(old(heights[..]))
      ensures heightsIn == old(heightsIn) + Requests(old(heights[..]), chainTip)
      ensures Progress(blocksOut, done, panicked) ==
        Forward(Progress(old(blocksOut), old(done), false), DecodeAll(blocksIn, decodeBlock), chainTip)
    {
      RequestMissing(heights);
      panicked := ForwardBlocks(blocksIn);
    }
  }
}
