// The completion half of emitDone (cmd/root.go): every block received from
// the node is decoded for the chain, handed on to the writer, and the `done`
// channel is closed when the handed-on block is the one at the chain tip.

module Completion {

  /** The chain identifier the ingester hard-codes. */
  const ChainId: string := "secret-2"

  /** A decoded, storage-ready block (types.BlockResultDB). Only its height
      matters here; P stands for the rest of its columns. */
  datatype BlockResultDB<P> = BlockResultDB(height: int, payload: P)

  /** Every received block decoded for the chain, in arrival order. */
  function DecodeAll<R, P>(blocksIn: seq<R>, decode: (R, string) -> BlockResultDB<P>): (r: seq<BlockResultDB<P>>)
    ensures |r| == |blocksIn|
    ensures forall k :: 0 <= k < |blocksIn| ==> r[k] == decode(blocksIn[k], ChainId)
  {
    if blocksIn == [] then []
    else [decode(blocksIn[0], ChainId)] + DecodeAll(blocksIn[1..], decode)
  }

  /** The observable state of the forwarding loop: what has been sent on
      blocksOut, whether `done` is closed, and whether the goroutine has
      panicked by closing `done` a second time. */
  datatype Progress<P> = Progress(forwarded: seq<BlockResultDB<P>>, done: bool, panicked: bool)

  /** One iteration of the loop: forward the block, then close `done` if
      it is the tip block. Closing an already-closed channel panics. */
  function Step<P>(s: Progress<P>, b: BlockResultDB<P>, chainTip: int): (r: Progress<P>)
    ensures r.forwarded == s.forwarded + [b]
    ensures r.done <==> s.done || b.height == chainTip
    ensures r.panicked <==> s.done && b.height == chainTip
  {
    if b.height == chainTip then Progress(s.forwarded + [b], true, s.done)
    else Progress(s.forwarded + [b], s.done, false)
  }

  /** The loop over a sequence of decoded blocks; it ends early on a panic. */
  function Forward<P>(s: Progress<P>, bs: seq<BlockResultDB<P>>, chainTip: int): (r: Progress<P>)
    ensures s.panicked ==> r == s
    ensures s.done ==> r.done
    ensures |s.forwarded| <= |r.forwarded| <= |s.forwarded| + |bs|
    decreases |bs|
  {
    if bs == [] || s.panicked then s
    else Forward(Step(s, bs[0], chainTip), bs[1..], chainTip)
  }

  /** The number of blocks at the tip height. */
  function TipCount<P>(bs: seq<BlockResultDB<P>>, chainTip: int): nat
  {
    if bs == [] then 0
    else (if bs[0].height == chainTip then 1 else 0) + TipCount(bs[1..], chainTip)
  }

  /** Blocks are forwarded in arrival order, each at most once: what is
      forwarded is the old output followed by a prefix of the input. */
  lemma {:induction false} ForwardAppendsPrefix<P>(s: Progress<P>, bs: seq<BlockResultDB<P>>, chainTip: int)
    ensures var r := Forward(s, bs, chainTip);
      |s.forwarded| <= |r.forwarded| <= |s.forwarded| + |bs| &&
      r.forwarded == s.forwarded + bs[..|r.forwarded| - |s.forwarded|]
    decreases |bs|
  {
    if bs != [] && !s.panicked {
      var t := Step(s, bs[0], chainTip);
      ForwardAppendsPrefix(t, bs[1..], chainTip);
      var r := Forward(t, bs[1..], chainTip);
      var n := |r.forwarded| - |t.forwarded|;
      assert bs[..n + 1] == [bs[0]] + bs[1..][..n];
    }
  }

  /** A loop that does not panic forwards every block, exactly once and in
      arrival order. */
  lemma ForwardWithoutPanicForwardsAll<P>(s: Progress<P>, bs: seq<BlockResultDB<P>>, chainTip: int)
    requires !s.panicked
    ensures !Forward(s, bs, chainTip).panicked ==> Forward(s, bs, chainTip).forwarded == s.forwarded + bs
  {
    ForwardAppendsPrefix(s, bs, chainTip);
    ForwardStopsOnlyOnPanic(s, bs, chainTip);
  }

  /** The loop leaves blocks unforwarded only when it panicked. */
  lemma {:induction false} ForwardStopsOnlyOnPanic<P>(s: Progress<P>, bs: seq<BlockResultDB<P>>, chainTip: int)
    requires !s.panicked
    ensures !Forward(s, bs, chainTip).panicked ==> |Forward(s, bs, chainTip).forwarded| == |s.forwarded| + |bs|
    decreases |bs|
  {
    if bs != [] {
      var t := Step(s, bs[0], chainTip);
      if !t.panicked {
        ForwardStopsOnlyOnPanic(t, bs[1..], chainTip);
      }
    }
  }

  /** `done` is closed exactly when it already was or some forwarded block
      has the tip height. */
  lemma {:induction false} ForwardDoneIff<P>(s: Progress<P>, bs: seq<BlockResultDB<P>>, chainTip: int)
    requires !s.panicked
    ensures var r := Forward(s, bs, chainTip);
      |s.forwarded| <= |r.forwarded| &&
      (r.done <==> s.done || exists k :: |s.forwarded| <= k < |r.forwarded| && r.forwarded[k].height == chainTip)
    decreases |bs|
  {
    ForwardAppendsPrefix(s, bs, chainTip);
    if bs != [] {
      var t := Step(s, bs[0], chainTip);
      var r := Forward(s, bs, chainTip);
      if t.panicked {
        assert r == t;
        assert r.forwarded[|s.forwarded|] == bs[0];
      } else {
        ForwardDoneIff(t, bs[1..], chainTip);
        ForwardAppendsPrefix(t, bs[1..], chainTip);
        assert r.forwarded[|s.forwarded|] == bs[0];
        if r.done && !s.done && bs[0].height != chainTip {
          var k :| |t.forwarded| <= k < |r.forwarded| && r.forwarded[k].height == chainTip;
          assert |s.forwarded| <= k;
        }
      }
    }
  }

  /** The goroutine panics exactly when a second tip block arrives (counting
      a `done` that was already closed as the first). */
  lemma {:induction false} ForwardPanicsIff<P>(s: Progress<P>, bs: seq<BlockResultDB<P>>, chainTip: int)
    requires !s.panicked
    ensures Forward(s, bs, chainTip).panicked <==> TipCount(bs, chainTip) + (if s.done then 1 else 0) >= 2
    decreases |bs|
  {
    if bs != [] {
      var t := Step(s, bs[0], chainTip);
      if !t.panicked {
        ForwardPanicsIff(t, bs[1..], chainTip);
      } else {
        assert TipCount(bs, chainTip) >= 1;
      }
    }
  }

  /** A panic comes only after the offending tip block has been sent on
      blocksOut: the last forwarded block is at the tip height. */
  lemma {:induction false} PanicFollowsTipBlock<P>(s: Progress<P>, bs: seq<BlockResultDB<P>>, chainTip: int)
    requires !s.panicked
    ensures var r := Forward(s, bs, chainTip);
      r.panicked ==> |r.forwarded| > 0 && r.forwarded[|r.forwarded| - 1].height == chainTip
    decreases |bs|
  {
    if bs != [] {
      var t := Step(s, bs[0], chainTip);
      if !t.panicked {
        PanicFollowsTipBlock(t, bs[1..], chainTip);
      }
    }
  }

  /** With at most one tip block and `done` still open, nothing panics,
      every block is forwarded in order, and `done` ends closed exactly when
      the tip block arrived. */
  lemma SingleTipBlockCompletes<P>(forwarded: seq<BlockResultDB<P>>, bs: seq<BlockResultDB<P>>, chainTip: int)
    requires TipCount(bs, chainTip) <= 1
    ensures var r := Forward(Progress(forwarded, false, false), bs, chainTip);
      !r.panicked && r.forwarded == forwarded + bs &&
      (r.done <==> exists k :: 0 <= k < |bs| && bs[k].height == chainTip)
  {
    var s := Progress(forwarded, false, false);
    ForwardPanicsIff(s, bs, chainTip);
    ForwardWithoutPanicForwardsAll(s, bs, chainTip);
    ForwardDoneIff(s, bs, chainTip);
    var r := Forward(s, bs, chainTip);
    if exists k :: 0 <= k < |bs| && bs[k].height == chainTip {
      var k :| 0 <= k < |bs| && bs[k].height == chainTip;
      assert r.forwarded[|forwarded| + k] == bs[k];
    }
  }
}
