# go-scrt-events: the `emitDone` goroutine

go-scrt-events bootstraps a PostgreSQL database with the block results of
the Secret Network chain (chain id `secret-2`). On start it learns the chain
tip from a node, reads which block heights are already stored, requests the
missing ones. It forwards every decoded block to the database writer and
closes `done` once the block at the tip has been sent; the loop runs until
the incoming channel is closed.

This project models `emitDone` in `cmd/root.go`, the goroutine that does the
reconciliation:

- **Gap calculation** (module `Gaps`, `gaps.dfy`). The snapshot of stored
  heights is sorted in place (`sort.Ints`). The scan starts at 1 when the
  snapshot is empty and at its lowest height otherwise. Every height from
  there to the tip that the `contains` closure does not report is sent on the
  `heightsIn` channel, in ascending order.
- **Completion** (module `Completion`, `completion.dfy`). Each received block
  is decoded for `secret-2` and sent on `blocksOut`. `done` is closed when the
  sent block's height is the tip. The loop is a pure state machine
  (`Step`, `Forward`) over a `Progress` value. Lemmas state what it forwards,
  when `done` closes and when the goroutine panics.
- **The goroutine** (module `Root`, `root.dfy`). Class `Emitter` holds the
  channels as fields: `heightsIn` and `blocksOut` are the sequences sent so
  far, and `done` says whether the `done` channel is closed. `RequestMissing`
  and `ForwardBlocks` are the two loops. They are proved against `Requests`
  and `Forward`. `EmitDone` runs one loop after the other.

How the code is read:

- `contains` (cmd/root.go:43-50) ranges over the slice with `for i := range
  inSlice` and compares the index `i`, not `inSlice[i]`, with `checkFor`. So it
  answers whether `checkFor` is a valid index, not whether it is a stored
  height, as its comment says. `Emitter.RequestMissing` keeps this test, as
  written. The value test is `ContainsHeight`, and the scan that uses it is
  `ScanMissing` (see Findings).
- `start` is declared with `:=` inside both branches of the `if`
  (cmd/root.go:54, 57). So it is out of scope in the loop at cmd/root.go:60,
  and the file does not compile. The model uses what the comment at
  cmd/root.go:51 states: 1 for an empty snapshot, otherwise the lowest stored
  height (`StartHeight`).
- `blocksIn` is declared nowhere in the file. `dbSession` is a local of `run`
  (cmd/root.go:89), so it is out of scope inside `emitDone`. The received
  blocks and the height snapshot are parameters.
- `block.DecodeBlock("secret-2")` lives in a package that is not part of this
  model. It is the `decodeBlock` function given to the `Emitter` constructor.
  A decoded block is `BlockResultDB(height, payload)`, where `payload` stands
  for the columns other than the height.

What the code does, against what its comments say:

- With heights {2, 3} stored and tip 5, the scan the comments at
  cmd/root.go:42 and 51 describe, starting at the lowest stored height
  (`start := heights[0]`, cmd/root.go:57), yields [4, 5] (`IntendedSkipsStored`).
  The code yields [2, 3, 4, 5] (`AsWrittenRerequestsStored`). With {1, 3}
  stored and tip 4, the comments give [2, 4] and the code gives [2, 3, 4]
  (`StoredOneThreeExample`). The comment at cmd/root.go:59 ("Loop from dbTip
  to chainTip") names a different start from the comment at cmd/root.go:51;
  the model follows line 51 and the code at line 57.
- A second block at the tip height closes `done` again
  (cmd/root.go:73-75), and closing a closed channel panics in Go
  (`ForwardPanicsIff`).
- `done` is closed as soon as the tip block has been sent on `blocksOut`
  (cmd/root.go:72-74), whatever the receiver then does with it.

## Model

| member | source | states |
|---|---|---|
| Gaps.Contains | cmd/root.go:42-50 | `contains` as written: true exactly when `checkFor` is a valid index `0 <= checkFor < len(inSlice)` |
| Gaps.ContainsHeight | cmd/root.go:42-50 | `contains` as its comment describes it: true exactly when `checkFor` is one of the heights in the slice |
| Gaps.SortInts | cmd/root.go:56 | `sort.Ints`: the slice ends ascending and is a permutation of what it held |
| Gaps.Min | cmd/root.go:51-57 | the lowest height is an element of the snapshot and at most every element |
| Gaps.SortedHeadIsMin | cmd/root.go:55-57 | after sorting, `heights[0]` is the lowest height of the original snapshot |
| Gaps.StartHeight | cmd/root.go:51-58 | the scan starts at 1 for an empty snapshot, otherwise at the lowest stored height (an element of the snapshot, at most every element) |
| Gaps.Missing | cmd/root.go:60-66 | the scan of `lo..tip`: every height it yields lies in `lo..tip` and is not present |
| Gaps.Requests | cmd/root.go:43-66 | the requests as written: each lies in `start..chainTip` and is not a valid index of the snapshot |
| Gaps.GapHeights | cmd/root.go:51-66 | the requests the comments describe: each lies in `start..chainTip` and is not a stored height |
| Gaps.GapHeightsCharacterised | cmd/root.go:51-66 | the corrected scan: `h` is requested exactly when `start <= h <= chainTip` and `h` is not stored; requests strictly ascend |
| Gaps.MissingMembership | cmd/root.go:60-66 | a height is emitted exactly when it lies in `start..chainTip` and is not present; nothing outside the range is emitted |
| Gaps.MissingIncreasing | cmd/root.go:60-66 | emitted heights strictly increase, so no height is requested twice |
| Gaps.MissingNothingPresent | cmd/root.go:60-66 | with nothing present, every height from the start to the tip is emitted, in order |
| Gaps.MissingAllPresent | cmd/root.go:60-66 | with every height of the range present, nothing is emitted |
| Gaps.MissingAgree | cmd/root.go:60-66 | the scan depends on the presence test only inside `start..chainTip` |
| Gaps.MissingSkipsPresentPrefix | cmd/root.go:60-66 | a run of present heights at the bottom of the range is skipped |
| Gaps.RequestsCharacterised | cmd/root.go:43-66 | as written: `h` is requested exactly when `start <= h <= chainTip` and `h` is not a valid index of the snapshot; requests strictly ascend |
| Gaps.NothingRequestedBelowStart | cmd/root.go:60 | a tip below the start height yields no requests |
| Gaps.AsWrittenRequestsIgnoreStoredValues | cmd/root.go:43-66 | as written, from a non-negative start, the requests are every height from `max(start, len(heights))` to the tip, whatever heights are stored |
| Gaps.CaughtUpStoreRerequestsTip | cmd/root.go:43-66 | a store holding exactly 1..tip: the intended scan requests nothing, the code requests the tip again |
| Gaps.FreshStoreRequestsAll | cmd/root.go:51-54 | an empty store requests every height 1..tip, in order, as written and as intended |
| Gaps.AsWrittenRerequestsStored | cmd/root.go:43-66 | heights [2, 3] stored and tip 5: the code requests [2, 3, 4, 5] |
| Gaps.IntendedSkipsStored | cmd/root.go:51-66 | heights [2, 3] stored and tip 5: the intended scan requests [4, 5] |
| Gaps.StoredOneThreeExample | cmd/root.go:43-66 | heights [1, 3] stored and tip 4: intended [2, 4], as written [2, 3, 4] |
| Gaps.ScanMissing | cmd/root.go:59-67 | the request loop with the value test: it returns the heights from the start to the tip that are not stored, in ascending order |
| Completion.Step | cmd/root.go:71-75 | one iteration: the block is appended to `blocksOut`; `done` is closed afterwards iff it was or the block is at the tip; it panics iff `done` was closed and the block is at the tip |
| Completion.Forward | cmd/root.go:70-76 | the loop: once panicked nothing changes, a closed `done` stays closed, and at most one block is sent per received block |
| Completion.DecodeAll | cmd/root.go:70-71 | each received block is decoded for `secret-2`, one result per block, in arrival order |
| Completion.ForwardAppendsPrefix | cmd/root.go:70-72 | what is sent on `blocksOut` is the earlier output followed by a prefix of the decoded input, in arrival order |
| Completion.ForwardStopsOnlyOnPanic | cmd/root.go:70-76 | blocks are left unsent only when the loop panicked |
| Completion.ForwardWithoutPanicForwardsAll | cmd/root.go:70-76 | without a panic every block is sent exactly once, in arrival order |
| Completion.ForwardDoneIff | cmd/root.go:73-75 | `done` is closed exactly when it already was or some sent block has the tip height |
| Completion.ForwardPanicsIff | cmd/root.go:73-75 | the loop panics exactly when a second tip block arrives, counting an already closed `done` as the first |
| Completion.PanicFollowsTipBlock | cmd/root.go:72-75 | a panic comes only after the offending tip block has been sent on `blocksOut` |
| Completion.SingleTipBlockCompletes | cmd/root.go:70-76 | with at most one tip block and `done` open: no panic, everything sent in order, `done` closed exactly when the tip block arrived |
| Root.Emitter.constructor | cmd/root.go:41 | a run starts with no heights requested, no blocks sent and `done` open, against a fixed tip and decoder |
| Root.Emitter.RequestMissing | cmd/root.go:51-67 | the snapshot ends sorted and a permutation of itself; `heightsIn` gains exactly `Requests(snapshot, chainTip)` |
| Root.Emitter.ForwardBlocks | cmd/root.go:69-76 | `blocksOut`, `done` and the panic flag end as the `Forward` state machine says for the decoded blocks |
| Root.Emitter.EmitDone | cmd/root.go:41-78 | the request loop and then the forwarding loop, with both of their effects |

## Findings

| source | as written | input that shows it | evidently intended | confidence | as-written member | corrected member |
|---|---|---|---|---|---|---|
| cmd/root.go:43-49 | `contains` compares the loop index with `checkFor`, so it tests `0 <= checkFor < len(inSlice)` | heights [2, 3] stored, tip 5: heights 2 and 3 are requested again; a store holding exactly 1..T requests T again | compare `inSlice[i]` with `checkFor`, so that stored heights are skipped: [4, 5] | high; not executed | Gaps.AsWrittenRerequestsStored | Gaps.ScanMissing |

`Root.Emitter.RequestMissing` keeps the test as written, since it models the
loop at cmd/root.go:60-67. `Gaps.ScanMissing` is the same loop with the value
test. Its result is `GapHeights`, which `IntendedSkipsStored` and
`CaughtUpStoreRerequestsTip` describe.

## Left out

- `run` (cmd/root.go:81-107): goroutine start-up, the `sync.WaitGroup`, channel creation and the blocking receive of the tip. The channels appear only as the `Emitter` fields and the method parameters. `wg.Done()` (cmd/root.go:77) is not modelled.
- Channel blocking and interleaving with the other goroutines: each send is modelled as an append to a sequence, and the received blocks as a finite sequence.
- `node.HandleWs`: websocket I/O in a package that is not part of this model.
- `db.InitDB`, `db.GetHeights`, `db.InsertBlocks`: PostgreSQL access in a package that is not part of this model. The height snapshot is an array parameter.
- `DecodeBlock`: in `pkg/types`, which is not part of this model. It is an arbitrary function passed to the constructor.
- `rootCmd`, `ScrtEventsCmd`, `setUpLogs`, `initConfig` (cmd/root.go:20-39, 110-151): command-line and configuration plumbing.
- `logrus.Debug` calls: logging only.
- Root.Emitter.RequestMissing: heights are unbounded integers, so the 64-bit wrap of `i++` when the tip is the largest `int` is not modelled.
- Gaps.SortInts: proved as an insertion sort. The ordering and permutation it guarantees are what `sort.Ints` promises, but its algorithm is not the one `sort.Ints` uses.
