# Memory Management Simulator — a verified model of its allocation engine

The simulator keeps four memory blocks (500, 200, 300 and 600 MB), each with
a fixed total and a remaining free capacity, and a list of allocated
processes `(pid, size, block)`. A request names a process, a size and one of
four algorithms: First Fit, Best Fit, Worst Fit, or a simplified Paging that
always succeeds. The engine finds the algorithm's block by running the batch
placement function on a copy of the free capacities. It then steps through
the blocks in order and stops at the selected block, where the request's
size is taken away. Every examined block gets a step-log line. Except
under paging, a block that is too small gets a second line rejecting it,
and the selected block gets a second line selecting it. Removing a process
gives its size back to its block, capped at the block's total. Reset frees
every block again.

The project has three modules:

- `Algorithms` (algorithms.dfy) models `algorithms.py`:
  - The three batch placement algorithms are imperative methods over a local
    copy of the capacities. Each is proved against a recursive function
    `Scan` that follows the state of its inner loop.
  - `Scan` is then proved equal to an independent reference definition of
    the policy (`IsFirstFit`, `IsBestFit`, `IsWorstFit`).
  - The paging stand-in and the fragmentation metric are pure functions.
- `Allocation` (allocation.dfy) models the engine's behaviour as values:
  - the block store (`SimState`);
  - the block chosen for a request (`Choice`);
  - the step log of a request (`Trace`, a sequence of `Event`s);
  - the effect of allocating, removing and resetting (`Allocated`,
    `Released`, `Reset`).

  It also proves how these interact: well-formedness is preserved,
  capacities are conserved, and removal undoes allocation.
- `Simulator` (simulator.dfy) models the application's simulation state:
  - The class `MemorySimulator` has the fields `blockTotal`, `memoryBlocks`,
    `allocatedProcesses`, `animating`, the step log and the status line.
  - Its methods update these fields in place and are proved against the
    functions of `Allocation`.
  - `Valid()` holds throughout. The capacity of each block equals its free
    part plus the sizes recorded against it, but this conservation invariant
    holds only until a process is paged. The ghost flag `pagedSinceReset`
    tracks that.

Three behaviours of the code are kept as they are:

- The same process id may be allocated twice. Removal takes the first
  record with that id.
- Paging records the process against block 0 without taking capacity from
  it. Removing that process still gives its size back to block 0 (capped),
  so block 0 can end up freer than before (`PagedReleaseInflatesBlockZero`).
- The step log only rejects blocks that are examined and too small. It stops
  at the selected block. A fitting block that best or worst fit passes over
  gets no rejection line.

## Model

| member | source | states |
|---|---|---|
| Algorithms.Scan | algorithms.py:11-46 | the candidate after examining blocks 0..n-1 is -1 or an examined block that can hold the request |
| Algorithms.Place | algorithms.py:12-49 | the block chosen for one request is -1 or a valid index of a block large enough for it |
| Algorithms.ScanIsFirstFit | algorithms.py:11-15 | the first-fit scan yields the first block that fits, and -1 exactly when no block fits |
| Algorithms.ScanIsBestFit | algorithms.py:25-30 | the best-fit scan yields a fitting block of least free capacity, the earliest among equals, and -1 exactly when none fits |
| Algorithms.ScanIsWorstFit | algorithms.py:41-46 | the worst-fit scan yields a fitting block of greatest free capacity, the earliest among equals, and -1 exactly when none fits (for requests of size at least 0) |
| Algorithms.PlacementIsUnique | algorithms.py:7-50 | each reference definition of a policy admits exactly one answer |
| Algorithms.Reduce | algorithms.py:13-16 | placing a request keeps one entry per block and takes exactly the request's size from the chosen block |
| Algorithms.Remaining | algorithms.py:9-17 | the local copy keeps one entry per block while the requests are placed one after another |
| Algorithms.RemainingStep | algorithms.py:10-17 | the local copy after requests 0..i is the copy after 0..i-1 with request i placed and subtracted |
| Algorithms.RemainingNonNegative | algorithms.py:14-16 | subtracting placed requests never drives a capacity of the copy below zero |
| Algorithms.RemainingShrinks | algorithms.py:33 | requests of non-negative size only take capacity away from the copy |
| Algorithms.FirstFit | algorithms.py:7-18 | one entry per request; request i gets the first block that fits in the copy as reduced by requests 0..i-1, or -1 |
| Algorithms.BestFit | algorithms.py:20-34 | one entry per request; request i gets the best-fit block of the copy as reduced by requests 0..i-1, or -1 |
| Algorithms.WorstFit | algorithms.py:36-50 | one entry per request; request i gets the worst-fit block of the copy as reduced by requests 0..i-1, or -1 |
| Algorithms.SimulatePaging | algorithms.py:52-54 | one entry per request, every one block 0, so no request is reported as failed |
| Algorithms.Max | algorithms.py:59 | the largest entry of a non-empty list is one of its entries and bounds all of them |
| Algorithms.CalculateFragmentation | algorithms.py:56-65 | the total free space is the sum; the largest free block is the maximum entry (0 for no blocks); external fragmentation is their difference |
| Algorithms.Sum | algorithms.py:58 | the total of non-negative capacities is non-negative |
| Algorithms.SumBoundsEntries | algorithms.py:58 | with non-negative capacities the sum is non-negative and bounds every entry |
| Algorithms.ExternalFragmentationNonNegative | algorithms.py:58-60 | with non-negative capacities external fragmentation is at least 0 and the largest block is at most the total |
| Algorithms.ReferenceBlocksExample | algorithms.py:7-50 | for blocks 500, 200, 300, 600 and a request of 250, first fit picks block 0, best fit block 2 and worst fit block 3 |
| Algorithms.BestFitTieExample | algorithms.py:28 | between two equally good blocks, best fit keeps the lower index |
| Algorithms.NoFitExample | algorithms.py:7-50 | a request larger than every block is unplaced by all three policies |
| Algorithms.FragmentationExample | algorithms.py:56-65 | free blocks 50, 50, 50, 300 give 450 free, 300 largest and 150 external fragmentation |
| Allocation.Choice | main.py:294-307 | the engine's block is the policy's placement on the current capacities (a fitting block or -1), or the dummy 0 for paging |
| Allocation.Allocated | main.py:315-349 | totals and the number of blocks are unchanged; a successful request appends exactly one record, (pid, size, chosen block); a failed one changes nothing |
| Allocation.BlockEvents | main.py:310-339 | an examined block logs one or two lines: its check line first, and a second line exactly when it is the selected block or too small, and the algorithm is not paging |
| Allocation.Examined | main.py:310-339 | examining n blocks logs between n and 2n lines |
| Allocation.Trace | main.py:309-345 | a request logs at most two lines per block plus the paging line, and logs nothing only when there are no blocks and the algorithm is not paging |
| Allocation.Released | main.py:379-397 | totals and the number of blocks are unchanged; exactly one record fewer when some record has the id, otherwise the state is unchanged |
| Allocation.Reset | main.py:403-404 | every block is free to its total, no records remain, totals are unchanged |
| Allocation.ChoiceMeetsPolicy | main.py:297-305 | the block chosen for a fit algorithm satisfies that algorithm's reference definition |
| Allocation.NoChoiceIffNoneFits | main.py:297-305 | a fit algorithm finds no block if and only if every block is too small |
| Allocation.ExaminedChecksInOrder | main.py:310-312 | examining the blocks checks each of them once, in index order |
| Allocation.ExaminedChecks | main.py:312 | each check line reports the block's current free capacity and the request's size |
| Allocation.ExaminedRejections | main.py:336-339 | a block is rejected if and only if it is examined, is not the selected block, is too small, and the algorithm is not paging |
| Allocation.ExaminedSelections | main.py:314-317 | only the chosen block is selected, and never under paging |
| Allocation.ExaminedFacts | main.py:310-339 | the examination's checks, rejections and selections together |
| Allocation.LogAdvance | main.py:310-339 | the log after block i is the log after block i-1 followed by block i's lines |
| Allocation.LogEnd | main.py:341-354 | after every block is examined without a selection, the log ends with the paging line for paging and with nothing for a failure |
| Allocation.SelectionTrace | main.py:310-333 | on success of a fit algorithm the log checks blocks 0..c in order, ends with the selection of c, selects nothing else, and rejects exactly the too-small blocks before c |
| Allocation.FirstFitTraceRejectsEarlierBlocks | main.py:336-339 | under first fit every block before the selected one is rejected in the log |
| Allocation.FailureTrace | main.py:310-339 | on failure of a fit algorithm every block is checked in order and rejected, and nothing is selected |
| Allocation.PagingTrace | main.py:310-345 | under paging every block is checked, none is rejected or selected, and the log ends with the paging line |
| Allocation.FirstMatch | main.py:379-380 | the index of the first record with the id, or -1 exactly when there is none |
| Allocation.FitAllocationEffect | main.py:319-331 | a successful fit allocation takes exactly the request's size from the chosen block only (the clamp at 0 never applies) and appends the record |
| Allocation.AllocationWellFormed | main.py:319-347 | allocating keeps capacities between 0 and the totals and records valid |
| Allocation.FitAllocationConserves | main.py:319-331 | a fit allocation keeps free plus recorded size equal to each block's total |
| Allocation.PagingBreaksConservation | main.py:341-347 | a paging allocation breaks that equality at block 0 |
| Allocation.ReleaseWellFormed | main.py:379-393 | removing a process keeps the store well-formed |
| Allocation.ReleaseConserves | main.py:379-393 | removal keeps capacity conserved, and then the cap at the block's total is never reached |
| Allocation.ResetWellFormed | main.py:399-407 | after a reset the store is well-formed and conserved |
| Allocation.ResetIdempotent | main.py:403-404 | resetting twice is the same as resetting once |
| Allocation.ReleaseUndoesAllocation | main.py:375-397 | removing a process right after a fit allocation of it (no earlier record with the id) restores the store exactly |
| Allocation.PagedReleaseInflatesBlockZero | main.py:341-347 | removing a freshly paged process leaves block 0 with more free capacity than before the request when block 0 was partly used |
| Simulator.AllocationStatus | main.py:332-352 | the status reports allocated or paged exactly when the request succeeds; an allocated status names the chosen block, which fits; paged exactly for paging |
| Simulator.MemorySimulator.constructor | main.py:21-33 | blocks 500, 200, 300, 600, all free, no processes, not busy, empty log, valid |
| Simulator.MemorySimulator.SelectBlock | main.py:294-307 | running the chosen algorithm on a copy yields Choice, and nothing changes |
| Simulator.MemorySimulator.AnimateAllocation | main.py:286-354 | when busy only a busy line is logged; otherwise the result is whether the request succeeds, the new state is Allocated, the log grows by Trace, the status line reports the outcome, and Valid is kept; the paged flag is set exactly by a paging request, so capacity stays conserved across fit requests |
| Simulator.MemorySimulator.StepThroughBlocks | main.py:309-354 | stepping through the blocks produces Allocated, logs exactly Trace, ends the busy state and sets the paged flag only for paging |
| Simulator.MemorySimulator.CheckBlock | main.py:310-340 | one block logs its events; at the chosen block the allocation is committed, otherwise nothing but the log changes |
| Simulator.MemorySimulator.CommitSelection | main.py:316-333 | the selected block is logged, filled by the request's size and recorded |
| Simulator.MemorySimulator.FinishUnselected | main.py:341-354 | without a selection, paging records the process against block 0 and succeeds; any other algorithm fails and changes nothing; the paged flag is set only for paging |
| Simulator.MemorySimulator.AddProcess | main.py:356-365 | an empty id or a size of at most 0 is refused with nothing changed; otherwise AnimateAllocation's contract, including its effect on the paged flag |
| Simulator.MemorySimulator.RemoveProcess | main.py:375-397 | the new state is Released (first matching record dropped, size given back capped at the total); the status reports removed or not found; an empty id changes nothing; Valid is kept and the paged flag is unchanged, so conservation survives removal |
| Simulator.MemorySimulator.Deallocate | main.py:381-395 | the first matching record is removed and its block restored, keeping Valid and the paged flag |
| Simulator.MemorySimulator.ResetSimulation | main.py:399-407 | refused while busy; otherwise every block is free, no processes remain, the log is empty and conservation holds again |

## Left out

- monitor.py and setup.py are not part of this model. They cover system monitoring and packaging, not allocation.
- The Tkinter interface is left out: drawing, colours, the charts, the statistics panel, message boxes and the auto-refresh thread.
- The `_sleep_step` pauses and the animation speed are left out. They only affect timing.
- The fill and drain animations are not modelled frame by frame. Each write of an intermediate `int(...)` value is replaced by its final value, which is the target clamped at 0 on allocation and at the block's total on removal. This equality relies on the float interpolation reaching the target exactly at the last step.
- The log text is modelled as `Event` values. Block numbers are 0-based indices, while the text shows them from 1. The status line is the `Status` datatype rather than a formatted string.
- The transient "Deallocating ..." status text is left out of RemoveProcess. Only its final status is modelled.
- Reading the entry fields is left out: the `strip()` and the `int(...)` conversion with its `ValueError` path. AddProcess takes the id and an integer size as parameters.
- The algorithm comes from a radio button, so only its four values are modelled. Any other string would take block 0 without a fit check.
- Simulator.MemorySimulator.AnimateAllocation: requires a size above 0. The method is only reachable through AddProcess, which refuses any other size.
- Algorithms.ScanIsWorstFit: stated only for sizes of at least 0. The running maximum starts at -1, so a negative request never selects a block whose free capacity is negative.
- A Python list copy is modelled by value semantics of `seq`. Aliasing between `memory_blocks` and the algorithms' inputs is therefore not modelled; the source never mutates a shared list there.
- Concurrency is not modelled. The `animating` flag is modelled as the guard it is, but interleavings with the auto-refresh thread are not.
