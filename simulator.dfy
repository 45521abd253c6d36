/** The simulation part of the simulator application: the block store, the
    allocated process records, the busy flag and the step log, updated in
    place by adding a process, removing one and resetting. Every method is
    proved against the functions of module Allocation. */
module Simulator {
  import Algorithms
  import opened Allocation

  /** The last message of the status line. */
  datatype Status =
    | Ready
    | Allocating(pid: string, size: int, alg: Algorithm)
    | AllocatedTo(pid: string, size: int, block: int)
    | Paged(pid: string)
    | AllocationFailed(pid: string, size: int)
    | Removed(pid: string)
    | NotFound(pid: string)

  /** The status line after an allocation request that was not turned away
      as busy. */
  function AllocationStatus(alg: Algorithm, free: seq<int>, pid: string, size: int): (r: Status)
    ensures r.AllocatedTo? || r.Paged? <==> Succeeds(alg, free, size)
    ensures r.AllocatedTo? ==> r.block == Choice(alg, free, size) && 0 <= r.block < |free| && free[r.block] >= size
    ensures r.Paged? <==> alg == Paging
  {
    var c := Choice(alg, free, size);
    if alg == Paging then Paged(pid)
    else if c == -1 then AllocationFailed(pid, size)
    else AllocatedTo(pid, size, c)
  }

  class MemorySimulator {
    var blockTotal: seq<int>                // total capacity per block, fixed
    var memoryBlocks: seq<int>              // remaining free capacity per block
    var allocatedProcesses: seq<Record>     // (pid, size, block) in insertion order
    var animating: bool                     // an allocation is in progress
    var stepLog: seq<Event>                 // the step log, oldest first
    var status: Status
    /** Set by a paging allocation, cleared by a reset: paged records break
        capacity conservation. */
    ghost var pagedSinceReset: bool

    ghost function Model(): SimState
      reads this`blockTotal, this`memoryBlocks, this`allocatedProcesses
    {
      SimState(blockTotal, memoryBlocks, allocatedProcesses)
    }

    /** Well-formed always; capacity conserved as long as no process was
        paged since the last reset. */
    ghost predicate Valid()
      reads this`blockTotal, this`memoryBlocks, this`allocatedProcesses, this`pagedSinceReset
    {
      WellFormed(Model()) && (!pagedSinceReset ==> Conserved(Model()))
    }

    /** Four blocks of 500, 200, 300 and 600, all free. */
    constructor ()
      ensures Valid() && !pagedSinceReset
      ensures blockTotal == [500, 200, 300, 600] && memoryBlocks == blockTotal
      ensures allocatedProcesses == [] && !animating && stepLog == [] && status == Ready
    {
      blockTotal := [500, 200, 300, 600];
      memoryBlocks := [500, 200, 300, 600];
      allocatedProcesses := [];
      animating := false;
      stepLog := [];
      status := Ready;
      pagedSinceReset := false;
    }

    /** The block the chosen algorithm would take for a request of
        `memorySize`, found by running it on a copy of the free capacities;
        paging uses the dummy index 0. Nothing changes. */
    method SelectBlock(memorySize: int, algorithm: Algorithm) returns (allocIdx: int)
      ensures allocIdx == Choice(algorithm, memoryBlocks, memorySize)
    {
      var blocksCopy := memoryBlocks;
      assert [memorySize][..0] == [];
      match algorithm {
        case FirstFit =>
          var res := Algorithms.FirstFit(blocksCopy, [memorySize]);
          allocIdx := res[0];
        case BestFit =>
          var res := Algorithms.BestFit(blocksCopy, [memorySize]);
          allocIdx := res[0];
        case WorstFit =>
          var res := Algorithms.WorstFit(blocksCopy, [memorySize]);
          allocIdx := res[0];
        case Paging =>
          allocIdx := 0;
      }
    }

    /** One allocation request. While another is in progress it is turned
        away with only a log line. Otherwise the algorithm's block is looked
        up on the current free capacities, blocks are examined in order up to
        the selected one, and the selected block loses the request's size; a
        failed request changes nothing; paging records the process against
        block 0 and always succeeds. */
    method AnimateAllocation(processId: string, memorySize: int, algorithm: Algorithm) returns (ok: bool)
      requires Valid() && memorySize > 0
      modifies this
      ensures Valid()
      ensures blockTotal == old(blockTotal)
      ensures old(animating) ==>
        !ok && animating && Model() == old(Model()) && stepLog == old(stepLog) + [Busy] &&
        status == old(status) && pagedSinceReset == old(pagedSinceReset)
      ensures !old(animating) ==>
        !animating &&
        ok == Succeeds(algorithm, old(memoryBlocks), memorySize) &&
        Model() == Allocated(old(Model()), processId, memorySize, algorithm) &&
        stepLog == old(stepLog) + Trace(algorithm, old(memoryBlocks), memorySize) &&
        status == AllocationStatus(algorithm, old(memoryBlocks), processId, memorySize) &&
        pagedSinceReset == (old(pagedSinceReset) || algorithm == Paging)
    {
      if animating {
        stepLog := stepLog + [Busy];
        return false;
      }
      animating := true;
      status := Allocating(processId, memorySize, algorithm);
      var allocIdx := SelectBlock(memorySize, algorithm);
      ghost var before := Model();
      AllocationWellFormed(before, processId, memorySize, algorithm);
      if algorithm != Paging && !pagedSinceReset {
        FitAllocationConserves(before, processId, memorySize, algorithm);
      }
      ok := StepThroughBlocks(processId, memorySize, algorithm, allocIdx);
    }

    /** The examination of an allocation in progress: each block is checked
        in order and the allocation ends at the selected block; a block that
        is passed over and is too small is logged as rejected. */
    method StepThroughBlocks(processId: string, memorySize: int, algorithm: Algorithm, allocIdx: int)
      returns (ok: bool)
      requires Valid() && memorySize > 0 && animating
      requires allocIdx == Choice(algorithm, memoryBlocks, memorySize)
      modifies this
      ensures !animating
      ensures ok == Succeeds(algorithm, old(memoryBlocks), memorySize)
      ensures Model() == Allocated(old(Model()), processId, memorySize, algorithm)
      ensures stepLog == old(stepLog) + Trace(algorithm, old(memoryBlocks), memorySize)
      ensures status == AllocationStatus(algorithm, old(memoryBlocks), processId, memorySize)
      ensures pagedSinceReset == (old(pagedSinceReset) || algorithm == Paging)
    {
      ghost var free, prefix := old(memoryBlocks), old(stepLog);
      var i := 0;
      while i < |memoryBlocks|
        invariant 0 <= i <= |free|
        invariant Valid() && animating
        invariant Model() == old(Model()) && pagedSinceReset == old(pagedSinceReset)
        invariant status == old(status)
        invariant algorithm != Paging ==> allocIdx < 0 || i <= allocIdx
        invariant stepLog == prefix + Examined(algorithm, free, memorySize, allocIdx, i)
      {
        var selected := CheckBlock(processId, memorySize, algorithm, allocIdx, i);
        LogAdvance(prefix, algorithm, free, memorySize, allocIdx, i);
        if selected {
          return true;
        }
        i := i + 1;
      }
      LogEnd(prefix, algorithm, free, memorySize);
      ok := FinishUnselected(processId, memorySize, algorithm);
    }

    /** One block of the examination: it is logged as checked; when it is
        the selected block the allocation is committed there, otherwise it
        is logged as rejected if it is too small. */
    method CheckBlock(processId: string, memorySize: int, algorithm: Algorithm, allocIdx: int, i: int)
      returns (selected: bool)
      requires Valid() && memorySize > 0 && animating && 0 <= i < |memoryBlocks|
      requires allocIdx == Choice(algorithm, memoryBlocks, memorySize)
      modifies this
      ensures Valid()
      ensures selected == (i == allocIdx && algorithm != Paging)
      ensures stepLog == old(stepLog) + BlockEvents(algorithm, old(memoryBlocks), memorySize, allocIdx, i)
      ensures selected ==>
        !animating && Model() == Allocated(old(Model()), processId, memorySize, algorithm) &&
        status == AllocatedTo(processId, memorySize, i) && pagedSinceReset == old(pagedSinceReset)
      ensures !selected ==>
        animating && Model() == old(Model()) && status == old(status) &&
        pagedSinceReset == old(pagedSinceReset)
    {
      stepLog := stepLog + [Checking(i, memoryBlocks[i], memorySize)];
      if i == allocIdx && algorithm != Paging {
        var _ := CommitSelection(processId, memorySize, algorithm, i);
        return true;
      } else {
        if memoryBlocks[i] < memorySize && algorithm != Paging {
          stepLog := stepLog + [NotEnoughSpace(i)];
        }
      }
      return false;
    }

    /** The selected block: logged as selected, filled by the request's size
        (its free capacity clamped at 0), and the record appended. */
    method CommitSelection(processId: string, memorySize: int, algorithm: Algorithm, i: int)
      returns (ok: bool)
      requires Valid() && memorySize > 0 && animating && algorithm != Paging
      requires i != -1 && i == Choice(algorithm, memoryBlocks, memorySize)
      modifies this
      ensures Valid() && !animating && ok
      ensures Model() == Allocated(old(Model()), processId, memorySize, algorithm)
      ensures stepLog == old(stepLog) + [Selected(i)]
      ensures status == AllocatedTo(processId, memorySize, i)
      ensures pagedSinceReset == old(pagedSinceReset)
    {
      ghost var before := Model();
      AllocationWellFormed(before, processId, memorySize, algorithm);
      if !pagedSinceReset {
        FitAllocationConserves(before, processId, memorySize, algorithm);
      }
      stepLog := stepLog + [Selected(i)];
      var targetRemaining := memoryBlocks[i] - memorySize;
      if targetRemaining < 0 {
        targetRemaining := 0;
      }
      memoryBlocks := memoryBlocks[i := targetRemaining];
      allocatedProcesses := allocatedProcesses + [Record(processId, memorySize, i)];
      status := AllocatedTo(processId, memorySize, i);
      animating := false;
      ok := true;
    }

    /** No block was selected: paging records the process against block 0
        and succeeds; any other algorithm fails and nothing changes. */
    method FinishUnselected(processId: string, memorySize: int, algorithm: Algorithm)
      returns (ok: bool)
      requires Valid() && memorySize > 0 && animating
      requires algorithm != Paging ==> Choice(algorithm, memoryBlocks, memorySize) == -1
      modifies this
      ensures Valid() && !animating
      ensures ok == (algorithm == Paging)
      ensures Model() == Allocated(old(Model()), processId, memorySize, algorithm)
      ensures stepLog == old(stepLog) + (if algorithm == Paging then [PagingSucceeded] else [])
      ensures status == AllocationStatus(algorithm, old(memoryBlocks), processId, memorySize)
      ensures pagedSinceReset == (old(pagedSinceReset) || algorithm == Paging)
    {
      ghost var before := Model();
      AllocationWellFormed(before, processId, memorySize, algorithm);
      if algorithm == Paging {
        stepLog := stepLog + [PagingSucceeded];
        status := Paged(processId);
        allocatedProcesses := allocatedProcesses + [Record(processId, memorySize, 0)];
        pagedSinceReset := true;
        animating := false;
        return true;
      }
      status := AllocationFailed(processId, memorySize);
      animating := false;
      return false;
    }

    /** The "Add Process" action: an empty id or a size that is not positive
        is turned away before anything changes; otherwise the request goes
        to AnimateAllocation, and `ok` is its result. */
    method AddProcess(processId: string, memorySize: int, algorithm: Algorithm) returns (ok: bool)
      requires Valid()
      modifies this
      ensures Valid()
      ensures blockTotal == old(blockTotal)
      ensures processId == "" || memorySize <= 0 ==>
        !ok && Model() == old(Model()) && animating == old(animating) &&
        stepLog == old(stepLog) && status == old(status) && pagedSinceReset == old(pagedSinceReset)
      ensures processId != "" && memorySize > 0 && old(animating) ==>
        !ok && animating && Model() == old(Model()) && stepLog == old(stepLog) + [Busy] &&
        status == old(status) && pagedSinceReset == old(pagedSinceReset)
      ensures processId != "" && memorySize > 0 && !old(animating) ==>
        !animating &&
        ok == Succeeds(algorithm, old(memoryBlocks), memorySize) &&
        Model() == Allocated(old(Model()), processId, memorySize, algorithm) &&
        stepLog == old(stepLog) + Trace(algorithm, old(memoryBlocks), memorySize) &&
        status == AllocationStatus(algorithm, old(memoryBlocks), processId, memorySize) &&
        pagedSinceReset == (old(pagedSinceReset) || algorithm == Paging)
    {
      if processId == "" || memorySize <= 0 {
        return false;
      }
      ok := AnimateAllocation(processId, memorySize, algorithm);
    }

    /** The "Remove Process" action: the first record with the given id is
        dropped and its block gets the size back, capped at the block's
        total. An empty id changes nothing; an unknown one only sets the
        status line. The busy flag is not consulted. */
    method RemoveProcess(processId: string)
      requires Valid()
      modifies this
      ensures Valid()
      ensures blockTotal == old(blockTotal) && animating == old(animating) && stepLog == old(stepLog)
      ensures pagedSinceReset == old(pagedSinceReset)
      ensures Model() == Released(old(Model()), processId)
      ensures processId == "" ==> status == old(status)
      ensures processId != "" ==>
        status == if FirstMatch(old(allocatedProcesses), processId) == -1 then NotFound(processId)
                  else Removed(processId)
    {
      if processId == "" {
        return;
      }
      var i := 0;
      while i < |allocatedProcesses|
        invariant 0 <= i <= |allocatedProcesses|
        invariant forall k :: 0 <= k < i ==> allocatedProcesses[k].pid != processId
      {
        if allocatedProcesses[i].pid == processId {
          Deallocate(processId, i);
          return;
        }
        i := i + 1;
      }
      status := NotFound(processId);
    }

    /** The first record with the given id, at index `i`, is removed: its
        block gets the size back, capped at the block's total, and the
        record is dropped from the list. */
    method Deallocate(processId: string, i: int)
      requires Valid() && processId != ""
      requires 0 <= i < |allocatedProcesses| && allocatedProcesses[i].pid == processId
      requires forall k :: 0 <= k < i ==> allocatedProcesses[k].pid != processId
      modifies this
      ensures Valid()
      ensures blockTotal == old(blockTotal) && animating == old(animating) && stepLog == old(stepLog)
      ensures pagedSinceReset == old(pagedSinceReset)
      ensures Model() == Released(old(Model()), processId)
      ensures status == Removed(processId)
    {
      ghost var before := Model();
      ReleaseWellFormed(before, processId);
      if !pagedSinceReset {
        ReleaseConserves(before, processId);
      }
      assert FirstMatch(allocatedProcesses, processId) == i;
      var record := allocatedProcesses[i];
      var block := record.block;
      var targetRemaining := memoryBlocks[block] + record.size;
      memoryBlocks := memoryBlocks[block := Min(blockTotal[block], targetRemaining)];
      allocatedProcesses := allocatedProcesses[..i] + allocatedProcesses[i + 1..];
      status := Removed(processId);
    }

    /** The "Reset" action: refused while an allocation is in progress;
        otherwise every block is free again, no process is allocated and the
        step log is cleared. */
    method ResetSimulation()
      requires Valid()
      modifies this
      ensures Valid()
      ensures blockTotal == old(blockTotal) && animating == old(animating)
      ensures old(animating) ==>
        Model() == old(Model()) && stepLog == old(stepLog) && status == old(status) &&
        pagedSinceReset == old(pagedSinceReset)
      ensures !old(animating) ==>
        Model() == Reset(old(Model())) && memoryBlocks == blockTotal && allocatedProcesses == [] &&
        stepLog == [] && status == Ready && !pagedSinceReset
    {
      if animating {
        return;
      }
      memoryBlocks := blockTotal;
      allocatedProcesses := [];
      stepLog := [];
      status := Ready;
      pagedSinceReset := false;
    }
  }
}
