/** Placement algorithms and the fragmentation metric of the simulator.

    A list of free capacities is a `seq<int>`; a placement is a block index,
    or -1 for "no block fits". The batch algorithms work on a local copy of
    the capacities, so the caller's sequence is never changed. */
module Algorithms {

  datatype Option<T> = None | Some(value: T)

  /** The three fit policies. */
  datatype Fit = First | Best | Worst

  /** The candidate a fit policy holds after examining blocks 0 .. n-1, in
      index order, for a request of `size`; -1 while there is none. This is
      exactly the state of the inner loop of the batch algorithms:
      first-fit stops at the first fitting block, best-fit replaces its
      candidate only by a strictly smaller fitting block, and worst-fit only
      by a fitting block strictly larger than its running maximum, which
      starts at -1. */
  function Scan(fit: Fit, free: seq<int>, size: int, n: nat): (r: int)
    requires n <= |free|
    ensures -1 <= r < n
    ensures r != -1 ==> free[r] >= size
  {
    if n == 0 then -1
    else
      var b := Scan(fit, free, size, n - 1);
      var j := n - 1;
      match fit
      case First => if b != -1 then b else if free[j] >= size then j else -1
      case Best => if free[j] >= size && (b == -1 || free[j] < free[b]) then j else b
      case Worst =>
        var worstSize := if b == -1 then -1 else free[b];
        if free[j] >= size && free[j] > worstSize then j else b
  }

  /** The block a fit policy chooses for one request: the scan over every block. */
  function Place(fit: Fit, free: seq<int>, size: int): (r: int)
    ensures -1 <= r < |free|
    ensures r != -1 ==> free[r] >= size
  {
    Scan(fit, free, size, |free|)
  }

  /** Capacities after a request of `size` went to block `j` (nothing for -1). */
  function Reduce(free: seq<int>, size: int, j: int): (r: seq<int>)
    requires -1 <= j < |free|
    ensures |r| == |free|
    ensures j != -1 ==> r[j] == free[j] - size
  {
    if j == -1 then free else free[j := free[j] - size]
  }

  /** The local copy of the capacities after the requests `ps` were placed
      one after another. */
  function Remaining(fit: Fit, free: seq<int>, ps: seq<int>): (r: seq<int>)
    ensures |r| == |free|
    decreases |ps|
  {
    if ps == [] then free
    else
      var prev := Remaining(fit, free, ps[..|ps| - 1]);
      var size := ps[|ps| - 1];
      Reduce(prev, size, Place(fit, prev, size))
  }

  /** One more request: the copy after requests 0 .. i is the copy after
      requests 0 .. i-1 with request i placed. */
  lemma RemainingStep(fit: Fit, free: seq<int>, ps: seq<int>, i: nat)
    requires i < |ps|
    ensures Remaining(fit, free, ps[..i + 1]) ==
      Reduce(Remaining(fit, free, ps[..i]), ps[i], Place(fit, Remaining(fit, free, ps[..i]), ps[i]))
  {
    assert ps[..i + 1][..i] == ps[..i];
  }

  // ---------------------------------------------------------------------
  // Reference definitions of the three policies, over blocks 0 .. n-1.

  /** No block among the first n fits the request. */
  predicate NoneFits(free: seq<int>, size: int, n: nat)
    requires n <= |free|
  {
    forall k :: 0 <= k < n ==> free[k] < size
  }

  /** `r` is the first fitting block, or -1 when none fits. */
  predicate IsFirstFit(free: seq<int>, size: int, n: nat, r: int)
    requires n <= |free|
  {
    if r == -1 then NoneFits(free, size, n)
    else
      0 <= r < n && free[r] >= size &&
      forall k :: 0 <= k < r ==> free[k] < size
  }

  /** `r` fits with the least free capacity of all fitting blocks, and no
      fitting block before it has that capacity; -1 when none fits. */
  predicate IsBestFit(free: seq<int>, size: int, n: nat, r: int)
    requires n <= |free|
  {
    if r == -1 then NoneFits(free, size, n)
    else
      0 <= r < n && free[r] >= size &&
      (forall k :: 0 <= k < n && free[k] >= size ==> free[r] <= free[k]) &&
      (forall k :: 0 <= k < r && free[k] >= size ==> free[r] < free[k])
  }

  /** `r` fits with the greatest free capacity of all fitting blocks, and no
      fitting block before it has that capacity; -1 when none fits. */
  predicate IsWorstFit(free: seq<int>, size: int, n: nat, r: int)
    requires n <= |free|
  {
    if r == -1 then NoneFits(free, size, n)
    else
      0 <= r < n && free[r] >= size &&
      (forall k :: 0 <= k < n && free[k] >= size ==> free[k] <= free[r]) &&
      (forall k :: 0 <= k < r && free[k] >= size ==> free[k] < free[r])
  }

  lemma {:induction false} ScanIsFirstFit(free: seq<int>, size: int, n: nat)
    requires n <= |free|
    ensures IsFirstFit(free, size, n, Scan(First, free, size, n))
  {
    if n > 0 {
      ScanIsFirstFit(free, size, n - 1);
    }
  }

  lemma {:induction false} ScanIsBestFit(free: seq<int>, size: int, n: nat)
    requires n <= |free|
    ensures IsBestFit(free, size, n, Scan(Best, free, size, n))
  {
    if n > 0 {
      ScanIsBestFit(free, size, n - 1);
    }
  }

  /** Worst-fit's running maximum starts at -1, so the characterisation
      needs requests of non-negative size (every request the engine makes
      is positive). */
  lemma {:induction false} ScanIsWorstFit(free: seq<int>, size: int, n: nat)
    requires n <= |free|
    requires size >= 0
    ensures IsWorstFit(free, size, n, Scan(Worst, free, size, n))
  {
    if n > 0 {
      ScanIsWorstFit(free, size, n - 1);
    }
  }

  /** Each reference definition pins down a single answer, so the scans are
      the only implementations of them. */
  lemma PlacementIsUnique(free: seq<int>, size: int, n: nat, r1: int, r2: int)
    requires n <= |free|
    requires (IsFirstFit(free, size, n, r1) && IsFirstFit(free, size, n, r2)) ||
             (IsBestFit(free, size, n, r1) && IsBestFit(free, size, n, r2)) ||
             (IsWorstFit(free, size, n, r1) && IsWorstFit(free, size, n, r2))
    ensures r1 == r2
  {
  }

  /** Placing requests never drives an entry of the copy below zero. */
  lemma {:induction false} RemainingNonNegative(fit: Fit, free: seq<int>, ps: seq<int>)
    requires forall k :: 0 <= k < |free| ==> free[k] >= 0
    ensures forall k :: 0 <= k < |free| ==> Remaining(fit, free, ps)[k] >= 0
    decreases |ps|
  {
    if ps != [] {
      RemainingNonNegative(fit, free, ps[..|ps| - 1]);
    }
  }

  /** Requests of non-negative size only ever take capacity away. */
  lemma {:induction false} RemainingShrinks(fit: Fit, free: seq<int>, ps: seq<int>)
    requires forall i :: 0 <= i < |ps| ==> ps[i] >= 0
    ensures forall k :: 0 <= k < |free| ==> Remaining(fit, free, ps)[k] <= free[k]
    decreases |ps|
  {
    if ps != [] {
      RemainingShrinks(fit, free, ps[..|ps| - 1]);
    }
  }

  // ---------------------------------------------------------------------
  // The batch algorithms.

  /** Requests 0 .. i-1 have their placement against the copy as reduced by
      the requests before them; the rest are still unplaced. */
  predicate Decided(fit: Fit, blocks: seq<int>, processes: seq<int>, allocation: seq<int>, i: nat)
    requires i <= |processes| == |allocation|
  {
    (forall k {:trigger allocation[k]} :: 0 <= k < i ==>
       allocation[k] == Place(fit, Remaining(fit, blocks, processes[..k]), processes[k])) &&
    (forall k :: i <= k < |processes| ==> allocation[k] == -1)
  }

  /** First fit: each request goes to the first block of the local copy
      that can hold it. */
  method FirstFit(blocks: seq<int>, processes: seq<int>) returns (allocation: seq<int>)
    ensures |allocation| == |processes|
    ensures forall i :: 0 <= i < |processes| ==> -1 <= allocation[i] < |blocks|
    ensures forall i :: 0 <= i < |processes| ==>
      allocation[i] == Place(First, Remaining(First, blocks, processes[..i]), processes[i])
  {
    allocation := seq(|processes|, _ => -1);
    var blocksCopy := blocks;
    for i := 0 to |processes|
      invariant |allocation| == |processes|
      invariant blocksCopy == Remaining(First, blocks, processes[..i])
      invariant Decided(First, blocks, processes, allocation, i)
    {
      var processSize := processes[i];
      ghost var before, placed := blocksCopy, allocation;
      ScanIsFirstFit(before, processSize, |before|);
      var j := 0;
      while j < |blocksCopy|
        invariant 0 <= j <= |blocksCopy|
        invariant blocksCopy == before && allocation == placed
        invariant forall k :: 0 <= k < j ==> blocksCopy[k] < processSize
      {
        if blocksCopy[j] >= processSize {
          allocation := allocation[i := j];
          blocksCopy := blocksCopy[j := blocksCopy[j] - processSize];
          break;
        }
        j := j + 1;
      }
      assert allocation == placed[i := Place(First, before, processSize)];
      RemainingStep(First, blocks, processes, i);
    }
  }

  /** Best fit: each request goes to the fitting block of the local copy
      with the least free capacity, the lowest index among equals. */
  method BestFit(blocks: seq<int>, processes: seq<int>) returns (allocation: seq<int>)
    ensures |allocation| == |processes|
    ensures forall i :: 0 <= i < |processes| ==> -1 <= allocation[i] < |blocks|
    ensures forall i :: 0 <= i < |processes| ==>
      allocation[i] == Place(Best, Remaining(Best, blocks, processes[..i]), processes[i])
  {
    allocation := seq(|processes|, _ => -1);
    var blocksCopy := blocks;
    for i := 0 to |processes|
      invariant |allocation| == |processes|
      invariant blocksCopy == Remaining(Best, blocks, processes[..i])
      invariant Decided(Best, blocks, processes, allocation, i)
    {
      var processSize := processes[i];
      var bestIdx := -1;
      var bestSize: Option<int> := None;  // no candidate yet: "infinity"
      var j := 0;
      while j < |blocksCopy|
        invariant 0 <= j <= |blocksCopy|
        invariant bestIdx == Scan(Best, blocksCopy, processSize, j)
        invariant bestSize == if bestIdx == -1 then None else Some(blocksCopy[bestIdx])
      {
        var blockSize := blocksCopy[j];
        if blockSize >= processSize && (bestSize.None? || blockSize < bestSize.value) {
          bestSize := Some(blockSize);
          bestIdx := j;
        }
        j := j + 1;
      }
      ghost var before, placed := blocksCopy, allocation;
      if bestIdx != -1 {
        allocation := allocation[i := bestIdx];
        blocksCopy := blocksCopy[bestIdx := blocksCopy[bestIdx] - processSize];
      }
      assert allocation == placed[i := Place(Best, before, processSize)];
      RemainingStep(Best, blocks, processes, i);
    }
  }

  /** Worst fit: each request goes to the fitting block of the local copy
      with the greatest free capacity, the lowest index among equals. */
  method WorstFit(blocks: seq<int>, processes: seq<int>) returns (allocation: seq<int>)
    ensures |allocation| == |processes|
    ensures forall i :: 0 <= i < |processes| ==> -1 <= allocation[i] < |blocks|
    ensures forall i :: 0 <= i < |processes| ==>
      allocation[i] == Place(Worst, Remaining(Worst, blocks, processes[..i]), processes[i])
  {
    allocation := seq(|processes|, _ => -1);
    var blocksCopy := blocks;
    for i := 0 to |processes|
      invariant |allocation| == |processes|
      invariant blocksCopy == Remaining(Worst, blocks, processes[..i])
      invariant Decided(Worst, blocks, processes, allocation, i)
    {
      var processSize := processes[i];
      var worstIdx := -1;
      var worstSize := -1;
      var j := 0;
      while j < |blocksCopy|
        invariant 0 <= j <= |blocksCopy|
        invariant worstIdx == Scan(Worst, blocksCopy, processSize, j)
        invariant worstSize == if worstIdx == -1 then -1 else blocksCopy[worstIdx]
      {
        var blockSize := blocksCopy[j];
        if blockSize >= processSize && blockSize > worstSize {
          worstSize := blockSize;
          worstIdx := j;
        }
        j := j + 1;
      }
      ghost var before, placed := blocksCopy, allocation;
      if worstIdx != -1 {
        allocation := allocation[i := worstIdx];
        blocksCopy := blocksCopy[worstIdx := blocksCopy[worstIdx] - processSize];
      }
      assert allocation == placed[i := Place(Worst, before, processSize)];
      RemainingStep(Worst, blocks, processes, i);
    }
  }

  /** Paging stand-in: every request is reported as placed in block 0, so
      it never reports failure. */
  function SimulatePaging(processes: seq<int>): (r: seq<int>)
    ensures |r| == |processes|
    ensures forall i :: 0 <= i < |r| ==> r[i] == 0
  {
    seq(|processes|, _ => 0)
  }

  // ---------------------------------------------------------------------
  // Fragmentation metric.

  datatype Fragmentation = Fragmentation(totalFree: int, largestFree: int, externalFragmentation: int)

  /** Sum of the entries, added left to right. */
  function Sum(s: seq<int>): (t: int)
    ensures (forall k :: 0 <= k < |s| ==> s[k] >= 0) ==> t >= 0
  {
    if s == [] then 0 else Sum(s[..|s| - 1]) + s[|s| - 1]
  }

  /** The largest entry of a non-empty sequence. */
  function Max(s: seq<int>): (m: int)
    requires s != []
    ensures m in s
    ensures forall k :: 0 <= k < |s| ==> s[k] <= m
  {
    if |s| == 1 then s[0]
    else
      var m := Max(s[..|s| - 1]);
      assert forall k :: 0 <= k < |s| - 1 ==> s[k] == s[..|s| - 1][k];
      if s[|s| - 1] > m then s[|s| - 1] else m
  }

  /** Total free space, the largest free block (0 when there are no
      blocks), and the difference of the two. */
  function CalculateFragmentation(blocks: seq<int>): (f: Fragmentation)
    ensures f.totalFree == Sum(blocks)
    ensures blocks == [] ==> f.largestFree == 0
    ensures blocks != [] ==> f.largestFree in blocks
    ensures forall k :: 0 <= k < |blocks| ==> blocks[k] <= f.largestFree
    ensures f.externalFragmentation == f.totalFree - f.largestFree
  {
    var totalFree := Sum(blocks);
    var largestFree := if blocks != [] then Max(blocks) else 0;
    Fragmentation(totalFree, largestFree, totalFree - largestFree)
  }

  /** With non-negative capacities, every entry is at most the sum. */
  lemma {:induction false} SumBoundsEntries(s: seq<int>)
    requires forall k :: 0 <= k < |s| ==> s[k] >= 0
    ensures Sum(s) >= 0
    ensures forall k :: 0 <= k < |s| ==> s[k] <= Sum(s)
  {
    if s != [] {
      var init := s[..|s| - 1];
      assert forall k :: 0 <= k < |init| ==> init[k] == s[k];
      SumBoundsEntries(init);
    }
  }

  /** External fragmentation is never negative for non-negative capacities. */
  lemma ExternalFragmentationNonNegative(blocks: seq<int>)
    requires forall k :: 0 <= k < |blocks| ==> blocks[k] >= 0
    ensures CalculateFragmentation(blocks).externalFragmentation >= 0
    ensures CalculateFragmentation(blocks).largestFree <= CalculateFragmentation(blocks).totalFree
  {
    SumBoundsEntries(blocks);
  }

  /** Worked examples over the reference blocks 500, 200, 300, 600 with a
      request of 250: first fit takes block 0, best fit block 2 and worst
      fit block 3. */
  lemma ReferenceBlocksExample()
    ensures Place(First, [500, 200, 300, 600], 250) == 0
    ensures Place(Best, [500, 200, 300, 600], 250) == 2
    ensures Place(Worst, [500, 200, 300, 600], 250) == 3
  {
    var s := [500, 200, 300, 600];
    assert Scan(First, s, 250, 1) == 0 && Scan(Best, s, 250, 1) == 0 && Scan(Worst, s, 250, 1) == 0;
    assert Scan(First, s, 250, 2) == 0 && Scan(Best, s, 250, 2) == 0 && Scan(Worst, s, 250, 2) == 0;
    assert Scan(First, s, 250, 3) == 0 && Scan(Best, s, 250, 3) == 2 && Scan(Worst, s, 250, 3) == 0;
  }

  /** Two equal best candidates: the lower index wins. */
  lemma BestFitTieExample()
    ensures Place(Best, [300, 300, 600], 250) == 0
  {
    var s := [300, 300, 600];
    assert Scan(Best, s, 250, 1) == 0;
    assert Scan(Best, s, 250, 2) == 0;
  }

  /** A request no block can hold is unplaced by every fit policy. */
  lemma NoFitExample()
    ensures Place(First, [100, 50, 80], 200) == -1
    ensures Place(Best, [100, 50, 80], 200) == -1
    ensures Place(Worst, [100, 50, 80], 200) == -1
  {
    var s := [100, 50, 80];
    assert Scan(First, s, 200, 2) == -1 && Scan(Best, s, 200, 2) == -1 && Scan(Worst, s, 200, 2) == -1;
  }

  /** Free blocks 50, 50, 50, 300: 450 free, 300 in the largest block and
      150 of external fragmentation. */
  lemma FragmentationExample()
    ensures CalculateFragmentation([50, 50, 50, 300]) == Fragmentation(450, 300, 150)
  {
    var s := [50, 50, 50, 300];
    assert s[..3] == [50, 50, 50] && s[..3][..2] == [50, 50] && s[..3][..2][..1] == [50];
    assert Sum([50]) == 50;
    assert Sum([50, 50]) == 100;
    assert Sum([50, 50, 50]) == 150;
    assert Max(s) == 300;
  }
}
