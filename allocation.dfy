/** The allocation engine as values: the block store and the allocated
    process records, the placement an algorithm picks for one request, the
    step log that request produces, and the effect of allocating, removing
    and resetting. The class in module Simulator is proved against these
    functions. */
module Allocation {
  import Algorithms

  /** The algorithm chosen in the simulator. */
  datatype Algorithm = FirstFit | BestFit | WorstFit | Paging

  /** An allocated process: its id, its size and the block it was recorded against. */
  datatype Record = Record(pid: string, size: int, block: int)

  /** One line of the step log. Blocks are numbered from 0 here; the log
      text shows them from 1. */
  datatype Event =
    | Busy                                      // another allocation is in progress
    | Checking(block: int, free: int, need: int) // a block is examined
    | Selected(block: int)                      // the block that takes the request
    | NotEnoughSpace(block: int)                // an examined block is too small
    | PagingSucceeded                           // the paging stand-in accepted the request

  /** Total and free capacity per block, and the allocated records in
      insertion order. */
  datatype SimState = SimState(blockTotal: seq<int>, memoryBlocks: seq<int>, records: seq<Record>)

  /** The block store is consistent: one free capacity per block, each
      between 0 and its total, and every record names an existing block
      and has a positive size. */
  predicate WellFormed(s: SimState)
  {
    |s.blockTotal| > 0 && |s.memoryBlocks| == |s.blockTotal| &&
    (forall b :: 0 <= b < |s.blockTotal| ==> 0 <= s.memoryBlocks[b] <= s.blockTotal[b]) &&
    (forall i :: 0 <= i < |s.records| ==>
       s.records[i].size > 0 && 0 <= s.records[i].block < |s.blockTotal|)
  }

  /** Total size of the records held against block `b`. */
  function SizeOn(records: seq<Record>, b: int): int
  {
    if records == [] then 0
    else
      var last := records[|records| - 1];
      SizeOn(records[..|records| - 1], b) + (if last.block == b then last.size else 0)
  }

  /** Capacity conservation: every block's free capacity plus what its
      records hold is its total capacity. */
  predicate Conserved(s: SimState)
  {
    |s.memoryBlocks| == |s.blockTotal| &&
    forall b :: 0 <= b < |s.blockTotal| ==> s.memoryBlocks[b] + SizeOn(s.records, b) == s.blockTotal[b]
  }

  // ---------------------------------------------------------------------
  // Allocation.

  /** The block index the engine works with: the fit policy's choice on the
      current free capacities, or the dummy 0 for paging. */
  function Choice(alg: Algorithm, free: seq<int>, size: int): (c: int)
    ensures alg == Paging ==> c == 0
    ensures alg != Paging ==> -1 <= c < |free| && (c != -1 ==> free[c] >= size)
  {
    match alg
    case FirstFit => Algorithms.Place(Algorithms.First, free, size)
    case BestFit => Algorithms.Place(Algorithms.Best, free, size)
    case WorstFit => Algorithms.Place(Algorithms.Worst, free, size)
    case Paging => 0
  }

  /** Whether an allocation request succeeds: paging always does. */
  predicate Succeeds(alg: Algorithm, free: seq<int>, size: int)
  {
    alg == Paging || Choice(alg, free, size) != -1
  }

  /** The state after an allocation request. A fit policy's block loses the
      request's size (clamped at 0) and a record is appended; with no
      fitting block nothing changes; paging appends a record against block
      0 without touching any capacity. */
  function Allocated(s: SimState, pid: string, size: int, alg: Algorithm): (t: SimState)
    ensures t.blockTotal == s.blockTotal && |t.memoryBlocks| == |s.memoryBlocks|
    ensures Succeeds(alg, s.memoryBlocks, size) ==>
      |t.records| == |s.records| + 1 &&
      t.records[|s.records|] == Record(pid, size, Choice(alg, s.memoryBlocks, size))
    ensures !Succeeds(alg, s.memoryBlocks, size) ==> t == s
  {
    var c := Choice(alg, s.memoryBlocks, size);
    if alg == Paging then
      s.(records := s.records + [Record(pid, size, 0)])
    else if c == -1 then
      s
    else
      var target := s.memoryBlocks[c] - size;
      s.(memoryBlocks := s.memoryBlocks[c := if target < 0 then 0 else target],
         records := s.records + [Record(pid, size, c)])
  }

  /** The events logged while blocks 0 .. n-1 are examined for a request,
      `c` being the algorithm's choice. */
  function Examined(alg: Algorithm, free: seq<int>, size: int, c: int, n: nat): (r: seq<Event>)
    requires n <= |free|
    ensures n <= |r| <= 2 * n
  {
    if n == 0 then []
    else
      Examined(alg, free, size, c, n - 1) + BlockEvents(alg, free, size, c, n - 1)
  }

  /** The step log of one allocation request: the examination stops at the
      selected block; without a selection every block is examined, and
      paging then reports success. */
  function Trace(alg: Algorithm, free: seq<int>, size: int): (r: seq<Event>)
    ensures |r| <= 2 * |free| + 1
    ensures r == [] <==> |free| == 0 && alg != Paging
  {
    var c := Choice(alg, free, size);
    if alg != Paging && c != -1 then Examined(alg, free, size, c, c + 1)
    else if alg == Paging then Examined(alg, free, size, c, |free|) + [PagingSucceeded]
    else Examined(alg, free, size, c, |free|)
  }

  // ---------------------------------------------------------------------
  // Removal and reset.

  /** Index of the first record with id `pid`, or -1. */
  function FirstMatch(records: seq<Record>, pid: string): (i: int)
    ensures -1 <= i < |records|
    ensures i != -1 ==> records[i].pid == pid
    ensures i != -1 ==> forall k :: 0 <= k < i ==> records[k].pid != pid
    ensures i == -1 ==> forall k :: 0 <= k < |records| ==> records[k].pid != pid
  {
    if records == [] then -1
    else if records[0].pid == pid then 0
    else
      var j := FirstMatch(records[1..], pid);
      if j == -1 then -1 else j + 1
  }

  function Min(a: int, b: int): int
  {
    if a <= b then a else b
  }

  /** The state after removing process `pid`: the first matching record is
      dropped and its block gets the record's size back, capped at the
      block's total. An empty or unknown id changes nothing. */
  function Released(s: SimState, pid: string): (t: SimState)
    requires WellFormed(s)
    ensures t.blockTotal == s.blockTotal && |t.memoryBlocks| == |s.memoryBlocks|
    ensures |t.records| == |s.records| - (if pid != "" && FirstMatch(s.records, pid) != -1 then 1 else 0)
    ensures pid == "" || FirstMatch(s.records, pid) == -1 ==> t == s
  {
    var i := FirstMatch(s.records, pid);
    if pid == "" || i == -1 then s
    else
      var r := s.records[i];
      s.(memoryBlocks := s.memoryBlocks[r.block := Min(s.blockTotal[r.block], s.memoryBlocks[r.block] + r.size)],
         records := s.records[..i] + s.records[i + 1..])
  }

  /** Every block back to its total, no records. */
  function Reset(s: SimState): (t: SimState)
    ensures t.blockTotal == s.blockTotal && t.memoryBlocks == s.blockTotal && t.records == []
  {
    s.(memoryBlocks := s.blockTotal, records := [])
  }

  // ---------------------------------------------------------------------
  // Placement facts.

  /** The fit policies' choice, stated by the reference definitions. */
  lemma ChoiceMeetsPolicy(alg: Algorithm, free: seq<int>, size: int)
    requires size >= 0
    ensures alg == FirstFit ==> Algorithms.IsFirstFit(free, size, |free|, Choice(alg, free, size))
    ensures alg == BestFit ==> Algorithms.IsBestFit(free, size, |free|, Choice(alg, free, size))
    ensures alg == WorstFit ==> Algorithms.IsWorstFit(free, size, |free|, Choice(alg, free, size))
  {
    match alg
    case FirstFit => Algorithms.ScanIsFirstFit(free, size, |free|);
    case BestFit => Algorithms.ScanIsBestFit(free, size, |free|);
    case WorstFit => Algorithms.ScanIsWorstFit(free, size, |free|);
    case Paging =>
  }

  /** A fit policy reports no block exactly when no block is big enough. */
  lemma NoChoiceIffNoneFits(alg: Algorithm, free: seq<int>, size: int)
    requires alg != Paging && size >= 0
    ensures Choice(alg, free, size) == -1 <==> forall k :: 0 <= k < |free| ==> free[k] < size
  {
    ChoiceMeetsPolicy(alg, free, size);
  }

  // ---------------------------------------------------------------------
  // The step log.

  function Range(n: nat): seq<int>
  {
    seq(n, k => k)
  }

  /** The blocks of the Checking events, in log order. */
  function CheckedBlocks(events: seq<Event>): seq<int>
  {
    if events == [] then []
    else
      var last := events[|events| - 1];
      CheckedBlocks(events[..|events| - 1]) + (if last.Checking? then [last.block] else [])
  }

  lemma {:induction false} CheckedBlocksAppend(a: seq<Event>, b: seq<Event>)
    ensures CheckedBlocks(a + b) == CheckedBlocks(a) + CheckedBlocks(b)
    decreases |b|
  {
    if b == [] {
      assert a + b == a;
    } else {
      var b' := b[..|b| - 1];
      assert (a + b)[..|a + b| - 1] == a + b';
      CheckedBlocksAppend(a, b');
    }
  }

  /** The events about block k when it is examined. */
  function BlockEvents(alg: Algorithm, free: seq<int>, size: int, c: int, k: nat): (r: seq<Event>)
    requires k < |free|
    ensures 1 <= |r| <= 2 && r[0] == Checking(k, free[k], size)
    ensures |r| == 2 <==> alg != Paging && (k == c || free[k] < size)
  {
    [Checking(k, free[k], size)] +
    (if k == c && alg != Paging then [Selected(k)]
     else if free[k] < size && alg != Paging then [NotEnoughSpace(k)]
     else [])
  }

  lemma ExaminedUnfold(alg: Algorithm, free: seq<int>, size: int, c: int, n: nat)
    requires 0 < n <= |free|
    ensures Examined(alg, free, size, c, n) ==
      Examined(alg, free, size, c, n - 1) + BlockEvents(alg, free, size, c, n - 1)
  {
  }

  /** A log that holds the events of blocks 0 .. i-1 grows by block i's. */
  lemma LogAdvance(prefix: seq<Event>, alg: Algorithm, free: seq<int>, size: int, c: int, i: nat)
    requires i < |free|
    ensures prefix + Examined(alg, free, size, c, i) + BlockEvents(alg, free, size, c, i) ==
            prefix + Examined(alg, free, size, c, i + 1)
  {
    ExaminedUnfold(alg, free, size, c, i + 1);
    AppendAssociates(prefix, Examined(alg, free, size, c, i), BlockEvents(alg, free, size, c, i));
  }

  /** Without a selection, the examination of every block followed by the
      closing event (paging only) is the whole trace. */
  lemma LogEnd(prefix: seq<Event>, alg: Algorithm, free: seq<int>, size: int)
    requires alg != Paging ==> Choice(alg, free, size) == -1
    ensures prefix + Examined(alg, free, size, Choice(alg, free, size), |free|) +
            (if alg == Paging then [PagingSucceeded] else []) ==
            prefix + Trace(alg, free, size)
  {
    var e := Examined(alg, free, size, Choice(alg, free, size), |free|);
    if alg == Paging {
      AppendAssociates(prefix, e, [PagingSucceeded]);
    } else {
      assert e + [] == e;
    }
  }

  /** The events about block k check block k and no other. */
  lemma BlockChecksOnce(alg: Algorithm, free: seq<int>, size: int, c: int, k: nat)
    requires k < |free|
    ensures CheckedBlocks(BlockEvents(alg, free, size, c, k)) == [k]
  {
    var ev := BlockEvents(alg, free, size, c, k);
    var tail := ev[1..];
    assert ev == [Checking(k, free[k], size)] + tail;
    CheckedBlocksAppend([Checking(k, free[k], size)], tail);
    assert CheckedBlocks([Checking(k, free[k], size)]) == [k];
  }

  /** Examining blocks 0 .. n-1 checks each of them once, in index order. */
  lemma {:induction false} ExaminedChecksInOrder(alg: Algorithm, free: seq<int>, size: int, c: int, n: nat)
    requires n <= |free|
    ensures CheckedBlocks(Examined(alg, free, size, c, n)) == Range(n)
  {
    if n > 0 {
      var k := n - 1;
      ExaminedChecksInOrder(alg, free, size, c, k);
      ExaminedUnfold(alg, free, size, c, n);
      CheckedBlocksAppend(Examined(alg, free, size, c, k), BlockEvents(alg, free, size, c, k));
      BlockChecksOnce(alg, free, size, c, k);
      assert Range(n) == Range(k) + [k];
    }
  }

  /** Examining blocks 0 .. n-1 reports each block with its free capacity
      and the request's size, and reports neither paging success nor a
      busy engine. */
  lemma {:induction false} ExaminedChecks(alg: Algorithm, free: seq<int>, size: int, c: int, n: nat)
    requires n <= |free|
    ensures forall e :: e in Examined(alg, free, size, c, n) && e.Checking? ==>
      0 <= e.block < n && e.free == free[e.block] && e.need == size
    ensures PagingSucceeded !in Examined(alg, free, size, c, n)
    ensures Busy !in Examined(alg, free, size, c, n)
  {
    if n > 0 {
      ExaminedChecks(alg, free, size, c, n - 1);
      ExaminedUnfold(alg, free, size, c, n);
    }
  }

  /** Examining blocks 0 .. n-1 rejects exactly the examined blocks other
      than the choice that are too small, and never under paging. */
  lemma {:induction false} ExaminedRejections(alg: Algorithm, free: seq<int>, size: int, c: int, n: nat)
    requires n <= |free|
    ensures forall k :: NotEnoughSpace(k) in Examined(alg, free, size, c, n) <==>
      alg != Paging && 0 <= k < n && k != c && free[k] < size
  {
    if n > 0 {
      ExaminedRejections(alg, free, size, c, n - 1);
      ExaminedUnfold(alg, free, size, c, n);
    }
  }

  /** Examining blocks 0 .. n-1 selects only the choice, and never under
      paging. */
  lemma {:induction false} ExaminedSelections(alg: Algorithm, free: seq<int>, size: int, c: int, n: nat)
    requires n <= |free|
    ensures forall k :: Selected(k) in Examined(alg, free, size, c, n) <==>
      alg != Paging && 0 <= k < n && k == c
  {
    if n > 0 {
      ExaminedSelections(alg, free, size, c, n - 1);
      ExaminedUnfold(alg, free, size, c, n);
    }
  }

  /** Both facts about the examination, together. */
  lemma ExaminedFacts(alg: Algorithm, free: seq<int>, size: int, c: int, n: nat)
    requires n <= |free|
    ensures CheckedBlocks(Examined(alg, free, size, c, n)) == Range(n)
    ensures forall k :: NotEnoughSpace(k) in Examined(alg, free, size, c, n) <==>
      alg != Paging && 0 <= k < n && k != c && free[k] < size
    ensures forall k :: Selected(k) in Examined(alg, free, size, c, n) <==>
      alg != Paging && 0 <= k < n && k == c
    ensures PagingSucceeded !in Examined(alg, free, size, c, n)
  {
    ExaminedChecksInOrder(alg, free, size, c, n);
    ExaminedChecks(alg, free, size, c, n);
    ExaminedRejections(alg, free, size, c, n);
    ExaminedSelections(alg, free, size, c, n);
  }

  /** Trace of a fit policy that finds block c: blocks 0 .. c are checked in
      order, the last event selects c, and a block before c gets "not enough
      space" exactly when it is too small. */
  lemma SelectionTrace(alg: Algorithm, free: seq<int>, size: int)
    requires alg != Paging && Choice(alg, free, size) != -1
    ensures var c := Choice(alg, free, size);
            var t := Trace(alg, free, size);
            CheckedBlocks(t) == Range(c + 1) &&
            t[|t| - 1] == Selected(c) &&
            (forall k :: Selected(k) in t <==> k == c) &&
            (forall k :: NotEnoughSpace(k) in t <==> 0 <= k < c && free[k] < size)
  {
    var c := Choice(alg, free, size);
    ExaminedFacts(alg, free, size, c, c + 1);
  }

  /** Under first fit, every block before the selected one is rejected. */
  lemma FirstFitTraceRejectsEarlierBlocks(free: seq<int>, size: int)
    requires size >= 0 && Choice(FirstFit, free, size) != -1
    ensures forall k :: 0 <= k < Choice(FirstFit, free, size) ==>
      NotEnoughSpace(k) in Trace(FirstFit, free, size)
  {
    ChoiceMeetsPolicy(FirstFit, free, size);
    SelectionTrace(FirstFit, free, size);
  }

  /** Trace of a fit policy that finds no block: every block is checked in
      order and every block is rejected; nothing is selected. */
  lemma FailureTrace(alg: Algorithm, free: seq<int>, size: int)
    requires alg != Paging && size >= 0 && Choice(alg, free, size) == -1
    ensures var t := Trace(alg, free, size);
            CheckedBlocks(t) == Range(|free|) &&
            (forall k :: Selected(k) !in t) &&
            (forall k :: NotEnoughSpace(k) in t <==> 0 <= k < |free|)
  {
    NoChoiceIffNoneFits(alg, free, size);
    ExaminedFacts(alg, free, size, -1, |free|);
  }

  /** Trace of paging: every block is checked in order, none is rejected or
      selected, and the last event reports paging's success. */
  lemma PagingTrace(free: seq<int>, size: int)
    ensures var t := Trace(Paging, free, size);
            CheckedBlocks(t) == Range(|free|) &&
            t[|t| - 1] == PagingSucceeded &&
            (forall k :: Selected(k) !in t && NotEnoughSpace(k) !in t)
  {
    var e := Examined(Paging, free, size, 0, |free|);
    ExaminedFacts(Paging, free, size, 0, |free|);
    CheckedBlocksAppend(e, [PagingSucceeded]);
    assert CheckedBlocks([PagingSucceeded]) == [];
  }

  lemma AppendAssociates<T>(a: seq<T>, b: seq<T>, c: seq<T>)
    ensures (a + b) + c == a + (b + c)
  {
  }

  // ---------------------------------------------------------------------
  // Conservation and well-formedness.

  lemma {:induction false} SizeOnAppend(a: seq<Record>, c: seq<Record>, b: int)
    ensures SizeOn(a + c, b) == SizeOn(a, b) + SizeOn(c, b)
    decreases |c|
  {
    if c == [] {
      assert a + c == a;
    } else {
      var c' := c[..|c| - 1];
      assert (a + c)[..|a + c| - 1] == a + c';
      SizeOnAppend(a, c', b);
    }
  }

  /** A record's size counts towards its block, and no block's sum is
      negative when every record is positive. */
  lemma {:induction false} SizeOnCovers(records: seq<Record>, i: int)
    requires 0 <= i < |records|
    requires forall k :: 0 <= k < |records| ==> records[k].size > 0
    ensures SizeOn(records, records[i].block) >= records[i].size
  {
    var r := records[i];
    assert records == records[..i] + ([r] + records[i + 1..]);
    SizeOnAppend(records[..i], [r] + records[i + 1..], r.block);
    SizeOnAppend([r], records[i + 1..], r.block);
    assert SizeOn([r], r.block) == r.size by {
      assert [r][..0] == [];
    }
    SizeOnNonNegative(records[..i], r.block);
    SizeOnNonNegative(records[i + 1..], r.block);
  }

  lemma {:induction false} SizeOnNonNegative(records: seq<Record>, b: int)
    requires forall k :: 0 <= k < |records| ==> records[k].size > 0
    ensures SizeOn(records, b) >= 0
    decreases |records|
  {
    if records != [] {
      SizeOnNonNegative(records[..|records| - 1], b);
    }
  }

  /** Dropping record i takes exactly its size off its own block. */
  lemma SizeOnRemove(records: seq<Record>, i: int, b: int)
    requires 0 <= i < |records|
    ensures SizeOn(records[..i] + records[i + 1..], b) ==
      SizeOn(records, b) - (if records[i].block == b then records[i].size else 0)
  {
    var r := records[i];
    assert records == records[..i] + ([r] + records[i + 1..]);
    SizeOnAppend(records[..i], [r] + records[i + 1..], b);
    SizeOnAppend([r], records[i + 1..], b);
    SizeOnAppend(records[..i], records[i + 1..], b);
    assert [r][..0] == [];
  }

  /** A fit-policy allocation changes only the chosen block, by exactly the
      request's size: the clamp at 0 is never reached. */
  lemma FitAllocationEffect(s: SimState, pid: string, size: int, alg: Algorithm)
    requires WellFormed(s) && alg != Paging && Succeeds(alg, s.memoryBlocks, size)
    ensures var c := Choice(alg, s.memoryBlocks, size);
            var t := Allocated(s, pid, size, alg);
            t.blockTotal == s.blockTotal &&
            t.memoryBlocks[c] == s.memoryBlocks[c] - size &&
            (forall b :: 0 <= b < |s.memoryBlocks| && b != c ==> t.memoryBlocks[b] == s.memoryBlocks[b]) &&
            |t.memoryBlocks| == |s.memoryBlocks| &&
            t.records == s.records + [Record(pid, size, c)]
  {
  }

  lemma AllocationWellFormed(s: SimState, pid: string, size: int, alg: Algorithm)
    requires WellFormed(s) && size > 0
    ensures WellFormed(Allocated(s, pid, size, alg))
  {
    var t := Allocated(s, pid, size, alg);
    forall i | 0 <= i < |t.records|
      ensures t.records[i].size > 0 && 0 <= t.records[i].block < |t.blockTotal|
    {
      if i < |s.records| {
        assert t.records[i] == s.records[i];
      }
    }
  }

  /** Allocations by a fit policy keep capacity conserved. */
  lemma FitAllocationConserves(s: SimState, pid: string, size: int, alg: Algorithm)
    requires WellFormed(s) && Conserved(s) && alg != Paging
    ensures Conserved(Allocated(s, pid, size, alg))
  {
    if Succeeds(alg, s.memoryBlocks, size) {
      var c := Choice(alg, s.memoryBlocks, size);
      var t := Allocated(s, pid, size, alg);
      forall b | 0 <= b < |t.blockTotal|
        ensures t.memoryBlocks[b] + SizeOn(t.records, b) == t.blockTotal[b]
      {
        SizeOnAppend(s.records, [Record(pid, size, c)], b);
        assert [Record(pid, size, c)][..0] == [];
      }
    }
  }

  /** A paging allocation breaks conservation: block 0 holds a new record
      but keeps all of its free capacity. */
  lemma PagingBreaksConservation(s: SimState, pid: string, size: int)
    requires WellFormed(s) && Conserved(s) && size > 0
    ensures !Conserved(Allocated(s, pid, size, Paging))
  {
    var t := Allocated(s, pid, size, Paging);
    SizeOnAppend(s.records, [Record(pid, size, 0)], 0);
    assert [Record(pid, size, 0)][..0] == [];
    assert t.memoryBlocks[0] + SizeOn(t.records, 0) == t.blockTotal[0] + size;
  }

  lemma ReleaseWellFormed(s: SimState, pid: string)
    requires WellFormed(s)
    ensures WellFormed(Released(s, pid))
  {
    var i := FirstMatch(s.records, pid);
    if pid != "" && i != -1 {
      var t := Released(s, pid);
      forall k | 0 <= k < |t.records|
        ensures t.records[k].size > 0 && 0 <= t.records[k].block < |t.blockTotal|
      {
        assert t.records[k] == if k < i then s.records[k] else s.records[k + 1];
      }
    }
  }

  /** Removing a process keeps capacity conserved; the cap at the block's
      total is then never reached. */
  lemma ReleaseConserves(s: SimState, pid: string)
    requires WellFormed(s) && Conserved(s)
    ensures Conserved(Released(s, pid))
    ensures var i := FirstMatch(s.records, pid);
            pid != "" && i != -1 ==>
              var r := s.records[i];
              Released(s, pid).memoryBlocks[r.block] == s.memoryBlocks[r.block] + r.size
  {
    var i := FirstMatch(s.records, pid);
    if pid != "" && i != -1 {
      var r := s.records[i];
      var t := Released(s, pid);
      SizeOnCovers(s.records, i);
      forall b | 0 <= b < |t.blockTotal|
        ensures t.memoryBlocks[b] + SizeOn(t.records, b) == t.blockTotal[b]
      {
        SizeOnRemove(s.records, i, b);
      }
    }
  }

  lemma ResetWellFormed(s: SimState)
    requires WellFormed(s)
    ensures WellFormed(Reset(s)) && Conserved(Reset(s))
  {
  }

  lemma ResetIdempotent(s: SimState)
    ensures Reset(Reset(s)) == Reset(s)
  {
  }

  /** Removing a process right after a fit policy allocated it, when no
      earlier record had its id, restores the block store exactly. */
  lemma ReleaseUndoesAllocation(s: SimState, pid: string, size: int, alg: Algorithm)
    requires WellFormed(s) && pid != "" && size > 0 && alg != Paging
    requires FirstMatch(s.records, pid) == -1
    ensures Released(Allocated(s, pid, size, alg), pid) == s
  {
    var t := Allocated(s, pid, size, alg);
    if Succeeds(alg, s.memoryBlocks, size) {
      var n := |s.records|;
      assert t.records[n].pid == pid;
      assert forall k :: 0 <= k < n ==> t.records[k] == s.records[k];
      assert FirstMatch(t.records, pid) == n;
      assert t.records[..n] + t.records[n + 1..] == s.records;
      assert t.memoryBlocks[Choice(alg, s.memoryBlocks, size) := s.memoryBlocks[Choice(alg, s.memoryBlocks, size)]]
        == s.memoryBlocks;
    } else {
      assert t == s;
    }
  }

  /** Removing a paged process hands its size to block 0 although block 0
      never gave it up: when block 0 was partly in use, it ends up with more
      free capacity than before the paging request. */
  lemma PagedReleaseInflatesBlockZero(s: SimState, pid: string, size: int)
    requires WellFormed(s) && pid != "" && size > 0
    requires FirstMatch(s.records, pid) == -1
    requires s.memoryBlocks[0] < s.blockTotal[0]
    ensures Released(Allocated(s, pid, size, Paging), pid).memoryBlocks[0] > s.memoryBlocks[0]
  {
    var t := Allocated(s, pid, size, Paging);
    var n := |s.records|;
    assert t.records[n].pid == pid;
    assert forall k :: 0 <= k < n ==> t.records[k] == s.records[k];
    assert FirstMatch(t.records, pid) == n;
  }
}
