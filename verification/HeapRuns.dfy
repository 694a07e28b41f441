/** Whole runs of the kernel heap, compared with the ledger a caller would keep.

    The ledger is computed from the calls and their results alone: which pointers are live and how many
    cells each was promised.  In every run it agrees exactly with the blocks in the cell array. */
module HeapRuns {
  import opened Machine
  import opened HeapCells
  import opened Heap

  datatype Event =
    | Allocated(size: nat, ptr: nat)
    | Freed(ptr: nat)
    | Resized(ptr: nat, oldSize: nat, newSize: nat, result: nat)

  function Addr(heapStart: nat, i: nat): nat { i * ALLOC_STEPS + heapStart }

  /** `ptr` is the address of the block of `n` cells at cell `i`. */
  predicate BlockAt(c: seq<Cell>, heapStart: nat, i: nat, ptr: nat) {
    i < |c| && ptr == Addr(heapStart, i) && c[i].Some?
  }

  /** A call that obeys the allocator interface: only live pointers are freed or resized, and resizing
      states the size the block was allocated with. */
  ghost predicate Step(heapStart: nat, c: seq<Cell>, e: Event, c': seq<Cell>) {
    match e
    case Allocated(size, ptr) => size > 0 && AllocStep(c, CellsFor(size), heapStart, c', ptr)
    case Freed(ptr) => exists i: nat :: BlockAt(c, heapStart, i, ptr) && c' == c[i := None]
    case Resized(ptr, oldSize, newSize, result) =>
      newSize > 0 && exists i: nat :: BlockAt(c, heapStart, i, ptr) && c[i].value == CellsFor(oldSize)
                                      && ReallocStep(c, i, CellsFor(newSize), heapStart, c', result)
  }

  ghost predicate IsRun(heapStart: nat, states: seq<seq<Cell>>, events: seq<Event>) {
    && heapStart > 0
    && |states| == |events| + 1
    && states[0] == seq(CELLS, _ => None)
    && forall t :: 0 <= t < |events| ==> Step(heapStart, states[t], events[t], states[t + 1])
  }

  type Ledger = map<nat, nat>

  function Record(m: Ledger, e: Event): Ledger {
    match e
    case Allocated(size, ptr) => if ptr == 0 then m else m[ptr := CellsFor(size)]
    case Freed(ptr) => m - {ptr}
    case Resized(ptr, _, newSize, result) =>
      if result == 0 then m - {ptr} else (m - {ptr})[result := CellsFor(newSize)]
  }

  function LedgerOf(events: seq<Event>): Ledger {
    if events == [] then map[] else Record(LedgerOf(events[..|events| - 1]), events[|events| - 1])
  }

  /** The ledger lists exactly the blocks in the array. */
  ghost predicate Agrees(heapStart: nat, m: Ledger, c: seq<Cell>) {
    && (forall i: nat :: i < |c| && c[i].Some? ==> Addr(heapStart, i) in m && m[Addr(heapStart, i)] == c[i].value)
    && (forall p :: p in m ==> exists i: nat :: BlockAt(c, heapStart, i, p))
  }

  lemma AgreesPlace(heapStart: nat, m: Ledger, c: seq<Cell>, p: nat, n: u16)
    requires Agrees(heapStart, m, c) && p < |c| && c[p] == None
    ensures Agrees(heapStart, m[Addr(heapStart, p) := n], c[p := Some(n)])
  {
    var m', c' := m[Addr(heapStart, p) := n], c[p := Some(n)];
    forall q | q in m' ensures exists i: nat :: BlockAt(c', heapStart, i, q) {
      if q == Addr(heapStart, p) {
        assert BlockAt(c', heapStart, p, q);
      } else {
        var i: nat :| BlockAt(c, heapStart, i, q);
        assert BlockAt(c', heapStart, i, q);
      }
    }
  }

  lemma AgreesErase(heapStart: nat, m: Ledger, c: seq<Cell>, p: nat)
    requires Agrees(heapStart, m, c) && p < |c|
    ensures Agrees(heapStart, m - {Addr(heapStart, p)}, c[p := None])
  {
    var m', c' := m - {Addr(heapStart, p)}, c[p := None];
    forall q | q in m' ensures exists i: nat :: BlockAt(c', heapStart, i, q) {
      var i: nat :| BlockAt(c, heapStart, i, q);
      assert BlockAt(c', heapStart, i, q);
    }
  }

  lemma PlaceAgrees(heapStart: nat, m: Ledger, c: seq<Cell>, p: nat, n: u16)
    requires WellFormed(c) && Agrees(heapStart, m, c) && n >= 1 && p < |c| && FreeRun(c, p, n)
    ensures WellFormed(c[p := Some(n)])
    ensures Agrees(heapStart, m[Addr(heapStart, p) := n], c[p := Some(n)])
    ensures TotalCells(c[p := Some(n)]) == TotalCells(c) + n
  {
    PlaceBlock(c, p, n);
    AgreesPlace(heapStart, m, c, p, n);
    TotalUpdate(c, p, Some(n));
  }

  /** An allocation keeps the array well formed and adds one entry to the ledger, or changes neither. */
  lemma AllocAgrees(heapStart: nat, m: Ledger, c: seq<Cell>, n: nat, c': seq<Cell>, ptr: nat)
    requires heapStart > 0 && WellFormed(c) && Agrees(heapStart, m, c) && AllocStep(c, n, heapStart, c', ptr)
    ensures WellFormed(c') && |c'| == |c|
    ensures Agrees(heapStart, if ptr == 0 then m else m[ptr := n], c')
    ensures TotalCells(c') == TotalCells(c) + if ptr == 0 then 0 else n
  {
    if ptr != 0 {
      var p: nat :| FirstFit(c, n, p) && 1 <= n < 0x1_0000 && p < |c| && ptr == p * ALLOC_STEPS + heapStart
                    && c' == c[p := Some(n)];
      assert ptr == Addr(heapStart, p);
      PlaceAgrees(heapStart, m, c, p, n);
    }
  }

  lemma EraseAgrees(heapStart: nat, m: Ledger, c: seq<Cell>, i: nat)
    requires WellFormed(c) && Agrees(heapStart, m, c) && i < |c| && c[i].Some?
    ensures WellFormed(c[i := None])
    ensures Agrees(heapStart, m - {Addr(heapStart, i)}, c[i := None])
    ensures TotalCells(c[i := None]) == TotalCells(c) - c[i].value
  {
    FreeBlock(c, i);
    AgreesErase(heapStart, m, c, i);
    TotalUpdate(c, i, None);
  }

  /** By how much a call changes the number of cells in use. */
  function Growth(e: Event): int {
    match e
    case Allocated(size, ptr) => if ptr == 0 then 0 else CellsFor(size)
    case Freed(_) => 0
    case Resized(_, oldSize, newSize, result) => (if result == 0 then 0 else CellsFor(newSize)) - CellsFor(oldSize)
  }

  /** The same with the ledger at hand, which knows the size of a block that is freed. */
  function Change(m: Ledger, e: Event): int {
    if e.Freed? && e.ptr in m then 0 - m[e.ptr] else Growth(e)
  }

  lemma ResizeAgrees(heapStart: nat, m: Ledger, c: seq<Cell>, i: nat, n: nat, c': seq<Cell>, result: nat)
    requires heapStart > 0 && WellFormed(c) && Agrees(heapStart, m, c)
    requires i < |c| && 1 <= n && ReallocStep(c, i, n, heapStart, c', result)
    ensures WellFormed(c') && |c'| == |c|
    ensures var m' := m - {Addr(heapStart, i)};
            Agrees(heapStart, if result == 0 then m' else m'[result := n], c')
    ensures TotalCells(c') == TotalCells(c) - c[i].value + if result == 0 then 0 else n
  {
    var d, m' := c[i := None], m - {Addr(heapStart, i)};
    EraseAgrees(heapStart, m, c, i);
    if n > c[i].value {
      AllocAgrees(heapStart, m', d, n, c', result);
    } else {
      assert result == Addr(heapStart, i) != 0;
      assert d[i := Some(n)] == c[i := Some(n)] == c';
      FreeRunOfBlock(c, i, n);
      PlaceAgrees(heapStart, m', d, i, n);
    }
  }

  lemma FreeRunOfBlock(c: seq<Cell>, i: nat, n: nat)
    requires WellFormed(c) && i < |c| && c[i].Some? && n <= c[i].value
    ensures FreeRun(c[i := None], i, n)
  {
    FreeBlock(c, i);
  }

  lemma StepAgrees(heapStart: nat, m: Ledger, c: seq<Cell>, e: Event, c': seq<Cell>)
    requires heapStart > 0 && WellFormed(c) && Agrees(heapStart, m, c) && Step(heapStart, c, e, c')
    ensures WellFormed(c') && |c'| == |c| && Agrees(heapStart, Record(m, e), c')
    ensures !e.Freed? ==> TotalCells(c') == TotalCells(c) + Growth(e)
    ensures e.Freed? ==> e.ptr in m && TotalCells(c') == TotalCells(c) - m[e.ptr]
  {
    match e
    case Allocated(size, ptr) =>
      AllocAgrees(heapStart, m, c, CellsFor(size), c', ptr);
    case Freed(ptr) =>
      var i: nat :| BlockAt(c, heapStart, i, ptr) && c' == c[i := None];
      EraseAgrees(heapStart, m, c, i);
    case Resized(ptr, oldSize, newSize, result) =>
      var i: nat :| BlockAt(c, heapStart, i, ptr) && c[i].value == CellsFor(oldSize)
                    && ReallocStep(c, i, CellsFor(newSize), heapStart, c', result);
      ResizeAgrees(heapStart, m, c, i, CellsFor(newSize), c', result);
  }

  /** In every reachable state the array is well formed and its blocks are exactly those of the ledger. */
  lemma {:induction false} LedgerAgrees(heapStart: nat, states: seq<seq<Cell>>, events: seq<Event>, t: nat)
    requires IsRun(heapStart, states, events) && t <= |events|
    ensures WellFormed(states[t]) && |states[t]| == CELLS
    ensures Agrees(heapStart, LedgerOf(events[..t]), states[t])
  {
    if t > 0 {
      LedgerAgrees(heapStart, states, events, t - 1);
      assert events[..t][..t - 1] == events[..t - 1];
      StepAgrees(heapStart, LedgerOf(events[..t - 1]), states[t - 1], events[t - 1], states[t]);
    }
  }

  /** The live blocks of any run lie in the heap, are aligned to a cell and never overlap. */
  lemma LiveBlocksDisjoint(heapStart: nat, states: seq<seq<Cell>>, events: seq<Event>, p: nat, q: nat)
    requires IsRun(heapStart, states, events)
    requires p in LedgerOf(events) && q in LedgerOf(events)
    ensures var m := LedgerOf(events);
            && heapStart <= p && p + ALLOC_STEPS * m[p] <= heapStart + HEAP_SIZE
            && (p - heapStart) % ALLOC_STEPS == 0 && m[p] >= 1
            && (p < q ==> p + ALLOC_STEPS * m[p] <= q)
  {
    var c := states[|events|];
    LedgerAgrees(heapStart, states, events, |events|);
    assert events[..|events|] == events;
    var i: nat :| BlockAt(c, heapStart, i, p);
    var j: nat :| BlockAt(c, heapStart, j, q);
    assert c[i].Some? && c[j].Some?;
  }

  /** Every call changes the reported total by the cells it gives out less the cells it takes back. */
  lemma TotalFollowsLedger(heapStart: nat, states: seq<seq<Cell>>, events: seq<Event>, t: nat)
    requires IsRun(heapStart, states, events) && t < |events|
    ensures var m := LedgerOf(events[..t]);
            |UsedCells(states[t + 1])| == |UsedCells(states[t])| + Change(m, events[t])
  {
    LedgerAgrees(heapStart, states, events, t);
    LedgerAgrees(heapStart, states, events, t + 1);
    StepAgrees(heapStart, LedgerOf(events[..t]), states[t], events[t], states[t + 1]);
    TotalIsUsed(states[t]);
    TotalIsUsed(states[t + 1]);
  }

  // ----- growing a block -----

  ghost predicate HasRoom(c: seq<Cell>, n: nat) {
    exists p :: FreeRun(c, p, n)
  }

  /** The interface promises that a failed resize leaves the block alone.  The code frees the block first,
      so the promise holds exactly when the request does not grow or the freed heap has room. */
  lemma ResizeKeepsBlockIff(heapStart: nat, c: seq<Cell>, i: nat, n: nat, c': seq<Cell>, result: nat)
    requires heapStart > 0 && WellFormed(c) && i < |c| && 1 <= n && ReallocStep(c, i, n, heapStart, c', result)
    ensures (result == 0 ==> c' == c) <==> n <= c[i].value || HasRoom(c[i := None], n)
  {
  }

  /** A full heap of one block: asking for one cell more loses the block. */
  lemma FailedGrowthLosesBlock()
    ensures var c := seq(CELLS, i => if i == 0 then Some(CELLS) else None);
            WellFormed(c) && ReallocStep(c, 0, CELLS + 1, 1, c[0 := None], 0) && c[0 := None] != c
  {
  }

  /** The old and the new place of a moved block of `size` bytes overlap, although the copy is one for disjoint
      memory. */
  predicate CopyOverlaps(p: nat, i: nat, size: nat) {
    p != i && ALLOC_STEPS * p < ALLOC_STEPS * i + size && ALLOC_STEPS * i < ALLOC_STEPS * p + size
  }

  /** There are exactly `f` free cells directly in front of cell `i`. */
  ghost predicate FreeInFront(c: seq<Cell>, i: nat, f: nat) {
    f <= i && (forall j :: i - f <= j < i ==> !Used(c, j)) && (f < i ==> Used(c, i - f - 1))
  }

  /** The heap before a growing resize makes it move the block by less than its own size: there is some free
      space in front, but less than the block; with it the grown block fits, and no run before it is long enough. */
  ghost predicate MovesShort(c: seq<Cell>, i: nat, n: nat, f: nat)
    requires i < |c| && c[i].Some?
  {
    && 0 < f < c[i].value && FreeRun(c[i := None], i - f, n)
    && forall q :: 0 <= q && q + n <= i - f ==> !FreeRun(c, q, n)
  }

  lemma StillFree(c: seq<Cell>, i: nat, p: int, n: nat)
    requires WellFormed(c) && i < |c| && c[i].Some? && FreeRun(c, p, n)
    ensures FreeRun(c[i := None], p, n)
  {
    var d := c[i := None];
    FreeBlock(c, i);
    forall j | p <= j < p + n ensures !Used(d, j) {
      assert !Used(c, j);
    }
  }

  lemma FreeBefore(c: seq<Cell>, i: nat, p: int, n: nat)
    requires WellFormed(c) && i < |c| && c[i].Some? && FreeRun(c[i := None], p, n)
    ensures forall j :: p <= j < p + n && j < i ==> !Used(c, j)
  {
    FreeBlock(c, i);
  }

  lemma FrontJoins(c: seq<Cell>, i: nat, n: nat, f: nat, p: nat)
    requires WellFormed(c) && i < |c| && c[i].Some? && FreeInFront(c, i, f)
    requires FreeRun(c[i := None], p, n) && i - f <= p < i
    ensures FreeRun(c[i := None], i - f, n)
  {
    var d := c[i := None];
    FreeBlock(c, i);
    forall j | i - f <= j < i - f + n ensures !Used(d, j) {
      assert j < i ==> !Used(c, j);
    }
  }

  /** A block that moves by less than its size moves to the start of the free space in front of it. */
  lemma ShortMove(c: seq<Cell>, i: nat, n: nat, f: nat, p: nat)
    requires WellFormed(c) && i < |c| && c[i].Some? && n > c[i].value && FreeInFront(c, i, f)
    requires FirstFit(c[i := None], n, p) && i - c[i].value < p < i + c[i].value && p != i
    ensures p == i - f && MovesShort(c, i, n, f)
  {
    var d := c[i := None];
    NotFurther(c, i, n, p);
    FreeBefore(c, i, p, n);
    assert i - f <= p;
    FrontJoins(c, i, n, f, p);
    forall q | 0 <= q && q + n <= i - f ensures !FreeRun(c, q, n) {
      if FreeRun(c, q, n) {
        StillFree(c, i, q, n);
        assert false;
      }
    }
  }

  /** The freed cells themselves come before any place that starts inside them. */
  lemma NotFurther(c: seq<Cell>, i: nat, n: nat, p: nat)
    requires WellFormed(c) && i < |c| && c[i].Some?
    requires FirstFit(c[i := None], n, p) && p < i + c[i].value
    ensures p <= i
  {
    var d := c[i := None];
    if i < p {
      FreeBlock(c, i);
      forall j | i <= j < i + n ensures !Used(d, j) {
      }
      assert FreeRun(d, i, n);
    }
  }

  lemma FitsInFront(c: seq<Cell>, i: nat, n: nat, f: nat, p: nat)
    requires WellFormed(c) && i < |c| && c[i].Some? && FreeInFront(c, i, f)
    requires FirstFit(c[i := None], n, p) && MovesShort(c, i, n, f)
    ensures p == i - f
  {
    FreeBefore(c, i, p, n);
    assert p < i - f < p + n ==> !Used(c, i - f - 1);
    assert p + n <= i - f ==> FreeRun(c, p, n);
  }

  lemma BytesOverlapIff(p: nat, i: nat, size: nat)
    ensures CopyOverlaps(p, i, size) <==> p != i && i - CellsFor(size) < p < i + CellsFor(size)
  {
  }

  /** When exactly a growing resize copies a block onto itself, told from the heap before the call. */
  lemma CopyOverlapsIff(c: seq<Cell>, i: nat, size: nat, n: nat, f: nat, p: nat)
    requires WellFormed(c) && i < |c| && c[i] == Some(CellsFor(size)) && n > c[i].value && FreeInFront(c, i, f)
    requires FirstFit(c[i := None], n, p)
    ensures CopyOverlaps(p, i, size) <==> MovesShort(c, i, n, f)
  {
    BytesOverlapIff(p, i, size);
    if p != i && i - c[i].value < p < i + c[i].value {
      ShortMove(c, i, n, f, p);
    }
    if MovesShort(c, i, n, f) {
      FitsInFront(c, i, n, f, p);
    }
  }

  // ----- a run with an overlapping copy -----

  const FREE: seq<Cell> := seq(CELLS, _ => None)

  /** Allocate one cell and two cells, free the first block, grow the second to three cells: it moves down by one
      cell, onto itself. */
  lemma OverlappingRun(heapStart: nat) returns (states: seq<seq<Cell>>, events: seq<Event>)
    requires heapStart > 0
    ensures IsRun(heapStart, states, events) && |events| == 4
    ensures events[3] == Resized(Addr(heapStart, 1), 32, 48, Addr(heapStart, 0)) && CopyOverlaps(0, 1, 32)
  {
    var a, b, d := FREE[0 := Some(1)], FREE[0 := Some(1)][1 := Some(2)], FREE[1 := Some(2)];
    events := [ Allocated(16, Addr(heapStart, 0)), Allocated(32, Addr(heapStart, 1)), Freed(Addr(heapStart, 0)),
                Resized(Addr(heapStart, 1), 32, 48, Addr(heapStart, 0)) ];
    states := [FREE, a, b, d, FREE[0 := Some(3)]];
    AllocOnFree(heapStart, 1);
    AllocBehind(heapStart);
    assert BlockAt(b, heapStart, 0, Addr(heapStart, 0)) && d == b[0 := None];
    GrowOntoItself(heapStart);
  }

  lemma AllocOnFree(heapStart: nat, n: nat)
    requires heapStart > 0 && 1 <= n <= CELLS
    ensures AllocStep(FREE, n, heapStart, FREE[0 := Some(n)], Addr(heapStart, 0))
  {
    assert FirstFit(FREE, n, 0);
  }

  lemma AllocBehind(heapStart: nat)
    requires heapStart > 0
    ensures AllocStep(FREE[0 := Some(1)], 2, heapStart, FREE[0 := Some(1)][1 := Some(2)], Addr(heapStart, 1))
  {
    var c := FREE[0 := Some(1)];
    assert Spans(c, 0, 0);
    assert !FreeRun(c, 0, 2) by {
      assert Used(c, 0);
    }
    assert FirstFit(c, 2, 1);
  }

  lemma GrowOntoItself(heapStart: nat)
    requires heapStart > 0
    ensures var e := Resized(Addr(heapStart, 1), 32, 48, Addr(heapStart, 0));
            Step(heapStart, FREE[1 := Some(2)], e, FREE[0 := Some(3)])
  {
    var c := FREE[1 := Some(2)];
    assert c[1 := None] == FREE;
    AllocOnFree(heapStart, 3);
    assert BlockAt(c, heapStart, 1, Addr(heapStart, 1));
    assert ReallocStep(c, 1, 3, heapStart, FREE[0 := Some(3)], Addr(heapStart, 0));
  }
}
