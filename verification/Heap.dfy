/** The kernel heap: a first-fit allocator over an array of 16-byte cells. */
module Heap {
  import opened Machine
  import opened HeapCells

  const ISIZE_MAX: nat := 0x7FFF_FFFF_FFFF_FFFF

  datatype Layout = Layout(size: nat, align: nat)

  /** What the global allocator interface guarantees about a layout, for the alignments a cell can give:
      a positive size whose padded size is a valid layout size. */
  predicate ValidLayout(layout: Layout) {
    && layout.align in {1, 2, 4, 8, 16}
    && 0 < layout.size && layout.size + ALLOC_STEPS <= ISIZE_MAX
  }

  class FixedSizeBlockAllocator {
    const arr: array<Cell>
    const heapStart: nat

    /** A heap at address zero would make its first block indistinguishable from a null pointer. */
    ghost predicate Valid()
      reads this, arr
    {
      arr.Length == CELLS && heapStart > 0 && WellFormed(arr[..])
    }

    ghost function Cells(): seq<Cell>
      reads this, arr
    {
      arr[..]
    }

    /** The address of cell `i`. */
    function Address(i: nat): nat {
      i * ALLOC_STEPS + heapStart
    }

    /** The cell an address at or above the heap start falls into. */
    function CellOf(ptr: nat): (i: nat)
      requires ptr >= heapStart
      ensures heapStart + 16 * i <= ptr < heapStart + 16 * i + 16
    {
      (ptr - heapStart) / ALLOC_STEPS
    }

    constructor (heapStart: nat)
      requires heapStart > 0
      ensures Valid() && fresh(arr) && this.heapStart == heapStart
      ensures Cells() == seq(CELLS, _ => None)
    {
      arr := new Cell[CELLS](_ => None);
      this.heapStart := heapStart;
    }

    /** First fit.  A null pointer is returned exactly when no run of free cells is long enough;
        otherwise the block starts at the lowest such run. */
    method Alloc(layout: Layout) returns (ptr: nat)
      requires Valid() && ValidLayout(layout)
      modifies arr
      ensures Valid()
      ensures AllocStep(old(Cells()), CellsFor(layout.size), heapStart, Cells(), ptr)
    {
      ghost var c := Cells();
      ghost var n := CellsFor(layout.size);
      var neededSize := ALLOC_STEPS * CellsFor(layout.size);
      var accumulator := 0;
      var spot := 0;
      var i := 0;
      while i < arr.Length
        invariant spot <= i <= CELLS && Boundary(c, i) && Cells() == c
        invariant accumulator == ALLOC_STEPS * (i - spot) < neededSize
        invariant forall j :: spot <= j < i ==> !Used(c, j)
        invariant forall q :: 0 <= q < spot ==> !FreeRun(c, q, n)
      {
        match arr[i]
        case Some(offset) =>
          SkipBlock(c, spot, i, n);
          accumulator := 0;
          i := i + offset;
          spot := i;
          continue;
        case None =>
          BoundaryFree(c, i);
          accumulator := accumulator + ALLOC_STEPS;
          if neededSize == accumulator {
            FitAtSpot(c, spot, n);
            PlaceBlock(c, spot, n);
            var data: u16 := neededSize / ALLOC_STEPS;
            arr[spot] := Some(data);
            assert Cells() == c[spot := Some(n)];
            return Address(spot);
          }
        i := i + 1;
      }
      return 0;
    }

    /** Frees the block that starts in the cell `ptr` points into.  Pointers outside the heap and cells
        where no block starts are panics. */
    method Dealloc(ptr: nat) returns (ok: bool)
      requires Valid()
      modifies arr
      ensures ok <==> ptr >= heapStart && CellOf(ptr) < CELLS && old(Cells()[CellOf(ptr)]).Some?
      ensures ok ==> Valid() && Cells() == old(Cells())[CellOf(ptr) := None]
    {
      if ptr < heapStart {
        return false;
      }
      var index := (ptr - heapStart) / ALLOC_STEPS;
      if index >= arr.Length {
        return false;
      }
      if arr[index].None? {
        return false;
      }
      FreeBlock(Cells(), index);
      ghost var c := Cells();
      arr[index] := None;
      assert Cells() == c[index := None];
      return true;
    }

    /** Resizes the block at `ptr`, which must be live and allocated with `layout`. */
    method Realloc(ptr: nat, layout: Layout, newSize: nat) returns (newPtr: nat)
      requires Valid() && ValidLayout(layout) && ValidLayout(Layout(newSize, ALLOC_STEPS))
      requires ptr >= heapStart && CellOf(ptr) < CELLS && ptr == Address(CellOf(ptr))
      requires Cells()[CellOf(ptr)] == Some(CellsFor(layout.size))
      modifies arr
      ensures Valid()
      ensures ReallocStep(old(Cells()), CellOf(ptr), CellsFor(newSize), heapStart, Cells(), newPtr)
    {
      var index := (ptr - heapStart) / ALLOC_STEPS;
      var paddedNew := ALLOC_STEPS * CellsFor(newSize);
      var paddedOld := ALLOC_STEPS * CellsFor(layout.size);
      ghost var c := Cells();
      if paddedOld == paddedNew {
        return ptr;
      } else if paddedOld > paddedNew {
        ShrinkBlock(c, index, CellsFor(newSize));
        var data: u16 := paddedNew / ALLOC_STEPS;
        arr[index] := Some(data);
        assert Cells() == c[index := Some(CellsFor(newSize))];
        return ptr;
      } else {
        var ok := Dealloc(ptr);
        newPtr := Alloc(Layout(newSize, ALLOC_STEPS));
      }
    }

    /** The sum of the block lengths.  Despite its name in the original it counts cells, not bytes. */
    method NumBytesAllocated() returns (count: nat)
      requires Valid()
      ensures count == |UsedCells(Cells())|
    {
      count := 0;
      for i := 0 to arr.Length
        invariant count == TotalCells(arr[..i])
      {
        assert arr[..i + 1][..i] == arr[..i];
        match arr[i]
        case Some(val) => count := count + val;
        case None =>
      }
      assert arr[..arr.Length] == arr[..];
      TotalIsUsed(Cells());
    }
  }

  /** What an allocation of `n` cells does: a block on the first fit, or nothing at all. */
  ghost predicate AllocStep(c: seq<Cell>, n: nat, heapStart: nat, c': seq<Cell>, ptr: nat) {
    if ptr == 0 then c' == c && forall p :: !FreeRun(c, p, n)
    else exists p: nat :: FirstFit(c, n, p) && 1 <= n < 0x1_0000 && p < |c| && ptr == p * ALLOC_STEPS + heapStart
                          && c' == c[p := Some(n)]
  }

  /** What resizing the block at cell `i` to `n` cells does. */
  ghost predicate ReallocStep(c: seq<Cell>, i: nat, n: nat, heapStart: nat, c': seq<Cell>, ptr: nat)
    requires i < |c|
  {
    && c[i].Some?
    && (n == c[i].value ==> c' == c && ptr == i * ALLOC_STEPS + heapStart)
    && (n < c[i].value ==> c' == c[i := Some(n)] && ptr == i * ALLOC_STEPS + heapStart)
    && (n > c[i].value ==> AllocStep(c[i := None], n, heapStart, c', ptr))
  }
}
