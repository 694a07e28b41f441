/** The cell array of the kernel heap, as a value.

    Cell `i` holds `Some(k)` when a block of `k` cells starts there and `None` both inside blocks and in
    free space. */
module HeapCells {
  import opened Machine

  const ALLOC_STEPS: nat := 16
  const HEAP_SIZE: nat := 1000 * 1024
  const CELLS: nat := HEAP_SIZE / ALLOC_STEPS

  type Cell = Option<u16>

  /** The cells a request of `size` bytes occupies: its size padded to a multiple of 16. */
  function CellsFor(size: nat): (n: nat)
    ensures ALLOC_STEPS * n - ALLOC_STEPS < size <= ALLOC_STEPS * n
  {
    (size + ALLOC_STEPS - 1) / ALLOC_STEPS
  }

  /** A block starts at `i` and reaches over cell `j`. */
  predicate Spans(c: seq<Cell>, i: int, j: int) {
    0 <= i < |c| && c[i].Some? && i <= j < i + c[i].value
  }

  ghost predicate Used(c: seq<Cell>, j: int) {
    exists i :: Spans(c, i, j)
  }

  /** Blocks are non-empty, end inside the heap and have no block head in their interior. */
  ghost predicate WellFormed(c: seq<Cell>) {
    forall i :: 0 <= i < |c| && c[i].Some? ==>
      && 1 <= c[i].value
      && i + c[i].value <= |c|
      && forall j :: i < j < i + c[i].value ==> c[j] == None
  }

  /** The `n` cells from `p` on lie in the heap and belong to no block. */
  ghost predicate FreeRun(c: seq<Cell>, p: int, n: nat) {
    0 <= p && p + n <= |c| && forall j :: p <= j < p + n ==> !Used(c, j)
  }

  /** `p` is the lowest cell from which `n` cells are free. */
  ghost predicate FirstFit(c: seq<Cell>, n: nat, p: int) {
    FreeRun(c, p, n) && forall q :: 0 <= q < p ==> !FreeRun(c, q, n)
  }

  /** No block that starts before `i` reaches past it. */
  ghost predicate Boundary(c: seq<Cell>, i: int) {
    forall b :: 0 <= b < i && b < |c| && c[b].Some? ==> b + c[b].value <= i
  }

  // ----- the scan -----

  lemma BoundaryFree(c: seq<Cell>, i: nat)
    requires WellFormed(c) && i < |c| && Boundary(c, i) && c[i] == None
    ensures !Used(c, i) && Boundary(c, i + 1)
  {
  }

  /** Jumping over a block misses no free run: one that starts before the end of the block would have
      to contain its head. */
  lemma SkipBlock(c: seq<Cell>, spot: nat, i: nat, n: nat)
    requires WellFormed(c) && spot <= i < |c| && Boundary(c, i) && c[i].Some?
    requires i - spot < n && forall q :: 0 <= q < spot ==> !FreeRun(c, q, n)
    ensures Boundary(c, i + c[i].value)
    ensures forall q :: 0 <= q < i + c[i].value ==> !FreeRun(c, q, n)
  {
    forall q | spot <= q < i + c[i].value ensures !FreeRun(c, q, n) {
      var j := if q <= i then i else q;
      assert Spans(c, i, j);
      assert Used(c, j);
    }
  }

  lemma FitAtSpot(c: seq<Cell>, spot: nat, n: nat)
    requires forall q :: 0 <= q < spot ==> !FreeRun(c, q, n)
    requires spot + n <= |c| && forall j :: spot <= j < spot + n ==> !Used(c, j)
    ensures FirstFit(c, n, spot)
  {
  }

  // ----- changes to one block -----

  /** Placing a block on a free run keeps the array well formed and uses exactly those cells. */
  lemma PlaceBlock(c: seq<Cell>, p: nat, n: u16)
    requires WellFormed(c) && n >= 1 && FreeRun(c, p, n)
    ensures WellFormed(c[p := Some(n)])
    ensures forall j :: Used(c[p := Some(n)], j) <==> Used(c, j) || p <= j < p + n
    ensures c[p] == None
  {
    var d := c[p := Some(n)];
    assert forall j :: p <= j < p + n ==> c[j] == None by {
      forall j | p <= j < p + n ensures c[j] == None {
        assert !Used(c, j);
        assert !Spans(c, j, j);
      }
    }
    forall i | 0 <= i < |d| && d[i].Some? && i != p ensures !(i < p < i + d[i].value) {
      assert !Used(c, p);
      assert !Spans(c, i, p);
    }
    forall j ensures Used(d, j) <==> Used(c, j) || p <= j < p + n {
      UsedAfterUpdate(c, p, Some(n), j);
    }
  }

  lemma UsedAfterUpdate(c: seq<Cell>, p: nat, v: Cell, j: int)
    requires p < |c| && c[p] == None
    ensures Used(c[p := v], j) <==> Used(c, j) || (v.Some? && p <= j < p + v.value)
  {
    var d := c[p := v];
    assert forall i :: i != p ==> (Spans(d, i, j) <==> Spans(c, i, j));
    assert !Spans(c, p, j);
    assert Spans(d, p, j) <==> v.Some? && p <= j < p + v.value;
    if Used(c, j) {
      var i :| Spans(c, i, j);
      assert Spans(d, i, j);
    }
  }

  lemma BlocksDisjoint(c: seq<Cell>, i: nat, k: nat, j: int)
    requires WellFormed(c) && Spans(c, i, j) && Spans(c, k, j)
    ensures i == k
  {
  }

  lemma OthersMiss(c: seq<Cell>, i: nat, p: nat, j: int)
    requires WellFormed(c) && p < |c| && Spans(c[p := None], i, j)
    ensures !Spans(c, p, j)
  {
    assert i != p && Spans(c, i, j);
    if Spans(c, p, j) {
      BlocksDisjoint(c, i, p, j);
      assert false;
    }
  }

  /** Freeing a block frees exactly its cells. */
  lemma FreeBlock(c: seq<Cell>, p: nat)
    requires WellFormed(c) && p < |c| && c[p].Some?
    ensures WellFormed(c[p := None])
    ensures forall j :: Used(c[p := None], j) <==> Used(c, j) && !(p <= j < p + c[p].value)
  {
    var d := c[p := None];
    assert d[p := c[p]] == c;
    forall j ensures Used(d, j) <==> Used(c, j) && !(p <= j < p + c[p].value) {
      UsedAfterUpdate(d, p, c[p], j);
      if Used(d, j) {
        var i :| Spans(d, i, j);
        OthersMiss(c, i, p, j);
        assert Spans(c, p, j) <==> p <= j < p + c[p].value;
      }
    }
  }

  /** Shrinking a block frees exactly its tail. */
  lemma ShrinkBlock(c: seq<Cell>, p: nat, n: u16)
    requires WellFormed(c) && p < |c| && c[p].Some? && 1 <= n < c[p].value
    ensures WellFormed(c[p := Some(n)])
    ensures forall j :: Used(c[p := Some(n)], j) <==> Used(c, j) && !(p + n <= j < p + c[p].value)
  {
    FreeBlock(c, p);
    var d := c[p := None];
    PlaceBlock(d, p, n);
    assert d[p := Some(n)] == c[p := Some(n)];
    forall j | p <= j < p + n ensures Used(c, j) {
      assert Spans(c, p, j);
    }
  }

  // ----- totals -----

  function Weight(v: Cell): nat { if v.Some? then v.value else 0 }

  /** The sum of the block lengths. */
  function TotalCells(c: seq<Cell>): nat {
    if c == [] then 0 else TotalCells(c[..|c| - 1]) + Weight(c[|c| - 1])
  }

  lemma {:induction false} TotalUpdate(c: seq<Cell>, p: nat, v: Cell)
    requires p < |c|
    ensures TotalCells(c[p := v]) == TotalCells(c) - Weight(c[p]) + Weight(v)
  {
    var init := c[..|c| - 1];
    if p == |c| - 1 {
      assert c[p := v][..|c| - 1] == init;
    } else {
      TotalUpdate(init, p, v);
      assert c[p := v][..|c| - 1] == init[p := v];
    }
  }

  ghost function UsedCells(c: seq<Cell>): set<int> {
    set j: int | 0 <= j < |c| && Used(c, j)
  }

  /** The cells of the blocks that start before `n`. */
  ghost function UsedBefore(c: seq<Cell>, n: nat): set<int>
    requires n <= |c|
  {
    set j: int, i: int | 0 <= i < n && 0 <= j < |c| && Spans(c, i, j) :: j
  }

  ghost function Extent(c: seq<Cell>, p: nat): set<int>
    requires p < |c|
  {
    set j: int | 0 <= j < |c| && Spans(c, p, j)
  }

  ghost function CellRange(p: nat, n: nat): set<int> {
    set j: int | 0 <= j < p + n && InCells(p, n, j)
  }

  predicate InCells(p: nat, n: nat, j: int) { p <= j < p + n }

  lemma {:induction false} CellRangeSize(p: nat, n: nat)
    ensures |CellRange(p, n)| == n
  {
    if n == 0 {
      assert CellRange(p, n) == {};
    } else {
      CellRangeSize(p, n - 1);
      assert CellRange(p, n) == CellRange(p, n - 1) + {p + n - 1};
    }
  }

  lemma UsedBeforeNext(c: seq<Cell>, n: nat)
    requires WellFormed(c) && n < |c|
    ensures UsedBefore(c, n + 1) == UsedBefore(c, n) + Extent(c, n)
    ensures UsedBefore(c, n) !! Extent(c, n)
  {
    forall j | j in UsedBefore(c, n) ensures j !in Extent(c, n) {
      var i :| 0 <= i < n && Spans(c, i, j);
      if Spans(c, n, j) {
        BlocksDisjoint(c, i, n, j);
      }
    }
  }

  lemma ExtentSize(c: seq<Cell>, p: nat)
    requires WellFormed(c) && p < |c|
    ensures |Extent(c, p)| == Weight(c[p])
  {
    CellRangeSize(p, Weight(c[p]));
    assert Extent(c, p) == CellRange(p, Weight(c[p]));
  }

  lemma {:induction false} TotalBefore(c: seq<Cell>, n: nat)
    requires WellFormed(c) && n <= |c|
    ensures |UsedBefore(c, n)| == TotalCells(c[..n])
  {
    if n == 0 {
      assert UsedBefore(c, 0) == {};
    } else {
      TotalBefore(c, n - 1);
      assert c[..n][..n - 1] == c[..n - 1];
      UsedBeforeNext(c, n - 1);
      ExtentSize(c, n - 1);
    }
  }

  /** Because blocks do not overlap, the sum of the lengths is the number of cells in use. */
  lemma TotalIsUsed(c: seq<Cell>)
    requires WellFormed(c)
    ensures TotalCells(c) == |UsedCells(c)|
  {
    TotalBefore(c, |c|);
    assert c[..|c|] == c;
    assert UsedBefore(c, |c|) == UsedCells(c);
  }
}
