/** The allocator's choice in terms of blocks alone: which aligned blocks there are, and that the one handed out is
    the first and lowest of its kind. */
module RangeBlocks {
  import opened Machine
  import opened Bits
  import opened Ranges
  import opened RangeChoice

  /** The `size` bytes at `p` are aligned and lie in `e`. */
  predicate IsBlock(e: Range, p: int, size: u64, align: u64) {
    align > 0 && p % align == 0 && e.start <= p && p + size - 1 <= e.end
  }

  /** They lie in the region `g` as well, whichever way round its ends are given. */
  predicate IsBlockIn(e: Range, g: Range, p: int, size: u64, align: u64) {
    IsBlock(e, p, size, align) && IsBlock(LowToHigh(g), p, size, align)
  }

  /** There is room in a range exactly when it holds a block, and the lowest one starts at the aligned start. */
  lemma FitsIff(e: Range, size: u64, align: u64)
    requires align > 0 && size > 0
    ensures Fits(e, size, align) <==> exists p :: IsBlock(e, p, size, align)
    ensures forall p :: IsBlock(e, p, size, align) ==> p >= AlignUp(e.start, align)
    ensures Fits(e, size, align) ==> IsBlock(e, AlignUp(e.start, align), size, align)
  {
    AlignUpDivides(e.start, align);
    forall p | IsBlock(e, p, size, align) ensures p >= AlignUp(e.start, align) {
      AlignUpLeast(e.start, align, p);
    }
    if Fits(e, size, align) {
      assert IsBlock(e, AlignUp(e.start, align), size, align);
    }
  }

  /** A block lies in both ranges exactly when it lies in their overlap. */
  lemma BlockInOverlap(e: Range, g: Range, p: int, size: u64, align: u64)
    requires Shaped(e) && size > 0
    ensures IsBlockIn(e, g, p, size, align)
       <==> Overlaps(e, g).Some? && IsBlock(Overlaps(e, g).value, p, size, align)
  {
  }

  lemma FitsInIff(e: Range, g: Range, size: u64, align: u64)
    requires Shaped(e) && align > 0 && size > 0
    ensures FitsIn(e, g, size, align) <==> exists p :: IsBlockIn(e, g, p, size, align)
    ensures FitsIn(e, g, size, align) ==>
              var q := PreferredChoice(e, g, size, align).ptr;
              IsBlockIn(e, g, q, size, align) && forall p :: IsBlockIn(e, g, p, size, align) ==> p >= q
  {
    forall p ensures IsBlockIn(e, g, p, size, align) ==
                     (Overlaps(e, g).Some? && IsBlock(Overlaps(e, g).value, p, size, align))
    {
      BlockInOverlap(e, g, p, size, align);
    }
    if Overlaps(e, g).Some? {
      FitsIff(Overlaps(e, g).value, size, align);
      if FitsIn(e, g, size, align) {
        assert IsBlockIn(e, g, AlignUp(Overlaps(e, g).value.start, align), size, align);
      }
    }
  }

  /** No block of the request lies in both an entry and a region. */
  ghost predicate NoBlockIn(e: Range, g: Range, size: u64, align: u64) {
    forall p :: !IsBlockIn(e, g, p, size, align)
  }

  ghost predicate NoBlockInAny(e: Range, gs: seq<Range>, size: u64, align: u64) {
    forall j :: 0 <= j < |gs| ==> NoBlockIn(e, gs[j], size, align)
  }

  lemma PrefersIff(e: Range, gs: seq<Range>, size: u64, align: u64)
    requires Shaped(e) && align > 0 && size > 0
    ensures Prefers(e, gs, size, align) <==> !NoBlockInAny(e, gs, size, align)
  {
    forall j | 0 <= j < |gs| ensures FitsIn(e, gs[j], size, align) <==> !NoBlockIn(e, gs[j], size, align) {
      FitsInIff(e, gs[j], size, align);
    }
  }

  // ----- preferred blocks -----

  /** `c` is the lowest block of the first preferred region with one, in the first entry with such a region. */
  ghost predicate FirstAndLowest(s: seq<Range>, gs: seq<Range>, size: u64, align: u64, c: Choice, i: int, j: int) {
    && 0 <= i < |s| && 0 <= j < |gs|
    && c.base == c.ptr && c.end == c.ptr + size - 1
    && IsBlockIn(s[i], gs[j], c.ptr, size, align)
    && (forall p :: IsBlockIn(s[i], gs[j], p, size, align) ==> p >= c.ptr)
    && (forall k :: 0 <= k < i ==> NoBlockInAny(s[k], gs, size, align))
    && (forall k :: 0 <= k < j ==> NoBlockIn(s[i], gs[k], size, align))
  }

  lemma PreferredIsLowest(s: seq<Range>, gs: seq<Range>, size: u64, align: u64, i: int, j: int)
    requires Canonical(s) && size > 0 && align > 0 && FirstPreferred(s, gs, size, align, i, j)
    ensures FirstAndLowest(s, gs, size, align, PreferredChoice(s[i], gs[j], size, align), i, j)
  {
    FitsInIff(s[i], gs[j], size, align);
    forall k | 0 <= k < i ensures NoBlockInAny(s[k], gs, size, align) {
      PrefersIff(s[k], gs, size, align);
    }
    forall k | 0 <= k < j ensures NoBlockIn(s[i], gs[k], size, align) {
      FitsInIff(s[i], gs[k], size, align);
    }
  }

  /** If some entry has a block in a preferred region, the choice is the lowest block of the first such region in
      the first such entry, and nothing in front of it is taken. */
  lemma PreferredChoiceIsLowest(s: seq<Range>, gs: seq<Range>, size: u64, align: u64, c: Choice, k: nat)
    requires Canonical(s) && Choose(s, gs, size, align) == Some(c)
    requires k < |s| && !NoBlockInAny(s[k], gs, size, align)
    ensures exists i, j :: FirstAndLowest(s, gs, size, align, c, i, j)
  {
    PrefersIff(s[k], gs, size, align);
    var i0, j0 := SomeFirstPreferred(s, gs, size, align, k);
    var i, j :| FirstPreferred(s, gs, size, align, i, j) && c == PreferredChoice(s[i], gs[j], size, align);
    PreferredIsLowest(s, gs, size, align, i, j);
  }

  // ----- blocks from anywhere -----

  /** `c` is the lowest block of entry `i`, with the bytes in front of it, and no block of any entry has fewer bytes
      in front of it, nor as few in an earlier entry. */
  ghost predicate WastesLeast(s: seq<Range>, size: u64, align: u64, c: Choice, i: int) {
    && 0 <= i < |s|
    && c.base == s[i].start && c.end == c.ptr + size - 1
    && IsBlock(s[i], c.ptr, size, align)
    && (forall k, p :: 0 <= k < |s| && IsBlock(s[k], p, size, align) ==> p - s[k].start >= c.ptr - c.base)
    && (forall k, p :: 0 <= k < i && IsBlock(s[k], p, size, align) ==> p - s[k].start > c.ptr - c.base)
  }

  lemma LeastPaddingWastesLeast(s: seq<Range>, size: u64, align: u64, i: int)
    requires size > 0 && align > 0 && LeastPadding(s, size, align, i)
    ensures WastesLeast(s, size, align, PlainChoice(s[i], size, align), i)
  {
    FitsIff(s[i], size, align);
    forall k, p | 0 <= k < |s| && IsBlock(s[k], p, size, align)
      ensures p - s[k].start >= Pad(s[i].start, align) && (k < i ==> p - s[k].start > Pad(s[i].start, align))
    {
      FitsIff(s[k], size, align);
      assert Fits(s[k], size, align);
    }
  }

  /** If no entry has a block in a preferred region, the choice wastes least, the earliest entry on ties. */
  lemma PlainChoiceWastesLeast(s: seq<Range>, gs: seq<Range>, size: u64, align: u64, c: Choice)
    requires Canonical(s) && Choose(s, gs, size, align) == Some(c)
    requires forall k :: 0 <= k < |s| ==> NoBlockInAny(s[k], gs, size, align)
    ensures exists i :: WastesLeast(s, size, align, c, i)
  {
    forall k | 0 <= k < |s| ensures !Prefers(s[k], gs, size, align) {
      PrefersIff(s[k], gs, size, align);
    }
    ChoiceWastesLeast(s, gs, size, align, c);
    var i :| LeastPadding(s, size, align, i) && c == PlainChoice(s[i], size, align);
    LeastPaddingWastesLeast(s, size, align, i);
  }

  // ----- refusal -----

  /** Every aligned block at or above the start of the entry ends above the address space. */
  ghost predicate AtTheTop(e: Range, size: u64, align: u64) {
    forall p :: p >= e.start && align > 0 && p % align == 0 ==> p + size - 1 > U64_MAX
  }

  lemma OverflowsIff(e: Range, size: u64, align: u64)
    requires align > 0
    ensures Overflows(e, size, align) <==> AtTheTop(e, size, align)
  {
    AlignUpDivides(e.start, align);
    forall p | p >= e.start && p % align == 0 ensures p >= AlignUp(e.start, align) {
      AlignUpLeast(e.start, align, p);
    }
  }

  /** The search meets an entry at the top of the address space before a preferred block. */
  ghost predicate GivesUp(s: seq<Range>, gs: seq<Range>, size: u64, align: u64) {
    exists i :: 0 <= i < |s| && AtTheTop(s[i], size, align)
                && forall k :: 0 <= k < i ==> NoBlockInAny(s[k], gs, size, align)
  }

  lemma AbortsIff(s: seq<Range>, gs: seq<Range>, size: u64, align: u64)
    requires Canonical(s) && size > 0 && align > 0
    ensures Aborts(s, gs, size, align) <==> GivesUp(s, gs, size, align)
  {
    forall k | 0 <= k < |s|
      ensures Overflows(s[k], size, align) <==> AtTheTop(s[k], size, align)
      ensures Prefers(s[k], gs, size, align) <==> !NoBlockInAny(s[k], gs, size, align)
    {
      OverflowsIff(s[k], size, align);
      PrefersIff(s[k], gs, size, align);
    }
  }

  ghost predicate NoBlockAnywhere(s: seq<Range>, size: u64, align: u64) {
    forall k, p :: 0 <= k < |s| ==> !IsBlock(s[k], p, size, align)
  }

  /** A request is refused exactly when it is empty, its alignment is no power of two, there is no block for it, or
      the search gives up. */
  lemma RefusedIff(s: seq<Range>, gs: seq<Range>, size: u64, align: u64)
    requires Canonical(s)
    ensures Choose(s, gs, size, align) == None
       <==> size == 0 || !IsPow2(align) || NoBlockAnywhere(s, size, align) || GivesUp(s, gs, size, align)
  {
    CountOnesIffPow2(align);
    if ValidRequest(size, align) {
      ChooseNoneIff(s, gs, size, align);
      AbortsIff(s, gs, size, align);
      forall k | 0 <= k < |s| ensures Fits(s[k], size, align) <==> exists p :: IsBlock(s[k], p, size, align) {
        FitsIff(s[k], size, align);
      }
    }
  }
}
