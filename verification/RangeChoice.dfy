/** Which block an aligned allocation takes from a list of free ranges. */
module RangeChoice {
  import opened Machine
  import opened Bits
  import opened Ranges

  /** `base .. end` leaves the free set; `ptr` is handed to the caller. */
  datatype Choice = Choice(base: u64, end: u64, ptr: u64)

  /** The distance from `x` to the next multiple of `align`. */
  function Pad(x: nat, align: nat): (p: nat)
    requires align > 0
    ensures p < align
  {
    if x == 0 then 0
    else if x <= align then align - x
    else Pad(x - align, align)
  }

  /** The least multiple of `align` that is not below `x`. */
  function AlignUp(x: nat, align: nat): nat
    requires align > 0
  {
    x + Pad(x, align)
  }

  lemma {:induction false} PadIsMod(x: nat, align: nat)
    requires align > 0
    ensures Pad(x, align) == (align - x % align) % align
  {
    if x == 0 {
      DivModUnique(align, align, 1, 0);
    } else if x < align {
      SmallMod(x, align);
      SmallMod(align - x, align);
    } else if x == align {
      DivModUnique(align, align, 1, 0);
    } else {
      PadIsMod(x - align, align);
      ModMinus(x, align);
    }
  }

  lemma ModMinus(x: nat, d: nat)
    requires 0 < d <= x
    ensures x % d == (x - d) % d
  {
    var q, r := x / d, x % d;
    assert x == q * d + r;
    assert x - d == (q - 1) * d + r;
    DivModUnique(x - d, d, q - 1, r);
  }

  lemma {:induction false} AlignUpDivides(x: nat, align: nat)
    requires align > 0
    ensures AlignUp(x, align) % align == 0
  {
    if x == 0 {
      SmallMod(0, align);
    } else if x <= align {
      DivModUnique(align, align, 1, 0);
    } else {
      AlignUpDivides(x - align, align);
      ModMinus(AlignUp(x, align), align);
    }
  }

  lemma AlignUpLeast(x: nat, align: nat, y: nat)
    requires align > 0 && y >= x && y % align == 0
    ensures AlignUp(x, align) <= y
  {
    AlignUpDivides(x, align);
    var a := AlignUp(x, align);
    var p, q := a / align, y / align;
    assert a == p * align && y == q * align;
    assert (p - q) * align == a - y;
    MulAtLeast(p - q, align);
  }

  lemma AlignUpMonotone(x: nat, y: nat, align: nat)
    requires align > 0 && x <= y
    ensures AlignUp(x, align) <= AlignUp(y, align)
  {
    AlignUpDivides(y, align);
    AlignUpLeast(x, align, AlignUp(y, align));
  }

  // ----- the bit masks of the allocator -----

  /** The front padding as the code computes it, with `mask == align - 1`. */
  function AlignFix(start: u64, align: u64): nat
    requires align > 0
  {
    And(align - And(start, align - 1), align - 1)
  }

  lemma AlignFixIsPad(start: u64, align: u64)
    requires IsPow2(align)
    ensures align > 0 && AlignFix(start, align) == Pad(start, align)
  {
    var k: nat :| k < 64 && align == Pow2(k);
    AndLowMask(start, k);
    AndLowMask(align - start % align, k);
    PadIsMod(start, align);
  }

  function WrappingAdd(x: u64, y: u64): u64 {
    if x + y <= U64_MAX then x + y else x + y - (U64_MAX + 1)
  }

  /** The rounded-up start of an overlap as the code computes it. */
  function RoundUp(start: u64, align: u64): nat
    requires align > 0
  {
    And(WrappingAdd(start, align - 1), Not64(align - 1))
  }

  /** The guard `RoundUp >= start` is exact: it fails precisely when rounding up leaves the 64-bit
      address space, and when it holds the value is the rounded-up address. */
  lemma RoundUpGuard(start: u64, align: u64)
    requires IsPow2(align)
    ensures align > 0
    ensures RoundUp(start, align) >= start <==> AlignUp(start, align) <= U64_MAX
    ensures RoundUp(start, align) >= start ==> RoundUp(start, align) == AlignUp(start, align)
  {
    var k: nat :| k < 64 && align == Pow2(k);
    var w := WrappingAdd(start, align - 1);
    AndNotMask(w, k);
    if start + align - 1 <= U64_MAX {
      RoundDownOfSum(start, align);
    } else {
      DivModUnique(w, align, 0, w);
      OverTheTop(start, k);
    }
  }

  lemma RoundDownOfSum(start: nat, align: nat)
    requires align > 0
    ensures start + align - 1 - (start + align - 1) % align == AlignUp(start, align)
  {
    var a := AlignUp(start, align);
    AlignUpDivides(start, align);
    var q := a / align;
    assert a == q * align;
    DivModUnique(start + align - 1, align, q, start + align - 1 - a);
  }

  /** When adding the mask wraps, the next multiple of the alignment is `2^64`. */
  lemma OverTheTop(start: u64, k: nat)
    requires k < 64 && start + Pow2(k) - 1 > U64_MAX
    ensures AlignUp(start, Pow2(k)) > U64_MAX
  {
    Pow2Values();
    Pow2Add(64 - k, k);
    AlignUpDivides(start, Pow2(k));
    NextMultiple(AlignUp(start, Pow2(k)), Pow2(k), Pow2(64 - k));
  }

  lemma NextMultiple(a: nat, align: nat, n: nat)
    requires align > 0 && a % align == 0 && a > n * align - align
    ensures a >= n * align
  {
    var p := a / align;
    assert a == p * align;
    assert (n - p) * align == n * align - a;
    MulAtLeast(n - p, align);
  }

  // ----- the choice -----

  /** There is aligned room for `size` bytes in `e`. */
  predicate Fits(e: Range, size: u64, align: u64)
    requires align > 0
  {
    AlignUp(e.start, align) + size - 1 <= e.end
  }

  /** The end of a block placed at the start of `e` is not a 64-bit address. */
  predicate Overflows(e: Range, size: u64, align: u64)
    requires align > 0
  {
    AlignUp(e.start, align) + size - 1 > U64_MAX
  }

  /** There is aligned room for `size` bytes in the part of `e` that lies in the region `g`. */
  predicate FitsIn(e: Range, g: Range, size: u64, align: u64)
    requires align > 0
  {
    var o := Overlaps(e, g);
    o.Some? && Fits(o.value, size, align)
  }

  ghost predicate Prefers(e: Range, gs: seq<Range>, size: u64, align: u64)
    requires align > 0
  {
    exists j :: 0 <= j < |gs| && FitsIn(e, gs[j], size, align)
  }

  /** `s[i]` is the first entry with room in a preferred region, `gs[j]` the first such region. */
  ghost predicate FirstPreferred(s: seq<Range>, gs: seq<Range>, size: u64, align: u64, i: int, j: int)
    requires align > 0
  {
    && 0 <= i < |s| && 0 <= j < |gs|
    && FitsIn(s[i], gs[j], size, align)
    && (forall k :: 0 <= k < i ==> !Prefers(s[k], gs, size, align))
    && (forall k :: 0 <= k < j ==> !FitsIn(s[i], gs[k], size, align))
  }

  /** `s[i]` fits with the least front padding, the earliest such entry on ties. */
  ghost predicate LeastPadding(s: seq<Range>, size: u64, align: u64, i: int)
    requires align > 0
  {
    && 0 <= i < |s| && Fits(s[i], size, align)
    && (forall k :: 0 <= k < i && Fits(s[k], size, align) ==> Pad(s[i].start, align) < Pad(s[k].start, align))
    && (forall k :: i <= k < |s| && Fits(s[k], size, align) ==> Pad(s[i].start, align) <= Pad(s[k].start, align))
  }

  /** The search gives up at an entry near the top of the address space, unless it has already stopped
      at a preferred region. */
  ghost predicate Aborts(s: seq<Range>, gs: seq<Range>, size: u64, align: u64)
    requires align > 0
  {
    exists i :: 0 <= i < |s| && Overflows(s[i], size, align)
                && forall k :: 0 <= k < i ==> !Prefers(s[k], gs, size, align)
  }

  function PreferredChoice(e: Range, g: Range, size: u64, align: u64): Choice
    requires size > 0 && align > 0 && FitsIn(e, g, size, align)
  {
    var p := AlignUp(Overlaps(e, g).value.start, align);
    Choice(p, p + size - 1, p)
  }

  function PlainChoice(e: Range, size: u64, align: u64): Choice
    requires size > 0 && align > 0 && Fits(e, size, align)
  {
    var p := AlignUp(e.start, align);
    Choice(e.start, p + size - 1, p)
  }

  predicate ValidRequest(size: u64, align: u64) {
    size > 0 && CountOnes(align) == 1
  }

  ghost function Choose(s: seq<Range>, gs: seq<Range>, size: u64, align: u64): Option<Choice> {
    if !ValidRequest(size, align) then None
    else if Aborts(s, gs, size, align) then None
    else if exists i, j :: FirstPreferred(s, gs, size, align, i, j) then
      var i, j :| FirstPreferred(s, gs, size, align, i, j);
      Some(PreferredChoice(s[i], gs[j], size, align))
    else if exists i :: LeastPadding(s, size, align, i) then
      var i :| LeastPadding(s, size, align, i);
      Some(PlainChoice(s[i], size, align))
    else None
  }

  lemma FirstPreferredUnique(s: seq<Range>, gs: seq<Range>, size: u64, align: u64, i: int, j: int, i': int, j': int)
    requires align > 0
    requires FirstPreferred(s, gs, size, align, i, j) && FirstPreferred(s, gs, size, align, i', j')
    ensures i == i' && j == j'
  {
    assert Prefers(s[i], gs, size, align) && Prefers(s[i'], gs, size, align);
  }

  lemma PreferredNeverAborts(s: seq<Range>, gs: seq<Range>, size: u64, align: u64, i: nat, j: nat)
    requires Canonical(s) && align > 0 && FirstPreferred(s, gs, size, align, i, j)
    requires forall k :: 0 <= k < i ==> !Overflows(s[k], size, align)
    ensures !Aborts(s, gs, size, align)
  {
    PreferredFits(s[i], gs[j], size, align);
    assert Prefers(s[i], gs, size, align);
  }

  lemma ChoosePreferred(s: seq<Range>, gs: seq<Range>, size: u64, align: u64, i: nat, j: nat)
    requires Canonical(s) && ValidRequest(size, align) && FirstPreferred(s, gs, size, align, i, j)
    requires forall k :: 0 <= k < i ==> !Overflows(s[k], size, align)
    ensures Choose(s, gs, size, align) == Some(PreferredChoice(s[i], gs[j], size, align))
  {
    PreferredNeverAborts(s, gs, size, align, i, j);
    var i', j' :| FirstPreferred(s, gs, size, align, i', j')
                  && Choose(s, gs, size, align) == Some(PreferredChoice(s[i'], gs[j'], size, align));
    FirstPreferredUnique(s, gs, size, align, i, j, i', j');
  }

  lemma ChoosePlain(s: seq<Range>, gs: seq<Range>, size: u64, align: u64)
    requires ValidRequest(size, align)
    requires forall k :: 0 <= k < |s| ==> !Overflows(s[k], size, align) && !Prefers(s[k], gs, size, align)
    ensures forall i :: LeastPadding(s, size, align, i) ==>
              Choose(s, gs, size, align) == Some(PlainChoice(s[i], size, align))
    ensures (forall k :: 0 <= k < |s| ==> !Fits(s[k], size, align)) ==> Choose(s, gs, size, align) == None
  {
    if i, j :| FirstPreferred(s, gs, size, align, i, j) {
      assert Prefers(s[i], gs, size, align);
      assert false;
    }
    if i :| LeastPadding(s, size, align, i) {
      var i' :| LeastPadding(s, size, align, i')
                && Choose(s, gs, size, align) == Some(PlainChoice(s[i'], size, align));
      forall k | LeastPadding(s, size, align, k) ensures k == i' {
      }
    }
  }

  // ----- what the choice guarantees -----

  /** Room in a preferred region of an entry is room in the entry. */
  lemma PreferredFits(e: Range, g: Range, size: u64, align: u64)
    requires Shaped(e) && align > 0 && FitsIn(e, g, size, align)
    ensures Fits(e, size, align)
  {
    var o := Overlaps(e, g).value;
    assert Has(o, o.start) && Has(o, o.end);
    AlignUpMonotone(e.start, o.start, align);
  }

  lemma PreferredInRegion(e: Range, g: Range, size: u64, align: u64)
    requires size > 0 && align > 0 && FitsIn(e, g, size, align)
    ensures var c := PreferredChoice(e, g, size, align);
            c.base == c.ptr && LowToHigh(g).start <= c.base && c.end <= LowToHigh(g).end
  {
    var o := Overlaps(e, g).value;
    assert Has(o, o.start) && Has(o, o.end);
  }

  lemma PreferredIsFree(e: Range, g: Range, size: u64, align: u64)
    requires size > 0 && align > 0 && Shaped(e) && FitsIn(e, g, size, align)
    ensures var c := PreferredChoice(e, g, size, align);
            && c.ptr % align == 0 && c.end == c.ptr + size - 1 && c.base == c.ptr
            && e.start <= c.base && c.end <= e.end
  {
    var o := Overlaps(e, g).value;
    assert Has(o, o.start) && Has(o, o.end);
    AlignUpDivides(o.start, align);
  }

  lemma PlainIsFree(e: Range, size: u64, align: u64)
    requires size > 0 && align > 0 && Fits(e, size, align)
    ensures var c := PlainChoice(e, size, align);
            && c.ptr % align == 0 && c.end == c.ptr + size - 1 && c.base == e.start
            && c.base <= c.ptr && c.ptr - c.base < align && c.end <= e.end
  {
    AlignUpDivides(e.start, align);
  }

  /** A chosen block is aligned, has the requested size and lies, together with at most
      `align - 1` bytes in front of it, in one free entry. */
  lemma ChoiceIsFree(s: seq<Range>, gs: seq<Range>, size: u64, align: u64, c: Choice)
    requires Canonical(s) && Choose(s, gs, size, align) == Some(c)
    ensures align > 0 && c.ptr % align == 0 && c.end == c.ptr + size - 1
    ensures c.base <= c.ptr <= c.end && c.ptr - c.base < align
    ensures exists i :: 0 <= i < |s| && s[i].start <= c.base && c.end <= s[i].end
  {
    if exists i, j :: FirstPreferred(s, gs, size, align, i, j) {
      var i, j :| FirstPreferred(s, gs, size, align, i, j) && c == PreferredChoice(s[i], gs[j], size, align);
      PreferredIsFree(s[i], gs[j], size, align);
    } else {
      var i :| LeastPadding(s, size, align, i) && c == PlainChoice(s[i], size, align);
      PlainIsFree(s[i], size, align);
    }
  }

  lemma {:induction false} SomeFirstPreferred(s: seq<Range>, gs: seq<Range>, size: u64, align: u64, k: nat)
    returns (i: nat, j: nat)
    requires align > 0 && k < |s| && Prefers(s[k], gs, size, align)
    ensures FirstPreferred(s, gs, size, align, i, j)
  {
    if i' :| 0 <= i' < k && Prefers(s[i'], gs, size, align) {
      i, j := SomeFirstPreferred(s, gs, size, align, i');
    } else {
      i := k;
      var m :| 0 <= m < |gs| && FitsIn(s[k], gs[m], size, align);
      j := m;
      while exists n :: 0 <= n < j && FitsIn(s[k], gs[n], size, align)
        invariant 0 <= j < |gs| && FitsIn(s[k], gs[j], size, align)
        decreases j
      {
        var n :| 0 <= n < j && FitsIn(s[k], gs[n], size, align);
        j := n;
      }
    }
  }

  lemma {:induction false} SomeLeastPadding(s: seq<Range>, size: u64, align: u64, k: nat) returns (i: nat)
    requires align > 0 && k < |s| && Fits(s[k], size, align)
    ensures LeastPadding(s, size, align, i)
    decreases Pad(s[k].start, align), k
  {
    if i' :| 0 <= i' < |s| && Fits(s[i'], size, align) && Pad(s[i'].start, align) < Pad(s[k].start, align) {
      i := SomeLeastPadding(s, size, align, i');
    } else if i' :| 0 <= i' < k && Fits(s[i'], size, align) && Pad(s[i'].start, align) <= Pad(s[k].start, align) {
      i := SomeLeastPadding(s, size, align, i');
    } else {
      i := k;
    }
  }

  /** The request is refused exactly when it is invalid, when nothing fits, or when the search runs into
      an entry at the top of the address space first. */
  lemma ChooseNoneIff(s: seq<Range>, gs: seq<Range>, size: u64, align: u64)
    requires Canonical(s) && ValidRequest(size, align)
    ensures align > 0
    ensures Choose(s, gs, size, align) == None
       <==> Aborts(s, gs, size, align) || forall k :: 0 <= k < |s| ==> !Fits(s[k], size, align)
  {
    if k :| 0 <= k < |s| && Fits(s[k], size, align) {
      var i := SomeLeastPadding(s, size, align, k);
    } else if i, j :| FirstPreferred(s, gs, size, align, i, j) {
      PreferredFits(s[i], gs[j], size, align);
      assert false;
    }
  }

  /** Preference: if any free entry has aligned room inside a preferred region, the block handed out
      lies inside a preferred region and nothing else is taken. */
  lemma ChoicePrefersRegion(s: seq<Range>, gs: seq<Range>, size: u64, align: u64, c: Choice, k: nat)
    requires Choose(s, gs, size, align) == Some(c)
    requires k < |s| && Prefers(s[k], gs, size, align)
    ensures c.base == c.ptr
    ensures exists j :: 0 <= j < |gs| && LowToHigh(gs[j]).start <= c.base && c.end <= LowToHigh(gs[j]).end
  {
    var i0, j0 := SomeFirstPreferred(s, gs, size, align, k);
    var i, j :| FirstPreferred(s, gs, size, align, i, j) && c == PreferredChoice(s[i], gs[j], size, align);
    PreferredInRegion(s[i], gs[j], size, align);
  }

  /** Otherwise the block comes from the entry that wastes least on alignment, the earliest on ties. */
  lemma ChoiceWastesLeast(s: seq<Range>, gs: seq<Range>, size: u64, align: u64, c: Choice)
    requires Choose(s, gs, size, align) == Some(c)
    requires forall k :: 0 <= k < |s| ==> !Prefers(s[k], gs, size, align)
    ensures exists i :: LeastPadding(s, size, align, i) && c == PlainChoice(s[i], size, align)
  {
    if i, j :| FirstPreferred(s, gs, size, align, i, j) {
      assert Prefers(s[i], gs, size, align);
    }
  }

  /** The entry at the top of the address space makes the search give up although a later entry has
      room: the request for 16 bytes is refused with a whole free page in the list. */
  lemma AbortLosesFit()
    ensures var s := [Range(U64_MAX - 7, U64_MAX), Range(0, 4095)];
            Canonical(s) && ValidRequest(16, 1) && Fits(s[1], 16, 1) && Choose(s, [], 16, 1) == None
  {
    var s := [Range(U64_MAX - 7, U64_MAX), Range(0, 4095)];
    assert CountOnes(1) == 1 + CountOnes(0);
    assert Overflows(s[0], 16, 1);
  }
}
