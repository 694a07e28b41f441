/** The fixed-capacity set of `u64` ranges the kernel keeps physical memory in.

    A panic of the original is an out-parameter `ok == false`; each contract says exactly when it
    happens. */
module RangeSets {
  import opened Machine
  import opened Bits
  import opened Ranges
  import opened RangeSum
  import opened RangeChoice

  const CAPACITY: nat := 256

  /** How the subtraction loop goes on after one entry. */
  datatype Next = Continue | Restart | Panic

  class RangeSet {
    const ranges: array<Range>
    var in_use: nat

    ghost predicate Valid()
      reads this, ranges
    {
      ranges.Length == CAPACITY && in_use <= CAPACITY && Canonical(Entries())
    }

    ghost function Entries(): seq<Range>
      reads this, ranges
      requires in_use <= ranges.Length
    {
      ranges[..in_use]
    }

    constructor ()
      ensures Valid() && fresh(ranges)
      ensures Entries() == [] && Covered(Entries()) == {}
    {
      ranges := new Range[CAPACITY](_ => Range(0, 0));
      in_use := 0;
    }

    /** Drops entry `idx` by swapping it to the end of the used part. */
    method DeleteAt(idx: nat)
      requires ranges.Length == CAPACITY && idx < in_use <= CAPACITY
      modifies this, ranges
      ensures in_use == old(in_use) - 1
      ensures Entries() == Delete(old(Entries()), idx)
    {
      ghost var was := Entries();
      var ii := idx;
      while ii < in_use - 1
        invariant idx <= ii < in_use == |was|
        invariant forall k :: 0 <= k < idx ==> ranges[k] == was[k]
        invariant forall k :: idx <= k < ii ==> ranges[k] == was[k + 1]
        invariant ranges[ii] == was[idx]
        invariant forall k :: ii < k < in_use ==> ranges[k] == was[k]
      {
        ranges[ii], ranges[ii + 1] := ranges[ii + 1], ranges[ii];
        ii := ii + 1;
      }
      in_use := in_use - 1;
    }

    method Push(r: Range)
      requires ranges.Length == CAPACITY && in_use < CAPACITY
      modifies this, ranges
      ensures in_use == old(in_use) + 1
      ensures Entries() == old(Entries()) + [r]
    {
      ranges[in_use] := r;
      in_use := in_use + 1;
    }

    /** Adds a range, merging it with every entry it overlaps or touches.  The panics are an inverted
        range and a full table with nothing to merge. */
    method Insert(r: Range) returns (ok: bool)
      requires Valid()
      modifies this, ranges
      ensures ok <==> Shaped(r) && |Inserted(old(Entries()), r)| <= CAPACITY
      ensures ok ==> Valid() && Entries() == Inserted(old(Entries()), r)
      ensures ok ==> Covered(Entries()) == old(Covered(Entries())) + Interval(r)
    {
      if r.start > r.end {
        return false;
      }
      ghost var was := Entries();
      var range := r;
      label tryMerges:
      while true
        invariant Valid() && Shaped(range)
        invariant Inserted(Entries(), range) == Inserted(was, r)
        decreases in_use
      {
        var ii := 0;
        while ii < in_use
          invariant ii <= in_use
          invariant forall k :: 0 <= k < ii ==> !Touches(range, Entries()[k])
        {
          var ent := ranges[ii];
          if Touches(range, ent) {
            MergeStep(Entries(), range, ii);
            range := Hull(range, ent);
            DeleteAt(ii);
            continue tryMerges;
          }
          ii := ii + 1;
        }
        break;
      }
      NothingToMerge(Entries(), range);
      if in_use >= ranges.Length {
        return false;
      }
      InsertedCanonical(was, r);
      InsertedCovers(was, r);
      Push(range);
      return true;
    }

    /** One round of the subtraction loop: entry `ii` is kept, trimmed, deleted or split.  Deleting and
        splitting restart the scan; a split in a full table is a panic. */
    method Carve(ii: nat, r: Range) returns (next: Next)
      requires Valid() && ii < in_use && Shaped(r)
      modifies this, ranges
      ensures next == Panic <==> old(in_use) == CAPACITY && Splits(r, old(Entries()[ii]))
      ensures next != Panic ==> Valid() && Removed(Entries(), r) == Removed(old(Entries()), r)
      ensures next == Restart ==> MeetCount(Entries(), r) < MeetCount(old(Entries()), r)
      ensures next == Continue ==> in_use == old(in_use) && MeetCount(Entries(), r) <= MeetCount(old(Entries()), r)
      ensures next == Continue ==> !Meets(r, Entries()[ii])
      ensures next == Continue ==> forall k :: 0 <= k < ii ==> Entries()[k] == old(Entries()[k])
    {
      ghost var s := Entries();
      var ent := ranges[ii];
      if Overlaps(r, ent).None? {
        return Continue;
      }
      if Contains(ent, r) {
        DeleteStep(s, r, ii);
        DeleteAt(ii);
        return Restart;
      }
      if r.start <= ent.start {
        TrimStep(s, r, ii, Range(SaturatingInc(r.end), ent.end));
        ranges[ii] := ranges[ii].(start := SaturatingInc(r.end));
        assert Entries() == s[ii := Range(SaturatingInc(r.end), ent.end)];
        return Continue;
      } else if r.end >= ent.end {
        TrimStep(s, r, ii, Range(ent.start, SaturatingDec(r.start)));
        ranges[ii] := ranges[ii].(end := SaturatingDec(r.start));
        assert Entries() == s[ii := Range(ent.start, SaturatingDec(r.start))];
        return Continue;
      } else {
        SplitStep(s, r, ii);
        RemovedCanonical(s, r);
        ranges[ii] := ranges[ii].(start := SaturatingInc(r.end));
        if in_use >= ranges.Length {
          return Panic;
        }
        Push(Range(ent.start, SaturatingDec(r.start)));
        assert Entries() == SplitAt(s, r, ii);
        return Restart;
      }
    }

    /** Takes a range out of the set, trimming, deleting or splitting the entries it overlaps.  The
        panics are an inverted range and a split in a full table. */
    method Remove(r: Range) returns (ok: bool)
      requires Valid()
      modifies this, ranges
      ensures ok <==> Shaped(r) && |Removed(old(Entries()), r)| <= CAPACITY
      ensures ok ==> Valid() && Entries() == Removed(old(Entries()), r)
      ensures ok ==> Covered(Entries()) == old(Covered(Entries())) - Interval(r)
    {
      if r.start > r.end {
        return false;
      }
      ghost var was := Entries();
      label trySubtractions:
      while true
        invariant Valid() && Removed(Entries(), r) == Removed(was, r)
        decreases MeetCount(Entries(), r)
      {
        ghost var n := MeetCount(Entries(), r);
        var ii := 0;
        while ii < in_use
          invariant Valid() && ii <= in_use && Removed(Entries(), r) == Removed(was, r)
          invariant MeetCount(Entries(), r) <= n
          invariant forall k :: 0 <= k < ii ==> !Meets(r, Entries()[k])
        {
          ghost var before := Entries();
          var next := Carve(ii, r);
          if next == Panic {
            SplitStep(before, r, ii);
            return false;
          }
          if next == Restart {
            continue trySubtractions;
          }
          ii := ii + 1;
        }
        break;
      }
      NothingToRemove(Entries(), r);
      RemovedCanonical(was, r);
      RemovedCovers(was, r);
      return true;
    }

    /** Takes every range of `rs` out of the set. */
    method Subtract(rs: RangeSet) returns (ok: bool)
      requires Valid() && rs.Valid() && rs != this && rs.ranges != ranges
      modifies this, ranges
      ensures ok <==> StaysWithin(old(Entries()), rs.Entries(), |rs.Entries()|, CAPACITY)
      ensures ok ==> Valid() && Entries() == Subtracted(old(Entries()), rs.Entries())
      ensures ok ==> Covered(Entries()) == old(Covered(Entries())) - Covered(rs.Entries())
    {
      ghost var was, es := Entries(), rs.Entries();
      var i := 0;
      while i < rs.in_use
        invariant i <= rs.in_use && Valid() && rs.Entries() == es
        invariant Entries() == Subtracted(was, es[..i])
        invariant StaysWithin(was, es, i, CAPACITY)
      {
        SubtractedNext(was, es, i, CAPACITY);
        assert rs.ranges[i] == es[i];
        var done := Remove(rs.ranges[i]);
        if !done {
          return false;
        }
        i := i + 1;
      }
      assert es[..i] == es;
      SubtractedCovers(was, es);
      return true;
    }

    /** The number of addresses in the set, or nothing if it is the whole address space.  `acc` is a
        64-bit word: the unchecked addition never overflows. */
    method Sum() returns (r: Option<u64>)
      requires Valid()
      ensures r == None <==> Covered(Entries()) == Interval(EVERYTHING)
      ensures r.Some? ==> r.value == |Covered(Entries())|
    {
      var acc: u64 := 0;
      var i := 0;
      while i < in_use
        invariant i <= in_use
        invariant acc == Total(Entries()[..i])
        invariant forall k :: 0 <= k < i ==> Entries()[k] != EVERYTHING
      {
        var x := ranges[i];
        ghost var done := Entries()[..i + 1];
        assert done[..i] == Entries()[..i] && done[i] == x;
        TotalBound(done);
        if x.end - x.start == U64_MAX {
          FullEntryIsAlone(Entries(), i);
          TotalBound(Entries());
          return None;
        }
        acc := acc + (x.end - x.start + 1);
        i := i + 1;
      }
      assert Entries()[..i] == Entries();
      TotalBound(Entries());
      TotalIsCardinality(Entries());
      return Some(acc);
    }

    /** The first preferred region with aligned room inside `ent`. */
    static method FindPreferred(ent: Range, size: u64, align: u64, regions: RangeSet) returns (r: Option<Choice>)
      requires regions.Valid() && ValidRequest(size, align) && Shaped(ent)
      ensures r == None <==> !Prefers(ent, regions.Entries(), size, align)
      ensures r.Some? ==> exists j :: FirstPreferred([ent], regions.Entries(), size, align, 0, j)
                                      && r.value == PreferredChoice(ent, regions.Entries()[j], size, align)
    {
      CountOnesIffPow2(align);
      var alignmask := align - 1;
      var j := 0;
      while j < regions.in_use
        invariant j <= regions.in_use
        invariant forall k :: 0 <= k < j ==> !FitsIn(ent, regions.Entries()[k], size, align)
      {
        var region := regions.ranges[j];
        assert region == regions.Entries()[j];
        var o := Overlaps(ent, region);
        if o.Some? {
          var overlap := o.value;
          RoundUpGuard(overlap.start, align);
          var alignOverlap := And(WrappingAdd(overlap.start, alignmask), Not64(alignmask));
          if alignOverlap >= overlap.start && alignOverlap <= overlap.end && overlap.end - alignOverlap >= size - 1 {
            assert FitsIn(ent, region, size, align);
            assert FirstPreferred([ent], regions.Entries(), size, align, 0, j);
            return Some(Choice(alignOverlap, alignOverlap + (size - 1), alignOverlap));
          }
        }
        j := j + 1;
      }
      return None;
    }

    /** The bytes needed in front of a block at `start` to align it. */
    static method FrontPadding(start: u64, align: u64, alignmask: u64) returns (alignFix: u64)
      requires IsPow2(align) && alignmask == align - 1
      ensures align > 0 && alignFix == Pad(start, align)
    {
      AlignFixIsPad(start, align);
      alignFix := And(align - And(start, alignmask), alignmask);
    }

    /** Keeps the smaller of the best block so far and the block that ends at `end`. */
    static method KeepBest(allocation: Option<Choice>, ent: Range, end: u64, alignFix: u64, size: u64, align: u64)
      returns (r: Option<Choice>)
      requires size > 0 && align > 0 && alignFix == Pad(ent.start, align)
      requires end == ent.start + (size - 1) + alignFix <= ent.end
      ensures r == Better(ent, size, align, allocation)
    {
      var base := ent.start;
      if allocation.None? || allocation.value.end - allocation.value.base > end - base {
        return Some(Choice(base, end, base + alignFix));
      }
      return allocation;
    }

    ghost static function RegionEntries(regions: RangeSet?): seq<Range>
      requires regions != null ==> regions.Valid()
      reads regions, if regions == null then {} else {regions.ranges}
    {
      if regions == null then [] else regions.Entries()
    }

    /** Searches the entries for the block to hand out. */
    method Search(size: u64, align: u64, regions: RangeSet?) returns (allocation: Option<Choice>)
      requires Valid() && (regions != null ==> regions.Valid())
      ensures allocation == Choose(Entries(), RegionEntries(regions), size, align)
    {
      if size == 0 || CountOnes(align) != 1 {
        return None;
      }
      CountOnesIffPow2(align);
      var alignmask := align - 1;
      ghost var s, gs := Entries(), RegionEntries(regions);
      allocation := None;
      var i := 0;
      while i < in_use
        invariant i <= in_use == |s|
        invariant Passed(s, gs, size, align, i)
        invariant BestSoFar(s, size, align, i, allocation)
      {
        var ent := ranges[i];
        assert ent == s[i];
        var alignFix := FrontPadding(ent.start, align, alignmask);
        var base := ent.start;
        if base + (size - 1) > U64_MAX || base + (size - 1) + alignFix > U64_MAX {
          OverflowAborts(s, gs, size, align, i);
          return None;
        }
        var end := base + (size - 1) + alignFix;
        if end > ent.end {
          NotPreferred(ent, gs, size, align);
          SearchNext(s, gs, size, align, i, allocation);
          assert Better(ent, size, align, allocation) == allocation;
          i := i + 1;
          continue;
        }
        if regions != null {
          var preferred := FindPreferred(ent, size, align, regions);
          if preferred.Some? {
            PreferredFound(s, gs, size, align, i, preferred.value);
            return preferred;
          }
        }
        SearchNext(s, gs, size, align, i, allocation);
        allocation := KeepBest(allocation, ent, end, alignFix, size, align);
        i := i + 1;
      }
      ChooseBest(s, gs, size, align, allocation);
    }

    /** Takes `size` bytes aligned to `align` out of the set, inside one of `regions` if possible.
        The panic is a block cut out of the middle of an entry of a full table. */
    method AllocatePrefer(size: u64, align: u64, regions: RangeSet?) returns (ok: bool, r: Option<u64>)
      requires Valid()
      requires regions != null ==> regions.Valid() && regions != this && regions.ranges != ranges
      modifies this, ranges
      ensures ok ==> Valid()
      ensures ok ==> AllocStep(old(Entries()), old(RegionEntries(regions)), size, align, Entries(), r)
      ensures !ok ==> AllocPanics(old(Entries()), old(RegionEntries(regions)), size, align)
    {
      var allocation := Search(size, align, regions);
      match allocation
      case None =>
        return true, None;
      case Some(c) =>
        ChoiceIsFree(Entries(), RegionEntries(regions), size, align, c);
        ok := Remove(Range(c.base, c.end));
        return ok, Some(c.ptr);
    }

    /** Takes `size` bytes aligned to `align` from anywhere in the set; this never panics. */
    method Allocate(size: u64, align: u64) returns (r: Option<u64>)
      requires Valid()
      modifies this, ranges
      ensures Valid() && AllocStep(old(Entries()), [], size, align, Entries(), r)
    {
      ghost var was := Entries();
      if AllocPanics(was, [], size, align) {
        PlainNeverSplits(was, size, align);
      }
      var ok;
      ok, r := AllocatePrefer(size, align, null);
    }
  }

  /** One successful or refused allocation: what the list becomes and what the caller gets. */
  ghost predicate AllocStep(s: seq<Range>, gs: seq<Range>, size: u64, align: u64, s': seq<Range>, r: Option<u64>) {
    match Choose(s, gs, size, align)
    case None => s' == s && r == None
    case Some(c) => s' == Removed(s, Range(c.base, c.end)) && r == Some(c.ptr) && |s'| <= CAPACITY
  }

  ghost predicate AllocPanics(s: seq<Range>, gs: seq<Range>, size: u64, align: u64) {
    match Choose(s, gs, size, align)
    case None => false
    case Some(c) => |Removed(s, Range(c.base, c.end))| > CAPACITY
  }

  lemma NotPreferred(e: Range, gs: seq<Range>, size: u64, align: u64)
    requires Shaped(e) && align > 0 && !Fits(e, size, align)
    ensures !Prefers(e, gs, size, align)
  {
    forall j | 0 <= j < |gs| && FitsIn(e, gs[j], size, align) ensures false {
      PreferredFits(e, gs[j], size, align);
    }
  }

  /** The first `i` entries neither overflow nor have room in a preferred region. */
  ghost predicate Passed(s: seq<Range>, gs: seq<Range>, size: u64, align: u64, i: nat)
    requires align > 0 && i <= |s|
  {
    forall k :: 0 <= k < i ==> !Overflows(s[k], size, align) && !Prefers(s[k], gs, size, align)
  }

  /** The best block among the first `i` entries. */
  ghost predicate BestSoFar(s: seq<Range>, size: u64, align: u64, i: nat, c: Option<Choice>)
    requires size > 0 && align > 0 && i <= |s|
  {
    match c
    case None => forall k :: 0 <= k < i ==> !Fits(s[k], size, align)
    case Some(c) => exists b :: LeastPadding(s[..i], size, align, b) && c == PlainChoice(s[b], size, align)
  }

  /** One more entry: it replaces the best block so far exactly when it takes less room. */
  lemma BestNext(s: seq<Range>, size: u64, align: u64, i: nat, c: Option<Choice>)
    requires size > 0 && align > 0 && i < |s| && BestSoFar(s, size, align, i, c)
    ensures BestSoFar(s, size, align, i + 1, Better(s[i], size, align, c))
  {
    assert s[..i + 1] == s[..i] + [s[i]];
    if c.Some? {
      var b :| LeastPadding(s[..i], size, align, b) && c.value == PlainChoice(s[b], size, align);
      if Fits(s[i], size, align) && Pad(s[b].start, align) > Pad(s[i].start, align) {
        assert LeastPadding(s[..i + 1], size, align, i);
      } else {
        assert LeastPadding(s[..i + 1], size, align, b);
      }
    } else if Fits(s[i], size, align) {
      assert LeastPadding(s[..i + 1], size, align, i);
    }
  }

  /** The best block once entry `e` has been looked at. */
  function Better(e: Range, size: u64, align: u64, c: Option<Choice>): Option<Choice>
    requires size > 0 && align > 0
  {
    if !Fits(e, size, align) then c
    else
      var d := PlainChoice(e, size, align);
      if c == None || c.value.end - c.value.base > d.end - d.base then Some(d) else c
  }

  lemma SearchNext(s: seq<Range>, gs: seq<Range>, size: u64, align: u64, i: nat, c: Option<Choice>)
    requires size > 0 && align > 0 && i < |s| && Passed(s, gs, size, align, i) && BestSoFar(s, size, align, i, c)
    requires !Overflows(s[i], size, align) && !Prefers(s[i], gs, size, align)
    ensures Passed(s, gs, size, align, i + 1)
    ensures BestSoFar(s, size, align, i + 1, Better(s[i], size, align, c))
  {
    BestNext(s, size, align, i, c);
  }

  lemma OverflowAborts(s: seq<Range>, gs: seq<Range>, size: u64, align: u64, i: nat)
    requires ValidRequest(size, align) && i < |s| && Passed(s, gs, size, align, i) && Overflows(s[i], size, align)
    ensures Choose(s, gs, size, align) == None
  {
    assert Aborts(s, gs, size, align);
  }

  lemma PreferredFound(s: seq<Range>, gs: seq<Range>, size: u64, align: u64, i: nat, c: Choice)
    requires Canonical(s) && ValidRequest(size, align) && i < |s| && Passed(s, gs, size, align, i)
    requires exists j :: FirstPreferred([s[i]], gs, size, align, 0, j) && c == PreferredChoice(s[i], gs[j], size, align)
    ensures Choose(s, gs, size, align) == Some(c)
  {
    var j :| FirstPreferred([s[i]], gs, size, align, 0, j) && c == PreferredChoice(s[i], gs[j], size, align);
    assert [s[i]][0] == s[i];
    ChoosePreferred(s, gs, size, align, i, j);
  }

  lemma ChooseBest(s: seq<Range>, gs: seq<Range>, size: u64, align: u64, c: Option<Choice>)
    requires ValidRequest(size, align) && Passed(s, gs, size, align, |s|) && BestSoFar(s, size, align, |s|, c)
    ensures c == Choose(s, gs, size, align)
  {
    assert s[..|s|] == s;
    ChoosePlain(s, gs, size, align);
  }

  /** Without preferred regions the block starts where its entry starts, so nothing is ever split. */
  lemma PlainNeverSplits(s: seq<Range>, size: u64, align: u64)
    requires Canonical(s) && |s| <= CAPACITY
    ensures !AllocPanics(s, [], size, align)
  {
    if ValidRequest(size, align) {
      match Choose(s, [], size, align)
      case None =>
      case Some(c) =>
        ChoiceWastesLeast(s, [], size, align, c);
        var i :| LeastPadding(s, size, align, i) && c == PlainChoice(s[i], size, align);
        PlainIsFree(s[i], size, align);
        NoSplitNoGrowth(s, Range(c.base, c.end), i);
    }
  }

  lemma NoSplitNoGrowth(s: seq<Range>, r: Range, i: nat)
    requires Canonical(s) && Shaped(r) && i < |s| && s[i].start == r.start && r.end <= s[i].end
    ensures |Removed(s, r)| <= |s|
  {
    forall k | 0 <= k < |s| ensures !Splits(r, s[k]) {
      if k != i {
        DistinctApart(s, i, k);
      }
    }
    CutFree(s, r);
  }

  lemma {:induction false} CutFree(s: seq<Range>, r: Range)
    requires forall k :: 0 <= k < |s| ==> !Splits(r, s[k])
    ensures |Trims(s, r)| <= |s| && Cuts(s, r) == []
  {
    if s != [] {
      CutFree(s[1..], r);
    }
  }
}
