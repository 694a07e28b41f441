/** The fixed-size memory map of the bootloader, updated in place. */
module MemoryMaps {
  import opened Machine
  import opened MemoryTable

  /** The result of a partition call; running out of table space or an end address of zero is a panic. */
  datatype Outcome = Done(pieces: seq<Region>) | Failed(error: PartitionError) | Panicked

  /** Every frame number has a 64-bit address. */
  ghost predicate WithinLimits(s: seq<Region>) {
    forall k :: 0 <= k < |s| ==> s[k].start < FRAME_LIMIT && s[k].end < FRAME_LIMIT
  }

  ghost predicate HasEmpty(s: seq<Region>) {
    exists k :: 0 <= k < |s| && IsEmpty(s[k])
  }

  ghost predicate SortedArray(s: seq<Region>) {
    forall i, j :: 0 <= i < j < |s| ==> Leq(s[i], s[j])
  }

  method Swap(a: array<Region>, j: nat)
    requires 0 < j < a.Length
    modifies a
    ensures a[..] == old(a[..])[j - 1 := old(a[j])][j := old(a[j - 1])]
    ensures multiset(a[..]) == multiset(old(a[..]))
  {
    a[j - 1], a[j] := a[j], a[j - 1];
  }

  /** Stands for the library sort: nothing but its contract is used.  The comparator of the original calls
      each of two empty regions greater than the other, so their order among themselves is left open. */
  method SortUnstable(a: array<Region>)
    modifies a
    ensures multiset(a[..]) == multiset(old(a[..]))
    ensures SortedArray(a[..])
  {
    var i := 0;
    while i < a.Length
      invariant i <= a.Length && multiset(a[..]) == multiset(old(a[..]))
      invariant SortedArray(a[..i])
    {
      var j := i;
      while j > 0 && !Leq(a[j - 1], a[j])
        invariant j <= i < a.Length && multiset(a[..]) == multiset(old(a[..]))
        invariant forall p, q :: 0 <= p < q <= i && q != j ==> Leq(a[p], a[q])
        invariant forall q :: j < q <= i ==> Leq(a[j], a[q])
      {
        Swap(a, j);
        j := j - 1;
      }
      i := i + 1;
    }
    assert a[..a.Length] == a[..];
  }

  /** The position of the first empty region, or the length of the array. */
  method FirstEmpty(a: array<Region>) returns (i: nat)
    requires SortedArray(a[..])
    ensures i <= a.Length && forall k :: 0 <= k < i ==> !IsEmpty(a[k])
    ensures forall k :: i <= k < a.Length ==> IsEmpty(a[k])
  {
    i := 0;
    while i < a.Length && !IsEmpty(a[i])
      invariant i <= a.Length
      invariant forall k :: 0 <= k < i ==> !IsEmpty(a[k])
    {
      i := i + 1;
    }
    if i < a.Length {
      EmptiesLast(a[..], i);
    }
  }

  class MemoryMap {
    const entries: array<Region>
    var nextEntryIndex: nat

    /** The used part is sorted, everything behind it is an empty region. */
    ghost predicate Valid()
      reads this, entries
    {
      && entries.Length == MAX_MEMORY_MAP_SIZE
      && nextEntryIndex <= MAX_MEMORY_MAP_SIZE
      && Sorted(Table())
      && WithinLimits(entries[..])
      && forall k :: nextEntryIndex <= k < MAX_MEMORY_MAP_SIZE ==> IsEmpty(entries[k])
    }

    ghost function Table(): seq<Region>
      reads this, entries
      requires nextEntryIndex <= entries.Length
    {
      entries[..nextEntryIndex]
    }

    constructor ()
      ensures Valid() && fresh(entries) && Table() == []
    {
      entries := new Region[MAX_MEMORY_MAP_SIZE](_ => EMPTY);
      nextEntryIndex := 0;
    }

    method GetRegionByAddr(addr: nat) returns (r: Option<Region>)
      requires Valid()
      ensures r == Lookup(Table(), addr)
    {
      var i := 0;
      while i < nextEntryIndex
        invariant i <= nextEntryIndex
        invariant Lookup(Table(), addr) == Lookup(Table()[i..], addr)
      {
        assert Table()[i..][1..] == Table()[i + 1..];
        if Intersects(entries[i], addr) {
          return Some(entries[i]);
        }
        i := i + 1;
      }
      return None;
    }

    /** Sorts the whole array and moves the end of the table to the first empty region. */
    method Sort()
      requires entries.Length == MAX_MEMORY_MAP_SIZE
      requires WithinLimits(entries[..])
      requires nextEntryIndex == MAX_MEMORY_MAP_SIZE || HasEmpty(entries[..])
      modifies this, entries
      ensures Valid()
      ensures multiset(Table()) == Bag(old(entries[..]))
    {
      ghost var was := entries[..];
      SortUnstable(entries);
      BagOfPermutation(was, entries[..]);
      PermutationLimits(was, entries[..]);
      var i := FirstEmpty(entries);
      if i < entries.Length {
        nextEntryIndex := i;
      }
      SplitBag(entries[..], i);
      SortedPrefix(entries[..], i);
    }

    /** Blanks entry `i` of the table and sorts it away. */
    method Blank(i: nat)
      requires Valid() && i < nextEntryIndex
      modifies this, entries
      ensures Valid()
      ensures multiset(Table()) == multiset(old(Table())) - multiset{old(Table())[i]}
    {
      ghost var was := entries[..];
      ReplaceByEmpty(was, nextEntryIndex, i);
      entries[i] := EMPTY;
      nextEntryIndex := nextEntryIndex - 1;
      assert entries[..] == was[i := EMPTY] && IsEmpty(was[i := EMPTY][i]);
      Sort();
    }

    /** Removes the first entry equal to `region`. */
    method RemoveRegion(region: Region) returns (ok: bool)
      requires Valid()
      modifies this, entries
      ensures Valid()
      ensures ok <==> region in old(Table())
      ensures ok ==> multiset(Table()) == multiset(old(Table())) - multiset{region}
      ensures !ok ==> Table() == old(Table())
    {
      ghost var t := Table();
      var i := 0;
      while i < nextEntryIndex && entries[i] != region
        invariant i <= nextEntryIndex
        invariant forall k :: 0 <= k < i ==> t[k] != region
      {
        i := i + 1;
      }
      if i == nextEntryIndex {
        return false;
      }
      assert t[i] == region;
      Blank(i);
      return true;
    }

    /** Adds a region; a full table is a panic. */
    method AddRegion(region: Region) returns (ok: bool)
      requires Valid() && region.start < FRAME_LIMIT && region.end < FRAME_LIMIT
      modifies this, entries
      ensures ok <==> old(nextEntryIndex) < MAX_MEMORY_MAP_SIZE
      ensures ok ==> Valid() && multiset(Table()) == multiset(old(Table())) + Bag([region])
    {
      if nextEntryIndex >= MAX_MEMORY_MAP_SIZE {
        return false;
      }
      ghost var was, n := entries[..], nextEntryIndex;
      entries[nextEntryIndex] := region;
      AppendRegion(was, n, region);
      nextEntryIndex := nextEntryIndex + 1;
      assert entries[..] == was[n := region];
      assert n + 1 < MAX_MEMORY_MAP_SIZE ==> IsEmpty(entries[..][n + 1]);
      Sort();
      return true;
    }

    /** Adds a piece unless it is of type `Empty`. */
    method AddPiece(p: Region) returns (ok: bool)
      requires Valid() && p.start < FRAME_LIMIT && p.end < FRAME_LIMIT && (p.kind == Empty ==> IsEmpty(p))
      modifies this, entries
      ensures ok <==> p.kind == Empty || old(nextEntryIndex) < MAX_MEMORY_MAP_SIZE
      ensures ok ==> Valid() && multiset(Table()) == multiset(old(Table())) + Bag([p])
      ensures ok ==> nextEntryIndex == old(nextEntryIndex) + if IsEmpty(p) then 0 else 1
    {
      ghost var t := Table();
      if p.kind == Empty {
        BagOnlyEmpties([p]);
        return true;
      }
      ok := AddRegion(p);
      if ok {
        TableSize(t, Table(), p);
      }
    }

    method AddPieces(p: seq<Region>) returns (ok: bool)
      requires Valid() && |p| == 3 && WithinLimits(p)
      requires forall i :: 0 <= i < 3 && p[i].kind == Empty ==> IsEmpty(p[i])
      requires p[0].kind != Empty ==> !IsEmpty(p[0])
      requires p[1].kind != Empty && nextEntryIndex < MAX_MEMORY_MAP_SIZE
      modifies this, entries
      ensures ok <==> HasRoom(old(nextEntryIndex) + 1, p)
      ensures ok ==> Valid() && multiset(Table()) == multiset(old(Table())) + Bag([p[0]]) + Bag([p[1]]) + Bag([p[2]])
    {
      ghost var n := nextEntryIndex;
      var p0, p1, p2 := p[0], p[1], p[2];
      ok := AddPiece(p0);
      assert nextEntryIndex == n + if p0.kind == Empty then 0 else 1;
      ok := AddPiece(p1);
      if ok {
        ok := AddPiece(p2);
      }
    }

    /** The checks made before anything is changed. */
    method Examine(start: u64, end: u64, kind: RegionType) returns (v: Verdict)
      requires Valid()
      ensures v == Judge(Table(), start, end, kind)
    {
      if kind == Empty {
        return Refused(InvalidRegionType);
      }
      if start % PAGE_SIZE != 0 {
        return Refused(AddrIsNotAligned(start));
      }
      if end % PAGE_SIZE != 0 {
        return Refused(AddrIsNotAligned(end));
      }
      if end == 0 {
        return Underflow;
      }
      var endRegion := GetRegionByAddr(end - 1);
      if endRegion.None? {
        return Refused(AddrDoesNotExist);
      }
      var region := GetRegionByAddr(start);
      if region.None? {
        return Refused(AddrDoesNotExist);
      }
      if region != endRegion {
        return Refused(NotSameRegion(region.value, endRegion.value));
      }
      var memType := region.value.kind;
      if memType != Usable && memType != UsableButDangerous {
        return Refused(RegionTypeIsNotUsable(region.value));
      }
      return Granted(region.value);
    }

    /** Changes the type of `start .. end` inside one usable region. */
    method PartitionMemoryRegion(start: u64, end: u64, kind: RegionType) returns (r: Outcome)
      requires Valid()
      modifies this, entries
      ensures PartitionOutcome(old(Table()), start, end, kind, r)
      ensures r.Failed? ==> Valid() && Table() == old(Table())
      ensures r.Done? ==> Valid() && PartitionStep(old(Table()), start, end, kind, Table())
    {
      var verdict := Examine(start, end, kind);
      match verdict
      case Refused(e) =>
        return Failed(e);
      case Underflow =>
        return Panicked;
      case Granted(region) =>
        var p := Pieces(region, start, end, kind);
        PiecesFacts(Table(), start, end, kind);
        RemovedSize(Table(), region);
        var found := RemoveRegion(region);
        assert nextEntryIndex == |Table()| == |multiset(Table())|;
        BagSum(multiset(Table()), p);
        var ok := AddPieces(p);
        return if ok then Done(p) else Panicked;
    }
  }

  /** What a partition call returns. */
  ghost predicate PartitionOutcome(t: seq<Region>, start: u64, end: u64, kind: RegionType, r: Outcome) {
    match Judge(t, start, end, kind)
    case Refused(e) => r == Failed(e)
    case Underflow => r == Panicked
    case Granted(region) =>
      var p := Pieces(region, start, end, kind);
      r == if HasRoom(|t|, p) then Done(p) else Panicked
  }

  lemma BagSum(m: multiset<Region>, p: seq<Region>)
    requires |p| == 3
    ensures m + Bag([p[0]]) + Bag([p[1]]) + Bag([p[2]]) == m + Bag(p)
  {
    assert p == [p[0]] + [p[1]] + [p[2]];
    BagConcat([p[0]] + [p[1]], [p[2]]);
    BagConcat([p[0]], [p[1]]);
  }

  lemma TableSize(t: seq<Region>, t': seq<Region>, r: Region)
    requires multiset(t') == multiset(t) + Bag([r])
    ensures |t'| == |t| + if IsEmpty(r) then 0 else 1
  {
    assert Bag([r]) == Bag([]) + if IsEmpty(r) then multiset{} else multiset{r};
    assert |multiset(t')| == |t'| && |multiset(t)| == |t|;
  }

  lemma RemovedSize(t: seq<Region>, r: Region)
    requires r in t
    ensures |multiset(t) - multiset{r}| == |t| - 1
  {
    assert multiset(t) == multiset(t) - multiset{r} + multiset{r};
    assert |multiset(t)| == |t|;
  }

  lemma PiecesFacts(t: seq<Region>, start: nat, end: nat, kind: RegionType)
    requires Sorted(t) && Judge(t, start, end, kind).Granted?
    ensures var r := Judge(t, start, end, kind).region;
            var p := Pieces(r, start, end, kind);
            && r in t && WithinLimits(p) && p[1].kind != Empty
            && (forall i :: 0 <= i < 3 && p[i].kind == Empty ==> IsEmpty(p[i]))
            && (p[0].kind != Empty ==> !IsEmpty(p[0]))
  {
    GrantedFacts(t, start, end, kind);
    PiecesInFrames(Judge(t, start, end, kind).region, start / PAGE_SIZE, end / PAGE_SIZE, kind);
  }

  lemma PermutationLimits(s: seq<Region>, s': seq<Region>)
    requires multiset(s) == multiset(s') && WithinLimits(s)
    ensures WithinLimits(s')
    ensures HasEmpty(s) ==> HasEmpty(s')
  {
    forall k | 0 <= k < |s'| ensures s'[k].start < FRAME_LIMIT && s'[k].end < FRAME_LIMIT {
      assert s'[k] in multiset(s);
    }
    if HasEmpty(s) {
      var k :| 0 <= k < |s| && IsEmpty(s[k]);
      assert s[k] in multiset(s');
    }
  }

  lemma SortedPrefix(s: seq<Region>, i: nat)
    requires SortedArray(s) && WithinLimits(s) && i <= |s| && forall k :: 0 <= k < i ==> !IsEmpty(s[k])
    ensures Sorted(s[..i])
  {
  }

  lemma EmptiesLast(s: seq<Region>, i: nat)
    requires i < |s| && SortedArray(s) && IsEmpty(s[i])
    ensures forall k :: i <= k < |s| ==> IsEmpty(s[k])
  {
    assert forall k :: i < k < |s| ==> Leq(s[i], s[k]);
  }

  lemma SplitBag(s: seq<Region>, i: nat)
    requires i <= |s| && (forall k :: 0 <= k < i ==> !IsEmpty(s[k])) && forall k :: i <= k < |s| ==> IsEmpty(s[k])
    ensures multiset(s[..i]) == Bag(s)
  {
    BagNoEmpties(s[..i]);
    BagOnlyEmpties(s[i..]);
    BagConcat(s[..i], s[i..]);
    assert s == s[..i] + s[i..];
  }

  /** The array `s` with `n` used entries: blanking a used entry takes it out of the bag. */
  lemma ReplaceByEmpty(s: seq<Region>, n: nat, i: nat)
    requires i < n <= |s| && (forall k :: 0 <= k < n ==> !IsEmpty(s[k])) && forall k :: n <= k < |s| ==> IsEmpty(s[k])
    ensures Bag(s[i := EMPTY]) == multiset(s[..n]) - multiset{s[i]}
  {
    var a, b, c := s[..i], s[i + 1..n], s[n..];
    assert s[i := EMPTY] == a + [EMPTY] + b + c;
    assert s[..n] == a + [s[i]] + b;
    BagConcat(a + [EMPTY] + b, c);
    BagConcat(a + [EMPTY], b);
    BagConcat(a, [EMPTY]);
    BagOnlyEmpties(c);
    BagOnlyEmpties([EMPTY]);
    BagNoEmpties(a);
    BagNoEmpties(b);
  }

  lemma AppendRegion(s: seq<Region>, n: nat, r: Region)
    requires n < |s| && (forall k :: 0 <= k < n ==> !IsEmpty(s[k])) && forall k :: n <= k < |s| ==> IsEmpty(s[k])
    ensures Bag(s[n := r]) == multiset(s[..n]) + Bag([r])
  {
    var a, c := s[..n], s[n + 1..];
    assert s[n := r] == a + [r] + c;
    BagConcat(a + [r], c);
    BagConcat(a, [r]);
    BagOnlyEmpties(c);
    BagNoEmpties(a);
  }
}
