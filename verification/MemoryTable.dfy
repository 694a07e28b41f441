/** The boot memory map as a value: a table of typed regions, read as a map from frame number to type. */
module MemoryTable {
  import opened Machine

  const PAGE_SIZE: nat := 4096
  const MAX_MEMORY_MAP_SIZE: nat := 3840

  /** Frame numbers whose address is a 64-bit number. */
  const FRAME_LIMIT: nat := 0x10_0000_0000_0000

  datatype RegionType =
    | Usable | InUse | UsableButDangerous | Reserved | AcpiReclaimable | AcpiNvs | BadMemory | Kernel
    | KernelStack | PageTable | Bootloader | SmpTrampoline | FrameZero | Empty | BootInfo | Package
    | GuardPage | TSSstack | NonExhaustive

  /** The frames `start .. end`, the upper bound exclusive. */
  datatype Region = Region(start: nat, end: nat, kind: RegionType)

  const EMPTY := Region(0, 0, Empty)

  predicate IsEmpty(r: Region) { r.start == r.end }

  predicate Intersects(r: Region, addr: nat) {
    r.start * PAGE_SIZE <= addr < r.end * PAGE_SIZE
  }

  predicate HasFrame(r: Region, f: int) { r.start <= f < r.end }

  /** The first region of the table that contains the address. */
  function Lookup(t: seq<Region>, addr: nat): Option<Region> {
    if t == [] then None
    else if Intersects(t[0], addr) then Some(t[0])
    else Lookup(t[1..], addr)
  }

  /** The type of a frame, if the table knows it. */
  function TypeOf(t: seq<Region>, f: nat): Option<RegionType> {
    match Lookup(t, f * PAGE_SIZE)
    case Some(r) => Some(r.kind)
    case None => None
  }

  // ----- order -----

  /** The order of the sort: empty regions last, the others by start and then by end. */
  predicate Leq(a: Region, b: Region) {
    IsEmpty(b) || (!IsEmpty(a) && (a.start < b.start || (a.start == b.start && a.end <= b.end)))
  }

  ghost predicate Sorted(t: seq<Region>) {
    && (forall i :: 0 <= i < |t| ==> !IsEmpty(t[i]) && t[i].start < FRAME_LIMIT && t[i].end < FRAME_LIMIT)
    && (forall i, j :: 0 <= i < j < |t| ==> Leq(t[i], t[j]))
  }

  /** A sorted table of non-empty, pairwise disjoint regions. */
  ghost predicate Tidy(t: seq<Region>) {
    && (forall i :: 0 <= i < |t| ==> t[i].start < t[i].end < FRAME_LIMIT)
    && (forall i, j :: 0 <= i < j < |t| ==> t[i].end <= t[j].start)
  }

  lemma TidySorted(t: seq<Region>)
    requires Tidy(t)
    ensures Sorted(t)
  {
  }

  ghost predicate DistinctStarts(t: seq<Region>) {
    forall i, j :: 0 <= i < j < |t| ==> t[i].start < t[j].start
  }

  lemma MultisetTail(s: seq<Region>)
    requires s != []
    ensures multiset(s[1..]) == multiset(s) - multiset{s[0]}
  {
    assert s == [s[0]] + s[1..];
  }

  lemma SameHead(a: seq<Region>, b: seq<Region>)
    requires Sorted(a) && Sorted(b) && DistinctStarts(a) && a != [] && b != []
    requires a[0] in b && b[0] in a
    ensures a[0] == b[0]
  {
    var i :| 0 <= i < |b| && b[i] == a[0];
    var j :| 0 <= j < |a| && a[j] == b[0];
    assert i > 0 ==> Leq(b[0], b[i]);
  }

  lemma SortedTail(s: seq<Region>)
    requires Sorted(s) && s != []
    ensures Sorted(s[1..])
    ensures DistinctStarts(s) ==> DistinctStarts(s[1..])
  {
  }

  /** Two sorted tables with the same regions are the same table, provided no start occurs twice. */
  lemma {:induction false} SortedUnique(a: seq<Region>, b: seq<Region>)
    requires Sorted(a) && Sorted(b) && DistinctStarts(a) && multiset(a) == multiset(b)
    ensures a == b
  {
    assert |a| == |multiset(a)| == |multiset(b)| == |b|;
    if a != [] {
      assert a[0] in multiset(b) && b[0] in multiset(a);
      SameHead(a, b);
      MultisetTail(a);
      MultisetTail(b);
      SortedTail(a);
      SortedTail(b);
      SortedUnique(a[1..], b[1..]);
      HeadTail(a);
      HeadTail(b);
    }
  }

  lemma HeadTail(s: seq<Region>)
    requires s != []
    ensures s == [s[0]] + s[1..]
  {
  }

  // ----- lookup -----

  lemma FrameOfAddr(r: Region, addr: nat)
    ensures Intersects(r, addr) <==> HasFrame(r, addr / PAGE_SIZE)
  {
  }

  lemma {:induction false} LookupIn(t: seq<Region>, addr: nat)
    ensures Lookup(t, addr) == None <==> forall i :: 0 <= i < |t| ==> !Intersects(t[i], addr)
    ensures Lookup(t, addr).Some? ==> exists i :: IsFirstAt(t, addr, i) && t[i] == Lookup(t, addr).value
  {
    if t != [] {
      LookupIn(t[1..], addr);
      if Intersects(t[0], addr) {
        assert IsFirstAt(t, addr, 0);
      } else if Lookup(t, addr).Some? {
        var i :| IsFirstAt(t[1..], addr, i) && t[1..][i] == Lookup(t[1..], addr).value;
        assert IsFirstAt(t, addr, i + 1);
      }
    }
  }

  ghost predicate IsFirstAt(t: seq<Region>, addr: nat, i: int) {
    0 <= i < |t| && Intersects(t[i], addr) && forall k :: 0 <= k < i ==> !Intersects(t[k], addr)
  }

  /** In a tidy table a frame has the type of the region that contains it, wherever that region is. */
  lemma TypeOfMember(t: seq<Region>, f: nat, i: nat)
    requires Tidy(t) && i < |t| && HasFrame(t[i], f)
    ensures TypeOf(t, f) == Some(t[i].kind)
    ensures Lookup(t, f * PAGE_SIZE) == Some(t[i])
  {
    LookupIn(t, f * PAGE_SIZE);
    assert Intersects(t[i], f * PAGE_SIZE);
    var k :| IsFirstAt(t, f * PAGE_SIZE, k) && t[k] == Lookup(t, f * PAGE_SIZE).value;
  }

  lemma TypeOfNone(t: seq<Region>, f: nat)
    ensures TypeOf(t, f) == None <==> forall i :: 0 <= i < |t| ==> !HasFrame(t[i], f)
  {
    LookupIn(t, f * PAGE_SIZE);
    forall i | 0 <= i < |t| ensures Intersects(t[i], f * PAGE_SIZE) <==> HasFrame(t[i], f) {
      FrameOfAddr(t[i], f * PAGE_SIZE);
    }
  }

  // ----- partitioning -----

  datatype PartitionError =
    | NotSameRegion(region: Region, endRegion: Region)
    | AddrDoesNotExist
    | InvalidRegionType
    | AddrIsNotAligned(addr: nat)
    | RegionTypeIsNotUsable(region: Region)

  predicate IsUsable(kind: RegionType) { kind == Usable || kind == UsableButDangerous }

  /** Why a request is turned down, or the region it will be cut out of.  An end address of zero that
      gets past the first checks underflows. */
  datatype Verdict = Refused(error: PartitionError) | Granted(region: Region) | Underflow

  function Judge(t: seq<Region>, start: nat, end: nat, kind: RegionType): Verdict {
    if kind == Empty then Refused(InvalidRegionType)
    else if start % PAGE_SIZE != 0 then Refused(AddrIsNotAligned(start))
    else if end % PAGE_SIZE != 0 then Refused(AddrIsNotAligned(end))
    else if end == 0 then Underflow
    else
      var endRegion, region := Lookup(t, end - 1), Lookup(t, start);
      if endRegion.None? || region.None? then Refused(AddrDoesNotExist)
      else if region != endRegion then Refused(NotSameRegion(region.value, endRegion.value))
      else if !IsUsable(region.value.kind) then Refused(RegionTypeIsNotUsable(region.value))
      else Granted(region.value)
  }

  /** The regions below, inside and above the request. */
  function Pieces(r: Region, start: nat, end: nat, kind: RegionType): (p: seq<Region>)
    ensures |p| == 3
  {
    var low := Distance(r.start * PAGE_SIZE, start) < PAGE_SIZE;
    var high := Distance(r.end * PAGE_SIZE, end) < PAGE_SIZE;
    [ if low then EMPTY else Region(r.start, start / PAGE_SIZE, r.kind),
      Region(if low then r.start else start / PAGE_SIZE, if high then r.end else end / PAGE_SIZE, kind),
      if high then EMPTY else Region(end / PAGE_SIZE, r.end, r.kind)
    ]
  }

  /** The non-empty regions of a list, with multiplicity. */
  function Bag(s: seq<Region>): multiset<Region> {
    if s == [] then multiset{}
    else Bag(s[..|s| - 1]) + if IsEmpty(s[|s| - 1]) then multiset{} else multiset{s[|s| - 1]}
  }

  lemma {:induction false} BagCount(s: seq<Region>, x: Region)
    ensures Bag(s)[x] == if IsEmpty(x) then 0 else multiset(s)[x]
  {
    if s != [] {
      BagCount(s[..|s| - 1], x);
      assert s == s[..|s| - 1] + [s[|s| - 1]];
    }
  }

  lemma BagOfPermutation(s: seq<Region>, s': seq<Region>)
    requires multiset(s) == multiset(s')
    ensures Bag(s) == Bag(s')
  {
    forall x ensures Bag(s)[x] == Bag(s')[x] {
      BagCount(s, x);
      BagCount(s', x);
    }
  }

  lemma {:induction false} BagConcat(a: seq<Region>, b: seq<Region>)
    ensures Bag(a + b) == Bag(a) + Bag(b)
  {
    if b == [] {
      assert a + b == a;
    } else {
      BagConcat(a, b[..|b| - 1]);
      ConcatInit(a, b);
    }
  }

  lemma {:induction false} BagNoEmpties(s: seq<Region>)
    requires forall i :: 0 <= i < |s| ==> !IsEmpty(s[i])
    ensures Bag(s) == multiset(s)
  {
    if s != [] {
      BagNoEmpties(s[..|s| - 1]);
      assert s == s[..|s| - 1] + [s[|s| - 1]];
    }
  }

  lemma {:induction false} BagOnlyEmpties(s: seq<Region>)
    requires forall i :: 0 <= i < |s| ==> IsEmpty(s[i])
    ensures Bag(s) == multiset{}
  {
    if s != [] {
      BagOnlyEmpties(s[..|s| - 1]);
    }
  }

  /** A granted request replaces one region by its non-empty pieces; the table is sorted again. */
  ghost predicate PartitionStep(t: seq<Region>, start: nat, end: nat, kind: RegionType, t': seq<Region>) {
    && Judge(t, start, end, kind).Granted?
    && Sorted(t')
    && var r := Judge(t, start, end, kind).region;
       multiset(t') == multiset(t) - multiset{r} + Bag(Pieces(r, start, end, kind))
  }

  /** A table of `n` regions has room for the pieces, which are added one at a time. */
  predicate HasRoom(n: nat, p: seq<Region>)
    requires |p| == 3
  {
    var below := n - 1 + if p[0].kind == Empty then 0 else 1;
    var inside := below + if IsEmpty(p[1]) then 0 else 1;
    below < MAX_MEMORY_MAP_SIZE && (p[2].kind == Empty || inside < MAX_MEMORY_MAP_SIZE)
  }

  lemma GrantedFacts(t: seq<Region>, start: nat, end: nat, kind: RegionType)
    requires Sorted(t) && Judge(t, start, end, kind).Granted?
    ensures var r := Judge(t, start, end, kind).region;
            && r in t && IsUsable(r.kind) && start % PAGE_SIZE == 0 && end % PAGE_SIZE == 0
            && HasFrame(r, start / PAGE_SIZE) && HasFrame(r, end / PAGE_SIZE - 1)
  {
    LookupHolds(t, start);
    LookupHolds(t, end - 1);
    LastFrame(end);
  }

  lemma LookupHolds(t: seq<Region>, addr: nat)
    ensures Lookup(t, addr).Some? ==> Lookup(t, addr).value in t && HasFrame(Lookup(t, addr).value, addr / PAGE_SIZE)
  {
    LookupIn(t, addr);
    if Lookup(t, addr).Some? {
      FrameOfAddr(Lookup(t, addr).value, addr);
    }
  }

  lemma LastFrame(end: nat)
    requires end > 0 && end % PAGE_SIZE == 0
    ensures (end - 1) / PAGE_SIZE == end / PAGE_SIZE - 1
  {
  }

  /** The pieces in frame numbers. */
  lemma PiecesInFrames(r: Region, s: nat, e: nat, kind: RegionType)
    requires HasFrame(r, s) && HasFrame(r, e - 1) && e > 0
    ensures Pieces(r, s * PAGE_SIZE, e * PAGE_SIZE, kind) ==
            [ if r.start == s then EMPTY else Region(r.start, s, r.kind),
              Region(s, e, kind),
              if r.end == e then EMPTY else Region(e, r.end, r.kind) ]
  {
  }

  // ----- which requests are granted -----

  /** Region `k` holds the frame. */
  predicate HeldBy(t: seq<Region>, f: int, k: int) {
    0 <= k < |t| && t[k].start <= f < t[k].end
  }

  ghost predicate IsHeld(t: seq<Region>, f: int) { exists k :: HeldBy(t, f, k) }

  lemma LookupOfHolder(t: seq<Region>, addr: nat, k: int)
    requires Tidy(t) && HeldBy(t, addr / PAGE_SIZE, k)
    ensures Lookup(t, addr) == Some(t[k])
  {
    LookupIn(t, addr);
    FrameOfAddr(t[k], addr);
    assert Intersects(t[k], addr);
    var i :| IsFirstAt(t, addr, i) && t[i] == Lookup(t, addr).value;
    FrameOfAddr(t[i], addr);
  }

  lemma LookupOfNobody(t: seq<Region>, addr: nat)
    requires !IsHeld(t, addr / PAGE_SIZE)
    ensures Lookup(t, addr) == None
  {
    LookupIn(t, addr);
    forall i | 0 <= i < |t| ensures !Intersects(t[i], addr) {
      FrameOfAddr(t[i], addr);
      assert !HeldBy(t, addr / PAGE_SIZE, i);
    }
  }

  /** The answer to a well-formed request, told from the regions of a tidy map: it depends on which regions hold
      the first frame and the last. */
  lemma JudgeByHolders(t: seq<Region>, start: nat, end: nat, kind: RegionType)
    requires Tidy(t) && kind != Empty && start % PAGE_SIZE == 0 && end % PAGE_SIZE == 0 && end > 0
    ensures Judge(t, start, end, kind) == Refused(AddrDoesNotExist)
       <==> !IsHeld(t, start / PAGE_SIZE) || !IsHeld(t, end / PAGE_SIZE - 1)
    ensures forall i, j :: HeldBy(t, start / PAGE_SIZE, i) && HeldBy(t, end / PAGE_SIZE - 1, j) ==>
              Judge(t, start, end, kind) ==
              if i != j then Refused(NotSameRegion(t[i], t[j]))
              else if t[i].kind == Usable || t[i].kind == UsableButDangerous then Granted(t[i])
              else Refused(RegionTypeIsNotUsable(t[i]))
  {
    LastFrame(end);
    if !IsHeld(t, start / PAGE_SIZE) {
      LookupOfNobody(t, start);
    }
    if !IsHeld(t, end / PAGE_SIZE - 1) {
      LookupOfNobody(t, end - 1);
    }
    forall i, j | HeldBy(t, start / PAGE_SIZE, i) && HeldBy(t, end / PAGE_SIZE - 1, j)
      ensures Lookup(t, start) == Some(t[i]) && Lookup(t, end - 1) == Some(t[j]) && (i != j ==> t[i] != t[j])
    {
      LookupOfHolder(t, start, i);
      LookupOfHolder(t, end - 1, j);
    }
  }

  /** A malformed request is turned down for its type, its start or its end, in this order; an end of zero
      underflows. */
  lemma JudgeMalformed(t: seq<Region>, start: nat, end: nat, kind: RegionType)
    ensures kind == Empty ==> Judge(t, start, end, kind) == Refused(InvalidRegionType)
    ensures kind != Empty && start % PAGE_SIZE != 0 ==> Judge(t, start, end, kind) == Refused(AddrIsNotAligned(start))
    ensures kind != Empty && start % PAGE_SIZE == 0 && end % PAGE_SIZE != 0 ==>
              Judge(t, start, end, kind) == Refused(AddrIsNotAligned(end))
    ensures kind != Empty && start % PAGE_SIZE == 0 && end == 0 ==> Judge(t, start, end, kind) == Underflow
  {
  }

  /** The addresses `start .. end` lie inside region `k`. */
  predicate Encloses(t: seq<Region>, start: nat, end: nat, k: int) {
    0 <= k < |t| && t[k].start * PAGE_SIZE <= start && end <= t[k].end * PAGE_SIZE
  }

  /** A well-formed request for some frames is granted exactly when it lies inside one region that is usable, be it
      dangerous or not. */
  lemma GrantedIff(t: seq<Region>, start: nat, end: nat, kind: RegionType)
    requires Tidy(t) && kind != Empty && start % PAGE_SIZE == 0 && end % PAGE_SIZE == 0 && start < end
    ensures Judge(t, start, end, kind).Granted?
       <==> exists k :: Encloses(t, start, end, k) && (t[k].kind == Usable || t[k].kind == UsableButDangerous)
  {
    JudgeByHolders(t, start, end, kind);
    forall k ensures Encloses(t, start, end, k) <==>
                     HeldBy(t, start / PAGE_SIZE, k) && HeldBy(t, end / PAGE_SIZE - 1, k)
    {
      EnclosesIff(t, start, end, k);
    }
    if Judge(t, start, end, kind).Granted? {
      var i :| HeldBy(t, start / PAGE_SIZE, i);
      var j :| HeldBy(t, end / PAGE_SIZE - 1, j);
      assert Encloses(t, start, end, i);
    }
  }

  lemma EnclosesIff(t: seq<Region>, start: nat, end: nat, k: int)
    requires start % PAGE_SIZE == 0 && end % PAGE_SIZE == 0 && start < end
    ensures Encloses(t, start, end, k) <==> HeldBy(t, start / PAGE_SIZE, k) && HeldBy(t, end / PAGE_SIZE - 1, k)
  {
  }
}
