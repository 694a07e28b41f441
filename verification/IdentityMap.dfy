/** The identity page tables of the bootloader, as values, and what the walk makes of them. */
module IdentityMap {
  import opened Machine
  import opened Bits
  import opened PageEntries
  import opened MemoryTable

  const ONE_MEG: nat := 0x10_0000
  const VGA: nat := 0xb8000

  const TABLE_FLAGS: u64 := 0x3
  const HUGE_WRITABLE: u64 := 0x83
  const HUGE_READABLE: u64 := 0x8000_0000_0000_0091
  const PAGE_READABLE: u64 := 0x1
  const PAGE_DATA: u64 := 0x8000_0000_0000_0001
  const PAGE_DEVICE: u64 := 0x8000_0000_0000_0011
  const PAGE_VGA: u64 := 0x8000_0000_0000_0013

  lemma FlagPowers()
    ensures Pow2(1) == WRITABLE && Pow2(4) == NO_CACHE && Pow2(7) == HUGE_PAGE && Pow2(63) == NO_EXECUTE
  {
    Pow2Values();
  }

  /** The flag words are the disjunctions written in the code. */
  lemma TableFlagWord()
    ensures TABLE_FLAGS == Or(PRESENT, WRITABLE)
  {
    FlagPowers();
    SetBit(PRESENT, 1, WRITABLE);
  }

  lemma HugeFlagWords()
    ensures HUGE_WRITABLE == Or(Or(PRESENT, WRITABLE), HUGE_PAGE)
    ensures HUGE_READABLE == Or(Or(Or(PRESENT, HUGE_PAGE), NO_EXECUTE), NO_CACHE)
  {
    FlagPowers();
    TableFlagWord();
    SetBit(TABLE_FLAGS, 7, HUGE_PAGE);
    SetBit(PRESENT, 7, HUGE_PAGE);
    SetBit(0x81, 63, NO_EXECUTE);
    SetBit(0x8000_0000_0000_0081, 4, NO_CACHE);
  }

  lemma PageFlagWords()
    ensures PAGE_DATA == Or(PRESENT, NO_EXECUTE)
    ensures PAGE_DEVICE == Or(Or(PRESENT, NO_EXECUTE), NO_CACHE)
  {
    FlagPowers();
    SetBit(PRESENT, 63, NO_EXECUTE);
    SetBit(PAGE_DATA, 4, NO_CACHE);
  }

  lemma VgaFlagWord()
    ensures PAGE_VGA == Or(Or(Or(PRESENT, WRITABLE), NO_CACHE), NO_EXECUTE)
  {
    FlagPowers();
    TableFlagWord();
    SetBit(TABLE_FLAGS, 4, NO_CACHE);
    SetBit(0x13, 63, NO_EXECUTE);
  }

  /** Bit `k`, whose value is `p`, is set in a flag word. */
  predicate HasFlag(flags: u64, p: u64)
    requires p > 0
  {
    flags % (2 * p) != flags % p
  }

  /** The word of a present page with these rights and no other bit set, bit by bit. */
  function FlagWord(r: PageRights): u64 {
    0x1 + (if r.writable then 0x2 else 0) + (if r.noCache then 0x10 else 0) + (if r.huge then 0x80 else 0)
    + (if r.noExecute then 0x8000_0000_0000_0000 else 0)
  }

  datatype PageRights = PageRights(huge: bool, writable: bool, noExecute: bool, noCache: bool)

  lemma FlagWordFlags(r: PageRights)
    ensures FlagBits(FlagWord(r)) && HasFlag(FlagWord(r), PRESENT)
    ensures HasFlag(FlagWord(r), HUGE_PAGE) <==> r.huge
    ensures HasFlag(FlagWord(r), WRITABLE) <==> r.writable
    ensures HasFlag(FlagWord(r), NO_EXECUTE) <==> r.noExecute
    ensures HasFlag(FlagWord(r), NO_CACHE) <==> r.noCache
  {
  }

  lemma FlagWordBits(r: PageRights)
    ensures Bit(FlagWord(r), 0) && (Bit(FlagWord(r), 7) <==> r.huge) && (Bit(FlagWord(r), 1) <==> r.writable)
    ensures (Bit(FlagWord(r), 63) <==> r.noExecute) && (Bit(FlagWord(r), 4) <==> r.noCache)
  {
    var flags := FlagWord(r);
    FlagWordFlags(r);
    FlagPowers();
    assert Pow2(0) == PRESENT;
    BitByRemainder(flags, 0, PRESENT);
    BitByRemainder(flags, 1, WRITABLE);
    BitByRemainder(flags, 4, NO_CACHE);
    BitByRemainder(flags, 7, HUGE_PAGE);
    BitByRemainder(flags, 63, NO_EXECUTE);
  }

  // ----- the tables -----

  const TABLE_RIGHTS := PageRights(false, true, false, false)

  lemma TableGrants()
    ensures TABLE_FLAGS == FlagWord(TABLE_RIGHTS) && FlagBits(TABLE_FLAGS)
  {
    FlagWordFlags(TABLE_RIGHTS);
  }

  function TableEntry(addr: nat): u64
    requires Mappable(addr)
  {
    TableGrants();
    Entry(addr, TABLE_FLAGS)
  }

  predicate UsableAt(t: seq<Region>, addr: nat) {
    match Lookup(t, addr)
    case Some(r) => r.kind == Usable
    case None => false
  }

  /** The flags of a 2 MiB page: writable if its first byte is usable memory. */
  function HugeFlags(t: seq<Region>, addr: nat): u64 {
    match Lookup(t, addr)
    case Some(r) => if r.kind == Usable then HUGE_WRITABLE else HUGE_READABLE
    case None => HUGE_READABLE
  }

  /** A 2 MiB page may be written and executed, and is cached, exactly when it starts in usable memory. */
  function HugeRights(t: seq<Region>, addr: nat): PageRights {
    var usable := UsableAt(t, addr);
    PageRights(true, usable, !usable, !usable)
  }

  lemma HugeGrants(t: seq<Region>, addr: nat)
    ensures HugeFlags(t, addr) == FlagWord(HugeRights(t, addr)) && FlagBits(HugeFlags(t, addr))
  {
    FlagWordFlags(HugeRights(t, addr));
  }

  function HugeEntry(t: seq<Region>, addr: nat): u64
    requires Mappable(addr)
  {
    HugeGrants(t, addr);
    Entry(addr, HugeFlags(t, addr))
  }

  /** The flags of a 4 KiB page below 2 MiB. */
  function PageFlags(t: seq<Region>, addr: nat): u64 {
    match Lookup(t, addr)
    case Some(r) =>
      if r.kind == Usable || r.kind == SmpTrampoline then TABLE_FLAGS
      else if r.kind == Kernel || r.kind == Bootloader then PAGE_READABLE
      else if addr < ONE_MEG then PAGE_DEVICE
      else PAGE_DATA
    case None => PAGE_DEVICE
  }

  function SmallFlags(t: seq<Region>, addr: nat): u64 {
    if addr == VGA then PAGE_VGA else PageFlags(t, addr)
  }

  /** Pages below 2 MiB that may be written: usable memory, the trampoline of the other cores and the screen. */
  predicate SmallWritable(t: seq<Region>, addr: nat) {
    addr == VGA ||
    match Lookup(t, addr)
    case Some(r) => r.kind == Usable || r.kind == SmpTrampoline
    case None => false
  }

  /** Pages below 2 MiB that may be executed. */
  predicate SmallExecutable(t: seq<Region>, addr: nat) {
    addr != VGA &&
    match Lookup(t, addr)
    case Some(r) => r.kind == Usable || r.kind == SmpTrampoline || r.kind == Kernel || r.kind == Bootloader
    case None => false
  }

  /** Pages below 2 MiB that are not cached: the screen, what the map does not know, and below 1 MiB everything
      that may not be executed. */
  predicate SmallUncached(t: seq<Region>, addr: nat) {
    addr == VGA ||
    match Lookup(t, addr)
    case Some(r) =>
      r.kind != Usable && r.kind != SmpTrampoline && r.kind != Kernel && r.kind != Bootloader && addr < 0x10_0000
    case None => true
  }

  function SmallRights(t: seq<Region>, addr: nat): PageRights {
    PageRights(false, SmallWritable(t, addr), !SmallExecutable(t, addr), SmallUncached(t, addr))
  }

  lemma SmallGrants(t: seq<Region>, addr: nat)
    ensures SmallFlags(t, addr) == FlagWord(SmallRights(t, addr)) && FlagBits(SmallFlags(t, addr))
  {
    FlagWordFlags(SmallRights(t, addr));
  }

  function SmallEntry(t: seq<Region>, addr: nat): u64
    requires Mappable(addr)
  {
    SmallGrants(t, addr);
    Entry(addr, SmallFlags(t, addr))
  }

  function P4Table(p3: nat): (s: seq<u64>)
    requires Mappable(p3)
    ensures |s| == ENTRY_COUNT && s[0] == TableEntry(p3) && forall i :: 0 < i < ENTRY_COUNT ==> s[i] == 0
  {
    seq(ENTRY_COUNT, i => if i == 0 then TableEntry(p3) else 0)
  }

  ghost predicate FourTables(p2: seq<nat>) {
    |p2| == 4 && forall i :: 0 <= i < 4 ==> Mappable(p2[i])
  }

  function P3Table(p2: seq<nat>): (s: seq<u64>)
    requires FourTables(p2)
    ensures |s| == ENTRY_COUNT
    ensures forall i :: 0 <= i < 4 ==> s[i] == TableEntry(p2[i])
    ensures forall i :: 4 <= i < ENTRY_COUNT ==> s[i] == 0
  {
    seq(ENTRY_COUNT, i requires 0 <= i => if i < 4 then TableEntry(p2[i]) else 0)
  }

  function P2Table(g: nat, t: seq<Region>): (s: seq<u64>)
    requires g < 4
    ensures |s| == ENTRY_COUNT
    ensures forall j :: 0 <= j < ENTRY_COUNT ==> s[j] == HugeEntry(t, g * ONE_GIG + j * TWO_MEG)
  {
    seq(ENTRY_COUNT, j requires 0 <= j < ENTRY_COUNT => HugeEntry(t, g * ONE_GIG + j * TWO_MEG))
  }

  function P1Table(t: seq<Region>): (s: seq<u64>)
    ensures |s| == ENTRY_COUNT
    ensures forall j :: 0 <= j < ENTRY_COUNT ==> s[j] == SmallEntry(t, j * PAGE)
  {
    seq(ENTRY_COUNT, j requires 0 <= j < ENTRY_COUNT => SmallEntry(t, j * PAGE))
  }

  // ----- what the walk finds -----

  lemma EntryFacts(addr: nat, r: PageRights)
    requires Mappable(addr)
    ensures FlagBits(FlagWord(r))
    ensures var e := Entry(addr, FlagWord(r));
            && e == addr + FlagWord(r)
            && AddrOf(e) == addr && IsPresent(e) && (IsHuge(e) <==> r.huge) && (IsWritable(e) <==> r.writable)
            && (IsNoExecute(e) <==> r.noExecute) && (IsNoCache(e) <==> r.noCache)
  {
    var flags := FlagWord(r);
    FlagWordFlags(r);
    FlagWordBits(r);
    EntryIsSum(addr, flags);
    AddrOfEntry(addr, flags);
    FlagOfEntry(addr, flags, 0);
    FlagOfEntry(addr, flags, 1);
    FlagOfEntry(addr, flags, 4);
    FlagOfEntry(addr, flags, 7);
    FlagOfEntry(addr, flags, 63);
  }

  const ALL := Rights(true, false)

  lemma TableEntryFacts(addr: nat)
    requires Mappable(addr)
    ensures var e := TableEntry(addr);
            e == addr + 0x3 && AddrOf(e) == addr && IsPresent(e) && !IsHuge(e) && Restrict(ALL, e) == ALL
  {
    TableGrants();
    EntryFacts(addr, TABLE_RIGHTS);
  }

  /** The entry of a 2 MiB page, to the bit: its address, and the rights of the memory it starts in. */
  lemma HugeEntryFacts(t: seq<Region>, addr: nat)
    requires Mappable(addr)
    ensures var e := HugeEntry(t, addr);
            && e == addr + (if UsableAt(t, addr) then 0x83 else 0x8000_0000_0000_0091)
            && AddrOf(e) == addr && IsPresent(e) && IsHuge(e) && (IsWritable(e) <==> UsableAt(t, addr))
            && (IsNoExecute(e) <==> !UsableAt(t, addr)) && (IsNoCache(e) <==> !UsableAt(t, addr))
  {
    HugeGrants(t, addr);
    EntryFacts(addr, HugeRights(t, addr));
  }

  /** The entry of a 4 KiB page, to the bit. */
  lemma SmallEntryFacts(t: seq<Region>, addr: nat)
    requires Mappable(addr)
    ensures var e := SmallEntry(t, addr);
            && e == addr + 0x1 + (if SmallWritable(t, addr) then 0x2 else 0)
                    + (if SmallUncached(t, addr) then 0x10 else 0)
                    + (if SmallExecutable(t, addr) then 0 else 0x8000_0000_0000_0000)
            && AddrOf(e) == addr && IsPresent(e) && !IsHuge(e) && (IsWritable(e) <==> SmallWritable(t, addr))
            && (IsNoExecute(e) <==> !SmallExecutable(t, addr)) && (IsNoCache(e) <==> SmallUncached(t, addr))
  {
    SmallGrants(t, addr);
    EntryFacts(addr, SmallRights(t, addr));
  }

  /** An address mapped to itself with the rights of its 2 MiB page: writable if the page starts in usable memory,
      and neither executable nor cached otherwise. */
  function HugeIdentity(t: seq<Region>, v: nat): Mapping {
    var usable := UsableAt(t, v / TWO_MEG * TWO_MEG);
    Mapping(v, usable, !usable, !usable)
  }

  /** An address mapped to itself with the rights of its 4 KiB page. */
  function SmallIdentity(u: seq<Region>, v: nat): Mapping {
    var page := v / PAGE * PAGE;
    Mapping(v, SmallWritable(u, page), !SmallExecutable(u, page), SmallUncached(u, page))
  }

  /** The tables after `generate_page_table` for the memory map `t`. */
  ghost predicate Generated(m: Memory, p4: nat, p3: nat, p2: seq<nat>, t: seq<Region>) {
    && Mappable(p3) && FourTables(p2)
    && p4 in m && m[p4] == P4Table(p3)
    && p3 in m && m[p3] == P3Table(p2)
    && forall g :: 0 <= g < 4 ==> p2[g] in m && m[p2[g]] == P2Table(g, t)
  }

  lemma Indices(v: nat)
    requires v < FOUR_GIG
    ensures P4Index(v) == 0 && P3Index(v) == v / ONE_GIG < 4 && P2Index(v) < ENTRY_COUNT
    ensures v / ONE_GIG * ONE_GIG + P2Index(v) * TWO_MEG == v / TWO_MEG * TWO_MEG
  {
  }

  /** Upper tables lead to the P2 table of the gigabyte, with all rights. */
  lemma UpperWalk(m: Memory, p4: nat, p3: nat, p2: seq<nat>, v: nat)
    requires Mappable(p3) && FourTables(p2) && v < FOUR_GIG
    requires p4 in m && m[p4] == P4Table(p3) && p3 in m && m[p3] == P3Table(p2)
    ensures v / ONE_GIG < 4 && Walk(m, p4, v) == WalkP2(m, p2[v / ONE_GIG], ALL, v)
  {
    Indices(v);
    TableEntryFacts(p3);
    TableEntryFacts(p2[v / ONE_GIG]);
  }

  /** Below 4 GiB the walk is the identity, and a page may be written exactly when its first byte is usable
      memory; pages that may not be written may not be executed either. */
  lemma WalkIsIdentity(m: Memory, p4: nat, p3: nat, p2: seq<nat>, t: seq<Region>, v: nat)
    requires Generated(m, p4, p3, p2, t) && v < FOUR_GIG
    ensures Walk(m, p4, v) == Some(HugeIdentity(t, v))
  {
    UpperWalk(m, p4, p3, p2, v);
    P2Lookup(t, v);
    HugeWalk(m, p2[v / ONE_GIG], t, v);
  }

  lemma HugePage(v: nat)
    requires v < FOUR_GIG
    ensures Mappable(v / TWO_MEG * TWO_MEG)
  {
  }

  lemma HugeOffset(v: nat)
    ensures v / TWO_MEG * TWO_MEG / TWO_MEG * TWO_MEG + v % TWO_MEG == v
  {
  }

  lemma HugeWalk(m: Memory, table: nat, t: seq<Region>, v: nat)
    requires v < FOUR_GIG && Mappable(v / TWO_MEG * TWO_MEG) && table in m && P2Index(v) < |m[table]|
    requires m[table][P2Index(v)] == HugeEntry(t, v / TWO_MEG * TWO_MEG)
    ensures WalkP2(m, table, ALL, v) == Some(HugeIdentity(t, v))
  {
    HugeOffset(v);
    HugeWalkFrom(m, table, t, v, v / TWO_MEG * TWO_MEG);
  }

  lemma HugeWalkFrom(m: Memory, table: nat, t: seq<Region>, v: nat, base: nat)
    requires Mappable(base) && base / TWO_MEG * TWO_MEG + v % TWO_MEG == v
    requires table in m && P2Index(v) < |m[table]| && m[table][P2Index(v)] == HugeEntry(t, base)
    ensures WalkP2(m, table, ALL, v) == Some(Mapping(v, UsableAt(t, base), !UsableAt(t, base), !UsableAt(t, base)))
  {
    HugeEntryFacts(t, base);
    HugeFound(m, table, HugeEntry(t, base), v);
  }

  lemma P2Lookup(t: seq<Region>, v: nat)
    requires v < FOUR_GIG
    ensures v / ONE_GIG < 4 && P2Index(v) < ENTRY_COUNT && Mappable(v / TWO_MEG * TWO_MEG)
    ensures P2Table(v / ONE_GIG, t)[P2Index(v)] == HugeEntry(t, v / TWO_MEG * TWO_MEG)
    ensures TWO_MEG <= v < ONE_GIG ==> P2Index(v) > 0
  {
    Indices(v);
    HugePage(v);
    P2TableAt(v / ONE_GIG, t, P2Index(v), v / TWO_MEG * TWO_MEG);
    NotFirstPage(v);
  }

  lemma P2TableAt(g: nat, t: seq<Region>, j: nat, base: nat)
    requires g < 4 && j < ENTRY_COUNT && Mappable(base) && g * ONE_GIG + j * TWO_MEG == base
    ensures P2Table(g, t)[j] == HugeEntry(t, base)
  {
  }

  lemma NotFirstPage(v: nat)
    ensures TWO_MEG <= v < ONE_GIG ==> P2Index(v) > 0
  {
  }

  lemma HugeFound(m: Memory, table: nat, e: u64, v: nat)
    requires table in m && P2Index(v) < |m[table]| && m[table][P2Index(v)] == e && IsPresent(e) && IsHuge(e)
    ensures WalkP2(m, table, ALL, v)
            == Some(Mapping(AddrOf(e) / TWO_MEG * TWO_MEG + v % TWO_MEG, IsWritable(e), IsNoExecute(e), IsNoCache(e)))
  {
  }

  /** From 4 GiB up to the end of the lower half nothing is mapped. */
  lemma WalkStopsAtFourGig(m: Memory, p4: nat, p3: nat, p2: seq<nat>, t: seq<Region>, v: nat)
    requires Generated(m, p4, p3, p2, t) && FOUR_GIG <= v < P4_SPAN * ENTRY_COUNT
    ensures Walk(m, p4, v) == None
  {
    HighIndices(v);
    TableEntryFacts(p3);
    if v >= P4_SPAN {
      NothingFetched(m, p4, P4Index(v));
    } else {
      NothingFetched(m, p3, P3Index(v));
    }
  }

  lemma HighIndices(v: nat)
    requires FOUR_GIG <= v < P4_SPAN * ENTRY_COUNT
    ensures v < P4_SPAN ==> P4Index(v) == 0 && 4 <= P3Index(v) < ENTRY_COUNT
    ensures v >= P4_SPAN ==> 0 < P4Index(v) < ENTRY_COUNT
  {
  }

  lemma NothingFetched(m: Memory, table: nat, index: nat)
    requires table in m && index < |m[table]| && m[table][index] == 0
    ensures Fetch(m, table, index) == None
  {
    BitOfZero(0);
  }

  /** The tables after the first 2 MiB have been mapped again with small pages, for a later memory map `u`. */
  ghost predicate Remapped(m: Memory, p4: nat, p3: nat, p2: seq<nat>, p1: nat, t: seq<Region>, u: seq<Region>) {
    && Mappable(p3) && FourTables(p2) && Mappable(p1)
    && p4 in m && m[p4] == P4Table(p3)
    && p3 in m && m[p3] == P3Table(p2)
    && p1 in m && m[p1] == P1Table(u)
    && p2[0] in m && m[p2[0]] == P2Table(0, t)[0 := TableEntry(p1)]
    && forall g :: 1 <= g < 4 ==> p2[g] in m && m[p2[g]] == P2Table(g, t)
  }

  /** From 2 MiB on the remap changes nothing: the rights are those of the generated tables. */
  lemma RemapKeepsHigh(m: Memory, p4: nat, p3: nat, p2: seq<nat>, p1: nat, t: seq<Region>, u: seq<Region>, v: nat)
    requires Remapped(m, p4, p3, p2, p1, t, u) && TWO_MEG <= v < FOUR_GIG
    ensures Walk(m, p4, v) == Some(HugeIdentity(t, v))
  {
    UpperWalk(m, p4, p3, p2, v);
    P2Lookup(t, v);
    HugeWalk(m, p2[v / ONE_GIG], t, v);
  }

  /** Below 2 MiB the walk is still the identity; the rights follow the type of each small page. */
  lemma RemapKeepsLow(m: Memory, p4: nat, p3: nat, p2: seq<nat>, p1: nat, t: seq<Region>, u: seq<Region>, v: nat)
    requires Remapped(m, p4, p3, p2, p1, t, u) && v < TWO_MEG
    ensures Walk(m, p4, v) == Some(SmallIdentity(u, v))
  {
    UpperWalk(m, p4, p3, p2, v);
    assert v / ONE_GIG == 0;
    SmallPage(v);
    SmallWalk(m, p2[0], p1, u, v);
  }

  lemma SmallPage(v: nat)
    requires v < TWO_MEG
    ensures P2Index(v) == 0 && P1Index(v) == v / PAGE < ENTRY_COUNT
    ensures Mappable(v / PAGE * PAGE) && v / PAGE * PAGE / PAGE * PAGE + v % PAGE == v
  {
  }

  lemma SmallWalk(m: Memory, table: nat, p1: nat, u: seq<Region>, v: nat)
    requires v < TWO_MEG && Mappable(p1) && table in m && |m[table]| > 0 && m[table][0] == TableEntry(p1)
    requires p1 in m && m[p1] == P1Table(u)
    ensures WalkP2(m, table, ALL, v) == Some(SmallIdentity(u, v))
  {
    SmallPage(v);
    TableEntryFacts(p1);
    var e := P1Table(u)[v / PAGE];
    assert e == SmallEntry(u, v / PAGE * PAGE);
    SmallEntryFacts(u, v / PAGE * PAGE);
    SmallFound(m, table, p1, TableEntry(p1), e, v);
  }

  lemma SmallFound(m: Memory, table: nat, p1: nat, up: u64, e: u64, v: nat)
    requires table in m && P2Index(v) < |m[table]| && m[table][P2Index(v)] == up
    requires IsPresent(up) && !IsHuge(up) && AddrOf(up) == p1 && Restrict(ALL, up) == ALL
    requires p1 in m && P1Index(v) < |m[p1]| && m[p1][P1Index(v)] == e && IsPresent(e)
    ensures WalkP2(m, table, ALL, v) ==
            Some(Mapping(AddrOf(e) / PAGE * PAGE + v % PAGE, IsWritable(e), IsNoExecute(e), IsNoCache(e)))
  {
  }
}
