/** Building the identity page tables in place. */
module Paging {
  import opened Machine
  import opened Bits
  import opened PageEntries
  import opened IdentityMap
  import opened MemoryTable

  /** The small page of the screen memory. */
  const VGA_INDEX: nat := 0xb8

  /** Physical memory that holds page tables: distinct tables at distinct addresses. */
  type Tables = map<nat, array<u64>>

  ghost predicate WellPlaced(mem: Tables) {
    && (forall a :: a in mem ==> mem[a].Length == ENTRY_COUNT)
    && (forall a, b :: a in mem && b in mem && a != b ==> mem[a] != mem[b])
  }

  ghost function Contents(mem: Tables): Memory
    reads mem.Values
  {
    map a | a in mem :: mem[a][..]
  }

  method Zero(t: array<u64>)
    modifies t
    ensures forall i :: 0 <= i < t.Length ==> t[i] == 0
  {
    for i := 0 to t.Length
      invariant forall k :: 0 <= k < i ==> t[k] == 0
    {
      t[i] := 0;
    }
  }

  /** Entry `j` of the table of gigabyte `g`: a 2 MiB page. */
  method HugePageEntry(g: nat, j: nat, t: seq<Region>) returns (e: u64)
    requires g < 4 && j < ENTRY_COUNT
    ensures e == P2Table(g, t)[j]
  {
    var physAddr := g * ONE_GIG + j * TWO_MEG;
    var flags := ChooseHugeFlags(t, physAddr);
    HugeGrants(t, physAddr);
    e := Entry(physAddr, flags);
  }

  method ChooseHugeFlags(t: seq<Region>, addr: nat) returns (flags: u64)
    ensures flags == HugeFlags(t, addr)
  {
    var area := Lookup(t, addr);
    if area.Some? {
      match area.value.kind
      case Usable =>
        flags := HugeWritable();
        return;
      case _ =>
    }
    flags := HugeReadable();
  }

  method HugeWritable() returns (flags: u64)
    ensures flags == HUGE_WRITABLE
  {
    HugeFlagWords();
    flags := Or(Or(PRESENT, WRITABLE), HUGE_PAGE);
  }

  method HugeReadable() returns (flags: u64)
    ensures flags == HUGE_READABLE
  {
    HugeFlagWords();
    flags := Or(Or(Or(PRESENT, HUGE_PAGE), NO_EXECUTE), NO_CACHE);
  }

  /** Fills the table of gigabyte `g` with 2 MiB pages. */
  method FillP2(table: array<u64>, g: nat, t: seq<Region>)
    requires table.Length == ENTRY_COUNT && g < 4
    modifies table
    ensures table[..] == P2Table(g, t)
  {
    Zero(table);
    ghost var goal := P2Table(g, t);
    for j := 0 to ENTRY_COUNT
      invariant forall k :: 0 <= k < j ==> table[k] == goal[k]
    {
      var e := HugePageEntry(g, j, t);
      table[j] := e;
    }
  }

  /** Entry `j` of the table of the first 2 MiB, before the screen gets its own. */
  method SmallPageEntry(j: nat, t: seq<Region>) returns (e: u64)
    requires j < ENTRY_COUNT
    ensures j != VGA_INDEX ==> e == P1Table(t)[j]
  {
    var addr := j * PAGE;
    var flags := ChooseFlags(t, addr);
    FlagsOfPage(t, addr);
    e := Entry(addr, flags);
  }

  method VgaEntry(ghost t: seq<Region>) returns (e: u64)
    ensures e == P1Table(t)[VGA_INDEX]
  {
    SmallGrants(t, VGA);
    assert SmallFlags(t, VGA) == PAGE_VGA;
    var flags := Screen();
    e := Entry(VGA, flags);
  }

  method Screen() returns (flags: u64)
    ensures flags == PAGE_VGA
  {
    VgaFlagWord();
    flags := Or(Or(Or(PRESENT, WRITABLE), NO_CACHE), NO_EXECUTE);
  }

  /** Fills the table of the first 2 MiB with 4 KiB pages and maps the screen. */
  method FillP1(table: array<u64>, t: seq<Region>)
    requires table.Length == ENTRY_COUNT
    modifies table
    ensures table[..] == P1Table(t)
  {
    Zero(table);
    ghost var goal := P1Table(t);
    for j := 0 to ENTRY_COUNT
      invariant forall k :: 0 <= k < j && k != VGA_INDEX ==> table[k] == goal[k]
    {
      var e := SmallPageEntry(j, t);
      table[j] := e;
    }
    var index := VGA / PAGE % ENTRY_COUNT;
    assert index == VGA_INDEX;
    var e := VgaEntry(t);
    table[index] := e;
  }

  method ChooseFlags(t: seq<Region>, addr: nat) returns (flags: u64)
    ensures flags == PageFlags(t, addr)
  {
    var area := Lookup(t, addr);
    if area.Some? {
      match area.value.kind
      case Usable | SmpTrampoline =>
        flags := Writable();
        return;
      case Kernel | Bootloader => return PRESENT;
      case _ =>
        if addr >= ONE_MEG {
          flags := Data();
          return;
        }
    }
    flags := Device();
  }

  method Writable() returns (flags: u64)
    ensures flags == TABLE_FLAGS
  {
    TableFlagWord();
    flags := Or(PRESENT, WRITABLE);
  }

  method Data() returns (flags: u64)
    ensures flags == PAGE_DATA
  {
    PageFlagWords();
    flags := Or(PRESENT, NO_EXECUTE);
  }

  method Device() returns (flags: u64)
    ensures flags == PAGE_DEVICE
  {
    PageFlagWords();
    flags := Or(Or(PRESENT, NO_EXECUTE), NO_CACHE);
  }

  lemma FlagsOfPage(t: seq<Region>, addr: nat)
    ensures FlagBits(PageFlags(t, addr))
  {
  }

  // ----- the table allocator -----

  class PageTableAllocator {
    var index: nat
    const startAddr: nat
    const endAddr: nat

    constructor (startAddr: nat, endAddr: nat)
      ensures index == 0 && this.startAddr == startAddr && this.endAddr == endAddr
    {
      index := 0;
      this.startAddr, this.endAddr := startAddr, endAddr;
    }

    /** The next table address; the end of the region itself still counts as inside. */
    method Next() returns (r: Option<nat>)
      modifies this
      ensures (r, index) == TakeTable(startAddr, endAddr, old(index))
    {
      var addr := startAddr + PAGE * index;
      if addr > endAddr {
        return None;
      }
      index := index + 1;
      return Some(addr);
    }
  }

  function P2Address(start: nat, g: nat): nat { start + PAGE * g }

  function P2Addresses(start: nat): seq<nat> {
    [P2Address(start, 0), P2Address(start, 1), P2Address(start, 2), P2Address(start, 3)]
  }

  /** One call of the allocator: the table at `index`, or nothing behind the end. */
  function TakeTable(start: nat, end: nat, index: nat): (Option<nat>, nat) {
    if P2Address(start, index) > end then (None, index) else (Some(P2Address(start, index)), index + 1)
  }

  function IndexAfter(start: nat, end: nat, k: nat): nat {
    if k == 0 then 0 else TakeTable(start, end, IndexAfter(start, end, k - 1)).1
  }

  /** What call number `k`, counting from zero, hands out. */
  function TableOf(start: nat, end: nat, k: nat): Option<nat> {
    TakeTable(start, end, IndexAfter(start, end, k)).0
  }

  lemma {:induction false} CallsHandOut(start: nat, end: nat, k: nat)
    ensures k == 0 || P2Address(start, k - 1) <= end ==> IndexAfter(start, end, k) == k
    ensures k > 0 && P2Address(start, k - 1) > end ==> P2Address(start, IndexAfter(start, end, k)) > end
    ensures TableOf(start, end, k) == if P2Address(start, k) <= end then Some(P2Address(start, k)) else None
  {
    if k > 0 {
      CallsHandOut(start, end, k - 1);
    }
  }

  ghost predicate AllHandedOut(start: nat, end: nat, n: nat) {
    forall g: nat :: g < n ==> TableOf(start, end, g).Some?
  }

  ghost predicate AllInside(start: nat, end: nat, n: nat) {
    forall g: nat :: g < n ==> TableOf(start, end, g).Some? && TableOf(start, end, g).value + PAGE <= end
  }

  /** `n` calls all hand out a table exactly when the last one starts no later than the end of the region, while
      all these tables lie inside it exactly when there is room for one page more. */
  lemma TablesInsideIff(start: nat, end: nat, n: nat)
    requires n > 0
    ensures AllHandedOut(start, end, n) <==> start + PAGE * (n - 1) <= end
    ensures AllInside(start, end, n) <==> start + PAGE * n <= end
  {
    forall g: nat | g < n
      ensures TableOf(start, end, g) == if P2Address(start, g) <= end then Some(P2Address(start, g)) else None
    {
      CallsHandOut(start, end, g);
    }
    assert P2Address(start, n - 1) == start + PAGE * (n - 1);
    assert TableOf(start, end, n - 1) == if P2Address(start, n - 1) <= end then Some(P2Address(start, n - 1)) else None;
  }

  // ----- the two passes -----

  ghost predicate PlacesFor(mem: Tables, p4: nat, p3: nat, start: nat, end: nat) {
    && WellPlaced(mem) && p4 in mem && p3 in mem && p4 != p3 && Mappable(p3)
    && forall g :: 0 <= g < 4 && P2Address(start, g) <= end ==>
         var a := P2Address(start, g);
         a in mem && Mappable(a) && a != p4 && a != p3
  }

  /** Points the first entry of the P4 table at the P3 table. */
  method BuildP4(table: array<u64>, p3: nat)
    requires table.Length == ENTRY_COUNT && Mappable(p3)
    modifies table
    ensures table[..] == P4Table(p3)
  {
    Zero(table);
    table[0] := TableEntry(p3);
  }

  /** The first `g` P2 tables are filled and linked. */
  ghost predicate Linked(mem: Tables, p3: nat, start: nat, g: nat, t: seq<Region>)
    requires WellPlaced(mem) && p3 in mem && g <= 4
    reads mem.Values
  {
    && (forall i :: 0 <= i < g ==> P2Address(start, i) in mem && Mappable(P2Address(start, i)))
    && (forall i :: 0 <= i < g ==> mem[p3][i] == TableEntry(P2Address(start, i)))
    && (forall i :: g <= i < ENTRY_COUNT ==> mem[p3][i] == 0)
    && (forall i :: 0 <= i < g ==> mem[P2Address(start, i)][..] == P2Table(i, t))
  }

  method LinkNext(mem: Tables, p4: nat, p3: nat, start: nat, g: nat, t: seq<Region>)
    requires WellPlaced(mem) && p4 in mem && p3 in mem && p4 != p3 && g < 4 && Linked(mem, p3, start, g, t)
    requires P2Address(start, g) in mem && Mappable(P2Address(start, g))
    requires forall i :: 0 <= i <= g ==> P2Address(start, i) != p4 && P2Address(start, i) != p3
    modifies mem.Values
    ensures Linked(mem, p3, start, g + 1, t)
    ensures mem[p4][..] == old(mem[p4][..])
  {
    var addr := P2Address(start, g);
    FillP2(mem[addr], g, t);
    mem[p3][g] := TableEntry(addr);
  }

  lemma LinkedIsGenerated(mem: Tables, p4: nat, p3: nat, start: nat, t: seq<Region>)
    requires WellPlaced(mem) && p4 in mem && p3 in mem && Mappable(p3)
    requires mem[p4][..] == P4Table(p3) && Linked(mem, p3, start, 4, t)
    ensures Generated(Contents(mem), p4, p3, P2Addresses(start), t)
  {
    var p2 := P2Addresses(start);
    assert forall g :: 0 <= g < 4 ==> p2[g] == P2Address(start, g);
    assert mem[p3][..] == P3Table(p2);
  }

  /** Builds the tables; too little room for the P2 tables is a panic. */
  method GeneratePageTable(mem: Tables, p4: nat, p3: nat, p2Start: nat, p2End: nat, t: seq<Region>) returns (ok: bool)
    requires PlacesFor(mem, p4, p3, p2Start, p2End)
    modifies mem.Values
    ensures ok <==> P2Address(p2Start, 3) <= p2End
    ensures ok ==> Generated(Contents(mem), p4, p3, P2Addresses(p2Start), t)
  {
    BuildP4(mem[p4], p3);
    Zero(mem[p3]);
    var tables := new PageTableAllocator(p2Start, p2End);
    for g := 0 to 4
      invariant tables.index == g && fresh(tables) && tables.startAddr == p2Start && tables.endAddr == p2End
      invariant g > 0 ==> P2Address(p2Start, g - 1) <= p2End
      invariant mem[p4][..] == P4Table(p3) && Linked(mem, p3, p2Start, g, t)
    {
      var next := tables.Next();
      if next.None? {
        return false;
      }
      assert next.value == P2Address(p2Start, g);
      LinkNext(mem, p4, p3, p2Start, g, t);
    }
    LinkedIsGenerated(mem, p4, p3, p2Start, t);
    return true;
  }

  /** Maps the first 2 MiB again, with small pages. */
  method RemapFirst2Mb(mem: Tables, p4: nat, p3: nat, p2: seq<nat>, p1: nat, t: seq<Region>, u: seq<Region>)
    requires WellPlaced(mem) && Generated(Contents(mem), p4, p3, p2, t)
    requires p1 in mem && Mappable(p1) && p1 != p4 && p1 != p3 && p1 !in p2
    requires p2[0] != p2[1] && p2[0] != p2[2] && p2[0] != p2[3] && p3 !in p2 && p4 !in p2
    modifies mem.Values
    ensures Remapped(Contents(mem), p4, p3, p2, p1, t, u)
  {
    ghost var c := Contents(mem);
    FillP1(mem[p1], u);
    var p2Addr := AddrOf(mem[p3][0]);
    assert p2Addr == p2[0] by {
      assert mem[p3][0] == c[p3][0];
      TableEntryFacts(p2[0]);
    }
    mem[p2Addr][0] := TableEntry(p1);
    assert Changed(c, Contents(mem), p2[0], p1, u) by {
      assert mem[p2[0]][..][0] == TableEntry(p1);
    }
    ChangedIsRemapped(c, Contents(mem), p4, p3, p2, p1, t, u);
  }

  /** What the remap changes: the first entry of one P2 table, and the P1 table. */
  ghost predicate Changed(c: Memory, c': Memory, p2: nat, p1: nat, u: seq<Region>)
    requires Mappable(p1)
  {
    && c.Keys == c'.Keys && p2 in c && p1 in c && c'[p1] == P1Table(u)
    && |c[p2]| == |c'[p2]| == ENTRY_COUNT && c'[p2][0] == TableEntry(p1)
    && (forall j :: 1 <= j < ENTRY_COUNT ==> c'[p2][j] == c[p2][j])
    && (forall a :: a in c && a != p1 && a != p2 ==> c'[a] == c[a])
  }

  lemma ChangedIsRemapped(c: Memory, c': Memory, p4: nat, p3: nat, p2: seq<nat>, p1: nat, t: seq<Region>,
                          u: seq<Region>)
    requires Generated(c, p4, p3, p2, t) && Mappable(p1) && Changed(c, c', p2[0], p1, u)
    requires p1 != p4 && p1 != p3 && p1 !in p2
    requires p2[0] != p2[1] && p2[0] != p2[2] && p2[0] != p2[3] && p3 !in p2 && p4 !in p2
    ensures Remapped(c', p4, p3, p2, p1, t, u)
  {
    assert c'[p2[0]] == P2Table(0, t)[0 := TableEntry(p1)];
    forall g | 1 <= g < 4 ensures p2[g] in c' && c'[p2[g]] == P2Table(g, t) {
      assert p2[g] in p2 && p2[g] != p2[0];
    }
    assert p2[0] in p2;
  }
}
