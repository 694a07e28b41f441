/** Page table entries and the four-level walk of long mode (AMD64 Architecture Programmer's Manual
    volume 2, section 5.3), on tables given as values. */
module PageEntries {
  import opened Machine
  import opened Bits

  const ENTRY_COUNT: nat := 512
  const PAGE: nat := 0x1000
  const TWO_MEG: nat := 0x20_0000
  const ONE_GIG: nat := 0x4000_0000
  const FOUR_GIG: nat := 0x1_0000_0000
  const P4_SPAN: nat := 0x80_0000_0000

  const ADDR_LIMIT: nat := 0x10_0000_0000_0000
  const ADDR_MASK: u64 := 0x000f_ffff_ffff_f000

  const PRESENT: u64 := 0x1
  const WRITABLE: u64 := 0x2
  const NO_CACHE: u64 := 0x10
  const HUGE_PAGE: u64 := 0x80
  const NO_EXECUTE: u64 := 0x8000_0000_0000_0000

  predicate IsPresent(e: u64) { Bit(e, 0) }
  predicate IsWritable(e: u64) { Bit(e, 1) }
  predicate IsNoCache(e: u64) { Bit(e, 4) }
  predicate IsHuge(e: u64) { Bit(e, 7) }
  predicate IsNoExecute(e: u64) { Bit(e, 63) }

  /** The physical address in an entry. */
  function AddrOf(e: u64): nat { And(e, ADDR_MASK) }

  /** Flags keep to the low twelve bits and the bits above the address. */
  predicate FlagBits(flags: u64) {
    flags % 0x10_0000_0000_0000 == flags % 0x1000
  }

  lemma FlagBitsLow(flags: u64)
    requires FlagBits(flags)
    ensures Low(flags, 52) == Low(flags, 12)
  {
    Pow2Values();
    LowIsMod(flags, 52);
    LowIsMod(flags, 12);
  }

  predicate Mappable(addr: nat) {
    addr % PAGE == 0 && addr < ADDR_LIMIT
  }

  lemma LowHalf(z: nat, k: nat)
    requires k > 0
    ensures Low(z, k) / 2 == Low(z / 2, k - 1) && Low(z, k) % 2 == z % 2
  {
  }

  lemma OrHalf(x: nat, y: nat)
    ensures Or(x, y) / 2 == Or(x / 2, y / 2) && Or(x, y) % 2 == (if x % 2 == 1 || y % 2 == 1 then 1 else 0)
  {
    OrStep(x, y);
  }

  lemma {:induction false} LowOfOr(x: nat, y: nat, k: nat)
    ensures Low(Or(x, y), k) == Or(Low(x, k), Low(y, k))
  {
    if k == 0 {
      OrZero(0);
    } else {
      LowOfOr(x / 2, y / 2, k - 1);
      LowOfOrStep(x, y, k);
    }
  }

  lemma LowOfOrStep(x: nat, y: nat, k: nat)
    requires k > 0 && Low(Or(x / 2, y / 2), k - 1) == Or(Low(x / 2, k - 1), Low(y / 2, k - 1))
    ensures Low(Or(x, y), k) == Or(Low(x, k), Low(y, k))
  {
    var l, r := Low(Or(x, y), k), Or(Low(x, k), Low(y, k));
    OrHalf(x, y);
    LowHalf(Or(x, y), k);
    LowHalf(x, k);
    LowHalf(y, k);
    OrHalf(Low(x, k), Low(y, k));
    assert l / 2 == r / 2 && l % 2 == r % 2;
  }

  lemma LowSmall(x: nat, k: nat)
    requires x < Pow2(k)
    ensures Low(x, k) == x
  {
    LowIsMod(x, k);
    SmallMod(x, Pow2(k));
  }

  lemma MappableLow(addr: nat)
    requires Mappable(addr)
    ensures Low(addr, 12) == 0 && Low(addr, 52) == addr < Pow2(52)
  {
    Pow2Values();
    LowIsMod(addr, 12);
    LowSmall(addr, 52);
  }

  lemma EntryFits(addr: nat, flags: u64)
    requires Mappable(addr) && FlagBits(flags)
    ensures Or(addr, flags) <= U64_MAX
  {
    Pow2Values();
    MappableLow(addr);
    LowSmall(addr, 64);
    LowSmall(flags, 64);
    LowOfOr(addr, flags, 64);
  }

  /** The entry `set_addr` writes. */
  function Entry(addr: nat, flags: u64): u64
    requires Mappable(addr) && FlagBits(flags)
  {
    EntryFits(addr, flags);
    Or(addr, flags)
  }

  /** Address and flags do not share a bit: the entry is their sum. */
  lemma EntryIsSum(addr: nat, flags: u64)
    requires Mappable(addr) && FlagBits(flags)
    ensures Entry(addr, flags) == addr + flags
  {
    MappableLow(addr);
    FlagBitsLow(flags);
    OrFieldSum(addr, flags, 12, 52);
  }

  /** Reading the address back gives the address written. */
  lemma AddrOfEntry(addr: nat, flags: u64)
    requires Mappable(addr) && FlagBits(flags)
    ensures AddrOf(Entry(addr, flags)) == addr
  {
    Pow2Values();
    MappableLow(addr);
    FlagBitsLow(flags);
    AndField(Or(addr, flags), 12, 52);
    LowOfOr(addr, flags, 52);
    LowOfOr(addr, flags, 12);
    LowIsMod(addr, 12);
    OrDisjoint(addr, Low(flags, 12), 12);
    OrSymmetric(0, Low(flags, 12));
    OrZero(Low(flags, 12));
  }

  /** A flag bit of an entry is that of the flags written. */
  lemma FlagOfEntry(addr: nat, flags: u64, k: nat)
    requires Mappable(addr) && FlagBits(flags) && (k < 12 || k >= 52)
    ensures Bit(Entry(addr, flags), k) <==> Bit(flags, k)
  {
    MappableLow(addr);
    BitOfOr(addr, flags, k);
    BitsOfField(addr, 12, k);
    BitsOfField(addr, 52, k);
  }

  // ----- the walk -----

  /** Page tables by physical address. */
  type Memory = map<nat, seq<u64>>

  datatype Mapping = Mapping(phys: int, writable: bool, noExecute: bool, noCache: bool)

  function P4Index(v: nat): nat { v / P4_SPAN % ENTRY_COUNT }
  function P3Index(v: nat): nat { v / ONE_GIG % ENTRY_COUNT }
  function P2Index(v: nat): nat { v / TWO_MEG % ENTRY_COUNT }
  function P1Index(v: nat): nat { v / PAGE % ENTRY_COUNT }

  /** A present entry of the table at `table`. */
  function Fetch(m: Memory, table: nat, index: nat): Option<u64> {
    if table in m && index < |m[table]| && IsPresent(m[table][index]) then Some(m[table][index]) else None
  }

  /** The rights collected on the way down. */
  datatype Rights = Rights(writable: bool, noExecute: bool)

  function Restrict(r: Rights, e: u64): Rights {
    Rights(r.writable && IsWritable(e), r.noExecute || IsNoExecute(e))
  }

  /** A page of `size` bytes. */
  function MapPage(e: u64, size: nat, r: Rights, v: nat): Mapping
    requires size > 0
  {
    var r' := Restrict(r, e);
    Mapping(AddrOf(e) / size * size + v % size, r'.writable, r'.noExecute, IsNoCache(e))
  }

  function WalkP1(m: Memory, table: nat, r: Rights, v: nat): Option<Mapping> {
    match Fetch(m, table, P1Index(v))
    case None => None
    case Some(e) => Some(MapPage(e, PAGE, r, v))
  }

  function WalkP2(m: Memory, table: nat, r: Rights, v: nat): Option<Mapping> {
    match Fetch(m, table, P2Index(v))
    case None => None
    case Some(e) => if IsHuge(e) then Some(MapPage(e, TWO_MEG, r, v)) else WalkP1(m, AddrOf(e), Restrict(r, e), v)
  }

  function WalkP3(m: Memory, table: nat, r: Rights, v: nat): Option<Mapping> {
    match Fetch(m, table, P3Index(v))
    case None => None
    case Some(e) => if IsHuge(e) then Some(MapPage(e, ONE_GIG, r, v)) else WalkP2(m, AddrOf(e), Restrict(r, e), v)
  }

  /** Translates a virtual address through the tables rooted at `cr3`. */
  function Walk(m: Memory, cr3: nat, v: nat): Option<Mapping> {
    match Fetch(m, cr3, P4Index(v))
    case None => None
    case Some(e) => WalkP3(m, AddrOf(e), Restrict(Rights(true, false), e), v)
  }
}
