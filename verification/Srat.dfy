/** The kernel's SRAT parser: which APIC and which memory belongs to which proximity domain. */
module Srat {
  import opened Machine
  import opened Bits
  import opened AcpiTables
  import opened Ranges
  import RangeSets

  /** An affinity entry, as far as the parser reads it. */
  datatype Entry =
    | Apic(domain: u32, apicId: u32, enabled: bool)
    | X2Apic(domain: u32, apicId: u32, enabled: bool)
    | Memory(domain: u32, base: u64, length: u64, enabled: bool)
    | Other(typ: u8)

  /** The proximity domain of every APIC and the memory of every domain. */
  datatype Domains = Domains(apics: map<u32, u32>, memory: map<u32, seq<Range>>)

  const EMPTY := Domains(map[], map[])

  // ----- decoding -----

  lemma Fits32(b: Bytes)
    requires |b| == 4
    ensures FromLe(b) < 0x1_0000_0000
  {
    FromLeBound(b);
    Powers();
  }

  lemma Fits64(b: Bytes)
    requires |b| == 8
    ensures FromLe(b) <= U64_MAX
  {
    FromLeBound(b);
    Powers();
  }

  function Le32(b: Bytes): u32
    requires |b| == 4
  {
    Fits32(b);
    FromLe(b)
  }

  function Le64(b: Bytes): u64
    requires |b| == 8
  {
    Fits64(b);
    FromLe(b)
  }

  /** Reads a record; a known type with the wrong length is a panic. */
  function Decoded(r: Bytes): Option<Entry>
    requires IsRecord(r)
  {
    if r[0] == 0 then
      if |r| != 16 then None
      else Some(Apic(Le32([r[2]] + r[9..12]), r[3], Bit(Le32(r[4..8]), 0)))
    else if r[0] == 1 then
      if |r| != 40 then None
      else Some(Memory(Le32(r[2..6]), Le64(r[8..16]), Le64(r[16..24]), Bit(Le32(r[28..32]), 0)))
    else if r[0] == 2 then
      if |r| != 24 then None
      else Some(X2Apic(Le32(r[4..8]), Le32(r[8..12]), Bit(Le32(r[12..16]), 0)))
    else Some(Other(r[0]))
  }

  // ----- encoding -----

  predicate WellFormed(e: Entry) {
    match e
    case Apic(_, id, _) => id < 0x100
    case Other(typ) => typ >= 3
    case _ => true
  }

  /** The layout of a local APIC entry, from its fields and its reserved bytes. */
  function ApicRecord(d: Bytes, id: u8, f: Bytes, x: u8, t: Bytes): Bytes
    requires |d| == 4
  {
    [0, 16, d[0], id] + f + [x] + d[1..] + t
  }

  function X2ApicRecord(p: Bytes, d: Bytes, id: Bytes, f: Bytes, t: Bytes): Bytes {
    [2, 24] + p + d + id + f + t
  }

  function MemoryRecord(d: Bytes, p: Bytes, b: Bytes, l: Bytes, q: Bytes, f: Bytes, t: Bytes): Bytes {
    [1, 40] + d + p + b + l + q + f + t
  }

  function FlagWord(enabled: bool): u32 { if enabled then 1 else 0 }

  function Flags(enabled: bool): Bytes { ToLe(FlagWord(enabled), 4) }

  function Encode(e: Entry): Bytes
    requires WellFormed(e)
  {
    match e
    case Apic(domain, id, enabled) => ApicRecord(ToLe(domain, 4), id, Flags(enabled), 0, ToLe(0, 4))
    case Memory(domain, base, length, enabled) =>
      MemoryRecord(ToLe(domain, 4), ToLe(0, 2), ToLe(base, 8), ToLe(length, 8), ToLe(0, 4), Flags(enabled), ToLe(0, 8))
    case X2Apic(domain, id, enabled) =>
      X2ApicRecord(ToLe(0, 2), ToLe(domain, 4), ToLe(id, 4), Flags(enabled), ToLe(0, 8))
    case Other(typ) => [typ, 2]
  }

  lemma Le32RoundTrip(x: u32)
    ensures Le32(ToLe(x, 4)) == x
  {
    Powers();
    LeRoundTrip(x, 4);
  }

  lemma Le64RoundTrip(x: u64)
    ensures Le64(ToLe(x, 8)) == x
  {
    Powers();
    LeRoundTrip(x, 8);
  }

  /** What the fields of a local APIC entry make of it, whatever its reserved bytes are: the low byte of the domain
      stands apart from the rest. */
  lemma ApicFields(d: Bytes, id: u8, f: Bytes, x: u8, t: Bytes)
    requires |d| == 4 && |f| == 4 && |t| == 4
    ensures var r := ApicRecord(d, id, f, x, t);
            IsRecord(r) && Decoded(r) == Some(Apic(Le32(d), id, Bit(Le32(f), 0)))
  {
    var r := ApicRecord(d, id, f, x, t);
    assert [r[2]] + r[9..12] == d && r[4..8] == f;
  }

  lemma X2ApicFields(p: Bytes, d: Bytes, id: Bytes, f: Bytes, t: Bytes)
    requires |p| == 2 && |d| == 4 && |id| == 4 && |f| == 4 && |t| == 8
    ensures var r := X2ApicRecord(p, d, id, f, t);
            IsRecord(r) && Decoded(r) == Some(X2Apic(Le32(d), Le32(id), Bit(Le32(f), 0)))
  {
    var r := X2ApicRecord(p, d, id, f, t);
    assert r[4..8] == d && r[8..12] == id && r[12..16] == f;
  }

  lemma MemoryFields(d: Bytes, p: Bytes, b: Bytes, l: Bytes, q: Bytes, f: Bytes, t: Bytes)
    requires |d| == 4 && |p| == 2 && |b| == 8 && |l| == 8 && |q| == 4 && |f| == 4 && |t| == 8
    ensures var r := MemoryRecord(d, p, b, l, q, f, t);
            IsRecord(r) && Decoded(r) == Some(Memory(Le32(d), Le64(b), Le64(l), Bit(Le32(f), 0)))
  {
    var r := MemoryRecord(d, p, b, l, q, f, t);
    assert r[2..6] == d && r[8..16] == b && r[16..24] == l && r[28..32] == f;
  }

  /** Any flags and any reserved bytes: bit 0 of the flags enables the entry. */
  lemma DecodeApic(domain: u32, id: u8, flags: u32, x: u8, t: Bytes)
    requires |t| == 4
    ensures var r := ApicRecord(ToLe(domain, 4), id, ToLe(flags, 4), x, t);
            IsRecord(r) && Decoded(r) == Some(Apic(domain, id, flags % 2 == 1))
  {
    ApicFields(ToLe(domain, 4), id, ToLe(flags, 4), x, t);
    Le32RoundTrip(domain);
    Le32RoundTrip(flags);
  }

  lemma DecodeX2Apic(p: Bytes, domain: u32, id: u32, flags: u32, t: Bytes)
    requires |p| == 2 && |t| == 8
    ensures var r := X2ApicRecord(p, ToLe(domain, 4), ToLe(id, 4), ToLe(flags, 4), t);
            IsRecord(r) && Decoded(r) == Some(X2Apic(domain, id, flags % 2 == 1))
  {
    X2ApicFields(p, ToLe(domain, 4), ToLe(id, 4), ToLe(flags, 4), t);
    Le32RoundTrip(domain);
    Le32RoundTrip(id);
    Le32RoundTrip(flags);
  }

  lemma DecodeMemory(domain: u32, p: Bytes, base: u64, length: u64, q: Bytes, flags: u32, t: Bytes)
    requires |p| == 2 && |q| == 4 && |t| == 8
    ensures var r := MemoryRecord(ToLe(domain, 4), p, ToLe(base, 8), ToLe(length, 8), q, ToLe(flags, 4), t);
            IsRecord(r) && Decoded(r) == Some(Memory(domain, base, length, flags % 2 == 1))
  {
    MemoryFields(ToLe(domain, 4), p, ToLe(base, 8), ToLe(length, 8), q, ToLe(flags, 4), t);
    Le32RoundTrip(domain);
    Le64RoundTrip(base);
    Le64RoundTrip(length);
    Le32RoundTrip(flags);
  }

  /** Records of unknown type are passed over whatever their length; a known type must have its own. */
  lemma DecodeFailsIff(r: Bytes)
    requires IsRecord(r)
    ensures Decoded(r) == None <==> (r[0] == 0 && |r| != 16) || (r[0] == 1 && |r| != 40) || (r[0] == 2 && |r| != 24)
    ensures r[0] > 2 ==> Decoded(r) == Some(Other(r[0]))
  {
  }

  lemma ApicEncoded(domain: u32, id: u8, enabled: bool)
    ensures var e := Apic(domain, id, enabled); IsRecord(Encode(e)) && Decoded(Encode(e)) == Some(e)
  {
    DecodeApic(domain, id, FlagWord(enabled), 0, ToLe(0, 4));
  }

  lemma X2ApicEncoded(domain: u32, id: u32, enabled: bool)
    ensures var e := X2Apic(domain, id, enabled); IsRecord(Encode(e)) && Decoded(Encode(e)) == Some(e)
  {
    DecodeX2Apic(ToLe(0, 2), domain, id, FlagWord(enabled), ToLe(0, 8));
  }

  lemma MemoryEncoded(domain: u32, base: u64, length: u64, enabled: bool)
    ensures var e := Memory(domain, base, length, enabled); IsRecord(Encode(e)) && Decoded(Encode(e)) == Some(e)
  {
    DecodeMemory(domain, ToLe(0, 2), base, length, ToLe(0, 4), FlagWord(enabled), ToLe(0, 8));
  }

  /** Decoding an encoded entry gives the entry back. */
  lemma DecodeEncode(e: Entry)
    requires WellFormed(e)
    ensures IsRecord(Encode(e)) && Decoded(Encode(e)) == Some(e)
  {
    match e
    case Apic(domain, id, enabled) => ApicEncoded(domain, id, enabled);
    case Memory(domain, base, length, enabled) => MemoryEncoded(domain, base, length, enabled);
    case X2Apic(domain, id, enabled) => X2ApicEncoded(domain, id, enabled);
    case Other(typ) =>
  }

  // ----- absorbing entries -----

  function AddApic(st: Domains, id: u32, domain: u32, enabled: bool): Option<Domains> {
    if !enabled then Some(st)
    else if id in st.apics then None
    else Some(st.(apics := st.apics[id := domain]))
  }

  function RangesOf(st: Domains, domain: u32): seq<Range> {
    if domain in st.memory then st.memory[domain] else []
  }

  function AddMemory(st: Domains, domain: u32, base: u64, length: u64, enabled: bool): Option<Domains> {
    if length == 0 || !enabled then Some(st)
    else if base + (length - 1) > U64_MAX then None
    else
      var s := Inserted(RangesOf(st, domain), Range(base, base + (length - 1)));
      if |s| > RangeSets.CAPACITY then None else Some(st.(memory := st.memory[domain := s]))
  }

  /** One entry; `None` is a panic: a duplicate APIC, a range past the end of the address space, or a full
      range set. */
  function Absorbed(st: Domains, e: Entry): Option<Domains> {
    match e
    case Apic(domain, id, enabled) => AddApic(st, id, domain, enabled)
    case X2Apic(domain, id, enabled) => AddApic(st, id, domain, enabled)
    case Memory(domain, base, length, enabled) => AddMemory(st, domain, base, length, enabled)
    case Other(_) => Some(st)
  }

  function Summary(es: seq<Entry>): Option<Domains> {
    if es == [] then Some(EMPTY)
    else match Summary(es[..|es| - 1])
      case None => None
      case Some(st) => Absorbed(st, es[|es| - 1])
  }

  function Interpreted(rs: seq<Bytes>): Option<Domains>
    requires AreRecords(rs)
  {
    if rs == [] then Some(EMPTY)
    else match (Interpreted(rs[..|rs| - 1]), Decoded(rs[|rs| - 1]))
      case (Some(st), Some(e)) => Absorbed(st, e)
      case _ => None
  }

  lemma {:induction false} FailureLasts(rs: seq<Bytes>, n: nat)
    requires AreRecords(rs) && n <= |rs| && Interpreted(rs[..n]) == None
    ensures Interpreted(rs) == None
  {
    if n == |rs| {
      assert rs[..n] == rs;
    } else {
      assert rs[..|rs| - 1][..n] == rs[..n];
      FailureLasts(rs[..|rs| - 1], n);
    }
  }

  lemma InterpretNext(done: seq<Bytes>, r: Bytes)
    requires AreRecords(done) && IsRecord(r)
    ensures AreRecords(done + [r])
    ensures Interpreted(done + [r]) ==
              match (Interpreted(done), Decoded(r))
              case (Some(st), Some(e)) => Absorbed(st, e)
              case _ => None
  {
    assert (done + [r])[..|done|] == done;
  }

  /** One turn of the loop moves a record from what is left to what is done. */
  lemma RecordDone(b: Bytes, cur: nat, end: nat, done: seq<Bytes>)
    requires end <= |b| && HasRecord(b, cur, end) && b[cur + 1] >= 2
    ensures var r := b[cur..cur + b[cur + 1]];
            done + Records(b, cur, end) == done + [r] + Records(b, cur + b[cur + 1], end)
  {
    RecordsUnfold(b, cur, end);
    ConcatAssoc(done, [b[cur..cur + b[cur + 1]]], Records(b, cur + b[cur + 1], end));
  }

  lemma FailureAtNext(done: seq<Bytes>, rest: seq<Bytes>)
    requires AreRecords(done) && AreRecords(done + rest) && Interpreted(done) == None
    ensures Interpreted(done + rest) == None
  {
    assert (done + rest)[..|done|] == done;
    FailureLasts(done + rest, |done|);
  }

  /** The parser accepts exactly the tables it can walk and interpret, and returns the interpretation. */
  method ParseSrat(b: Bytes, start: nat, end: nat) returns (ok: bool, st: Domains)
    requires end <= |b|
    ensures AreRecords(Records(b, start, end))
    ensures ok <==> !Broken(b, start, end) && Interpreted(Records(b, start, end)).Some?
    ensures ok ==> Interpreted(Records(b, start, end)) == Some(st)
  {
    RecordsAreRecords(b, start, end);
    ghost var all, done := Records(b, start, end), [];
    st := EMPTY;
    var sra := start;
    while true
      invariant AreRecords(done) && all == done + Records(b, sra, end)
      invariant Broken(b, start, end) <==> Broken(b, sra, end)
      invariant Interpreted(done) == Some(st)
      decreases end - sra
    {
      if sra + 2 > end {
        break;
      }
      var len := b[sra + 1];
      if sra + len > end {
        break;
      }
      if len < 2 {
        return false, st;
      }
      var r := b[sra..sra + len];
      RecordDone(b, sra, end, done);
      RecordsUnfold(b, sra, end);
      InterpretNext(done, r);
      done := done + [r];
      var e := Decoded(r);
      var next := if e.Some? then Absorbed(st, e.value) else None;
      if next.None? {
        FailureAtNext(done, Records(b, sra + len, end));
        return false, st;
      }
      st := next.value;
      sra := sra + len;
    }
    assert all == done;
    return true, st;
  }
}
