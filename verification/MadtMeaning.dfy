/** What the two readers make of a MADT, field by field, from its entries as ACPI lays them out. */
module MadtMeaning {
  import opened Machine
  import opened Bits
  import opened AcpiTables
  import opened Madt

  /** An entry of the MADT.  Multi-byte fields that only pass through are kept as bytes. */
  datatype Entry =
    | Processor(uid: u8, id: u8, flags: u32)
    | X2Processor(reserved: Bytes, x2Id: u32, flags: u32, x2Uid: u32)
    | IoController(id: u8, pad: u8, address: Bytes, interruptBase: Bytes)
    | Override(bus: u8, source: u8, mappedTo: u32, intiFlags: Bytes)
    | NonMaskable(intiFlags: Bytes, interrupt: Bytes)
    | Unknown(typ: u8, payload: Bytes)

  predicate WellFormed(e: Entry) {
    match e
    case Processor(_, _, _) => true
    case X2Processor(reserved, _, _, _) => |reserved| == 2
    case IoController(_, _, address, interruptBase) => |address| == 4 && |interruptBase| == 4
    case Override(_, _, _, flags) => |flags| == 2
    case NonMaskable(flags, interrupt) => |flags| == 2 && |interrupt| == 4
    case Unknown(typ, payload) => typ > 3 && typ != 9 && |payload| <= 253
  }

  function Encode(e: Entry): Bytes
    requires WellFormed(e)
  {
    match e
    case Processor(uid, id, flags) => [0, 8, uid, id] + ToLe(flags, 4)
    case X2Processor(reserved, x2Id, flags, uid) => [9, 16] + reserved + ToLe(x2Id, 4) + ToLe(flags, 4) + ToLe(uid, 4)
    case IoController(id, reserved, address, interruptBase) => [1, 12, id, reserved] + address + interruptBase
    case Override(bus, source, mappedTo, flags) => [2, 10, bus, source] + ToLe(mappedTo, 4) + flags
    case NonMaskable(flags, interrupt) => [3, 8] + flags + interrupt
    case Unknown(typ, payload) => [typ, |payload| + 2] + payload
  }

  /** Bit 0 says that a processor is enabled, bit 1 that it can be. */
  predicate CanRun(flags: u32) { flags % 2 == 1 || flags / 2 % 2 == 1 }

  /** What an entry adds to the kernel's lists.  An x2APIC entry is read as if it were a local APIC entry: its
      reserved bytes are taken for the ids and its id for the flags. */
  function Adds(e: Entry): Tables
    requires WellFormed(e)
  {
    match e
    case Processor(uid, id, flags) =>
      NOTHING.(lapics := if CanRun(flags) then [LocalApic(0, 8, uid, id, flags)] else [])
    case X2Processor(reserved, x2Id, _, _) =>
      NOTHING.(lapics := if CanRun(x2Id) then [LocalApic(9, 16, reserved[0], reserved[1], x2Id)] else [])
    case IoController(_, _, _, _) => NOTHING.(ioApics := [Encode(e)])
    case Override(_, source, mappedTo, _) => NOTHING.(overrides := if source != mappedTo then [Encode(e)] else [])
    case NonMaskable(_, _) => NOTHING.(nmis := [Encode(e)])
    case Unknown(_, _) => NOTHING
  }

  // ----- one record -----

  lemma Le32(x: u32)
    ensures FromLe(ToLe(x, 4)) == x
  {
    Powers();
    LeRoundTrip(x, 4);
  }

  /** A record read as a local APIC structure, field by field. */
  lemma LapicFields(typ: u8, len: u8, uid: u8, id: u8, f: Bytes, rest: Bytes)
    requires |f| == 4
    ensures var r := [typ, len, uid, id] + f + rest;
            LapicOf(r) == LocalApic(typ, len, uid, id, FromLe(f)) && (IsUsableLapic(LapicOf(r)) <==> CanRun(Word(f)))
  {
    var r := [typ, len, uid, id] + f + rest;
    assert r[4..8] == f;
    LowBits(FromLe(f));
  }

  lemma LowBits(x: nat)
    ensures Bit(x, 0) <==> x % 2 == 1
    ensures Bit(x, 1) <==> x / 2 % 2 == 1
  {
    assert Bit(x, 1) <==> Bit(x / 2, 0);
  }

  function Word(f: Bytes): u32
    requires |f| == 4
  {
    FromLeBound(f);
    Powers();
    FromLe(f)
  }

  lemma ProcessorMeans(uid: u8, id: u8, flags: u32)
    ensures Means(Processor(uid, id, flags))
  {
    Le32(flags);
    LapicFields(0, 8, uid, id, ToLe(flags, 4), []);
    assert [0, 8, uid, id] + ToLe(flags, 4) + [] == [0, 8, uid, id] + ToLe(flags, 4);
  }

  lemma X2ProcessorMeans(reserved: Bytes, x2Id: u32, flags: u32, uid: u32)
    requires |reserved| == 2
    ensures Means(X2Processor(reserved, x2Id, flags, uid))
  {
    var rest := ToLe(flags, 4) + ToLe(uid, 4);
    Le32(x2Id);
    LapicFields(9, 16, reserved[0], reserved[1], ToLe(x2Id, 4), rest);
    X2Layout(reserved, ToLe(x2Id, 4), ToLe(flags, 4), ToLe(uid, 4));
  }

  lemma X2Layout(p: Bytes, d: Bytes, f: Bytes, u: Bytes)
    requires |p| == 2
    ensures [9, 16] + p + d + f + u == [9, 16, p[0], p[1]] + d + (f + u)
  {
  }

  lemma OverrideMeans(bus: u8, source: u8, mappedTo: u32, flags: Bytes)
    requires |flags| == 2
    ensures Means(Override(bus, source, mappedTo, flags))
  {
    Le32(mappedTo);
    assert Encode(Override(bus, source, mappedTo, flags))[4..8] == ToLe(mappedTo, 4);
  }

  /** The encoded entry is a record the kernel accepts and reads as said. */
  ghost predicate Means(e: Entry)
    requires WellFormed(e)
  {
    IsRecord(Encode(e)) && KernelShape(Encode(e)) && TablesIn(Encode(e)) == Adds(e)
  }

  lemma EntryMeans(e: Entry)
    requires WellFormed(e)
    ensures Means(e)
  {
    match e
    case Processor(uid, id, flags) => ProcessorMeans(uid, id, flags);
    case X2Processor(reserved, x2Id, flags, uid) => X2ProcessorMeans(reserved, x2Id, flags, uid);
    case Override(bus, source, mappedTo, flags) => OverrideMeans(bus, source, mappedTo, flags);
    case IoController(_, _, _, _) =>
    case NonMaskable(_, _) =>
    case Unknown(_, _) =>
  }

  // ----- whole tables -----

  ghost predicate AllWellFormed(es: seq<Entry>) { forall i :: 0 <= i < |es| ==> WellFormed(es[i]) }

  ghost function EncodeAll(es: seq<Entry>): (rs: seq<Bytes>)
    requires AllWellFormed(es)
  {
    seq(|es|, i requires 0 <= i < |es| => Encode(es[i]))
  }

  ghost function Meaning(es: seq<Entry>): Tables
    requires AllWellFormed(es)
  {
    if es == [] then NOTHING else Joined(Adds(es[0]), Meaning(es[1..]))
  }

  lemma {:induction false} RecordsMean(es: seq<Entry>)
    requires AllWellFormed(es)
    ensures AreRecords(EncodeAll(es)) && AllKernel(EncodeAll(es)) && TablesOf(EncodeAll(es)) == Meaning(es)
  {
    if es == [] {
      assert EncodeAll(es) == [];
    } else {
      RecordsMean(es[1..]);
      EntryMeans(es[0]);
      KernelCons(Encode(es[0]), EncodeAll(es[1..]));
      assert EncodeAll(es) == [Encode(es[0])] + EncodeAll(es[1..]);
    }
  }

  /** From the bytes of any list of entries, behind any header, the kernel gets the four lists and the bootloader's
      iterator the processors the entries describe, in order. */
  lemma ReadersOfEncoding(header: Bytes, es: seq<Entry>)
    requires AllWellFormed(es)
    ensures var b := header + Encoded(EncodeAll(es));
            Parsed(b, |header|, |b|) == Some(Meaning(es)) && Drained(b, |header|, |b|) == Some(Meaning(es).lapics)
  {
    var b := header + Encoded(EncodeAll(es));
    RecordsMean(es);
    RecordsOfEncoding(header, EncodeAll(es));
    ParsedIsRecords(b, |header|, |b|);
    ReadersAgree(b, |header|, |b|);
  }

  // ----- x2APIC entries -----

  /** An x2APIC processor is listed exactly when its id is no multiple of four: the flags of its entry, which say
      whether it can run, are never looked at. */
  lemma X2ProcessorListedIff(reserved: Bytes, x2Id: u32, flags: u32, uid: u32)
    requires |reserved| == 2
    ensures Adds(X2Processor(reserved, x2Id, flags, uid)).lapics != [] <==> x2Id % 4 != 0
  {
  }

  const MISREAD := [X2Processor([0, 0], 4, 1, 4), X2Processor([0, 0], 1, 0, 1)]

  lemma MisreadMeans()
    ensures AllWellFormed(MISREAD) && Meaning(MISREAD).lapics == [LocalApic(9, 16, 0, 0, 1)]
  {
    var a, c := X2Processor([0, 0], 4, 1, 4), X2Processor([0, 0], 1, 0, 1);
    assert MISREAD[0] == a && MISREAD[1..] == [c] && [c][1..] == [];
    assert Meaning([c]) == Joined(Adds(c), Meaning([]));
  }

  /** Processor 4 is enabled and missing; processor 1 is disabled and listed. */
  lemma X2ProcessorMisread(header: Bytes)
    ensures AllWellFormed(MISREAD)
    ensures var b := header + Encoded(EncodeAll(MISREAD));
            && Drained(b, |header|, |b|) == Some([LocalApic(9, 16, 0, 0, 1)])
            && Parsed(b, |header|, |b|) == Some(Tables([LocalApic(9, 16, 0, 0, 1)], [], [], []))
  {
    MisreadMeans();
    ReadersOfEncoding(header, MISREAD);
  }
}
