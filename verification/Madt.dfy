/** The two readers of the MADT: the kernel's parser and the bootloader's iterator over local APICs. */
module Madt {
  import opened Machine
  import opened Bits
  import opened AcpiTables

  datatype LocalApic = LocalApic(typ: u8, length: u8, processorUid: u8, id: u8, flags: nat)

  /** The record read as a local APIC structure. */
  function LapicOf(r: Bytes): LocalApic
    requires |r| >= 8
  {
    LocalApic(r[0], r[1], r[2], r[3], FromLe(r[4..8]))
  }

  /** Enabled, or able to be enabled. */
  predicate IsUsableLapic(l: LocalApic) { Bit(l.flags, 0) || Bit(l.flags, 1) }

  predicate IsLapic(r: Bytes)
    requires |r| >= 2
  {
    r[0] == 0 || r[0] == 9
  }

  /** The length each known type must have, for the bootloader and for the kernel. */
  predicate BootShape(r: Bytes)
    requires |r| >= 2
  {
    (r[0] == 0 ==> |r| == 8) && (r[0] == 9 ==> |r| == 16)
  }

  predicate KernelShape(r: Bytes)
    requires |r| >= 2
  {
    BootShape(r) && (r[0] == 1 ==> |r| == 12) && (r[0] == 2 ==> |r| == 10) && (r[0] == 3 ==> |r| == 8)
  }

  /** Which records make the bootloader and the kernel panic. */
  lemma WrongShapeIff(r: Bytes)
    requires |r| >= 2
    ensures !BootShape(r) <==> (r[0] == 0 && |r| != 8) || (r[0] == 9 && |r| != 16)
    ensures !KernelShape(r)
       <==> || (r[0] == 0 && |r| != 8) || (r[0] == 1 && |r| != 12) || (r[0] == 2 && |r| != 10)
            || (r[0] == 3 && |r| != 8) || (r[0] == 9 && |r| != 16)
  {
  }

  ghost predicate AllBoot(rs: seq<Bytes>)
    requires AreRecords(rs)
  {
    forall i :: 0 <= i < |rs| ==> BootShape(rs[i])
  }

  ghost predicate AllKernel(rs: seq<Bytes>)
    requires AreRecords(rs)
  {
    forall i :: 0 <= i < |rs| ==> KernelShape(rs[i])
  }

  /** What a record contributes to the list of local APICs. */
  function LapicsIn(r: Bytes): seq<LocalApic>
    requires |r| >= 2 && BootShape(r)
  {
    if IsLapic(r) && IsUsableLapic(LapicOf(r)) then [LapicOf(r)] else []
  }

  /** The usable local APICs of a list of records, in order. */
  function Lapics(rs: seq<Bytes>): seq<LocalApic>
    requires AreRecords(rs) && AllBoot(rs)
  {
    if rs == [] then [] else LapicsIn(rs[0]) + Lapics(rs[1..])
  }

  /** An interrupt source override that changes something. */
  predicate IsRealOverride(r: Bytes)
    requires |r| == 10
  {
    r[3] != FromLe(r[4..8])
  }

  /** The records of one type, for the lists the kernel keeps besides the local APICs. */
  function OfType(rs: seq<Bytes>, typ: u8): seq<Bytes>
    requires AreRecords(rs)
  {
    if rs == [] then [] else (if rs[0][0] == typ then [rs[0]] else []) + OfType(rs[1..], typ)
  }

  function RealOverrides(rs: seq<Bytes>): seq<Bytes>
    requires AreRecords(rs) && AllKernel(rs)
  {
    if rs == [] then []
    else (if rs[0][0] == 2 && IsRealOverride(rs[0]) then [rs[0]] else []) + RealOverrides(rs[1..])
  }

  datatype Tables = Tables(lapics: seq<LocalApic>, ioApics: seq<Bytes>, overrides: seq<Bytes>, nmis: seq<Bytes>)

  /** What the kernel makes of a list of records. */
  function TablesOf(rs: seq<Bytes>): Tables
    requires AreRecords(rs) && AllKernel(rs)
  {
    Tables(Lapics(rs), OfType(rs, 1), RealOverrides(rs), OfType(rs, 3))
  }

  function Joined(a: Tables, b: Tables): Tables {
    Tables(a.lapics + b.lapics, a.ioApics + b.ioApics, a.overrides + b.overrides, a.nmis + b.nmis)
  }

  /** What one record adds. */
  function TablesIn(r: Bytes): Tables
    requires IsRecord(r) && KernelShape(r)
  {
    Tables(LapicsIn(r), if r[0] == 1 then [r] else [],
           if r[0] == 2 && IsRealOverride(r) then [r] else [], if r[0] == 3 then [r] else [])
  }

  lemma JoinedAssoc(a: Tables, b: Tables, c: Tables)
    ensures Joined(Joined(a, b), c) == Joined(a, Joined(b, c))
  {
  }

  lemma JoinedNothing(t: Tables)
    ensures Joined(NOTHING, t) == t && Joined(t, NOTHING) == t
  {
    assert [] + t.lapics == t.lapics && [] + t.ioApics == t.ioApics;
    assert [] + t.overrides == t.overrides && [] + t.nmis == t.nmis;
  }

  // ----- the kernel's parser -----

  const NOTHING := Tables([], [], [], [])

  /** The kernel's walk from `cur` on; `None` is a panic. */
  function Parsed(b: Bytes, cur: nat, end: nat): Option<Tables>
    requires end <= |b|
    decreases end - cur
  {
    if !HasRecord(b, cur, end) then Some(NOTHING)
    else if b[cur + 1] < 2 then None
    else
      var r := b[cur..cur + b[cur + 1]];
      if !KernelShape(r) then None
      else match Parsed(b, cur + b[cur + 1], end)
        case None => None
        case Some(t) => Some(Joined(TablesIn(r), t))
  }

  /** The kernel accepts exactly the tables whose records all have the right length, and returns what the list
      of records says. */
  lemma {:induction false} ParsedIsRecords(b: Bytes, cur: nat, end: nat)
    requires end <= |b|
    ensures AreRecords(Records(b, cur, end))
    ensures Parsed(b, cur, end).Some? <==> !Broken(b, cur, end) && AllKernel(Records(b, cur, end))
    ensures Parsed(b, cur, end).Some? ==> Parsed(b, cur, end).value == TablesOf(Records(b, cur, end))
    decreases end - cur
  {
    RecordsAreRecords(b, cur, end);
    if HasRecord(b, cur, end) && b[cur + 1] >= 2 {
      RecordsUnfold(b, cur, end);
      ParsedIsRecords(b, cur + b[cur + 1], end);
      KernelCons(b[cur..cur + b[cur + 1]], Records(b, cur + b[cur + 1], end));
    }
  }

  lemma KernelCons(r: Bytes, rs: seq<Bytes>)
    requires IsRecord(r) && AreRecords(rs)
    ensures AreRecords([r] + rs)
    ensures AllKernel([r] + rs) <==> KernelShape(r) && AllKernel(rs)
    ensures AllKernel([r] + rs) ==> TablesOf([r] + rs) == Joined(TablesIn(r), TablesOf(rs))
  {
    var all := [r] + rs;
    assert all[0] == r && all[1..] == rs;
    assert forall i :: 0 <= i < |rs| ==> all[i + 1] == rs[i];
  }

  function Prepended(t: Tables, rest: Option<Tables>): Option<Tables> {
    match rest
    case None => None
    case Some(u) => Some(Joined(t, u))
  }

  lemma PrependedTwice(t: Tables, u: Tables, rest: Option<Tables>)
    ensures Prepended(t, Prepended(u, rest)) == Prepended(Joined(t, u), rest)
    ensures Prepended(NOTHING, rest) == rest
    ensures Prepended(t, Some(NOTHING)) == Some(t)
  {
    JoinedNothing(t);
    if rest.Some? {
      JoinedAssoc(t, u, rest.value);
      JoinedNothing(rest.value);
    }
  }

  lemma ParsedStep(t: Tables, b: Bytes, cur: nat, end: nat)
    requires end <= |b| && HasRecord(b, cur, end) && b[cur + 1] >= 2
    ensures var r, rest := b[cur..cur + b[cur + 1]], Parsed(b, cur + b[cur + 1], end);
            Prepended(t, Parsed(b, cur, end)) ==
            if KernelShape(r) then Prepended(Joined(t, TablesIn(r)), rest) else None
  {
    var r := b[cur..cur + b[cur + 1]];
    if KernelShape(r) {
      PrependedTwice(t, TablesIn(r), Parsed(b, cur + |r|, end));
    }
  }

  method ParseMadt(b: Bytes, start: nat, end: nat) returns (ok: bool, t: Tables)
    requires end <= |b|
    ensures Parsed(b, start, end) == if ok then Some(t) else None
  {
    t := NOTHING;
    var ics := start;
    PrependedTwice(t, t, Parsed(b, ics, end));
    while true
      invariant Parsed(b, start, end) == Prepended(t, Parsed(b, ics, end))
      decreases end - ics
    {
      if ics + 2 > end {
        break;
      }
      var len := b[ics + 1];
      if ics + len > end {
        break;
      }
      if len < 2 {
        return false, t;
      }
      ParsedStep(t, b, ics, end);
      var accepted, more := ReadRecord(b[ics..ics + len]);
      if !accepted {
        return false, t;
      }
      t := Joined(t, more);
      ics := ics + len;
    }
    PrependedTwice(t, t, None);
    return true, t;
  }

  /** The body of the kernel's loop: checks and reads one record. */
  method ReadRecord(r: Bytes) returns (ok: bool, t: Tables)
    requires IsRecord(r)
    ensures ok <==> KernelShape(r)
    ensures ok ==> t == TablesIn(r)
  {
    t := NOTHING;
    ok := true;
    match r[0] {
      case 0 =>
        if |r| != 8 { return false, t; }
        var lapic := LapicOf(r);
        if IsUsableLapic(lapic) { t := t.(lapics := [lapic]); }
      case 1 =>
        if |r| != 12 { return false, t; }
        t := t.(ioApics := [r]);
      case 3 =>
        if |r| != 8 { return false, t; }
        t := t.(nmis := [r]);
      case 2 =>
        if |r| != 10 { return false, t; }
        if r[3] != FromLe(r[4..8]) { t := t.(overrides := [r]); }
      case 9 =>
        if |r| != 16 { return false, t; }
        var lapic := LapicOf(r);
        if IsUsableLapic(lapic) { t := t.(lapics := [lapic]); }
      case _ =>
    }
  }

  // ----- the bootloader's iterator -----

  /** One call of the iterator: the next usable local APIC and where the walk goes on, the end, or a panic. */
  datatype Item = Lapic(lapic: LocalApic, next: nat) | End(next: nat) | Panic

  function NextItem(b: Bytes, cur: nat, end: nat): (i: Item)
    requires end <= |b|
    ensures i.Lapic? ==> cur < i.next <= end
    decreases end - cur
  {
    if !HasRecord(b, cur, end) then End(cur)
    else if b[cur + 1] < 2 then Panic
    else
      var r := b[cur..cur + b[cur + 1]];
      if !BootShape(r) then Panic
      else if LapicsIn(r) != [] then Lapic(LapicOf(r), cur + b[cur + 1])
      else NextItem(b, cur + b[cur + 1], end)
  }

  class LapicIter {
    const mem: Bytes
    var current: nat
    const end: nat

    ghost predicate Valid() { end <= |mem| }

    constructor (mem: Bytes, start: nat, end: nat)
      requires end <= |mem|
      ensures Valid() && this.mem == mem && current == start && this.end == end
    {
      this.mem, current, this.end := mem, start, end;
    }

    method Next() returns (ok: bool, r: Option<LocalApic>)
      requires Valid()
      modifies this
      ensures Valid()
      ensures match NextItem(mem, old(current), end)
              case Lapic(lapic, next) => ok && r == Some(lapic) && current == next
              case End(next) => ok && r == None && current == next
              case Panic => !ok
    {
      ghost var item := NextItem(mem, current, end);
      while true
        invariant item == NextItem(mem, current, end)
        decreases end - current
      {
        if current + 2 > end {
          break;
        }
        var typ, len := mem[current], mem[current + 1];
        if current + len > end {
          break;
        }
        if len < 2 {
          return false, None;
        }
        var r := mem[current..current + len];
        if typ == 0 || typ == 9 {
          if len != if typ == 0 then 8 else 16 {
            return false, None;
          }
          var lapic := LapicOf(r);
          current := current + len;
          if IsUsableLapic(lapic) {
            return true, Some(lapic);
          }
        } else {
          current := current + len;
        }
      }
      return true, None;
    }
  }

  /** The list drained from the iterator; `None` is a panic. */
  function Drained(b: Bytes, cur: nat, end: nat): Option<seq<LocalApic>>
    requires end <= |b|
    decreases end - cur
  {
    match NextItem(b, cur, end)
    case Panic => None
    case End(_) => Some([])
    case Lapic(lapic, next) =>
      match Drained(b, next, end)
      case None => None
      case Some(rest) => Some([lapic] + rest)
  }

  /** Draining record by record instead of call by call. */
  lemma DrainedUnfold(b: Bytes, cur: nat, end: nat)
    requires end <= |b| && HasRecord(b, cur, end) && b[cur + 1] >= 2
    ensures var r, rest := b[cur..cur + b[cur + 1]], Drained(b, cur + b[cur + 1], end);
            Drained(b, cur, end) == if !BootShape(r) || rest == None then None else Some(LapicsIn(r) + rest.value)
  {
    var r, rest := b[cur..cur + b[cur + 1]], Drained(b, cur + b[cur + 1], end);
    if BootShape(r) && LapicsIn(r) == [] && rest.Some? {
      assert LapicsIn(r) + rest.value == rest.value;
    }
  }

  /** The iterator yields the usable local APICs of the list of records, unless one of the records it looks at
      is malformed. */
  lemma {:induction false} DrainedIsRecords(b: Bytes, cur: nat, end: nat)
    requires end <= |b|
    ensures AreRecords(Records(b, cur, end))
    ensures Drained(b, cur, end).Some? <==> !Broken(b, cur, end) && AllBoot(Records(b, cur, end))
    ensures Drained(b, cur, end).Some? ==> Drained(b, cur, end).value == Lapics(Records(b, cur, end))
    decreases end - cur
  {
    RecordsAreRecords(b, cur, end);
    if HasRecord(b, cur, end) && b[cur + 1] >= 2 {
      RecordsUnfold(b, cur, end);
      DrainedUnfold(b, cur, end);
      DrainedIsRecords(b, cur + b[cur + 1], end);
      BootCons(b[cur..cur + b[cur + 1]], Records(b, cur + b[cur + 1], end));
    }
  }

  lemma BootCons(r: Bytes, rs: seq<Bytes>)
    requires IsRecord(r) && AreRecords(rs)
    ensures AreRecords([r] + rs)
    ensures AllBoot([r] + rs) <==> BootShape(r) && AllBoot(rs)
    ensures AllBoot([r] + rs) ==> Lapics([r] + rs) == LapicsIn(r) + Lapics(rs)
  {
    var all := [r] + rs;
    assert all[0] == r && all[1..] == rs;
    assert forall i :: 0 <= i < |rs| ==> all[i + 1] == rs[i];
  }

  /** The two readers agree: on every table the kernel accepts, the bootloader's iterator yields exactly the
      kernel's list of local APICs, in the same order. */
  lemma ReadersAgree(b: Bytes, start: nat, end: nat)
    requires end <= |b| && Parsed(b, start, end).Some?
    ensures Drained(b, start, end) == Some(Parsed(b, start, end).value.lapics)
  {
    ParsedIsRecords(b, start, end);
    DrainedIsRecords(b, start, end);
  }

  /** The iterator never panics where the kernel does not; the kernel alone panics exactly when the only
      malformed records are of the types the iterator skips. */
  lemma KernelIsStricter(b: Bytes, start: nat, end: nat)
    requires end <= |b|
    ensures AreRecords(Records(b, start, end))
    ensures Drained(b, start, end).Some? && Parsed(b, start, end) == None
       <==> && !Broken(b, start, end) && AllBoot(Records(b, start, end)) && !AllKernel(Records(b, start, end))
  {
    ParsedIsRecords(b, start, end);
    DrainedIsRecords(b, start, end);
  }
}
