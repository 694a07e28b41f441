/** What a parsed SRAT says: which tables are accepted and what the two resulting maps hold, in terms of
    the entries alone. */
module SratMeaning {
  import opened Machine
  import opened AcpiTables
  import opened Ranges
  import opened RangeSum
  import RangeSets
  import opened Srat

  // ----- the entries -----

  /** The entry places an APIC in a domain. */
  predicate Places(e: Entry, id: u32, domain: u32) {
    (e.Apic? || e.X2Apic?) && e.enabled && e.apicId == id && e.domain == domain
  }

  /** The entry adds memory to a domain. */
  predicate Feeds(e: Entry, domain: u32) {
    e.Memory? && e.enabled && e.length > 0 && e.domain == domain
  }

  predicate Provides(e: Entry, domain: u32, x: int) {
    Feeds(e, domain) && e.base <= x < e.base + e.length
  }

  ghost predicate Placed(es: seq<Entry>, id: u32, domain: u32) {
    exists e :: e in es && Places(e, id, domain)
  }

  ghost predicate Fed(es: seq<Entry>, domain: u32) {
    exists e :: e in es && Feeds(e, domain)
  }

  ghost predicate ProvidedBy(es: seq<Entry>, domain: u32, x: int) {
    exists e :: e in es && Provides(e, domain, x)
  }

  /** The memory the entries give to a domain. */
  ghost function Provided(es: seq<Entry>, domain: u32): set<int> {
    set x: int | 0 <= x <= U64_MAX && ProvidedBy(es, domain, x)
  }

  lemma LastEntry(es: seq<Entry>)
    requires es != []
    ensures forall e :: e in es <==> e in es[..|es| - 1] || e == es[|es| - 1]
  {
    assert es == es[..|es| - 1] + [es[|es| - 1]];
  }

  // ----- the APICs -----

  /** An accepted table maps exactly the enabled APICs, each to the domain its entry names. */
  lemma {:induction false} ApicsAreThePlaced(es: seq<Entry>, id: u32, domain: u32)
    requires Summary(es).Some?
    ensures var apics := Summary(es).value.apics;
            id in apics && apics[id] == domain <==> Placed(es, id, domain)
  {
    if es != [] {
      var init, last := es[..|es| - 1], es[|es| - 1];
      ApicsAreThePlaced(init, id, domain);
      LastEntry(es);
      PlacedNext(init, last, id, domain);
    }
  }

  lemma PlacedNext(init: seq<Entry>, last: Entry, id: u32, domain: u32)
    requires Summary(init).Some? && Absorbed(Summary(init).value, last).Some?
    requires var apics := Summary(init).value.apics;
             id in apics && apics[id] == domain <==> Placed(init, id, domain)
    ensures var apics := Absorbed(Summary(init).value, last).value.apics;
            id in apics && apics[id] == domain <==> Placed(init, id, domain) || Places(last, id, domain)
  {
  }

  // ----- the memory -----

  lemma RangeOfEntry(e: Entry, domain: u32)
    requires Feeds(e, domain) && e.base + (e.length - 1) <= U64_MAX
    ensures Shaped(Range(e.base, e.base + (e.length - 1)))
    ensures forall x :: Has(Range(e.base, e.base + (e.length - 1)), x) <==> Provides(e, domain, x)
  {
  }

  lemma ProvidedNext(es: seq<Entry>, domain: u32)
    requires es != []
    ensures forall x :: ProvidedBy(es, domain, x) <==>
              ProvidedBy(es[..|es| - 1], domain, x) || Provides(es[|es| - 1], domain, x)
  {
    LastEntry(es);
  }

  /** What adding the last entry does to the memory of its domain, whether or not there is room. */
  lemma FeedingCovers(es: seq<Entry>, s: seq<Range>, domain: u32)
    requires es != [] && Feeds(es[|es| - 1], domain)
    requires es[|es| - 1].base + (es[|es| - 1].length - 1) <= U64_MAX
    requires Canonical(s) && Covered(s) == Provided(es[..|es| - 1], domain)
    ensures var e := es[|es| - 1];
            var t := Inserted(s, Range(e.base, e.base + (e.length - 1)));
            Canonical(t) && Covered(t) == Provided(es, domain) && |t| == |RunStarts(Provided(es, domain))|
  {
    var e := es[|es| - 1];
    var r := Range(e.base, e.base + (e.length - 1));
    RangeOfEntry(e, domain);
    InsertedCanonical(s, r);
    InsertedCovers(s, r);
    ProvidedNext(es, domain);
    EntriesAreRuns(Inserted(s, r));
  }

  lemma OthersKeepTheirs(es: seq<Entry>, domain: u32)
    requires es != [] && !Feeds(es[|es| - 1], domain)
    ensures Provided(es, domain) == Provided(es[..|es| - 1], domain)
  {
    ProvidedNext(es, domain);
  }

  /** An accepted table gives each domain exactly the memory its enabled entries cover, as a canonical
      list: no two of its ranges overlap or touch. */
  lemma {:induction false} MemoryIsTheProvided(es: seq<Entry>, domain: u32)
    requires Summary(es).Some?
    ensures Canonical(RangesOf(Summary(es).value, domain))
    ensures Covered(RangesOf(Summary(es).value, domain)) == Provided(es, domain)
  {
    if es == [] {
      assert Covered([]) == {};
    } else {
      var init, last := es[..|es| - 1], es[|es| - 1];
      MemoryIsTheProvided(init, domain);
      if Feeds(last, domain) {
        FeedingCovers(es, RangesOf(Summary(init).value, domain), domain);
      } else {
        OthersKeepTheirs(es, domain);
      }
    }
  }

  /** Exactly the domains some enabled, non-empty entry names have a range set. */
  lemma {:induction false} DomainsAreTheFed(es: seq<Entry>, domain: u32)
    requires Summary(es).Some?
    ensures domain in Summary(es).value.memory <==> Fed(es, domain)
  {
    if es != [] {
      DomainsAreTheFed(es[..|es| - 1], domain);
      LastEntry(es);
      assert Fed(es, domain) <==> Fed(es[..|es| - 1], domain) || Feeds(es[|es| - 1], domain);
    }
  }

  // ----- acceptance -----

  predicate IsApic(e: Entry) { e.Apic? || e.X2Apic? }

  /** An enabled APIC is new. */
  ghost predicate IsNew(before: seq<Entry>, e: Entry) {
    IsApic(e) && e.enabled ==> forall d :: !Placed(before, e.apicId, d)
  }

  /** A non-empty enabled range ends inside the address space and leaves its domain with no more than
      256 maximal runs of addresses. */
  ghost predicate HasRoom(es: seq<Entry>, n: nat)
    requires n < |es|
  {
    var e := es[n];
    e.Memory? && Feeds(e, e.domain) ==>
      && e.base + (e.length - 1) <= U64_MAX
      && |RunStarts(Provided(es[..n + 1], e.domain))| <= RangeSets.CAPACITY
  }

  ghost predicate Admissible(es: seq<Entry>, n: nat)
    requires n < |es|
  {
    IsNew(es[..n], es[n]) && HasRoom(es, n)
  }

  lemma AdmissibleInPrefix(es: seq<Entry>, m: nat, n: nat)
    requires n < m <= |es|
    ensures Admissible(es[..m], n) <==> Admissible(es, n)
  {
    assert es[..m][..n] == es[..n];
    assert es[..m][..n + 1] == es[..n + 1];
  }

  lemma ApicAdded(es: seq<Entry>)
    requires es != [] && Summary(es[..|es| - 1]).Some? && IsApic(es[|es| - 1])
    ensures Summary(es).Some? <==> IsNew(es[..|es| - 1], es[|es| - 1])
  {
    var init, last := es[..|es| - 1], es[|es| - 1];
    var apics := Summary(init).value.apics;
    forall d ensures last.apicId in apics && apics[last.apicId] == d <==> Placed(init, last.apicId, d) {
      ApicsAreThePlaced(init, last.apicId, d);
    }
    if last.apicId in apics {
      assert Placed(init, last.apicId, apics[last.apicId]);
    }
  }

  /** Whether there is room in the range set is a matter of what the entries cover. */
  lemma RoomIff(es: seq<Entry>)
    requires es != [] && Summary(es[..|es| - 1]).Some? && es[|es| - 1].Memory?
    requires var e := es[|es| - 1]; Feeds(e, e.domain) && e.base + (e.length - 1) <= U64_MAX
    ensures var e, st := es[|es| - 1], Summary(es[..|es| - 1]).value;
            AddMemory(st, e.domain, e.base, e.length, e.enabled).Some? <==>
            |RunStarts(Provided(es, e.domain))| <= RangeSets.CAPACITY
  {
    var init, e := es[..|es| - 1], es[|es| - 1];
    MemoryIsTheProvided(init, e.domain);
    FeedingCovers(es, RangesOf(Summary(init).value, e.domain), e.domain);
  }

  lemma MemoryAdded(es: seq<Entry>)
    requires es != [] && Summary(es[..|es| - 1]).Some? && es[|es| - 1].Memory?
    ensures Summary(es).Some? <==> HasRoom(es, |es| - 1)
  {
    var e := es[|es| - 1];
    assert es[..|es|] == es;
    if Feeds(e, e.domain) && e.base + (e.length - 1) <= U64_MAX {
      RoomIff(es);
    }
  }

  lemma LastAccepted(es: seq<Entry>)
    requires es != [] && Summary(es[..|es| - 1]).Some?
    ensures Summary(es).Some? <==> Admissible(es, |es| - 1)
  {
    match es[|es| - 1]
    case Apic(_, _, _) => ApicAdded(es);
    case X2Apic(_, _, _) => ApicAdded(es);
    case Memory(_, _, _, _) => MemoryAdded(es);
    case Other(_) =>
  }

  /** A table is accepted if and only if every entry is admissible after the ones before it. */
  lemma {:induction false} AcceptedIff(es: seq<Entry>)
    ensures Summary(es).Some? <==> forall n :: 0 <= n < |es| ==> Admissible(es, n)
  {
    if es != [] {
      var init := es[..|es| - 1];
      AcceptedIff(init);
      forall n | 0 <= n < |init| ensures Admissible(init, n) <==> Admissible(es, n) {
        AdmissibleInPrefix(es, |es| - 1, n);
      }
      if Summary(init).Some? {
        LastAccepted(es);
      }
    }
  }

  // ----- from bytes -----

  /** The entries of a list of records; nothing if a known type has the wrong length. */
  function EntriesOf(rs: seq<Bytes>): Option<seq<Entry>>
    requires AreRecords(rs)
  {
    if rs == [] then Some([])
    else match (EntriesOf(rs[..|rs| - 1]), Decoded(rs[|rs| - 1]))
      case (Some(es), Some(e)) => Some(es + [e])
      case _ => None
  }

  lemma SummaryNext(es: seq<Entry>, e: Entry)
    ensures Summary(es + [e]) == match Summary(es) case None => None case Some(st) => Absorbed(st, e)
  {
    assert (es + [e])[..|es|] == es;
  }

  /** Whatever the records hold besides the fields that are read, a table means the summary of its entries, and is
      rejected if a record does not decode. */
  lemma {:induction false} InterpretIsSummary(rs: seq<Bytes>)
    requires AreRecords(rs)
    ensures Interpreted(rs) == match EntriesOf(rs) case None => None case Some(es) => Summary(es)
  {
    if rs != [] {
      InterpretIsSummary(rs[..|rs| - 1]);
      match (EntriesOf(rs[..|rs| - 1]), Decoded(rs[|rs| - 1]))
      case (Some(es), Some(e)) => SummaryNext(es, e);
      case _ =>
    }
  }

  function EncodeAll(es: seq<Entry>): (rs: seq<Bytes>)
    requires forall e :: e in es ==> WellFormed(e)
  {
    seq(|es|, i requires 0 <= i < |es| => Encode(es[i]))
  }

  lemma {:induction false} EntriesOfEncoding(es: seq<Entry>)
    requires forall e :: e in es ==> WellFormed(e)
    ensures AreRecords(EncodeAll(es)) && EntriesOf(EncodeAll(es)) == Some(es)
  {
    forall i | 0 <= i < |es| ensures IsRecord(EncodeAll(es)[i]) {
      DecodeEncode(es[i]);
    }
    if es != [] {
      EntriesOfEncoding(es[..|es| - 1]);
      DecodeEncode(es[|es| - 1]);
      LastEncoded(es);
    }
  }

  lemma LastEncoded(es: seq<Entry>)
    requires es != [] && forall e :: e in es ==> WellFormed(e)
    ensures EncodeAll(es)[..|es| - 1] == EncodeAll(es[..|es| - 1])
    ensures EncodeAll(es)[|es| - 1] == Encode(es[|es| - 1])
    ensures es == es[..|es| - 1] + [es[|es| - 1]]
  {
  }

  /** Reading the bytes of any list of entries, behind any header, gives the summary of the entries. */
  lemma ParseOfEncoding(header: Bytes, es: seq<Entry>)
    requires forall e :: e in es ==> WellFormed(e)
    ensures AreRecords(EncodeAll(es))
    ensures var b := header + Encoded(EncodeAll(es));
            var rs := Records(b, |header|, |b|);
            !Broken(b, |header|, |b|) && AreRecords(rs) && Interpreted(rs) == Summary(es)
  {
    EntriesOfEncoding(es);
    InterpretIsSummary(EncodeAll(es));
    RecordsOfEncoding(header, EncodeAll(es));
  }
}
