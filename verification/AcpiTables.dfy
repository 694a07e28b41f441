/** Type-length records: the common shape of the MADT and SRAT bodies (ACPI 6.3, sections 5.2.12 and 5.2.16). */
module AcpiTables {
  import opened Machine

  type Bytes = seq<u8>

  /** At `cur` there is room for a type and a length, and for as many bytes as the length says. */
  predicate HasRecord(b: Bytes, cur: nat, end: nat)
    requires end <= |b|
  {
    cur + 2 <= end && cur + b[cur + 1] <= end
  }

  /** The records from `cur` on, up to the end or to a length below two. */
  function Records(b: Bytes, cur: nat, end: nat): seq<Bytes>
    requires end <= |b|
    decreases end - cur
  {
    if !HasRecord(b, cur, end) || b[cur + 1] < 2 then []
    else [b[cur..cur + b[cur + 1]]] + Records(b, cur + b[cur + 1], end)
  }

  /** The walk runs into a length below two, which is a panic. */
  predicate Broken(b: Bytes, cur: nat, end: nat)
    requires end <= |b|
    decreases end - cur
  {
    HasRecord(b, cur, end) && (b[cur + 1] < 2 || Broken(b, cur + b[cur + 1], end))
  }

  // ----- encoding -----

  /** A record is at least its two-byte header, and says its own length. */
  predicate IsRecord(r: Bytes) {
    2 <= |r| < 0x100 && r[1] == |r|
  }

  ghost predicate AreRecords(rs: seq<Bytes>) {
    forall i :: 0 <= i < |rs| ==> IsRecord(rs[i])
  }

  function Encoded(rs: seq<Bytes>): Bytes {
    if rs == [] then [] else rs[0] + Encoded(rs[1..])
  }

  lemma RecordsUnfold(b: Bytes, cur: nat, end: nat)
    requires end <= |b| && HasRecord(b, cur, end) && b[cur + 1] >= 2
    ensures Records(b, cur, end) == [b[cur..cur + b[cur + 1]]] + Records(b, cur + b[cur + 1], end)
    ensures Broken(b, cur, end) <==> Broken(b, cur + b[cur + 1], end)
  {
  }

  /** Bytes at which the walk ends: too few for a header, or for the length the header says. */
  predicate Stops(tail: Bytes) { |tail| < 2 || tail[1] > |tail| }

  /** A header whose length is below two. */
  predicate Breaks(tail: Bytes) { |tail| >= 2 && tail[1] < 2 }

  lemma RecordStep(b: Bytes, cur: nat, end: nat, r: Bytes, rs: seq<Bytes>)
    requires end <= |b| && HasRecord(b, cur, end) && b[cur + 1] == |r| >= 2 && b[cur..cur + |r|] == r
    requires rs != [] && rs[0] == r && Records(b, cur + |r|, end) == rs[1..]
    ensures Records(b, cur, end) == rs && (Broken(b, cur, end) <==> Broken(b, cur + |r|, end))
  {
    RecordsUnfold(b, cur, end);
    assert [r] + rs[1..] == rs;
  }

  lemma WalkTail(b: Bytes, cur: nat, end: nat)
    requires cur <= end <= |b| && (Stops(b[cur..end]) || Breaks(b[cur..end]))
    ensures Records(b, cur, end) == [] && (Broken(b, cur, end) <==> Breaks(b[cur..end]))
  {
    var tail := b[cur..end];
    assert |tail| >= 2 ==> tail[1] == b[cur + 1];
  }

  lemma {:induction false} WalkEncoded(b: Bytes, cur: nat, end: nat, rs: seq<Bytes>, tail: Bytes)
    requires AreRecords(rs) && cur <= end <= |b| && b[cur..end] == Encoded(rs) + tail && (Stops(tail) || Breaks(tail))
    ensures Records(b, cur, end) == rs && (Broken(b, cur, end) <==> Breaks(tail))
    decreases rs
  {
    if rs == [] {
      assert Encoded(rs) + tail == tail;
      WalkTail(b, cur, end);
    } else {
      var r, rest := rs[0], Encoded(rs[1..]) + tail;
      ConcatAssoc(r, Encoded(rs[1..]), tail);
      FirstRecord(b, cur, end, r, rest);
      WalkEncoded(b, cur + |r|, end, rs[1..], tail);
      RecordStep(b, cur, end, r, rs);
    }
  }

  lemma FirstRecord(b: Bytes, cur: nat, end: nat, r: Bytes, rest: Bytes)
    requires IsRecord(r) && cur <= end <= |b| && b[cur..end] == r + rest
    ensures HasRecord(b, cur, end) && b[cur + 1] == |r| && b[cur..cur + |r|] == r && b[cur + |r|..end] == rest
  {
    var s := b[cur..end];
    assert b[cur + 1] == s[1] == r[1];
    assert b[cur..cur + |r|] == s[..|r|] == r;
    assert b[cur + |r|..end] == s[|r|..] == rest;
  }

  /** Walking an encoded list gives the list back, whatever lies before the table and behind its end.  A rest that is
      too short for a record is passed over; a length below two is a panic. */
  lemma RecordsOfTable(pre: Bytes, rs: seq<Bytes>, tail: Bytes, after: Bytes)
    requires AreRecords(rs) && (Stops(tail) || Breaks(tail))
    ensures var b, end := pre + (Encoded(rs) + tail) + after, |pre| + |Encoded(rs) + tail|;
            Records(b, |pre|, end) == rs && (Broken(b, |pre|, end) <==> Breaks(tail))
  {
    var b, end := pre + (Encoded(rs) + tail) + after, |pre| + |Encoded(rs) + tail|;
    assert b[|pre|..end] == Encoded(rs) + tail;
    WalkEncoded(b, |pre|, end, rs, tail);
  }

  /** The table that is nothing but the list. */
  lemma RecordsOfEncoding(pre: Bytes, rs: seq<Bytes>)
    requires AreRecords(rs)
    ensures var b := pre + Encoded(rs);
            Records(b, |pre|, |b|) == rs && !Broken(b, |pre|, |b|)
  {
    RecordsOfTable(pre, rs, [], []);
    assert Encoded(rs) + [] == Encoded(rs) && pre + Encoded(rs) + [] == pre + Encoded(rs);
  }

  lemma {:induction false} RecordsAreRecords(b: Bytes, cur: nat, end: nat)
    requires end <= |b|
    ensures AreRecords(Records(b, cur, end))
    decreases end - cur
  {
    if HasRecord(b, cur, end) && b[cur + 1] >= 2 {
      RecordsAreRecords(b, cur + b[cur + 1], end);
    }
  }

  // ----- little-endian numbers -----

  function Power256(n: nat): nat {
    if n == 0 then 1 else 0x100 * Power256(n - 1)
  }

  function ToLe(x: nat, n: nat): (b: Bytes)
    ensures |b| == n
  {
    if n == 0 then [] else [x % 0x100] + ToLe(x / 0x100, n - 1)
  }

  function FromLe(b: Bytes): nat {
    if b == [] then 0 else b[0] + 0x100 * FromLe(b[1..])
  }

  lemma {:induction false} LeRoundTrip(x: nat, n: nat)
    requires x < Power256(n)
    ensures FromLe(ToLe(x, n)) == x
  {
    if n > 0 {
      LeRoundTrip(x / 0x100, n - 1);
      assert ToLe(x, n)[1..] == ToLe(x / 0x100, n - 1);
    }
  }

  /** The first byte is the least significant one. */
  lemma FromLeFour(b: Bytes)
    requires |b| == 4
    ensures FromLe(b) == b[0] as int + 0x100 * b[1] as int + 0x1_0000 * b[2] as int + 0x100_0000 * b[3] as int
  {
    FromLeCons(b);
    FromLeCons(b[1..]);
    FromLeCons(b[2..]);
    FromLeCons(b[3..]);
    assert b[1..][1..] == b[2..] && b[2..][1..] == b[3..] && b[3..][1..] == [];
  }

  lemma FromLeCons(b: Bytes)
    requires b != []
    ensures FromLe(b) == b[0] + 0x100 * FromLe(b[1..])
  {
  }

  /** Eight bytes are two words of four, the low one first. */
  lemma FromLeEight(b: Bytes)
    requires |b| == 8
    ensures FromLe(b) == FromLe(b[..4]) + 0x1_0000_0000 * FromLe(b[4..])
  {
    FromLeSplit(b, 4);
    Powers();
  }

  lemma {:induction false} FromLeSplit(b: Bytes, k: nat)
    requires k <= |b|
    ensures FromLe(b) == FromLe(b[..k]) + Power256(k) * FromLe(b[k..])
  {
    if k > 0 {
      FromLeSplit(b[1..], k - 1);
      assert b[1..][..k - 1] == b[..k][1..] && b[1..][k - 1..] == b[k..];
      FromLeCons(b[..k]);
      assert 0x100 * (Power256(k - 1) * FromLe(b[k..])) == Power256(k) * FromLe(b[k..]);
    }
  }

  lemma {:induction false} FromLeBound(b: Bytes)
    ensures FromLe(b) < Power256(|b|)
  {
    if b != [] {
      FromLeBound(b[1..]);
    }
  }

  lemma Powers()
    ensures Power256(1) == 0x100 && Power256(3) == 0x100_0000 && Power256(4) == 0x1_0000_0000
    ensures Power256(8) == U64_MAX + 1
  {
    assert Power256(4) == 0x1_0000_0000;
    assert Power256(6) == 0x100 * (0x100 * Power256(4));
  }
}
