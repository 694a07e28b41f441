/** Inserting runs of zeros into a byte buffer at several places.

    The places are given in positions of the original buffer.  Inserting from front to back, each at its
    position plus everything inserted before, every original byte ends up shifted by the padding in front
    of it, and the inserted zeros stay where they were put. */
module Splicing {
  import opened Machine

  datatype Cut = Cut(pos: nat, pad: nat)

  function Zeros(n: nat): seq<u8> { seq(n, _ => 0) }

  function Splice(buf: seq<u8>, index: nat, n: nat): (r: seq<u8>)
    requires index <= |buf|
    ensures |r| == |buf| + n
  {
    buf[..index] + Zeros(n) + buf[index..]
  }

  function Total(cuts: seq<Cut>): nat {
    if cuts == [] then 0 else Total(cuts[..|cuts| - 1]) + cuts[|cuts| - 1].pad
  }

  ghost predicate Within(cuts: seq<Cut>, n: nat) {
    forall i :: 0 <= i < |cuts| ==> cuts[i].pos <= n
  }

  function Assembled(buf: seq<u8>, cuts: seq<Cut>): (r: seq<u8>)
    requires Within(cuts, |buf|)
    ensures |r| == |buf| + Total(cuts)
  {
    if cuts == [] then buf
    else
      var init, last := cuts[..|cuts| - 1], cuts[|cuts| - 1];
      Splice(Assembled(buf, init), last.pos + Total(init), last.pad)
  }

  /** Places where something is inserted come in ascending order. */
  ghost predicate Ascending(cuts: seq<Cut>) {
    forall i, j :: 0 <= i < j < |cuts| && cuts[i].pad > 0 ==> cuts[i].pos <= cuts[j].pos
  }

  /** The padding inserted in front of original position `p`. */
  function Shift(cuts: seq<Cut>, p: nat): nat {
    if cuts == [] then 0
    else
      var last := cuts[|cuts| - 1];
      Shift(cuts[..|cuts| - 1], p) + if last.pos <= p then last.pad else 0
  }

  lemma {:induction false} ShiftBounds(cuts: seq<Cut>, p: nat)
    ensures Shift(cuts, p) <= Total(cuts)
    ensures (forall i :: 0 <= i < |cuts| && cuts[i].pad > 0 ==> cuts[i].pos <= p) ==> Shift(cuts, p) == Total(cuts)
  {
    if cuts != [] {
      var init := cuts[..|cuts| - 1];
      ShiftBounds(init, p);
      assert forall i :: 0 <= i < |init| ==> init[i] == cuts[i];
    }
  }

  /** Behind the last cut everything inserted before it counts. */
  lemma AllBehind(cuts: seq<Cut>, p: nat)
    requires Ascending(cuts) && cuts != []
    ensures var init, last := cuts[..|cuts| - 1], cuts[|cuts| - 1];
            last.pos <= p ==> Shift(init, p) == Total(init)
  {
    ShiftBounds(cuts[..|cuts| - 1], p);
  }

  lemma SpliceAt(buf: seq<u8>, index: nat, n: nat, k: nat)
    requires index <= |buf| && k < |buf| + n
    ensures Splice(buf, index, n)[k] == if k < index then buf[k] else if k < index + n then 0 else buf[k - n]
  {
  }

  /** The last insertion, byte by byte. */
  lemma AssembledAt(buf: seq<u8>, cuts: seq<Cut>, k: nat)
    requires Within(cuts, |buf|) && cuts != [] && k < |buf| + Total(cuts)
    ensures var init, last := cuts[..|cuts| - 1], cuts[|cuts| - 1];
            var index, before := last.pos + Total(init), Assembled(buf, init);
            Assembled(buf, cuts)[k]
            == if k < index then before[k] else if k < index + last.pad then 0 else before[k - last.pad]
  {
    var init, last := cuts[..|cuts| - 1], cuts[|cuts| - 1];
    SpliceAt(Assembled(buf, init), last.pos + Total(init), last.pad, k);
  }

  /** Every original byte survives, shifted by the padding in front of it. */
  lemma {:induction false} ByteKept(buf: seq<u8>, cuts: seq<Cut>, p: nat)
    requires Within(cuts, |buf|) && Ascending(cuts) && p < |buf|
    ensures p + Shift(cuts, p) < |Assembled(buf, cuts)|
    ensures Assembled(buf, cuts)[p + Shift(cuts, p)] == buf[p]
  {
    ShiftBounds(cuts, p);
    if cuts != [] {
      var init, last := cuts[..|cuts| - 1], cuts[|cuts| - 1];
      ByteKept(buf, init, p);
      ShiftBounds(init, p);
      AllBehind(cuts, p);
      AssembledAt(buf, cuts, p + Shift(cuts, p));
    }
  }

  /** The zeros of cut `i` stay at its position plus the padding of the cuts before it. */
  lemma {:induction false} ZerosKept(buf: seq<u8>, cuts: seq<Cut>, i: nat, m: nat)
    requires Within(cuts, |buf|) && Ascending(cuts) && i < |cuts| && m < cuts[i].pad
    ensures cuts[i].pos + Total(cuts[..i]) + m < |Assembled(buf, cuts)|
    ensures Assembled(buf, cuts)[cuts[i].pos + Total(cuts[..i]) + m] == 0
  {
    var init, last := cuts[..|cuts| - 1], cuts[|cuts| - 1];
    var k := cuts[i].pos + Total(cuts[..i]) + m;
    TotalPrefix(cuts, i);
    if i < |cuts| - 1 {
      PrefixOfInit(cuts, i);
      TotalPrefix(init, i);
      ZerosKept(buf, init, i, m);
    }
    AssembledAt(buf, cuts, k);
  }

  lemma PrefixOfInit(cuts: seq<Cut>, i: nat)
    requires i < |cuts| - 1
    ensures cuts[..|cuts| - 1][..i] == cuts[..i] && cuts[..|cuts| - 1][i] == cuts[i]
  {
  }

  lemma {:induction false} TotalPrefix(cuts: seq<Cut>, i: nat)
    requires i < |cuts|
    ensures Total(cuts[..i]) + cuts[i].pad <= Total(cuts)
  {
    var init := cuts[..|cuts| - 1];
    if i < |cuts| - 1 {
      TotalPrefix(init, i);
      assert init[..i] == cuts[..i];
    }
  }
}
