/** What padding achieves: the padded file is the memory image of the kernel. */
module ElfLayout {
  import opened Machine
  import opened Splicing
  import opened ElfPadding

  /** Load segments in address order whose file parts do not overlap, which leave at least as much room in
      memory as in the file and whose memory parts do not overlap. */
  ghost predicate LaidOut(segs: seq<Segment>) {
    && segs != []
    && (forall i :: 0 <= i < |segs| ==> segs[i].filesz <= segs[i].memsz)
    && (forall i :: 0 <= i < |segs| - 1 ==> Follows(segs[i], segs[i + 1]))
  }

  predicate Follows(a: Segment, b: Segment) {
    a.off + a.filesz <= b.off && a.vaddr + a.memsz <= b.vaddr && b.off - a.off <= b.vaddr - a.vaddr
  }

  /** The zeros needed after segment `i` to make up for the difference between memory and file. */
  function Pad(segs: seq<Segment>, i: nat): int
    requires i < |segs|
  {
    if i + 1 < |segs| then (segs[i + 1].vaddr - segs[i].vaddr) - (segs[i + 1].off - segs[i].off)
    else segs[i].memsz - segs[i].filesz
  }

  /** The bytes of the file between segment `i` and the next one. */
  function Gap(segs: seq<Segment>, i: nat): int
    requires i + 1 < |segs|
  {
    segs[i + 1].off - segs[i].off - segs[i].filesz
  }

  lemma LaidOutPads(segs: seq<Segment>)
    requires LaidOut(segs)
    ensures PadsOk(segs, |segs|)
    ensures forall i :: 0 <= i < |segs| ==> CutAt(segs, i).pad == Pad(segs, i) >= 0
  {
    forall i | 0 <= i < |segs| ensures PadOk(segs, i) && CutAt(segs, i).pad == Pad(segs, i) >= 0 {
      if i + 1 < |segs| {
        assert Follows(segs[i], segs[i + 1]);
      }
    }
  }

  lemma {:induction false} OffsetsAscend(segs: seq<Segment>, i: nat, j: nat)
    requires LaidOut(segs) && i <= j < |segs|
    ensures segs[i].off <= segs[j].off && segs[i].vaddr <= segs[j].vaddr
    ensures i < j ==> segs[i].off + segs[i].filesz <= segs[j].off
  {
    if i < j {
      OffsetsAscend(segs, i, j - 1);
      assert Follows(segs[j - 1], segs[j]);
    }
  }

  /** The offset segment `i` gets. */
  function NewOff(segs: seq<Segment>, i: nat): nat
    requires i < |segs| && PadsOk(segs, |segs|)
  {
    segs[i].off + Total(CutsOf(segs, |segs|)[..i])
  }

  lemma TotalNext(cuts: seq<Cut>, i: nat)
    requires i < |cuts|
    ensures Total(cuts[..i + 1]) == Total(cuts[..i]) + cuts[i].pad
  {
    assert cuts[..i + 1][..i] == cuts[..i];
  }

  /** After padding, distances between segments are the same in the file as in memory. */
  lemma {:induction false} OffsetsFollowAddresses(segs: seq<Segment>, i: nat)
    requires LaidOut(segs) && i < |segs|
    ensures PadsOk(segs, |segs|)
    ensures NewOff(segs, i) - NewOff(segs, 0) == segs[i].vaddr - segs[0].vaddr
  {
    LaidOutPads(segs);
    if i > 0 {
      OffsetsFollowAddresses(segs, i - 1);
      TotalNext(CutsOf(segs, |segs|), i - 1);
    }
  }

  /** Wherever padding goes in there is a byte between the segments, or at least one in the next. */
  ghost predicate Separated(segs: seq<Segment>) {
    forall i :: 0 <= i < |segs| - 1 && Pad(segs, i) > 0 ==> Gap(segs, i) > 0 || segs[i + 1].filesz > 0
  }

  /** Wherever padding goes in there is a byte between the segments. */
  ghost predicate HasGapBytes(segs: seq<Segment>) {
    forall i :: 0 <= i < |segs| - 1 && Pad(segs, i) > 0 ==> Gap(segs, i) > 0
  }

  lemma CutsAscend(segs: seq<Segment>, size: nat)
    requires LaidOut(segs) && Separated(segs) && segs[|segs| - 1].off + segs[|segs| - 1].filesz < size
    ensures PadsOk(segs, |segs|)
    ensures Ascending(CutsOf(segs, |segs|)) && Within(CutsOf(segs, |segs|), size)
  {
    LaidOutPads(segs);
    var cuts, n := CutsOf(segs, |segs|), |segs|;
    forall i, j | 0 <= i < j < n && cuts[i].pad > 0 ensures cuts[i].pos <= cuts[j].pos {
      CutBelow(segs, i, j);
    }
    forall i | 0 <= i < n ensures cuts[i].pos <= size {
      OffsetsAscend(segs, i, n - 1);
    }
  }

  /** An insertion point with padding lies at or below every later one, and at or below the start of every
      later segment if the gap byte is there. */
  lemma CutBelow(segs: seq<Segment>, i: nat, j: nat)
    requires LaidOut(segs) && Separated(segs) && i < j < |segs| && PadsOk(segs, |segs|)
    requires CutAt(segs, i).pad > 0
    ensures CutAt(segs, i).pos <= CutAt(segs, j).pos
    ensures Gap(segs, i) > 0 || i + 1 < j ==> CutAt(segs, i).pos <= segs[j].off
  {
    LaidOutPads(segs);
    OffsetsAscend(segs, i + 1, j);
  }

  lemma {:induction false} ShiftSplit(cuts: seq<Cut>, i: nat, p: nat)
    requires i <= |cuts|
    requires forall j :: 0 <= j < i && cuts[j].pad > 0 ==> cuts[j].pos <= p
    requires forall j :: i <= j < |cuts| && cuts[j].pad > 0 ==> cuts[j].pos > p
    ensures Shift(cuts, p) == Total(cuts[..i])
  {
    if i == |cuts| {
      assert cuts[..i] == cuts;
      ShiftBounds(cuts, p);
    } else {
      ShiftSplit(cuts[..|cuts| - 1], i, p);
      assert cuts[..|cuts| - 1][..i] == cuts[..i];
    }
  }

  /** The padded file. */
  ghost function Image(file: seq<u8>, segs: seq<Segment>): seq<u8>
    requires Paddable(segs, |file|)
  {
    Assembled(file, CutsOf(segs, |segs|))
  }

  /** Position `pos` of the padded file holds byte `b`. */
  ghost predicate Shows(file: seq<u8>, segs: seq<Segment>, pos: int, b: u8)
    requires Paddable(segs, |file|)
  {
    0 <= pos < |Image(file, segs)| && Image(file, segs)[pos] == b
  }

  /** The byte `k` behind the new offset of segment `i` is `b`. */
  ghost predicate ShowsAt(file: seq<u8>, segs: seq<Segment>, i: nat, k: nat, b: u8)
    requires Paddable(segs, |file|) && i < |segs|
  {
    Shows(file, segs, NewOff(segs, i) + k, b)
  }

  ghost predicate Input(file: seq<u8>, segs: seq<Segment>) {
    && LaidOut(segs) && Separated(segs)
    && segs[|segs| - 1].off + segs[|segs| - 1].filesz < |file|
  }

  lemma InputPaddable(file: seq<u8>, segs: seq<Segment>)
    requires Input(file, segs)
    ensures Paddable(segs, |file|) && Ascending(CutsOf(segs, |segs|))
  {
    CutsAscend(segs, |file|);
  }

  /** The insertions in front of original position `p` are exactly those of the first `i` segments. */
  ghost predicate Behind(segs: seq<Segment>, i: nat, p: nat)
    requires i <= |segs| && PadsOk(segs, |segs|)
  {
    && (forall j :: 0 <= j < i && CutAt(segs, j).pad > 0 ==> CutAt(segs, j).pos <= p)
    && (forall j :: i <= j < |segs| && CutAt(segs, j).pad > 0 ==> CutAt(segs, j).pos > p)
  }

  lemma ByteAt(file: seq<u8>, segs: seq<Segment>, i: nat, p: nat)
    requires Input(file, segs) && i <= |segs| && p < |file| && PadsOk(segs, |segs|) && Behind(segs, i, p)
    ensures Paddable(segs, |file|)
    ensures Shows(file, segs, p + Total(CutsOf(segs, |segs|)[..i]), file[p])
  {
    InputPaddable(file, segs);
    ByteMoved(file, segs, i, p);
  }

  lemma ByteMoved(file: seq<u8>, segs: seq<Segment>, i: nat, p: nat)
    requires Paddable(segs, |file|) && Ascending(CutsOf(segs, |segs|))
    requires i <= |segs| && p < |file| && Behind(segs, i, p)
    ensures Shows(file, segs, p + Total(CutsOf(segs, |segs|)[..i]), file[p])
  {
    ShiftBehind(segs, i, p);
    ByteKept(file, CutsOf(segs, |segs|), p);
  }

  lemma ShiftBehind(segs: seq<Segment>, i: nat, p: nat)
    requires i <= |segs| && PadsOk(segs, |segs|) && Behind(segs, i, p)
    ensures Shift(CutsOf(segs, |segs|), p) == Total(CutsOf(segs, |segs|)[..i])
  {
    ShiftSplit(CutsOf(segs, |segs|), i, p);
  }

  /** The zeros inserted for segment `i`. */
  lemma PadShown(file: seq<u8>, segs: seq<Segment>, i: nat, m: nat)
    requires Input(file, segs) && i < |segs| && m < Pad(segs, i)
    ensures Paddable(segs, |file|)
    ensures Shows(file, segs, CutAt(segs, i).pos + Total(CutsOf(segs, |segs|)[..i]) + m, 0)
  {
    InputPaddable(file, segs);
    LaidOutPads(segs);
    ZerosKept(file, CutsOf(segs, |segs|), i, m);
  }

  lemma CutsBelow(segs: seq<Segment>, i: nat, p: nat)
    requires LaidOut(segs) && Separated(segs) && i < |segs| && PadsOk(segs, |segs|) && segs[i].off <= p
    requires i == 0 || Pad(segs, i - 1) == 0 || CutAt(segs, i - 1).pos <= p
    ensures forall j :: 0 <= j < i && CutAt(segs, j).pad > 0 ==> CutAt(segs, j).pos <= p
  {
    LaidOutPads(segs);
    forall j | 0 <= j < i && CutAt(segs, j).pad > 0 ensures CutAt(segs, j).pos <= p {
      CutBelow(segs, j, i);
    }
  }

  lemma CutsAbove(segs: seq<Segment>, i: nat, p: nat)
    requires LaidOut(segs) && i < |segs| && PadsOk(segs, |segs|) && p < segs[i].off + segs[i].filesz
    ensures forall j :: i <= j < |segs| ==> CutAt(segs, j).pos > p
  {
    forall j | i <= j < |segs| ensures CutAt(segs, j).pos > p {
      OffsetsAscend(segs, i, j);
    }
  }

  // ----- the bytes of the segments -----

  /** Byte `k` of segment `i` is where the header says. */
  ghost predicate KeptAt(file: seq<u8>, segs: seq<Segment>, i: nat, k: nat)
    requires Paddable(segs, |file|) && i < |segs|
  {
    segs[i].off + k < |file| && ShowsAt(file, segs, i, k, file[segs[i].off + k])
  }

  /** All file bytes of segment `i` are where the header says. */
  ghost predicate Intact(file: seq<u8>, segs: seq<Segment>, i: nat)
    requires Paddable(segs, |file|) && i < |segs|
  {
    forall k: nat :: k < segs[i].filesz ==> KeptAt(file, segs, i, k)
  }

  lemma ByteKeptAt(file: seq<u8>, segs: seq<Segment>, i: nat, k: nat)
    requires Input(file, segs) && i < |segs| && k < segs[i].filesz
    requires i == 0 || Pad(segs, i - 1) == 0 || Gap(segs, i - 1) > 0 || k > 0
    ensures Paddable(segs, |file|) && KeptAt(file, segs, i, k)
  {
    InputPaddable(file, segs);
    OffsetsAscend(segs, i, |segs| - 1);
    SegmentBehind(segs, i, k);
    ByteAt(file, segs, i, segs[i].off + k);
  }

  lemma SegmentBehind(segs: seq<Segment>, i: nat, k: nat)
    requires LaidOut(segs) && Separated(segs) && PadsOk(segs, |segs|) && i < |segs| && k < segs[i].filesz
    requires i == 0 || Pad(segs, i - 1) == 0 || Gap(segs, i - 1) > 0 || k > 0
    ensures Behind(segs, i, segs[i].off + k)
  {
    LaidOutPads(segs);
    assert i > 0 ==> Follows(segs[i - 1], segs[i]);
    CutsBelow(segs, i, segs[i].off + k);
    CutsAbove(segs, i, segs[i].off + k);
  }

  /** Without a gap byte the insertion point is one byte into the next segment, whose first byte is left
      behind: a zero takes its place. */
  lemma FirstByteLeftBehind(file: seq<u8>, segs: seq<Segment>, i: nat)
    requires Input(file, segs) && 0 < i < |segs| && Gap(segs, i - 1) == 0 && Pad(segs, i - 1) > 0
    ensures Paddable(segs, |file|) && Shows(file, segs, NewOff(segs, i), 0)
  {
    LaidOutPads(segs);
    PadShown(file, segs, i - 1, Pad(segs, i - 1) - 1);
    TotalNext(CutsOf(segs, |segs|), i - 1);
  }

  /** When exactly a segment survives padding: unless zeros are inserted after its predecessor with no byte
      in between and its first byte is not zero. */
  lemma IntactIff(file: seq<u8>, segs: seq<Segment>, i: nat)
    requires Input(file, segs) && i < |segs| && segs[i].filesz > 0
    ensures Paddable(segs, |file|) && segs[i].off < |file|
    ensures Intact(file, segs, i) <==> i == 0 || Pad(segs, i - 1) == 0 || Gap(segs, i - 1) > 0 || file[segs[i].off] == 0
  {
    InputPaddable(file, segs);
    OffsetsAscend(segs, i, |segs| - 1);
    var exposed := i > 0 && Pad(segs, i - 1) != 0 && Gap(segs, i - 1) <= 0;
    if exposed {
      ExposedSegment(file, segs, i);
    }
    if !exposed || file[segs[i].off] == 0 {
      forall k: nat | k < segs[i].filesz ensures KeptAt(file, segs, i, k) {
        if !exposed || k > 0 {
          ByteKeptAt(file, segs, i, k);
        }
      }
    }
  }

  lemma ExposedSegment(file: seq<u8>, segs: seq<Segment>, i: nat)
    requires Input(file, segs) && 0 < i < |segs| && Pad(segs, i - 1) != 0 && Gap(segs, i - 1) <= 0
    requires segs[i].off < |file|
    ensures Paddable(segs, |file|)
    ensures KeptAt(file, segs, i, 0) <==> file[segs[i].off] == 0
  {
    LaidOutPads(segs);
    assert Follows(segs[i - 1], segs[i]);
    FirstByteLeftBehind(file, segs, i);
  }

  /** The padded file is the memory image: every address of every segment's file part is at its distance from the
      first address, with the right byte, the first byte of a segment without a gap byte apart. */
  lemma ImageIsMemory(file: seq<u8>, segs: seq<Segment>, i: nat, k: nat)
    requires Input(file, segs) && i < |segs| && k < segs[i].filesz
    requires i == 0 || Pad(segs, i - 1) == 0 || Gap(segs, i - 1) > 0 || k > 0
    ensures Paddable(segs, |file|) && segs[i].off + k < |file|
    ensures Shows(file, segs, segs[0].off + (segs[i].vaddr + k - segs[0].vaddr), file[segs[i].off + k])
  {
    LaidOutPads(segs);
    ByteKeptAt(file, segs, i, k);
    OffsetsFollowAddresses(segs, i);
  }

  // ----- between the segments -----

  /** What the file holds between the file bytes of segment `i` and the next segment, byte by byte: first the byte
      behind the segment, which is the gap byte or else the first byte of the next segment, then the zeros, then
      the rest of the gap. */
  function Filler(file: seq<u8>, segs: seq<Segment>, i: nat, k: nat): u8
    requires i + 1 < |segs| && segs[i].filesz <= k < segs[i + 1].vaddr - segs[i].vaddr
    requires segs[i + 1].off < |file| && Follows(segs[i], segs[i + 1])
  {
    if k == segs[i].filesz || Pad(segs, i) == 0 then file[segs[i].off + k]
    else if k <= segs[i].filesz + Pad(segs, i) then 0
    else file[segs[i].off + k - Pad(segs, i)]
  }

  lemma FillerShown(file: seq<u8>, segs: seq<Segment>, i: nat, k: nat)
    requires Input(file, segs) && i + 1 < |segs|
    requires segs[i].filesz <= k < segs[i + 1].vaddr - segs[i].vaddr
    ensures Paddable(segs, |file|) && Follows(segs[i], segs[i + 1]) && segs[i + 1].off < |file|
    ensures ShowsAt(file, segs, i, k, Filler(file, segs, i, k))
  {
    InputPaddable(file, segs);
    assert Follows(segs[i], segs[i + 1]);
    OffsetsAscend(segs, i + 1, |segs| - 1);
    var pad, size := Pad(segs, i), segs[i].filesz;
    if pad == 0 || k == size {
      GapByteShown(file, segs, i, k);
    } else if k <= size + pad {
      PadShown(file, segs, i, k - size - 1);
    } else {
      RestOfGapShown(file, segs, i, k - pad);
    }
  }

  /** The insertion point in front of segment `i` lies at or below its end. */
  lemma CutBehindSegment(segs: seq<Segment>, i: nat, p: nat)
    requires LaidOut(segs) && Separated(segs) && PadsOk(segs, |segs|) && i < |segs| && segs[i].off + segs[i].filesz <= p
    ensures i == 0 || Pad(segs, i - 1) == 0 || CutAt(segs, i - 1).pos <= p
  {
    LaidOutPads(segs);
    assert i > 0 ==> Follows(segs[i - 1], segs[i]);
  }

  /** The insertion points from segment `i` on lie above a byte of the gap behind it, and above the first byte of
      the next segment if zeros are inserted without a gap. */
  lemma CutsAboveGap(segs: seq<Segment>, i: nat, p: nat)
    requires LaidOut(segs) && i + 1 < |segs| && PadsOk(segs, |segs|)
    requires p < segs[i + 1].off || (p == segs[i + 1].off && segs[i + 1].filesz > 0)
    ensures forall j :: i + 1 <= j < |segs| ==> CutAt(segs, j).pos > p
  {
    forall j | i + 1 <= j < |segs| ensures CutAt(segs, j).pos > p {
      OffsetsAscend(segs, i + 1, j);
    }
  }

  /** The byte directly behind segment `i`, or any byte of the gap if nothing is inserted there. */
  lemma GapByteShown(file: seq<u8>, segs: seq<Segment>, i: nat, k: nat)
    requires Input(file, segs) && i + 1 < |segs| && segs[i].filesz <= k
    requires if Pad(segs, i) == 0 then k < segs[i + 1].off - segs[i].off else k == segs[i].filesz
    ensures Paddable(segs, |file|) && segs[i].off + k < |file|
    ensures ShowsAt(file, segs, i, k, file[segs[i].off + k])
  {
    InputPaddable(file, segs);
    GapInFile(file, segs, i, k);
    BehindGap(segs, i, k);
    ByteMoved(file, segs, i, segs[i].off + k);
  }

  lemma GapInFile(file: seq<u8>, segs: seq<Segment>, i: nat, k: nat)
    requires Input(file, segs) && i + 1 < |segs| && k <= Max(segs[i + 1].off - segs[i].off - 1, segs[i].filesz)
    ensures segs[i].off + k < |file|
  {
    assert Follows(segs[i], segs[i + 1]);
    OffsetsAscend(segs, i + 1, |segs| - 1);
  }

  lemma BehindGap(segs: seq<Segment>, i: nat, k: nat)
    requires LaidOut(segs) && Separated(segs) && PadsOk(segs, |segs|) && i + 1 < |segs| && segs[i].filesz <= k
    requires if Pad(segs, i) == 0 then k < segs[i + 1].off - segs[i].off else k == segs[i].filesz
    ensures Behind(segs, i, segs[i].off + k)
  {
    var p := segs[i].off + k;
    LaidOutPads(segs);
    assert Follows(segs[i], segs[i + 1]);
    CutBehindSegment(segs, i, p);
    CutsBelow(segs, i, p);
    CutsAboveGap(segs, i, p);
  }

  lemma RestOfGapShown(file: seq<u8>, segs: seq<Segment>, i: nat, k: nat)
    requires Input(file, segs) && i + 1 < |segs|
    requires segs[i].filesz < k < segs[i + 1].off - segs[i].off
    ensures Paddable(segs, |file|) && segs[i].off + k < |file|
    ensures Shows(file, segs, NewOff(segs, i) + Pad(segs, i) + k, file[segs[i].off + k])
  {
    InputPaddable(file, segs);
    LaidOutPads(segs);
    GapInFile(file, segs, i, k);
    BehindRest(segs, i, k);
    TotalNext(CutsOf(segs, |segs|), i);
    ByteMoved(file, segs, i + 1, segs[i].off + k);
  }

  lemma BehindRest(segs: seq<Segment>, i: nat, k: nat)
    requires LaidOut(segs) && Separated(segs) && PadsOk(segs, |segs|)
    requires i + 1 < |segs| && segs[i].filesz < k < segs[i + 1].off - segs[i].off
    ensures Behind(segs, i + 1, segs[i].off + k)
  {
    var p := segs[i].off + k;
    LaidOutPads(segs);
    CutBehindSegment(segs, i, p);
    CutsBelow(segs, i, p);
    CutsAboveGap(segs, i, p);
  }

  /** From the end of its file part to the end of its memory part segment `i` is zero in the image. */
  ghost predicate ZeroFilled(file: seq<u8>, segs: seq<Segment>, i: nat)
    requires Paddable(segs, |file|) && i < |segs|
  {
    forall k: nat :: segs[i].filesz <= k < segs[i].memsz ==> ShowsAt(file, segs, i, k, 0)
  }

  /** The loader promises that a segment is zero-filled.  In a segment that is not the last the flat image
      keeps that promise exactly when the bytes that end up there, of the old gap or of the next segment, are
      zero. */
  lemma ZeroFilledIff(file: seq<u8>, segs: seq<Segment>, i: nat)
    requires Input(file, segs) && i + 1 < |segs|
    ensures Paddable(segs, |file|) && Follows(segs[i], segs[i + 1]) && segs[i + 1].off < |file|
    ensures ZeroFilled(file, segs, i)
       <==> (forall k: nat :: segs[i].filesz <= k < segs[i].memsz ==> Filler(file, segs, i, k) == 0)
  {
    InputPaddable(file, segs);
    assert Follows(segs[i], segs[i + 1]);
    OffsetsAscend(segs, i + 1, |segs| - 1);
    forall k: nat | segs[i].filesz <= k < segs[i].memsz
      ensures ShowsAt(file, segs, i, k, 0) <==> Filler(file, segs, i, k) == 0
    {
      FillerShown(file, segs, i, k);
    }
  }

  /** The last segment is always zero-filled up to its memory size. */
  lemma LastZeroFilled(file: seq<u8>, segs: seq<Segment>, k: nat)
    requires Input(file, segs)
    requires segs[|segs| - 1].filesz <= k < segs[|segs| - 1].memsz
    ensures Paddable(segs, |file|) && ShowsAt(file, segs, |segs| - 1, k, 0)
  {
    PadShown(file, segs, |segs| - 1, k - segs[|segs| - 1].filesz);
  }

  // ----- headers -----

  /** Everything from the end of the last segment on, the section header table included, is found intact at
      its old offset plus all the padding. */
  lemma TailKept(file: seq<u8>, segs: seq<Segment>, p: nat)
    requires Input(file, segs) && segs[|segs| - 1].off + segs[|segs| - 1].filesz <= p < |file|
    ensures Paddable(segs, |file|)
    ensures Shows(file, segs, p + Total(CutsOf(segs, |segs|)), file[p])
  {
    InputPaddable(file, segs);
    var n := |segs|;
    forall j | 0 <= j < n && CutAt(segs, j).pad > 0 ensures CutAt(segs, j).pos <= p {
      if j < n - 1 {
        CutBelow(segs, j, n - 1);
      }
    }
    ByteAt(file, segs, n, p);
    assert CutsOf(segs, n)[..n] == CutsOf(segs, n);
  }

  /** An earlier segment's memory size reaches over the file offset of segment `k`. */
  ghost predicate Shadowed(segs: seq<Segment>, k: nat)
    requires k < |segs|
  {
    exists i :: 0 <= i < k && segs[i].off + segs[i].memsz > segs[k].off
  }

  ghost predicate Ascends(segs: seq<Segment>) {
    forall i, j :: 0 <= i < j < |segs| ==> segs[i].off < segs[j].off
  }

  /** The header of segment `k` is recognised exactly when no earlier segment's memory size reaches over its
      file offset, taken for that of the earlier segment when one does, and lost when it spans no byte at all. */
  lemma HeaderFoundIff(segs: seq<Segment>, k: nat)
    requires Ascends(segs) && k < |segs|
    ensures SegmentOf(segs[k].off, segs) == Some(k) <==> segs[k].memsz > 0 && !Shadowed(segs, k)
    ensures SegmentOf(segs[k].off, segs) == None <==> segs[k].memsz == 0 && !Shadowed(segs, k)
  {
    var r := SegmentOf(segs[k].off, segs);
    if i :| 0 <= i < k && segs[i].off + segs[i].memsz > segs[k].off {
      assert segs[i].off <= segs[k].off < segs[i].off + segs[i].memsz;
    }
  }

  /** A recognised header ends up with the offset at which its bytes were put. */
  lemma HeaderFollowsBytes(segs: seq<Segment>, k: nat)
    requires LaidOut(segs) && k < |segs| && SegmentOf(segs[k].off, segs) == Some(k)
    ensures PadsOk(segs, |segs|)
    ensures UpdatedHeader(Header(true, segs[k]), segs, Pads(CutsOf(segs, |segs|))) ==
              Some(Header(true, Segment(NewOff(segs, k), segs[k].vaddr, segs[k].filesz + Pad(segs, k),
                                        segs[k].memsz + Pad(segs, k))))
  {
    LaidOutPads(segs);
    var cuts := CutsOf(segs, |segs|);
    SumOfPads(cuts[..k]);
    assert Pads(cuts)[..k] == Pads(cuts[..k]);
  }

  /** The offset in the updated header of segment `k`. */
  ghost predicate HeaderSays(segs: seq<Segment>, k: nat, off: nat)
    requires k < |segs| && PadsOk(segs, |segs|)
  {
    var h := UpdatedHeader(Header(true, segs[k]), segs, Pads(CutsOf(segs, |segs|)));
    h.Some? && h.value.seg.off == off
  }

  /** When exactly a header names the offset its bytes were moved to: it spans a byte, itself or in an earlier
      segment, and either nothing was inserted in front of it or no earlier segment shadows it. */
  lemma HeaderNamesBytesIff(segs: seq<Segment>, k: nat)
    requires LaidOut(segs) && Ascends(segs) && k < |segs|
    ensures PadsOk(segs, |segs|)
    ensures HeaderSays(segs, k, NewOff(segs, k))
       <==> && (segs[k].memsz > 0 || Shadowed(segs, k))
            && (Total(CutsOf(segs, |segs|)[..k]) == 0 || !Shadowed(segs, k))
  {
    LaidOutPads(segs);
    HeaderFoundIff(segs, k);
    if SegmentOf(segs[k].off, segs) == Some(k) {
      HeaderFollowsBytes(segs, k);
    }
  }

  /** The updated header of segment `k` claims no memory of the next segment. */
  ghost predicate StaysClear(segs: seq<Segment>, k: nat)
    requires k + 1 < |segs| && PadsOk(segs, |segs|)
  {
    var h := UpdatedHeader(Header(true, segs[k]), segs, Pads(CutsOf(segs, |segs|)));
    h.Some? && h.value.seg.vaddr + h.value.seg.memsz <= segs[k + 1].vaddr
  }

  /** Padding adds to the memory size of a header what it adds to its file size.  The memory of neighbouring headers
      stays disjoint exactly when the header is left alone, or its memory size fits between the file offsets. */
  lemma HeaderStaysClearIff(segs: seq<Segment>, k: nat)
    requires LaidOut(segs) && Ascends(segs) && k + 1 < |segs|
    ensures PadsOk(segs, |segs|)
    ensures StaysClear(segs, k)
       <==> Shadowed(segs, k) || (segs[k].memsz > 0 && segs[k].memsz <= segs[k + 1].off - segs[k].off)
  {
    LaidOutPads(segs);
    HeaderFoundIff(segs, k);
    assert Follows(segs[k], segs[k + 1]);
    if SegmentOf(segs[k].off, segs) == Some(k) {
      HeaderFollowsBytes(segs, k);
    }
  }

  // ----- small files -----

  const ABUTTING := [Segment(0, 0x200000, 1, 1), Segment(1, 0x201000, 1, 1)]

  /** Two segments without a byte in between: the second loses its first byte. */
  lemma AbuttingLosesByte(file: seq<u8>)
    requires |file| == 0x10 && file[1] != 0
    ensures Input(file, ABUTTING) && Paddable(ABUTTING, |file|) && !Intact(file, ABUTTING, 1)
  {
    assert Follows(ABUTTING[0], ABUTTING[1]);
    IntactIff(file, ABUTTING, 1);
  }

  const SHADOWING := [Segment(0, 0x200000, 1, 0x100), Segment(0x10, 0x200100, 1, 1)]

  /** The first segment's memory size reaches over the file offset of the second: the second header keeps its
      offset although its bytes are moved. */
  lemma ShadowedHeaderStays(file: seq<u8>)
    requires |file| == 0x20
    ensures Input(file, SHADOWING) && HasGapBytes(SHADOWING) && PadsOk(SHADOWING, 2)
    ensures NewOff(SHADOWING, 1) == 0x100 && HeaderSays(SHADOWING, 1, 0x10)
  {
    var segs := SHADOWING;
    LaidOutPads(segs);
    OffsetsFollowAddresses(segs, 1);
    assert SegmentOf(0x10, segs) == Some(0);
  }

  const GAPPED := [Segment(0, 0x200000, 1, 0x10), Segment(0x8, 0x200010, 1, 1)]

  /** The byte behind the file part of the first segment is not zero and ends up in its zero-filled part. */
  lemma GapByteShowsThrough(file: seq<u8>)
    requires |file| == 0x10 && file[1] != 0
    ensures Paddable(GAPPED, |file|) && !ZeroFilled(file, GAPPED, 0)
  {
    assert Input(file, GAPPED);
    FillerShown(file, GAPPED, 0, 1);
    assert !ShowsAt(file, GAPPED, 0, 1, 0);
  }

  /** The zero-filled part of the first segment makes its header reach into the second. */
  lemma HeadersOverlap()
    ensures LaidOut(GAPPED) && PadsOk(GAPPED, 2) && !StaysClear(GAPPED, 0)
  {
    assert Follows(GAPPED[0], GAPPED[1]);
    HeaderStaysClearIff(GAPPED, 0);
  }
}
