/** The whole padding pass over a kernel file. */
module ElfKernel {
  import opened Machine
  import opened Splicing
  import opened ElfPadding
  import opened ElfLayout

  const KERNEL_BASE: nat := 0x200000

  /** The checks made before padding: file order equals address order, the program header table lies in front
      of the second load segment, and the kernel starts at 2 MiB. */
  ghost predicate Checked(segs: seq<Segment>, phoff: nat) {
    && segs != []
    && (forall i :: 0 <= i < |segs| - 1 ==> segs[i].off < segs[i + 1].off)
    && (|segs| > 1 ==> segs[1].off > phoff)
    && segs[0].vaddr == KERNEL_BASE
  }

  method Check(segs: seq<Segment>, phoff: nat) returns (ok: bool)
    ensures ok <==> Checked(segs, phoff)
  {
    for i := 0 to |segs|
      invariant forall k :: 0 <= k < i && k < |segs| - 1 ==> segs[k].off < segs[k + 1].off
    {
      if i + 1 < |segs| && segs[i].off >= segs[i + 1].off {
        return false;
      }
    }
    if |segs| > 1 && segs[1].off <= phoff {
      return false;
    }
    return segs != [] && segs[0].vaddr == KERNEL_BASE;
  }

  /** Pads the file, updates the program headers in place and moves the section header offset.  `segs` are the
      load headers sorted by address.  Every exit and panic of the original gives `ok == false`. */
  method PadKernel(file: seq<u8>, headers: array<Header>, segs: seq<Segment>, phoff: nat, shoff: nat)
    returns (ok: bool, buf: seq<u8>, newShoff: nat)
    modifies headers
    ensures ok <==> && Checked(segs, phoff) && Paddable(segs, |file|)
                    && segs[|segs| - 1].off + segs[|segs| - 1].filesz <= shoff
                    && forall i :: 0 <= i < headers.Length && old(headers[i]).load ==>
                         Spanned(old(headers[i]).seg.off, segs)
    ensures ok ==> forall i :: 0 <= i < headers.Length && !old(headers[i]).load ==> headers[i] == old(headers[i])
    ensures ok ==> buf == Image(file, segs) && newShoff == shoff + Total(CutsOf(segs, |segs|))
    ensures ok ==> forall i :: 0 <= i < headers.Length ==>
                     Some(headers[i]) == UpdatedHeader(old(headers[i]), segs, Pads(CutsOf(segs, |segs|)))
  {
    buf, newShoff := file, shoff;
    ok := Check(segs, phoff);
    if !ok {
      return;
    }
    var padded;
    ok, buf, padded := PadLoadSegments(file, segs);
    if !ok {
      return;
    }
    ok := UpdateHeaders(headers, segs, padded);
    if !ok {
      return;
    }
    var last := segs[|segs| - 1];
    if shoff < last.off + last.filesz {
      return false, buf, newShoff;
    }
    SumOfPads(CutsOf(segs, |segs|));
    newShoff := shoff + Sum(padded);
  }

  /** Byte `k` of segment `i` is found `k` bytes behind position `pos` of the padded file. */
  ghost predicate ByteAtOffset(file: seq<u8>, segs: seq<Segment>, i: nat, pos: nat, k: nat)
    requires Paddable(segs, |file|) && i < |segs|
  {
    segs[i].off + k < |file| && Shows(file, segs, pos + k, file[segs[i].off + k])
  }

  ghost predicate BytesAt(file: seq<u8>, segs: seq<Segment>, i: nat, pos: nat)
    requires Paddable(segs, |file|) && i < |segs|
  {
    forall k: nat :: k < segs[i].filesz ==> ByteAtOffset(file, segs, i, pos, k)
  }

  lemma {:induction false} CheckedAscends(segs: seq<Segment>, phoff: nat, i: nat, j: nat)
    requires Checked(segs, phoff) && i < j < |segs|
    ensures segs[i].off < segs[j].off
  {
    if i + 1 < j {
      CheckedAscends(segs, phoff, i, j - 1);
    }
    assert segs[j - 1].off < segs[j - 1 + 1].off;
  }

  /** The header of segment `i` is as far from the first as its address, and its file bytes are where it says. */
  ghost predicate Preserved(file: seq<u8>, segs: seq<Segment>, i: nat)
    requires Paddable(segs, |file|) && i < |segs|
  {
    var pads := Pads(CutsOf(segs, |segs|));
    var first, h := UpdatedHeader(Header(true, segs[0]), segs, pads), UpdatedHeader(Header(true, segs[i]), segs, pads);
    && first.Some? && h.Some?
    && h.value.seg.off - first.value.seg.off == segs[i].vaddr - segs[0].vaddr
    && BytesAt(file, segs, i, h.value.seg.off)
  }

  /** The file bytes of segment `i` survive: nothing is inserted in front of it, or there is a gap byte, or its
      first byte is zero anyway. */
  predicate BytesSurvive(file: seq<u8>, segs: seq<Segment>, i: nat)
    requires i < |segs| && segs[i].off < |file|
  {
    || segs[i].filesz == 0 || i == 0 || Pad(segs, i - 1) == 0 || Gap(segs, i - 1) > 0
    || file[segs[i].off] == 0
  }

  /** Padding preserves the kernel, for every file that passes the checks, exactly for the segments whose bytes
      survive and whose header is found and is not taken for that of an earlier segment after zeros were inserted. */
  lemma PaddingPreservesKernelIff(file: seq<u8>, segs: seq<Segment>, phoff: nat, i: nat)
    requires Checked(segs, phoff) && Input(file, segs) && i < |segs|
    ensures Paddable(segs, |file|) && segs[i].off < |file|
    ensures Preserved(file, segs, i)
       <==> && segs[0].memsz > 0
            && (segs[i].memsz > 0 || Shadowed(segs, i))
            && (Total(CutsOf(segs, |segs|)[..i]) == 0 || !Shadowed(segs, i))
            && BytesSurvive(file, segs, i)
  {
    InputPaddable(file, segs);
    OffsetsAscend(segs, i, |segs| - 1);
    forall k, j | 0 <= k < j < |segs| ensures segs[k].off < segs[j].off {
      CheckedAscends(segs, phoff, k, j);
    }
    HeaderNamesBytesIff(segs, 0);
    HeaderNamesBytesIff(segs, i);
    OffsetsFollowAddresses(segs, i);
    BytesMovedIff(file, segs, i);
    if segs[0].memsz > 0 {
      PreservedIffNamed(file, segs, i);
    } else {
      HeaderFoundIff(segs, 0);
    }
  }

  lemma PreservedIffNamed(file: seq<u8>, segs: seq<Segment>, i: nat)
    requires Paddable(segs, |file|) && i < |segs| && HeaderSays(segs, 0, NewOff(segs, 0))
    requires NewOff(segs, i) - NewOff(segs, 0) == segs[i].vaddr - segs[0].vaddr
    ensures Preserved(file, segs, i)
       <==> HeaderSays(segs, i, NewOff(segs, i)) && BytesAt(file, segs, i, NewOff(segs, i))
  {
  }

  lemma BytesMovedIff(file: seq<u8>, segs: seq<Segment>, i: nat)
    requires Input(file, segs) && i < |segs| && segs[i].off < |file|
    ensures Paddable(segs, |file|)
    ensures BytesAt(file, segs, i, NewOff(segs, i)) <==> BytesSurvive(file, segs, i)
  {
    InputPaddable(file, segs);
    if segs[i].filesz > 0 {
      IntactIff(file, segs, i);
      assert forall k: nat :: ByteAtOffset(file, segs, i, NewOff(segs, i), k) <==> KeptAt(file, segs, i, k);
    }
  }

  /** The shadowed header belongs to a file that passes every check. */
  lemma AcceptedAndNotPreserved(file: seq<u8>)
    requires |file| == 0x20
    ensures Checked(SHADOWING, 8) && Paddable(SHADOWING, |file|) && !Preserved(file, SHADOWING, 1)
  {
    ShadowedHeaderStays(file);
    assert SHADOWING[0].off + SHADOWING[0].memsz > SHADOWING[1].off;
    PaddingPreservesKernelIff(file, SHADOWING, 8, 1);
  }
}
