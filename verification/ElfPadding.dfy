/** Padding the kernel's ELF file so that its layout in the file equals its layout in memory.

    The program headers are modelled as decoded records; the section header table is part of the byte
    buffer. */
module ElfPadding {
  import opened Machine
  import opened Splicing

  datatype Segment = Segment(off: nat, vaddr: nat, filesz: nat, memsz: nat)

  /** The zeros inserted between two neighbouring load segments, or nothing if a subtraction underflows. */
  function PadBetween(a: Segment, b: Segment): Option<nat> {
    var vdiff, subAlign := Distance(a.vaddr, b.vaddr), Distance(a.filesz + a.off, b.off);
    if vdiff < a.filesz || vdiff - a.filesz < subAlign then None
    else Some(vdiff - a.filesz - subAlign)
  }

  /** The padding makes up for what the file part and the distance in the file leave of the distance in memory;
      both distances are taken whichever way round the segments are. */
  lemma PadBetweenIs(a: Segment, b: Segment, p: nat, v: nat, g: nat)
    requires v == a.vaddr - b.vaddr || v == b.vaddr - a.vaddr
    requires g == a.off + a.filesz - b.off || g == b.off - a.off - a.filesz
    ensures PadBetween(a, b) == Some(p) <==> v == a.filesz + g + p
    ensures PadBetween(a, b) == None <==> v < a.filesz + g
  {
  }

  /** The padding of segment `i` can be computed. */
  predicate PadOk(segs: seq<Segment>, i: nat)
    requires i < |segs|
  {
    if i + 1 < |segs| then PadBetween(segs[i], segs[i + 1]).Some?
    else segs[i].memsz >= segs[i].filesz
  }

  /** Where zeros go after segment `i`: one byte behind its file bytes, directly behind them for the last. */
  function CutAt(segs: seq<Segment>, i: nat): Cut
    requires i < |segs| && PadOk(segs, i)
  {
    var s := segs[i];
    if i + 1 < |segs| then Cut(s.off + s.filesz + 1, PadBetween(s, segs[i + 1]).value)
    else Cut(s.off + s.filesz, s.memsz - s.filesz)
  }

  ghost predicate PadsOk(segs: seq<Segment>, n: nat)
    requires n <= |segs|
  {
    forall i :: 0 <= i < n ==> PadOk(segs, i)
  }

  function CutsOf(segs: seq<Segment>, n: nat): (c: seq<Cut>)
    requires n <= |segs| && PadsOk(segs, n)
    ensures |c| == n && forall i :: 0 <= i < n ==> c[i] == CutAt(segs, i)
  {
    seq(n, i requires 0 <= i < n => CutAt(segs, i))
  }

  lemma CutsNext(segs: seq<Segment>, n: nat)
    requires n < |segs| && PadsOk(segs, n + 1)
    ensures CutsOf(segs, n + 1)[..n] == CutsOf(segs, n) && CutsOf(segs, n + 1)[n] == CutAt(segs, n)
  {
  }

  function Pads(cuts: seq<Cut>): seq<nat> {
    seq(|cuts|, i requires 0 <= i < |cuts| => cuts[i].pad)
  }

  function Sum(s: seq<nat>): nat {
    if s == [] then 0 else Sum(s[..|s| - 1]) + s[|s| - 1]
  }

  lemma {:induction false} SumOfPads(cuts: seq<Cut>)
    ensures Sum(Pads(cuts)) == Total(cuts)
  {
    if cuts != [] {
      SumOfPads(cuts[..|cuts| - 1]);
      assert Pads(cuts)[..|cuts| - 1] == Pads(cuts[..|cuts| - 1]);
    }
  }

  /** All paddings can be computed and all insertion points lie in the file. */
  ghost predicate Paddable(segs: seq<Segment>, size: nat) {
    segs != [] && PadsOk(segs, |segs|) && Within(CutsOf(segs, |segs|), size)
  }

  lemma NotPaddable(segs: seq<Segment>, size: nat, i: nat)
    requires i < |segs| && (!PadOk(segs, i) || CutAt(segs, i).pos > size)
    ensures !Paddable(segs, size)
  {
    if PadsOk(segs, |segs|) {
      assert CutsOf(segs, |segs|)[i] == CutAt(segs, i);
    }
  }

  /** The first `i` paddings are in place. */
  ghost predicate PaddedSoFar(file: seq<u8>, segs: seq<Segment>, i: nat, buf: seq<u8>, padded: seq<nat>)
    requires i <= |segs|
  {
    && PadsOk(segs, i) && Within(CutsOf(segs, i), |file|)
    && buf == Assembled(file, CutsOf(segs, i)) && padded == Pads(CutsOf(segs, i))
  }

  /** One insertion. */
  lemma PadNext(file: seq<u8>, segs: seq<Segment>, i: nat, buf: seq<u8>, padded: seq<nat>)
    requires i < |segs| && PaddedSoFar(file, segs, i, buf, padded) && PadOk(segs, i)
    ensures CutAt(segs, i).pos <= |file| <==> CutAt(segs, i).pos + Sum(padded) <= |buf|
    ensures CutAt(segs, i).pos <= |file| ==>
              var cut := CutAt(segs, i);
              PaddedSoFar(file, segs, i + 1, Splice(buf, cut.pos + Sum(padded), cut.pad), padded + [cut.pad])
  {
    SumOfPads(CutsOf(segs, i));
    CutsNext(segs, i);
  }

  /** Inserts the zeros of segment `i`; an insertion point behind the end of the buffer is a panic. */
  method InsertZeros(ghost file: seq<u8>, ghost segs: seq<Segment>, ghost i: nat, buf: seq<u8>, padded: seq<nat>,
                     pos: nat, padSize: nat)
    returns (ok: bool, buf': seq<u8>, padded': seq<nat>)
    requires i < |segs| && PaddedSoFar(file, segs, i, buf, padded)
    requires PadOk(segs, i) && CutAt(segs, i) == Cut(pos, padSize)
    ensures ok <==> pos <= |file|
    ensures ok ==> PaddedSoFar(file, segs, i + 1, buf', padded')
  {
    PadNext(file, segs, i, buf, padded);
    var index := pos + Sum(padded);
    if index > |buf| {
      return false, buf, padded;
    }
    return true, Splice(buf, index, padSize), padded + [padSize];
  }

  /** The padding loop and the padding of the last segment.  An underflowing subtraction, an insertion
      point behind the end of the buffer and a file without load segments are panics. */
  method PadLoadSegments(file: seq<u8>, segs: seq<Segment>) returns (ok: bool, buf: seq<u8>, padded: seq<nat>)
    ensures ok <==> Paddable(segs, |file|)
    ensures ok ==> buf == Assembled(file, CutsOf(segs, |segs|)) && padded == Pads(CutsOf(segs, |segs|))
  {
    buf, padded := file, [];
    if segs == [] {
      return false, buf, padded;
    }
    var i := 0;
    while i + 1 < |segs|
      invariant i < |segs| && PaddedSoFar(file, segs, i, buf, padded)
    {
      var seg, next := segs[i], segs[i + 1];
      var vdiff := Max(seg.vaddr, next.vaddr) - Min(seg.vaddr, next.vaddr);
      var a, b := seg.filesz + seg.off, next.off;
      var subAlign := Max(a, b) - Min(a, b);
      if vdiff < seg.filesz || vdiff - seg.filesz < subAlign {
        NotPaddable(segs, |file|, i);
        return false, buf, padded;
      }
      var index, padSize := seg.off + seg.filesz + 1, vdiff - seg.filesz - subAlign;
      ok, buf, padded := InsertZeros(file, segs, i, buf, padded, index, padSize);
      if !ok {
        NotPaddable(segs, |file|, i);
        return;
      }
      i := i + 1;
    }
    var last := segs[i];
    if last.memsz < last.filesz {
      NotPaddable(segs, |file|, i);
      return false, buf, padded;
    }
    ok, buf, padded := InsertZeros(file, segs, i, buf, padded, last.off + last.filesz, last.memsz - last.filesz);
    if !ok {
      NotPaddable(segs, |file|, i);
    }
  }

  // ----- program headers -----

  /** A program header; only load headers are updated. */
  datatype Header = Header(load: bool, seg: Segment)

  /** The first segment whose file offset and memory size span the offset. */
  function SegmentOf(addr: nat, segs: seq<Segment>): Option<nat> {
    SegmentFrom(addr, segs, 0)
  }

  function SegmentFrom(addr: nat, segs: seq<Segment>, i: nat): (r: Option<nat>)
    requires i <= |segs|
    ensures r.Some? ==> i <= r.value < |segs| && segs[r.value].off <= addr < segs[r.value].off + segs[r.value].memsz
    ensures r.Some? ==> forall k :: i <= k < r.value ==> !(segs[k].off <= addr < segs[k].off + segs[k].memsz)
    ensures r == None ==> forall k :: i <= k < |segs| ==> !(segs[k].off <= addr < segs[k].off + segs[k].memsz)
    decreases |segs| - i
  {
    if i == |segs| then None
    else if segs[i].off <= addr < segs[i].off + segs[i].memsz then Some(i)
    else SegmentFrom(addr, segs, i + 1)
  }

  method AddrToSegMap(addr: nat, segs: seq<Segment>) returns (r: Option<nat>)
    ensures r == SegmentOf(addr, segs)
  {
    var i := 0;
    while i < |segs|
      invariant i <= |segs|
      invariant SegmentOf(addr, segs) == SegmentFrom(addr, segs, i)
    {
      var low, high := segs[i].off, segs[i].off + segs[i].memsz;
      if addr >= low && addr < high {
        return Some(i);
      }
      i := i + 1;
    }
    return None;
  }

  /** The updated header, or nothing if its offset lies in no segment. */
  function UpdatedHeader(h: Header, segs: seq<Segment>, pads: seq<nat>): Option<Header>
    requires |segs| == |pads|
  {
    if !h.load then Some(h)
    else match SegmentOf(h.seg.off, segs)
      case None => None
      case Some(k) =>
        if h.seg.off == segs[k].off then
          Some(Header(true, h.seg.(off := h.seg.off + Sum(pads[..k]), filesz := h.seg.filesz + pads[k],
                                   memsz := h.seg.memsz + pads[k])))
        else Some(h)
  }

  /** Some segment's file offset and memory size span the offset. */
  ghost predicate Spanned(off: nat, segs: seq<Segment>) {
    exists k :: 0 <= k < |segs| && segs[k].off <= off < segs[k].off + segs[k].memsz
  }

  /** Segment `k` is the first that spans the offset. */
  ghost predicate FirstSpans(off: nat, segs: seq<Segment>, k: int) {
    && 0 <= k < |segs| && segs[k].off <= off < segs[k].off + segs[k].memsz
    && forall j :: 0 <= j < k ==> !(segs[j].off <= off < segs[j].off + segs[j].memsz)
  }

  /** How a header changes: a header that is no load header does not; a load header must lie in some segment, and
      if it starts the first such segment it moves by the padding in front of that segment and grows by its own. */
  lemma UpdatedHeaderIs(h: Header, segs: seq<Segment>, pads: seq<nat>)
    requires |segs| == |pads|
    ensures !h.load ==> UpdatedHeader(h, segs, pads) == Some(h)
    ensures h.load ==> (UpdatedHeader(h, segs, pads) == None <==> !Spanned(h.seg.off, segs))
    ensures h.load ==> forall k :: FirstSpans(h.seg.off, segs, k) ==>
              UpdatedHeader(h, segs, pads) ==
              if segs[k].off != h.seg.off then Some(h)
              else Some(Header(true, Segment(h.seg.off + Sum(pads[..k]), h.seg.vaddr, h.seg.filesz + pads[k],
                                             h.seg.memsz + pads[k])))
  {
    var r := SegmentOf(h.seg.off, segs);
    if r.Some? {
      assert Spanned(h.seg.off, segs);
      forall k | FirstSpans(h.seg.off, segs, k) ensures k == r.value {
      }
    }
  }

  /** Updates the headers in place; a load header outside all segments is a panic.  Other headers are neither
      changed nor looked at. */
  method UpdateHeaders(headers: array<Header>, segs: seq<Segment>, pads: seq<nat>) returns (ok: bool)
    requires |segs| == |pads|
    modifies headers
    ensures ok <==> forall i :: 0 <= i < headers.Length && old(headers[i]).load ==>
                      Spanned(old(headers[i]).seg.off, segs)
    ensures ok ==> forall i :: 0 <= i < headers.Length && !old(headers[i]).load ==> headers[i] == old(headers[i])
    ensures ok ==> forall i :: 0 <= i < headers.Length ==>
                     Some(headers[i]) == UpdatedHeader(old(headers[i]), segs, pads)
  {
    forall i | 0 <= i < headers.Length
      ensures !headers[i].load ==> UpdatedHeader(headers[i], segs, pads) == Some(headers[i])
      ensures headers[i].load ==>
                (UpdatedHeader(headers[i], segs, pads) == None <==> !Spanned(headers[i].seg.off, segs))
    {
      UpdatedHeaderIs(headers[i], segs, pads);
    }
    for i := 0 to headers.Length
      invariant forall k :: 0 <= k < i ==> Some(headers[k]) == UpdatedHeader(old(headers[k]), segs, pads)
      invariant forall k :: i <= k < headers.Length ==> headers[k] == old(headers[k])
    {
      var h := headers[i];
      if h.load {
        var idx := AddrToSegMap(h.seg.off, segs);
        if idx.None? {
          return false;
        }
        var k := idx.value;
        var padSize, alreadyPadded := pads[k], Sum(pads[..k]);
        if h.seg.off == segs[k].off {
          headers[i] := Header(true, h.seg.(off := h.seg.off + alreadyPadded, filesz := h.seg.filesz + padSize,
                                            memsz := h.seg.memsz + padSize));
        }
      }
    }
    return true;
  }
}
