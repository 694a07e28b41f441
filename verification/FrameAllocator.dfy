/** The kernel's frame allocator: it hands out the usable 4 KiB frames of the boot memory map. */
module FrameAllocators {
  import opened Machine
  import opened MemoryTable
  import MemoryRuns

  // ----- the pipeline, for any frame size -----

  function Bytes(r: Region): int { (r.end - r.start) * PAGE_SIZE }

  /** A range from its addresses, the end exclusive; an end of zero underflows. */
  function RangeOf(start: nat, end: nat, kind: RegionType): Option<Region> {
    if end == 0 then None else Some(Region(start / PAGE_SIZE, (end - 1) / PAGE_SIZE + 1, kind))
  }

  /** Shortens a region to a whole number of frames. */
  function TrimEnd(r: Region, size: nat): Option<Region>
    requires size > 0 && r.start <= r.end
  {
    var diff := Bytes(r) % size;
    if diff != 0 then RangeOf(r.start * PAGE_SIZE, Max(r.end * PAGE_SIZE - diff, 0), r.kind) else Some(r)
  }

  /** Moves the start of a region up to a frame boundary; a region without one becomes empty. */
  function TrimStart(r: Region, size: nat): Option<Region>
    requires size > 0
  {
    var rest := r.start * PAGE_SIZE % size;
    if rest == 0 then Some(r)
    else
      var start := r.start * PAGE_SIZE + (size - rest);
      if start > r.end * PAGE_SIZE then Some(EMPTY) else RangeOf(start, r.end * PAGE_SIZE, r.kind)
  }

  /** The addresses of a region in steps of the frame size, if it holds a frame at all. */
  function StepBy(r: Region, size: nat): seq<nat>
    requires size > 0
  {
    if Bytes(r) < size then []
    else seq((Bytes(r) + size - 1) / size, i requires i >= 0 => r.start * PAGE_SIZE + i * size)
  }

  /** What one region contributes; `None` is an underflow. */
  function FramesOf(r: Region, size: nat): Option<seq<nat>>
    requires size > 0
  {
    if r.kind != Usable then Some([])
    else if r.start > r.end then None
    else match TrimEnd(r, size)
      case None => None
      case Some(a) =>
        match TrimStart(a, size)
        case None => None
        case Some(c) => Some(StepBy(c, size))
  }

  /** The addresses a lazy pipeline yields; then it ends, or underflows. */
  datatype Frames = Frames(list: seq<nat>, underflows: bool)

  function Pipeline(t: seq<Region>, size: nat): Frames
    requires size > 0
  {
    if t == [] then Frames([], false)
    else match FramesOf(t[0], size)
      case None => Frames([], true)
      case Some(a) => var rest := Pipeline(t[1..], size); Frames(a + rest.list, rest.underflows)
  }

  // ----- the pipeline at 4 KiB -----

  /** The frames a region contributes: all of them if it is usable, otherwise none. */
  function FrameCount(r: Region): nat {
    if r.kind == Usable && r.end >= r.start then r.end - r.start else 0
  }

  /** The addresses of the frames of one region. */
  function Steps(r: Region): seq<nat> {
    seq(FrameCount(r), i => (r.start + i) * PAGE_SIZE)
  }

  /** The flattened list of usable frame addresses. */
  function UsableFrames(t: seq<Region>): seq<nat> {
    if t == [] then [] else Steps(t[0]) + UsableFrames(t[1..])
  }

  lemma WholeFrames(n: nat)
    ensures n * PAGE_SIZE % PAGE_SIZE == 0 && (n * PAGE_SIZE + PAGE_SIZE - 1) / PAGE_SIZE == n
  {
  }

  lemma FramesOfSmall(r: Region)
    requires r.kind == Usable ==> r.start <= r.end
    ensures FramesOf(r, PAGE_SIZE) == Some(Steps(r))
  {
    if r.kind == Usable {
      WholeFrames(r.end - r.start);
      WholeFrames(r.start);
      assert StepBy(r, PAGE_SIZE) == Steps(r);
    } else {
      assert Steps(r) == [];
    }
  }

  /** At 4 KiB both adjustments and the size filter leave every region alone: the pipeline is the plain list of
      the frames of the usable regions. */
  lemma {:induction false} PipelineAtPageSize(t: seq<Region>)
    requires forall i :: 0 <= i < |t| && t[i].kind == Usable ==> t[i].start <= t[i].end
    ensures Pipeline(t, PAGE_SIZE) == Frames(UsableFrames(t), false)
  {
    if t != [] {
      FramesOfSmall(t[0]);
      PipelineAtPageSize(t[1..]);
    }
  }

  datatype Answer = Frame(addr: nat) | NoFrame | Panicked

  /** One call: element number `next` of the pipeline. */
  function NthFrame(frames: Frames, next: nat): Answer {
    if next < |frames.list| then Frame(frames.list[next])
    else if frames.underflows then Panicked
    else NoFrame
  }

  class BootInfoFrameAllocator {
    const memoryMap: seq<Region>
    var next: nat

    constructor (memoryMap: seq<Region>)
      ensures this.memoryMap == memoryMap && next == 0
    {
      this.memoryMap := memoryMap;
      next := 0;
    }

    /** Skips `next` frames from the front of the pipeline, region by region, and takes the one after. */
    method AllocateFrame() returns (frame: Answer)
      modifies this
      ensures frame == NthFrame(Pipeline(memoryMap, PAGE_SIZE), old(next))
      ensures next == if frame.Panicked? then old(next) else old(next) + 1
    {
      ghost var goal := NthFrame(Pipeline(memoryMap, PAGE_SIZE), next);
      var i: nat, left: nat := 0, next;
      while i < |memoryMap|
        invariant i <= |memoryMap| && next == old(next)
        invariant goal == NthFrame(Pipeline(memoryMap[i..], PAGE_SIZE), left)
      {
        var r := memoryMap[i];
        assert memoryMap[i..][0] == r && memoryMap[i..][1..] == memoryMap[i + 1..];
        FirstRegion(memoryMap[i..], left);
        if r.kind == Usable && r.start > r.end {
          return Panicked;
        }
        if left < FrameCount(r) {
          next := next + 1;
          return Frame((r.start + left) * PAGE_SIZE);
        }
        left := left - FrameCount(r);
        i := i + 1;
      }
      next := next + 1;
      return NoFrame;
    }
  }

  /** The first region holds the frame, or it is skipped. */
  lemma FirstRegion(t: seq<Region>, left: nat)
    requires t != []
    ensures var r := t[0];
            NthFrame(Pipeline(t, PAGE_SIZE), left) ==
            if r.kind == Usable && r.start > r.end then Panicked
            else if left < FrameCount(r) then Frame((r.start + left) * PAGE_SIZE)
            else NthFrame(Pipeline(t[1..], PAGE_SIZE), left - FrameCount(r))
  {
    if t[0].kind == Usable && t[0].start > t[0].end {
      FirstUnderflows(t);
    } else {
      FramesOfSmall(t[0]);
      FirstYields(t, Steps(t[0]));
      NthOfBoth(Steps(t[0]), Pipeline(t[1..], PAGE_SIZE), left);
    }
  }

  lemma FirstUnderflows(t: seq<Region>)
    requires t != [] && t[0].kind == Usable && t[0].start > t[0].end
    ensures Pipeline(t, PAGE_SIZE) == Frames([], true)
  {
  }

  lemma FirstYields(t: seq<Region>, a: seq<nat>)
    requires t != [] && FramesOf(t[0], PAGE_SIZE) == Some(a)
    ensures var rest := Pipeline(t[1..], PAGE_SIZE);
            Pipeline(t, PAGE_SIZE) == Frames(a + rest.list, rest.underflows)
  {
  }

  lemma NthOfBoth(a: seq<nat>, rest: Frames, n: nat)
    ensures NthFrame(Frames(a + rest.list, rest.underflows), n) ==
            if n < |a| then Frame(a[n]) else NthFrame(rest, n - |a|)
  {
  }

  // ----- what the list is -----

  lemma {:induction false} FramesAreUsable(t: seq<Region>, n: nat) returns (i: nat, f: nat)
    requires n < |UsableFrames(t)|
    ensures i < |t| && t[i].kind == Usable && HasFrame(t[i], f) && UsableFrames(t)[n] == f * PAGE_SIZE
  {
    if n < FrameCount(t[0]) {
      i, f := 0, t[0].start + n;
    } else {
      i, f := FramesAreUsable(t[1..], n - FrameCount(t[0]));
      i := i + 1;
    }
  }

  lemma {:induction false} UsableFrameListed(t: seq<Region>, i: nat, f: nat) returns (n: nat)
    requires i < |t| && t[i].kind == Usable && HasFrame(t[i], f)
    ensures n < |UsableFrames(t)| && UsableFrames(t)[n] == f * PAGE_SIZE
  {
    if i == 0 {
      n := f - t[0].start;
    } else {
      n := UsableFrameListed(t[1..], i - 1, f);
      n := n + FrameCount(t[0]);
    }
  }

  /** The list holds exactly the addresses of the frames the map calls usable. */
  lemma ListedIffUsable(t: seq<Region>, f: nat)
    requires Tidy(t)
    ensures f * PAGE_SIZE in UsableFrames(t) <==> TypeOf(t, f) == Some(Usable)
  {
    if f * PAGE_SIZE in UsableFrames(t) {
      var n :| 0 <= n < |UsableFrames(t)| && UsableFrames(t)[n] == f * PAGE_SIZE;
      var i, f' := FramesAreUsable(t, n);
      TypeOfMember(t, f, i);
    }
    if TypeOf(t, f) == Some(Usable) {
      LookupIn(t, f * PAGE_SIZE);
      var i :| IsFirstAt(t, f * PAGE_SIZE, i) && t[i] == Lookup(t, f * PAGE_SIZE).value;
      FrameOfAddr(t[i], f * PAGE_SIZE);
      var n := UsableFrameListed(t, i, f);
    }
  }

  /** The list is strictly ascending, so no frame occurs twice. */
  lemma {:induction false} FramesAscend(t: seq<Region>, m: nat, n: nat)
    requires Tidy(t) && m < n < |UsableFrames(t)|
    ensures UsableFrames(t)[m] < UsableFrames(t)[n]
  {
    var c := FrameCount(t[0]);
    if m >= c {
      FramesAscend(t[1..], m - c, n - c);
    } else if n >= c {
      var i, f := FramesAreUsable(t[1..], n - c);
      assert t[0].end <= t[i + 1].start;
    }
  }

  // ----- runs -----

  /** The counter after `k` calls on a fresh allocator. */
  function NextAfter(t: seq<Region>, k: nat): nat {
    if k == 0 then 0
    else
      var next := NextAfter(t, k - 1);
      if NthFrame(Pipeline(t, PAGE_SIZE), next).Panicked? then next else next + 1
  }

  /** The result of call number `k`, counting from zero. */
  function CallResult(t: seq<Region>, k: nat): Answer {
    NthFrame(Pipeline(t, PAGE_SIZE), NextAfter(t, k))
  }

  lemma {:induction false} CallsCount(t: seq<Region>, k: nat)
    requires Tidy(t)
    ensures NextAfter(t, k) == k
    ensures CallResult(t, k) == if k < |UsableFrames(t)| then Frame(UsableFrames(t)[k]) else NoFrame
  {
    PipelineAtPageSize(t);
    if k > 0 {
      CallsCount(t, k - 1);
    }
  }

  /** A run of calls returns every usable frame exactly once, in ascending order, and then nothing. */
  lemma CallsEnumerateUsable(t: seq<Region>, f: nat, j: nat, k: nat)
    requires Tidy(t)
    ensures j < k && CallResult(t, k).Frame? ==>
              CallResult(t, j).Frame? && CallResult(t, j).addr < CallResult(t, k).addr
    ensures !CallResult(t, j).Frame? ==> CallResult(t, j) == NoFrame && (j < k ==> CallResult(t, k) == NoFrame)
    ensures TypeOf(t, f) == Some(Usable) <==> exists n: nat :: CallResult(t, n) == Frame(f * PAGE_SIZE)
  {
    CallsCount(t, j);
    CallsCount(t, k);
    if j < k < |UsableFrames(t)| {
      FramesAscend(t, j, k);
    }
    ListedIffUsable(t, f);
    if f * PAGE_SIZE in UsableFrames(t) {
      var n :| 0 <= n < |UsableFrames(t)| && UsableFrames(t)[n] == f * PAGE_SIZE;
      CallsCount(t, n);
    }
    if n: nat :| CallResult(t, n) == Frame(f * PAGE_SIZE) {
      CallsCount(t, n);
    }
  }

  /** Bootloader and kernel together: a frame that a boot request claimed is never handed out by the
      kernel's allocator over the final map. */
  lemma ClaimedNeverAllocated(tables: seq<seq<Region>>, requests: seq<MemoryRuns.Request>, j: nat, f: nat, k: nat)
    requires MemoryRuns.IsRun(tables, requests) && Tidy(tables[0]) && MemoryRuns.Ordered(requests)
    requires j < |requests| && MemoryRuns.Claims(requests[j], f)
    ensures CallResult(tables[|requests|], k) != Frame(f * PAGE_SIZE)
  {
    MemoryRuns.RunTidy(tables, requests, |requests|);
    MemoryRuns.RunRetypes(tables, requests);
    MemoryRuns.ClaimLasts(MemoryRuns.History(tables), requests, j, |requests|, f);
    MemoryRuns.HistoryAt(tables, |requests|, f);
    ListedIffUsable(tables[|requests|], f);
    CallsCount(tables[|requests|], k);
  }
}
