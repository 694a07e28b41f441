/** Runs of partition requests whatever addresses are asked for, inverted requests included.

    Nothing turns down a request whose start lies behind its end.  What every run keeps all the same is proved
    here: the frames the map knows, the types of the frames nobody claims, and that only usable frames are
    ever claimed. */
module MemoryClaims {
  import opened Machine
  import opened MemoryTable
  import opened MemoryRuns

  // ----- one step -----

  /** The pieces of `r` in frames, the empty ones included. */
  function NewRegions(r: Region, s: nat, e: nat, kind: RegionType): seq<Region> {
    [ if r.start == s then EMPTY else Region(r.start, s, r.kind),
      Region(s, e, kind),
      if r.end == e then EMPTY else Region(e, r.end, r.kind) ]
  }

  /** The region a granted request is cut out of. */
  ghost function Victim(t: seq<Region>, q: Request): Region
    requires Judge(t, q.start, q.end, q.kind).Granted?
  {
    Judge(t, q.start, q.end, q.kind).region
  }

  function First(q: Request): nat { q.start / PAGE_SIZE }

  function Behind(q: Request): nat { q.end / PAGE_SIZE }

  /** `x` is in the table besides one occurrence of `r`. */
  predicate Remains(t: seq<Region>, r: Region, x: Region) {
    x in t && (x == r ==> multiset(t)[x] > 1)
  }

  predicate IsNew(r: Region, q: Request, x: Region) {
    x in NewRegions(r, First(q), Behind(q), q.kind) && !IsEmpty(x)
  }

  lemma VictimFacts(t: seq<Region>, q: Request)
    requires Sorted(t) && Judge(t, q.start, q.end, q.kind).Granted?
    ensures var r := Victim(t, q);
            && r in t && IsUsable(r.kind) && HasFrame(r, First(q)) && HasFrame(r, Behind(q) - 1)
            && Pieces(r, q.start, q.end, q.kind) == NewRegions(r, First(q), Behind(q), q.kind)
  {
    GrantedFacts(t, q.start, q.end, q.kind);
    PiecesInFrames(Victim(t, q), First(q), Behind(q), q.kind);
  }

  /** Which regions a table holds after a request. */
  lemma StepRegions(t: seq<Region>, q: Request, t': seq<Region>, x: Region)
    requires Sorted(t) && Settles(t, q, t')
    ensures x in t' <==> Remains(t, Victim(t, q), x) || IsNew(Victim(t, q), q, x)
  {
    VictimFacts(t, q);
    BagCount(NewRegions(Victim(t, q), First(q), Behind(q), q.kind), x);
    assert x in t' <==> multiset(t')[x] > 0;
    assert x in t <==> multiset(t)[x] > 0;
  }

  /** New regions lie inside the region they are cut out of and keep its type, the claimed one apart. */
  lemma NewInside(r: Region, q: Request, x: Region, f: nat)
    requires HasFrame(r, First(q)) && HasFrame(r, Behind(q) - 1) && IsNew(r, q, x) && HasFrame(x, f)
    ensures HasFrame(r, f)
    ensures x.kind == r.kind || (x.kind == q.kind && Claims(q, f))
  {
  }

  /** The pieces cover every frame of the region, in whichever order the two addresses are. */
  lemma NewCover(r: Region, q: Request, f: nat) returns (x: Region)
    requires HasFrame(r, First(q)) && HasFrame(r, Behind(q) - 1) && HasFrame(r, f)
    ensures IsNew(r, q, x) && HasFrame(x, f)
  {
    var p := NewRegions(r, First(q), Behind(q), q.kind);
    x := if f < First(q) then p[0] else if f < Behind(q) then p[1] else p[2];
  }

  // ----- what every run keeps -----

  ghost predicate Known(t: seq<Region>, f: nat) {
    exists x :: x in t && HasFrame(x, f)
  }

  /** Some region would let the frame be claimed. */
  ghost predicate Offers(t: seq<Region>, f: nat) {
    exists x :: x in t && HasFrame(x, f) && IsUsable(x.kind)
  }

  ghost predicate OnlyKind(t: seq<Region>, f: nat, kind: RegionType) {
    forall x :: x in t && HasFrame(x, f) ==> x.kind == kind
  }

  lemma StepKnows(t: seq<Region>, q: Request, t': seq<Region>, f: nat)
    requires Sorted(t) && Settles(t, q, t')
    ensures Known(t', f) <==> Known(t, f)
  {
    VictimFacts(t, q);
    var r := Victim(t, q);
    if y :| y in t && HasFrame(y, f) {
      var x := y;
      if y == r {
        x := NewCover(r, q, f);
      }
      StepRegions(t, q, t', x);
    }
    if x :| x in t' && HasFrame(x, f) {
      StepRegions(t, q, t', x);
      if IsNew(r, q, x) {
        NewInside(r, q, x, f);
      }
    }
  }

  lemma StepOffers(t: seq<Region>, q: Request, t': seq<Region>, f: nat)
    requires Sorted(t) && Settles(t, q, t')
    ensures Claims(q, f) || Offers(t', f) ==> Offers(t, f)
  {
    VictimFacts(t, q);
    var r := Victim(t, q);
    if x :| x in t' && HasFrame(x, f) && IsUsable(x.kind) {
      StepRegions(t, q, t', x);
      if IsNew(r, q, x) {
        NewInside(r, q, x, f);
      }
    }
    assert Claims(q, f) ==> HasFrame(r, f);
  }

  lemma StepKeepsKind(t: seq<Region>, q: Request, t': seq<Region>, f: nat, kind: RegionType)
    requires Sorted(t) && Settles(t, q, t') && !Claims(q, f) && OnlyKind(t, f, kind)
    ensures OnlyKind(t', f, kind)
  {
    VictimFacts(t, q);
    forall x | x in t' && HasFrame(x, f) ensures x.kind == kind {
      StepRegions(t, q, t', x);
      if IsNew(Victim(t, q), q, x) {
        NewInside(Victim(t, q), q, x, f);
      }
    }
  }

  lemma RunSorted(tables: seq<seq<Region>>, requests: seq<Request>, n: nat)
    requires IsRun(tables, requests) && Sorted(tables[0]) && n <= |requests|
    ensures Sorted(tables[n])
  {
    assert n > 0 ==> Settles(tables[n - 1], requests[n - 1], tables[n]);
  }

  /** No run adds or loses a frame. */
  lemma {:induction false} FramesConserved(tables: seq<seq<Region>>, requests: seq<Request>, n: nat, f: nat)
    requires IsRun(tables, requests) && Sorted(tables[0]) && n <= |requests|
    ensures Known(tables[n], f) <==> Known(tables[0], f)
    ensures TypeOf(tables[n], f) == None <==> TypeOf(tables[0], f) == None
  {
    TypeOfNone(tables[n], f);
    TypeOfNone(tables[0], f);
    if n > 0 {
      FramesConserved(tables, requests, n - 1, f);
      RunSorted(tables, requests, n - 1);
      StepKnows(tables[n - 1], requests[n - 1], tables[n], f);
    }
  }

  lemma {:induction false} OfferedFromTheStart(tables: seq<seq<Region>>, requests: seq<Request>, n: nat, f: nat)
    requires IsRun(tables, requests) && Sorted(tables[0]) && n <= |requests| && Offers(tables[n], f)
    ensures Offers(tables[0], f)
  {
    if n > 0 {
      RunSorted(tables, requests, n - 1);
      StepOffers(tables[n - 1], requests[n - 1], tables[n], f);
      OfferedFromTheStart(tables, requests, n - 1, f);
    }
  }

  /** Every frame a run claims was usable in the initial map. */
  lemma ClaimedWasUsable(tables: seq<seq<Region>>, requests: seq<Request>, j: nat, f: nat)
    requires IsRun(tables, requests) && Tidy(tables[0]) && j < |requests| && Claims(requests[j], f)
    ensures Claimable(TypeOf(tables[0], f))
  {
    TidySorted(tables[0]);
    RunSorted(tables, requests, j);
    StepOffers(tables[j], requests[j], tables[j + 1], f);
    OfferedFromTheStart(tables, requests, j, f);
    var i :| 0 <= i < |tables[0]| && HasFrame(tables[0][i], f) && IsUsable(tables[0][i].kind);
    TypeOfMember(tables[0], f, i);
  }

  lemma {:induction false} KindKept(tables: seq<seq<Region>>, requests: seq<Request>, n: nat, f: nat, kind: RegionType)
    requires IsRun(tables, requests) && Sorted(tables[0]) && n <= |requests| && OnlyKind(tables[0], f, kind)
    requires forall i :: 0 <= i < n ==> !Claims(requests[i], f)
    ensures OnlyKind(tables[n], f, kind)
  {
    if n > 0 {
      KindKept(tables, requests, n - 1, f, kind);
      RunSorted(tables, requests, n - 1);
      StepKeepsKind(tables[n - 1], requests[n - 1], tables[n], f, kind);
    }
  }

  /** A frame no request claims keeps its type. */
  lemma UnclaimedKeepType(tables: seq<seq<Region>>, requests: seq<Request>, n: nat, f: nat)
    requires IsRun(tables, requests) && Tidy(tables[0]) && n <= |requests|
    requires forall i :: 0 <= i < n ==> !Claims(requests[i], f)
    ensures TypeOf(tables[n], f) == TypeOf(tables[0], f)
  {
    TidySorted(tables[0]);
    FramesConserved(tables, requests, n, f);
    if TypeOf(tables[0], f).Some? {
      var kind := TypeOf(tables[0], f).value;
      OneKind(tables[0], f);
      KindKept(tables, requests, n, f, kind);
      RunSorted(tables, requests, n);
      LookupFacts(tables[n], f);
    }
  }

  lemma OneKind(t: seq<Region>, f: nat)
    requires Tidy(t) && TypeOf(t, f).Some?
    ensures OnlyKind(t, f, TypeOf(t, f).value)
  {
    forall x | x in t && HasFrame(x, f) ensures x.kind == TypeOf(t, f).value {
      var i :| 0 <= i < |t| && t[i] == x;
      TypeOfMember(t, f, i);
    }
  }

  lemma LookupFacts(t: seq<Region>, f: nat)
    requires Sorted(t) && TypeOf(t, f).Some?
    ensures Lookup(t, f * PAGE_SIZE).Some?
    ensures var x := Lookup(t, f * PAGE_SIZE).value;
            && x in t && HasFrame(x, f)
            && forall y :: y in t && HasFrame(y, f) ==> y == x || Leq(x, y)
  {
    LookupIn(t, f * PAGE_SIZE);
    var x := Lookup(t, f * PAGE_SIZE).value;
    var i :| IsFirstAt(t, f * PAGE_SIZE, i) && t[i] == x;
    FrameOfAddr(x, f * PAGE_SIZE);
    forall y | y in t && HasFrame(y, f) ensures y == x || Leq(x, y) {
      var j :| 0 <= j < |t| && t[j] == y;
      FrameOfAddr(y, f * PAGE_SIZE);
      assert Intersects(t[j], f * PAGE_SIZE);
    }
  }

  lemma {:induction false} RunGrows(tables: seq<seq<Region>>, requests: seq<Request>, n: nat)
    requires IsRun(tables, requests) && Sorted(tables[0]) && n <= |requests|
    ensures |tables[n]| <= |tables[0]| + 2 * n
  {
    if n > 0 {
      RunGrows(tables, requests, n - 1);
      RunSorted(tables, requests, n - 1);
      StepGrows(tables[n - 1], requests[n - 1], tables[n]);
    }
  }

  lemma StepGrows(t: seq<Region>, q: Request, t': seq<Region>)
    requires Sorted(t) && Settles(t, q, t')
    ensures |t'| <= |t| + 2
  {
    VictimFacts(t, q);
    var r, p := Victim(t, q), NewRegions(Victim(t, q), First(q), Behind(q), q.kind);
    BagSize(p);
    assert |t'| == |multiset(t')| && |t| == |multiset(t)|;
    assert multiset(t) - multiset{r} + multiset{r} == multiset(t);
  }

  lemma {:induction false} BagSize(s: seq<Region>)
    ensures |Bag(s)| <= |s|
  {
    if s != [] {
      BagSize(s[..|s| - 1]);
    }
  }
}
