/** What one inverted request does: the region it is cut out of comes back as two overlapping halves, and a
    frame of the overlap can be claimed through each of them. */
module MemoryInversions {
  import opened Machine
  import opened MemoryTable
  import opened MemoryRuns
  import opened MemoryClaims

  // ----- the two halves -----

  function LowHalf(r: Region, q: Request): Region { Region(r.start, First(q), r.kind) }

  function HighHalf(r: Region, q: Request): Region { Region(Behind(q), r.end, r.kind) }

  lemma TidyOnce(t: seq<Region>, x: Region)
    requires Tidy(t)
    ensures multiset(t)[x] <= 1
  {
    if k :| 0 <= k < |t| && t[k] == x {
      assert t == t[..k] + [x] + t[k + 1..];
      assert x !in t[..k] && x !in t[k + 1..];
    }
  }

  /** The frames of the cut region are in one half or in both, and in no other region. */
  lemma Halves(t: seq<Region>, q: Request, t': seq<Region>, f: nat, x: Region)
    requires Tidy(t) && Settles(t, q, t') && q.start > q.end && HasFrame(Victim(t, q), f)
    ensures var r := Victim(t, q);
            && r.start < Behind(q) < First(q) < r.end && IsUsable(r.kind)
            && (x in t' && HasFrame(x, f) <==>
                (x == LowHalf(r, q) && f < First(q)) || (x == HighHalf(r, q) && f >= Behind(q)))
  {
    TidySorted(t);
    VictimFacts(t, q);
    StepRegions(t, q, t', x);
    var r := Victim(t, q);
    TidyOnce(t, x);
    if Remains(t, r, x) && HasFrame(x, f) {
      AloneHere(t, r, x, f);
    }
  }

  // ----- requests for one frame -----

  function Frame(f: nat, kind: RegionType): Request {
    Request(f * PAGE_SIZE, (f + 1) * PAGE_SIZE, kind)
  }

  lemma {:induction false} SameLookup(t: seq<Region>, a: nat, b: nat)
    requires a / PAGE_SIZE == b / PAGE_SIZE
    ensures Lookup(t, a) == Lookup(t, b)
  {
    if t != [] {
      FrameOfAddr(t[0], a);
      FrameOfAddr(t[0], b);
      SameLookup(t[1..], a, b);
    }
  }

  /** A request for one frame is granted exactly when the first region with the frame is usable. */
  lemma FrameGranted(t: seq<Region>, f: nat, kind: RegionType, x: Region)
    requires kind != Empty
    ensures Judge(t, f * PAGE_SIZE, (f + 1) * PAGE_SIZE, kind) == Granted(x)
       <==> Lookup(t, f * PAGE_SIZE) == Some(x) && IsUsable(x.kind)
  {
    FrameBounds(f);
    SameLookup(t, f * PAGE_SIZE, (f + 1) * PAGE_SIZE - 1);
  }

  lemma FrameBounds(f: nat)
    ensures f * PAGE_SIZE / PAGE_SIZE == f && ((f + 1) * PAGE_SIZE - 1) / PAGE_SIZE == f
    ensures f * PAGE_SIZE % PAGE_SIZE == 0 && (f + 1) * PAGE_SIZE % PAGE_SIZE == 0
    ensures (f + 1) * PAGE_SIZE / PAGE_SIZE == f + 1
  {
  }

  lemma FrameClaims(f: nat, kind: RegionType)
    ensures First(Frame(f, kind)) == f && Behind(Frame(f, kind)) == f + 1 && Claims(Frame(f, kind), f)
  {
    FrameBounds(f);
  }

  ghost predicate Grants(t: seq<Region>, q: Request) {
    Judge(t, q.start, q.end, q.kind).Granted?
  }

  /** If all regions with the frame that can come first are usable, the frame is granted. */
  lemma UsableFirst(t: seq<Region>, f: nat, kind: RegionType, y: Region)
    requires Sorted(t) && kind != Empty && y in t && HasFrame(y, f)
    requires forall x :: x in t && HasFrame(x, f) && (x == y || Leq(x, y)) ==> IsUsable(x.kind)
    ensures Grants(t, Frame(f, kind))
  {
    TypeOfNone(t, f);
    var i :| 0 <= i < |t| && t[i] == y;
    LookupFacts(t, f);
    FrameGranted(t, f, kind, Lookup(t, f * PAGE_SIZE).value);
  }

  // ----- an overlap of two frames or more -----

  /** After a request inverted by two pages or more its last overlapping frame is granted twice, whatever the
      sort does. */
  lemma GrantedTwice(t: seq<Region>, q: Request, t': seq<Region>, kind: RegionType, t'': seq<Region>, kind': RegionType)
    requires Tidy(t) && Settles(t, q, t') && q.start >= q.end + 2 * PAGE_SIZE
    requires kind != Empty && kind' != Empty
    ensures First(q) >= 1
    ensures var f := First(q) - 1;
            && Grants(t', Frame(f, kind))
            && (Settles(t', Frame(f, kind), t'') ==> Grants(t'', Frame(f, kind')))
  {
    PagesApart(q.start, q.end);
    var f := First(q) - 1;
    LastOverlapGranted(t, q, t', f, kind);
    if Settles(t', Frame(f, kind), t'') {
      LastOverlapAgain(t, q, t', f, kind, t'', kind');
    }
  }

  lemma PagesApart(a: nat, b: nat)
    requires a >= b + 2 * PAGE_SIZE
    ensures a / PAGE_SIZE >= b / PAGE_SIZE + 2
  {
  }

  lemma OverlapHolders(t: seq<Region>, q: Request, t': seq<Region>, f: nat)
    requires Tidy(t) && Settles(t, q, t') && q.start > q.end && Behind(q) <= f < First(q)
    ensures var r := Victim(t, q);
            && r.start < Behind(q) && First(q) < r.end && IsUsable(r.kind)
            && forall x :: x in t' && HasFrame(x, f) <==> x == LowHalf(r, q) || x == HighHalf(r, q)
  {
    TidySorted(t);
    VictimFacts(t, q);
    var r := Victim(t, q);
    forall x ensures x in t' && HasFrame(x, f) <==> x == LowHalf(r, q) || x == HighHalf(r, q) {
      Halves(t, q, t', f, x);
    }
  }

  lemma LastOverlapGranted(t: seq<Region>, q: Request, t': seq<Region>, f: nat, kind: RegionType)
    requires Tidy(t) && Settles(t, q, t') && q.start > q.end && Behind(q) <= f < First(q) && kind != Empty
    ensures Grants(t', Frame(f, kind))
  {
    OverlapHolders(t, q, t', f);
    UsableFirst(t', f, kind, LowHalf(Victim(t, q), q));
  }

  lemma LastOverlapAgain(t: seq<Region>, q: Request, t': seq<Region>, f: nat, kind: RegionType, t'': seq<Region>,
                         kind': RegionType)
    requires Tidy(t) && Settles(t, q, t') && q.start > q.end && Behind(q) < f < First(q) && kind' != Empty
    requires Settles(t', Frame(f, kind), t'')
    ensures Grants(t'', Frame(f, kind'))
  {
    OverlapHolders(t, q, t', f);
    OtherHalfOffers(t', f, kind, t'', kind', LowHalf(Victim(t, q), q), HighHalf(Victim(t, q), q));
  }

  /** Two usable regions that hold a frame but do not start there: a claim takes it out of one of them only. */
  lemma OtherHalfOffers(t: seq<Region>, f: nat, kind: RegionType, t': seq<Region>, kind': RegionType, a: Region,
                        c: Region)
    requires Sorted(t) && Settles(t, Frame(f, kind), t') && kind' != Empty
    requires a != c && a.start < f && c.start < f && IsUsable(a.kind) && IsUsable(c.kind)
    requires forall x :: x in t && HasFrame(x, f) <==> x == a || x == c
    ensures Grants(t', Frame(f, kind'))
  {
    var q := Frame(f, kind);
    FrameClaims(f, kind);
    VictimFacts(t, q);
    var y := if Victim(t, q) == a then c else a;
    StepRegions(t, q, t', y);
    forall x | x in t' && HasFrame(x, f) && (x == y || Leq(x, y)) ensures IsUsable(x.kind) {
      StepRegions(t, q, t', x);
    }
    UsableFirst(t', f, kind', y);
  }

  // ----- an overlap of one frame -----

  lemma SameKeysSorted(t: seq<Region>, u: seq<Region>)
    requires Sorted(t) && |u| == |t| && forall k :: 0 <= k < |t| ==> u[k].start == t[k].start && u[k].end == t[k].end
    ensures Sorted(u)
  {
    forall i, j | 0 <= i < j < |u| ensures Leq(u[i], u[j]) {
      assert Leq(t[i], t[j]);
    }
  }

  lemma SwapSorted(t: seq<Region>, i: nat, j: nat)
    requires Sorted(t) && i < |t| && j < |t| && t[i].start == t[j].start && t[i].end == t[j].end
    ensures Sorted(t[i := t[j]][j := t[i]])
    ensures multiset(t[i := t[j]][j := t[i]]) == multiset(t)
  {
    SameKeysSorted(t, t[i := t[j]][j := t[i]]);
  }

  /** Two regions with the same frames may be sorted either way; the one that is wanted can come first. */
  lemma FirstByChoice(t: seq<Region>, f: nat, y: Region) returns (u: seq<Region>)
    requires Sorted(t) && y in t && HasFrame(y, f) && IsUsable(y.kind)
    requires forall x :: x in t && HasFrame(x, f) ==> IsUsable(x.kind) || (x.start == y.start && x.end == y.end)
    ensures Sorted(u) && multiset(u) == multiset(t) && Grants(u, Frame(f, Kernel))
  {
    TypeOfNone(t, f);
    var j :| 0 <= j < |t| && t[j] == y;
    LookupIn(t, f * PAGE_SIZE);
    var i :| IsFirstAt(t, f * PAGE_SIZE, i) && t[i] == Lookup(t, f * PAGE_SIZE).value;
    FrameOfAddr(t[i], f * PAGE_SIZE);
    FrameOfAddr(y, f * PAGE_SIZE);
    if IsUsable(t[i].kind) {
      u := t;
    } else {
      u := t[i := t[j]][j := t[i]];
      SwapSorted(t, i, j);
    }
    LookupIs(u, f, i);
    FrameGranted(u, f, Kernel, u[i]);
  }

  lemma LookupIs(t: seq<Region>, f: nat, i: nat)
    requires IsFirstAt(t, f * PAGE_SIZE, i)
    ensures Lookup(t, f * PAGE_SIZE) == Some(t[i])
  {
    LookupIn(t, f * PAGE_SIZE);
    assert Intersects(t[i], f * PAGE_SIZE);
    var k :| IsFirstAt(t, f * PAGE_SIZE, k) && t[k] == Lookup(t, f * PAGE_SIZE).value;
  }

  /** The halves of a request inverted by one page share the single frame `e`.  It is claimed through the low
      half, the frame behind it through the high one; what is left of the high half is frame `e` alone, and the
      sort may put it in front of the claimed frame. */
  lemma LastFrameAgain(t: seq<Region>, q: Request, t': seq<Region>, u: seq<Region>)
    requires Tidy(t) && Settles(t, q, t') && First(q) == Behind(q) + 1 && q.start > q.end
    requires Settles(t', Frame(Behind(q), Kernel), u)
    ensures Grants(u, Frame(First(q), Kernel))
    ensures Victim(u, Frame(First(q), Kernel)) == HighHalf(Victim(t, q), q)
    ensures forall x :: x in u && HasFrame(x, Behind(q)) ==>
              IsUsable(x.kind) || x == Region(Behind(q), First(q), Kernel)
  {
    TidySorted(t);
    VictimFacts(t, q);
    var r, e, s := Victim(t, q), Behind(q), First(q);
    FrameClaims(e, Kernel);
    FrameClaims(s, Kernel);
    OverlapHolders(t, q, t', e);
    forall x ensures x in t' && HasFrame(x, s) <==> x == HighHalf(r, q) {
      Halves(t, q, t', s, x);
    }
    FirstGranted(t', e, LowHalf(r, q));
    ClaimLow(t', e, u, LowHalf(r, q), HighHalf(r, q));
  }

  lemma FirstGranted(t: seq<Region>, f: nat, a: Region)
    requires Sorted(t) && a in t && HasFrame(a, f) && IsUsable(a.kind)
    requires forall x :: x in t && HasFrame(x, f) && x != a ==> !Leq(x, a)
    ensures Judge(t, f * PAGE_SIZE, (f + 1) * PAGE_SIZE, Kernel) == Granted(a)
  {
    TypeOfNone(t, f);
    var i :| 0 <= i < |t| && t[i] == a;
    LookupFacts(t, f);
    FrameGranted(t, f, Kernel, a);
  }

  lemma ClaimLow(t: seq<Region>, e: nat, u: seq<Region>, a: Region, c: Region)
    requires Sorted(t) && Settles(t, Frame(e, Kernel), u) && Victim(t, Frame(e, Kernel)) == a
    requires a.end == e + 1 && c.start == e && e + 1 < c.end && IsUsable(a.kind) && IsUsable(c.kind) && HasFrame(a, e)
    requires forall x :: x in t && HasFrame(x, e) <==> x == a || x == c
    requires forall x :: x in t && HasFrame(x, e + 1) <==> x == c
    ensures Judge(u, (e + 1) * PAGE_SIZE, (e + 2) * PAGE_SIZE, Kernel) == Granted(c)
    ensures forall x :: x in u && HasFrame(x, e) ==> IsUsable(x.kind) || x == Region(e, e + 1, Kernel)
  {
    var q := Frame(e, Kernel);
    FrameClaims(e, Kernel);
    VictimFacts(t, q);
    StepRegions(t, q, u, c);
    forall x | x in u && HasFrame(x, e + 1) ensures x == c {
      StepRegions(t, q, u, x);
    }
    forall x | x in u && HasFrame(x, e) ensures IsUsable(x.kind) || x == Region(e, e + 1, Kernel) {
      StepRegions(t, q, u, x);
    }
    FirstGranted(u, e + 1, c);
  }

  /** The third request leaves frame `e` usable in some order of the table. */
  lemma ReclaimableBySort(u: seq<Region>, e: nat, c: Region, v: seq<Region>) returns (w: seq<Region>)
    requires Sorted(u) && Settles(u, Frame(e + 1, Kernel), v) && Victim(u, Frame(e + 1, Kernel)) == c
    requires c.start == e && e + 1 < c.end && IsUsable(c.kind)
    requires forall x :: x in u && HasFrame(x, e) ==> IsUsable(x.kind) || x == Region(e, e + 1, Kernel)
    ensures Settles(u, Frame(e + 1, Kernel), w) && Grants(w, Frame(e, Kernel))
  {
    var q, y := Frame(e + 1, Kernel), Region(e, e + 1, c.kind);
    FrameClaims(e + 1, Kernel);
    VictimFacts(u, q);
    StepRegions(u, q, v, y);
    forall x | x in v && HasFrame(x, e) ensures IsUsable(x.kind) || (x.start == y.start && x.end == y.end) {
      StepRegions(u, q, v, x);
    }
    w := FirstByChoice(v, e, y);
  }

  // ----- a granted request has a result -----

  function InsertSorted(t: seq<Region>, x: Region): seq<Region> {
    if t == [] then [x]
    else if Leq(x, t[0]) then [x] + t
    else [t[0]] + InsertSorted(t[1..], x)
  }

  predicate InLimits(x: Region) { !IsEmpty(x) && x.start < FRAME_LIMIT && x.end < FRAME_LIMIT }

  lemma SortedCons(x: Region, t: seq<Region>)
    requires Sorted(t) && InLimits(x) && forall y :: y in t ==> Leq(x, y)
    ensures Sorted([x] + t)
  {
  }

  lemma {:induction false} InsertKeepsSorted(t: seq<Region>, x: Region)
    requires Sorted(t) && InLimits(x)
    ensures Sorted(InsertSorted(t, x))
    ensures multiset(InsertSorted(t, x)) == multiset(t) + multiset{x}
  {
    if t == [] {
    } else if Leq(x, t[0]) {
      forall y | y in t ensures Leq(x, y) {
        assert y == t[0] || Leq(t[0], y);
      }
      SortedCons(x, t);
    } else {
      SortedTail(t);
      InsertKeepsSorted(t[1..], x);
      HeadTail(t);
      InsertBehind(t, x);
      SortedCons(t[0], InsertSorted(t[1..], x));
    }
  }

  lemma InsertBehind(t: seq<Region>, x: Region)
    requires Sorted(t) && InLimits(x) && t != [] && !Leq(x, t[0])
    requires multiset(InsertSorted(t[1..], x)) == multiset(t[1..]) + multiset{x}
    ensures forall y :: y in InsertSorted(t[1..], x) ==> Leq(t[0], y)
  {
    forall y | y in InsertSorted(t[1..], x) ensures Leq(t[0], y) {
      assert y in multiset(InsertSorted(t[1..], x));
      assert y == x || y in t[1..];
    }
  }

  lemma {:induction false} SortedVersion(s: seq<Region>) returns (t: seq<Region>)
    requires forall x :: x in s ==> IsEmpty(x) || InLimits(x)
    ensures Sorted(t) && multiset(t) == Bag(s)
  {
    if s == [] {
      t := [];
    } else {
      var init, last := s[..|s| - 1], s[|s| - 1];
      var u := SortedVersion(init);
      if IsEmpty(last) {
        t := u;
      } else {
        InsertKeepsSorted(u, last);
        t := InsertSorted(u, last);
      }
    }
  }

  lemma TakeOut(t: seq<Region>, r: Region) returns (rest: seq<Region>)
    requires Sorted(t) && r in t
    ensures multiset(rest) == Bag(rest) == multiset(t) - multiset{r}
    ensures forall x :: x in rest ==> InLimits(x)
  {
    var k :| 0 <= k < |t| && t[k] == r;
    rest := t[..k] + t[k + 1..];
    WithoutOne(t, k);
    forall x | x in rest ensures InLimits(x) {
      assert x in t;
    }
    BagNoEmpties(rest);
  }

  lemma WithoutOne(t: seq<Region>, k: nat)
    requires k < |t|
    ensures multiset(t[..k] + t[k + 1..]) == multiset(t) - multiset{t[k]}
  {
    assert t == t[..k] + [t[k]] + t[k + 1..];
  }

  lemma NewInLimits(r: Region, q: Request, x: Region)
    requires r.end < FRAME_LIMIT && HasFrame(r, First(q)) && HasFrame(r, Behind(q) - 1)
    requires x in NewRegions(r, First(q), Behind(q), q.kind)
    ensures IsEmpty(x) || InLimits(x)
  {
  }

  lemma RoomForTwo(n: nat, p: seq<Region>)
    requires n + 2 <= MAX_MEMORY_MAP_SIZE && |p| == 3
    ensures HasRoom(n, p)
  {
  }

  /** Every granted request has a result if the table has two entries to spare. */
  lemma SomeResult(t: seq<Region>, q: Request) returns (t': seq<Region>)
    requires Sorted(t) && Grants(t, q) && !IsUsable(q.kind) && |t| + 2 <= MAX_MEMORY_MAP_SIZE
    ensures Settles(t, q, t') && |t'| <= |t| + 2
  {
    VictimFacts(t, q);
    var r := Victim(t, q);
    var rest := TakeOut(t, r);
    var p := NewRegions(r, First(q), Behind(q), q.kind);
    forall x | x in p ensures IsEmpty(x) || InLimits(x) {
      NewInLimits(r, q, x);
    }
    BagConcat(rest, p);
    t' := SortedVersion(rest + p);
    RoomForTwo(|t|, p);
    StepGrows(t, q, t');
  }

  // ----- the exact condition -----

  /** No frame is claimed by two requests. */
  ghost predicate Exclusive(requests: seq<Request>) {
    forall i, j, f: nat :: 0 <= i < j < |requests| && Claims(requests[i], f) ==> !Claims(requests[j], f)
  }

  /** A run that goes on from the request `q` with requests in order. */
  ghost predicate GoesOn(t: seq<Region>, q: Request, t': seq<Region>, tables: seq<seq<Region>>,
                         requests: seq<Request>)
  {
    && IsRun(tables, requests) && |requests| > 0
    && tables[0] == t && requests[0] == q && tables[1] == t'
    && forall i :: 0 < i < |requests| ==> requests[i].start <= requests[i].end
  }

  /** No run that goes on from `q` claims a frame twice. */
  ghost predicate NeverTwice(t: seq<Region>, q: Request, t': seq<Region>) {
    forall tables, requests :: GoesOn(t, q, t', tables, requests) ==> Exclusive(requests)
  }

  lemma WideInversion(t: seq<Region>, q: Request, t': seq<Region>)
    returns (tables: seq<seq<Region>>, requests: seq<Request>)
    requires Tidy(t) && Settles(t, q, t') && q.start > q.end && First(q) >= Behind(q) + 2
    requires |t| + 8 <= MAX_MEMORY_MAP_SIZE
    ensures GoesOn(t, q, t', tables, requests) && !Exclusive(requests)
  {
    TidySorted(t);
    StepGrows(t, q, t');
    var f := First(q) - 1;
    var p := Frame(f, Kernel);
    LastOverlapGranted(t, q, t', f, Kernel);
    var u := SomeResult(t', p);
    LastOverlapAgain(t, q, t', f, Kernel, u, Kernel);
    var v := SomeResult(u, p);
    FrameClaims(f, Kernel);
    tables, requests := [t, t', u, v], [q, p, p];
    NotExclusive(requests, 1, 2, f);
  }

  lemma NotExclusive(requests: seq<Request>, i: nat, j: nat, f: nat)
    requires i < j < |requests| && Claims(requests[i], f) && Claims(requests[j], f)
    ensures !Exclusive(requests)
  {
  }

  lemma LowHalfGranted(t: seq<Region>, q: Request, t': seq<Region>)
    requires Tidy(t) && Settles(t, q, t') && q.start > q.end
    ensures Grants(t', Frame(Behind(q), Kernel))
    ensures HighHalf(Victim(t, q), q).end > First(q) && IsUsable(Victim(t, q).kind)
  {
    OverlapHolders(t, q, t', Behind(q));
    FirstGranted(t', Behind(q), LowHalf(Victim(t, q), q));
  }

  lemma NarrowSteps(t: seq<Region>, q: Request, t': seq<Region>, e: nat)
    returns (u: seq<Region>, v: seq<Region>, w: seq<Region>)
    requires Tidy(t) && Settles(t, q, t') && q.start > q.end && e == Behind(q) && First(q) == e + 1
    requires |t'| + 6 <= MAX_MEMORY_MAP_SIZE
    ensures Settles(t', Frame(e, Kernel), u) && Settles(u, Frame(e + 1, Kernel), v) && Settles(v, Frame(e, Kernel), w)
  {
    LowHalfGranted(t, q, t');
    u := SomeResult(t', Frame(e, Kernel));
    LastFrameAgain(t, q, t', u);
    v := SomeResult(u, Frame(e + 1, Kernel));
    v := ReclaimableBySort(u, e, HighHalf(Victim(t, q), q), v);
    StepGrows(u, Frame(e + 1, Kernel), v);
    w := SomeResult(v, Frame(e, Kernel));
  }

  lemma NarrowInversion(t: seq<Region>, q: Request, t': seq<Region>)
    returns (tables: seq<seq<Region>>, requests: seq<Request>)
    requires Tidy(t) && Settles(t, q, t') && q.start > q.end && First(q) == Behind(q) + 1
    requires |t| + 8 <= MAX_MEMORY_MAP_SIZE
    ensures GoesOn(t, q, t', tables, requests) && !Exclusive(requests)
  {
    TidySorted(t);
    StepGrows(t, q, t');
    var e := Behind(q);
    var p, p' := Frame(e, Kernel), Frame(e + 1, Kernel);
    var u, v, w := NarrowSteps(t, q, t', e);
    FrameClaims(e, Kernel);
    tables, requests := [t, t', u, v, w], [q, p, p', p];
    FourSteps(t, q, t', p, u, p', v, p, w);
    NotExclusive(requests, 1, 3, e);
  }

  lemma FourSteps(t: seq<Region>, q: Request, t': seq<Region>, a: Request, u: seq<Region>, b: Request, v: seq<Region>,
                  c: Request, w: seq<Region>)
    requires Settles(t, q, t') && Settles(t', a, u) && Settles(u, b, v) && Settles(v, c, w)
    requires a.start <= a.end && b.start <= b.end && c.start <= c.end
    ensures GoesOn(t, q, t', [t, t', u, v, w], [q, a, b, c])
  {
  }

  lemma OrderedGoesOn(t: seq<Region>, q: Request, t': seq<Region>, tables: seq<seq<Region>>, requests: seq<Request>)
    requires Tidy(t) && q.start <= q.end && GoesOn(t, q, t', tables, requests)
    ensures Exclusive(requests)
  {
    assert Ordered(requests);
    forall i, j, f: nat | 0 <= i < j < |requests| && Claims(requests[i], f) ensures !Claims(requests[j], f) {
      ClaimsAreExclusive(tables, requests, i, f);
    }
  }

  /** The exact condition for exclusive claims.  A granted request on a tidy map leaves every later run of
      ordered requests unable to claim a frame twice if and only if its own addresses are in order.  The one half
      holds of every table; for the other the table must have entries to spare for the run that claims twice. */
  lemma ExclusiveIff(t: seq<Region>, q: Request, t': seq<Region>)
    requires Tidy(t) && Settles(t, q, t')
    ensures q.start <= q.end ==> NeverTwice(t, q, t')
    ensures NeverTwice(t, q, t') && |t| + 8 <= MAX_MEMORY_MAP_SIZE ==> q.start <= q.end
  {
    if q.start <= q.end {
      forall tables, requests | GoesOn(t, q, t', tables, requests) ensures Exclusive(requests) {
        OrderedGoesOn(t, q, t', tables, requests);
      }
    } else if |t| + 8 <= MAX_MEMORY_MAP_SIZE {
      TidySorted(t);
      GrantedFacts(t, q.start, q.end, q.kind);
      if First(q) >= Behind(q) + 2 {
        var tables, requests := WideInversion(t, q, t');
      } else {
        var tables, requests := NarrowInversion(t, q, t');
      }
    }
  }

  /** A map of four usable frames and a request from frame 3 back to frame 1: frame 2 can be claimed twice. */
  lemma InvertedRequestClaimsTwice()
    returns (tables: seq<seq<Region>>, requests: seq<Request>)
    ensures IsRun(tables, requests) && !Exclusive(requests) && |requests| > 0
    ensures tables[0] == [Region(0, 4, Usable)] && requests[0] == Request(3 * PAGE_SIZE, PAGE_SIZE, InUse)
  {
    var t, q := [Region(0, 4, Usable)], Request(3 * PAGE_SIZE, PAGE_SIZE, InUse);
    var t' := SomeResult(t, q);
    tables, requests := WideInversion(t, q, t');
  }
}
