/** What partitioning means for the map from frames to types, for one call and for whole runs. */
module MemoryRuns {
  import opened Machine
  import opened MemoryTable

  /** The non-empty regions that take the place of `r` when frames `s .. e` of it get a new type. */
  function Cut(r: Region, s: nat, e: nat, kind: RegionType): seq<Region> {
    (if r.start < s then [Region(r.start, s, r.kind)] else [])
    + (if s < e then [Region(s, e, kind)] else [])
    + (if e < r.end then [Region(e, r.end, r.kind)] else [])
  }

  function Spliced(t: seq<Region>, k: nat, s: nat, e: nat, kind: RegionType): seq<Region>
    requires k < |t|
  {
    t[..k] + Cut(t[k], s, e, kind) + t[k + 1..]
  }

  lemma BagOfPieces(r: Region, s: nat, e: nat, kind: RegionType)
    requires HasFrame(r, s) && HasFrame(r, e - 1) && 0 < e && s <= e
    ensures Bag(Pieces(r, s * PAGE_SIZE, e * PAGE_SIZE, kind)) == multiset(Cut(r, s, e, kind))
  {
    PiecesInFrames(r, s, e, kind);
    var p := Pieces(r, s * PAGE_SIZE, e * PAGE_SIZE, kind);
    assert p == [p[0]] + [p[1]] + [p[2]];
    BagConcat([p[0]] + [p[1]], [p[2]]);
    BagConcat([p[0]], [p[1]]);
    BagOfOne(p[0]);
    BagOfOne(p[1]);
    BagOfOne(p[2]);
  }

  lemma BagOfOne(r: Region)
    ensures Bag([r]) == if IsEmpty(r) then multiset{} else multiset{r}
  {
    assert Bag([r]) == Bag([]) + if IsEmpty(r) then multiset{} else multiset{r};
  }

  lemma SplicedTidy(t: seq<Region>, k: nat, s: nat, e: nat, kind: RegionType)
    requires Tidy(t) && k < |t| && HasFrame(t[k], s) && HasFrame(t[k], e - 1) && s <= e
    ensures Tidy(Spliced(t, k, s, e, kind))
    ensures |Spliced(t, k, s, e, kind)| <= |t| + 2
  {
    var m := Cut(t[k], s, e, kind);
    assert Tidy(m);
    assert forall i :: 0 <= i < |m| ==> t[k].start <= m[i].start && m[i].end <= t[k].end;
    TidyConcat(t[..k], m);
    TidyConcat(t[..k] + m, t[k + 1..]);
  }

  lemma TidyConcat(a: seq<Region>, b: seq<Region>)
    requires Tidy(a) && Tidy(b)
    requires forall i, j :: 0 <= i < |a| && 0 <= j < |b| ==> a[i].end <= b[j].start
    ensures Tidy(a + b)
  {
  }

  lemma SplicedBag(t: seq<Region>, k: nat, s: nat, e: nat, kind: RegionType)
    requires k < |t|
    ensures multiset(Spliced(t, k, s, e, kind)) == multiset(t) - multiset{t[k]} + multiset(Cut(t[k], s, e, kind))
  {
    assert t == t[..k] + [t[k]] + t[k + 1..];
  }

  lemma SortedSplice(t: seq<Region>, k: nat, s: nat, e: nat, kind: RegionType, t': seq<Region>)
    requires Tidy(t) && k < |t| && HasFrame(t[k], s) && HasFrame(t[k], e - 1) && 0 < e && s <= e
    requires Sorted(t')
    requires multiset(t') == multiset(t) - multiset{t[k]} + Bag(Pieces(t[k], s * PAGE_SIZE, e * PAGE_SIZE, kind))
    ensures t' == Spliced(t, k, s, e, kind)
  {
    BagOfPieces(t[k], s, e, kind);
    SplicedTidy(t, k, s, e, kind);
    SplicedBag(t, k, s, e, kind);
    TidySorted(Spliced(t, k, s, e, kind));
    SortedUnique(Spliced(t, k, s, e, kind), t');
  }

  /** A granted request with `start <= end` on a tidy table: the result is the table with one region
      replaced in place, whatever the sort does with regions it considers equal. */
  lemma PartitionIsSplice(t: seq<Region>, start: nat, end: nat, kind: RegionType, t': seq<Region>) returns (k: nat)
    requires Tidy(t) && PartitionStep(t, start, end, kind, t') && start <= end
    ensures k < |t| && HasFrame(t[k], start / PAGE_SIZE) && HasFrame(t[k], end / PAGE_SIZE - 1) && IsUsable(t[k].kind)
    ensures t' == Spliced(t, k, start / PAGE_SIZE, end / PAGE_SIZE, kind)
  {
    var s, e := start / PAGE_SIZE, end / PAGE_SIZE;
    TidySorted(t);
    GrantedFacts(t, start, end, kind);
    assert start == s * PAGE_SIZE && end == e * PAGE_SIZE;
    k :| 0 <= k < |t| && t[k] == Judge(t, start, end, kind).region;
    SortedSplice(t, k, s, e, kind, t');
  }

  lemma CutHas(r: Region, s: nat, e: nat, kind: RegionType, f: nat) returns (j: nat)
    requires HasFrame(r, s) && HasFrame(r, e - 1) && s <= e && HasFrame(r, f)
    ensures j < |Cut(r, s, e, kind)| && HasFrame(Cut(r, s, e, kind)[j], f)
    ensures Cut(r, s, e, kind)[j].kind == if s <= f < e then kind else r.kind
  {
    j := (if r.start < s <= f then 1 else 0) + (if s < e <= f then 1 else 0);
  }

  lemma SplicedTypes(t: seq<Region>, k: nat, s: nat, e: nat, kind: RegionType, f: nat)
    requires Tidy(t) && k < |t| && HasFrame(t[k], s) && HasFrame(t[k], e - 1) && s <= e
    ensures TypeOf(Spliced(t, k, s, e, kind), f) == if s <= f < e then Some(kind) else TypeOf(t, f)
  {
    var t', m := Spliced(t, k, s, e, kind), Cut(t[k], s, e, kind);
    SplicedTidy(t, k, s, e, kind);
    if HasFrame(t[k], f) {
      var j := CutHas(t[k], s, e, kind, f);
      assert t'[k + j] == m[j];
      TypeOfMember(t', f, k + j);
      TypeOfMember(t, f, k);
    } else if i :| 0 <= i < |t| && HasFrame(t[i], f) {
      var i' := if i < k then i else i - 1 + |m|;
      assert t'[i'] == t[i];
      TypeOfMember(t', f, i');
      TypeOfMember(t, f, i);
    } else {
      SplicedUnknown(t, k, s, e, kind, f);
      TypeOfNone(t', f);
      TypeOfNone(t, f);
    }
  }

  lemma SplicedUnknown(t: seq<Region>, k: nat, s: nat, e: nat, kind: RegionType, f: nat)
    requires k < |t| && HasFrame(t[k], s) && HasFrame(t[k], e - 1) && s <= e
    requires forall i :: 0 <= i < |t| ==> !HasFrame(t[i], f)
    ensures forall i :: 0 <= i < |Spliced(t, k, s, e, kind)| ==> !HasFrame(Spliced(t, k, s, e, kind)[i], f)
  {
    var t', m := Spliced(t, k, s, e, kind), Cut(t[k], s, e, kind);
    forall i | 0 <= i < |t'| ensures !HasFrame(t'[i], f) {
      assert i < k ==> t'[i] == t[i];
      assert i >= k + |m| ==> t'[i] == t[i - |m| + 1];
      assert k <= i < k + |m| ==> t'[i] == m[i - k];
    }
  }

  /** A successful partition with `start <= end` changes the type of exactly the requested frames, keeps
      the table tidy and makes it longer by at most two regions. */
  lemma PartitionRetypes(t: seq<Region>, start: nat, end: nat, kind: RegionType, t': seq<Region>)
    requires Tidy(t) && PartitionStep(t, start, end, kind, t') && start <= end
    ensures Tidy(t') && |t'| <= |t| + 2
    ensures forall f: nat :: TypeOf(t', f) ==
              if start / PAGE_SIZE <= f < end / PAGE_SIZE then Some(kind) else TypeOf(t, f)
    ensures forall f: nat :: start / PAGE_SIZE <= f < end / PAGE_SIZE ==>
              TypeOf(t, f).Some? && IsUsable(TypeOf(t, f).value)
  {
    var k := PartitionIsSplice(t, start, end, kind, t');
    var s, e := start / PAGE_SIZE, end / PAGE_SIZE;
    SplicedTidy(t, k, s, e, kind);
    forall f: nat ensures TypeOf(t', f) == if s <= f < e then Some(kind) else TypeOf(t, f) {
      SplicedTypes(t, k, s, e, kind, f);
    }
    forall f: nat | s <= f < e ensures TypeOf(t, f) == Some(t[k].kind) {
      TypeOfMember(t, f, k);
    }
  }

  /** The table has room for a request exactly when the result fits in it. */
  lemma RoomIff(t: seq<Region>, start: nat, end: nat, kind: RegionType, t': seq<Region>)
    requires Tidy(t) && PartitionStep(t, start, end, kind, t') && start < end
    ensures HasRoom(|t|, Pieces(Judge(t, start, end, kind).region, start, end, kind)) <==> |t'| <= MAX_MEMORY_MAP_SIZE
  {
    TidySorted(t);
    GrantedFacts(t, start, end, kind);
    var r, s, e := Judge(t, start, end, kind).region, start / PAGE_SIZE, end / PAGE_SIZE;
    var k := PartitionIsSplice(t, start, end, kind, t');
    AloneHere(t, r, t[k], s);
    RoomForCut(|t|, r, s, e, kind);
  }

  lemma RoomForCut(n: nat, r: Region, s: nat, e: nat, kind: RegionType)
    requires HasFrame(r, s) && HasFrame(r, e - 1) && s < e && !IsEmpty(r) && r.kind != Empty
    ensures HasRoom(n, Pieces(r, s * PAGE_SIZE, e * PAGE_SIZE, kind))
       <==> n - 1 + |Cut(r, s, e, kind)| <= MAX_MEMORY_MAP_SIZE
  {
    PiecesInFrames(r, s, e, kind);
  }

  lemma AloneHere(t: seq<Region>, r: Region, x: Region, f: nat)
    requires Tidy(t) && r in t && x in t && HasFrame(r, f) && HasFrame(x, f)
    ensures x == r
  {
    var i :| 0 <= i < |t| && t[i] == r;
    var j :| 0 <= j < |t| && t[j] == x;
  }

  /** An inverted request is not turned down, and it never leaves a tidy table: whether a granted request
      keeps the table tidy depends on the order of its two addresses and on nothing else. */
  lemma TidyIff(t: seq<Region>, start: nat, end: nat, kind: RegionType, t': seq<Region>)
    requires Tidy(t) && PartitionStep(t, start, end, kind, t')
    ensures Tidy(t') <==> start <= end
  {
    if start <= end {
      PartitionRetypes(t, start, end, kind, t');
    } else {
      TidySorted(t);
      GrantedFacts(t, start, end, kind);
      var r := Judge(t, start, end, kind).region;
      var s, e := start / PAGE_SIZE, end / PAGE_SIZE;
      PiecesInFrames(r, s, e, kind);
      var p := Pieces(r, start, end, kind);
      BagCount(p, Region(s, e, kind));
      assert p[1] in multiset(p);
      assert Region(s, e, kind) in multiset(t');
    }
  }

  // ----- runs -----

  datatype Request = Request(start: nat, end: nat, kind: RegionType)

  /** A frame the request asks for. */
  predicate Claims(q: Request, f: int) {
    q.start / PAGE_SIZE <= f < q.end / PAGE_SIZE
  }

  /** A granted request to a type that cannot be claimed again; the table has room for the pieces. */
  ghost predicate Settles(t: seq<Region>, q: Request, t': seq<Region>) {
    && PartitionStep(t, q.start, q.end, q.kind, t') && !IsUsable(q.kind)
    && HasRoom(|t|, Pieces(Judge(t, q.start, q.end, q.kind).region, q.start, q.end, q.kind))
  }

  ghost predicate IsRun(tables: seq<seq<Region>>, requests: seq<Request>) {
    && |tables| == |requests| + 1
    && forall i :: 0 <= i < |requests| ==> Settles(tables[i], requests[i], tables[i + 1])
  }

  ghost predicate Ordered(requests: seq<Request>) {
    forall i :: 0 <= i < |requests| ==> requests[i].start <= requests[i].end
  }

  lemma {:induction false} RunTidy(tables: seq<seq<Region>>, requests: seq<Request>, n: nat)
    requires IsRun(tables, requests) && Tidy(tables[0]) && Ordered(requests) && n <= |requests|
    ensures Tidy(tables[n]) && |tables[n]| <= |tables[0]| + 2 * n
  {
    if n > 0 {
      RunTidy(tables, requests, n - 1);
      var q := requests[n - 1];
      PartitionRetypes(tables[n - 1], q.start, q.end, q.kind, tables[n]);
    }
  }

  /** The type of every frame, as one function. */
  ghost function Types(t: seq<Region>): nat -> Option<RegionType> {
    (f: nat) => TypeOf(t, f)
  }

  ghost function History(tables: seq<seq<Region>>): seq<nat -> Option<RegionType>> {
    seq(|tables|, i requires 0 <= i < |tables| => Types(tables[i]))
  }

  predicate Claimable(kind: Option<RegionType>) { kind.Some? && IsUsable(kind.value) }

  /** One request, seen at one frame: a frame it claims was usable and gets its type, any other frame
      keeps the type it has. */
  predicate RetypesFrame(q: Request, f: nat, before: Option<RegionType>, after: Option<RegionType>) {
    if Claims(q, f) then Claimable(before) && after == Some(q.kind) && !IsUsable(q.kind)
    else after == before
  }

  ghost predicate Retypes(h: seq<nat -> Option<RegionType>>, requests: seq<Request>) {
    && |h| == |requests| + 1
    && forall n: nat, f: nat :: n < |requests| ==> RetypesAt(h, requests, n, f)
  }

  ghost predicate RetypesAt(h: seq<nat -> Option<RegionType>>, requests: seq<Request>, n: nat, f: nat)
    requires |h| == |requests| + 1 && n < |requests|
  {
    RetypesFrame(requests[n], f, h[n](f), h[n + 1](f))
  }

  lemma RunStepRetypes(tables: seq<seq<Region>>, requests: seq<Request>, n: nat, f: nat)
    requires IsRun(tables, requests) && Tidy(tables[0]) && Ordered(requests) && n < |requests|
    ensures RetypesFrame(requests[n], f, TypeOf(tables[n], f), TypeOf(tables[n + 1], f))
  {
    RunTidy(tables, requests, n);
    var q := requests[n];
    PartitionRetypes(tables[n], q.start, q.end, q.kind, tables[n + 1]);
    assert Claims(q, f) <==> q.start / PAGE_SIZE <= f < q.end / PAGE_SIZE;
  }

  /** A run of ordered requests on a tidy map refines a run of frame maps. */
  lemma RunRetypes(tables: seq<seq<Region>>, requests: seq<Request>)
    requires IsRun(tables, requests) && Tidy(tables[0]) && Ordered(requests)
    ensures Retypes(History(tables), requests)
  {
    var h := History(tables);
    forall n: nat, f: nat | n < |requests| ensures RetypesAt(h, requests, n, f) {
      RunRetypesAt(tables, requests, n, f);
    }
  }

  lemma RunRetypesAt(tables: seq<seq<Region>>, requests: seq<Request>, n: nat, f: nat)
    requires IsRun(tables, requests) && Tidy(tables[0]) && Ordered(requests) && n < |requests|
    ensures RetypesAt(History(tables), requests, n, f)
  {
    RunStepRetypes(tables, requests, n, f);
    HistoryAt(tables, n, f);
    HistoryAt(tables, n + 1, f);
  }

  lemma HistoryAt(tables: seq<seq<Region>>, n: nat, f: nat)
    requires n < |tables|
    ensures History(tables)[n](f) == TypeOf(tables[n], f)
  {
  }

  /** A frame that cannot be claimed keeps its type for the rest of the run. */
  lemma {:induction false} SettledForever(h: seq<nat -> Option<RegionType>>, requests: seq<Request>, m: nat, n: nat,
                                          f: nat)
    requires Retypes(h, requests) && m <= n <= |requests| && !Claimable(h[m](f))
    ensures h[n](f) == h[m](f)
  {
    if m < n {
      SettledForever(h, requests, m, n - 1, f);
      assert RetypesAt(h, requests, n - 1, f);
    }
  }

  /** A claimed frame has its new type ever after. */
  lemma ClaimLasts(h: seq<nat -> Option<RegionType>>, requests: seq<Request>, i: nat, n: nat, f: nat)
    requires Retypes(h, requests) && i < n <= |requests| && Claims(requests[i], f)
    ensures h[n](f) == Some(requests[i].kind) && !Claimable(h[n](f))
  {
    assert RetypesAt(h, requests, i, f);
    SettledForever(h, requests, i + 1, n, f);
  }

  lemma ClaimOnce(h: seq<nat -> Option<RegionType>>, requests: seq<Request>, i: nat, j: nat, f: nat)
    requires Retypes(h, requests) && i < j < |requests| && Claims(requests[i], f)
    ensures !Claims(requests[j], f)
  {
    ClaimLasts(h, requests, i, j, f);
    assert RetypesAt(h, requests, j, f);
  }

  /** The guarantee of the memory map over every run of ordered requests on a tidy map: no frame is claimed
      twice, and a claimed frame keeps its new type to the end. */
  lemma ClaimsAreExclusive(tables: seq<seq<Region>>, requests: seq<Request>, j: nat, f: nat)
    requires IsRun(tables, requests) && Tidy(tables[0]) && Ordered(requests)
    requires j < |requests| && Claims(requests[j], f)
    ensures forall i :: 0 <= i < |requests| && i != j ==> !Claims(requests[i], f)
    ensures forall n :: j < n <= |requests| ==> TypeOf(tables[n], f) == Some(requests[j].kind)
  {
    var h := History(tables);
    RunRetypes(tables, requests);
    forall i | 0 <= i < |requests| && i != j ensures !Claims(requests[i], f) {
      if Claims(requests[i], f) {
        ClaimOnce(h, requests, if i < j then i else j, if i < j then j else i, f);
      }
    }
    forall n | j < n <= |requests| ensures TypeOf(tables[n], f) == Some(requests[j].kind) {
      ClaimLasts(h, requests, j, n, f);
      HistoryAt(tables, n, f);
    }
  }
}
