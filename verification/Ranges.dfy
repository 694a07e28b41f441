/** Inclusive `u64` ranges and lists of them, as values.

    A list of ranges stands for the set of numbers it covers.  `Inserted` and `Removed` say which list
    the restarting loops of the range set arrive at; the lemmas say what those lists cover and that
    they stay canonical: well-formed, pairwise disjoint and pairwise non-touching. */
module Ranges {
  import opened Machine

  datatype Range = Range(start: u64, end: u64)

  predicate Shaped(r: Range) { r.start <= r.end }

  predicate Has(r: Range, x: int) { r.start <= x <= r.end }

  ghost function Interval(r: Range): set<int> {
    set x: int | 0 <= x <= U64_MAX && Has(r, x)
  }

  ghost predicate CoveredBy(s: seq<Range>, x: int) {
    exists i :: 0 <= i < |s| && Has(s[i], x)
  }

  /** The set of numbers a list of ranges stands for. */
  ghost function Covered(s: seq<Range>): set<int> {
    set x: int | 0 <= x <= U64_MAX && CoveredBy(s, x)
  }

  /** There is at least one number strictly between the two ranges. */
  predicate Apart(a: Range, b: Range) {
    a.end + 1 < b.start || b.end + 1 < a.start
  }

  ghost predicate Canonical(s: seq<Range>) {
    && (forall i :: 0 <= i < |s| ==> Shaped(s[i]))
    && (forall i, j :: 0 <= i < j < |s| ==> Apart(s[i], s[j]))
  }

  // ----- overlaps and contains -----

  function SaturatingInc(x: u64): u64 { if x == U64_MAX then x else x + 1 }

  function SaturatingDec(x: u64): u64 { if x == 0 then x else x - 1 }

  function LowToHigh(r: Range): (s: Range)
    ensures Shaped(s) && {s.start, s.end} == {r.start, r.end}
  {
    if r.start > r.end then Range(r.end, r.start) else r
  }

  /** The common part of two ranges.  Neither argument has to be well-formed: the code swaps the ends
      of an inverted range first. */
  function Overlaps(a: Range, b: Range): (r: Option<Range>)
    ensures r.Some? ==> Shaped(r.value)
    ensures forall x :: Has(LowToHigh(a), x) && Has(LowToHigh(b), x) <==> r.Some? && Has(r.value, x)
  {
    var a, b := LowToHigh(a), LowToHigh(b);
    if a.start <= b.end && b.start <= a.end then
      Some(Range(Max(a.start, b.start), Min(a.end, b.end)))
    else None
  }

  predicate Contains(a: Range, b: Range) {
    var a, b := LowToHigh(a), LowToHigh(b);
    a.start >= b.start && a.end <= b.end
  }

  lemma OverlapsIffMeet(a: Range, b: Range)
    requires Shaped(a) && Shaped(b)
    ensures Overlaps(a, b).Some? <==> exists x :: Has(a, x) && Has(b, x)
  {
    if Overlaps(a, b).Some? {
      assert Has(a, Overlaps(a, b).value.start) && Has(b, Overlaps(a, b).value.start);
    }
  }

  lemma ContainsIffSubset(a: Range, b: Range)
    requires Shaped(a) && Shaped(b)
    ensures Contains(a, b) <==> Interval(a) <= Interval(b)
  {
    if Interval(a) <= Interval(b) {
      assert a.start in Interval(a) && a.end in Interval(a);
    }
  }

  // ----- insert -----

  /** The test of the merge loop: the ranges overlap once each has been extended by one. */
  predicate Touches(range: Range, ent: Range) {
    Overlaps(Range(range.start, SaturatingInc(range.end)), Range(ent.start, SaturatingInc(ent.end))).Some?
  }

  /** Saturation at the top of the address space loses nothing: the test is exact adjacency. */
  lemma TouchesIffNotApart(a: Range, b: Range)
    requires Shaped(a) && Shaped(b)
    ensures Touches(a, b) <==> !Apart(a, b)
    ensures Touches(a, b) <==> Touches(b, a)
  {
  }

  function Hull(a: Range, b: Range): Range {
    Range(Min(a.start, b.start), Max(a.end, b.end))
  }

  /** The entries that are not merged with `r`. */
  function Untouched(s: seq<Range>, r: Range): (k: seq<Range>)
    ensures |k| <= |s|
  {
    if s == [] then []
    else (if Touches(r, s[0]) then [] else [s[0]]) + Untouched(s[1..], r)
  }

  /** `r` extended over every entry it touches. */
  function Merged(s: seq<Range>, r: Range): Range {
    if s == [] then r
    else if Touches(r, s[0]) then Hull(s[0], Merged(s[1..], r))
    else Merged(s[1..], r)
  }

  function Inserted(s: seq<Range>, r: Range): seq<Range> {
    Untouched(s, r) + [Merged(s, r)]
  }

  function Delete<T>(s: seq<T>, i: nat): seq<T>
    requires i < |s|
  {
    s[..i] + s[i + 1..]
  }

  lemma HullTouches(a: Range, b: Range, c: Range)
    requires Shaped(a) && Shaped(b) && Shaped(c) && Touches(a, b)
    ensures Shaped(Hull(a, b))
    ensures Touches(Hull(a, b), c) <==> Touches(a, c) || Touches(b, c)
    ensures forall x :: Has(Hull(a, b), x) <==> Has(a, x) || Has(b, x)
  {
  }

  lemma MergedExtends(s: seq<Range>, r: Range)
    requires Shaped(r)
    ensures Merged(s, r).start <= r.start && r.end <= Merged(s, r).end
  {
  }

  /** The merged range covers `r` and the entries it touches, and nothing else. */
  lemma {:induction false} MergedHas(s: seq<Range>, r: Range, x: int)
    requires Shaped(r) && forall i :: 0 <= i < |s| ==> Shaped(s[i])
    ensures Has(Merged(s, r), x) <==> Has(r, x) || exists i :: 0 <= i < |s| && Touches(r, s[i]) && Has(s[i], x)
  {
    if s != [] {
      MergedHas(s[1..], r, x);
      MergedExtends(s[1..], r);
      if Touches(r, s[0]) {
        HullTouches(s[0], Merged(s[1..], r), r);
      }
      assert forall i :: 0 <= i < |s[1..]| ==> s[1..][i] == s[i + 1];
    }
  }

  lemma {:induction false} MergedApart(s: seq<Range>, r: Range, f: Range)
    requires Shaped(r) && Shaped(f) && Apart(r, f)
    requires forall i :: 0 <= i < |s| ==> Shaped(s[i]) && Apart(s[i], f)
    ensures Apart(Merged(s, r), f)
  {
    if s != [] {
      MergedApart(s[1..], r, f);
      MergedExtends(s[1..], r);
      if Touches(r, s[0]) {
        HullTouches(s[0], Merged(s[1..], r), f);
      }
    }
  }

  lemma {:induction false} UntouchedElements(s: seq<Range>, r: Range)
    ensures forall e :: e in Untouched(s, r) <==> e in s && !Touches(r, e)
  {
    if s != [] {
      UntouchedElements(s[1..], r);
      assert s == [s[0]] + s[1..];
    }
  }

  lemma {:induction false} UntouchedCanonical(s: seq<Range>, r: Range)
    requires Canonical(s)
    ensures Canonical(Untouched(s, r))
  {
    if s != [] {
      UntouchedCanonical(s[1..], r);
      UntouchedElements(s[1..], r);
      forall j | 0 <= j < |Untouched(s[1..], r)| ensures Apart(s[0], Untouched(s[1..], r)[j]) {
        assert Untouched(s[1..], r)[j] in s[1..];
      }
    }
  }

  /** Inserting keeps the list canonical: merging leaves no two ranges overlapping or touching. */
  lemma InsertedCanonical(s: seq<Range>, r: Range)
    requires Canonical(s) && Shaped(r)
    ensures Canonical(Inserted(s, r))
  {
    var u, m := Untouched(s, r), Merged(s, r);
    UntouchedCanonical(s, r);
    UntouchedElements(s, r);
    MergedExtends(s, r);
    forall j | 0 <= j < |u| ensures Apart(u[j], m) {
      assert u[j] in s && !Touches(r, u[j]);
      var k :| 0 <= k < |s| && s[k] == u[j];
      MergedApartFromUntouched(s, r, u[j], k);
    }
  }

  lemma {:induction false} MergedApartFromUntouched(s: seq<Range>, r: Range, f: Range, k: nat)
    requires Canonical(s) && Shaped(r) && k < |s| && s[k] == f && !Touches(r, f)
    ensures Apart(Merged(s, r), f)
  {
    TouchesIffNotApart(r, f);
    if k == 0 {
      MergedApart(s[1..], r, f);
    } else {
      MergedApartFromUntouched(s[1..], r, f, k - 1);
      MergedExtends(s[1..], r);
      if Touches(r, s[0]) {
        HullTouches(s[0], Merged(s[1..], r), f);
      }
    }
  }

  /** Inserting adds exactly the numbers of the new range. */
  lemma InsertedCovers(s: seq<Range>, r: Range)
    requires Canonical(s) && Shaped(r)
    ensures Covered(Inserted(s, r)) == Covered(s) + Interval(r)
  {
    var t := Inserted(s, r);
    UntouchedElements(s, r);
    forall x ensures CoveredBy(t, x) <==> CoveredBy(s, x) || Has(r, x) {
      MergedHas(s, r, x);
      if CoveredBy(t, x) {
        var i :| 0 <= i < |t| && Has(t[i], x);
        if i < |t| - 1 {
          assert t[i] in Untouched(s, r);
          assert t[i] in s;
        }
      }
      if CoveredBy(s, x) || Has(r, x) {
        if !Has(Merged(s, r), x) {
          var i :| 0 <= i < |s| && Has(s[i], x);
          assert s[i] in Untouched(s, r);
          assert s[i] in t;
        } else {
          assert t[|t| - 1] == Merged(s, r);
        }
      }
    }
  }

  lemma {:induction false} MergedRebase(t: seq<Range>, r: Range, e: Range)
    requires Shaped(r) && Shaped(e) && Touches(r, e)
    requires forall i :: 0 <= i < |t| ==> Shaped(t[i]) && Apart(e, t[i])
    ensures Merged(t, Hull(r, e)) == Hull(e, Merged(t, r))
    ensures Untouched(t, Hull(r, e)) == Untouched(t, r)
  {
    if t != [] {
      MergedRebase(t[1..], r, e);
      HullTouches(r, e, t[0]);
    }
  }

  /** One round of the merge loop: absorbing a touched entry changes neither what will remain
      untouched nor the range the loop will end with. */
  lemma {:induction false} MergeStep(s: seq<Range>, r: Range, i: nat)
    requires Canonical(s) && Shaped(r) && i < |s| && Touches(r, s[i])
    ensures Inserted(Delete(s, i), Hull(r, s[i])) == Inserted(s, r)
    ensures Canonical(Delete(s, i)) && Shaped(Hull(r, s[i]))
  {
    MergeStepParts(s, r, i);
  }

  lemma DeleteTail(s: seq<Range>, i: nat)
    requires 0 < i < |s|
    ensures Delete(s, i)[0] == s[0] && Delete(s, i)[1..] == Delete(s[1..], i - 1)
  {
  }

  lemma {:induction false} MergeStepParts(s: seq<Range>, r: Range, i: nat)
    requires Canonical(s) && Shaped(r) && i < |s| && Touches(r, s[i])
    ensures Untouched(Delete(s, i), Hull(r, s[i])) == Untouched(s, r)
    ensures Merged(Delete(s, i), Hull(r, s[i])) == Merged(s, r)
  {
    if i == 0 {
      assert Delete(s, 0) == s[1..];
      MergedRebase(s[1..], r, s[0]);
    } else {
      MergeStepParts(s[1..], r, i - 1);
      DeleteTail(s, i);
      HullTouches(r, s[i], s[0]);
    }
  }

  lemma {:induction false} NothingToMerge(s: seq<Range>, r: Range)
    requires forall i :: 0 <= i < |s| ==> !Touches(r, s[i])
    ensures Inserted(s, r) == s + [r]
  {
    NothingToMergeParts(s, r);
  }

  lemma {:induction false} NothingToMergeParts(s: seq<Range>, r: Range)
    requires forall i :: 0 <= i < |s| ==> !Touches(r, s[i])
    ensures Untouched(s, r) == s && Merged(s, r) == r
  {
    if s != [] {
      NothingToMergeParts(s[1..], r);
    }
  }

  // ----- remove -----

  /** Removing `r` would leave a piece of `e` on either side. */
  predicate Splits(r: Range, e: Range) {
    e.start < r.start && r.end < e.end
  }

  predicate Meets(r: Range, e: Range) { Overlaps(r, e).Some? }

  /** What stays in the slot of `e`: the whole entry, nothing, or the piece on one side of `r`. */
  function Trim(e: Range, r: Range): (t: seq<Range>)
    ensures |t| <= 1
  {
    if !Meets(r, e) then [e]
    else if Contains(e, r) then []
    else if r.start <= e.start then [Range(SaturatingInc(r.end), e.end)]
    else if r.end >= e.end then [Range(e.start, SaturatingDec(r.start))]
    else [Range(SaturatingInc(r.end), e.end)]
  }

  /** The piece below `r` of an entry that is split in two; it goes to the end of the list. */
  function Cut(e: Range, r: Range): (t: seq<Range>)
    ensures |t| <= 1
  {
    if Splits(r, e) then [Range(e.start, SaturatingDec(r.start))] else []
  }

  function Trims(s: seq<Range>, r: Range): seq<Range> {
    if s == [] then [] else Trim(s[0], r) + Trims(s[1..], r)
  }

  function Cuts(s: seq<Range>, r: Range): seq<Range> {
    if s == [] then [] else Cut(s[0], r) + Cuts(s[1..], r)
  }

  function Removed(s: seq<Range>, r: Range): seq<Range> {
    Trims(s, r) + Cuts(s, r)
  }

  lemma TrimHas(e: Range, r: Range, x: int)
    requires Shaped(e) && Shaped(r)
    ensures CoveredBy(Trim(e, r), x) || CoveredBy(Cut(e, r), x) <==> Has(e, x) && !Has(r, x)
  {
    var t, c := Trim(e, r), Cut(e, r);
    assert |t| == 1 ==> (CoveredBy(t, x) <==> Has(t[0], x));
    assert |c| == 1 ==> (CoveredBy(c, x) <==> Has(c[0], x));
  }

  lemma CoveredByConcat(a: seq<Range>, b: seq<Range>, x: int)
    ensures CoveredBy(a + b, x) <==> CoveredBy(a, x) || CoveredBy(b, x)
  {
    var c := a + b;
    if CoveredBy(a, x) {
      var i :| 0 <= i < |a| && Has(a[i], x);
      assert c[i] == a[i];
    }
    if CoveredBy(b, x) {
      var i :| 0 <= i < |b| && Has(b[i], x);
      assert c[|a| + i] == b[i];
    }
  }

  lemma {:induction false} PiecesHave(s: seq<Range>, r: Range, x: int)
    requires Shaped(r) && forall i :: 0 <= i < |s| ==> Shaped(s[i])
    ensures CoveredBy(Trims(s, r), x) || CoveredBy(Cuts(s, r), x) <==> CoveredBy(s, x) && !Has(r, x)
  {
    if s != [] {
      PiecesHave(s[1..], r, x);
      TrimHas(s[0], r, x);
      CoveredByConcat(Trim(s[0], r), Trims(s[1..], r), x);
      CoveredByConcat(Cut(s[0], r), Cuts(s[1..], r), x);
      CoveredByConcat([s[0]], s[1..], x);
      assert s == [s[0]] + s[1..];
      assert [s[0]][0] == s[0];
    }
  }

  /** Removing takes away exactly the numbers of the range. */
  lemma RemovedCovers(s: seq<Range>, r: Range)
    requires Canonical(s) && Shaped(r)
    ensures Covered(Removed(s, r)) == Covered(s) - Interval(r)
  {
    forall x ensures CoveredBy(Removed(s, r), x) <==> CoveredBy(s, x) && !Has(r, x) {
      PiecesHave(s, r, x);
      CoveredByConcat(Trims(s, r), Cuts(s, r), x);
    }
  }

  ghost predicate AllApart(a: seq<Range>, b: seq<Range>) {
    forall i, j :: 0 <= i < |a| && 0 <= j < |b| ==> Apart(a[i], b[j])
  }

  lemma CanonicalConcat(a: seq<Range>, b: seq<Range>)
    ensures Canonical(a + b) <==> Canonical(a) && Canonical(b) && AllApart(a, b)
  {
    var c := a + b;
    assert forall i :: 0 <= i < |a| ==> c[i] == a[i];
    assert forall j :: 0 <= j < |b| ==> c[|a| + j] == b[j];
    if Canonical(c) {
      forall i, j | 0 <= i < |a| && 0 <= j < |b| ensures Apart(a[i], b[j]) {
        assert Apart(c[i], c[|a| + j]);
      }
      forall i, j | 0 <= i < j < |b| ensures Apart(b[i], b[j]) {
        assert Apart(c[|a| + i], c[|a| + j]);
      }
    }
  }

  lemma {:induction false} PiecesApart(s: seq<Range>, r: Range, f: Range)
    requires Shaped(r) && forall i :: 0 <= i < |s| ==> Shaped(s[i]) && Apart(s[i], f)
    ensures AllApart(Trims(s, r), [f]) && AllApart(Cuts(s, r), [f])
  {
    if s != [] {
      PiecesApart(s[1..], r, f);
      assert |Trim(s[0], r)| == 1 ==> Apart(Trim(s[0], r)[0], f);
      assert |Cut(s[0], r)| == 1 ==> Apart(Cut(s[0], r)[0], f);
    }
  }

  lemma PiecesApartFrom(s: seq<Range>, r: Range, t: seq<Range>)
    requires Shaped(r) && (forall i :: 0 <= i < |s| ==> Shaped(s[i])) && AllApart(s, t)
    ensures AllApart(Trims(s, r), t) && AllApart(t, Trims(s, r))
    ensures AllApart(Cuts(s, r), t) && AllApart(t, Cuts(s, r))
  {
    forall j | 0 <= j < |t|
      ensures forall i :: 0 <= i < |Trims(s, r)| ==> Apart(Trims(s, r)[i], t[j])
      ensures forall i :: 0 <= i < |Cuts(s, r)| ==> Apart(Cuts(s, r)[i], t[j])
    {
      PiecesApart(s, r, t[j]);
      assert [t[j]][0] == t[j];
    }
  }

  lemma PieceCanonical(e: Range, r: Range)
    requires Shaped(e) && Shaped(r)
    ensures Canonical(Trim(e, r)) && Canonical(Cut(e, r)) && AllApart(Trim(e, r), Cut(e, r))
    ensures forall f :: Apart(e, f) ==> AllApart([f], Trim(e, r)) && AllApart([f], Cut(e, r))
  {
  }

  lemma {:induction false} PiecesCanonical(s: seq<Range>, r: Range)
    requires Canonical(s) && Shaped(r)
    ensures Canonical(Trims(s, r)) && Canonical(Cuts(s, r)) && AllApart(Trims(s, r), Cuts(s, r))
  {
    if s != [] {
      var e, s' := s[0], s[1..];
      PiecesCanonical(s', r);
      PieceCanonical(e, r);
      assert AllApart(s', Trim(e, r)) && AllApart(s', Cut(e, r)) by {
        forall i | 0 <= i < |s'| ensures AllApart([s'[i]], Trim(e, r)) && AllApart([s'[i]], Cut(e, r)) {
          assert s'[i] == s[i + 1];
        }
        assert forall i :: 0 <= i < |s'| ==> [s'[i]][0] == s'[i];
      }
      PiecesApartFrom(s', r, Trim(e, r));
      PiecesApartFrom(s', r, Cut(e, r));
      CanonicalConcat(Trim(e, r), Trims(s', r));
      CanonicalConcat(Cut(e, r), Cuts(s', r));
    }
  }

  /** Removing keeps the list canonical: pieces of one entry are separated by the removed range. */
  lemma RemovedCanonical(s: seq<Range>, r: Range)
    requires Canonical(s) && Shaped(r)
    ensures Canonical(Removed(s, r))
  {
    PiecesCanonical(s, r);
    CanonicalConcat(Trims(s, r), Cuts(s, r));
  }

  lemma {:induction false} TrimsConcat(a: seq<Range>, b: seq<Range>, r: Range)
    ensures Trims(a + b, r) == Trims(a, r) + Trims(b, r)
  {
    if a == [] {
      assert a + b == b;
    } else {
      TrimsConcat(a[1..], b, r);
      ConcatTail(a, b);
      ConcatAssoc(Trim(a[0], r), Trims(a[1..], r), Trims(b, r));
    }
  }

  lemma {:induction false} CutsConcat(a: seq<Range>, b: seq<Range>, r: Range)
    ensures Cuts(a + b, r) == Cuts(a, r) + Cuts(b, r)
  {
    if a == [] {
      assert a + b == b;
    } else {
      CutsConcat(a[1..], b, r);
      ConcatTail(a, b);
      ConcatAssoc(Cut(a[0], r), Cuts(a[1..], r), Cuts(b, r));
    }
  }

  lemma PiecesAt(a: seq<Range>, e: Range, b: seq<Range>, r: Range)
    ensures Trims(a + [e] + b, r) == Trims(a, r) + Trim(e, r) + Trims(b, r)
    ensures Cuts(a + [e] + b, r) == Cuts(a, r) + Cut(e, r) + Cuts(b, r)
  {
    TrimsConcat(a + [e], b, r);
    TrimsConcat(a, [e], r);
    CutsConcat(a + [e], b, r);
    CutsConcat(a, [e], r);
    assert Trims([e], r) == Trim(e, r) && Cuts([e], r) == Cut(e, r);
  }

  lemma {:induction false} NothingToRemove(s: seq<Range>, r: Range)
    requires Shaped(r) && forall i :: 0 <= i < |s| ==> Shaped(s[i]) && !Meets(r, s[i])
    ensures Trims(s, r) == s && Cuts(s, r) == []
  {
    if s != [] {
      NothingToRemove(s[1..], r);
    }
  }

  /** The number of entries the range to remove still overlaps: what each restart lowers. */
  function MeetCount(s: seq<Range>, r: Range): nat {
    if s == [] then 0 else (if Meets(r, s[0]) then 1 else 0) + MeetCount(s[1..], r)
  }

  lemma {:induction false} MeetCountConcat(a: seq<Range>, b: seq<Range>, r: Range)
    ensures MeetCount(a + b, r) == MeetCount(a, r) + MeetCount(b, r)
  {
    if a == [] {
      assert a + b == b;
    } else {
      MeetCountConcat(a[1..], b, r);
      ConcatTail(a, b);
    }
  }

  lemma MeetCountAt(a: seq<Range>, e: Range, b: seq<Range>, r: Range)
    ensures MeetCount(a + [e] + b, r) == MeetCount(a, r) + (if Meets(r, e) then 1 else 0) + MeetCount(b, r)
  {
    MeetCountConcat(a + [e], b, r);
    MeetCountConcat(a, [e], r);
    assert MeetCount([e], r) == if Meets(r, e) then 1 else 0;
  }

  lemma DeleteCanonical(s: seq<Range>, i: nat)
    requires Canonical(s) && i < |s|
    ensures Canonical(Delete(s, i))
  {
    var d := Delete(s, i);
    assert forall k :: 0 <= k < |d| ==> d[k] == s[if k < i then k else k + 1];
  }

  /** A round that deletes an entry lying inside the removed range. */
  lemma DeleteStep(s: seq<Range>, r: Range, i: nat)
    requires Canonical(s) && Shaped(r) && i < |s| && Meets(r, s[i]) && Contains(s[i], r)
    ensures Removed(Delete(s, i), r) == Removed(s, r)
    ensures Canonical(Delete(s, i))
    ensures MeetCount(Delete(s, i), r) < MeetCount(s, r)
  {
    DeleteCanonical(s, i);
    DropEmptyPiece(s[..i], s[i], s[i + 1..], r);
    assert s == s[..i] + [s[i]] + s[i + 1..];
  }

  lemma DropEmptyPiece(a: seq<Range>, e: Range, b: seq<Range>, r: Range)
    requires Meets(r, e) && Trim(e, r) == [] && Cut(e, r) == []
    ensures Removed(a + b, r) == Removed(a + [e] + b, r)
    ensures MeetCount(a + b, r) < MeetCount(a + [e] + b, r)
  {
    PiecesAt(a, e, b, r);
    TrimsConcat(a, b, r);
    CutsConcat(a, b, r);
    assert Trims(a, r) + [] == Trims(a, r) && Cuts(a, r) + [] == Cuts(a, r);
    MeetCountAt(a, e, b, r);
    MeetCountConcat(a, b, r);
  }

  /** A round that cuts the overlap off one end of an entry. */
  lemma TrimStep(s: seq<Range>, r: Range, i: nat, e: Range)
    requires Canonical(s) && Shaped(r) && i < |s|
    requires Meets(r, s[i]) && !Contains(s[i], r) && !Splits(r, s[i]) && Trim(s[i], r) == [e]
    ensures Removed(s[i := e], r) == Removed(s, r)
    ensures Canonical(s[i := e])
    ensures MeetCount(s[i := e], r) < MeetCount(s, r)
    ensures !Meets(r, e)
  {
    var a, b := s[..i], s[i + 1..];
    UpdateAsConcat(s, i, s[i]);
    UpdateAsConcat(s, i, e);
    PiecesAt(a, s[i], b, r);
    PiecesAt(a, e, b, r);
    MeetCountAt(a, s[i], b, r);
    MeetCountAt(a, e, b, r);
  }

  lemma SplitMeetsNoOther(s: seq<Range>, r: Range, i: nat, j: nat)
    requires Canonical(s) && Shaped(r) && i < |s| && Splits(r, s[i]) && j < |s| && j != i
    ensures !Meets(r, s[j])
  {
    assert if j < i then Apart(s[j], s[i]) else Apart(s[i], s[j]);
  }

  /** What a split makes of the list. */
  function SplitAt(s: seq<Range>, r: Range, i: nat): seq<Range>
    requires i < |s|
  {
    s[i := Range(SaturatingInc(r.end), s[i].end)] + [Range(s[i].start, SaturatingDec(r.start))]
  }

  lemma SplitPieces(a: seq<Range>, e: Range, b: seq<Range>, r: Range)
    requires Shaped(r) && Shaped(e) && Splits(r, e)
    requires Trims(a, r) == a && Cuts(a, r) == [] && Trims(b, r) == b && Cuts(b, r) == []
    ensures Removed(a + [e] + b, r)
            == a + [Range(SaturatingInc(r.end), e.end)] + b + [Range(e.start, SaturatingDec(r.start))]
  {
    PiecesAt(a, e, b, r);
    assert Trim(e, r) == [Range(SaturatingInc(r.end), e.end)];
  }

  lemma SplitIsRemoved(s: seq<Range>, r: Range, i: nat)
    requires Canonical(s) && Shaped(r) && i < |s| && Splits(r, s[i])
    ensures SplitAt(s, r, i) == Removed(s, r)
  {
    forall j | 0 <= j < |s| && j != i ensures !Meets(r, s[j]) {
      SplitMeetsNoOther(s, r, i, j);
    }
    NothingToRemove(s[..i], r);
    NothingToRemove(s[i + 1..], r);
    SplitPieces(s[..i], s[i], s[i + 1..], r);
    UpdateAsConcat(s, i, s[i]);
    UpdateAsConcat(s, i, Range(SaturatingInc(r.end), s[i].end));
  }

  lemma UpdateAsConcat(s: seq<Range>, i: nat, e: Range)
    requires i < |s|
    ensures s[i := e] == s[..i] + [e] + s[i + 1..]
    ensures e == s[i] ==> s == s[..i] + [e] + s[i + 1..]
  {
  }

  lemma SplitLeavesNothing(s: seq<Range>, r: Range, i: nat)
    requires Canonical(s) && Shaped(r) && i < |s| && Splits(r, s[i])
    ensures forall k :: 0 <= k <= |s| ==> Shaped(SplitAt(s, r, i)[k]) && !Meets(r, SplitAt(s, r, i)[k])
    ensures MeetCount(s, r) > 0
  {
    forall j | 0 <= j < |s| && j != i ensures !Meets(r, s[j]) {
      SplitMeetsNoOther(s, r, i, j);
    }
    assert s == s[..i] + [s[i]] + s[i + 1..];
    MeetCountAt(s[..i], s[i], s[i + 1..], r);
  }

  /** A round that splits an entry: afterwards nothing overlaps the removed range any more, so there is
      at most one split in a call. */
  lemma SplitStep(s: seq<Range>, r: Range, i: nat)
    requires Canonical(s) && Shaped(r) && i < |s| && Splits(r, s[i])
    ensures |Removed(s, r)| == |s| + 1
    ensures SplitAt(s, r, i) == Removed(s, r)
    ensures Trims(Removed(s, r), r) == Removed(s, r) && Cuts(Removed(s, r), r) == []
    ensures MeetCount(Removed(s, r), r) < MeetCount(s, r)
  {
    SplitIsRemoved(s, r, i);
    SplitLeavesNothing(s, r, i);
    NothingToRemove(SplitAt(s, r, i), r);
    NothingMeets(SplitAt(s, r, i), r);
  }

  lemma {:induction false} NothingMeets(s: seq<Range>, r: Range)
    requires forall i :: 0 <= i < |s| ==> !Meets(r, s[i])
    ensures MeetCount(s, r) == 0
  {
    if s != [] {
      NothingMeets(s[1..], r);
    }
  }

  // ----- subtract -----

  /** Removing the ranges of a list one after the other. */
  function Subtracted(s: seq<Range>, rs: seq<Range>): seq<Range> {
    if rs == [] then s else Removed(Subtracted(s, rs[..|rs| - 1]), rs[|rs| - 1])
  }

  /** No intermediate list of the first `n` removals is longer than `cap`. */
  ghost predicate StaysWithin(s: seq<Range>, rs: seq<Range>, n: nat, cap: nat)
    requires n <= |rs|
  {
    forall k :: 0 <= k <= n ==> |Subtracted(s, rs[..k])| <= cap
  }

  lemma SubtractedNext(s: seq<Range>, rs: seq<Range>, i: nat, cap: nat)
    requires i < |rs|
    ensures Subtracted(s, rs[..i + 1]) == Removed(Subtracted(s, rs[..i]), rs[i])
    ensures StaysWithin(s, rs, i, cap) ==> (StaysWithin(s, rs, i + 1, cap) <==> |Subtracted(s, rs[..i + 1])| <= cap)
    ensures StaysWithin(s, rs, |rs|, cap) ==> |Subtracted(s, rs[..i + 1])| <= cap
  {
    assert rs[..i + 1][..i] == rs[..i];
  }

  lemma {:induction false} SubtractedCovers(s: seq<Range>, rs: seq<Range>)
    requires Canonical(s) && forall i :: 0 <= i < |rs| ==> Shaped(rs[i])
    ensures Canonical(Subtracted(s, rs))
    ensures Covered(Subtracted(s, rs)) == Covered(s) - Covered(rs)
  {
    if rs != [] {
      var init, last := rs[..|rs| - 1], rs[|rs| - 1];
      SubtractedCovers(s, init);
      RemovedCanonical(Subtracted(s, init), last);
      RemovedCovers(Subtracted(s, init), last);
      assert rs == init + [last];
      forall x ensures CoveredBy(rs, x) <==> CoveredBy(init, x) || Has(last, x) {
        CoveredByConcat(init, [last], x);
        assert [last][0] == last;
      }
    }
  }
}
