/** The number of addresses a canonical list of ranges covers. */
module RangeSum {
  import opened Machine
  import opened Ranges

  const EVERYTHING := Range(0, U64_MAX)

  function Size(r: Range): int { r.end - r.start + 1 }

  function Total(s: seq<Range>): int {
    if s == [] then 0 else Total(s[..|s| - 1]) + Size(s[|s| - 1])
  }

  lemma {:induction false} IntervalCardinality(r: Range)
    requires Shaped(r)
    ensures |Interval(r)| == Size(r)
    decreases r.end - r.start
  {
    if r.start == r.end {
      assert Interval(r) == {r.start};
    } else {
      var r' := Range(r.start, r.end - 1);
      IntervalCardinality(r');
      assert Interval(r) == Interval(r') + {r.end};
    }
  }

  /** Over a canonical list the lengths add up to the exact number of covered addresses. */
  lemma {:induction false} TotalIsCardinality(s: seq<Range>)
    requires Canonical(s)
    ensures |Covered(s)| == Total(s)
  {
    if s == [] {
      assert Covered(s) == {};
    } else {
      TotalIsCardinality(s[..|s| - 1]);
      LastAddsItsSize(s);
    }
  }

  lemma LastAddsItsSize(s: seq<Range>)
    requires Canonical(s) && s != []
    ensures |Covered(s)| == |Covered(s[..|s| - 1])| + Size(s[|s| - 1])
  {
    var init, last := s[..|s| - 1], s[|s| - 1];
    IntervalCardinality(last);
    LastIsDisjoint(s);
    CoveredSnoc(init, last);
    assert s == init + [last];
  }

  lemma LastIsDisjoint(s: seq<Range>)
    requires Canonical(s) && s != []
    ensures Covered(s[..|s| - 1]) !! Interval(s[|s| - 1])
  {
    var init, last := s[..|s| - 1], s[|s| - 1];
    forall x | x in Covered(init) ensures x !in Interval(last) {
      var i :| 0 <= i < |init| && Has(init[i], x);
      assert Apart(s[i], last);
    }
  }

  lemma CoveredSnoc(init: seq<Range>, last: Range)
    ensures Covered(init + [last]) == Covered(init) + Interval(last)
  {
    forall x ensures CoveredBy(init + [last], x) <==> CoveredBy(init, x) || Has(last, x) {
      CoveredByConcat(init, [last], x);
      assert [last][0] == last;
    }
  }

  lemma {:induction false} SubsetSize<T>(x: set<T>, y: set<T>)
    requires x <= y
    ensures |x| <= |y|
    ensures |x| == |y| ==> x == y
  {
    if x != {} {
      var e :| e in x;
      SubsetSize(x - {e}, y - {e});
    }
  }

  lemma DistinctApart(s: seq<Range>, i: nat, j: nat)
    requires Canonical(s) && i < |s| && j < |s| && i != j
    ensures Apart(s[i], s[j])
  {
    assert if i < j then Apart(s[i], s[j]) else Apart(s[j], s[i]);
  }

  /** A canonical list that covers every address is the single full range: anything else would need
      two entries that touch. */
  lemma EverythingIsOneEntry(s: seq<Range>)
    requires Canonical(s) && Covered(s) == Interval(EVERYTHING)
    ensures s == [EVERYTHING]
  {
    assert 0 in Interval(EVERYTHING);
    assert CoveredBy(s, 0);
    var i :| 0 <= i < |s| && Has(s[i], 0);
    if s[i].end < U64_MAX {
      var x := s[i].end + 1;
      assert x in Interval(EVERYTHING);
      assert CoveredBy(s, x);
      var j :| 0 <= j < |s| && Has(s[j], x);
      DistinctApart(s, i, j);
      assert false;
    }
    assert s[i] == EVERYTHING;
    FullEntryIsAlone(s, i);
  }

  lemma FullEntryIsAlone(s: seq<Range>, i: nat)
    requires Canonical(s) && i < |s| && s[i] == EVERYTHING
    ensures s == [EVERYTHING]
  {
    if |s| > 1 {
      var j := if i == 0 then 1 else 0;
      DistinctApart(s, i, j);
      assert false;
    }
  }

  /** The total of a canonical list fits in 64 bits unless the list is the full range. */
  lemma TotalBound(s: seq<Range>)
    requires Canonical(s)
    ensures Total(s) <= U64_MAX + 1
    ensures Total(s) == U64_MAX + 1 <==> Covered(s) == Interval(EVERYTHING)
    ensures Covered(s) == Interval(EVERYTHING) <==> s == [EVERYTHING]
  {
    TotalIsCardinality(s);
    IntervalCardinality(EVERYTHING);
    assert Covered(s) <= Interval(EVERYTHING);
    SubsetSize(Covered(s), Interval(EVERYTHING));
    if Covered(s) == Interval(EVERYTHING) {
      EverythingIsOneEntry(s);
    }
    if s == [EVERYTHING] {
      assert Total([EVERYTHING]) == Total([]) + Size(EVERYTHING);
    }
  }

  /** Where the maximal runs of consecutive addresses of `free` begin. */
  ghost function RunStarts(free: set<int>): set<int> {
    set x | x in free && Begins(free, x)
  }

  predicate Begins(free: set<int>, x: int) { x - 1 !in free }

  lemma StartIsRunStart(s: seq<Range>, i: nat)
    requires Canonical(s) && i < |s|
    ensures s[i].start in RunStarts(Covered(s))
  {
    var x: int := s[i].start;
    assert Has(s[i], x);
    if CoveredBy(s, x - 1) {
      var j :| 0 <= j < |s| && Has(s[j], x - 1);
      DistinctApart(s, i, j);
      assert false;
    }
  }

  ghost function StartsOf(s: seq<Range>): set<int> {
    set i | 0 <= i < |s| :: s[i].start
  }

  lemma RunStartsAreStarts(s: seq<Range>)
    requires Canonical(s)
    ensures RunStarts(Covered(s)) == StartsOf(s)
  {
    forall x | x in RunStarts(Covered(s)) ensures x in StartsOf(s) {
      var i :| 0 <= i < |s| && Has(s[i], x);
      assert Has(s[i], x - 1) ==> CoveredBy(s, x - 1);
    }
    forall x | x in StartsOf(s) ensures x in RunStarts(Covered(s)) {
      var i :| 0 <= i < |s| && x == s[i].start;
      StartIsRunStart(s, i);
    }
  }

  lemma {:induction false} StartsDiffer(s: seq<Range>)
    requires Canonical(s)
    ensures |StartsOf(s)| == |s|
  {
    if s == [] {
      assert StartsOf(s) == {};
    } else {
      var init, last := s[..|s| - 1], s[|s| - 1];
      StartsDiffer(init);
      assert StartsOf(s) == StartsOf(init) + {last.start} by {
        assert forall i :: 0 <= i < |init| ==> init[i] == s[i];
      }
      assert last.start !in StartsOf(init) by {
        assert forall i :: 0 <= i < |init| ==> Apart(s[i], last);
      }
    }
  }

  /** A canonical list has one entry for each maximal run of what it covers: no list can be shorter. */
  lemma EntriesAreRuns(s: seq<Range>)
    requires Canonical(s)
    ensures |s| == |RunStarts(Covered(s))|
  {
    RunStartsAreStarts(s);
    StartsDiffer(s);
  }
}
