/** Whole runs of a range set, from the empty set on.

    A run is a list of states (the entries between calls) and the list of calls that lead from one to
    the next; the steps are the ones the methods of `RangeSet` promise.  Every run refines a machine
    whose state is just a set of addresses. */
module RangeSetRuns {
  import opened Machine
  import opened Ranges
  import opened RangeSum
  import opened RangeChoice
  import opened RangeSets

  datatype Event =
    | Insertion(r: Range)
    | Removal(r: Range)
    | Subtraction(rs: seq<Range>)
    | Allocation(gs: seq<Range>, size: u64, align: u64, result: Option<u64>)

  /** What a call that returns does to the entries. */
  ghost predicate Step(s: seq<Range>, e: Event, s': seq<Range>) {
    match e
    case Insertion(r) => Shaped(r) && s' == Inserted(s, r) && |s'| <= CAPACITY
    case Removal(r) => Shaped(r) && s' == Removed(s, r) && |s'| <= CAPACITY
    case Subtraction(rs) => Canonical(rs) && s' == Subtracted(s, rs) && StaysWithin(s, rs, |rs|, CAPACITY)
    case Allocation(gs, size, align, result) => AllocStep(s, gs, size, align, s', result)
  }

  ghost predicate IsRun(states: seq<seq<Range>>, events: seq<Event>) {
    && |states| == |events| + 1
    && states[0] == []
    && forall t :: 0 <= t < |events| ==> Step(states[t], events[t], states[t + 1])
  }

  /** The `size` addresses from `p` on. */
  ghost function Block(p: u64, size: u64): set<int> {
    set x: int | 0 <= x <= U64_MAX && InBlock(p, size, x)
  }

  predicate InBlock(p: u64, size: u64, x: int) { p <= x < p + size }

  /** `lost` is what an allocation of the block at `p` takes: the block and less than `align` bytes in
      front of it, all of it free before. */
  ghost predicate Takes(free: set<int>, size: u64, align: u64, p: u64, lost: Range) {
    && size > 0 && align > 0 && p % align == 0
    && lost.start <= p < lost.start + align && lost.end == p + size - 1
    && Block(p, size) <= Interval(lost) <= free
  }

  /** The same calls on a plain set of addresses. */
  ghost predicate SetStep(free: set<int>, e: Event, free': set<int>) {
    match e
    case Insertion(r) => free' == free + Interval(r)
    case Removal(r) => free' == free - Interval(r)
    case Subtraction(rs) => free' == free - Covered(rs)
    case Allocation(_, size, align, None) => free' == free
    case Allocation(_, size, align, Some(p)) =>
      exists lost :: Takes(free, size, align, p, lost) && free' == free - Interval(lost)
  }

  lemma AllocationRefines(s: seq<Range>, gs: seq<Range>, size: u64, align: u64, s': seq<Range>, result: Option<u64>)
    requires Canonical(s) && AllocStep(s, gs, size, align, s', result)
    ensures Canonical(s')
    ensures SetStep(Covered(s), Allocation(gs, size, align, result), Covered(s'))
  {
    match Choose(s, gs, size, align)
    case None =>
    case Some(c) =>
      ChoiceIsFree(s, gs, size, align, c);
      var lost := Range(c.base, c.end);
      RemovedCanonical(s, lost);
      RemovedCovers(s, lost);
      var i :| 0 <= i < |s| && s[i].start <= c.base && c.end <= s[i].end;
      forall x | x in Interval(lost) ensures x in Covered(s) {
        assert Has(s[i], x);
      }
      assert Takes(Covered(s), size, align, c.ptr, lost);
  }

  lemma StepRefines(s: seq<Range>, e: Event, s': seq<Range>)
    requires Canonical(s) && |s| <= CAPACITY && Step(s, e, s')
    ensures Canonical(s') && |s'| <= CAPACITY
    ensures SetStep(Covered(s), e, Covered(s'))
  {
    match e
    case Insertion(r) =>
      InsertedCanonical(s, r);
      InsertedCovers(s, r);
    case Removal(r) =>
      RemovedCanonical(s, r);
      RemovedCovers(s, r);
    case Subtraction(rs) =>
      SubtractedCovers(s, rs);
      assert rs[..|rs|] == rs;
    case Allocation(gs, size, align, result) =>
      AllocationRefines(s, gs, size, align, s', result);
  }

  /** In every reachable state the entries are canonical and within capacity. */
  lemma {:induction false} ReachableCanonical(states: seq<seq<Range>>, events: seq<Event>, t: nat)
    requires IsRun(states, events) && t <= |events|
    ensures Canonical(states[t]) && |states[t]| <= CAPACITY
  {
    if t > 0 {
      ReachableCanonical(states, events, t - 1);
      StepRefines(states[t - 1], events[t - 1], states[t]);
    }
  }

  /** Every run of the range set is a run of the plain set: it starts empty, and each call changes the
      covered addresses by the set operation it is named after. */
  lemma RunRefinesSets(states: seq<seq<Range>>, events: seq<Event>)
    requires IsRun(states, events)
    ensures Covered(states[0]) == {}
    ensures forall t :: 0 <= t < |events| ==> SetStep(Covered(states[t]), events[t], Covered(states[t + 1]))
  {
    forall t | 0 <= t < |events| ensures SetStep(Covered(states[t]), events[t], Covered(states[t + 1])) {
      ReachableCanonical(states, events, t);
      StepRefines(states[t], events[t], states[t + 1]);
    }
  }

  /** The number of addresses in any reachable state fits in 64 bits unless it is all of them. */
  lemma ReachableSum(states: seq<seq<Range>>, events: seq<Event>, t: nat)
    requires IsRun(states, events) && t <= |events|
    ensures |Covered(states[t])| == Total(states[t])
    ensures Total(states[t]) <= U64_MAX || states[t] == [EVERYTHING]
  {
    ReachableCanonical(states, events, t);
    TotalIsCardinality(states[t]);
    TotalBound(states[t]);
  }

  ghost predicate Allocates(e: Event, p: u64) {
    e.Allocation? && e.result == Some(p)
  }

  /** Nothing inserted by the calls `from .. to` overlaps the block. */
  ghost predicate NotFreed(events: seq<Event>, from: nat, to: nat, block: set<int>)
    requires from <= to <= |events|
  {
    forall t :: from <= t < to && events[t].Insertion? ==> Interval(events[t].r) !! block
  }

  lemma {:induction false} StaysTaken(states: seq<seq<Range>>, events: seq<Event>, from: nat, to: nat, block: set<int>)
    requires IsRun(states, events) && from <= to <= |events|
    requires Covered(states[from]) !! block && NotFreed(events, from, to, block)
    ensures Covered(states[to]) !! block
  {
    if from < to {
      StaysTaken(states, events, from, to - 1, block);
      RunRefinesSets(states, events);
      assert SetStep(Covered(states[to - 1]), events[to - 1], Covered(states[to]));
      assert Covered(states[to]) * block <= Covered(states[to - 1]) * block;
    }
  }

  /** No address is handed out twice: two blocks allocated in one run are disjoint unless part of the
      first was inserted again in between. */
  lemma NoDoubleAllocation(states: seq<seq<Range>>, events: seq<Event>, t: nat, u: nat, p: u64, q: u64)
    requires IsRun(states, events) && t < u < |events|
    requires Allocates(events[t], p) && Allocates(events[u], q)
    requires NotFreed(events, t + 1, u, Block(p, events[t].size))
    ensures Block(p, events[t].size) !! Block(q, events[u].size)
  {
    var block := Block(p, events[t].size);
    RunRefinesSets(states, events);
    assert SetStep(Covered(states[t]), events[t], Covered(states[t + 1]));
    assert Covered(states[t + 1]) !! block;
    StaysTaken(states, events, t + 1, u, block);
    assert SetStep(Covered(states[u]), events[u], Covered(states[u + 1]));
    assert Block(q, events[u].size) <= Covered(states[u]);
  }
}
