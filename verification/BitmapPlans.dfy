/** Where the blocks of a run of equal requests go, for every size, and when they are disjoint.

    A size that divides the word, or a multiple of it, gets consecutive blocks.  A size of more than a word that
    is no multiple of it leaves as many words free in front of each block as the block fills: the search counts
    whole clear words, and then places the block where it finds room for the rest. */
module BitmapPlans {
  import opened Machine
  import opened Bits
  import opened BitmapWords
  import opened Bitmap
  import opened BitmapRuns

  // ----- striped bitmaps -----

  /** The words that `m` blocks of `c` words and some bits take, the free words in front of them included. */
  function Stripes(c: nat, m: nat): nat {
    if m == 0 then 0 else Stripes(c, m - 1) + 2 * c + 1
  }

  /** Word `i` of a bitmap with `m` blocks of `c` words and `r` bits. */
  function StripeWord(c: nat, r: nat, m: nat, i: nat): u64
    requires r < WORD
    decreases m, r
  {
    if m == 0 then 0
    else
      var s := Stripes(c, m - 1);
      if i < s then StripeWord(c, r, m - 1, i)
      else if i < s + c then 0
      else if i < s + 2 * c then U64_MAX
      else if i == s + 2 * c then Pow2Fits(r); Ones(r)
      else 0
  }

  function Striped(c: nat, r: nat, m: nat, count: nat): (s: seq<u64>)
    requires r < WORD
    ensures |s| == count && forall i :: 0 <= i < count ==> s[i] == StripeWord(c, r, m, i)
  {
    seq(count, i requires 0 <= i < count => StripeWord(c, r, m, i))
  }

  lemma {:induction false} StripesGrow(c: nat, g: nat, m: nat)
    requires g <= m
    ensures Stripes(c, g) <= Stripes(c, m)
    ensures g < m ==> Stripes(c, g) + 2 * c + 1 <= Stripes(c, m)
  {
    if g < m {
      StripesGrow(c, g, m - 1);
    }
  }

  /** Stripe `g` of a bitmap with more than `g` blocks. */
  lemma {:induction false} InStripe(c: nat, r: nat, m: nat, g: nat, i: nat)
    requires r < WORD && g < m && Stripes(c, g) <= i < Stripes(c, g) + 2 * c + 1
    ensures var s := Stripes(c, g);
            StripeWord(c, r, m, i) == if i < s + c then 0 else if i < s + 2 * c then U64_MAX else Ones(r)
  {
    if g < m - 1 {
      StripesGrow(c, g, m - 1);
      InStripe(c, r, m - 1, g, i);
    }
  }

  lemma AboveStripes(c: nat, r: nat, m: nat, i: nat)
    requires r < WORD && i >= Stripes(c, m)
    ensures StripeWord(c, r, m, i) == 0
  {
  }

  // ----- the search over runs of equal words -----

  ghost predicate AllAre(words: seq<u64>, i: nat, j: nat, x: u64) {
    i <= j <= |words| && forall k :: i <= k < j ==> words[k] == x
  }

  /** Clear words are counted as long as the request needs whole words. */
  lemma {:induction false} ScanClear(words: seq<u64>, i: nat, d: nat, n: nat, start: nat, b: nat)
    requires d <= n && WORD * n < b && AllAre(words, i, i + n, 0)
    ensures Scan(words, i + d, WORD * d, start, b) == Scan(words, i + n, WORD * n, start, b)
    decreases n - d
  {
    if d < n {
      ScanClear(words, i, d + 1, n, start, b);
    }
  }

  lemma {:induction false} ScanFull(words: seq<u64>, i: nat, n: nat, compared: nat, start: nat, b: nat)
    requires n >= 1 && compared < b && AllAre(words, i, i + n, U64_MAX)
    ensures Scan(words, i, compared, start, b) == Scan(words, i + n, 0, (i + n) * WORD, b)
    decreases n
  {
    if n > 1 {
      ScanFull(words, i + 1, n - 1, 0, (i + 1) * WORD, b);
    }
  }

  /** A whole number of words is found once enough clear words have been counted. */
  lemma {:induction false} ScanWhole(words: seq<u64>, i: nat, d: nat, c: nat)
    requires d < c && AllAre(words, i, |words|, 0) && i + d <= |words|
    ensures Scan(words, i + d, WORD * d, i * WORD, WORD * c)
         == if i + c <= |words| then Some(i * WORD) else None
    decreases c - d
  {
    if i + d < |words| && d + 1 < c {
      ScanWhole(words, i, d + 1, c);
    }
  }

  /** Words that are too few for the request run out. */
  lemma {:induction false} ScanRunsOut(words: seq<u64>, i: nat, d: nat, start: nat, b: nat)
    requires AllAre(words, i, |words|, 0) && i + d <= |words| && WORD * (|words| - i) < b
    ensures Scan(words, i + d, WORD * d, start, b) == None
    decreases |words| - i - d
  {
    if i + d < |words| {
      ScanRunsOut(words, i, d + 1, start, b);
    }
  }

  lemma FitClear(r: nat)
    requires r < WORD
    ensures FirstFit(0, r) == Some(0)
  {
  }

  /** The word in which the last bits of an irregular request are looked for is clear: they are found at once. */
  lemma StopAtRest(words: seq<u64>, i: nat, c: nat, r: nat, start: nat)
    requires i < |words| && words[i] == 0 && 0 < r < WORD
    ensures Scan(words, i, WORD * c, start, WORD * c + r) == Some(i * WORD)
  {
    FitClear(r);
  }

  // ----- an irregular request of more than a word -----

  lemma ScanStripe(c: nat, r: nat, m: nat, count: nat, g: nat)
    requires c >= 1 && 0 < r < WORD && g < m && Stripes(c, m) <= count
    ensures Stripes(c, g + 1) <= count
    ensures var words, b := Striped(c, r, m, count), WORD * c + r;
            Scan(words, Stripes(c, g), 0, Stripes(c, g) * WORD, b) ==
            Scan(words, Stripes(c, g + 1), 0, Stripes(c, g + 1) * WORD, b)
  {
    var words, b, s := Striped(c, r, m, count), WORD * c + r, Stripes(c, g);
    StripesGrow(c, g + 1, m);
    forall i | s <= i < s + 2 * c + 1
      ensures words[i] == if i < s + c then 0 else if i < s + 2 * c then U64_MAX else Ones(r)
    {
      InStripe(c, r, m, g, i);
    }
    ScanClear(words, s, 0, c, s * WORD, b);
    ScanFull(words, s + c, c, WORD * c, s * WORD, b);
    SkipPartial(words, s + 2 * c, r, b);
  }

  lemma SkipPartial(words: seq<u64>, i: nat, r: nat, b: nat)
    requires i < |words| && 0 < r < WORD && b >= WORD && words[i] == Ones(r)
    ensures Scan(words, i, 0, i * WORD, b) == Scan(words, i + 1, 0, (i + 1) * WORD, b)
  {
    OnesNotFull(r);
    assert Ones(r) > 0 by {
      Pow2Monotone(1, r);
    }
  }

  lemma {:induction false} ScanStripes(c: nat, r: nat, m: nat, count: nat, g: nat)
    requires c >= 1 && 0 < r < WORD && g <= m && Stripes(c, m) <= count
    ensures Stripes(c, g) <= count
    ensures var words, b := Striped(c, r, m, count), WORD * c + r;
            Scan(words, 0, 0, 0, b) == Scan(words, Stripes(c, g), 0, Stripes(c, g) * WORD, b)
  {
    StripesGrow(c, g, m);
    if g > 0 {
      ScanStripes(c, r, m, count, g - 1);
      ScanStripe(c, r, m, count, g - 1);
    }
  }

  /** The next block is found `c` words behind the last one, if there are so many. */
  lemma FindStriped(c: nat, r: nat, m: nat, count: nat)
    requires c >= 1 && 0 < r < WORD && Stripes(c, m) <= count
    ensures Scan(Striped(c, r, m, count), 0, 0, 0, WORD * c + r)
         == if Stripes(c, m) + c < count then Some((Stripes(c, m) + c) * WORD) else None
  {
    var words, b, s := Striped(c, r, m, count), WORD * c + r, Stripes(c, m);
    ScanStripes(c, r, m, count, m);
    forall i | s <= i < count ensures words[i] == 0 {
      AboveStripes(c, r, m, i);
    }
    if s + c < count {
      ScanClear(words, s, 0, c, s * WORD, b);
      StopAtRest(words, s + c, c, r, s * WORD);
    } else {
      ScanRunsOut(words, s, 0, s * WORD, b);
    }
  }

  lemma MarkRest(r: nat)
    requires 0 < r < WORD
    ensures OrWord(0, Shl(LowMask(r), 0)) == Ones(r)
  {
    MarkAbove(0, r);
    assert Ones(0) == 0;
  }

  lemma MarkStriped(c: nat, r: nat, m: nat, count: nat)
    requires c >= 1 && 0 < r < WORD && Stripes(c, m + 1) <= count
    ensures Marked(Striped(c, r, m, count), Stripes(c, m) + c, 0, WORD * c + r) == Striped(c, r, m + 1, count)
  {
    var j, b := Stripes(c, m) + c, WORD * c + r;
    forall k | 0 <= k < count ensures MarkedWord(StripeWord(c, r, m, k), j, 0, b, k) == StripeWord(c, r, m + 1, k) {
      MarkStripeWord(c, r, m, k);
    }
  }

  lemma MarkStripeWord(c: nat, r: nat, m: nat, k: nat)
    requires c >= 1 && 0 < r < WORD
    ensures MarkedWord(StripeWord(c, r, m, k), Stripes(c, m) + c, 0, WORD * c + r, k) == StripeWord(c, r, m + 1, k)
  {
    var j := Stripes(c, m) + c;
    if k >= Stripes(c, m) {
      AboveStripes(c, r, m, k);
    }
    if j <= k < j + c {
      FullWord();
    } else if k == j + c {
      MarkRest(r);
    }
  }

  lemma RequestStriped(c: nat, r: nat, m: nat, count: nat, b: nat)
    requires c >= 1 && 0 < r < WORD && b == WORD * c + r && Stripes(c, m) <= count
    ensures Request(Striped(c, r, m, count), b).Found? ==>
              && Stripes(c, m + 1) <= count
              && Request(Striped(c, r, m, count), b) == Found((Stripes(c, m) + c) * WORD, Striped(c, r, m + 1, count))
  {
    var words, start := Striped(c, r, m, count), (Stripes(c, m) + c) * WORD;
    FindStriped(c, r, m, count);
    if Stripes(c, m) + 2 * c < count {
      MarkStriped(c, r, m, count);
      EndOfStripe(Stripes(c, m) + c, c, r);
      RequestFound(words, b, start, Stripes(c, m) + c, Striped(c, r, m + 1, count));
    } else if Stripes(c, m) + c < count {
      EndOfStripe(Stripes(c, m) + c, c, r);
    }
  }

  lemma EndOfStripe(j: nat, c: nat, r: nat)
    requires r < WORD
    ensures (j * WORD + (WORD * c + r)) / WORD == j + c && j * WORD / WORD == j && j * WORD % WORD == 0
  {
  }

  // ----- regular requests -----

  lemma RequestWhole(n: nat, count: nat, b: nat)
    requires b >= WORD && b % WORD == 0 && n % WORD == 0 && n / WORD < count
    ensures Request(Packed(n, count), b).Found? ==> Request(Packed(n, count), b) == Found(n, Packed(n + b, count))
  {
    var w, c := n / WORD, b / WORD;
    if w + c < count {
      RequestLarge(n, count, b, w, c);
    } else {
      TooFewWords(w, count, c);
    }
  }

  lemma TooFewWords(w: nat, count: nat, c: nat)
    requires c >= 1 && w < count <= w + c
    ensures !Request(Packed(WORD * w, count), WORD * c).Found?
  {
    var words := Packed(WORD * w, count);
    WholeWords(w, c);
    SkipFull(WORD * w, count, 0, WORD * c);
    assert AllAre(words, w, |words|, 0);
    ScanWhole(words, w, 0, c);
  }

  lemma RequestPart(n: nat, count: nat, b: nat)
    requires 1 <= b < WORD && n / WORD < count
    ensures Request(Packed(n, count), b).Found? ==>
              Request(Packed(n, count), b) == Found(n, Packed(Min(n + b, n / WORD * WORD + WORD), count))
  {
    ScanSmall(n, count, b);
    if (n + b) / WORD < count {
      RequestSmall(n, count, b);
    }
  }

  // ----- the plan of a run -----

  predicate Straddles(b: nat) { b > WORD && b % WORD != 0 }

  /** The units of `m` blocks. */
  function Units(b: nat, m: nat): nat {
    if m == 0 then 0 else Units(b, m - 1) + b
  }

  lemma {:induction false} UnitsAreProduct(b: nat, m: nat)
    ensures Units(b, m) == m * b
  {
    if m > 0 {
      UnitsAreProduct(b, m - 1);
      assert (m - 1) * b == m * b - b;
    }
  }

  /** Where block `m` of a run goes. */
  function Place(b: nat, m: nat): nat {
    if Straddles(b) then (Stripes(b / WORD, m) + b / WORD) * WORD else Units(b, m)
  }

  /** The bitmap once `m` blocks have been handed out. */
  function PlanMap(units: nat, b: nat, m: nat): Map {
    var count := units / WORD + 1;
    Map(if Straddles(b) then Striped(b / WORD, b % WORD, m, count)
        else if b < WORD && b > 0 && WORD % b != 0 then Packed(Min(Units(b, m), WORD), count)
        else Packed(Units(b, m), count), Units(b, m))
  }

  predicate InArray(units: nat, b: nat, m: nat) {
    Straddles(b) ==> Stripes(b / WORD, m) <= units / WORD + 1
  }

  /** The sizes whose runs follow the plan.  A size that neither divides the word nor fills one does so only if
      memory is used up before the second word is reached. */
  predicate Safe(units: nat, b: nat)
    requires b >= 1
  {
    b >= WORD || WORD % b == 0 || units <= (WORD / b + 1) * b
  }

  /** A granted request of a run on plan is placed on plan and keeps the run on plan. */
  ghost predicate OnPlan(units: nat, b: nat, m: nat)
    requires b >= 1
  {
    var s := PlanMap(units, b, m);
    AnswerOf(units, s, b).Granted? ==>
      && AnswerOf(units, s, b) == Granted(Place(b, m))
      && After(units, s, b) == PlanMap(units, b, m + 1)
      && InArray(units, b, m + 1)
  }

  /** It is enough to look at the bitmap, and only while there are units left. */
  lemma OnPlanBy(units: nat, b: nat, m: nat)
    requires b >= 1
    requires var words := PlanMap(units, b, m).words;
             Units(b, m) < units && Request(words, b).Found? ==>
               && Request(words, b) == Found(Place(b, m), PlanMap(units, b, m + 1).words)
               && InArray(units, b, m + 1)
    ensures OnPlan(units, b, m)
  {
  }

  lemma PlanStraddles(units: nat, b: nat, m: nat)
    requires Straddles(b) && InArray(units, b, m)
    ensures OnPlan(units, b, m)
  {
    RequestStriped(b / WORD, b % WORD, m, units / WORD + 1, b);
    OnPlanBy(units, b, m);
  }

  lemma PlanWhole(units: nat, b: nat, m: nat)
    requires b >= WORD && b % WORD == 0
    ensures OnPlan(units, b, m)
  {
    UnitsDivide(b, m, WORD);
    if Units(b, m) < units {
      RequestWhole(Units(b, m), units / WORD + 1, b);
    }
    OnPlanBy(units, b, m);
  }

  lemma {:induction false} UnitsDivide(b: nat, m: nat, d: nat)
    requires d > 0 && b % d == 0
    ensures Units(b, m) % d == 0
  {
    if m > 0 {
      UnitsDivide(b, m - 1, d);
      SumDivides(Units(b, m - 1), b, d);
    }
  }

  lemma SumDivides(x: nat, y: nat, d: nat)
    requires d > 0 && x % d == 0 && y % d == 0
    ensures (x + y) % d == 0
  {
    var p, q := x / d, y / d;
    assert x + y == (p + q) * d;
    DivModUnique(x + y, d, p + q, 0);
  }

  lemma RequestDivides(n: nat, count: nat, b: nat)
    requires 1 <= b < WORD && WORD % b == 0 && n % b == 0 && n / WORD < count
    ensures Request(Packed(n, count), b).Found? ==> Request(Packed(n, count), b) == Found(n, Packed(n + b, count))
  {
    SmallRegular(n, b);
    WithinWord(n, b);
    RequestPart(n, count, b);
  }

  lemma WithinWord(n: nat, b: nat)
    requires n % WORD + b <= WORD
    ensures Min(n + b, n / WORD * WORD + WORD) == n + b
  {
  }

  lemma PlanDivides(units: nat, b: nat, m: nat)
    requires 1 <= b < WORD && WORD % b == 0
    ensures OnPlan(units, b, m)
  {
    UnitsDivide(b, m, b);
    if Units(b, m) < units {
      RequestDivides(Units(b, m), units / WORD + 1, b);
    }
    OnPlanBy(units, b, m);
  }

  lemma PlanFirstWord(units: nat, b: nat, m: nat)
    requires 1 <= b < WORD && WORD % b != 0 && units <= (WORD / b + 1) * b
    ensures OnPlan(units, b, m)
  {
    if Units(b, m) < units {
      BeforeLast(m, WORD / b, b);
      RequestPart(Units(b, m), units / WORD + 1, b);
    }
    OnPlanBy(units, b, m);
  }

  lemma BeforeLast(m: nat, q: nat, b: nat)
    requires 1 <= b && Units(b, m) < (q + 1) * b && q == WORD / b && WORD % b != 0
    ensures Units(b, m) < WORD
  {
    UnitsAreProduct(b, m);
    MulAtLeast(m - q, b);
    assert (m - q) * b == m * b - q * b;
    assert WORD == q * b + WORD % b;
  }

  lemma PlanHolds(units: nat, b: nat, m: nat)
    requires b >= 1 && Safe(units, b) && InArray(units, b, m)
    ensures OnPlan(units, b, m)
  {
    if Straddles(b) {
      PlanStraddles(units, b, m);
    } else if b >= WORD {
      PlanWhole(units, b, m);
    } else if WORD % b == 0 {
      PlanDivides(units, b, m);
    } else {
      PlanFirstWord(units, b, m);
    }
  }

  // ----- runs -----

  /** How many of the first `k` requests are granted. */
  function GrantsBefore(units: nat, b: nat, k: nat): nat
    requires b >= 1
  {
    if k == 0 then 0 else GrantsBefore(units, b, k - 1) + if AnswerAt(units, b, k - 1).Granted? then 1 else 0
  }

  /** Every request of a run is refused or gets the next planned place, and the bitmap is the planned one. */
  lemma {:induction false} RunFollowsPlan(units: nat, b: nat, k: nat)
    requires b >= 1 && Safe(units, b)
    ensures var m := GrantsBefore(units, b, k);
            && InArray(units, b, m) && StateAt(units, b, k) == PlanMap(units, b, m)
            && (AnswerAt(units, b, k).Granted? ==> AnswerAt(units, b, k) == Granted(Place(b, m)))
  {
    if k == 0 {
      EmptyPlan(units, b);
    } else {
      RunFollowsPlan(units, b, k - 1);
      PlanHolds(units, b, GrantsBefore(units, b, k - 1));
    }
    PlanHolds(units, b, GrantsBefore(units, b, k));
  }

  lemma EmptyPlan(units: nat, b: nat)
    requires b >= 1
    ensures StateAt(units, b, 0) == PlanMap(units, b, 0) && InArray(units, b, 0)
  {
    if Straddles(b) {
      assert Striped(b / WORD, b % WORD, 0, units / WORD + 1) == Packed(0, units / WORD + 1);
    }
  }

  lemma {:induction false} GrantsGrow(units: nat, b: nat, j: nat, k: nat)
    requires b >= 1 && j < k && AnswerAt(units, b, j).Granted?
    ensures GrantsBefore(units, b, j) < GrantsBefore(units, b, k)
  {
    if j + 1 < k {
      GrantsGrow(units, b, j, k - 1);
    }
  }

  lemma PlacesApart(b: nat, m: nat, m': nat)
    requires b >= 1 && m < m'
    ensures Place(b, m) + b <= Place(b, m')
  {
    if Straddles(b) {
      StripesGrow(b / WORD, m, m');
    } else {
      UnitsApart(b, m, m');
    }
  }

  lemma {:induction false} UnitsApart(b: nat, m: nat, m': nat)
    requires m < m'
    ensures Units(b, m) + b <= Units(b, m')
  {
    if m + 1 < m' {
      UnitsApart(b, m, m' - 1);
    }
  }

  lemma PlannedRunDisjoint(units: nat, b: nat)
    requires b >= 1 && Safe(units, b)
    ensures RunDisjoint(units, b)
  {
    forall j: nat, k: nat | j < k && AnswerAt(units, b, j).Granted? && AnswerAt(units, b, k).Granted?
      ensures !Overlap(AnswerAt(units, b, j).start, AnswerAt(units, b, k).start, b)
    {
      RunFollowsPlan(units, b, j);
      RunFollowsPlan(units, b, k);
      GrantsGrow(units, b, j, k);
      PlacesApart(b, GrantsBefore(units, b, j), GrantsBefore(units, b, k));
    }
  }

  /** Blocks of a run never overlap exactly when the size fills a word, divides it, or uses up the memory before
      the second word is reached. */
  lemma RunDisjointIff(units: nat, b: nat)
    requires b >= 1
    ensures RunDisjoint(units, b) <==> b >= WORD || WORD % b == 0 || units <= (WORD / b + 1) * b
  {
    if Safe(units, b) {
      PlannedRunDisjoint(units, b);
    } else {
      IrregularRunOverlaps(units, b);
      NotDisjoint(units, b, WORD / b);
    }
  }
}
